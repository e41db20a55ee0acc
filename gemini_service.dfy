/** The text-to-speech session controller: one lazily created audio
    context and a single slot for the source that is playing. The remote
    synthesiser and the audio decoder are oracles passed to `Speak`; the
    platform's audio nodes are reduced to a handle that can be started and
    halted, and the end of playback is the event `OnEnded`. */
module SpeechService {
  import opened Types

  const SampleRate := 24000
  const Channels := 1
  const TtsModel := "gemini-2.5-flash-preview-tts"
  const PromptPrefix := "Please read the following text clearly and naturally: "

  datatype SpeechRequest = SpeechRequest(model: string, prompt: string, voice: VoiceName)

  /** The service's answer: the call threw, or a response whose first
      candidate may carry base64 audio. */
  datatype SynthesisResponse = Rejected | Responded(inlineData: Option<string>)

  datatype AudioBuffer = AudioBuffer(samples: seq<int>, sampleRate: nat, channels: nat)

  /** Why `speak` threw. */
  datatype SpeakError = SynthesisFailed | NoAudioData | DecodeFailed

  /** The request `speak` sends for `text`. */
  function RequestFor(text: string, voice: VoiceName): SpeechRequest {
    SpeechRequest(TtsModel, PromptPrefix + text, voice)
  }

  /** What the synthesis and decoding steps of `speak` produce: a buffer, or
      the error that makes `speak` throw. A missing or empty payload counts
      as no audio. */
  function Synthesis(
    request: SpeechRequest,
    synthesize: SpeechRequest -> SynthesisResponse,
    decode: (string, nat, nat) -> Option<AudioBuffer>): Result<AudioBuffer, SpeakError>
  {
    match synthesize(request)
    case Rejected => Failure(SynthesisFailed)
    case Responded(None) => Failure(NoAudioData)
    case Responded(Some(data)) =>
      if data == "" then Failure(NoAudioData)
      else match decode(data, SampleRate, Channels)
        case None => Failure(DecodeFailed)
        case Some(buffer) => Success(buffer)
  }

  class AudioContext {
    const sampleRate: nat

    constructor (sampleRate: nat)
      ensures this.sampleRate == sampleRate
    {
      this.sampleRate := sampleRate;
    }
  }

  /** An audio buffer source: started once, halted by `stop`, and marked
      `ended` when its ended event has been delivered. */
  class SourceNode {
    const buffer: AudioBuffer
    var started: bool
    var halts: nat
    var ended: bool

    constructor (buffer: AudioBuffer)
      ensures this.buffer == buffer && !started && halts == 0 && !ended
    {
      this.buffer := buffer;
      started, halts, ended := false, 0, false;
    }

    /** Audible right now. */
    predicate Sounding()
      reads this
    {
      started && halts == 0 && !ended
    }

    method Start()
      modifies this
      ensures started && halts == old(halts) && ended == old(ended)
    {
      started := true;
    }

    method Stop()
      modifies this
      ensures halts == old(halts) + 1 && started == old(started) && ended == old(ended)
    {
      halts := halts + 1;
    }
  }

  /** What the controller did, in order. */
  datatype Event =
    | Halt(source: SourceNode)
    | Request(request: SpeechRequest)
    | Install(source: SourceNode)
    | Begin(source: SourceNode)
    | Ended(source: SourceNode)

  /** `speak` either throws or hands back the source whose end resolves
      the returned promise. */
  datatype SpeakOutcome = Failed(error: SpeakError) | Playing(source: SourceNode)

  /** The event `stop` records: one halt of the held source, if any. */
  function HaltOf(s: SourceNode?): seq<Event> {
    if s == null then [] else [Halt(s)]
  }

  class TtsService {
    var audioContext: AudioContext?
    var currentSource: SourceNode?
    /** Every source this service has created. */
    ghost var sources: set<SourceNode>
    ghost var trace: seq<Event>

    ghost predicate Valid()
      reads this
    {
      && (currentSource != null ==> currentSource in sources)
      && (audioContext != null ==> audioContext.sampleRate == SampleRate)
    }

    /** The slot's contents as a set of objects. */
    ghost function Slot(): set<SourceNode>
      reads this
    {
      if currentSource == null then {} else {currentSource}
    }

    /** At most one source is audible, and it is the one held in the slot. */
    ghost predicate SingleSession()
      reads this, sources
    {
      && (forall s :: s in sources && s.Sounding() ==> s == currentSource)
      && (currentSource != null ==> currentSource in sources && currentSource.Sounding())
    }

    constructor ()
      ensures Valid() && SingleSession()
      ensures audioContext == null && currentSource == null
      ensures sources == {} && trace == []
    {
      audioContext, currentSource := null, null;
      sources, trace := {}, [];
    }

    /** The context is made on first use, at 24000 Hz, and reused after. */
    method GetAudioContext() returns (ctx: AudioContext)
      requires Valid()
      modifies this`audioContext
      ensures Valid()
      ensures ctx == audioContext && ctx.sampleRate == SampleRate
      ensures old(audioContext) != null ==> ctx == old(audioContext)
      ensures old(audioContext) == null ==> fresh(ctx)
    {
      if audioContext == null {
        audioContext := new AudioContext(SampleRate);
      }
      ctx := audioContext;
    }

    /** Halts the held source exactly once and empties the slot; with an
        empty slot nothing at all changes, so a second call is a no-op. */
    method Stop()
      requires Valid()
      modifies this`currentSource, this`trace, currentSource
      ensures Valid()
      ensures currentSource == null
      ensures old(currentSource) != null ==>
        && old(currentSource).halts == old(currentSource.halts) + 1
        && old(currentSource).started == old(currentSource.started)
        && old(currentSource).ended == old(currentSource.ended)
      ensures trace == old(trace) + HaltOf(old(currentSource))
      ensures old(currentSource) == null ==> unchanged(this)
      ensures old(SingleSession()) ==> SingleSession()
    {
      if currentSource != null {
        currentSource.Stop();
        trace := trace + [Halt(currentSource)];
        currentSource := null;
      }
    }

    /** Stops first, then asks for `RequestFor(text, voice)`; on any failure
        throws with the slot empty, otherwise installs a fresh source in the
        slot and starts it. */
    method Speak(
      text: string,
      synthesize: SpeechRequest -> SynthesisResponse,
      decode: (string, nat, nat) -> Option<AudioBuffer>,
      voice: VoiceName := Kore)
      returns (outcome: SpeakOutcome)
      requires Valid()
      modifies this, currentSource
      ensures Valid()
      ensures audioContext != null
      ensures old(audioContext) != null ==> audioContext == old(audioContext)
      ensures old(currentSource) != null ==>
        && old(currentSource).halts == old(currentSource.halts) + 1
        && old(currentSource).started == old(currentSource.started)
        && old(currentSource).ended == old(currentSource.ended)
      ensures var request := RequestFor(text, voice);
        match Synthesis(request, synthesize, decode)
        case Failure(e) =>
          && outcome == Failed(e)
          && currentSource == null
          && sources == old(sources)
          && trace == old(trace) + HaltOf(old(currentSource)) + [Request(request)]
        case Success(buffer) =>
          && outcome.Playing?
          && var s := outcome.source;
          && fresh(s) && s.buffer == buffer && s.Sounding()
          && currentSource == s
          && sources == old(sources) + {s}
          && trace == old(trace) + HaltOf(old(currentSource)) + [Request(request), Install(s), Begin(s)]
      ensures old(SingleSession()) ==> SingleSession()
    {
      Stop();
      var ctx := GetAudioContext();
      var request := RequestFor(text, voice);
      trace := trace + [Request(request)];
      var response := synthesize(request);
      var data: string;
      match response {
        case Rejected =>
          return Failed(SynthesisFailed);
        case Responded(inline) =>
          if inline.None? || inline.value == "" {
            return Failed(NoAudioData);
          }
          data := inline.value;
      }
      var decoded := decode(data, SampleRate, Channels);
      if decoded.None? {
        return Failed(DecodeFailed);
      }
      var source := Play(decoded.value);
      outcome := Playing(source);
    }

    /** The tail of a successful `speak`: a new source for `buffer` is put
        in the empty slot, and only then started. */
    method Play(buffer: AudioBuffer) returns (source: SourceNode)
      requires Valid() && currentSource == null
      modifies this`currentSource, this`sources, this`trace
      ensures Valid()
      ensures fresh(source) && source.buffer == buffer && source.Sounding()
      ensures currentSource == source
      ensures sources == old(sources) + {source}
      ensures trace == old(trace) + [Install(source), Begin(source)]
      ensures old(SingleSession()) ==> SingleSession()
    {
      source := new SourceNode(buffer);
      sources := sources + {source};
      currentSource := source;
      trace := trace + [Install(source)];
      source.Start();
      trace := trace + [Begin(source)];
    }

    /** The `onended` callback of a started source: it marks the source as
        ended (resolving the promise) and empties the slot WITHOUT checking
        that `s` is the held source. The single-session invariant survives
        exactly when the slot held `s` or nothing. */
    method OnEnded(s: SourceNode)
      requires Valid() && s in sources && s.started && !s.ended
      modifies this`currentSource, this`trace, s
      ensures Valid()
      ensures s.ended && s.started && s.halts == old(s.halts)
      ensures currentSource == null
      ensures trace == old(trace) + [Ended(s)]
      ensures old(SingleSession()) && (old(currentSource) == null || old(currentSource) == s) ==> SingleSession()
      ensures old(SingleSession()) && old(currentSource) != null && old(currentSource) != s ==> !SingleSession()
    {
      ghost var held := currentSource;
      ghost var wasSingle := SingleSession();
      s.ended := true;
      currentSource := null;
      trace := trace + [Ended(s)];
      assert wasSingle && held != null && held != s ==> held in sources && held.Sounding();
    }
  }

  /** Speaking twice in a row: the first source is halted, not left to
      finish, and only the second one sounds. */
  method SpeakTwice(
    synthesize: SpeechRequest -> SynthesisResponse,
    decode: (string, nat, nat) -> Option<AudioBuffer>)
    returns (tts: TtsService, first: SpeakOutcome, second: SpeakOutcome)
    requires Synthesis(RequestFor("text", Kore), synthesize, decode).Success?
    requires Synthesis(RequestFor("other", Puck), synthesize, decode).Success?
    ensures first.Playing? && second.Playing? && first.source != second.source
    ensures first.source.halts == 1 && !first.source.Sounding()
    ensures tts.currentSource == second.source && second.source.Sounding()
    ensures second.source.buffer == Synthesis(RequestFor("other", Puck), synthesize, decode).value
    ensures tts.SingleSession()
  {
    tts := new TtsService();
    first := tts.Speak("text", synthesize, decode);
    second := tts.Speak("other", synthesize, decode, Puck);
  }

  /** After a failed `speak` the slot is empty and the next `speak`
      proceeds normally. */
  method RetryAfterFailure(
    failing: SpeechRequest -> SynthesisResponse,
    working: SpeechRequest -> SynthesisResponse,
    decode: (string, nat, nat) -> Option<AudioBuffer>,
    text: string)
    returns (tts: TtsService, first: SpeakOutcome, second: SpeakOutcome)
    requires Synthesis(RequestFor(text, Kore), failing, decode).Failure?
    requires Synthesis(RequestFor(text, Kore), working, decode).Success?
    ensures first.Failed? && second.Playing?
    ensures tts.currentSource == second.source && second.source.Sounding()
    ensures tts.SingleSession()
  {
    tts := new TtsService();
    first := tts.Speak(text, failing, decode);
    assert tts.currentSource == null;
    second := tts.Speak(text, working, decode);
  }
}
