/** The reader's navigation controller: the component state of the app
    and the handlers that change it. Speech goes through the single
    `TtsService` the app shares; parsing goes through the paginator. */
module ReaderApp {
  import opened Types
  import Paginator
  import opened SpeechService

  const PdfMimeType := "application/pdf"
  const ParseErrorMessage := "Failed to parse the file. Please try a different PDF or Text file."
  const SpeechErrorMessage := "Failed to generate speech. Please check your API key or connection."

  /** The chosen file as each parser would see it: the page items the PDF
      library extracts (None when it throws), the decoded text (None when
      reading throws), and the random identifier a parser would draw. */
  datatype UploadedFile = UploadedFile(
    name: string,
    mimeType: string,
    pdfItems: Option<seq<seq<string>>>,
    text: Option<string>,
    id: string)

  /** The book an upload produces, or None when parsing throws. The MIME
      type alone picks the parser; anything but a PDF is read as text. */
  function ParsedBook(f: UploadedFile): Option<Book> {
    if f.mimeType == PdfMimeType then
      match f.pdfItems
      case None => None
      case Some(items) => Some(Paginator.PdfBook(items, f.name, f.id))
    else
      match f.text
      case None => None
      case Some(t) => Some(Paginator.TextBook(t, f.name, f.id))
  }

  /** Every book an upload can produce is well formed. */
  lemma ParsedBookWellFormed(f: UploadedFile)
    ensures ParsedBook(f).Some? ==> WellFormed(ParsedBook(f).value)
  {
    match f.pdfItems {
      case Some(items) => Paginator.PdfBookShape(items, f.name, f.id);
      case None =>
    }
    match f.text {
      case Some(t) => Paginator.TextBookShape(t, f.name, f.id);
      case None =>
    }
  }

  /** The text the page view shows (`book.pages[currentPage].text`); it
      exists only when the book has a page at that index. */
  function DisplayedText(b: Book, currentPage: int): string
    requires 0 <= currentPage < |b.pages|
  {
    b.pages[currentPage].text
  }

  /** A book without pages (the empty text file) has nothing to display at
      any page index, the initial index 0 included. */
  lemma EmptyBookHasNoPageToShow(b: Book, currentPage: int)
    requires WellFormed(b) && b.totalPages == 0
    ensures !(0 <= currentPage < |b.pages|)
  {
  }

  class Reader {
    var book: Option<Book>
    var currentPage: int
    var isReading: bool
    var isProcessing: bool
    var settings: ReadingSettings
    var error: Option<string>
    /** Sources whose `speak` a suspended `handleSpeak` is still awaiting. */
    var awaiting: set<SourceNode>
    const tts: TtsService

    /** The page index stays in range whenever there is a page to be in. */
    ghost predicate InBounds()
      reads this
    {
      && 0 <= currentPage
      && (book.None? ==> currentPage == 0)
      && (book.Some? && book.value.totalPages >= 1 ==> currentPage <= book.value.totalPages - 1)
    }

    ghost predicate Valid()
      reads this, tts
    {
      && tts.Valid()
      && InBounds()
      && (book.Some? ==> WellFormed(book.value))
      && awaiting <= tts.sources
    }

    /** The page view of a loaded book with at least one page: the
        reader's invariant keeps `currentPage` on an existing page, so
        `book.pages[currentPage]` is always there to show. */
    function ShownText(): string
      reads this, tts
      requires Valid() && book.Some? && book.value.totalPages >= 1
    {
      DisplayedText(book.value, currentPage)
    }

    constructor (tts: TtsService)
      requires tts.Valid()
      ensures Valid() && this.tts == tts
      ensures book == None && currentPage == 0 && !isReading && !isProcessing
      ensures settings == DefaultSettings && error == None && awaiting == {}
    {
      this.tts := tts;
      book, currentPage := None, 0;
      isReading, isProcessing := false, false;
      settings, error, awaiting := DefaultSettings, None, {};
    }

    /** The settings panel replaces the settings wholesale. */
    method UpdateSettings(s: ReadingSettings)
      requires Valid()
      modifies this`settings
      ensures Valid() && settings == s
    {
      settings := s;
    }

    /** No file: nothing happens. Otherwise the error is cleared, the file
        is parsed, and on success the new book is shown from its first
        page; on failure the parse error is shown and the previous book,
        if any, stays. Processing is over either way. */
    method HandleFileUpload(file: Option<UploadedFile>)
      requires Valid()
      modifies this`book, this`currentPage, this`isProcessing, this`error
      ensures Valid()
      ensures file.None? ==> unchanged(this)
      ensures file.Some? ==>
        && !isProcessing
        && match ParsedBook(file.value)
           case Some(b) => book == Some(b) && currentPage == 0 && error == None
           case None =>
             book == old(book) && currentPage == old(currentPage) && error == Some(ParseErrorMessage)
    {
      if file.None? {
        return;
      }
      var f := file.value;
      isProcessing := true;
      error := None;
      var parsed: Option<Book> := None;
      if f.mimeType == PdfMimeType {
        if f.pdfItems.Some? {
          var b := Paginator.ParsePdf(f.pdfItems.value, f.name, f.id);
          parsed := Some(b);
        }
      } else {
        if f.text.Some? {
          var b := Paginator.ParseTextFile(f.text.value, f.name, f.id);
          parsed := Some(b);
        }
      }
      ParsedBookWellFormed(f);
      if parsed.Some? {
        book := parsed;
        currentPage := 0;
      } else {
        error := Some(ParseErrorMessage);
      }
      isProcessing := false;
    }

    /** Without a book, or while reading, nothing happens. Otherwise the
        current page's text is spoken with the chosen voice: on failure the
        speech error is shown and reading is over, the book kept; on
        success reading goes on until the source's ended event
        (`OnPlaybackEnded`). A page index with no page behind it (a book
        without pages) fails like the speech call: the lookup throws
        inside the same `try`. */
    method HandleSpeak(
      synthesize: SpeechRequest -> SynthesisResponse,
      decode: (string, nat, nat) -> Option<AudioBuffer>)
      requires Valid()
      modifies this`isReading, this`error, this`awaiting, tts, tts.currentSource
      ensures Valid()
      ensures book == old(book) && currentPage == old(currentPage)
      ensures old(book.None? || isReading) ==>
        unchanged(this) && unchanged(tts) && unchanged(old(tts.Slot()))
      ensures old(book.Some? && !isReading) && old(currentPage) >= |old(book).value.pages| ==>
        && !isReading && error == Some(SpeechErrorMessage) && awaiting == old(awaiting)
        && unchanged(tts) && unchanged(old(tts.Slot()))
      ensures old(book.Some? && !isReading) && old(currentPage) < |old(book).value.pages| ==>
        var request := RequestFor(old(book).value.pages[old(currentPage)].text, old(settings).voice);
        var before := old(tts.trace) + HaltOf(old(tts.currentSource)) + [Request(request)];
        && tts.audioContext != null
        && (old(tts.audioContext) != null ==> tts.audioContext == old(tts.audioContext))
        && (old(tts.currentSource) != null ==>
              && old(tts.currentSource).halts == old(tts.currentSource.halts) + 1
              && old(tts.currentSource).started == old(tts.currentSource.started)
              && old(tts.currentSource).ended == old(tts.currentSource.ended))
        && match Synthesis(request, synthesize, decode)
           case Failure(_) =>
             && !isReading && error == Some(SpeechErrorMessage) && awaiting == old(awaiting)
             && tts.currentSource == null
             && tts.sources == old(tts.sources)
             && tts.trace == before
           case Success(buffer) =>
             && isReading && error == old(error)
             && tts.currentSource != null && fresh(tts.currentSource)
             && tts.currentSource.buffer == buffer && tts.currentSource.Sounding()
             && tts.sources == old(tts.sources) + {tts.currentSource}
             && tts.trace == before + [Install(tts.currentSource), Begin(tts.currentSource)]
             && awaiting == old(awaiting) + {tts.currentSource}
      ensures old(tts.SingleSession()) ==> tts.SingleSession()
    {
      if book.None? || isReading {
        return;
      }
      isReading := true;
      var pages := book.value.pages;
      if currentPage >= |pages| {
        // `book.pages[currentPage]` is undefined here and reading its text throws
        error := Some(SpeechErrorMessage);
        isReading := false;
        return;
      }
      var pageText := pages[currentPage].text;
      var outcome := tts.Speak(pageText, synthesize, decode, settings.voice);
      match outcome {
        case Failed(_) =>
          error := Some(SpeechErrorMessage);
          isReading := false;
        case Playing(source) =>
          awaiting := awaiting + {source};
      }
    }

    /** Delivery of a source's ended event: the service clears its slot and
        marks the source ended; a `handleSpeak` awaiting that source resumes
        and ends reading. */
    method OnPlaybackEnded(s: SourceNode)
      requires Valid() && s in tts.sources && s.started && !s.ended
      modifies this`isReading, this`awaiting, tts`currentSource, tts`trace, s
      ensures Valid()
      ensures s.ended && s.started && s.halts == old(s.halts) && tts.currentSource == null
      ensures tts.trace == old(tts.trace) + [Ended(s)]
      ensures s in old(awaiting) ==> !isReading && awaiting == old(awaiting) - {s}
      ensures s !in old(awaiting) ==> isReading == old(isReading) && awaiting == old(awaiting)
      ensures old(tts.SingleSession()) && (old(tts.currentSource) == null || old(tts.currentSource) == s)
        ==> tts.SingleSession()
    {
      tts.OnEnded(s);
      if s in awaiting {
        awaiting := awaiting - {s};
        isReading := false;
      }
    }

    /** Stops the speech service, then ends reading. */
    method HandleStop()
      requires Valid()
      modifies this`isReading, tts`currentSource, tts`trace, tts.currentSource
      ensures Valid()
      ensures !isReading && tts.currentSource == null
      ensures old(tts.currentSource) != null ==>
        && old(tts.currentSource).halts == old(tts.currentSource.halts) + 1
        && old(tts.currentSource).started == old(tts.currentSource.started)
        && old(tts.currentSource).ended == old(tts.currentSource.ended)
      ensures tts.trace == old(tts.trace) + HaltOf(old(tts.currentSource))
      ensures old(tts.SingleSession()) ==> tts.SingleSession()
    {
      tts.Stop();
      isReading := false;
    }

    /** Moves one page on, after stopping speech, when there is a later
        page; otherwise changes nothing. */
    method NextPage()
      requires Valid()
      modifies this`currentPage, this`isReading, tts`currentSource, tts`trace, tts.currentSource
      ensures Valid()
      ensures var moves := old(book.Some? && currentPage < book.value.totalPages - 1);
        && (moves ==>
          && currentPage == old(currentPage) + 1 && !isReading && tts.currentSource == null
          && tts.trace == old(tts.trace) + HaltOf(old(tts.currentSource))
          && (old(tts.currentSource) != null ==>
                && old(tts.currentSource).halts == old(tts.currentSource.halts) + 1
                && old(tts.currentSource).started == old(tts.currentSource.started)
                && old(tts.currentSource).ended == old(tts.currentSource.ended)))
        && (!moves ==> unchanged(this) && unchanged(tts) && unchanged(old(tts.Slot())))
      ensures old(tts.SingleSession()) ==> tts.SingleSession()
    {
      if book.Some? && currentPage < book.value.totalPages - 1 {
        HandleStop();
        currentPage := currentPage + 1;
      }
    }

    /** Moves one page back, after stopping speech, when there is an
        earlier page; otherwise changes nothing. */
    method PrevPage()
      requires Valid()
      modifies this`currentPage, this`isReading, tts`currentSource, tts`trace, tts.currentSource
      ensures Valid()
      ensures var moves := old(book.Some? && currentPage > 0);
        && (moves ==>
          && currentPage == old(currentPage) - 1 && !isReading && tts.currentSource == null
          && tts.trace == old(tts.trace) + HaltOf(old(tts.currentSource))
          && (old(tts.currentSource) != null ==>
                && old(tts.currentSource).halts == old(tts.currentSource.halts) + 1
                && old(tts.currentSource).started == old(tts.currentSource.started)
                && old(tts.currentSource).ended == old(tts.currentSource.ended)))
        && (!moves ==> unchanged(this) && unchanged(tts) && unchanged(old(tts.Slot())))
      ensures old(tts.SingleSession()) ==> tts.SingleSession()
    {
      if book.Some? && currentPage > 0 {
        HandleStop();
        currentPage := currentPage - 1;
      }
    }

    /** Stops speech and closes the book. */
    method ResetBook()
      requires Valid()
      modifies this`book, this`currentPage, this`isReading, tts`currentSource, tts`trace, tts.currentSource
      ensures Valid()
      ensures book == None && currentPage == 0 && !isReading && tts.currentSource == null
      ensures tts.trace == old(tts.trace) + HaltOf(old(tts.currentSource))
      ensures old(tts.currentSource) != null ==>
        && old(tts.currentSource).halts == old(tts.currentSource.halts) + 1
        && old(tts.currentSource).started == old(tts.currentSource.started)
        && old(tts.currentSource).ended == old(tts.currentSource.ended)
      ensures old(tts.SingleSession()) ==> tts.SingleSession()
    {
      HandleStop();
      book := None;
      currentPage := 0;
    }
  }
}
