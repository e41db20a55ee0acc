# AuraReader core in Dafny

AuraReader is a browser app that reads an uploaded PDF or text file aloud.
This project models the three pieces of it that make decisions:

- **The paginator** (`pdf_service.dfy`, module `Paginator`). It builds a
  `Book` from the item strings of each PDF page, or from the whole text of a
  plain-text file. A PDF page's items are joined with a space. Each run of
  whitespace becomes one space, and the result is trimmed. An empty result
  becomes the `"[Blank Page]"` sentinel. A text file is cut greedily into
  2000-character chunks, and each chunk is trimmed. Titles lose only the
  first `.pdf` or `.txt`.
- **The speech session controller** (`gemini_service.dfy`, module
  `SpeechService`). `TtsService` has a lazily created audio context and one
  slot for the source that is playing. `speak` stops first, sends the
  synthesis request and decodes the reply. It throws on any failure;
  otherwise it installs and starts a new source. A source's `onended`
  callback empties the slot. The ghost field `trace` records the order of
  halts, requests, installs, starts and ended events. `SingleSession()` is
  the "at most one source is audible, and it is the held one" invariant.
- **The reader controller** (`app.dfy`, module `ReaderApp`). The class
  `Reader` holds the app's state: `book`, `currentPage`, `isReading`,
  `isProcessing`, `settings` and `error`. Its handlers are guarded
  transitions on that state, and they call the one `TtsService`.

`types.dfy` (module `Types`) mirrors `BookPage`, `Book`, `VoiceName` and
`ReadingSettings`. `WellFormed(b)` is the book invariant: `totalPages` is
the number of pages, and pages are numbered 1, 2, ... in order.

Outside inputs become parameters:

- the page items the PDF library would extract, and the text a file read
  would return;
- the random book identifier;
- the remote synthesiser, a total function from request to response;
- the audio decoder, a total function from payload, sample rate and
  channel count to an optional buffer.

The end of playback is the event method `TtsService.OnEnded`. At the app
level it is `Reader.OnPlaybackEnded`, where the suspended `handleSpeak`
resumes and its `finally` ends reading. So after a successful
`HandleSpeak`, `isReading` stays true until that event. After a failed
one, it is false at once.

In these places the model follows what the code does:

- A failed upload keeps the previously loaded book and page, because the
  error branch (App.tsx:55-57) never calls `setBook`. In the app the file
  input is rendered only while no book is loaded (App.tsx:235-246), so the
  kept book is in practice always absent and a failed upload leaves the
  reader with no document and the error shown. The handler's contract
  covers every state, including one with a book loaded.
- `stop()` halts only a source already in the slot. A `speak` whose
  synthesis is still in flight is not cancelled.
- An empty payload string is treated as no audio (`!base64Audio`), the
  same as a missing one.
- In a book without pages, `book.pages[currentPage].text` throws inside
  the `try` of `handleSpeak`. The model therefore gives a zero-page book
  the speech-error path. Rendering that page (App.tsx:277) is outside any
  `try`, so `DisplayedText` requires an existing page, and
  `EmptyBookHasNoPageToShow` records that a zero-page book has none.

## Model

| member | source | states |
|---|---|---|
| `Paginator.TrimStart` | services/pdfService.ts:26 | the front half of `trim`: drops leading whitespace one character at a time; never longer than its input (its meaning is stated by `TrimStartSpec` and `TrimStartSkips`) |
| `Paginator.TrimEnd` | services/pdfService.ts:26 | the back half of `trim`: drops trailing whitespace one character at a time; never longer than its input (see `TrimEndSpec`, `TrimEndStops`, `TrimEndSkips`) |
| `Paginator.Trim` | services/pdfService.ts:55 | `trim()` as the back half applied after the front half; proved the unique whitespace strip by `TrimIsStrip` and `TrimParts` |
| `Paginator.TrimStartSpec` | services/pdfService.ts:26 | the front part `trim` removes is all whitespace, and what is kept starts with a visible character or is empty |
| `Paginator.TrimEndSpec` | services/pdfService.ts:26 | the back part `trim` removes is all whitespace, and what is kept is a prefix of the input |
| `Paginator.TrimEndStops` | services/pdfService.ts:26 | what is kept at the back ends with a visible character or is empty |
| `Paginator.TrimParts` | services/pdfService.ts:26 | the input is a whitespace prefix, then the trimmed text, then a whitespace suffix |
| `Paginator.TrimEnds` | services/pdfService.ts:26 | a non-empty trimmed text starts and ends with a visible character |
| `Paginator.TrimEmptyIff` | services/pdfService.ts:55 | trimming gives `""` exactly when the input is all whitespace (both directions) |
| `Paginator.TrimStartSkips` | services/pdfService.ts:26 | the front half of trim removes exactly a whitespace prefix that is followed by a visible character or nothing |
| `Paginator.TrimEndSkips` | services/pdfService.ts:26 | the back half of trim removes exactly a whitespace suffix that follows a visible character or nothing |
| `Paginator.TrimCollapsed` | services/pdfService.ts:25-26 | trimming collapsed text keeps it collapsed (no whitespace run, only the space) and bounds it by visible characters |
| `Paginator.TrimIsStrip` | services/pdfService.ts:26 | for any whitespace padding around a core with non-whitespace ends, trimming returns exactly the core (trim is the unique strip) |
| `Paginator.TrimKeepsContent` | services/pdfService.ts:55 | trimming removes no visible character |
| `Paginator.CollapseWs` | services/pdfService.ts:25 | the collapsed text has no two adjacent whitespace characters and no whitespace but the space; it is no longer than the input, empty iff the input is, and starts with whitespace iff the input does |
| `Paginator.CollapseOneSpace` | services/pdfService.ts:25 | every maximal whitespace run becomes exactly one space: a run between a visible character (or the start) and a visible character (or the end) is replaced by `" "`, and each side is collapsed on its own |
| `Paginator.CollapseSplitsAtVisible` | services/pdfService.ts:25 | a cut right after a visible character splits no run, so collapsing the whole is collapsing the two parts |
| `Paginator.CollapseRun` | services/pdfService.ts:25 | a whole whitespace run in front of a visible character (or of nothing) becomes one space |
| `Paginator.CollapseKeepsWord` | services/pdfService.ts:25 | text without whitespace is unchanged by collapsing |
| `Paginator.JoinWordsEnds` | services/pdfService.ts:22-24 | words joined by a space start and end with a visible character |
| `Paginator.CollapseKeepsSpacedWords` | services/pdfService.ts:22-25 | words joined by single spaces are already collapsed |
| `Paginator.NormalizeSpacedWords` | services/pdfService.ts:22-26 | a page whose items are words is exactly its items separated by one space each: no item is dropped or merged |
| `Paginator.CollapseKeepsContent` | services/pdfService.ts:25 | collapsing keeps every visible character in order |
| `Paginator.CollapseFixesNormal` | services/pdfService.ts:25 | text with no whitespace run and no whitespace other than the space is left unchanged |
| `Paginator.CollapseIdempotent` | services/pdfService.ts:25 | collapsing twice equals collapsing once |
| `Paginator.Join` | services/pdfService.ts:22-24 | `join(' ')`: the items with the separator between consecutive ones; see `JoinKeepsContent` and `JoinWordsEnds` |
| `Paginator.NormalizePage` | services/pdfService.ts:22-26 | the page text before the sentinel: join with a space, collapse, trim; its properties are the `Normalize*` lemmas and `NormalizedShape` |
| `Paginator.JoinKeepsContent` | services/pdfService.ts:22-24 | joining the items with a space keeps exactly their visible characters, in order |
| `Paginator.NormalizedShape` | services/pdfService.ts:22-26 | a normalised page has no leading or trailing whitespace, no two adjacent whitespace characters, and no whitespace but the space |
| `Paginator.NormalizeKeepsContent` | services/pdfService.ts:22-26 | normalisation drops whitespace only: the page's visible characters are its items' visible characters |
| `Paginator.NormalizeEmptyIff` | services/pdfService.ts:22-26 | a page normalises to `""` exactly when its items hold only whitespace |
| `Paginator.NormalizeIdempotent` | services/pdfService.ts:22-26 | normalising an already normalised page changes nothing |
| `Paginator.PdfPageText` | services/pdfService.ts:30 | a PDF page's text is never the empty string |
| `Paginator.PdfPageTextSpec` | services/pdfService.ts:22-30 | the page is `"[Blank Page]"` iff its items are all whitespace (or it literally reads so); otherwise it is the normalised text unchanged |
| `Paginator.PdfPages` | services/pdfService.ts:19-32 | one page per extracted page, numbered from 1, with that page's text; see `PdfBookShape` |
| `Paginator.PdfBook` | services/pdfService.ts:34-41 | the returned book; see `PdfBookShape` |
| `Paginator.PdfBookShape` | services/pdfService.ts:16-41 | one page per extracted page, numbered 1..numPages, `totalPages = numPages = |pages|`, author `Unknown Author`, format pdf, each page the normalised text of its own items and never empty |
| `Paginator.ParsePdf` | services/pdfService.ts:16-41 | the page loop builds exactly that book, title included |
| `Paginator.PdfExample` | services/pdfService.ts:22-30 | pages `[""]` and `["Hello", "world"]` give `[{1, "[Blank Page]"}, {2, "Hello world"}]` |
| `Paginator.Chunks` | services/pdfService.ts:50 | `match(/[\s\S]{1,n}/g) \|\| []`: greedy chunks of `n`, none for the empty text; see `ChunksConcat`, `ChunksShape`, `ChunksCount`, `ChunkingUnique` |
| `Paginator.ChunksConcat` | services/pdfService.ts:50 | the chunks concatenate back to the input text |
| `Paginator.ChunksShape` | services/pdfService.ts:50 | every chunk but the last has exactly n characters, the last 1 to n |
| `Paginator.ChunksCount` | services/pdfService.ts:50 | the number of chunks c is ceil(len / n): none for the empty text, else (c - 1)·n < len <= c·n |
| `Paginator.PageCount` | services/pdfService.ts:47-50 | with the page size 2000 the chunk count is (len + 1999) / 2000 |
| `Paginator.ChunkingUnique` | services/pdfService.ts:50 | any cut of the text into pieces of that shape is the greedy chunking |
| `Paginator.TextExample4500` | services/pdfService.ts:47-50 | 4500 characters give chunks of 2000, 2000 and 500 |
| `Paginator.TextPages` | services/pdfService.ts:52-57 | page index + 1 with the chunk trimmed; see `TextBookShape` |
| `Paginator.TextBook` | services/pdfService.ts:59-66 | the returned book, `totalPages` the page count; see `TextBookShape` |
| `Paginator.TextBookShape` | services/pdfService.ts:44-66 | pages numbered index + 1, `totalPages = |pages| = ceil(len / 2000)`, zero pages iff the text is empty, author `Unknown Author`, format text, each page its chunk trimmed, and empty (no sentinel) exactly for a whitespace-only chunk |
| `Paginator.ParseTextFile` | services/pdfService.ts:44-66 | the chunk loop builds exactly that book, title included |
| `Paginator.RemoveFirst` | services/pdfService.ts:36 | `replace` with a string pattern; see `RemoveFirstCutsFirst` and `RemoveFirstAbsent` |
| `Paginator.RemoveFirstCutsFirst` | services/pdfService.ts:36 | the title is the file name with only its first occurrence of the extension cut out (the same function serves `.txt` at line 61) |
| `Paginator.RemoveFirstAbsent` | services/pdfService.ts:61 | without an occurrence the title is the file name unchanged |
| `SpeechService.RequestFor` | services/geminiService.ts:36-47 | the request: the TTS model, the fixed prompt prefix before the text, and the voice; `Speak` records exactly this request |
| `SpeechService.Synthesis` | services/geminiService.ts:36-59 | a rejected call, a missing or empty payload, or a failed decode at 24000 Hz mono is an error; otherwise the decoded buffer; `Speak` throws exactly on its errors |
| `SpeechService.SourceNode.Start` | services/geminiService.ts:71 | the source is started; its halt count and ended flag are unchanged |
| `SpeechService.SourceNode.Stop` | services/geminiService.ts:21 | the halt count goes up by one; started and ended are unchanged |
| `SpeechService.TtsService.constructor` | services/geminiService.ts:7-8 | a new service has no context, an empty slot and the single-session invariant |
| `SpeechService.TtsService.GetAudioContext` | services/geminiService.ts:10-17 | the context is created only when absent, at 24000 Hz, and the same context is returned afterwards |
| `SpeechService.TtsService.Stop` | services/geminiService.ts:19-24 | the held source is halted exactly once and the slot is emptied; with an empty slot nothing changes (so stop is idempotent); the invariant is kept |
| `SpeechService.TtsService.Speak` | services/geminiService.ts:26-77 | stop completes before the request `"Please read the following text clearly and naturally: " + text` with the given voice (default Kore) is recorded. A rejected call, a missing or empty payload, or a failed decode at 24000 Hz mono throws with the slot empty. Otherwise a fresh source holding the decoded buffer is put in the slot and then started. The context is reused, and the invariant is kept |
| `SpeechService.TtsService.Play` | services/geminiService.ts:61-71 | a fresh source holding the buffer is put in the empty slot and added to the known sources, its install is recorded before its start, it is audible, and the invariant is kept |
| `SpeechService.TtsService.OnEnded` | services/geminiService.ts:67-70 | the source is marked ended (the promise resolves) and the slot is emptied unconditionally; the invariant survives iff the slot held that source or nothing, and an event for any other source breaks it |
| `SpeechService.SpeakTwice` | services/geminiService.ts:26-36 | speaking twice halts the first source instead of letting it finish, leaving only the second one audible |
| `SpeechService.RetryAfterFailure` | services/geminiService.ts:49-52 | after a failed speak the slot is empty and a later speak installs and plays a source normally |
| `ReaderApp.ParsedBookWellFormed` | App.tsx:47-52 | whichever parser the MIME type picks, the book it returns is well formed |
| `ReaderApp.ParsedBook` | App.tsx:47-52 | the MIME type alone picks the parser: `application/pdf` gives the PDF book, anything else the text book, and a parser that throws gives no book; see `ParsedBookWellFormed` |
| `ReaderApp.DisplayedText` | App.tsx:277 | the text of the page at the index, which must exist |
| `ReaderApp.EmptyBookHasNoPageToShow` | App.tsx:277 | a book without pages offers no index the page view can show |
| `ReaderApp.Reader.constructor` | App.tsx:21-35 | the initial state: no book, page 0, not reading, not processing, default settings, no error |
| `ReaderApp.Reader.ShownText` | App.tsx:277 | in a valid reader with a book of at least one page, the page view's index is always an existing page |
| `ReaderApp.Reader.UpdateSettings` | App.tsx:159-211 | settings are replaced wholesale |
| `ReaderApp.Reader.HandleFileUpload` | App.tsx:39-62 | no file: nothing changes. Otherwise the error is cleared and processing ends false. On success the parsed book replaces the old one at page 0. On failure the parse error is set and book and page stay as they were |
| `ReaderApp.Reader.HandleSpeak` | App.tsx:64-77 | no-op without a book or while reading. Otherwise it speaks `pages[currentPage].text` with `settings.voice`. The held source is halted once first (started and ended unchanged), the audio context is created or reused, and the request is recorded after the halt. On failure (page missing included) the speech error is set, reading is false, the book is kept, the slot is empty, no source is added and the trace ends at the request. On success reading goes on awaiting a fresh, sounding source that holds the decoded buffer, is the only source added, and is installed and then started |
| `ReaderApp.Reader.OnPlaybackEnded` | App.tsx:70-76 | the ended source is marked ended, stays started and is not halted again; the service's slot empties; the `handleSpeak` awaiting that source ends reading |
| `ReaderApp.Reader.HandleStop` | App.tsx:79-82 | stops the service (held source halted once with its started and ended flags unchanged, slot empty, one halt recorded) and leaves `isReading` false |
| `ReaderApp.Reader.NextPage` | App.tsx:84-89 | with a book and `currentPage < totalPages - 1` it stops speech and moves exactly one page on; in every other case nothing changes; page bounds are kept |
| `ReaderApp.Reader.PrevPage` | App.tsx:91-96 | with a book and `currentPage > 0` it stops speech and moves exactly one page back; in every other case nothing changes; page bounds are kept |
| `ReaderApp.Reader.ResetBook` | App.tsx:98-102 | stops speech, closes the book and returns to page 0 |

Every `Reader` method keeps `Valid()`. That covers `0 <= currentPage`,
`currentPage <= totalPages - 1` whenever `totalPages >= 1`, page 0 without
a book, and a well-formed book. So navigation, upload and reset never
leave the page range.

## Left out

- PDF loading is left out: the library import, the worker set-up,
  `getDocument`, `getPage` and `getTextContent` (services/pdfService.ts:9-14,
  20-21). Each page's item strings are an input.
- File reads (`arrayBuffer`, `text`) are left out. Their results, or their
  failure, are fields of `UploadedFile`.
- The random `id` is left out; it is an arbitrary input string.
- The speech network call, the API key, and base64 and audio decoding are
  foreign calls. They are the `synthesize` and `decode` oracles.
- Web Audio output is platform audio. `connect`, the destination and real
  playback are left out; a source is a handle with `Start` and `Stop`.
- Asynchronous interleaving is concurrency and is left out. `Speak` runs
  from its stop to its start as one step. `OnEnded` is an event that may
  be delivered between steps. Two `speak` calls whose syntheses overlap,
  and a halted source's ended event that arrives after a newer source is
  installed, are not modelled as races. `OnEnded`'s contract states what
  the late event does to the invariant.
- JavaScript strings count UTF-16 code units and Dafny strings count
  Unicode scalar values. A character outside the Basic Multilingual Plane
  counts once here and twice in the app's 2000-unit chunks.
- Rendering, the settings panel widgets, `isSettingsOpen`, icons and
  `console.error` are presentation with no decision logic.
- `isProcessing` is observable as true only while parsing is awaited. The
  model runs each handler to completion, so that state is never seen.
- `Paginator.IsWs` lists the ECMAScript whitespace and line-terminator
  code points. The general proofs rely only on the space being
  whitespace. The worked examples rely on the letters of "Hello world"
  not being whitespace.
