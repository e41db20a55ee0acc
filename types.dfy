/** Shared records of the reader: a page, a book, the voices and the
    reading settings, plus the Option wrapper used for nullable values. */
module Types {

  datatype Option<+T> = None | Some(value: T)

  datatype Result<+T, +E> = Success(value: T) | Failure(error: E)

  /** One page of a book; `pageNumber` is 1-based. */
  datatype BookPage = BookPage(pageNumber: int, text: string)

  datatype Format = Pdf | Text

  /** A whole parsed document. `totalPages` is stored, not computed. */
  datatype Book = Book(
    id: string,
    title: string,
    author: string,
    pages: seq<BookPage>,
    totalPages: int,
    format: Format)

  datatype VoiceName = Kore | Puck | Charon | Fenrir | Zephyr

  /** The typography and voice the user picked; pure presentation state
      apart from `voice`. */
  datatype ReadingSettings = ReadingSettings(
    voice: VoiceName,
    fontSize: int,
    lineHeight: real,
    isSerif: bool)

  const DefaultSettings := ReadingSettings(Kore, 18, 1.6, true)

  /** The book invariant: `totalPages` is the number of pages and the
      pages are numbered 1, 2, ... in order. */
  ghost predicate WellFormed(b: Book) {
    && b.totalPages == |b.pages|
    && forall k :: 0 <= k < |b.pages| ==> b.pages[k].pageNumber == k + 1
  }
}
