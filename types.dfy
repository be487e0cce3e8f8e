/** The records shared by the library store, the pages and the catalog client. */
module Types {

  datatype Option<+T> = None | Some(value: T)

  /** A catalog book. Optional fields are `None` when the catalog gave nothing. */
  datatype Book = Book(
    id: string,
    title: string,
    authors: seq<string>,
    description: Option<string>,
    thumbnail: Option<string>,
    isbn: Option<string>,
    publishedDate: Option<string>,
    pageCount: Option<int>,
    categories: Option<seq<string>>,
    publisher: Option<string>)

  datatype Status = Read | Reading | WantToRead

  /** The three reading-sheet templates. */
  datatype SheetType = Essai | RomanHistoire | Libre

  /** A reading sheet: its template, the answer for each field id, and two timestamps. */
  datatype ReadingSheet = ReadingSheet(
    sheetType: SheetType,
    responses: map<string, string>,
    createdAt: int,
    updatedAt: int)

  /**
   * A rated book of the library. `readDate` is the parsed read date;
   * `None` stands for a date string that does not parse.
   */
  datatype LibraryBook = LibraryBook(
    book: Book,
    userRating: Option<int>,
    readDate: Option<int>,
    status: Status,
    readingSheet: Option<ReadingSheet>)

  /** A user-defined grouping of library books. */
  datatype Cabinet = Cabinet(id: string, name: string, bookIds: seq<string>, createdAt: int)

  function BookId(b: LibraryBook): string { b.book.id }

  function CabinetId(c: Cabinet): string { c.id }
}
