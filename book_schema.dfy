/**
 * The catalog's book record: a required, unique external `bookId`, a
 * required name and author, optional alternative title, language and
 * publisher, a required number of copies, and a possibly empty list of
 * category labels.
 */
module BookSchema {
  import opened Wrappers
  import opened Store

  datatype Book = Book(
    id: ObjectId,
    bookId: string,
    bookName: string,
    altTitle: Option<string>,
    authorName: string,
    language: Option<string>,
    publisher: Option<string>,
    copies: int,
    categories: seq<string>)

  /** The required validator of a String path: a value that is not the empty string. */
  predicate RequiredString(c: Cast<string>) {
    c.Val? && c.v != ""
  }

  /** The required validator of a Number path: any number (0 included). */
  predicate RequiredNumber(c: Cast<int>) {
    c.Val?
  }

  /** What the schema guarantees of every stored book. */
  predicate WellFormed(b: Book) {
    RequiredString(Val(b.bookId)) && RequiredString(Val(b.bookName)) && RequiredString(Val(b.authorName))
  }

  /** The unique index on `bookId`. */
  predicate UniqueBookIds(books: seq<Book>) {
    forall i, j :: 0 <= i < j < |books| ==> books[i].bookId != books[j].bookId
  }
}
