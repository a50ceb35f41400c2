/**
 * Records of the book library: books, authors and users as the store keeps
 * them, the view the queries return, the metadata record a save starts
 * from, and the two "does not exist" errors.
 */
module Entities {

  /** Identifiers assigned by the store. */
  type BookId = nat
  type AuthorId = nat
  type UserId = nat

  /**
   * The descriptive payload a book carries from the metadata record to the
   * store and back to its views. Nothing is computed from it.
   */
  datatype Details = Details(
    publishedDate: string,
    pageCount: int,
    averageRating: real,
    language: string,
    description: string)

  /**
   * A book record. `authors` and `users` are the book's own side of the two
   * many-to-many associations; the other side lives in each Author and User.
   */
  datatype Book = Book(title: string, details: Details, authors: seq<AuthorId>, users: seq<UserId>)

  /** An author record; `surname` is the key authors are deduplicated by. */
  datatype Author = Author(name: string, surname: string, books: seq<BookId>)

  /** A user record; only its list of owned books matters here. */
  datatype User = User(books: seq<BookId>)

  /** The first item of a metadata lookup: what a save starts from. */
  datatype VolumeInfo = VolumeInfo(title: string, details: Details, authorNames: seq<string>)

  /** The public projection of a stored book. */
  datatype BookView = BookView(id: BookId, title: string, details: Details)

  datatype Error = BookDoesntExist | UserDoesntExist

  /** Outcome of an operation that returns nothing but may fail. */
  datatype Status = Done | Failed(error: Error)

  datatype Result<T> = Success(value: T) | Failure(error: Error)

  datatype Option<T> = None | Some(value: T)

  /** The BookDto built from a stored book: its id, title and payload. */
  function ViewOf(id: BookId, book: Book): BookView {
    BookView(id, book.title, book.details)
  }
}
