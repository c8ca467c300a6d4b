/**
 * Entities of the library catalog and the small wrappers the services use.
 *
 * Every field of an entity (or of its wire twin, the DTO) is a nullable Java
 * reference, so every field is an `Option`. The stores do not repeat the key
 * inside the stored row: a row holds the non-key columns, and the entity is
 * rebuilt from key and row whenever the store is read.
 */
module Domain {

  /** A nullable value: `None` is Java's `null`. */
  datatype Option<+T> = None | Some(value: T)

  /** The outcome of a service call that may throw a `RuntimeException`. */
  datatype Result<+T> = Success(value: T) | Failure(error: string)

  /** AuthorEntity / AuthorDto: a `Long` id, a name and an `Integer` age. */
  datatype Author = Author(id: Option<int>, name: Option<string>, age: Option<int>)

  /** The non-key columns of one row of the author table. */
  datatype AuthorRow = AuthorRow(name: Option<string>, age: Option<int>)

  /** BookEntity / BookDto: the isbn key, a title and the to-one author relation. */
  datatype Book = Book(isbn: Option<string>, title: Option<string>, author: Option<Author>)

  /** The non-key columns of one row of the book table. */
  datatype BookRow = BookRow(title: Option<string>, author: Option<Author>)

  /** The author entity read back from the row stored under `id`. */
  function AuthorAt(id: int, row: AuthorRow): Author
  {
    Author(Some(id), row.name, row.age)
  }

  /** The columns an author entity is saved as. */
  function AuthorRowOf(a: Author): AuthorRow
  {
    AuthorRow(a.name, a.age)
  }

  /** The book entity read back from the row stored under `isbn`. */
  function BookAt(isbn: string, row: BookRow): Book
  {
    Book(Some(isbn), row.title, row.author)
  }

  /** The columns a book entity is saved as. */
  function BookRowOf(b: Book): BookRow
  {
    BookRow(b.title, b.author)
  }

  /**
   * `Optional.ofNullable(patch).ifPresent(setter)`: a present patch value
   * replaces the current one, an absent one leaves it alone.
   */
  function Overlay<T>(patch: Option<T>, current: Option<T>): Option<T>
  {
    if patch.Some? then patch else current
  }
}
