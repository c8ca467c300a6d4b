/**
 * BookServiceImpl: upsert by isbn, lookups, the title-only partial update and
 * delete, over the book table seen as a map from isbn to row.
 */
module BookService {
  import opened Domain
  import Repository

  type BookStore = map<string, BookRow>

  /** The message of the exception `partialUpdateBook` throws. */
  const BookNotFound: string := "Book not found !"

  /**
   * `createUpdateBook`: the path isbn overrides whatever isbn the body
   * carries, then the entity is saved (insert or replace) under that isbn.
   */
  function CreateUpdateBook(m: BookStore, isbn: string, b: Book): (r: (BookStore, Book))
    ensures r.1.isbn == Some(isbn)
    ensures r.1.title == b.title && r.1.author == b.author
    ensures r.0.Keys == m.Keys + {isbn}
    ensures BookAt(isbn, r.0[isbn]) == r.1
    ensures forall k :: k in m && k != isbn ==> r.0[k] == m[k]
  {
    var entity := b.(isbn := Some(isbn));
    (m[isbn := BookRowOf(entity)], entity)
  }

  /** `findOne`: the book stored under `isbn`, keyed by that isbn. */
  function FindOne(m: BookStore, isbn: string): (r: Option<Book>)
    ensures r.Some? <==> isbn in m
    ensures r.Some? ==> r.value.isbn == Some(isbn)
    ensures r.Some? ==> BookRowOf(r.value) == m[isbn]
  {
    match Repository.FindById(m, isbn)
    case Some(row) => Some(BookAt(isbn, row))
    case None => None
  }

  /** `isExists`: asks the store's `existsById`, which agrees with `findOne`. */
  function IsExists(m: BookStore, isbn: string): (b: bool)
    ensures b <==> FindOne(m, isbn).Some?
  {
    Repository.ExistsById(m, isbn)
  }

  /**
   * `partialUpdateBook`: on a stored isbn only a present title is merged into
   * the stored book; the author relation is never merged. On an absent isbn
   * the call fails and nothing is written.
   */
  function PartialUpdateBook(m: BookStore, isbn: string, patch: Book): (r: Result<(BookStore, Book)>)
    ensures r.Failure? <==> isbn !in m
    ensures r.Failure? ==> r.error == BookNotFound
    ensures r.Success? ==> r.value.1.isbn == Some(isbn)
    ensures r.Success? && patch.title.Some? ==> r.value.1.title == patch.title
    ensures r.Success? && patch.title.None? ==> r.value.1.title == m[isbn].title
    ensures r.Success? ==> r.value.1.author == m[isbn].author
    ensures r.Success? ==> r.value.0.Keys == m.Keys
    ensures r.Success? ==> BookAt(isbn, r.value.0[isbn]) == r.value.1
    ensures r.Success? ==> forall k :: k in m && k != isbn ==> r.value.0[k] == m[k]
  {
    // the body's isbn is overwritten by the path isbn and then never read
    var patch := patch.(isbn := Some(isbn));
    match FindOne(m, isbn)
    case None => Failure(BookNotFound)
    case Some(existing) =>
      var merged := existing.(title := Overlay(patch.title, existing.title));
      Success((m[isbn := BookRowOf(merged)], merged))
  }

  /** `delete`: removes the isbn; the controller calls it only after its existence check. */
  function Delete(m: BookStore, isbn: string): (m': BookStore)
    ensures !IsExists(m', isbn)
    ensures m'.Keys == m.Keys - {isbn}
    ensures forall k :: k in m' ==> m'[k] == m[k]
  {
    Repository.DeleteById(m, isbn)
  }

  /** `findAll()`: every stored book exactly once, in the store's order. */
  method FindAll(m: BookStore) returns (books: seq<Book>)
    ensures |books| == |m.Keys|
    ensures forall i :: 0 <= i < |books| ==> books[i].isbn.Some? && FindOne(m, books[i].isbn.value) == Some(books[i])
    ensures forall isbn :: isbn in m ==> FindOne(m, isbn).value in books
    ensures forall i, j :: 0 <= i < j < |books| ==> books[i].isbn != books[j].isbn
  {
    var ks := Repository.KeyList(m);
    books := seq(|ks|, i requires 0 <= i < |ks| => BookAt(ks[i], m[ks[i]]));
    forall isbn | isbn in m
      ensures FindOne(m, isbn).value in books
    {
      var i :| 0 <= i < |ks| && ks[i] == isbn;
      assert books[i] == FindOne(m, isbn).value;
    }
  }

  /**
   * A saved book reads back with the body's title and author under the path
   * isbn, and a second upsert of the same isbn replaces the first one while
   * every other isbn keeps its book.
   */
  lemma UpsertThenFindOne(m: BookStore, isbn: string, b1: Book, b2: Book)
    ensures var (m1, _) := CreateUpdateBook(m, isbn, b1);
            FindOne(m1, isbn) == Some(Book(Some(isbn), b1.title, b1.author))
    ensures var (m1, _) := CreateUpdateBook(m, isbn, b1);
            var (m2, _) := CreateUpdateBook(m1, isbn, b2);
            && FindOne(m2, isbn) == Some(Book(Some(isbn), b2.title, b2.author))
            && m2.Keys == m.Keys + {isbn}
            && forall k :: k != isbn ==> FindOne(m2, k) == FindOne(m, k)
  {
  }

  /** After a delete the isbn is gone and every other lookup is as before. */
  lemma DeleteThenFindOne(m: BookStore, isbn: string)
    ensures FindOne(Delete(m, isbn), isbn) == None
    ensures forall k :: k != isbn ==> FindOne(Delete(m, isbn), k) == FindOne(m, k)
  {
  }

  /**
   * Applying the same partial update twice writes the same store as applying
   * it once.
   */
  lemma PartialUpdateIdempotent(m: BookStore, isbn: string, patch: Book)
    requires isbn in m
    ensures var r1 := PartialUpdateBook(m, isbn, patch);
            r1.Success? && PartialUpdateBook(r1.value.0, isbn, patch) == r1
  {
    var (m1, merged) := PartialUpdateBook(m, isbn, patch).value;
    assert FindOne(m1, isbn) == Some(merged);
    assert m1[isbn := BookRowOf(merged)] == m1;
  }
}
