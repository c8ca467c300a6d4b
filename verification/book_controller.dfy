/**
 * BookController: the status and store decisions of the `/books/{isbn}`
 * handlers. The DTO/entity mapper copies fields one to one, so a DTO is
 * modelled as the entity itself.
 */
module BookController {
  import opened Domain
  import opened Http
  import opened BookService

  /**
   * PUT `/books/{isbn}`: 202 when the isbn was stored before the call, 201
   * otherwise. Both branches perform the same upsert, so store and body do
   * not depend on the branch.
   */
  function CreateUpdateBook(m: BookStore, isbn: string, dto: Book): (r: Reply<BookStore, Book>)
    ensures r.status == (if isbn in m then Accepted else Created)
    ensures r.store == m[isbn := BookRowOf(dto)]
    ensures r.body == Some(Book(Some(isbn), dto.title, dto.author))
  {
    if IsExists(m, isbn) then
      var (m', saved) := BookService.CreateUpdateBook(m, isbn, dto);
      Reply(m', Accepted, Some(saved))
    else
      var (m', saved) := BookService.CreateUpdateBook(m, isbn, dto);
      Reply(m', Created, Some(saved))
  }

  /** GET `/books/{isbn}`: 200 with the stored book iff it is stored, else 404. */
  function FindByIsbn(m: BookStore, isbn: string): (r: Reply<BookStore, Book>)
    ensures r.store == m
    ensures r.status == Ok <==> isbn in m
    ensures r.status == NotFound <==> isbn !in m
    ensures r.body.Some? <==> isbn in m
    ensures isbn in m ==> r.body.value == BookAt(isbn, m[isbn])
  {
    match FindOne(m, isbn)
    case Some(b) => Reply(m, Ok, Some(b))
    case None => Reply(m, NotFound, None)
  }

  /**
   * PATCH `/books/{isbn}`: 404 and no write on an absent isbn; otherwise 200
   * with the book whose title is merged and whose author is kept. The
   * existence check comes first, so the service's not-found exception (a 500)
   * is never reached.
   */
  function PartialUpdateBook(m: BookStore, isbn: string, dto: Book): (r: Reply<BookStore, Book>)
    ensures r.status != InternalServerError
    ensures isbn !in m ==> r == Reply(m, NotFound, None)
    ensures isbn in m ==> r.status == Ok
    ensures isbn in m ==> r.body == Some(Book(Some(isbn), Overlay(dto.title, m[isbn].title), m[isbn].author))
    ensures isbn in m ==> r.store == m[isbn := BookRowOf(r.body.value)]
  {
    if !IsExists(m, isbn) then
      Reply(m, NotFound, None)
    else
      match BookService.PartialUpdateBook(m, isbn, dto)
      case Success((m', saved)) => Reply(m', Ok, Some(saved))
      case Failure(_) => Reply(m, InternalServerError, None)
  }

  /** DELETE `/books/{isbn}`: 404 and no write on an absent isbn, else 204 and the isbn is gone. */
  function DeleteBook(m: BookStore, isbn: string): (r: Reply<BookStore, Book>)
    ensures r.body.None?
    ensures isbn !in m ==> r.status == NotFound && r.store == m
    ensures isbn in m ==> r.status == NoContent && r.store.Keys == m.Keys - {isbn}
    ensures forall k :: k in r.store ==> k in m && r.store[k] == m[k]
  {
    if !IsExists(m, isbn) then
      Reply(m, NotFound, None)
    else
      Reply(Delete(m, isbn), NoContent, None)
  }

  /**
   * The two PUT branches differ only in the status: on stores that agree
   * everywhere except whether `isbn` is present, PUT writes the same
   * store and body.
   */
  lemma PutBranchesAgree(m1: BookStore, m2: BookStore, isbn: string, dto: Book)
    requires isbn in m1 && isbn !in m2
    requires m1 - {isbn} == m2
    ensures CreateUpdateBook(m1, isbn, dto).status == Accepted
    ensures CreateUpdateBook(m2, isbn, dto).status == Created
    ensures CreateUpdateBook(m1, isbn, dto).store == CreateUpdateBook(m2, isbn, dto).store
    ensures CreateUpdateBook(m1, isbn, dto).body == CreateUpdateBook(m2, isbn, dto).body
  {
  }

  /** Repeating a PUT changes nothing further and answers 202. */
  lemma PutIdempotent(m: BookStore, isbn: string, dto: Book)
    ensures var r1 := CreateUpdateBook(m, isbn, dto);
            var r2 := CreateUpdateBook(r1.store, isbn, dto);
            r2.status == Accepted && r2.store == r1.store && r2.body == r1.body
  {
  }

  /** After a successful DELETE, a GET of the same isbn answers 404. */
  lemma DeleteThenGet(m: BookStore, isbn: string)
    requires isbn in m
    ensures DeleteBook(m, isbn).status == NoContent
    ensures FindByIsbn(DeleteBook(m, isbn).store, isbn).status == NotFound
  {
  }
}
