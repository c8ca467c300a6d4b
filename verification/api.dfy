/**
 * The service as a whole: a request names one of the modelled handlers, and a
 * run feeds a sequence of requests through them one after another, as the
 * single-threaded request-per-call model has it.
 */
module Api {
  import opened Domain
  import opened Http
  import BookService
  import AuthorService
  import BookController
  import AuthorController

  datatype State = State(books: BookService.BookStore, authors: AuthorService.AuthorRepo)

  /** An empty catalog. */
  const EmptyState: State := State(map[], AuthorService.EmptyAuthors)

  datatype Request =
    | PutBook(isbn: string, book: Book)
    | GetBook(isbn: string)
    | PatchBook(isbn: string, book: Book)
    | DeleteBook(isbn: string)
    | PostAuthor(author: Author)
    | GetAuthor(id: int)
    | PutAuthor(id: int, author: Author)
    | PatchAuthor(id: int, author: Author)
  {
    /** The request goes to a `/books` handler. */
    predicate OnBooks()
    {
      PutBook? || GetBook? || PatchBook? || DeleteBook?
    }

    /** The request is a GET. */
    predicate IsRead()
    {
      GetBook? || GetAuthor?
    }
  }

  datatype Body = NoBody | BookBody(book: Book) | AuthorBody(author: Author)

  datatype Response = Response(status: Status, body: Body)

  function BookBodyOf(b: Option<Book>): Body
  {
    match b
    case Some(x) => BookBody(x)
    case None => NoBody
  }

  function AuthorBodyOf(a: Option<Author>): Body
  {
    match a
    case Some(x) => AuthorBody(x)
    case None => NoBody
  }

  /**
   * Dispatches one request. No request reaches a service's not-found
   * exception, a 404 never writes, a handler only writes the table of its own
   * resource, a GET never writes, and no handler of this model removes an
   * author (the book-to-author cascade is left out).
   */
  function Handle(s: State, req: Request): (r: (State, Response))
    ensures r.1.status != InternalServerError
    ensures r.1.status == NotFound ==> r.0 == s
    ensures req.IsRead() ==> r.0 == s && (r.1.status == Ok || r.1.status == NotFound)
    ensures req.OnBooks() ==> r.0.authors == s.authors
    ensures !req.OnBooks() ==> r.0.books == s.books
    ensures s.authors.rows.Keys <= r.0.authors.rows.Keys
  {
    match req
    case PutBook(isbn, b) =>
      var x := BookController.CreateUpdateBook(s.books, isbn, b);
      (s.(books := x.store), Response(x.status, BookBodyOf(x.body)))
    case GetBook(isbn) =>
      var x := BookController.FindByIsbn(s.books, isbn);
      (s.(books := x.store), Response(x.status, BookBodyOf(x.body)))
    case PatchBook(isbn, b) =>
      var x := BookController.PartialUpdateBook(s.books, isbn, b);
      (s.(books := x.store), Response(x.status, BookBodyOf(x.body)))
    case DeleteBook(isbn) =>
      var x := BookController.DeleteBook(s.books, isbn);
      (s.(books := x.store), Response(x.status, BookBodyOf(x.body)))
    case PostAuthor(a) =>
      var x := AuthorController.CreateAuthor(s.authors, a);
      (s.(authors := x.store), Response(x.status, AuthorBodyOf(x.body)))
    case GetAuthor(id) =>
      var x := AuthorController.FindAuthor(s.authors, id);
      (s.(authors := x.store), Response(x.status, AuthorBodyOf(x.body)))
    case PutAuthor(id, a) =>
      var x := AuthorController.FullUpdateAuthor(s.authors, id, a);
      (s.(authors := x.store), Response(x.status, AuthorBodyOf(x.body)))
    case PatchAuthor(id, a) =>
      var x := AuthorController.PartialUpdateAuthor(s.authors, id, a);
      (s.(authors := x.store), Response(x.status, AuthorBodyOf(x.body)))
  }

  /** Handles the requests in order; one response per request. */
  function Run(s: State, reqs: seq<Request>): (r: (State, seq<Response>))
    ensures |r.1| == |reqs|
    decreases |reqs|
  {
    if reqs == [] then (s, [])
    else
      var (s1, first) := Handle(s, reqs[0]);
      var (s2, rest) := Run(s1, reqs[1..]);
      (s2, [first] + rest)
  }

  /** Along any request sequence, no request reaches a service's not-found exception. */
  lemma {:induction false} RunNeverServerError(s: State, reqs: seq<Request>)
    ensures forall i :: 0 <= i < |reqs| ==> Run(s, reqs).1[i].status != InternalServerError
    decreases |reqs|
  {
    if reqs != [] {
      var s1 := Handle(s, reqs[0]).0;
      RunNeverServerError(s1, reqs[1..]);
      assert Run(s, reqs).1 == [Handle(s, reqs[0]).1] + Run(s1, reqs[1..]).1;
    }
  }

  /** A run every request of which was answered 404 leaves the state as it was. */
  lemma {:induction false} NotFoundRunLeavesState(s: State, reqs: seq<Request>)
    requires forall i :: 0 <= i < |reqs| ==> Run(s, reqs).1[i].status == NotFound
    ensures Run(s, reqs).0 == s
    decreases |reqs|
  {
    if reqs != [] {
      var (s1, first) := Handle(s, reqs[0]);
      assert Run(s, reqs).1 == [first] + Run(s1, reqs[1..]).1;
      assert first.status == Run(s, reqs).1[0].status;
      assert s1 == s;
      forall i | 0 <= i < |reqs| - 1
        ensures Run(s1, reqs[1..]).1[i].status == NotFound
      {
        assert Run(s1, reqs[1..]).1[i] == Run(s, reqs).1[i + 1];
      }
      NotFoundRunLeavesState(s1, reqs[1..]);
    }
  }

  /** A run of GET requests writes nothing. */
  lemma {:induction false} ReadOnlyRunLeavesState(s: State, reqs: seq<Request>)
    requires forall i :: 0 <= i < |reqs| ==> reqs[i].IsRead()
    ensures Run(s, reqs).0 == s
    decreases |reqs|
  {
    if reqs != [] {
      ReadOnlyRunLeavesState(Handle(s, reqs[0]).0, reqs[1..]);
    }
  }

  /** A run of `/authors` requests leaves every book as it was. */
  lemma {:induction false} AuthorRunKeepsBooks(s: State, reqs: seq<Request>)
    requires forall i :: 0 <= i < |reqs| ==> !reqs[i].OnBooks()
    ensures Run(s, reqs).0.books == s.books
    decreases |reqs|
  {
    if reqs != [] {
      AuthorRunKeepsBooks(Handle(s, reqs[0]).0, reqs[1..]);
    }
  }

  /** A run of `/books` requests leaves every author as it was. */
  lemma {:induction false} BookRunKeepsAuthors(s: State, reqs: seq<Request>)
    requires forall i :: 0 <= i < |reqs| ==> reqs[i].OnBooks()
    ensures Run(s, reqs).0.authors == s.authors
    decreases |reqs|
  {
    if reqs != [] {
      BookRunKeepsAuthors(Handle(s, reqs[0]).0, reqs[1..]);
    }
  }

  /**
   * No handler of this model removes an author (the book-to-author cascade is
   * left out), so the stored author ids only grow along a run.
   */
  lemma {:induction false} AuthorIdsOnlyGrow(s: State, reqs: seq<Request>)
    ensures s.authors.rows.Keys <= Run(s, reqs).0.authors.rows.Keys
    decreases |reqs|
  {
    if reqs != [] {
      AuthorIdsOnlyGrow(Handle(s, reqs[0]).0, reqs[1..]);
    }
  }
}
