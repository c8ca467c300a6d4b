/**
 * The request sequences the integration tests perform, with the answers they
 * expect, stated over the model.
 */
module Scenarios {
  import opened Domain
  import opened Http
  import opened Api
  import AuthorService
  import BookService

  const Titanic: Book := Book(Some("123-832-78"), Some("TITANIC"), Some(Author(Some(1), Some("abigail"), Some(80))))

  /**
   * Book A as a PUT body. The tests serialise the entity, whose author key is
   * not the DTO's, so the author arrives absent.
   */
  const TitanicBody: Book := Titanic.(author := None)

  /** The state after the tests save book A through the service. */
  const WithTitanic: State := State(BookService.CreateUpdateBook(map[], "123-832-78", Titanic).0, AuthorService.EmptyAuthors)

  /**
   * PUT of a new isbn answers 201 with that isbn and the title; with book A
   * saved, a PUT with the title "NEW TITLE" answers 202 with that title under
   * the same isbn.
   */
  lemma UpsertCreateThenUpdate()
    ensures var (_, r1) := Handle(EmptyState, PutBook("123-832-78", TitanicBody));
            && r1.status.Code() == 201
            && r1.body.BookBody?
            && r1.body.book.isbn == Some("123-832-78")
            && r1.body.book.title == Some("TITANIC")
    ensures var (_, r2) := Handle(WithTitanic, PutBook("123-832-78", TitanicBody.(title := Some("NEW TITLE"))));
            && r2.status.Code() == 202
            && r2.body.BookBody?
            && r2.body.book.isbn == Some("123-832-78")
            && r2.body.book.title == Some("NEW TITLE")
  {
  }

  /**
   * With book A saved, DELETE of its isbn answers 204; DELETE of the isbn
   * "1000", which is not stored, answers 404 and writes nothing.
   */
  lemma DeleteAnswers204Or404()
    ensures Handle(WithTitanic, DeleteBook("123-832-78")).1.status.Code() == 204
    ensures var (s1, r1) := Handle(EmptyState, DeleteBook("1000"));
            r1.status.Code() == 404 && s1 == EmptyState
  {
  }

  /** Author A as the tests build it: id 1, "abigail", 80. */
  const AuthorA: Author := Author(Some(1), Some("abigail"), Some(80))

  /** The state after the tests save author A through the service. */
  const WithAuthorA: State := State(map[], AuthorService.Save(AuthorService.EmptyAuthors, AuthorA).0)

  /**
   * POST of author A with its id cleared answers 201 with an id, the name
   * "abigail" and the age 80.
   */
  lemma CreateAuthorWithoutId()
    ensures var (_, r1) := Handle(EmptyState, PostAuthor(AuthorA.(id := None)));
            && r1.status.Code() == 201
            && r1.body.AuthorBody?
            && r1.body.author.id.Some?
            && r1.body.author.name == Some("abigail")
            && r1.body.author.age == Some(80)
  {
  }

  /**
   * With author A saved, PATCH `/authors/1` of A's DTO with the name
   * "UPDATED" answers 200 with the name "UPDATED".
   */
  lemma PatchAuthorName()
    ensures var (_, r1) := Handle(WithAuthorA, PatchAuthor(1, AuthorA.(name := Some("UPDATED"))));
            r1 == Response(Ok, AuthorBody(Author(Some(1), Some("UPDATED"), Some(80))))
  {
  }

  /**
   * With author A saved, a PUT of `/authors/1` with the name "New name" and
   * the age 0 answers 202 and returns age 0; a PUT of `/authors/99` answers
   * 404 and writes nothing.
   */
  lemma FullUpdateStoresZeroAge()
    ensures var (_, r1) := Handle(WithAuthorA, PutAuthor(1, AuthorA.(name := Some("New name"), age := Some(0))));
            r1 == Response(Accepted, AuthorBody(Author(Some(1), Some("New name"), Some(0))))
    ensures var (s2, r2) := Handle(WithAuthorA, PutAuthor(99, AuthorA));
            r2.status.Code() == 404 && s2 == WithAuthorA
  {
  }
}
