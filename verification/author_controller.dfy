/**
 * AuthorController: the status and store decisions of the `/authors`
 * handlers. The mapper copies fields one to one, so a DTO is modelled as the
 * entity itself.
 */
module AuthorController {
  import opened Domain
  import opened Http
  import opened AuthorService

  /**
   * POST `/authors`: always 201 with the saved author, which carries an id;
   * a body without an id gets one no stored author had.
   */
  function CreateAuthor(r: AuthorRepo, dto: Author): (res: Reply<AuthorRepo, Author>)
    ensures res.status == Created
    ensures res.body.Some? && res.body.value.id.Some?
    ensures res.body.value.name == dto.name && res.body.value.age == dto.age
    ensures dto.id.None? ==> res.body.value.id.value !in r.rows
    ensures dto.id.Some? ==> res.body.value.id == dto.id
    ensures FindById(res.store, res.body.value.id.value) == res.body
    ensures res.store.rows.Keys == r.rows.Keys + {res.body.value.id.value}
    ensures forall k :: k in r.rows && k != res.body.value.id.value ==> k in res.store.rows && res.store.rows[k] == r.rows[k]
  {
    var (r', saved) := Save(r, dto);
    Reply(r', Created, Some(saved))
  }

  /** GET `/authors/{id}`: 200 with the stored author iff it is stored, else 404. */
  function FindAuthor(r: AuthorRepo, id: int): (res: Reply<AuthorRepo, Author>)
    ensures res.store == r
    ensures res.status == Ok <==> id in r.rows
    ensures res.status == NotFound <==> id !in r.rows
    ensures res.body.Some? <==> id in r.rows
    ensures id in r.rows ==> res.body.value == AuthorAt(id, r.rows[id])
  {
    match AuthorService.FindById(r, id)
    case Some(a) => Reply(r, Ok, Some(a))
    case None => Reply(r, NotFound, None)
  }

  /**
   * PUT `/authors/{id}`: 404 and no write on an absent id; otherwise the body's
   * id is forced to the path id and name and age are replaced wholesale (an
   * absent field is stored absent, an age of 0 is stored), answering 202.
   */
  function FullUpdateAuthor(r: AuthorRepo, id: int, dto: Author): (res: Reply<AuthorRepo, Author>)
    ensures id !in r.rows ==> res == Reply(r, NotFound, None)
    ensures id in r.rows ==> res.status == Accepted
    ensures id in r.rows ==> res.body == Some(Author(Some(id), dto.name, dto.age))
    ensures id in r.rows ==> res.store == AuthorRepo(r.rows[id := AuthorRow(dto.name, dto.age)], r.next)
  {
    if !IsExists(r, id) then
      Reply(r, NotFound, None)
    else
      var (r', saved) := Save(r, dto.(id := Some(id)));
      Reply(r', Accepted, Some(saved))
  }

  /**
   * PATCH `/authors/{id}`: 404 and no write on an absent id; otherwise 200
   * with the presence-merged author. The existence check comes first, so the
   * service's not-found exception (a 500) is never reached.
   */
  function PartialUpdateAuthor(r: AuthorRepo, id: int, dto: Author): (res: Reply<AuthorRepo, Author>)
    ensures res.status != InternalServerError
    ensures id !in r.rows ==> res == Reply(r, NotFound, None)
    ensures id in r.rows ==> res.status == Ok
    ensures id in r.rows ==> res.body == Some(Author(Some(id), Overlay(dto.name, r.rows[id].name), Overlay(dto.age, r.rows[id].age)))
    ensures id in r.rows ==> res.store == AuthorRepo(r.rows[id := AuthorRowOf(res.body.value)], r.next)
  {
    if !IsExists(r, id) then
      Reply(r, NotFound, None)
    else
      match PartialUpdate(r, id, dto)
      case Success((r', saved)) => Reply(r', Ok, Some(saved))
      case Failure(_) => Reply(r, InternalServerError, None)
  }

  /** A created author is found by a GET of the id the POST answered with. */
  lemma CreateThenFindAuthor(r: AuthorRepo, dto: Author)
    ensures var created := CreateAuthor(r, dto);
            var found := FindAuthor(created.store, created.body.value.id.value);
            found.status == Ok && found.body == created.body
  {
  }

  /**
   * PUT replaces where PATCH merges: with a body that carries both name and
   * age the two agree, but an absent field is cleared by PUT and kept by PATCH.
   */
  lemma PutReplacesPatchMerges(r: AuthorRepo, id: int, dto: Author)
    requires id in r.rows
    ensures dto.name.Some? && dto.age.Some? ==>
              FullUpdateAuthor(r, id, dto).store == PartialUpdateAuthor(r, id, dto).store
    ensures dto.name.None? ==> FullUpdateAuthor(r, id, dto).body.value.name.None?
    ensures dto.name.None? ==> PartialUpdateAuthor(r, id, dto).body.value.name == r.rows[id].name
  {
  }
}
