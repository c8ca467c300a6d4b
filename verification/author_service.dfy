/**
 * AuthorServiceImpl: save with id allocation, lookups and the presence-based
 * partial update, over the author table seen as a map from id to row.
 *
 * The table's identity generator belongs to the database, not to the service;
 * it is modelled as a counter `next` together with the guarantee the generator
 * gives, namely that an allocated id is not already in use.
 */
module AuthorService {
  import opened Domain
  import Repository

  datatype AuthorRepo = AuthorRepo(rows: map<int, AuthorRow>, next: int)

  /** A fresh table: no rows, the identity generator starts at 1. */
  const EmptyAuthors: AuthorRepo := AuthorRepo(map[], 1)

  /** The message of the exception `partialUpdate` throws. */
  const AuthorNotFound: string := "Author does not exist"

  /** The ids at or above `n` that are in use. */
  function UsedFrom(keys: set<int>, n: int): set<int>
  {
    set k | k in keys && k >= n
  }

  lemma {:induction false} UsedFromShrinks(keys: set<int>, n: int)
    requires n in keys
    ensures |UsedFrom(keys, n + 1)| < |UsedFrom(keys, n)|
  {
    assert UsedFrom(keys, n + 1) == UsedFrom(keys, n) - {n};
  }

  /** The least id at or above `n` that no row uses. */
  function FreshId(rows: map<int, AuthorRow>, n: int): (id: int)
    ensures id >= n && id !in rows
    ensures forall j :: n <= j < id ==> j in rows
    decreases |UsedFrom(rows.Keys, n)|
  {
    if n !in rows then n
    else
      UsedFromShrinks(rows.Keys, n);
      FreshId(rows, n + 1)
  }

  /** `findById`: the author stored under `id`, carrying that id. */
  function FindById(r: AuthorRepo, id: int): (a: Option<Author>)
    ensures a.Some? <==> id in r.rows
    ensures a.Some? ==> a.value.id == Some(id) && AuthorRowOf(a.value) == r.rows[id]
  {
    match Repository.FindById(r.rows, id)
    case Some(row) => Some(AuthorAt(id, row))
    case None => None
  }

  /** `isExists`: `findById(id).isPresent()`. */
  function IsExists(r: AuthorRepo, id: int): (b: bool)
    ensures b <==> id in r.rows
  {
    FindById(r, id).Some?
  }

  /**
   * `save`: an author without an id gets a fresh one; an author with an id is
   * written under that id, replacing what was there. Name and age are stored
   * as given, absent ones included.
   */
  function Save(r: AuthorRepo, a: Author): (res: (AuthorRepo, Author))
    ensures res.1.id.Some?
    ensures a.id.Some? ==> res.1.id == a.id
    ensures a.id.None? ==> res.1.id.value !in r.rows && res.1.id.value >= r.next
    ensures res.1.name == a.name && res.1.age == a.age
    ensures res.0.rows.Keys == r.rows.Keys + {res.1.id.value}
    ensures FindById(res.0, res.1.id.value) == Some(res.1)
    ensures forall k :: k in r.rows && k != res.1.id.value ==> res.0.rows[k] == r.rows[k]
    ensures res.0.next >= r.next
  {
    match a.id
    case Some(id) =>
      (r.(rows := r.rows[id := AuthorRowOf(a)]), a)
    case None =>
      var id := FreshId(r.rows, r.next);
      (AuthorRepo(r.rows[id := AuthorRowOf(a)], id + 1), a.(id := Some(id)))
  }

  /**
   * `partialUpdate`: the patch's id is replaced by the path id and never read
   * again; a present name or age replaces the stored one (a present age of 0
   * included), an absent one keeps it. An absent id fails and writes nothing.
   */
  function PartialUpdate(r: AuthorRepo, id: int, patch: Author): (res: Result<(AuthorRepo, Author)>)
    ensures res.Failure? <==> id !in r.rows
    ensures res.Failure? ==> res.error == AuthorNotFound
    ensures res.Success? ==> res.value.1.id == Some(id)
    ensures res.Success? && patch.name.Some? ==> res.value.1.name == patch.name
    ensures res.Success? && patch.name.None? ==> res.value.1.name == r.rows[id].name
    ensures res.Success? && patch.age.Some? ==> res.value.1.age == patch.age
    ensures res.Success? && patch.age.None? ==> res.value.1.age == r.rows[id].age
    ensures res.Success? ==> res.value.0.rows.Keys == r.rows.Keys && res.value.0.next == r.next
    ensures res.Success? ==> FindById(res.value.0, id) == Some(res.value.1)
    ensures res.Success? ==> forall k :: k in r.rows && k != id ==> res.value.0.rows[k] == r.rows[k]
  {
    var patch := patch.(id := Some(id));
    match FindById(r, id)
    case None => Failure(AuthorNotFound)
    case Some(existing) =>
      var merged := existing.(name := Overlay(patch.name, existing.name),
                              age := Overlay(patch.age, existing.age));
      Success(Save(r, merged))
  }

  /** `findAll`: every stored author exactly once, in the store's order. */
  method FindAll(r: AuthorRepo) returns (authors: seq<Author>)
    ensures |authors| == |r.rows.Keys|
    ensures forall i :: 0 <= i < |authors| ==> authors[i].id.Some? && FindById(r, authors[i].id.value) == Some(authors[i])
    ensures forall id :: id in r.rows ==> FindById(r, id).value in authors
    ensures forall i, j :: 0 <= i < j < |authors| ==> authors[i].id != authors[j].id
  {
    var ks := Repository.KeyList(r.rows);
    authors := seq(|ks|, i requires 0 <= i < |ks| => AuthorAt(ks[i], r.rows[ks[i]]));
    forall id | id in r.rows
      ensures FindById(r, id).value in authors
    {
      var i :| 0 <= i < |ks| && ks[i] == id;
      assert authors[i] == FindById(r, id).value;
    }
  }

  /**
   * Saving and then looking up the returned id gives back the saved record;
   * saving it again with other fields replaces it under the same id.
   */
  lemma SaveThenFindById(r: AuthorRepo, a: Author, name: Option<string>, age: Option<int>)
    ensures var (r1, saved) := Save(r, a);
            FindById(r1, saved.id.value) == Some(saved)
    ensures var (r1, saved) := Save(r, a);
            var (r2, resaved) := Save(r1, saved.(name := name, age := age));
            && resaved.id == saved.id
            && FindById(r2, saved.id.value) == Some(Author(saved.id, name, age))
            && r2.rows.Keys == r1.rows.Keys
  {
  }

  /** Two authors saved without ids get different ids, and both stay stored. */
  lemma SaveTwiceAllocatesDistinctIds(r: AuthorRepo, a: Author, b: Author)
    requires a.id.None? && b.id.None?
    ensures var (r1, sa) := Save(r, a);
            var (r2, sb) := Save(r1, b);
            && sa.id != sb.id
            && FindById(r2, sa.id.value) == Some(sa)
            && FindById(r2, sb.id.value) == Some(sb)
  {
  }

  /** Applying the same partial update twice stores the same as applying it once. */
  lemma PartialUpdateIdempotent(r: AuthorRepo, id: int, patch: Author)
    requires id in r.rows
    ensures var r1 := PartialUpdate(r, id, patch);
            r1.Success? && PartialUpdate(r1.value.0, id, patch) == r1
  {
    var (r1, merged) := PartialUpdate(r, id, patch).value;
    assert FindById(r1, id) == Some(merged);
    assert r1.rows[id := AuthorRowOf(merged)] == r1.rows;
  }
}
