/** Worked cases of the index, for any resolver that meets its contract. */
module Scenarios {
  import opened Entities
  import opened VersionHelper
  import opened ListMultimap
  import opened Grouping
  import opened VersionedIndex
  import opened IndexProperties

  /** Bulk insert of two revisions of one id and one revision of another into
      an empty index groups them per id in input order; the latest of the
      first id is one of its two revisions. */
  lemma GroupedBulkInsert(h: Resolver, a1: Entity, a2: Entity, b1: Entity)
    requires h.Valid()
    requires a1.id == a2.id && b1.id != a1.id
    ensures var r := PutAll(h, Empty(), [a1, a2, b1]);
            && r.Success?
            && GetAllVersions(r.value, a1.id) == [a1, a2]
            && GetAllVersions(r.value, b1.id) == [b1]
            && GetLatestVersion(r.value, a1.id) in {Some(a1), Some(a2)}
            && GetLatestVersion(r.value, b1.id) == Some(b1)
  {
    var es := [a1, a2, b1];
    assert es[1..] == [a2, b1] && [a2, b1][1..] == [b1] && [b1][1..] == [];
    assert ElementsWithId([b1], a1.id) == [];
    assert ElementsWithId([a2, b1], a1.id) == [a2];
    assert ElementsWithId(es, a1.id) == [a1, a2];
    assert ElementsWithId(es, b1.id) == [b1];
    assert a1 in es && b1 in es;
    EmptyConsistent(h);
    PutAllReadsGroup(h, Empty(), es, a1.id);
    PutAllReadsGroup(h, Empty(), es, b1.id);
  }

  lemma SingleKeyNoClash(h: Resolver, key: string, e: Entity)
    requires h.Valid()
    ensures !LatestIdClash(h, map[key := [e]])
  {
  }

  lemma SingleKeyOtherIdAbsent(h: Resolver, key: string, e: Entity, id: string)
    requires h.Valid() && id != e.id
    requires !LatestIdClash(h, map[key := [e]])
    ensures id !in LatestById(h, map[key := [e]])
  {
    assert Pick(h, map[key := [e]], key) == e;
  }

  lemma SingleKeyOwnIdPresent(h: Resolver, key: string, e: Entity)
    requires h.Valid()
    requires !LatestIdClash(h, map[key := [e]])
    ensures e.id in LatestById(h, map[key := [e]])
    ensures LatestById(h, map[key := [e]])[e.id] == e
  {
    assert Pick(h, map[key := [e]], key) == e;
  }

  /** A store holding one revision under one key projects exactly that
      revision, under the revision's own id. */
  lemma SingleKeyProjection(h: Resolver, key: string, e: Entity)
    requires h.Valid()
    ensures PopulateLatest(h, map[key := [e]]) == Success(map[e.id := e])
  {
    SingleKeyNoClash(h, key, e);
    SingleKeyOwnIdPresent(h, key, e);
    var p := LatestById(h, map[key := [e]]);
    forall id | id != e.id ensures id !in p {
      SingleKeyOtherIdAbsent(h, key, e, id);
    }
    assert p == map[e.id := e];
  }

  lemma TwoKeysClash(h: Resolver, k1: string, k2: string, e1: Entity, e2: Entity)
    requires h.Valid() && k1 != k2 && e1.id == e2.id
    ensures LatestIdClash(h, map[k1 := [e1], k2 := [e2]])
  {
    var store: Store := map[k1 := [e1], k2 := [e2]];
    assert Pick(h, store, k1) == e1 && Pick(h, store, k2) == e2;
  }

  /** The projection is keyed by each revision's own id: two revisions with
      the same id stored under two different keys make the rebuild fail. */
  lemma ForeignIdsClash(h: Resolver, key: string, a1: Entity, a2: Entity)
    requires h.Valid()
    requires a1.id == a2.id && key != a1.id
    ensures var a := Put(h, Empty(), a1.id, [a1]);
            && a.Success?
            && Put(h, a.value, key, [a2]) == Failure(DuplicateKey)
  {
    assert Put(h, Empty(), a1.id, [a1]) == Rebuild(h, ReplaceValues(Empty().store, a1.id, [a1]));
    assert ReplaceValues(map[], a1.id, [a1]) == map[a1.id := [a1]];
    SingleKeyProjection(h, a1.id, a1);
    var a := Put(h, Empty(), a1.id, [a1]).value;
    assert a.store == map[a1.id := [a1]];
    assert Put(h, a, key, [a2]) == Rebuild(h, ReplaceValues(a.store, key, [a2]));
    assert ReplaceValues(a.store, key, [a2]) == map[a1.id := [a1], key := [a2]];
    TwoKeysClash(h, a1.id, key, a1, a2);
  }

  /** A revision stored under a foreign key is projected under its own id:
      `getLatestVersion` answers for that id although `getAllVersions` holds
      nothing for it, and answers nothing for the key it is stored under. */
  lemma ForeignIdKeysProjection(h: Resolver, key: string, e: Entity)
    requires h.Valid()
    requires e.id != key
    ensures var r := Put(h, Empty(), key, [e]);
            && r.Success?
            && GetAllVersions(r.value, e.id) == []
            && GetLatestVersion(r.value, e.id) == Some(e)
            && GetLatestVersion(r.value, key) == None
  {
    assert Put(h, Empty(), key, [e]) == Rebuild(h, ReplaceValues(Empty().store, key, [e]));
    assert ReplaceValues(map[], key, [e]) == map[key := [e]];
    SingleKeyProjection(h, key, e);
  }
}
