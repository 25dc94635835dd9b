/** What the index promises its readers: the projection always has an entry
    for exactly the ids with revisions, that entry is the resolver's pick from
    the id's own revisions, and each mutation touches only the ids it names. */
module IndexProperties {
  import opened Entities
  import opened VersionHelper
  import opened ListMultimap
  import opened Grouping
  import opened VersionedIndex

  /** The index invariant: revisions are stored under their own id, and the
      projection maps each stored id to the latest of its revisions. */
  ghost predicate Consistent(h: Resolver, ix: Index)
    requires h.Valid()
  {
    WellKeyed(ix.store) && ix.latest == Projection(h, ix.store)
  }

  lemma EmptyConsistent(h: Resolver)
    requires h.Valid()
    ensures Consistent(h, Empty())
    ensures GetLatestVersions(Empty()) == {} && GetAllVersionsMap(Empty()) == map[]
  {
  }

  /** The projection has an entry for exactly the ids whose revision list is
      non-empty, which are exactly the keys of the `getAllVersions()` snapshot. */
  lemma LatestExactlyForNonEmpty(h: Resolver, ix: Index, id: string)
    requires h.Valid() && Consistent(h, ix)
    ensures GetLatestVersion(ix, id).Some? <==> |GetAllVersions(ix, id)| > 0
    ensures GetLatestVersion(ix, id).Some? <==> id in GetAllVersionsMap(ix)
  {
    PresentIffNonEmpty(ix.store, id);
  }

  /** The projected revision of an id is the resolver's pick from that id's
      revisions, hence one of them, and it carries that id. */
  lemma LatestIsMember(h: Resolver, ix: Index, id: string)
    requires h.Valid() && Consistent(h, ix)
    requires GetLatestVersion(ix, id).Some?
    ensures |GetAllVersions(ix, id)| > 0
    ensures GetLatestVersion(ix, id).value == LatestVersionedElementIn(h, GetAllVersions(ix, id))
    ensures GetLatestVersion(ix, id).value in GetAllVersions(ix, id)
    ensures GetLatestVersion(ix, id).value.id == id
  {
    assert AllWithId(ix.store[id], id);
  }

  /** `getLatestVersions` holds one revision per stored id: every value is the
      projection entry of its own id, and every stored id contributes one. */
  lemma LatestVersionsOnePerId(h: Resolver, ix: Index)
    requires h.Valid() && Consistent(h, ix)
    ensures forall e | e in GetLatestVersions(ix) :: GetLatestVersion(ix, e.id) == Some(e)
    ensures forall id | id in ix.store :: GetLatestVersion(ix, id).Some? && GetLatestVersion(ix, id).value in GetLatestVersions(ix)
  {
    forall e | e in GetLatestVersions(ix) ensures GetLatestVersion(ix, e.id) == Some(e) {
      var k :| k in ix.latest && ix.latest[k] == e;
      LatestIsMember(h, ix, k);
    }
  }

  /** `put` with revisions of `id` succeeds and keeps the invariant. */
  lemma PutPreservesConsistency(h: Resolver, ix: Index, id: string, es: seq<Entity>)
    requires h.Valid() && Consistent(h, ix) && AllWithId(es, id)
    ensures Put(h, ix, id, es).Success?
    ensures Consistent(h, Put(h, ix, id, es).value)
  {
    var r := Put(h, ix, id, es).value;
    forall k | k in r.store ensures AllWithId(r.store[k], k) {
      assert r.store[k] == Get(r.store, k);
      if k != id {
        assert Get(ix.store, k) == ix.store[k];
      }
    }
  }

  /** `putAll` succeeds and keeps the invariant: grouping by id never stores a
      revision under a foreign key. */
  lemma PutAllPreservesConsistency(h: Resolver, ix: Index, es: seq<Entity>)
    requires h.Valid() && Consistent(h, ix)
    ensures PutAll(h, ix, es).Success?
    ensures Consistent(h, PutAll(h, ix, es).value)
  {
    var r := PutAll(h, ix, es).value;
    forall k | k in r.store ensures AllWithId(r.store[k], k) {
      assert r.store[k] == Get(r.store, k);
      if k !in IdsOf(es) {
        assert Get(ix.store, k) == ix.store[k];
      }
    }
  }

  /** `remove` succeeds and keeps the invariant. */
  lemma RemovePreservesConsistency(h: Resolver, ix: Index, id: string)
    requires h.Valid() && Consistent(h, ix)
    ensures Remove(h, ix, id).Success?
    ensures Consistent(h, Remove(h, ix, id).value)
  {
  }

  /** After `put(id, es)` the id reads back `es` and its latest is the pick
      from `es` (none when `es` is empty); every other id reads as before in
      both views. */
  lemma PutReadsBack(h: Resolver, ix: Index, id: string, es: seq<Entity>)
    requires h.Valid() && Consistent(h, ix) && AllWithId(es, id)
    ensures Put(h, ix, id, es).Success?
    ensures GetAllVersions(Put(h, ix, id, es).value, id) == es
    ensures GetLatestVersion(Put(h, ix, id, es).value, id)
            == if es == [] then None else Some(LatestVersionedElementIn(h, es))
    ensures forall k | k != id :: GetAllVersions(Put(h, ix, id, es).value, k) == GetAllVersions(ix, k)
    ensures forall k | k != id :: GetLatestVersion(Put(h, ix, id, es).value, k) == GetLatestVersion(ix, k)
  {
    var r := Put(h, ix, id, es).value;
    forall k | k != id ensures GetLatestVersion(r, k) == GetLatestVersion(ix, k) {
      SameListSameLatest(h, ix, r, k);
    }
  }

  /** Two projected indexes that hold the same list for `k` answer the same
      `getLatestVersion(k)`. */
  lemma SameListSameLatest(h: Resolver, ix: Index, r: Index, k: string)
    requires h.Valid()
    requires ix.latest == Projection(h, ix.store) && r.latest == Projection(h, r.store)
    requires Get(r.store, k) == Get(ix.store, k)
    ensures GetLatestVersion(r, k) == GetLatestVersion(ix, k)
  {
    PresentIffNonEmpty(r.store, k);
    PresentIffNonEmpty(ix.store, k);
  }

  /** After `putAll(es)` an id occurring in `es` reads back exactly its
      subsequence of `es`, with the pick from that subsequence as latest. */
  lemma PutAllReadsGroup(h: Resolver, ix: Index, es: seq<Entity>, k: string)
    requires h.Valid() && Consistent(h, ix) && k in IdsOf(es)
    ensures PutAll(h, ix, es).Success?
    ensures GetAllVersions(PutAll(h, ix, es).value, k) == ElementsWithId(es, k)
    ensures |ElementsWithId(es, k)| > 0
    ensures GetLatestVersion(PutAll(h, ix, es).value, k) == Some(LatestVersionedElementIn(h, ElementsWithId(es, k)))
  {
  }

  /** After `putAll(es)` an id not occurring in `es` reads as before in both views. */
  lemma PutAllKeepsOthers(h: Resolver, ix: Index, es: seq<Entity>, k: string)
    requires h.Valid() && Consistent(h, ix) && k !in IdsOf(es)
    ensures PutAll(h, ix, es).Success?
    ensures GetAllVersions(PutAll(h, ix, es).value, k) == GetAllVersions(ix, k)
    ensures GetLatestVersion(PutAll(h, ix, es).value, k) == GetLatestVersion(ix, k)
  {
  }

  /** After `remove(id)` both views report `id` absent, every version lookup
      for it fails, and every other id reads as before in both views. */
  lemma RemoveClearsBothViews(h: Resolver, ix: Index, id: string)
    requires h.Valid() && Consistent(h, ix)
    ensures Remove(h, ix, id).Success?
    ensures GetAllVersions(Remove(h, ix, id).value, id) == []
    ensures id !in GetAllVersionsMap(Remove(h, ix, id).value)
    ensures GetLatestVersion(Remove(h, ix, id).value, id) == None
    ensures forall v :: GetVersion(h, Remove(h, ix, id).value, id, v) == None
    ensures forall k | k != id :: GetAllVersions(Remove(h, ix, id).value, k) == GetAllVersions(ix, k)
    ensures forall k | k != id :: GetLatestVersion(Remove(h, ix, id).value, k) == GetLatestVersion(ix, k)
  {
  }

  /** Repeating a successful `put(id, es)` changes neither view. */
  lemma PutIdempotent(h: Resolver, ix: Index, id: string, es: seq<Entity>)
    requires h.Valid() && Put(h, ix, id, es).Success?
    ensures Put(h, Put(h, ix, id, es).value, id, es) == Put(h, ix, id, es)
  {
    var ix1 := Put(h, ix, id, es).value;
    ReplaceValuesIdempotent(ix.store, id, es);
  }
}
