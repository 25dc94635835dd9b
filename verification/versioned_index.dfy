/** VersionedNetexEntityIndexImpl: every revision of an entity stored under
    its id, plus a projection from each id to its single latest revision that
    is rebuilt after every mutation. Each mutation is a pure transition from
    one `Index` value to the next. */
module VersionedIndex {
  import opened Entities
  import opened VersionHelper
  import opened ListMultimap
  import opened Grouping

  /** The failure of `Collectors.toMap` when two keys yield the same id. */
  datatype IndexError = DuplicateKey

  datatype Result<+T> = Success(value: T) | Failure(error: IndexError)

  /** `store` is the revision multimap, `latest` the derived projection. */
  datatype Index = Index(store: Store, latest: map<string, Entity>)

  /** A freshly constructed index: both structures empty, so every reader
      answers nothing. */
  function Empty(): (r: Index)
    ensures forall id :: GetAllVersions(r, id) == [] && GetLatestVersion(r, id).None?
    ensures GetLatestVersions(r) == {}
  {
    Index(map[], map[])
  }

  /** The revision selected as latest for the list stored under `k`. */
  function Pick(h: Resolver, store: Store, k: string): Entity
    requires h.Valid() && k in store
  {
    LatestVersionedElementIn(h, store[k])
  }

  /** Two distinct keys whose latest revisions carry the same id. */
  predicate LatestIdClash(h: Resolver, store: Store)
    requires h.Valid()
  {
    exists k1, k2 {:trigger Pick(h, store, k1), Pick(h, store, k2)}
      | k1 in store && k2 in store && k1 != k2
      :: Pick(h, store, k1).id == Pick(h, store, k2).id
  }

  /** `populateLatestMap`: the latest revision of every key, collected into a
      map keyed by the revision's OWN id; the collection fails when two keys
      yield revisions with the same id. */
  function PopulateLatest(h: Resolver, store: Store): (r: Result<map<string, Entity>>)
    requires h.Valid()
    ensures r.Success? ==> forall k | k in store :: Pick(h, store, k).id in r.value && r.value[Pick(h, store, k).id] == Pick(h, store, k)
    ensures r.Success? ==> forall id | id in r.value :: exists k | k in store :: Pick(h, store, k).id == id
  {
    if LatestIdClash(h, store) then Failure(DuplicateKey)
    else Success(LatestById(h, store))
  }

  /** The clash-free collection: each key's latest revision under its own id. */
  function LatestById(h: Resolver, store: Store): map<string, Entity>
    requires h.Valid() && !LatestIdClash(h, store)
  {
    map k | k in store :: Pick(h, store, k).id := Pick(h, store, k)
  }

  /** `acc` is what collecting the keys in `done` has produced without a
      clash: each key's latest revision sits under its own id, every entry
      comes from some key, and no two keys have produced the same id. */
  ghost predicate Collected(h: Resolver, store: Store, done: set<string>, acc: map<string, Entity>)
    requires h.Valid() && done <= store.Keys
  {
    && (forall k | k in done :: Pick(h, store, k).id in acc && acc[Pick(h, store, k).id] == Pick(h, store, k))
    && (forall id | id in acc :: exists k | k in done :: Pick(h, store, k).id == id)
    && (forall k1, k2 | k1 in done && k2 in done && k1 != k2 :: Pick(h, store, k1).id != Pick(h, store, k2).id)
  }

  lemma CollectStep(h: Resolver, store: Store, done: set<string>, acc: map<string, Entity>, k: string)
    requires h.Valid() && done <= store.Keys && k in store && k !in done
    requires Collected(h, store, done, acc)
    requires Pick(h, store, k).id !in acc
    ensures Collected(h, store, done + {k}, acc[Pick(h, store, k).id := Pick(h, store, k)])
  {
    var e := Pick(h, store, k);
    var acc' := acc[e.id := e];
    forall id | id in acc' ensures exists k0 | k0 in done + {k} :: Pick(h, store, k0).id == id {
      if id != e.id {
        var k0 :| k0 in done && Pick(h, store, k0).id == id;
      }
    }
  }

  lemma CollectClash(h: Resolver, store: Store, done: set<string>, acc: map<string, Entity>, k: string)
    requires h.Valid() && done <= store.Keys && k in store && k !in done
    requires Collected(h, store, done, acc)
    requires Pick(h, store, k).id in acc
    ensures LatestIdClash(h, store)
  {
    var k' :| k' in done && Pick(h, store, k').id == Pick(h, store, k).id;
  }

  lemma CollectDone(h: Resolver, store: Store, acc: map<string, Entity>)
    requires h.Valid()
    requires Collected(h, store, store.Keys, acc)
    ensures PopulateLatest(h, store) == Success(acc)
  {
    assert !LatestIdClash(h, store);
    var p := PopulateLatest(h, store).value;
    forall id ensures id in p <==> id in acc {
      if id in acc {
        var k :| k in store && Pick(h, store, k).id == id;
      }
    }
    forall id | id in p ensures p[id] == acc[id] {
      var k :| k in store && Pick(h, store, k).id == id;
    }
    assert p == acc;
  }

  /** The same collection carried out the way the stream does it: keys are
      taken one at a time in an arbitrary order and each revision is added
      under its id, failing as soon as that id is already present. Whatever
      the order, the outcome is `PopulateLatest`. */
  method CollectLatest(h: Resolver, store: Store) returns (r: Result<map<string, Entity>>)
    requires h.Valid()
    ensures r == PopulateLatest(h, store)
  {
    var acc: map<string, Entity> := map[];
    var todo := store.Keys;
    ghost var done: set<string> := {};
    while todo != {}
      invariant todo !! done && todo + done == store.Keys
      invariant Collected(h, store, done, acc)
      decreases todo
    {
      var k :| k in todo;
      var e := Pick(h, store, k);
      if e.id in acc {
        CollectClash(h, store, done, acc, k);
        return Failure(DuplicateKey);
      }
      CollectStep(h, store, done, acc, k);
      acc := acc[e.id := e];
      todo := todo - {k};
      done := done + {k};
    }
    CollectDone(h, store, acc);
    r := Success(acc);
  }

  /** The stored-id invariant: every revision stored under key `k` has id `k`. */
  predicate WellKeyed(store: Store)
  {
    forall k | k in store :: AllWithId(store[k], k)
  }

  /** The projection keyed by the multimap key rather than by the revision's id. */
  function Projection(h: Resolver, store: Store): map<string, Entity>
    requires h.Valid()
  {
    map k | k in store :: Pick(h, store, k)
  }

  /** Under the stored-id invariant, keying by the revision's own id and
      keying by the multimap key agree, so `toMap` never meets a duplicate. */
  lemma PopulateWellKeyed(h: Resolver, store: Store)
    requires h.Valid() && WellKeyed(store)
    ensures PopulateLatest(h, store) == Success(Projection(h, store))
  {
    forall k | k in store ensures Pick(h, store, k).id == k {
      assert Pick(h, store, k) in store[k];
    }
    assert !LatestIdClash(h, store);
    var p := PopulateLatest(h, store).value;
    assert p == Projection(h, store);
  }

  /** `put`: the revision list of `id` is replaced by `es` (an empty `es`
      drops `id`), then the projection is rebuilt. */
  function Put(h: Resolver, ix: Index, id: string, es: seq<Entity>): (r: Result<Index>)
    requires h.Valid()
    ensures r.Success? ==> Get(r.value.store, id) == es
    ensures r.Success? ==> forall k | k != id :: Get(r.value.store, k) == Get(ix.store, k)
    ensures WellKeyed(ix.store) && AllWithId(es, id) ==> r.Success? && r.value.latest == Projection(h, r.value.store)
  {
    var store := ReplaceValues(ix.store, id, es);
    assert WellKeyed(ix.store) && AllWithId(es, id) ==> WellKeyed(store);
    RebuildWellKeyed(h, store);
    Rebuild(h, store)
  }

  /** Pairs a mutated multimap with its freshly populated projection. */
  function Rebuild(h: Resolver, store: Store): (r: Result<Index>)
    requires h.Valid()
    ensures r.Success? ==> r.value.store == store
    ensures r.Success? <==> PopulateLatest(h, store).Success?
  {
    match PopulateLatest(h, store)
    case Success(latest) => Success(Index(store, latest))
    case Failure(err) => Failure(err)
  }

  /** A well-keyed multimap always rebuilds, to the key-indexed projection. */
  lemma RebuildWellKeyed(h: Resolver, store: Store)
    requires h.Valid()
    ensures WellKeyed(store) ==> Rebuild(h, store) == Success(Index(store, Projection(h, store)))
  {
    if WellKeyed(store) {
      PopulateWellKeyed(h, store);
    }
  }

  /** `putAll`: the input is grouped by id, and each id that occurs in it has
      its revision list replaced by its group; then the projection is rebuilt.
      The groups have distinct keys and are never empty, so replacing them
      one after another in any order is the map union `store + groups`
      (`ListMultimap.ReplaceOneByOne`). */
  function PutAll(h: Resolver, ix: Index, es: seq<Entity>): (r: Result<Index>)
    requires h.Valid()
    ensures r.Success? ==> forall k | k in IdsOf(es) :: Get(r.value.store, k) == ElementsWithId(es, k)
    ensures r.Success? ==> forall k | k !in IdsOf(es) :: Get(r.value.store, k) == Get(ix.store, k)
    ensures WellKeyed(ix.store) ==> r.Success? && r.value.latest == Projection(h, r.value.store)
  {
    var groups := GroupById(es);
    var store := ReplaceEach(ix.store, groups);
    GroupsWellKeyed(ix.store, es);
    RebuildWellKeyed(h, store);
    Rebuild(h, store)
  }

  /** Grouping by `getId` stores every revision under its own id, so the
      replacements keep a well-keyed multimap well-keyed. */
  lemma GroupsWellKeyed(store: Store, es: seq<Entity>)
    ensures WellKeyed(store) ==> WellKeyed(ReplaceEach(store, GroupById(es)))
  {
    var groups := GroupById(es);
    var r := ReplaceEach(store, groups);
    if WellKeyed(store) {
      forall k | k in r ensures AllWithId(r[k], k) {
        if k in groups {
          assert r[k] == Get(groups, k) == ElementsWithId(es, k);
        } else {
          assert r[k] == Get(store, k);
        }
      }
    }
  }

  /** `remove`: `id` and its revisions are dropped; then the projection is rebuilt. */
  function Remove(h: Resolver, ix: Index, id: string): (r: Result<Index>)
    requires h.Valid()
    ensures r.Success? ==> id !in r.value.store
    ensures r.Success? ==> forall k | k != id :: Get(r.value.store, k) == Get(ix.store, k)
    ensures WellKeyed(ix.store) ==> r.Success? && r.value.latest == Projection(h, r.value.store)
  {
    var store := RemoveAll(ix.store, id);
    assert WellKeyed(ix.store) ==> WellKeyed(store);
    RebuildWellKeyed(h, store);
    Rebuild(h, store)
  }

  /** `getLatestVersion`: a lookup in the projection. */
  function GetLatestVersion(ix: Index, id: string): (r: Option<Entity>)
    ensures r.Some? <==> id in ix.latest
    ensures r.Some? ==> r.value in ix.latest.Values
  {
    if id in ix.latest then Some(ix.latest[id]) else None
  }

  /** `getAllVersions(id)`: the revision list of `id`, empty when unknown. */
  function GetAllVersions(ix: Index, id: string): (r: seq<Entity>)
    ensures |r| > 0 <==> id in ix.store
    ensures id in ix.store ==> r == ix.store[id]
  {
    Get(ix.store, id)
  }

  /** `getVersion`: the revision of `id` labelled `version`, resolved by the helper. */
  function GetVersion(h: Resolver, ix: Index, id: string, version: string): (r: Option<Entity>)
    requires h.Valid()
    ensures r.Some? ==> r.value in GetAllVersions(ix, id) && r.value.version == version
    ensures id !in ix.store ==> r.None?
  {
    VersionOfElementIn(h, Get(ix.store, id), version)
  }

  /** `getLatestVersions`: a snapshot of the projection's values. */
  function GetLatestVersions(ix: Index): (r: set<Entity>)
    ensures forall id | id in ix.latest :: GetLatestVersion(ix, id).value in r
    ensures forall e | e in r :: exists id | id in ix.latest :: GetLatestVersion(ix, id) == Some(e)
  {
    ix.latest.Values
  }

  /** `getAllVersions()`: a snapshot of the whole multimap. */
  function GetAllVersionsMap(ix: Index): (r: Store)
    ensures forall id :: Get(r, id) == GetAllVersions(ix, id)
    ensures forall id :: id in r <==> |GetAllVersions(ix, id)| > 0
  {
    ix.store
  }
}
