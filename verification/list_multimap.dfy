/** The slice of Guava's ArrayListMultimap that the index uses: a map from a
    key to a non-empty list of values, where a key whose list would become
    empty is dropped, and looking up an absent key yields an empty list. */
module ListMultimap {
  import opened Entities

  type Store = m: map<string, seq<Entity>> | forall k | k in m :: |m[k]| > 0
    witness map[]

  /** `get`: the list stored under `id`, empty when `id` is absent. */
  function Get(m: Store, id: string): seq<Entity>
  {
    if id in m then m[id] else []
  }

  lemma PresentIffNonEmpty(m: Store, id: string)
    ensures id in m <==> |Get(m, id)| > 0
  {
  }

  /** `replaceValues`: the list of `id` becomes `es`; an empty `es` drops `id`. */
  function ReplaceValues(m: Store, id: string, es: seq<Entity>): (r: Store)
    ensures Get(r, id) == es
    ensures id in r <==> |es| > 0
    ensures forall k | k != id :: Get(r, k) == Get(m, k)
    ensures forall k | k != id :: k in r <==> k in m
  {
    if es == [] then m - {id} else m[id := es]
  }

  /** Replacing the same list twice is replacing it once. */
  lemma ReplaceValuesIdempotent(m: Store, id: string, es: seq<Entity>)
    ensures ReplaceValues(ReplaceValues(m, id, es), id, es) == ReplaceValues(m, id, es)
  {
    if es == [] {
      assert (m - {id}) - {id} == m - {id};
    } else {
      assert m[id := es][id := es] == m[id := es];
    }
  }

  /** `removeAll`: `id` and its list are dropped. */
  function RemoveAll(m: Store, id: string): (r: Store)
    ensures id !in r && Get(r, id) == []
    ensures forall k | k != id :: Get(r, k) == Get(m, k)
    ensures forall k | k != id :: k in r <==> k in m
  {
    m - {id}
  }

  /** `groups.forEach(replaceValues)`: every key of `groups` gets its list from
      `groups`. The keys are distinct and the lists non-empty, so the order in
      which the replacements happen does not matter. */
  function ReplaceEach(m: Store, groups: Store): (r: Store)
    ensures r.Keys == m.Keys + groups.Keys
    ensures forall k | k in groups :: Get(r, k) == groups[k]
    ensures forall k | k !in groups :: Get(r, k) == Get(m, k)
  {
    var u := m + groups;
    assert forall k | k in u :: u[k] == if k in groups then groups[k] else m[k];
    u
  }

  /** `r` is what replacing the keys in `done` has made of `m`: those keys
      hold their lists from `groups`, every other key is as in `m`. */
  ghost predicate Replaced<K(!new), V>(m: map<K, V>, groups: map<K, V>, done: set<K>, r: map<K, V>)
  {
    && done <= groups.Keys
    && (forall j :: j in r <==> j in m || j in done)
    && (forall j | j in r :: r[j] == if j in done then groups[j] else m[j])
  }

  /** `groups.forEach(replaceValues)` the way the map does it: one key at a
      time, in an arbitrary order. Whatever the order, the outcome is
      `ReplaceEach`. */
  method ReplaceOneByOne(m: Store, groups: Store) returns (r: Store)
    ensures r == ReplaceEach(m, groups)
  {
    r := m;
    var todo := groups.Keys;
    ghost var done: set<string> := {};
    while todo != {}
      invariant todo !! done && todo + done == groups.Keys
      invariant Replaced(m, groups, done, r)
      decreases todo
    {
      var k :| k in todo;
      ReplaceNonEmpty(r, k, groups[k]);
      UpdateReplaced(m, groups, done, r, k);
      r := ReplaceValues(r, k, groups[k]);
      todo := todo - {k};
      done := done + {k};
    }
    SameReplacement(m, groups, r);
  }

  lemma ReplaceNonEmpty(m: Store, id: string, es: seq<Entity>)
    requires |es| > 0
    ensures ReplaceValues(m, id, es) == m[id := es]
  {
  }

  /** Replacing one more key of `groups` extends the replaced keys by it. */
  lemma UpdateReplaced<K(!new), V>(m: map<K, V>, groups: map<K, V>, done: set<K>, r: map<K, V>, k: K)
    requires k in groups && Replaced(m, groups, done, r)
    ensures Replaced(m, groups, done + {k}, r[k := groups[k]])
  {
    var r' := r[k := groups[k]];
    forall j | j in r' ensures r'[j] == if j in done + {k} then groups[j] else m[j] {
      if j != k {
        assert r'[j] == r[j];
      }
    }
  }

  /** Once every key of `groups` is replaced, the result is `m + groups`. */
  lemma SameReplacement<K(!new), V>(m: map<K, V>, groups: map<K, V>, r: map<K, V>)
    requires Replaced(m, groups, groups.Keys, r)
    ensures r == m + groups
  {
  }
}
