/** `Collectors.groupingBy(getId)`: a stream of entities folded, in encounter
    order, into one list per id. */
module Grouping {
  import opened Entities
  import opened ListMultimap

  /** The subsequence of `es` whose id is `k`, in input order. */
  function ElementsWithId(es: seq<Entity>, k: string): (r: seq<Entity>)
    ensures |r| <= |es|
    ensures forall e | e in r :: e in es && e.id == k
    ensures forall e | e in es && e.id == k :: e in r
  {
    if es == [] then []
    else (if es[0].id == k then [es[0]] else []) + ElementsWithId(es[1..], k)
  }

  lemma ElementsWithIdNonEmpty(es: seq<Entity>, k: string)
    ensures |ElementsWithId(es, k)| > 0 <==> k in IdsOf(es)
  {
    if k in IdsOf(es) {
      var e :| e in es && e.id == k;
      assert e in ElementsWithId(es, k);
    }
  }

  /** One step of the collector: `e` is appended to the list of its id. */
  function Append(acc: Store, e: Entity): (r: Store)
    ensures r.Keys == acc.Keys + {e.id}
    ensures forall k :: Get(r, k) == Get(acc, k) + (if e.id == k then [e] else [])
  {
    acc[e.id := Get(acc, e.id) + [e]]
  }

  /** The collector's accumulation of `es`, in encounter order, into `acc`.
      It only ever appends: no key is dropped and every list of `acc` stays
      a prefix of its list in the result. Exactly what is appended is stated
      by `GroupIntoGet`, which keys are added by `GroupIntoKeys`. */
  function GroupInto(acc: Store, es: seq<Entity>): (r: Store)
    ensures acc.Keys <= r.Keys
    ensures forall k :: Get(acc, k) <= Get(r, k)
    decreases |es|
  {
    if es == [] then acc
    else GroupInto(Append(acc, es[0]), es[1..])
  }

  lemma ConcatAssoc(a: seq<Entity>, b: seq<Entity>, c: seq<Entity>)
    ensures (a + b) + c == a + (b + c)
  {
  }

  lemma {:induction false} GroupIntoGet(acc: Store, es: seq<Entity>, k: string)
    ensures Get(GroupInto(acc, es), k) == Get(acc, k) + ElementsWithId(es, k)
    decreases |es|
  {
    if es != [] {
      var e := es[0];
      var here := if e.id == k then [e] else [];
      GroupIntoGet(Append(acc, e), es[1..], k);
      assert ElementsWithId(es, k) == here + ElementsWithId(es[1..], k);
      ConcatAssoc(Get(acc, k), here, ElementsWithId(es[1..], k));
    }
  }

  lemma {:induction false} GroupIntoKeys(acc: Store, es: seq<Entity>)
    ensures GroupInto(acc, es).Keys == acc.Keys + IdsOf(es)
    decreases |es|
  {
    if es != [] {
      var e := es[0];
      GroupIntoKeys(Append(acc, e), es[1..]);
      IdsOfCons(es);
    }
  }

  /** The grouped view of `es`: the ids occurring in `es` are exactly its keys,
      and each id holds exactly the subsequence of `es` carrying that id. */
  function GroupById(es: seq<Entity>): (g: Store)
    ensures g.Keys == IdsOf(es)
    ensures forall k :: Get(g, k) == ElementsWithId(es, k)
  {
    GroupIntoKeys(map[], es);
    GroupIntoAll(es);
    GroupInto(map[], es)
  }

  lemma GroupIntoAll(es: seq<Entity>)
    ensures forall k :: Get(GroupInto(map[], es), k) == ElementsWithId(es, k)
  {
    forall k ensures Get(GroupInto(map[], es), k) == ElementsWithId(es, k) {
      GroupIntoGet(map[], es, k);
    }
  }
}
