/** The part of a NeTEx entity that the versioned index looks at. */
module Entities {

  /** An absent-or-present result; Java's `null` return becomes `None`. */
  datatype Option<+T> = None | Some(value: T)

  /** One revision of an entity: its stable id and its version label.
      The payload fields of the NeTEx model classes play no part here. */
  datatype Entity = Entity(id: string, version: string)

  /** The ids that occur in a collection of entities. */
  function IdsOf(es: seq<Entity>): set<string>
  {
    set e | e in es :: e.id
  }

  lemma IdsOfCons(es: seq<Entity>)
    requires es != []
    ensures IdsOf(es) == {es[0].id} + IdsOf(es[1..])
  {
    assert es == [es[0]] + es[1..];
  }

  /** Every entity of `es` carries the id `id`. */
  predicate AllWithId(es: seq<Entity>, id: string)
  {
    forall e | e in es :: e.id == id
  }
}
