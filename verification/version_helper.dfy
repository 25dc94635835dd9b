/** The two resolver functions of NetexVersionHelper that the index calls.
    Their bodies are not part of this model: each is a function value that
    the index receives, constrained only by the membership contract below. */
module VersionHelper {
  import opened Entities

  /** `latestOf` stands for latestVersionedElementIn and `versionOf` for
      versionOfElementIn. */
  datatype Resolver = Resolver(
    latestOf: seq<Entity> --> Entity,
    versionOf: (seq<Entity>, string) -> Option<Entity>)
  {
    /** The assumed contracts: the latest revision of a non-empty collection is
        one of its members, and a revision looked up by version label is either
        absent or a member carrying that label. */
    ghost predicate Valid()
    {
      && (forall s: seq<Entity> {:trigger latestOf.requires(s)} {:trigger latestOf(s)} | |s| > 0 :: latestOf.requires(s) && latestOf(s) in s)
      && (forall s: seq<Entity>, v: string | versionOf(s, v).Some? ::
            versionOf(s, v).value in s && versionOf(s, v).value.version == v)
    }
  }

  function LatestVersionedElementIn(h: Resolver, s: seq<Entity>): (e: Entity)
    requires h.Valid() && |s| > 0
    ensures e in s
  {
    h.latestOf(s)
  }

  function VersionOfElementIn(h: Resolver, s: seq<Entity>, version: string): (r: Option<Entity>)
    requires h.Valid()
    ensures r.Some? ==> r.value in s && r.value.version == version
    ensures (forall e {:trigger e in s} | e in s :: e.version != version) ==> r.None?
  {
    h.versionOf(s, version)
  }
}
