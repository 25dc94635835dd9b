# Versioned NeTEx entity index — a Dafny model

This project models `VersionedNetexEntityIndexImpl`, the index that keeps every
revision ("version") of a NeTEx entity under the entity's id and a derived
projection from each id to its single latest revision. The revisions live in a
Guava list multimap (`map`); the projection (`latestMap`) is rebuilt from
scratch by `populateLatestMap` after each of the three mutations `put`,
`putAll` and `remove`. Readers look into one structure or the other.

The model is functional: an `Index` value holds the multimap as a
`map<string, seq<Entity>>` whose lists are never empty (`ListMultimap.Store`)
and the projection as a `map<string, Entity>`. Each mutation is a pure
transition returning `Result<Index>`. The failure case is the
`IllegalStateException` that `Collectors.toMap` throws when two keys produce
revisions with the same id. An `Entity` is just its `id` and `version`.

The two helpers of `NetexVersionHelper` are not part of this model. They are
function values bundled in a `Resolver` and constrained by `Resolver.Valid()`,
which says two things. `latestVersionedElementIn` returns a member of any
non-empty list. `versionOfElementIn` returns nothing, or a member carrying the
requested version label. Every operation and lemma that consults the helpers
takes the resolver as a parameter `h`, so each result holds for every resolver
meeting that contract.
No ordering rule for version labels is assumed.

Modules, in dependency order:

- `Entities` (`entities.dfy`): `Entity`, `Option`, ids of a collection.
- `VersionHelper` (`version_helper.dfy`): the resolver and its contract.
- `ListMultimap` (`list_multimap.dfy`): the multimap operations the index uses.
  These are `get`, `replaceValues`, `removeAll`, and a `forEach` of
  `replaceValues` over a grouped map, both as a map union and one key at a
  time.
- `Grouping` (`grouping.dfy`): `Collectors.groupingBy(getId)` as a left fold,
  with a reference definition `ElementsWithId` (the input subsequence carrying one id).
- `VersionedIndex` (`versioned_index.dfy`): the index itself.
- `IndexProperties` (`index_properties.dfy`): the index invariant
  `Consistent` and what the mutations and readers promise under it.
- `Scenarios` (`scenarios.dfy`): worked cases, stated for all entities whose
  ids are related as each case says. They include the two hazards that come
  from keying the projection by the revision's own id.

The stored-id invariant (`VersionedIndex.WellKeyed`) says that every revision
stored under key `k` has id `k`. The source does not enforce it: `put` accepts
any collection. So the model does not require it of `Put`. Instead the lemmas
show that on a `Consistent` index, `putAll` and `remove` always succeed and
keep it `Consistent`, and so does `put` when every revision it is given
carries the named id. `Scenarios.ForeignIdsClash` and `Scenarios.ForeignIdKeysProjection`
show what happens without it.

Three facts about the code shape the model:

- The projection is rebuilt in full after every mutation (lines 52, 60, 66),
  not only for the ids touched.
- Each id's revisions are an `ArrayList`, kept here as a sequence in insertion
  order; `putAll` keeps input order within each id.
- The two views are guaranteed to agree, whichever revision the helper picks,
  only while every revision is stored under its own id: line 73 keys the
  projection by `getId` of the picked revision, not by the multimap key.

## Model

| member | source | states |
|---|---|---|
| `VersionHelper.LatestVersionedElementIn` | src/main/java/org/entur/netex/index/impl/VersionedNetexEntityIndexImpl.java:72 | the revision picked as latest from a non-empty revision list is a member of that list |
| `VersionHelper.VersionOfElementIn` | src/main/java/org/entur/netex/index/impl/VersionedNetexEntityIndexImpl.java:29 | a version lookup returns either nothing or a member of the list carrying the requested label, and nothing when no member carries it |
| `ListMultimap.PresentIffNonEmpty` | src/main/java/org/entur/netex/index/impl/VersionedNetexEntityIndexImpl.java:38-39 | a key is present in the multimap exactly when `get` returns a non-empty list for it |
| `ListMultimap.ReplaceValues` | src/main/java/org/entur/netex/index/impl/VersionedNetexEntityIndexImpl.java:51 | after `replaceValues(id, es)`, `get(id)` is exactly `es` and `id` is present iff `es` is non-empty; every other key keeps its list and its presence |
| `ListMultimap.ReplaceValuesIdempotent` | src/main/java/org/entur/netex/index/impl/VersionedNetexEntityIndexImpl.java:51 | replacing the same list twice gives the same multimap as replacing it once |
| `ListMultimap.RemoveAll` | src/main/java/org/entur/netex/index/impl/VersionedNetexEntityIndexImpl.java:65 | after `removeAll(id)`, `id` is absent and `get(id)` is empty; every other key keeps its list and its presence |
| `ListMultimap.ReplaceOneByOne` | src/main/java/org/entur/netex/index/impl/VersionedNetexEntityIndexImpl.java:59 | calling `replaceValues` for each key of a grouped map, one key at a time in any order, gives the same multimap as `ReplaceEach` |
| `ListMultimap.ReplaceEach` | src/main/java/org/entur/netex/index/impl/VersionedNetexEntityIndexImpl.java:59 | replacing the list of every key of a grouped map gives each such key its group and leaves all other keys as they were |
| `Grouping.ElementsWithId` | src/main/java/org/entur/netex/index/impl/VersionedNetexEntityIndexImpl.java:58 | the group of an id is no longer than the input, holds only input entities carrying that id, and holds every input entity carrying it |
| `Grouping.ElementsWithIdNonEmpty` | src/main/java/org/entur/netex/index/impl/VersionedNetexEntityIndexImpl.java:58 | an id's group is non-empty exactly when the id occurs in the input |
| `Grouping.Append` | src/main/java/org/entur/netex/index/impl/VersionedNetexEntityIndexImpl.java:58 | one collector step adds the entity's id as a key and appends the entity to that id's list, leaving every other list as it was |
| `Grouping.GroupInto` | src/main/java/org/entur/netex/index/impl/VersionedNetexEntityIndexImpl.java:57-58 | the collector's fold never drops a key and only appends: every list it starts with is a prefix of the list it ends with |
| `Grouping.GroupIntoGet` | src/main/java/org/entur/netex/index/impl/VersionedNetexEntityIndexImpl.java:57-58 | folding a stream into the collector appends to each id's list exactly the input subsequence carrying that id, in encounter order |
| `Grouping.GroupIntoKeys` | src/main/java/org/entur/netex/index/impl/VersionedNetexEntityIndexImpl.java:57-58 | folding a stream into the collector adds exactly the ids occurring in it as keys |
| `Grouping.GroupById` | src/main/java/org/entur/netex/index/impl/VersionedNetexEntityIndexImpl.java:57-58 | `groupingBy(getId)` has exactly the input's ids as keys, and each id maps to the input subsequence carrying that id, in input order |
| `VersionedIndex.Empty` | src/main/java/org/entur/netex/index/impl/VersionedNetexEntityIndexImpl.java:19-20 | a new index holds no revisions and no projection: every `getAllVersions(id)` is empty, every `getLatestVersion(id)` answers nothing and `getLatestVersions()` is empty |
| `VersionedIndex.PopulateLatest` | src/main/java/org/entur/netex/index/impl/VersionedNetexEntityIndexImpl.java:69-74 | when the rebuild succeeds, each key's picked revision sits in the projection under the revision's own id, and every projection entry comes from some key |
| `VersionedIndex.CollectLatest` | src/main/java/org/entur/netex/index/impl/VersionedNetexEntityIndexImpl.java:69-74 | collecting each key's latest revision under the revision's own id, one key at a time in any order, fails exactly when two keys yield the same id; otherwise it yields the same map whatever the order |
| `VersionedIndex.PopulateWellKeyed` | src/main/java/org/entur/netex/index/impl/VersionedNetexEntityIndexImpl.java:69-73 | when every revision is stored under its own id, the rebuild cannot fail and yields, for every stored id, the latest of that id's own revisions |
| `VersionedIndex.Put` | src/main/java/org/entur/netex/index/impl/VersionedNetexEntityIndexImpl.java:50-53 | after `put(id, es)`, `id` holds exactly `es` and all other ids are unchanged; with a well-keyed store and revisions of `id`, the call succeeds and the projection is the latest of each id's revisions |
| `VersionedIndex.PutAll` | src/main/java/org/entur/netex/index/impl/VersionedNetexEntityIndexImpl.java:56-61 | after `putAll(es)`, each id occurring in `es` holds exactly its subsequence of `es` and all other ids are unchanged; with a well-keyed store, the call succeeds and the projection is rebuilt consistently |
| `VersionedIndex.Remove` | src/main/java/org/entur/netex/index/impl/VersionedNetexEntityIndexImpl.java:64-67 | after `remove(id)`, `id` is absent and all other ids are unchanged; with a well-keyed store, the call succeeds and the projection is rebuilt consistently |
| `VersionedIndex.GetLatestVersion` | src/main/java/org/entur/netex/index/impl/VersionedNetexEntityIndexImpl.java:23-25 | `getLatestVersion(id)` answers exactly when `id` is a key of the projection, and its answer is one of `getLatestVersions()` |
| `VersionedIndex.GetAllVersions` | src/main/java/org/entur/netex/index/impl/VersionedNetexEntityIndexImpl.java:38-40 | `getAllVersions(id)` is non-empty exactly when `id` is a key of the multimap, and is then that key's list |
| `VersionedIndex.GetLatestVersions` | src/main/java/org/entur/netex/index/impl/VersionedNetexEntityIndexImpl.java:33-35 | `getLatestVersions()` holds the answer of `getLatestVersion` for every projected id, and nothing else |
| `VersionedIndex.GetAllVersionsMap` | src/main/java/org/entur/netex/index/impl/VersionedNetexEntityIndexImpl.java:43-47 | the `getAllVersions()` snapshot agrees with `getAllVersions(id)` for every id, and has a key exactly where that list is non-empty |
| `VersionedIndex.GetVersion` | src/main/java/org/entur/netex/index/impl/VersionedNetexEntityIndexImpl.java:28-30 | a version lookup returns nothing or one of the id's stored revisions carrying the requested label, and nothing for an unknown id |
| `IndexProperties.EmptyConsistent` | src/main/java/org/entur/netex/index/impl/VersionedNetexEntityIndexImpl.java:19-20 | a new index satisfies the index invariant, and both of its views are empty |
| `IndexProperties.LatestExactlyForNonEmpty` | src/main/java/org/entur/netex/index/impl/VersionedNetexEntityIndexImpl.java:69-73 | under the invariant, `getLatestVersion(id)` answers exactly when `getAllVersions(id)` is non-empty, that is, exactly when `id` is a key of `getAllVersions()` |
| `IndexProperties.LatestIsMember` | src/main/java/org/entur/netex/index/impl/VersionedNetexEntityIndexImpl.java:71-73 | under the invariant, the projected revision of an id is the resolver's pick from that id's revisions, so it is one of them and carries that id |
| `IndexProperties.LatestVersionsOnePerId` | src/main/java/org/entur/netex/index/impl/VersionedNetexEntityIndexImpl.java:33-35 | under the invariant, every value of `getLatestVersions()` is the projection entry of its own id, and every stored id contributes its entry |
| `IndexProperties.PutPreservesConsistency` | src/main/java/org/entur/netex/index/impl/VersionedNetexEntityIndexImpl.java:50-53 | `put` with revisions of the named id succeeds and preserves the invariant, including the stored-id invariant |
| `IndexProperties.PutAllPreservesConsistency` | src/main/java/org/entur/netex/index/impl/VersionedNetexEntityIndexImpl.java:56-61 | `putAll` of any entities succeeds and preserves the invariant, because grouping by `getId` stores each revision under its own id |
| `IndexProperties.RemovePreservesConsistency` | src/main/java/org/entur/netex/index/impl/VersionedNetexEntityIndexImpl.java:64-67 | `remove` succeeds and preserves the invariant |
| `IndexProperties.PutReadsBack` | src/main/java/org/entur/netex/index/impl/VersionedNetexEntityIndexImpl.java:50-53 | after `put(id, es)`, `getAllVersions(id)` is `es` and `getLatestVersion(id)` is the pick from `es`, or nothing when `es` is empty; every other id reads as before in both views |
| `IndexProperties.PutAllReadsGroup` | src/main/java/org/entur/netex/index/impl/VersionedNetexEntityIndexImpl.java:56-60 | after `putAll(es)`, an id occurring in `es` reads back its subsequence of `es`, and its latest is the pick from that subsequence |
| `IndexProperties.PutAllKeepsOthers` | src/main/java/org/entur/netex/index/impl/VersionedNetexEntityIndexImpl.java:56-60 | after `putAll(es)`, an id not occurring in `es` reads as before in both views |
| `IndexProperties.RemoveClearsBothViews` | src/main/java/org/entur/netex/index/impl/VersionedNetexEntityIndexImpl.java:63-66 | after `remove(id)`, `getAllVersions(id)` is empty, `id` is not a key of `getAllVersions()`, and `getLatestVersion(id)` and every `getVersion(id, v)` answer nothing; every other id reads as before in both views |
| `IndexProperties.PutIdempotent` | src/main/java/org/entur/netex/index/impl/VersionedNetexEntityIndexImpl.java:50-53 | repeating a successful `put(id, es)` yields the same store and projection as doing it once |
| `Scenarios.GroupedBulkInsert` | src/main/java/org/entur/netex/index/impl/VersionedNetexEntityIndexImpl.java:56-60 | `putAll` of two revisions of one id and one of another into an empty index stores `[a1, a2]` and `[b1]`; the latest of the first id is one of its two revisions, and the latest of the second is `b1` |
| `Scenarios.ForeignIdsClash` | src/main/java/org/entur/netex/index/impl/VersionedNetexEntityIndexImpl.java:71-73 | storing a revision with id `A` under another key, while `A` already has revisions, makes the rebuild fail with a duplicate key |
| `Scenarios.ForeignIdKeysProjection` | src/main/java/org/entur/netex/index/impl/VersionedNetexEntityIndexImpl.java:71-73 | a revision stored under a foreign key is projected under its own id: `getLatestVersion` answers for an id whose `getAllVersions` is empty, and answers nothing for the key the revision is stored under |

## Left out

- `NetexEntitiesIndex.java` is a catalogue of getters for per-type indexes, frame collections and a timestamp. It has no logic of its own, so it is not modelled.
- Concurrency is not modelled. This covers the synchronized multimap, the `ConcurrentHashMap`, the `synchronized (map)` block (line 44), and readers seeing the projection between `clear` and `putAll` (lines 70-71). Every operation is one atomic transition. Parallel writers to one id are left out too: the last `replaceValues` to run decides the surviving list, and interleaved rebuilds (lines 70-71) can leave the projection holding a revision no longer in that list.
- Live views are not modelled. `asMap()`, `values()` and `get` return live views in the source; the readers here return snapshots of the current state.
- `getLatestVersions` is modelled as a set, not a collection with multiplicity. Under the invariant its values carry pairwise distinct ids, so nothing is lost there.
- The state after a failed rebuild is not modelled. In the source, the multimap has already changed and the projection has been cleared when `toMap` throws. The model only returns `Failure(DuplicateKey)`, and the failure carries neither the clashing id nor the two revisions.
- Iteration orders are abstracted. `CollectLatest` and `ListMultimap.ReplaceOneByOne` take keys in an arbitrary order; the concrete hash order of the source is not modelled.
- Null ids, null entities and null collections (the `NullPointerException` paths) are not modelled.
- VersionHelper.LatestVersionedElementIn: states only membership. The selection rule, its tie-break and whether it can throw on an unusual label live in `NetexVersionHelper`, which is not part of this model, so nothing beyond membership is stated about which revision is picked, and no exception path of `put`, `putAll` or `remove` that it might add is modelled.
- VersionHelper.VersionOfElementIn: states only that a returned revision is a member carrying the label. It does not state that a match is found whenever one exists, or which duplicate wins, because the helper's body is not part of this model.
- Entity payload fields and the NeTEx/JAXB model classes are left out: only `id` and `version` matter to the index.
