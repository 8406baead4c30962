# wireplace-scene, modelled in Dafny

This project models the replicated scene of `wireplace-scene`. The model has two parts.

- **The scene** (`WirePlaceScene.ts`) holds live actors and pending changes. There are two maps keyed by actor id. The store holds the live actors. The pending map holds, per id, the change not yet sent: a partial actor, or the tombstone `false`. The operations are `updateActor`, `addActor`, `removeActor`, `retrieveDiff`, `retrieveSerializedDiff` and `applyDiff`. In this file an actor has only `position`, `rotation`, `scale` and `up`, and a new actor starts with all four at zero.
- **The codec** (`serialization.ts`) has three parts. `createNewActor` builds the default full actor of `types.ts`. `serializeID`/`deserializeID` map an id such as `"a12"` to and from the number 12. `serializeDiff`/`deserializeDiff` convert a diff to and from a sparse wire record.

Files:

- `wrappers.dfy`: `Option` and map lookup.
- `key_order.dfy`: `IsEnumeration`. JavaScript visits keys such as `"a12"` in insertion order. `removeActor` changes that order, because it deletes and re-adds a tombstoned id. The model does not track insertion order. The walking functions `SerializeDiff` and `ApplyInOrder` take the walk as a parameter, constrained to be an enumeration of the keys. `ApplyDiff` takes no order: it is proved equal to `ApplyInOrder` for every walk, and every property holds for every enumeration of the keys.
- `wire_place_scene.dfy`: module `WirePlaceScene`.
- `types.dfy`: module `Types`, the records of `types.ts`. Each field of `Update` is an `Option`.
- `actor_ids.dfy`: module `ActorIds`, the id codec. It includes a model of `parseInt(_, 10)`: leading JavaScript white space is skipped, then an optional sign, then the longest run of decimal digits; the result is NaN (here `None`) when that run is empty.
- `serialization.dfy`: module `Serialization`, the default actor and the diff codec. The FlatBuffers table is an abstract record `WireUpdate`. Each optional table field is an `Option`; `deleted` is a plain boolean. UShort and UInt fields keep the value modulo 2^16 and 2^32. An id that parses as NaN is written as 0.

The scene is a value. Each operation is a function that returns the next scene and, where the source returns one, its boolean result. `ApplyDiff` is a method: it visits the keys in a nondeterministic order, and its contract holds for every order.

Facts about this version of the code:

- `updateActor` does no revision checking and assigns no revision.
- There is no `skipId` echo suppression, no observer, no `clear`, no `getActorOrThrow` and no id allocator.
- New actors in the scene start with `scale` and `up` at zero, not at {1,1,1} and {0,1,0}.

## Model

| member | source | states |
|---|---|---|
| `WirePlaceScene.Init` | WirePlaceScene.ts:54-58 | A new scene has version 1, no actors and no pending changes, and satisfies the scene invariant. |
| `WirePlaceScene.NewActor` | WirePlaceScene.ts:24-47 | A new scene actor has every field, including `scale` and `up`, at the origin. |
| `WirePlaceScene.Assign` | WirePlaceScene.ts:85 | Object.assign: each field the partial mentions takes the partial's value as a whole Vector3. Every other field keeps the actor's value. |
| `WirePlaceScene.Whole` | WirePlaceScene.ts:87 | The `{ ...obj }` copy mentions all four fields, each with the actor's value. |
| `WirePlaceScene.UpdateActor` | WirePlaceScene.ts:78-102 | A tombstone for an absent id returns false and changes nothing. Any other call returns true. A partial for an absent id stores the defaults overridden by the partial and queues a copy of the whole new actor, replacing any earlier entry such as a tombstone. A partial for a live actor replaces exactly the mentioned fields. Its pending entry becomes the union of the old pending fields and the new ones, the new values winning; a tombstone entry counts as no fields. A tombstone for a live actor removes it and makes the tombstone its pending entry. Other ids keep their actor and pending entry. The invariant "tombstoned ids are not live" is preserved. |
| `WirePlaceScene.AddActor` | WirePlaceScene.ts:60-62 | Afterwards the actor exists. An absent id gets the default actor, and a copy of the whole default actor is queued as its pending entry. A live actor's store entry is unchanged, and its pending entry becomes its pending fields, possibly none. Other ids are untouched, the version is kept, and the invariant is preserved. |
| `WirePlaceScene.ActorExists` | WirePlaceScene.ts:70-72 | True exactly when the store holds an actor for the id. Under the scene's invariant, a live id's pending entry is never the tombstone. |
| `WirePlaceScene.RemoveActor` | WirePlaceScene.ts:74-76 | Returns true exactly when the actor was live. The version is kept. If the actor was absent, the scene is unchanged. Otherwise the store loses exactly that id, and its pending entry is exactly the tombstone, which discards any earlier pending fields. The invariant is preserved. |
| `WirePlaceScene.RetrieveDiff` | WirePlaceScene.ts:104-113 | Both modes stamp the scene's version on the diff. With `getAll`, the diff holds one whole-actor entry per live actor, and the scene (pending map included) is unchanged. Without it, the diff is exactly the pending map and the scene's pending map becomes empty; actors and version are unchanged. The invariant is preserved. |
| `WirePlaceScene.RetrieveSerializedDiff` | WirePlaceScene.ts:115-123 | `count` is the number of keys of the retrieved diff: all live actors with `getAll`, all pending entries without it. The scene changes as in `retrieveDiff`. |
| `WirePlaceScene.ApplyDiff` | WirePlaceScene.ts:125-137 | A diff whose version differs from the scene's leaves the scene unchanged. Otherwise each key of the diff ends up as `updateActor` alone would leave it, and every other id is untouched. The result equals applying the entries one after another in any enumeration of the keys. The invariant is preserved. |
| `WirePlaceScene.UpdateActorReadsOnlyItsSlot` | WirePlaceScene.ts:78-102 | What `updateActor` does to an id, and what it returns, depend only on that id's actor and pending entry. |
| `WirePlaceScene.ApplyInOrderPointwise` | WirePlaceScene.ts:133-136 | Applying the entries in a listed order of distinct keys gives each listed key the result `updateActor` alone would give it, and leaves other ids as they were. |
| `WirePlaceScene.ApplyOrderIndependent` | WirePlaceScene.ts:133-136 | Any two enumerations of the diff's keys give the same scene. |
| `WirePlaceScene.AssignTwice` | WirePlaceScene.ts:92 | Two Object.assigns equal one assign of the merged partial, later fields winning. |
| `WirePlaceScene.CoalesceUpdates` | WirePlaceScene.ts:84-95 | Two partial updates of one id before a drain leave the same scene as one update with the union of their fields, the later value winning. Both calls return true. This holds whether or not the actor existed. |
| `WirePlaceScene.DrainTwice` | WirePlaceScene.ts:108-111 | After a drain, a second drain returns an empty diff and changes nothing. |
| `WirePlaceScene.SnapshotThenDrain` | WirePlaceScene.ts:104-112 | A full snapshot taken before a drain does not change what the drain returns or leaves behind. |
| `WirePlaceScene.FullSyncReplicates` | WirePlaceScene.ts:104-137 | A fresh scene that applies a full snapshot, in any key order, holds exactly the snapshotted actors. Its pending map equals the snapshot. |
| `ActorIds.ParseInt` | serialization.ts:50 | The result is a number exactly when a decimal digit run follows the white space and the optional sign. |
| `ActorIds.ParseIntValue` | serialization.ts:50 | For every text made of white space, an optional `+` or `-`, a non-empty digit run and a tail that does not continue the run, the number read is the run's value, negated after a minus. |
| `ActorIds.SerializeID` | serialization.ts:49-51 | An id of fewer than two characters reads as NaN. A canonical id, `a` followed by a numeral with no leading zero, reads as the number it carries. |
| `ActorIds.DeserializeID` | serialization.ts:53-55 | The id is `a` followed by at least one more character. |
| `ActorIds.DecimalRoundTrip` | serialization.ts:49-55 | Reading back the decimal numeral of n gives n. |
| `ActorIds.DecimalCanonical` | serialization.ts:49-55 | A numeral without leading zeros is the numeral of its value. |
| `ActorIds.IdRoundTrip` | serialization.ts:49-55 | `serializeID(deserializeID(n)) == n` for every integer n the model writes in plain decimal, negative ones included. JavaScript writes plain decimal only below 10^21 in magnitude; see "Left out". |
| `ActorIds.CanonicalIdRoundTrip` | serialization.ts:49-55 | For `a` followed by digits with no leading zero, `serializeID` gives the id's number and `deserializeID` of that number gives the id back. |
| `ActorIds.DeserializedIdIsCanonical` | serialization.ts:53-55 | The ids `deserializeID` writes for n ≥ 0 are canonical and carry n. |
| `ActorIds.CanonicalIdsInjective` | serialization.ts:49-55 | Distinct canonical ids carry distinct numbers. |
| `Serialization.NewActor` | serialization.ts:12-47 | `createNewActor(id)` has the given `actorId`, `revision` 0, not deleted, collidable, not movable, action {0,-1}, speed 1.4, color 0, assetId 0. Position and rotation are zero, scale is {1,1,1} and up is {0,1,0}. |
| `Serialization.Truncate` | serialization.ts:70-86 | Storing n in a field that holds `width` values gives a value in range. That value is congruent to n modulo `width`, and equal to n when n already fits. |
| `Serialization.WireId` | serialization.ts:62-68 | The id written on the wire is a UShort value. It is 0 when `serializeID` gives NaN, and otherwise congruent to the parsed number modulo 2^16. |
| `Serialization.EncodeUpdate` | serialization.ts:60-148 | The entry always carries the actor id. Each of revision, color, assetId, speed, movable, collidable, action, position, rotation, scale and up is on the wire exactly when the update has it. `revision` and `assetId` are the update's values modulo 2^16, and `color` is its value modulo 2^32. Each is in range and unchanged when it already fits. Floats, flags, actions and vectors are carried unchanged. `deleted` is set exactly when the update says `deleted: true`. |
| `Serialization.SerializeDiff` | serialization.ts:57-163 | The envelope always carries the version as a UShort. There is one entry per key, in the enumeration order, and entry i is the encoding of key i's update. |
| `Serialization.DecodeUpdate` | serialization.ts:180-238 | The decoded update gets `actorId = deserializeID(wire id)`. Each wrapper present on the wire gives a present field with its value, zero included. Each absent wrapper gives an absent field. `deleted` is present, as true, only when the flag is set. |
| `Serialization.DecodeEntries` | serialization.ts:170-241 | Every decoded update is stored under its own `actorId`. |
| `Serialization.DeserializeDiff` | serialization.ts:165-244 | A missing version decodes as 0. The keys are exactly the ids of the entries that are non-null and carry an id, so malformed entries are skipped and the rest still decode. Each key holds the decoding of the last entry naming it. |
| `Serialization.DecodeEntriesKeys` | serialization.ts:170-181 | A key is decoded exactly when some non-null entry carries an id naming it. |
| `Serialization.DecodeEntriesLast` | serialization.ts:180-240 | A key holds the decoding of the last entry naming it; later entries overwrite earlier ones. |
| `Serialization.UpdateRoundTrip` | serialization.ts:60-238 | Under the preconditions below, one update survives encode then decode unchanged except that it gains its key as `actorId`. The preconditions: a canonical id below 65536; revision and assetId in UShort range; color in UInt range; no `deleted: false`. |
| `Serialization.RoundTrip` | serialization.ts:57-244 | Decoding the encoding of a diff gives the same version and key set. Each update comes back as the original with `actorId` set to its key, for any key order. This holds when the version is a UShort, the keys are canonical ids below 65536, the numbers fit their fields and no update says `deleted: false`. |
| `Serialization.NewActorRoundTrip` | serialization.ts:106-108 | The default actor, sent as a full record, comes back with every field except `deleted`: `deleted: false` is never written, so it comes back absent. |
| `Serialization.WideIdsCollide` | serialization.ts:62-68 | `"a65536"` and `"a0"` are different ids that land on the same wire id 0. This is why the round trip needs ids below 65536. |

## Left out

- JSON text: `JSON.stringify` in `retrieveSerializedDiff` and `JSON.parse` in `applyDiff` are library calls. `RetrieveSerializedDiff` returns only `count`, and `ApplyDiff` takes an already-decoded diff.
- The `console.error` call for a wrong version: it is modelled only as "no state change".
- FlatBuffers byte layout and builder calls: these are generated code that is not part of this model. `WireUpdate`/`WireDiff` stand in for the table. Writing a number into a UShort or UInt is modelled as keeping it modulo 2^16 or 2^32. This is assumed from how typed-array stores convert numbers.
- Float32 rounding of `speed` and of the Vector3 components: floats are `real`s passed through unchanged. `revision`, `color`, `assetId`, the version and the action's fields are integers. Fractional values there are not modelled, and neither are the action's wire widths, which come from the schema that is not part of this model.
- `parseInt` on digit runs past 2^53: precision loss is not modelled; the result is the exact integer.
- ActorIds.DeserializeID: the template string writes numbers of magnitude 10^21 or more in exponent form (`"a1e+21"`), which `parseInt` reads back as 1. The model writes every integer in plain decimal, so `IdRoundTrip` holds for all integers here but only below 10^21 in the source. Ids that come off the wire are UShort values, far below that bound.
- ActorIds.SerializeID: a string is a sequence of Unicode code points, while `substr(1)` drops one UTF-16 code unit. For an id whose first character lies outside the Basic Multilingual Plane (`"😀12"`), the source keeps a lone surrogate, reads NaN and writes wire id 0; the model drops the whole character and reads 12.
- Ids that name a property of `Object.prototype` (`"toString"`, `"__proto__"`, …): `actorId in this._actors` finds inherited properties, and assigning to `"__proto__"` changes the prototype rather than one entry. The model treats the store and the pending map as plain maps, in which such an id is absent until it is added, like any other id.
- Aliasing: `retrieveDiff(true)` returns the live `_actors` record, and stored actors share Vector3 objects with the caller's update. The model has value semantics, so later mutation through those references is not modelled. A partial that sets a field explicitly to `undefined` is not modelled either.
- `forEach`: it writes nothing itself, but hands the callback each live actor object (WirePlaceScene.ts:64-68). A callback that mutates that object changes the store without a pending entry. The value-semantics model does not represent this (see Aliasing).
- The unused `isMaster` constructor parameter.
- `index.ts`: re-exports only. The `./utils` module it imports from is not part of this model.
- The JavaScript order of keys is left open: encoders and `applyDiff` are proved for every enumeration of the keys.
