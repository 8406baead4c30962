/**
 * The scene of WirePlaceScene.ts: a store of live actors and a map of pending
 * changes, both keyed by actor id, with the transitions that keep them in step.
 *
 * The scene is a value here; each operation returns the next scene (and, where
 * the source returns one, its boolean answer). The actor of this file has only
 * its four Vector3 fields, and an update is either a partial actor or the
 * tombstone `false`.
 */
module WirePlaceScene {
  import opened Wrappers
  import opened KeyOrder

  /** Serialization version stamped on every diff the scene produces and demanded of every diff it applies. */
  const VERSION: int := 1

  datatype Vec3 = Vec3(x: real, y: real, z: real)

  const Origin: Vec3 := Vec3(0.0, 0.0, 0.0)

  /** The fields of an actor; each holds a Vector3 that is only ever replaced whole. */
  datatype Field = Position | Rotation | Scale | Up

  datatype Actor = Actor(position: Vec3, rotation: Vec3, scale: Vec3, up: Vec3)
  {
    function Get(f: Field): Vec3 {
      match f
      case Position => position
      case Rotation => rotation
      case Scale => scale
      case Up => up
    }
  }

  /** A partial actor: the fields it mentions, with their new values. */
  type Partial = map<Field, Vec3>

  /** A change to one actor: some of its fields, or the tombstone that deletes it. */
  datatype Update = Fields(fields: Partial) | Tombstone

  datatype Diff = Diff(v: int, d: map<string, Update>)

  /** The live actors and, per actor id, the change pending since the last drain. */
  datatype Scene = Scene(version: int, actors: map<string, Actor>, updates: map<string, Update>)

  /** What the scene holds for one id: its actor, if live, and its pending change, if any. */
  datatype Slot = Slot(actor: Option<Actor>, pending: Option<Update>)

  function SlotOf(s: Scene, id: string): Slot {
    Slot(Lookup(s.actors, id), Lookup(s.updates, id))
  }

  /** actorExists: the store holds an actor for `id`; under the invariant it is not awaiting removal. */
  function ActorExists(s: Scene, id: string): (b: bool)
    ensures b <==> SlotOf(s, id).actor.Some?
    ensures Valid(s) && b ==> SlotOf(s, id).pending != Some(Tombstone)
  {
    id in s.actors
  }

  /** The scene's invariant: an id whose pending change is the tombstone has no live actor. */
  predicate Valid(s: Scene) {
    && s.version == VERSION
    && forall id :: id in s.updates && s.updates[id] == Tombstone ==> id !in s.actors
  }

  /** The freshly constructed scene. */
  function Init(): (s: Scene)
    ensures Valid(s)
    ensures forall id :: SlotOf(s, id) == Slot(None, None)
  {
    Scene(VERSION, map[], map[])
  }

  /** The record a new actor starts from: every field at the origin, scale and up included. */
  function NewActor(): (a: Actor)
    ensures forall f :: a.Get(f) == Origin
  {
    Actor(Origin, Origin, Origin, Origin)
  }

  /** Object.assign of a partial onto an actor: each mentioned field replaced, the rest kept. */
  function Assign(a: Actor, p: Partial): (r: Actor)
    ensures forall f :: r.Get(f) == if f in p then p[f] else a.Get(f)
  {
    Actor(
      if Position in p then p[Position] else a.position,
      if Rotation in p then p[Rotation] else a.rotation,
      if Scale in p then p[Scale] else a.scale,
      if Up in p then p[Up] else a.up)
  }

  /** A shallow copy of an actor as a partial that mentions every field. */
  function Whole(a: Actor): (p: Partial)
    ensures forall f :: f in p && p[f] == a.Get(f)
  {
    var p := map[Position := a.position, Rotation := a.rotation, Scale := a.scale, Up := a.up];
    assert forall f :: f in p && p[f] == a.Get(f) by {
      forall f ensures f in p && p[f] == a.Get(f) {
        assert f == Position || f == Rotation || f == Scale || f == Up;
      }
    }
    p
  }

  /** The pending fields of `id`, or none when there are none or the pending change is the tombstone. */
  function PendingFields(s: Scene, id: string): Partial {
    if id in s.updates && s.updates[id].Fields? then s.updates[id].fields else map[]
  }

  /**
   * The central transition. A tombstone for an absent actor is refused. A partial
   * for an absent actor creates it from the defaults and queues the whole new
   * actor. A partial for a live actor overwrites the fields it mentions in the
   * store and in the pending change. A tombstone for a live actor removes it and
   * makes the tombstone its only pending change.
   */
  function UpdateActor(s: Scene, id: string, u: Update): (r: (Scene, bool))
    ensures r.0.version == s.version
    ensures !ActorExists(s, id) && u == Tombstone ==> r == (s, false)
    ensures ActorExists(s, id) || u.Fields? ==> r.1
    ensures forall k :: k != id ==> SlotOf(r.0, k) == SlotOf(s, k)
    ensures u.Fields? ==>
      && ActorExists(r.0, id)
      && forall f :: r.0.actors[id].Get(f) ==
           if f in u.fields then u.fields[f]
           else if ActorExists(s, id) then s.actors[id].Get(f)
           else NewActor().Get(f)
    ensures u.Fields? && !ActorExists(s, id) ==>
      id in r.0.updates && r.0.updates[id] == Fields(Whole(r.0.actors[id]))
    ensures u.Fields? && ActorExists(s, id) ==>
      && id in r.0.updates && r.0.updates[id].Fields?
      && (forall f :: f in r.0.updates[id].fields <==> f in PendingFields(s, id) || f in u.fields)
      && (forall f :: f in u.fields ==> f in r.0.updates[id].fields && r.0.updates[id].fields[f] == u.fields[f])
      && (forall f :: f in PendingFields(s, id) && f !in u.fields ==>
            f in r.0.updates[id].fields && r.0.updates[id].fields[f] == PendingFields(s, id)[f])
    ensures u == Tombstone && ActorExists(s, id) ==>
      !ActorExists(r.0, id) && SlotOf(r.0, id).pending == Some(Tombstone)
    ensures Valid(s) ==> Valid(r.0)
  {
    if !ActorExists(s, id) then
      match u
      case Tombstone => (s, false)
      case Fields(p) =>
        var a := Assign(NewActor(), p);
        (s.(actors := s.actors[id := a], updates := s.updates[id := Fields(Whole(a))]), true)
    else
      match u
      case Fields(p) =>
        (s.(actors := s.actors[id := Assign(s.actors[id], p)],
            updates := s.updates[id := Fields(PendingFields(s, id) + p)]), true)
      case Tombstone =>
        (s.(actors := s.actors - {id}, updates := s.updates[id := Tombstone]), true)
  }

  /** addActor: the empty partial, which creates the actor if absent and otherwise changes no field. */
  function AddActor(s: Scene, id: string): (r: Scene)
    ensures r.version == s.version
    ensures ActorExists(r, id)
    ensures ActorExists(s, id) ==> r.actors == s.actors
    ensures !ActorExists(s, id) ==> r.actors == s.actors[id := NewActor()]
    ensures ActorExists(s, id) ==> id in r.updates && r.updates[id] == Fields(PendingFields(s, id))
    ensures !ActorExists(s, id) ==> r.updates == s.updates[id := Fields(Whole(NewActor()))]
    ensures forall k :: k != id ==> SlotOf(r, k) == SlotOf(s, k)
    ensures Valid(s) ==> Valid(r)
  {
    var r := UpdateActor(s, id, Fields(map[])).0;
    assert ActorExists(s, id) ==> r.actors[id] == s.actors[id] by {
      if ActorExists(s, id) {
        assert forall f :: r.actors[id].Get(f) == s.actors[id].Get(f);
        ActorsAgree(r.actors[id], s.actors[id]);
      }
    }
    assert !ActorExists(s, id) ==> r.actors[id] == NewActor() by {
      if !ActorExists(s, id) {
        ActorsAgree(r.actors[id], NewActor());
      }
    }
    assert r.actors.Keys == s.actors.Keys + {id} by {
      forall k ensures k in r.actors <==> k in s.actors || k == id {
        if k != id { assert SlotOf(r, k) == SlotOf(s, k); }
      }
    }
    r
  }

  /** removeActor: the tombstone. */
  function RemoveActor(s: Scene, id: string): (r: (Scene, bool))
    ensures r.1 <==> ActorExists(s, id)
    ensures r.0.version == s.version
    ensures !r.1 ==> r.0 == s
    ensures r.1 ==> && r.0.actors == s.actors - {id}
                    && r.0.updates == s.updates[id := Tombstone]
    ensures Valid(s) ==> Valid(r.0)
  {
    var r := UpdateActor(s, id, Tombstone);
    assert r.1 ==> r.0.actors == s.actors - {id} && r.0.updates == s.updates[id := Tombstone] by {
      if r.1 {
        forall k ensures SlotOf(r.0, k).actor == Lookup(s.actors - {id}, k)
                      && SlotOf(r.0, k).pending == Lookup(s.updates[id := Tombstone], k) {
          if k != id { assert SlotOf(r.0, k) == SlotOf(s, k); }
        }
        assert forall k :: k in r.0.actors <==> k in (s.actors - {id}) by {
          forall k ensures k in r.0.actors <==> k in (s.actors - {id}) {
            assert SlotOf(r.0, k).actor == Lookup(s.actors - {id}, k);
          }
        }
        assert forall k :: k in r.0.updates <==> k in s.updates[id := Tombstone] by {
          forall k ensures k in r.0.updates <==> k in s.updates[id := Tombstone] {
            assert SlotOf(r.0, k).pending == Lookup(s.updates[id := Tombstone], k);
          }
        }
      }
    }
    r
  }

  /**
   * retrieveDiff: with `getAll`, a snapshot of the whole store that leaves the
   * scene as it was; otherwise the pending changes, which the scene then forgets.
   */
  function RetrieveDiff(s: Scene, getAll: bool): (r: (Diff, Scene))
    ensures r.0.v == s.version
    ensures getAll ==> r.1 == s
    ensures getAll ==> r.0.d.Keys == s.actors.Keys
    ensures getAll ==> forall id :: id in s.actors ==> r.0.d[id] == Fields(Whole(s.actors[id]))
    ensures !getAll ==> r.0.d == s.updates
    ensures !getAll ==> r.1.actors == s.actors && r.1.version == s.version && r.1.updates == map[]
    ensures Valid(s) ==> Valid(r.1)
  {
    if getAll then
      (Diff(s.version, map id | id in s.actors :: Fields(Whole(s.actors[id]))), s)
    else
      (Diff(s.version, s.updates), s.(updates := map[]))
  }

  datatype SerializedDiff = SerializedDiff(count: nat, scene: Scene)

  /** retrieveSerializedDiff: the number of entries in the retrieved diff (its JSON text is not modelled). */
  function RetrieveSerializedDiff(s: Scene, getAll: bool): (r: SerializedDiff)
    ensures r.count == |RetrieveDiff(s, getAll).0.d.Keys|
    ensures r.count == if getAll then |s.actors| else |s.updates|
    ensures r.scene == RetrieveDiff(s, getAll).1
  {
    var (diff, s') := RetrieveDiff(s, getAll);
    SerializedDiff(|diff.d.Keys|, s')
  }

  /** Applies the entries of `d` one after the other, in the order `o` lists their keys. */
  function ApplyInOrder(s: Scene, d: map<string, Update>, o: seq<string>): Scene
    requires forall k :: k in o ==> k in d
    decreases |o|
  {
    if |o| == 0 then s
    else ApplyInOrder(UpdateActor(s, o[0], d[o[0]]).0, d, o[1..])
  }

  /**
   * `r` is `s` with every entry of `d` applied: the slot of each key of `d` is
   * what updateActor alone makes of it, every other slot is as it was.
   */
  ghost predicate AppliedPointwise(r: Scene, s: Scene, d: map<string, Update>) {
    && r.version == s.version
    && forall k :: SlotOf(r, k) == if k in d then SlotOf(UpdateActor(s, k, d[k]).0, k) else SlotOf(s, k)
  }

  /**
   * applyDiff on a decoded diff: nothing happens unless its version is the
   * scene's; otherwise every entry goes through updateActor, and the result is
   * the same for every order in which the entries could be visited.
   */
  method ApplyDiff(s: Scene, diff: Diff) returns (r: Scene)
    ensures diff.v != s.version ==> r == s
    ensures diff.v == s.version ==> AppliedPointwise(r, s, diff.d)
    ensures diff.v == s.version ==>
      forall o :: IsEnumeration(o, diff.d.Keys) ==> r == ApplyInOrder(s, diff.d, o)
    ensures Valid(s) ==> Valid(r)
  {
    if diff.v != s.version {
      return s;
    }
    r := s;
    var rest := diff.d.Keys;
    while rest != {}
      invariant rest <= diff.d.Keys
      invariant r.version == s.version
      invariant Valid(s) ==> Valid(r)
      invariant forall k :: SlotOf(r, k) ==
                             (if k in diff.d && k !in rest then SlotOf(UpdateActor(s, k, diff.d[k]).0, k) else SlotOf(s, k))
      decreases rest
    {
      var k :| k in rest;
      UpdateActorReadsOnlyItsSlot(r, s, k, diff.d[k]);
      r := UpdateActor(r, k, diff.d[k]).0;
      rest := rest - {k};
    }
    forall o | IsEnumeration(o, diff.d.Keys)
      ensures r == ApplyInOrder(s, diff.d, o)
    {
      ApplyInOrderPointwise(s, diff.d, o);
      SameSlotsSameScene(r, ApplyInOrder(s, diff.d, o));
    }
  }

  // ---------------------------------------------------------------------------
  // Lemmas
  // ---------------------------------------------------------------------------

  /** Two actors that agree on every field are the same actor. */
  lemma ActorsAgree(a: Actor, b: Actor)
    requires forall f :: a.Get(f) == b.Get(f)
    ensures a == b
  {
    assert a.Get(Position) == b.Get(Position);
    assert a.Get(Rotation) == b.Get(Rotation);
    assert a.Get(Scale) == b.Get(Scale);
    assert a.Get(Up) == b.Get(Up);
  }

  /** Two scenes with the same version and the same slot for every id are equal. */
  lemma SameSlotsSameScene(a: Scene, b: Scene)
    requires a.version == b.version
    requires forall k :: SlotOf(a, k) == SlotOf(b, k)
    ensures a == b
  {
    forall k ensures (k in a.actors <==> k in b.actors) && (k in a.actors ==> a.actors[k] == b.actors[k]) {
      assert SlotOf(a, k) == SlotOf(b, k);
    }
    forall k ensures (k in a.updates <==> k in b.updates) && (k in a.updates ==> a.updates[k] == b.updates[k]) {
      assert SlotOf(a, k) == SlotOf(b, k);
    }
    assert a.actors == b.actors;
    assert a.updates == b.updates;
  }

  /** What updateActor makes of the slot of `id` depends on nothing but that slot. */
  lemma UpdateActorReadsOnlyItsSlot(s1: Scene, s2: Scene, id: string, u: Update)
    requires SlotOf(s1, id) == SlotOf(s2, id)
    ensures SlotOf(UpdateActor(s1, id, u).0, id) == SlotOf(UpdateActor(s2, id, u).0, id)
    ensures UpdateActor(s1, id, u).1 == UpdateActor(s2, id, u).1
  {
    assert ActorExists(s1, id) <==> ActorExists(s2, id);
    assert PendingFields(s1, id) == PendingFields(s2, id);
  }

  /**
   * Applying the entries in the order `o` (distinct keys of `d`) gives each
   * listed key the slot updateActor alone would give it and leaves the rest.
   */
  lemma {:induction false} ApplyInOrderPointwise(s: Scene, d: map<string, Update>, o: seq<string>)
    requires forall i, j :: 0 <= i < j < |o| ==> o[i] != o[j]
    requires forall k :: k in o ==> k in d
    ensures ApplyInOrder(s, d, o).version == s.version
    ensures forall k :: SlotOf(ApplyInOrder(s, d, o), k) ==
                       (if k in o then SlotOf(UpdateActor(s, k, d[k]).0, k) else SlotOf(s, k))
    decreases |o|
  {
    if |o| > 0 {
      var s1 := UpdateActor(s, o[0], d[o[0]]).0;
      var tail := o[1..];
      assert forall i, j :: 0 <= i < j < |tail| ==> tail[i] != tail[j] by {
        forall i, j | 0 <= i < j < |tail| ensures tail[i] != tail[j] {
          assert tail[i] == o[i + 1] && tail[j] == o[j + 1];
        }
      }
      assert o[0] !in tail by {
        forall i | 0 <= i < |tail| ensures tail[i] != o[0] {
          assert tail[i] == o[i + 1];
        }
      }
      ApplyInOrderPointwise(s1, d, tail);
      forall k ensures SlotOf(ApplyInOrder(s, d, o), k) ==
        if k in o then SlotOf(UpdateActor(s, k, d[k]).0, k) else SlotOf(s, k)
      {
        assert ApplyInOrder(s, d, o) == ApplyInOrder(s1, d, tail);
        assert k in o <==> k == o[0] || k in tail;
        if k in tail {
          assert SlotOf(s1, k) == SlotOf(s, k);
          UpdateActorReadsOnlyItsSlot(s1, s, k, d[k]);
        }
      }
    }
  }

  /** The entries of a diff touch disjoint slots, so every visiting order gives the same scene. */
  lemma ApplyOrderIndependent(s: Scene, d: map<string, Update>, o1: seq<string>, o2: seq<string>)
    requires IsEnumeration(o1, d.Keys) && IsEnumeration(o2, d.Keys)
    ensures ApplyInOrder(s, d, o1) == ApplyInOrder(s, d, o2)
  {
    ApplyInOrderPointwise(s, d, o1);
    ApplyInOrderPointwise(s, d, o2);
    SameSlotsSameScene(ApplyInOrder(s, d, o1), ApplyInOrder(s, d, o2));
  }

  /** Object.assign twice is Object.assign once with the later fields winning. */
  lemma AssignTwice(a: Actor, p1: Partial, p2: Partial)
    ensures Assign(Assign(a, p1), p2) == Assign(a, p1 + p2)
  {
    ActorsAgree(Assign(Assign(a, p1), p2), Assign(a, p1 + p2));
  }

  /** Overriding the copy of an actor by a partial is the copy of the overridden actor. */
  lemma WholeThenAssign(a: Actor, p: Partial)
    ensures Whole(a) + p == Whole(Assign(a, p))
  {
    var l := Whole(a) + p;
    var r := Whole(Assign(a, p));
    assert forall f :: f in l && f in r && l[f] == r[f];
    assert l.Keys == r.Keys;
  }

  /** Filling the defaults from a whole copy reproduces the copied actor. */
  lemma AssignWhole(b: Actor, a: Actor)
    ensures Assign(b, Whole(a)) == a
  {
    ActorsAgree(Assign(b, Whole(a)), a);
  }

  /**
   * Coalescing: two partial updates of one actor before a drain leave the same
   * scene as a single update carrying the union of their fields, the later
   * value winning, whether or not the actor existed before.
   */
  lemma CoalesceUpdates(s: Scene, id: string, p1: Partial, p2: Partial)
    ensures UpdateActor(s, id, Fields(p1)).1
    ensures UpdateActor(UpdateActor(s, id, Fields(p1)).0, id, Fields(p2)).1
    ensures UpdateActor(UpdateActor(s, id, Fields(p1)).0, id, Fields(p2)).0
         == UpdateActor(s, id, Fields(p1 + p2)).0
  {
    var s1 := UpdateActor(s, id, Fields(p1)).0;
    var s2 := UpdateActor(s1, id, Fields(p2)).0;
    var t := UpdateActor(s, id, Fields(p1 + p2)).0;
    CoalescedSlot(s, id, p1, p2);
    forall k ensures SlotOf(s2, k) == SlotOf(t, k) {
      if k != id {
        assert SlotOf(s2, k) == SlotOf(s1, k) == SlotOf(s, k);
      }
    }
    SameSlotsSameScene(s2, t);
  }

  /** The slot of `id` after two partial updates is its slot after the merged one. */
  lemma CoalescedSlot(s: Scene, id: string, p1: Partial, p2: Partial)
    ensures SlotOf(UpdateActor(UpdateActor(s, id, Fields(p1)).0, id, Fields(p2)).0, id)
         == SlotOf(UpdateActor(s, id, Fields(p1 + p2)).0, id)
  {
    if ActorExists(s, id) {
      CoalescedLiveSlot(s, id, p1, p2);
    } else {
      CoalescedNewSlot(s, id, p1, p2);
    }
  }

  /** CoalescedSlot for a live actor: both calls merge into its pending fields. */
  lemma CoalescedLiveSlot(s: Scene, id: string, p1: Partial, p2: Partial)
    requires ActorExists(s, id)
    ensures SlotOf(UpdateActor(UpdateActor(s, id, Fields(p1)).0, id, Fields(p2)).0, id)
         == SlotOf(UpdateActor(s, id, Fields(p1 + p2)).0, id)
  {
    var s1 := UpdateActor(s, id, Fields(p1)).0;
    var a := s.actors[id];
    AssignTwice(a, p1, p2);
    assert s1.actors[id] == Assign(a, p1);
    assert PendingFields(s1, id) == PendingFields(s, id) + p1;
    assert PendingFields(s, id) + p1 + p2 == PendingFields(s, id) + (p1 + p2);
  }

  /** CoalescedSlot for an absent actor: the first call creates it, the second merges into the whole copy. */
  lemma CoalescedNewSlot(s: Scene, id: string, p1: Partial, p2: Partial)
    requires !ActorExists(s, id)
    ensures SlotOf(UpdateActor(UpdateActor(s, id, Fields(p1)).0, id, Fields(p2)).0, id)
         == SlotOf(UpdateActor(s, id, Fields(p1 + p2)).0, id)
  {
    var s1 := UpdateActor(s, id, Fields(p1)).0;
    var a := Assign(NewActor(), p1);
    AssignTwice(NewActor(), p1, p2);
    WholeThenAssign(a, p2);
    assert s1.actors[id] == a;
    assert PendingFields(s1, id) == Whole(a);
  }

  /** A drained scene has nothing left to drain: the next incremental diff is empty. */
  lemma DrainTwice(s: Scene)
    ensures RetrieveDiff(RetrieveDiff(s, false).1, false).0.d == map[]
    ensures RetrieveDiff(RetrieveDiff(s, false).1, false).1 == RetrieveDiff(s, false).1
  {
  }

  /**
   * A full snapshot neither drains nor alters the pending changes: an
   * incremental diff taken after it is the one that would have been taken
   * without it.
   */
  lemma SnapshotThenDrain(s: Scene)
    ensures RetrieveDiff(RetrieveDiff(s, true).1, false) == RetrieveDiff(s, false)
  {
  }

  /**
   * Full sync: a freshly constructed scene that applies a full snapshot of `s`,
   * in any order, holds exactly the actors of `s`, and its pending changes are
   * the snapshot itself.
   */
  lemma FullSyncReplicates(s: Scene, o: seq<string>)
    requires IsEnumeration(o, s.actors.Keys)
    ensures forall k :: k in o ==> k in RetrieveDiff(s, true).0.d
    ensures ApplyInOrder(Init(), RetrieveDiff(s, true).0.d, o).actors == s.actors
    ensures ApplyInOrder(Init(), RetrieveDiff(s, true).0.d, o).updates == RetrieveDiff(s, true).0.d
  {
    var snap := RetrieveDiff(s, true).0.d;
    var r := ApplyInOrder(Init(), snap, o);
    ApplyInOrderPointwise(Init(), snap, o);
    forall k ensures SlotOf(r, k) == Slot(Lookup(s.actors, k), Lookup(snap, k)) {
      SnapshotEntryRebuilds(s, snap, k);
    }
    SameSlotsSameScene(r, Scene(VERSION, s.actors, snap));
  }

  /** Applying the snapshot entry of `k` to a fresh scene rebuilds the actor of `k` and queues the entry. */
  lemma SnapshotEntryRebuilds(s: Scene, snap: map<string, Update>, k: string)
    requires snap == RetrieveDiff(s, true).0.d
    ensures k in snap ==> SlotOf(UpdateActor(Init(), k, snap[k]).0, k) == Slot(Lookup(s.actors, k), Lookup(snap, k))
    ensures k !in snap ==> SlotOf(Init(), k) == Slot(Lookup(s.actors, k), Lookup(snap, k))
  {
    if k in snap {
      AssignWhole(NewActor(), s.actors[k]);
    }
  }
}
