/**
 * The diff codec of serialization.ts and its default actor.
 *
 * The FlatBuffers table is replaced by an abstract wire record: every optional
 * table field is an `Option`, and `deleted` is the table's plain boolean. The
 * small integer fields are written as UShort (16 bits) or UInt (32 bits)
 * structs; the model writes that truncation out as a remainder. Floats (speed
 * and the Vector3 components) are carried unchanged.
 */
module Serialization {
  import opened Wrappers
  import opened KeyOrder
  import opened Types
  import opened ActorIds

  /** Number of values of a UShort field. */
  const USHORT: int := 0x1_0000
  /** Number of values of a UInt field. */
  const UINT: int := 0x1_0000_0000

  /** One entry of the wire diff; None is a table field that was never added. */
  datatype WireUpdate = WireUpdate(
    actorId: Option<int>,
    revision: Option<int>,
    color: Option<int>,
    assetId: Option<int>,
    speed: Option<real>,
    movable: Option<bool>,
    collidable: Option<bool>,
    deleted: bool,
    action: Option<AnimationAction>,
    position: Option<Vector3>,
    rotation: Option<Vector3>,
    scale: Option<Vector3>,
    up: Option<Vector3>)

  /** The wire diff: an optional version and a vector of entries, any of which may be null. */
  datatype WireDiff = WireDiff(version: Option<int>, updates: seq<Option<WireUpdate>>)

  /** createNewActor: the record every actor starts from. */
  function NewActor(id: ActorId): (a: Actor)
    ensures a.actorId == id
    ensures a.revision == 0 && !a.deleted
    ensures a.collidable && !a.movable
    ensures a.action == AnimationAction(0, -1)
    ensures a.speed == 1.4 && a.color == 0 && a.assetId == 0
    ensures a.position == Vector3(0.0, 0.0, 0.0) && a.rotation == Vector3(0.0, 0.0, 0.0)
    ensures a.scale == Vector3(1.0, 1.0, 1.0) && a.up == Vector3(0.0, 1.0, 0.0)
  {
    Actor(
      action := AnimationAction(0, -1),
      actorId := id,
      assetId := 0,
      collidable := true,
      color := 0,
      deleted := false,
      movable := false,
      position := Vector3(0.0, 0.0, 0.0),
      revision := 0,
      rotation := Vector3(0.0, 0.0, 0.0),
      scale := Vector3(1.0, 1.0, 1.0),
      speed := 1.4,
      up := Vector3(0.0, 1.0, 0.0))
  }

  /** A number stored in a field `width` values wide: its remainder, which is the number itself when it fits. */
  function Truncate(n: int, width: int): (r: int)
    requires width > 0
    ensures 0 <= r < width
    ensures 0 <= n < width ==> r == n
    ensures (n - r) % width == 0
  {
    var q := n / width;
    MultipleHasNoRemainder(q, width);
    assert n - n % width == q * width;
    n % width
  }

  /** A multiple of `width` leaves no remainder. */
  lemma MultipleHasNoRemainder(q: int, width: int)
    requires width > 0
    ensures (q * width) % width == 0
  {
    var a := q * width;
    var d := q - a / width;
    assert a == width * (a / width) + a % width;
    assert a % width == width * d;
    if d >= 1 {
      assert false;
    } else if d <= -1 {
      assert false;
    }
  }

  /**
   * `r` is what an optional field `width` values wide holds once `o` is written
   * into it: present exactly when `o` is, in range, congruent to `o` modulo
   * `width`, and `o` itself when `o` fits.
   */
  predicate StoredIn(o: Option<int>, r: Option<int>, width: int)
    requires width > 0
  {
    && (r.Some? <==> o.Some?)
    && (r.Some? ==> 0 <= r.value < width && (o.value - r.value) % width == 0)
    && (r.Some? && 0 <= o.value < width ==> r.value == o.value)
  }

  /** An optional number written into a field `width` values wide. */
  function TruncateOpt(o: Option<int>, width: int): (r: Option<int>)
    requires width > 0
    ensures StoredIn(o, r, width)
  {
    if o.Some? then Some(Truncate(o.value, width)) else None
  }

  /** The actor id as it lands in the UShort: the number `serializeID` reads, and 0 when it reads NaN. */
  function WireId(id: ActorId): (n: int)
    ensures 0 <= n < USHORT
    ensures SerializeID(id).None? ==> n == 0
    ensures SerializeID(id).Some? ==> (SerializeID(id).value - n) % USHORT == 0
  {
    match SerializeID(id)
    case None => 0
    case Some(k) => Truncate(k, USHORT)
  }

  /**
   * The entry `serializeDiff` builds for one key: the id always, every other
   * field exactly when the update has it, and `deleted` only when it is true.
   */
  function EncodeUpdate(id: ActorId, u: Update): (w: WireUpdate)
    ensures w.actorId == Some(WireId(id))
    ensures StoredIn(u.revision, w.revision, USHORT)
    ensures StoredIn(u.color, w.color, UINT)
    ensures StoredIn(u.assetId, w.assetId, USHORT)
    ensures w.speed == u.speed && w.movable == u.movable && w.collidable == u.collidable
    ensures w.action == u.action
    ensures w.position == u.position && w.rotation == u.rotation
    ensures w.scale == u.scale && w.up == u.up
    ensures w.deleted <==> u.deleted == Some(true)
  {
    WireUpdate(
      actorId := Some(WireId(id)),
      revision := TruncateOpt(u.revision, USHORT),
      color := TruncateOpt(u.color, UINT),
      assetId := TruncateOpt(u.assetId, USHORT),
      speed := u.speed,
      movable := u.movable,
      collidable := u.collidable,
      deleted := u.deleted == Some(true),
      action := u.action,
      position := u.position,
      rotation := u.rotation,
      scale := u.scale,
      up := u.up)
  }

  /** The entries of `d` in the order `order` lists their keys. */
  function EncodeEntries(d: map<ActorId, Update>, order: seq<ActorId>): (ws: seq<Option<WireUpdate>>)
    requires forall k :: k in order ==> k in d
    ensures |ws| == |order|
    ensures forall i :: 0 <= i < |order| ==> ws[i] == Some(EncodeUpdate(order[i], d[order[i]]))
  {
    seq(|order|, i requires 0 <= i < |order| => Some(EncodeUpdate(order[i], d[order[i]])))
  }

  /**
   * serializeDiff: the version and one entry per key of `diff.d`, in the order
   * `order` (Object.keys) visits them.
   */
  function SerializeDiff(diff: Diff, order: seq<ActorId>): (w: WireDiff)
    requires IsEnumeration(order, diff.d.Keys)
    ensures w.version == Some(Truncate(diff.v, USHORT))
    ensures |w.updates| == |order| == |diff.d|
    ensures forall i :: 0 <= i < |order| ==> w.updates[i] == Some(EncodeUpdate(order[i], diff.d[order[i]]))
  {
    EnumerationSize(order, diff.d.Keys);
    WireDiff(Some(Truncate(diff.v, USHORT)), EncodeEntries(diff.d, order))
  }

  /**
   * The update `deserializeDiff` rebuilds from one entry: the id as an actor id,
   * every present wrapper as a present field (zero included), every absent one
   * as an absent field, and `deleted` only when the flag is set.
   */
  function DecodeUpdate(w: WireUpdate): (u: Update)
    requires w.actorId.Some?
    ensures u.actorId == Some(DeserializeID(w.actorId.value))
    ensures u.revision == w.revision && u.color == w.color && u.assetId == w.assetId
    ensures u.speed == w.speed && u.movable == w.movable && u.collidable == w.collidable
    ensures u.action == w.action
    ensures u.position == w.position && u.rotation == w.rotation
    ensures u.scale == w.scale && u.up == w.up
    ensures u.deleted == if w.deleted then Some(true) else None
  {
    Update(
      action := w.action,
      actorId := Some(DeserializeID(w.actorId.value)),
      assetId := w.assetId,
      collidable := w.collidable,
      color := w.color,
      deleted := if w.deleted then Some(true) else None,
      movable := w.movable,
      position := w.position,
      revision := w.revision,
      rotation := w.rotation,
      scale := w.scale,
      speed := w.speed,
      up := w.up)
  }

  /** The key an entry is stored under: the id it carries, when it is present and carries one. */
  function EntryKey(w: Option<WireUpdate>): Option<ActorId> {
    if w.Some? && w.value.actorId.Some? then Some(DeserializeID(w.value.actorId.value)) else None
  }

  /** Entry `i` of `ws` is present, carries an id, and that id names `k`. */
  ghost predicate Names(ws: seq<Option<WireUpdate>>, i: int, k: ActorId) {
    0 <= i < |ws| && EntryKey(ws[i]) == Some(k)
  }

  /** The index of the last entry of `ws` that names `k`, or -1 when none does. */
  ghost function LastNaming(ws: seq<Option<WireUpdate>>, k: ActorId): (i: int)
    ensures -1 <= i < |ws|
    ensures i >= 0 ==> Names(ws, i, k)
    ensures forall j :: i < j < |ws| ==> !Names(ws, j, k)
  {
    var keys := seq(|ws|, j requires 0 <= j < |ws| => EntryKey(ws[j]));
    var i := LastIndexBelow(keys, k, |ws|);
    assert forall j :: i < j < |ws| ==> !Names(ws, j, k) by {
      forall j | i < j < |ws| ensures !Names(ws, j, k) {
        assert keys[j] == EntryKey(ws[j]);
      }
    }
    i
  }

  /** The last index below `n` at which `keys` holds `k`, or -1 when there is none. */
  ghost function LastIndexBelow<K>(keys: seq<Option<K>>, k: K, n: nat): (i: int)
    requires n <= |keys|
    ensures -1 <= i < n
    ensures i >= 0 ==> keys[i] == Some(k)
    ensures forall j :: i < j < n ==> keys[j] != Some(k)
    decreases n
  {
    if n == 0 then -1
    else if keys[n - 1] == Some(k) then n - 1
    else LastIndexBelow(keys, k, n - 1)
  }

  /**
   * The decoding loop: entries walked first to last, null entries and entries
   * without an id skipped, each other one stored under its id, overwriting.
   */
  function DecodeEntries(ws: seq<Option<WireUpdate>>): (m: map<ActorId, Update>)
    ensures forall k :: k in m ==> m[k].actorId == Some(k)
    decreases |ws|
  {
    if |ws| == 0 then map[]
    else
      var m := DecodeEntries(ws[..|ws| - 1]);
      var last := ws[|ws| - 1];
      if last.Some? && last.value.actorId.Some? then
        m[DeserializeID(last.value.actorId.value) := DecodeUpdate(last.value)]
      else m
  }

  /**
   * deserializeDiff: a missing version reads as 0; the keys are the ids of the
   * well-formed entries, and each holds the decoding of the last entry naming it.
   */
  function DeserializeDiff(w: WireDiff): (diff: Diff)
    ensures w.version.None? ==> diff.v == 0
    ensures w.version.Some? ==> diff.v == w.version.value
    ensures forall k :: k in diff.d ==> diff.d[k].actorId == Some(k)
    ensures forall k :: k in diff.d <==> exists i :: Names(w.updates, i, k)
    ensures forall k :: k in diff.d ==>
              LastNaming(w.updates, k) >= 0 && diff.d[k] == DecodeUpdate(w.updates[LastNaming(w.updates, k)].value)
  {
    DecodeEntriesSpec(w.updates);
    Diff(if w.version.Some? then w.version.value else 0, DecodeEntries(w.updates))
  }

  // ---------------------------------------------------------------------------
  // Lemmas
  // ---------------------------------------------------------------------------

  /** An enumeration of a key set is as long as the set is large. */
  lemma {:induction false} EnumerationSize<K(!new)>(o: seq<K>, ks: set<K>)
    requires IsEnumeration(o, ks)
    ensures |o| == |ks|
    decreases |o|
  {
    if |o| > 0 {
      var last := o[|o| - 1];
      var front := o[..|o| - 1];
      assert last !in front by {
        forall i | 0 <= i < |front| ensures front[i] != last {
          assert front[i] == o[i];
        }
      }
      assert forall k :: k in front <==> k in ks - {last} by {
        forall k ensures k in front <==> k in ks - {last} {
          assert k in o <==> k in front || k == last by {
            assert o == front + [last];
          }
        }
      }
      EnumerationSize(front, ks - {last});
    }
  }

  /** The characterisation of the decoding loop: which keys it produces and what each holds. */
  lemma DecodeEntriesSpec(ws: seq<Option<WireUpdate>>)
    ensures forall k :: k in DecodeEntries(ws) <==> exists i :: Names(ws, i, k)
    ensures forall k :: k in DecodeEntries(ws) ==>
              LastNaming(ws, k) >= 0 && DecodeEntries(ws)[k] == DecodeUpdate(ws[LastNaming(ws, k)].value)
  {
    forall k ensures k in DecodeEntries(ws) <==> exists i :: Names(ws, i, k) {
      DecodeEntriesKeys(ws, k);
    }
    forall k | k in DecodeEntries(ws)
      ensures LastNaming(ws, k) >= 0 && DecodeEntries(ws)[k] == DecodeUpdate(ws[LastNaming(ws, k)].value)
    {
      DecodeEntriesLast(ws, LastNaming(ws, k), k);
    }
  }

  /** The last entry naming `k` is the one `LastNaming` finds. */
  lemma LastNamingIs(ws: seq<Option<WireUpdate>>, i: int, k: ActorId)
    requires Names(ws, i, k)
    requires forall j :: i < j < |ws| ==> !Names(ws, j, k)
    ensures LastNaming(ws, k) == i
  {
  }

  /** Below the last entry, naming a key means the same in `ws` and in `ws` without its last entry. */
  lemma NamesInFront(ws: seq<Option<WireUpdate>>, i: int, k: ActorId)
    requires 0 <= i < |ws| - 1
    ensures Names(ws, i, k) <==> Names(ws[..|ws| - 1], i, k)
  {
    assert ws[i] == ws[..|ws| - 1][i];
  }

  /** The decoded keys are exactly the ids named by well-formed entries. */
  lemma {:induction false} DecodeEntriesKeys(ws: seq<Option<WireUpdate>>, k: ActorId)
    ensures k in DecodeEntries(ws) <==> exists i :: Names(ws, i, k)
    decreases |ws|
  {
    if |ws| > 0 {
      var n := |ws| - 1;
      var front := ws[..n];
      DecodeEntriesKeys(front, k);
      if Names(ws, n, k) {
        NamedByLast(ws, k);
      } else {
        DecodeLastEntryElsewhere(ws, k);
        NamedInFront(ws, front, k);
      }
    }
  }

  /** A key the last entry names is decoded, and some entry names it. */
  lemma NamedByLast(ws: seq<Option<WireUpdate>>, k: ActorId)
    requires |ws| > 0 && Names(ws, |ws| - 1, k)
    ensures k in DecodeEntries(ws)
    ensures exists i :: Names(ws, i, k)
  {
    DecodeLastEntryHere(ws);
  }

  /** A key holds the decoding of the last entry that names it. */
  lemma {:induction false} DecodeEntriesLast(ws: seq<Option<WireUpdate>>, i: int, k: ActorId)
    requires Names(ws, i, k)
    requires forall j :: i < j < |ws| ==> !Names(ws, j, k)
    ensures k in DecodeEntries(ws) && DecodeEntries(ws)[k] == DecodeUpdate(ws[i].value)
    decreases |ws|
  {
    var n := |ws| - 1;
    if i < n {
      var front := ws[..n];
      LastNamingInFront(ws, front, i, k);
      DecodeEntriesLast(front, i, k);
      DecodeLastEntryElsewhere(ws, k);
    } else {
      DecodeLastEntryHere(ws);
    }
  }

  /** An entry below the last that is the last to name `k` is still the last to name it in `front`, `ws` without its last entry. */
  lemma LastNamingInFront(ws: seq<Option<WireUpdate>>, front: seq<Option<WireUpdate>>, i: int, k: ActorId)
    requires 0 <= i < |ws| - 1 && front == ws[..|ws| - 1]
    requires Names(ws, i, k)
    requires forall j :: i < j < |ws| ==> !Names(ws, j, k)
    ensures Names(front, i, k) && front[i] == ws[i]
    ensures forall j :: i < j < |front| ==> !Names(front, j, k)
    ensures !Names(ws, |ws| - 1, k)
  {
    NamesInFront(ws, i, k);
    forall j | i < j < |front| ensures !Names(front, j, k) {
      NamesInFront(ws, j, k);
    }
  }

  /** When the last entry does not name `k`, some entry of `ws` names it exactly when some entry of `front` does. */
  lemma NamedInFront(ws: seq<Option<WireUpdate>>, front: seq<Option<WireUpdate>>, k: ActorId)
    requires |ws| > 0 && front == ws[..|ws| - 1]
    requires !Names(ws, |ws| - 1, k)
    ensures (exists i :: Names(ws, i, k)) <==> (exists i :: Names(front, i, k))
  {
    if i :| Names(ws, i, k) {
      NamesInFront(ws, i, k);
    }
    if i :| Names(front, i, k) {
      NamesInFront(ws, i, k);
    }
  }

  /** A well-formed last entry is what its key holds. */
  lemma DecodeLastEntryHere(ws: seq<Option<WireUpdate>>)
    requires |ws| > 0
    requires ws[|ws| - 1].Some? && ws[|ws| - 1].value.actorId.Some?
    ensures DeserializeID(ws[|ws| - 1].value.actorId.value) in DecodeEntries(ws)
    ensures DecodeEntries(ws)[DeserializeID(ws[|ws| - 1].value.actorId.value)] == DecodeUpdate(ws[|ws| - 1].value)
  {
  }

  /** When the last entry does not name `k`, decoding it leaves what `k` holds. */
  lemma DecodeLastEntryElsewhere(ws: seq<Option<WireUpdate>>, k: ActorId)
    requires |ws| > 0 && !Names(ws, |ws| - 1, k)
    ensures k in DecodeEntries(ws) <==> k in DecodeEntries(ws[..|ws| - 1])
    ensures k in DecodeEntries(ws) ==> DecodeEntries(ws)[k] == DecodeEntries(ws[..|ws| - 1])[k]
  {
  }

  /** Shorthand: an optional number fits a field `width` values wide. */
  predicate Fits(o: Option<int>, width: int) {
    o.Some? ==> 0 <= o.value < width
  }

  /** What one update needs to survive the wire unchanged. */
  predicate UpdateFitsWire(u: Update) {
    && Fits(u.revision, USHORT)
    && Fits(u.color, UINT)
    && Fits(u.assetId, USHORT)
    && u.deleted != Some(false)
  }

  /** What a diff needs to survive the wire unchanged: a UShort version and canonical UShort ids. */
  predicate FitsWire(diff: Diff) {
    && 0 <= diff.v < USHORT
    && forall k :: k in diff.d ==> IsCanonicalId(k) && IdNumber(k) < USHORT && UpdateFitsWire(diff.d[k])
  }

  /** A canonical id that fits a UShort travels as its own number and is read back as itself. */
  lemma WireIdOfCanonical(id: ActorId)
    requires IsCanonicalId(id) && IdNumber(id) < USHORT
    ensures WireId(id) == IdNumber(id)
    ensures DeserializeID(WireId(id)) == id
  {
    CanonicalIdRoundTrip(id);
  }

  /** One update survives the wire, gaining its key as `actorId`. */
  lemma UpdateRoundTrip(id: ActorId, u: Update)
    requires IsCanonicalId(id) && IdNumber(id) < USHORT
    requires UpdateFitsWire(u)
    ensures DecodeUpdate(EncodeUpdate(id, u)) == u.(actorId := Some(id))
  {
    WireIdOfCanonical(id);
    var w := EncodeUpdate(id, u);
    var back := DecodeUpdate(w);
    assert back.actorId == Some(id);
    assert back.revision == u.revision;
    assert back.color == u.color;
    assert back.assetId == u.assetId;
    assert back.deleted == u.deleted by {
      if u.deleted.Some? {
        assert u.deleted.value;
      }
    }
  }

  /**
   * The codec's round trip: decoding the encoding of a diff whose numbers fit
   * their fields, whose keys are canonical ids and which never says
   * `deleted: false` gives back its version and keys, each update having gained
   * its key as `actorId`; the order of the keys on the wire does not matter.
   */
  lemma RoundTrip(diff: Diff, order: seq<ActorId>)
    requires IsEnumeration(order, diff.d.Keys)
    requires FitsWire(diff)
    ensures DeserializeDiff(SerializeDiff(diff, order))
         == Diff(diff.v, map k | k in diff.d :: diff.d[k].(actorId := Some(k)))
  {
    var w := SerializeDiff(diff, order);
    var r := DeserializeDiff(w);
    var want := map k | k in diff.d :: diff.d[k].(actorId := Some(k));
    assert r.v == diff.v;
    assert r.d.Keys == want.Keys by {
      forall k ensures k in r.d <==> k in want {
        RoundTripKey(diff, order, k);
      }
    }
    forall k | k in want ensures r.d[k] == want[k] {
      RoundTripKey(diff, order, k);
    }
    SameEntriesSameMap(r.d, want);
  }

  /** Two maps with the same keys and the same value under each key are equal. */
  lemma SameEntriesSameMap<K, V>(a: map<K, V>, b: map<K, V>)
    requires a.Keys == b.Keys
    requires forall k :: k in b ==> a[k] == b[k]
    ensures a == b
  {
  }

  /** One key of the decoded encoding: present exactly when it was, holding its update with the key added. */
  lemma RoundTripKey(diff: Diff, order: seq<ActorId>, k: ActorId)
    requires IsEnumeration(order, diff.d.Keys)
    requires FitsWire(diff)
    ensures k in DeserializeDiff(SerializeDiff(diff, order)).d <==> k in diff.d
    ensures k in diff.d ==> DeserializeDiff(SerializeDiff(diff, order)).d[k] == diff.d[k].(actorId := Some(k))
  {
    var ws := SerializeDiff(diff, order).updates;
    var back := DeserializeDiff(SerializeDiff(diff, order)).d;
    if k in diff.d {
      var i := EncodedPosition(diff, order, k);
      EncodedEntryNames(diff, order, i, k);
      forall j | i < j < |ws| ensures !Names(ws, j, k) {
        EncodedEntryNames(diff, order, j, k);
      }
      LastNamingIs(ws, i, k);
      UpdateRoundTrip(k, diff.d[k]);
    } else {
      forall i | Names(ws, i, k) ensures false {
        EncodedEntryNames(diff, order, i, k);
      }
    }
  }

  /** Where a key sits in the enumeration. */
  lemma EncodedPosition(diff: Diff, order: seq<ActorId>, k: ActorId) returns (i: int)
    requires IsEnumeration(order, diff.d.Keys)
    requires k in diff.d
    ensures 0 <= i < |order| && order[i] == k
  {
    assert k in order;
    i :| 0 <= i < |order| && order[i] == k;
  }

  /** On the wire, entry `i` names exactly the `i`-th key, and no other. */
  lemma EncodedEntryNames(diff: Diff, order: seq<ActorId>, i: int, k: ActorId)
    requires IsEnumeration(order, diff.d.Keys)
    requires FitsWire(diff)
    ensures Names(SerializeDiff(diff, order).updates, i, k) <==> 0 <= i < |order| && order[i] == k
  {
    if 0 <= i < |order| {
      WireIdOfCanonical(order[i]);
    }
  }

  /**
   * A freshly created actor sent as a full record comes back with every field
   * but one: `deleted: false` is never written, so it returns absent.
   */
  lemma NewActorRoundTrip(id: ActorId)
    requires IsCanonicalId(id) && IdNumber(id) < USHORT
    ensures DecodeUpdate(EncodeUpdate(id, AsUpdate(NewActor(id)))) == AsUpdate(NewActor(id)).(deleted := None)
    ensures DecodeUpdate(EncodeUpdate(id, AsUpdate(NewActor(id)))) != AsUpdate(NewActor(id))
  {
    WireIdOfCanonical(id);
  }

  /**
   * Why the round trip asks for ids below 65536: the UShort keeps only the low
   * 16 bits, so "a65536" and "a0" land on the same wire id.
   */
  lemma WideIdsCollide()
    ensures DeserializeID(USHORT) != DeserializeID(0)
    ensures WireId(DeserializeID(USHORT)) == WireId(DeserializeID(0)) == 0
  {
    IdRoundTrip(USHORT);
    IdRoundTrip(0);
  }
}
