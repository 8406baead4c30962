/**
 * The records of types.ts, shared by the codec: a full actor, a partial update
 * (every field optional) and a versioned diff. JavaScript numbers are `int`
 * where the codec treats them as integers and `real` where it carries floats.
 */
module Types {
  import opened Wrappers

  type ActorId = string

  datatype Vector3 = Vector3(x: real, y: real, z: real)

  /** NetworkedAnimationAction; the source's `type` field is called `kind` here. */
  datatype AnimationAction = AnimationAction(kind: int, state: int)

  datatype Actor = Actor(
    action: AnimationAction,
    actorId: ActorId,
    assetId: int,
    collidable: bool,
    color: int,
    deleted: bool,
    movable: bool,
    position: Vector3,
    revision: int,
    rotation: Vector3,
    scale: Vector3,
    speed: real,
    up: Vector3)

  /** Partial<Actor>: None stands for a field that is absent (undefined). */
  datatype Update = Update(
    action: Option<AnimationAction>,
    actorId: Option<ActorId>,
    assetId: Option<int>,
    collidable: Option<bool>,
    color: Option<int>,
    deleted: Option<bool>,
    movable: Option<bool>,
    position: Option<Vector3>,
    revision: Option<int>,
    rotation: Option<Vector3>,
    scale: Option<Vector3>,
    speed: Option<real>,
    up: Option<Vector3>)

  datatype Diff = Diff(v: int, d: map<ActorId, Update>)

  /** An actor seen as the update that sets every one of its fields. */
  function AsUpdate(a: Actor): Update {
    Update(Some(a.action), Some(a.actorId), Some(a.assetId), Some(a.collidable), Some(a.color),
           Some(a.deleted), Some(a.movable), Some(a.position), Some(a.revision), Some(a.rotation),
           Some(a.scale), Some(a.speed), Some(a.up))
  }
}
