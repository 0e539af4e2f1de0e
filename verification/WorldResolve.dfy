/**
 visualizer/src/core/worldResolve.ts: world poses along a chain of frames, and points re-expressed between frames at
 one epoch. A timeline is any function from epochs to samples; how it interpolates is not part of this model.
 */
module WorldResolve {
  import opened Quaternions

  datatype Sample = Sample(frame: string, position: Vec3, quaternion: Quat)

  type Timelines = map<string, int -> Sample>

  const DEEPEST := 16

  /** The pose of the frame `id` in the world at `epoch`; an id nothing poses is a fixed anchor. */
  function WorldPoseAt(timelines: Timelines, id: string, epoch: int, depth: nat): Pose
    decreases DEEPEST + 1 - depth
  {
    if depth > DEEPEST || id !in timelines then IDENTITY
    else
      var sample := timelines[id](epoch);
      Compose(WorldPoseAt(timelines, sample.frame, epoch, depth + 1), Pose(sample.position, sample.quaternion))
  }

  /** A point of the frame `from`, in the coordinates of the frame `to`. */
  function Reexpress(timelines: Timelines, point: Vec3, from: string, to: string, epoch: int): Vec3 {
    if from == to then point
    else
      var a := WorldPoseAt(timelines, from, epoch, 0);
      var b := WorldPoseAt(timelines, to, epoch, 0);
      Into(b, OutOf(a, point))
  }

  ghost predicate UnitSamples(timelines: Timelines, epoch: int) {
    forall id :: id in timelines ==> Unit(timelines[id](epoch).quaternion)
  }

  /** However long the chain, and whether or not it is cut off by the depth guard. */
  lemma {:induction false} WorldPoseIsUnit(timelines: Timelines, id: string, epoch: int, depth: nat)
    requires UnitSamples(timelines, epoch)
    ensures Unit(WorldPoseAt(timelines, id, epoch, depth).q)
    decreases DEEPEST + 1 - depth
  {
    if depth > DEEPEST || id !in timelines {
      return;
    }
    var sample := timelines[id](epoch);
    WorldPoseIsUnit(timelines, sample.frame, epoch, depth + 1);
    MulIsUnit(WorldPoseAt(timelines, sample.frame, epoch, depth + 1).q, sample.quaternion);
  }

  // ----- the depth guard -----

  /** From `id`, an anchor is reached within `hops` hops. */
  predicate EndsWithin(timelines: Timelines, id: string, epoch: int, hops: nat)
    decreases hops
  {
    id !in timelines || (hops > 0 && EndsWithin(timelines, timelines[id](epoch).frame, epoch, hops - 1))
  }

  /** The guard does not show where the chain ends before it. */
  lemma {:induction false} GuardIsInvisible(timelines: Timelines, id: string, epoch: int, hops: nat, d: nat, e: nat)
    requires EndsWithin(timelines, id, epoch, hops) && d + hops <= DEEPEST + 1 && e + hops <= DEEPEST + 1
    ensures WorldPoseAt(timelines, id, epoch, d) == WorldPoseAt(timelines, id, epoch, e)
    decreases hops
  {
    if id in timelines {
      GuardIsInvisible(timelines, timelines[id](epoch).frame, epoch, hops - 1, d + 1, e + 1);
    }
  }

  /** Then a child's world pose is its sample, placed by the world pose of its parent frame. */
  lemma WorldPoseIsRelative(timelines: Timelines, id: string, epoch: int)
    requires id in timelines && EndsWithin(timelines, id, epoch, DEEPEST + 1)
    ensures var sample := timelines[id](epoch);
            && WorldPoseAt(timelines, id, epoch, 0)
               == Compose(WorldPoseAt(timelines, sample.frame, epoch, 0), Pose(sample.position, sample.quaternion))
  {
    GuardIsInvisible(timelines, timelines[id](epoch).frame, epoch, DEEPEST, 0, 1);
  }

  /** A point of a posed frame, in the coordinates of its parent frame, is placed by the sample alone. */
  lemma ReexpressIntoParent(timelines: Timelines, id: string, epoch: int, point: Vec3)
    requires UnitSamples(timelines, epoch) && id in timelines && EndsWithin(timelines, id, epoch, DEEPEST + 1)
    ensures var sample := timelines[id](epoch);
            id != sample.frame
            ==> Reexpress(timelines, point, id, sample.frame, epoch)
                == Plus(sample.position, Rotate(sample.quaternion, point))
  {
    var sample := timelines[id](epoch);
    var parent := WorldPoseAt(timelines, sample.frame, epoch, 0);
    WorldPoseIsRelative(timelines, id, epoch);
    WorldPoseIsUnit(timelines, sample.frame, epoch, 0);
    OutOfComposed(parent, Pose(sample.position, sample.quaternion), point);
    IntoUndoesOutOf(parent, Plus(sample.position, Rotate(sample.quaternion, point)));
  }

  // ----- re-expressing -----

  /** Staying in one frame is not a special case: the formula gives the same point. */
  lemma {:induction false} ShortcutAgrees(timelines: Timelines, point: Vec3, from: string, to: string, epoch: int)
    requires UnitSamples(timelines, epoch)
    ensures Reexpress(timelines, point, from, to, epoch)
         == Into(WorldPoseAt(timelines, to, epoch, 0), OutOf(WorldPoseAt(timelines, from, epoch, 0), point))
  {
    WorldPoseIsUnit(timelines, from, epoch, 0);
    IntoUndoesOutOf(WorldPoseAt(timelines, from, epoch, 0), point);
  }

  /** By way of any third frame. */
  lemma {:induction false} ReexpressComposes(timelines: Timelines, point: Vec3, from: string, via: string, to: string,
                                             epoch: int)
    requires UnitSamples(timelines, epoch)
    ensures Reexpress(timelines, Reexpress(timelines, point, from, via, epoch), via, to, epoch)
         == Reexpress(timelines, point, from, to, epoch)
  {
    var halfway := Reexpress(timelines, point, from, via, epoch);
    ShortcutAgrees(timelines, point, from, via, epoch);
    ShortcutAgrees(timelines, halfway, via, to, epoch);
    ShortcutAgrees(timelines, point, from, to, epoch);
    WorldPoseIsUnit(timelines, via, epoch, 0);
    OutOfUndoesInto(WorldPoseAt(timelines, via, epoch, 0), OutOf(WorldPoseAt(timelines, from, epoch, 0), point));
  }

  lemma {:induction false} ReexpressRoundTrip(timelines: Timelines, point: Vec3, from: string, to: string, epoch: int)
    requires UnitSamples(timelines, epoch)
    ensures Reexpress(timelines, Reexpress(timelines, point, from, to, epoch), to, from, epoch) == point
  {
    ReexpressComposes(timelines, point, from, to, from, epoch);
  }

  /** Distances do not depend on the frame. */
  lemma ReexpressIsRigid(timelines: Timelines, u: Vec3, v: Vec3, from: string, to: string, epoch: int)
    requires UnitSamples(timelines, epoch)
    ensures LengthSquared(Minus(Reexpress(timelines, u, from, to, epoch), Reexpress(timelines, v, from, to, epoch)))
         == LengthSquared(Minus(u, v))
  {
    var a, b := WorldPoseAt(timelines, from, epoch, 0), WorldPoseAt(timelines, to, epoch, 0);
    WorldPoseIsUnit(timelines, from, epoch, 0);
    WorldPoseIsUnit(timelines, to, epoch, 0);
    ShortcutAgrees(timelines, u, from, to, epoch);
    ShortcutAgrees(timelines, v, from, to, epoch);
    ConjIsUnit(b.q);
    RotateMinus(Conj(b.q), Minus(OutOf(a, u), b.p), Minus(OutOf(a, v), b.p));
    RotateMinus(a.q, u, v);
    Offsets(a.p, b.p, Rotate(a.q, u), Rotate(a.q, v));
    RotateKeepsLength(Conj(b.q), Minus(Rotate(a.q, u), Rotate(a.q, v)));
    RotateKeepsLength(a.q, Minus(u, v));
  }

  lemma Offsets(p: Vec3, r: Vec3, u: Vec3, v: Vec3)
    ensures Minus(Minus(Plus(p, u), r), Minus(Plus(p, v), r)) == Minus(u, v)
  {
  }
}
