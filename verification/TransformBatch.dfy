/**
 crates/spacetimestamp/src/transforms.rs: projecting a batch of spacetimestamps into an astronomical frame. The almanac,
 the frame resolver, unit ratios, timescales and the reading of a quaternion off a matrix are functions of a `World`.
 */
module TransformBatches {
  import opened Prelude
  import opened Identity
  import opened Rows
  import opened Quaternions

  type LengthUnit = nat
  type TimeScale = nat

  /** A physical instant: its offset from J2000 TAI. */
  type Instant = Epoch

  datatype AnchorFrame = AnchorFrame(center: int, orientation: int)

  const J2000 := 1

  /** A rotation matrix, by rows. */
  datatype Matrix = Matrix(x: Vec3, y: Vec3, z: Vec3)

  function Dot(a: Vec3, b: Vec3): real {
    a.x * b.x + a.y * b.y + a.z * b.z
  }

  function Apply(m: Matrix, v: Vec3): Vec3 {
    Vec3(Dot(m.x, v), Dot(m.y, v), Dot(m.z, v))
  }

  const UNROTATED := Matrix(Vec3(1.0, 0.0, 0.0), Vec3(0.0, 1.0, 0.0), Vec3(0.0, 0.0, 1.0))

  datatype Stamp = Stamp(frame: Id, source: Id, unit: LengthUnit, scale: TimeScale, estimate: Estimate,
                         position: Vec3, quaternion: Quat, centuries: int, ns: nat,
                         positionCovariance: Option<seq<real>>, orientationCovariance: Option<seq<real>>)

  /** A row: its spacetimestamp, and the columns that pass through. */
  datatype Record<R> = Record(stamp: Stamp, rest: R)

  type Resolved = (Id, Pose)

  datatype World = World(
    instant: (TimeScale, int, nat) -> Instant,
    resolve: Option<(Id, Instant) -> Option<Resolved>>,
    pair: Id -> AnchorFrame,
    translate: (AnchorFrame, AnchorFrame, Instant) -> Option<Vec3>,
    rotate: (AnchorFrame, AnchorFrame, Instant) -> Option<Matrix>,
    toQuat: Matrix -> Quat,
    normalize: Quat -> Quat,
    toKm: (LengthUnit, real) -> real,
    fromKm: (LengthUnit, real) -> real)

  datatype Fault =
    | UnknownTarget
    | NoPose(frame: Id, at: Instant)
    | NeverAFrame(frame: Id)
    | TranslateFailed(root: Id)
    | RotateFailed(root: Id)
    | J2000RotateFailed

  datatype Target = Target(frame: AnchorFrame, id: Id, unit: LengthUnit)

  // ----- one row on its own -----

  function ResolveRootFrame(w: World, id: Id, at: Instant): Result<AnchorFrame, Fault> {
    if id.IsSoloc() then Err(NoPose(id, at))
    else if !id.IsAstro() then Err(NeverAFrame(id))
    else Ok(w.pair(id))
  }

  function InKm(w: World, unit: LengthUnit, v: Vec3): Vec3 {
    Vec3(w.toKm(unit, v.x), w.toKm(unit, v.y), w.toKm(unit, v.z))
  }

  function FromKm(w: World, unit: LengthUnit, v: Vec3): Vec3 {
    Vec3(w.fromKm(unit, v.x), w.fromKm(unit, v.y), w.fromKm(unit, v.z))
  }

  function At(w: World, s: Stamp): Instant {
    w.instant(s.scale, s.centuries, s.ns)
  }

  /** The root a row's frame hangs from, and the row's pose there, in kilometres. */
  function Rooted(w: World, s: Stamp, dynamic: Option<Resolved>): Resolved {
    var local := Pose(InKm(w, s.unit, s.position), w.normalize(s.quaternion));
    if dynamic.Some? then (dynamic.value.0, Compose(dynamic.value.1, local)) else (s.frame, local)
  }

  function J2000Frame(frame: AnchorFrame): AnchorFrame {
    frame.(orientation := J2000)
  }

  predicate NeedsJ2000(root: AnchorFrame, target: AnchorFrame) {
    target.orientation != J2000 && root.center != target.center
  }

  function Dynamic(w: World, frame: Id, at: Instant): Option<Resolved> {
    if w.resolve.Some? then w.resolve.value(frame, at) else None
  }

  function Projected(w: World, target: Target, s: Stamp, root: Pose, translation: Vec3, turn: Matrix, j2000: Matrix)
    : Stamp
  {
    var position := Plus(Apply(turn, root.p), Apply(j2000, translation));
    Stamp(target.id, s.source, target.unit, s.scale, s.estimate,
          FromKm(w, target.unit, position), Mul(w.toQuat(turn), root.q), s.centuries, s.ns, None, None)
  }

  function TransformRow<R>(w: World, target: Target, record: Record<R>): Result<Record<R>, Fault> {
    var s := record.stamp;
    var at := At(w, s);
    var (rootId, root) := Rooted(w, s, Dynamic(w, s.frame, at));
    match ResolveRootFrame(w, rootId, at)
    case Err(e) => Err(e)
    case Ok(frame) =>
      var translation := w.translate(frame, target.frame, at);
      var turn := w.rotate(frame, target.frame, at);
      var j2000 := w.rotate(J2000Frame(target.frame), target.frame, at);
      if translation.None? then Err(TranslateFailed(rootId))
      else if turn.None? then Err(RotateFailed(rootId))
      else if !NeedsJ2000(frame, target.frame) then
        Ok(record.(stamp := Projected(w, target, s, root, translation.value, turn.value, UNROTATED)))
      else if j2000.None? then Err(J2000RotateFailed)
      else Ok(record.(stamp := Projected(w, target, s, root, translation.value, turn.value, j2000.value)))
  }

  /** The frame that a row hangs from in the end: the resolver's root, or the row's own. */
  function RootFrame(w: World, s: Stamp): Id {
    var at := w.instant(s.scale, s.centuries, s.ns);
    if w.resolve.Some? && w.resolve.value(s.frame, at).Some? then w.resolve.value(s.frame, at).value.0 else s.frame
  }

  /**
   When a row cannot be projected, and why: its root must be astronomical, and the almanac must know the way from it,
   and besides, where centers differ, how to turn J2000 axes into axes of the target's own.
   */
  lemma RowFaults<R>(w: World, target: Target, record: Record<R>)
    ensures var root, at := RootFrame(w, record.stamp), At(w, record.stamp);
            var fault := TransformRow(w, target, record);
            && (root.IsSoloc() ==> fault == Err(NoPose(root, at)))
            && (!root.IsSoloc() && !root.IsAstro() ==> fault == Err(NeverAFrame(root)))
            && (root.IsAstro() ==>
                  var f := w.pair(root);
                  var between, turn := w.translate(f, target.frame, at), w.rotate(f, target.frame, at);
                  var axes := w.rotate(AnchorFrame(target.frame.center, J2000), target.frame, at);
                  if between.None? then fault == Err(TranslateFailed(root))
                  else if turn.None? then fault == Err(RotateFailed(root))
                  else if target.frame.orientation != J2000 && f.center != target.frame.center && axes.None?
                    then fault == Err(J2000RotateFailed)
                  else fault.Ok?)
  {
  }

  /** One more row, unless something has already failed. */
  function Extended<R>(done: Result<seq<Record<R>>, Fault>, row: Result<Record<R>, Fault>)
    : Result<seq<Record<R>>, Fault>
  {
    if done.Err? then done
    else if row.Err? then Err(row.error)
    else Ok(done.value + [row.value])
  }

  /** All rows, or the fault of the first that cannot be projected. */
  function TransformRows<R>(w: World, target: Target, batch: seq<Record<R>>): Result<seq<Record<R>>, Fault> {
    if batch == [] then Ok([])
    else Extended(TransformRows(w, target, batch[..|batch| - 1]), TransformRow(w, target, batch[|batch| - 1]))
  }

  lemma TransformSnoc<R>(w: World, target: Target, batch: seq<Record<R>>, record: Record<R>)
    ensures TransformRows(w, target, batch + [record])
         == Extended(TransformRows(w, target, batch), TransformRow(w, target, record))
  {
    assert (batch + [record])[..|batch|] == batch;
  }

  // ----- the loop, with its three caches -----

  /** Every cached answer is the answer. */
  ghost predicate CachesAgree(w: World, target: Target, dynamics: map<(Id, Instant), Option<Resolved>>,
                              roots: map<Id, AnchorFrame>, j2000s: map<Instant, Matrix>) {
    && (forall k :: k in dynamics ==> dynamics[k] == Dynamic(w, k.0, k.1))
    && (forall id, at :: id in roots ==> ResolveRootFrame(w, id, at) == Ok(roots[id]))
    && (forall at :: at in j2000s ==> w.rotate(J2000Frame(target.frame), target.frame, at) == Some(j2000s[at]))
  }

  method TransformBatch<R>(w: World, target: Option<Target>, batch: seq<Record<R>>)
    returns (result: Result<seq<Record<R>>, Fault>)
    ensures target.None? ==> result == Err(UnknownTarget)
    ensures target.Some? ==> result == TransformRows(w, target.value, batch)
  {
    if target.None? {
      return Err(UnknownTarget);
    }
    var to := target.value;
    var dynamics: map<(Id, Instant), Option<Resolved>> := map[];
    var roots: map<Id, AnchorFrame> := map[];
    var j2000s: map<Instant, Matrix> := map[];
    var built: seq<Record<R>> := [];
    for i := 0 to |batch|
      invariant CachesAgree(w, to, dynamics, roots, j2000s)
      invariant TransformRows(w, to, batch[..i]) == Ok(built)
    {
      FaultStops(w, to, batch, i);
      var s := batch[i].stamp;
      var at := At(w, s);

      var dynamic: Option<Resolved> := None;
      if w.resolve.Some? {
        if (s.frame, at) !in dynamics {
          dynamics := dynamics[(s.frame, at) := w.resolve.value(s.frame, at)];
        }
        dynamic := dynamics[(s.frame, at)];
      }
      var (rootId, root) := Rooted(w, s, dynamic);

      if rootId !in roots {
        var frame := ResolveRootFrame(w, rootId, at);
        if frame.Err? {
          return Err(frame.error);
        }
        roots := roots[rootId := frame.value];
      }
      var rootFrame := roots[rootId];

      var translation := w.translate(rootFrame, to.frame, at);
      if translation.None? {
        return Err(TranslateFailed(rootId));
      }
      var turn := w.rotate(rootFrame, to.frame, at);
      if turn.None? {
        return Err(RotateFailed(rootId));
      }

      var j2000 := UNROTATED;
      if NeedsJ2000(rootFrame, to.frame) {
        if at !in j2000s {
          var found := w.rotate(J2000Frame(to.frame), to.frame, at);
          if found.None? {
            return Err(J2000RotateFailed);
          }
          j2000s := j2000s[at := found.value];
        }
        j2000 := j2000s[at];
      }
      built := built + [batch[i].(stamp := Projected(w, to, s, root, translation.value, turn.value, j2000))];
    }
    assert batch[..|batch|] == batch;
    result := Ok(built);
  }

  /** A row that fails after rows that did not decides the batch; one that does not extends the result. */
  lemma FaultStops<R>(w: World, target: Target, batch: seq<Record<R>>, i: nat)
    requires i < |batch| && TransformRows(w, target, batch[..i]).Ok?
    ensures TransformRows(w, target, batch[..i + 1])
         == Extended(TransformRows(w, target, batch[..i]), TransformRow(w, target, batch[i]))
    ensures TransformRow(w, target, batch[i]).Err?
            ==> TransformRows(w, target, batch) == Err(TransformRow(w, target, batch[i]).error)
  {
    TransformSnoc(w, target, batch[..i], batch[i]);
    assert batch[..i + 1] == batch[..i] + [batch[i]];
    if TransformRow(w, target, batch[i]).Err? {
      FaultStays(w, target, batch[..i + 1], batch[i + 1..]);
      assert batch == batch[..i + 1] + batch[i + 1..];
    }
  }

  lemma FaultStays<R>(w: World, target: Target, a: seq<Record<R>>, b: seq<Record<R>>)
    requires TransformRows(w, target, a).Err?
    ensures TransformRows(w, target, a + b) == TransformRows(w, target, a)
  {
    TransformOfConcat(w, target, a, b);
  }

  // ----- what a batch is -----

  /** The outcome of a batch, row by row. */
  ghost predicate IsRowByRow<R>(w: World, target: Target, batch: seq<Record<R>>, all: Result<seq<Record<R>>, Fault>) {
    && (all.Ok? ==> |all.value| == |batch|
                    && forall i :: 0 <= i < |batch| ==> TransformRow(w, target, batch[i]) == Ok(all.value[i]))
    && (all.Err? ==> exists i :: 0 <= i < |batch| && FirstFault(w, target, batch, i, all.error))
  }

  ghost predicate FirstFault<R>(w: World, target: Target, batch: seq<Record<R>>, i: nat, fault: Fault) {
    i < |batch| && TransformRow(w, target, batch[i]) == Err(fault)
    && forall j :: 0 <= j < i ==> TransformRow(w, target, batch[j]).Ok?
  }

  /** The batch is projected row by row; where it fails, with the fault of the first row that fails on its own. */
  lemma {:induction false} RowByRow<R>(w: World, target: Target, batch: seq<Record<R>>)
    ensures IsRowByRow(w, target, batch, TransformRows(w, target, batch))
  {
    if batch != [] {
      var front, last := batch[..|batch| - 1], batch[|batch| - 1];
      RowByRow(w, target, front);
      OneMoreRow(w, target, front, last, TransformRows(w, target, front));
      assert batch == front + [last];
    }
  }

  lemma OneMoreRow<R>(w: World, target: Target, front: seq<Record<R>>, last: Record<R>,
                      done: Result<seq<Record<R>>, Fault>)
    requires IsRowByRow(w, target, front, done)
    ensures IsRowByRow(w, target, front + [last], Extended(done, TransformRow(w, target, last)))
  {
    var all := front + [last];
    if done.Err? {
      var i :| 0 <= i < |front| && FirstFault(w, target, front, i, done.error);
      assert forall j :: 0 <= j <= i ==> all[j] == front[j];
      assert FirstFault(w, target, all, i, done.error);
    } else if TransformRow(w, target, last).Err? {
      assert forall j :: 0 <= j < |front| ==> all[j] == front[j];
      assert FirstFault(w, target, all, |front|, TransformRow(w, target, last).error);
    }
  }

  /** A batch fails exactly when some row fails on its own. */
  lemma {:induction false} FailsIffSomeRowFails<R>(w: World, target: Target, batch: seq<Record<R>>)
    ensures TransformRows(w, target, batch).Err?
       <==> exists i :: 0 <= i < |batch| && TransformRow(w, target, batch[i]).Err?
  {
    RowByRow(w, target, batch);
    var all := TransformRows(w, target, batch);
    if all.Err? {
      var i :| 0 <= i < |batch| && FirstFault(w, target, batch, i, all.error);
      assert TransformRow(w, target, batch[i]).Err?;
    }
  }

  lemma {:induction false} TransformOfConcat<R>(w: World, target: Target, a: seq<Record<R>>, b: seq<Record<R>>)
    ensures TransformRows(w, target, a + b) == Joined(TransformRows(w, target, a), TransformRows(w, target, b))
  {
    if b == [] {
      assert a + b == a;
      EmptyJoins(TransformRows(w, target, a));
    } else {
      var front, last := b[..|b| - 1], b[|b| - 1];
      TransformOfConcat(w, target, a, front);
      ConcatAssoc(a, front, [last]);
      assert b == front + [last];
      TransformSnoc(w, target, a + front, last);
      TransformSnoc(w, target, front, last);
      JoinedExtends(TransformRows(w, target, a), TransformRows(w, target, front), TransformRow(w, target, last));
    }
  }

  function Joined<R>(a: Result<seq<Record<R>>, Fault>, b: Result<seq<Record<R>>, Fault>)
    : Result<seq<Record<R>>, Fault>
  {
    if a.Err? then a else if b.Err? then b else Ok(a.value + b.value)
  }

  lemma EmptyJoins<R>(a: Result<seq<Record<R>>, Fault>)
    ensures Joined(a, Ok([])) == a
  {
    assert a.Ok? ==> a.value + [] == a.value;
  }

  lemma JoinedExtends<R>(a: Result<seq<Record<R>>, Fault>, b: Result<seq<Record<R>>, Fault>,
                         row: Result<Record<R>, Fault>)
    ensures Extended(Joined(a, b), row) == Joined(a, Extended(b, row))
  {
    if a.Ok? && b.Ok? && row.Ok? {
      ConcatAssoc(a.value, b.value, [row.value]);
    }
  }

  /** Only place changes: provenance, time and the other columns stay, and no covariance survives. */
  lemma PlaceAloneChanges<R>(w: World, target: Target, batch: seq<Record<R>>, i: nat)
    requires TransformRows(w, target, batch).Ok? && i < |batch|
    ensures var all := TransformRows(w, target, batch).value;
            && i < |all|
            && var (before, after) := (batch[i].stamp, all[i].stamp);
            && all[i].rest == batch[i].rest
            && after.source == before.source && after.estimate == before.estimate
            && after.scale == before.scale && after.centuries == before.centuries && after.ns == before.ns
            && after.frame == target.id && after.unit == target.unit
            && after.positionCovariance == None && after.orientationCovariance == None
  {
    RowByRow(w, target, batch);
    assert TransformRow(w, target, batch[i]) == Ok(TransformRows(w, target, batch).value[i]);
  }

  // ----- projecting twice -----

  /** An almanac that leaves the target frame where it is, with rotations that are unit and units that convert back. */
  ghost predicate Settled(w: World, target: Target) {
    && target.id.IsAstro() && w.pair(target.id) == target.frame
    && (forall at :: Dynamic(w, target.id, at) == None)
    && (forall at :: w.translate(target.frame, target.frame, at) == Some(Vec3(0.0, 0.0, 0.0)))
    && (forall at :: w.rotate(target.frame, target.frame, at) == Some(UNROTATED))
    && w.toQuat(UNROTATED) == ONE && (forall m :: Unit(w.toQuat(m)))
    && (forall q :: Unit(w.normalize(q)) && (Unit(q) ==> w.normalize(q) == q))
    && (forall id, at :: Dynamic(w, id, at).Some? ==> Unit(Dynamic(w, id, at).value.1.q))
    && (forall x :: w.toKm(target.unit, w.fromKm(target.unit, x)) == x)
  }

  lemma ProjectedIsUnit<R>(w: World, target: Target, record: Record<R>)
    requires Settled(w, target) && TransformRow(w, target, record).Ok?
    ensures Unit(TransformRow(w, target, record).value.stamp.quaternion)
  {
    var s, at := record.stamp, At(w, record.stamp);
    var dynamic := Dynamic(w, s.frame, at);
    var (rootId, root) := Rooted(w, s, dynamic);
    if dynamic.Some? {
      MulIsUnit(dynamic.value.1.q, w.normalize(s.quaternion));
    }
    MulIsUnit(w.toQuat(w.rotate(w.pair(rootId), target.frame, at).value), root.q);
  }

  /** A row already in the target frame, with nothing to resolve, to turn or to normalize. */
  lemma SettledRowStays<R>(w: World, target: Target, record: Record<R>, position: Vec3)
    requires target.id.IsAstro() && w.pair(target.id) == target.frame && w.toQuat(UNROTATED) == ONE
    requires var s, at := record.stamp, At(w, record.stamp);
             && s.frame == target.id && Dynamic(w, s.frame, at) == None
             && w.translate(target.frame, target.frame, at) == Some(Vec3(0.0, 0.0, 0.0))
             && w.rotate(target.frame, target.frame, at) == Some(UNROTATED)
             && s.unit == target.unit
             && s.position == FromKm(w, s.unit, position) && InKm(w, s.unit, s.position) == position
             && w.normalize(s.quaternion) == s.quaternion
             && s.positionCovariance == None && s.orientationCovariance == None
    ensures TransformRow(w, target, record) == Ok(record)
  {
    UnresolvedRoot(w, record.stamp, position);
    UnturnedRowStays(w, target, record, Pose(position, record.stamp.quaternion));
  }

  lemma UnturnedRowStays<R>(w: World, target: Target, record: Record<R>, local: Pose)
    requires target.id.IsAstro() && w.pair(target.id) == target.frame && w.toQuat(UNROTATED) == ONE
    requires var s, at := record.stamp, At(w, record.stamp);
             && Rooted(w, s, Dynamic(w, s.frame, at)) == (target.id, local)
             && w.translate(target.frame, target.frame, at) == Some(Vec3(0.0, 0.0, 0.0))
             && w.rotate(target.frame, target.frame, at) == Some(UNROTATED)
             && s.frame == target.id && s.unit == target.unit
             && s.position == FromKm(w, target.unit, local.p) && s.quaternion == local.q
             && s.positionCovariance == None && s.orientationCovariance == None
    ensures TransformRow(w, target, record) == Ok(record)
  {
    var s, at := record.stamp, At(w, record.stamp);
    ProjectedStays(w, target, s, local);
    TargetIsRoot(w, target, at);
    RowTurned(w, target, record, target.id, local, target.frame, Vec3(0.0, 0.0, 0.0), UNROTATED, s);
  }

  lemma TargetIsRoot(w: World, target: Target, at: Instant)
    requires target.id.IsAstro() && w.pair(target.id) == target.frame
    ensures ResolveRootFrame(w, target.id, at) == Ok(target.frame) && !NeedsJ2000(target.frame, target.frame)
  {
  }

  lemma UnresolvedRoot(w: World, s: Stamp, position: Vec3)
    requires InKm(w, s.unit, s.position) == position && w.normalize(s.quaternion) == s.quaternion
    ensures Rooted(w, s, None) == (s.frame, Pose(position, s.quaternion))
  {
  }

  /** A row whose translation needs no J2000 rotation. */
  lemma RowTurned<R>(w: World, target: Target, record: Record<R>, rootId: Id, root: Pose, frame: AnchorFrame,
                     translation: Vec3, turn: Matrix, after: Stamp)
    requires Projected(w, target, record.stamp, root, translation, turn, UNROTATED) == after
    requires var s, at := record.stamp, At(w, record.stamp);
             && Rooted(w, s, Dynamic(w, s.frame, at)) == (rootId, root)
             && ResolveRootFrame(w, rootId, at) == Ok(frame) && !NeedsJ2000(frame, target.frame)
             && w.translate(frame, target.frame, at) == Some(translation)
             && w.rotate(frame, target.frame, at) == Some(turn)
    ensures TransformRow(w, target, record) == Ok(Record(after, record.rest))
  {
  }

  lemma ProjectedStays(w: World, target: Target, s: Stamp, local: Pose)
    requires s.frame == target.id && s.unit == target.unit && w.toQuat(UNROTATED) == ONE
    requires s.position == FromKm(w, target.unit, local.p) && s.quaternion == local.q
    requires s.positionCovariance == None && s.orientationCovariance == None
    ensures Projected(w, target, s, local, Vec3(0.0, 0.0, 0.0), UNROTATED, UNROTATED) == s
  {
    Unmoved(local.p);
    IdentityComposes(local);
  }

  lemma ProjectedRowStays<R>(w: World, target: Target, record: Record<R>)
    requires Settled(w, target) && TransformRow(w, target, record).Ok?
    ensures var once := TransformRow(w, target, record).value;
            TransformRow(w, target, once) == Ok(once)
  {
    var once := TransformRow(w, target, record).value;
    ProjectedIsUnit(w, target, record);
    var position :| once.stamp.position == FromKm(w, target.unit, position);
    BackInKm(w, target, position);
    SettledRowStays(w, target, once, position);
  }

  lemma BackInKm(w: World, target: Target, v: Vec3)
    requires Settled(w, target)
    ensures InKm(w, target.unit, FromKm(w, target.unit, v)) == v
  {
  }

  lemma Unmoved(v: Vec3)
    ensures Plus(Apply(UNROTATED, v), Apply(UNROTATED, Vec3(0.0, 0.0, 0.0))) == v
  {
    ApplyUnrotated(v);
    ApplyUnrotated(Vec3(0.0, 0.0, 0.0));
    PlusZero(v);
  }

  lemma PlusZero(v: Vec3)
    ensures Plus(v, Vec3(0.0, 0.0, 0.0)) == v
  {
  }

  /** Projecting a projected batch again changes nothing. */
  lemma {:induction false} ProjectionIsIdempotent<R>(w: World, target: Target, batch: seq<Record<R>>)
    requires Settled(w, target) && TransformRows(w, target, batch).Ok?
    ensures var once := TransformRows(w, target, batch);
            TransformRows(w, target, once.value) == once
  {
    var once := TransformRows(w, target, batch).value;
    RowByRow(w, target, batch);
    RowByRow(w, target, once);
    forall i | 0 <= i < |once|
      ensures TransformRow(w, target, once[i]) == Ok(once[i])
    {
      assert TransformRow(w, target, batch[i]) == Ok(once[i]);
      ProjectedRowStays(w, target, batch[i]);
    }
    var twice := TransformRows(w, target, once).value;
    assert forall i :: 0 <= i < |once| ==> TransformRow(w, target, once[i]) == Ok(twice[i]);
    assert twice == once;
  }

  // ----- the same place -----

  /**
   A physical world: each frame has a pose in it, J2000 axes are its axes, and frames with one center share an origin.
   */
  ghost predicate Places(place: (AnchorFrame, Instant) -> Pose) {
    && (forall f: AnchorFrame, at :: Unit(place(f, at).q) && (f.orientation == J2000 ==> place(f, at).q == ONE))
    && (forall f: AnchorFrame, g: AnchorFrame, at :: f.center == g.center ==> place(f, at).p == place(g, at).p)
  }

  /** The almanac reports that world. Translations are in J2000 axes. */
  ghost predicate Reports(w: World, place: (AnchorFrame, Instant) -> Pose) {
    && Places(place)
    && (forall f, g, at :: w.translate(f, g, at).Some?
                           ==> w.translate(f, g, at).value == Minus(place(f, at).p, place(g, at).p))
    && (forall f, g, at :: w.rotate(f, g, at).Some?
                           ==> Turns(w, w.rotate(f, g, at).value, Mul(Conj(place(g, at).q), place(f, at).q)))
    && (forall q :: Unit(q) ==> w.normalize(q) == q)
    && (forall q :: Unit(w.normalize(q)))
    && (forall id, at :: Dynamic(w, id, at).Some? ==> Unit(Dynamic(w, id, at).value.1.q))
    && (forall unit, x :: w.toKm(unit, w.fromKm(unit, x)) == x)
  }

  /** The matrix, and the quaternion read off it up to its sign, turn vectors as `q` does. */
  ghost predicate Turns(w: World, m: Matrix, q: Quat) {
    Unit(w.toQuat(m)) && forall v :: Apply(m, v) == Rotate(q, v) && Rotate(w.toQuat(m), v) == Rotate(q, v)
  }

  /** A point of the body of a pose given in some unit, in the frame of that pose and in kilometres. */
  function PointOf(w: World, unit: LengthUnit, position: Vec3, orientation: Quat, v: Vec3): Vec3 {
    Plus(Vec3(w.toKm(unit, position.x), w.toKm(unit, position.y), w.toKm(unit, position.z)), Rotate(orientation, v))
  }

  /** Where a point of a row's body is in the world: by the resolver's pose, if it has one, and by the root's. */
  function BodyPoint(w: World, place: (AnchorFrame, Instant) -> Pose, s: Stamp, v: Vec3): Vec3 {
    var at := w.instant(s.scale, s.centuries, s.ns);
    var local := PointOf(w, s.unit, s.position, w.normalize(s.quaternion), v);
    if w.resolve.Some? && w.resolve.value(s.frame, at).Some? then
      var (root, pose) := w.resolve.value(s.frame, at).value;
      OutOf(place(w.pair(root), at), OutOf(pose, local))
    else OutOf(place(w.pair(s.frame), at), local)
  }

  /** And where a point of a projected row's body is. */
  function ProjectedBodyPoint(w: World, place: (AnchorFrame, Instant) -> Pose, frame: AnchorFrame, s: Stamp, v: Vec3)
    : Vec3
  {
    OutOf(place(frame, w.instant(s.scale, s.centuries, s.ns)), PointOf(w, s.unit, s.position, s.quaternion, v))
  }

  /** The pose at the root, placed by the root, puts a row's points there. */
  lemma RootedBodyPoint(w: World, place: (AnchorFrame, Instant) -> Pose, s: Stamp, v: Vec3)
    requires Reports(w, place)
    ensures var (rootId, root) := Rooted(w, s, Dynamic(w, s.frame, At(w, s)));
            OutOf(Compose(place(w.pair(rootId), At(w, s)), root), v) == BodyPoint(w, place, s, v)
  {
    var dynamic := Dynamic(w, s.frame, At(w, s));
    var (rootId, root) := Rooted(w, s, dynamic);
    RootedIsUnit(w, place, s);
    OutOfComposed(place(w.pair(rootId), At(w, s)), root, v);
    if dynamic.Some? {
      OutOfComposed(dynamic.value.1, Pose(InKm(w, s.unit, s.position), w.normalize(s.quaternion)), v);
    }
  }

  /** Both rotations and the translation together: out of the root frame, into the target frame. */
  lemma OffsetIsInto(w: World, place: (AnchorFrame, Instant) -> Pose, f: AnchorFrame,
                                        g: AnchorFrame, at: Instant, v: Vec3, turn: Matrix, j2000: Matrix)
    requires Reports(w, place)
    requires w.rotate(f, g, at) == Some(turn)
    requires if NeedsJ2000(f, g) then w.rotate(J2000Frame(g), g, at) == Some(j2000) else j2000 == UNROTATED
    ensures Plus(Apply(turn, v), Apply(j2000, Minus(place(f, at).p, place(g, at).p)))
         == Into(place(g, at), OutOf(place(f, at), v))
  {
    var a, b := place(f, at), place(g, at);
    var offset := Minus(a.p, b.p);
    ConjIsUnit(b.q);
    assert Turns(w, turn, Mul(Conj(b.q), a.q));
    RotateByProduct(Conj(b.q), a.q, v);
    J2000IsConj(w, place, f, g, at, j2000);
    RotateSum(Conj(b.q), Rotate(a.q, v), offset);
    Shuffle(a.p, b.p, Rotate(a.q, v));
  }

  lemma J2000IsConj(w: World, place: (AnchorFrame, Instant) -> Pose, f: AnchorFrame,
                                       g: AnchorFrame, at: Instant, j2000: Matrix)
    requires Reports(w, place)
    requires if NeedsJ2000(f, g) then w.rotate(J2000Frame(g), g, at) == Some(j2000) else j2000 == UNROTATED
    ensures var offset := Minus(place(f, at).p, place(g, at).p);
            Apply(j2000, offset) == Rotate(Conj(place(g, at).q), offset)
  {
    var q, offset := place(g, at).q, Minus(place(f, at).p, place(g, at).p);
    ApplyUnrotated(offset);
    RotateByOne(offset);
    if NeedsJ2000(f, g) {
      assert Turns(w, j2000, Mul(Conj(q), place(J2000Frame(g), at).q));
      ConjIsUnit(q);
      RotateByProduct(Conj(q), ONE, offset);
    } else if g.orientation == J2000 {
      assert Conj(q) == ONE;
    } else {
      assert offset == Vec3(0.0, 0.0, 0.0);
      RotateNothing(Conj(q));
    }
  }

  lemma ApplyUnrotated(v: Vec3)
    ensures Apply(UNROTATED, v) == v
  {
  }

  lemma RotateNothing(q: Quat)
    ensures Rotate(q, Vec3(0.0, 0.0, 0.0)) == Vec3(0.0, 0.0, 0.0)
  {
  }

  lemma Shuffle(p: Vec3, r: Vec3, v: Vec3)
    ensures Plus(v, Minus(p, r)) == Minus(Plus(p, v), r)
  {
  }

  /** What a projected row's pose is in the world, given the pose `root` it had at the root frame. */
  lemma ProjectedPoint(w: World, place: (AnchorFrame, Instant) -> Pose, f: AnchorFrame,
                                          g: AnchorFrame, at: Instant, unit: LengthUnit, root: Pose,
                                          turn: Matrix, j2000: Matrix, v: Vec3)
    requires Reports(w, place) && Unit(root.q)
    requires w.rotate(f, g, at) == Some(turn)
    requires if NeedsJ2000(f, g) then w.rotate(J2000Frame(g), g, at) == Some(j2000) else j2000 == UNROTATED
    ensures var p := Plus(Apply(turn, root.p), Apply(j2000, Minus(place(f, at).p, place(g, at).p)));
            OutOf(place(g, at), OutOf(Pose(InKm(w, unit, FromKm(w, unit, p)), Mul(w.toQuat(turn), root.q)), v))
            == OutOf(Compose(place(f, at), root), v)
  {
    var a, b := place(f, at), place(g, at);
    var p := Into(b, OutOf(a, root.p));
    OffsetIsInto(w, place, f, g, at, root.p, turn, j2000);
    BackToKm(w, place, unit, p);
    var turned := Rotate(root.q, v);
    assert Turns(w, turn, Mul(Conj(b.q), a.q));
    RotateByProduct(w.toQuat(turn), root.q, v);
    ConjIsUnit(b.q);
    RotateByProduct(Conj(b.q), a.q, turned);
    RotateSum(b.q, p, Rotate(Conj(b.q), Rotate(a.q, turned)));
    RotateBack(b.q, Rotate(a.q, turned));
    OutOfUndoesInto(b, OutOf(a, root.p));
    PlusAssociates(b.p, Rotate(b.q, p), Rotate(a.q, turned));
    OutOfComposed(a, root, v);
    RotateSum(a.q, root.p, turned);
    PlusAssociates(a.p, Rotate(a.q, root.p), Rotate(a.q, turned));
  }

  lemma BackToKm(w: World, place: (AnchorFrame, Instant) -> Pose, unit: LengthUnit, v: Vec3)
    requires Reports(w, place)
    ensures InKm(w, unit, FromKm(w, unit, v)) == v
  {
  }

  lemma RootedIsUnit(w: World, place: (AnchorFrame, Instant) -> Pose, s: Stamp)
    requires Reports(w, place)
    ensures Unit(Rooted(w, s, Dynamic(w, s.frame, At(w, s))).1.q)
  {
    var dynamic := Dynamic(w, s.frame, At(w, s));
    if dynamic.Some? {
      MulIsUnit(dynamic.value.1.q, w.normalize(s.quaternion));
    }
  }

  /** A projected row's pose in the target frame, in kilometres. */
  function PoseOf(w: World, s: Stamp): Pose {
    Pose(InKm(w, s.unit, s.position), s.quaternion)
  }

  /** An accurate almanac moves nothing: each point fixed to a projected row's body is where it was. */
  lemma {:induction false} ProjectionKeepsEveryPoint<R>(w: World, place: (AnchorFrame, Instant) -> Pose, target: Target,
                                                        record: Record<R>, v: Vec3)
    requires Reports(w, place)
    ensures var row := TransformRow(w, target, record);
            row.Ok? ==> ProjectedBodyPoint(w, place, target.frame, row.value.stamp, v)
                        == BodyPoint(w, place, record.stamp, v)
                        && Unit(row.value.stamp.quaternion)
  {
    if TransformRow(w, target, record).Ok? {
      var s, at := record.stamp, At(w, record.stamp);
      var (rootId, root) := Rooted(w, s, Dynamic(w, s.frame, at));
      var f := w.pair(rootId);
      var turn := w.rotate(f, target.frame, at).value;
      var j2000 := if NeedsJ2000(f, target.frame) then w.rotate(J2000Frame(target.frame), target.frame, at).value
                   else UNROTATED;
      RootedIsUnit(w, place, s);
      RootedBodyPoint(w, place, s, v);
      ProjectedPoint(w, place, f, target.frame, at, target.unit, root, turn, j2000, v);
      assert Turns(w, turn, Mul(Conj(place(target.frame, at).q), place(f, at).q));
      MulIsUnit(w.toQuat(turn), root.q);
    }
  }

  /** A unit row in an astronomical frame that nothing resolves is where a projected row would be. */
  lemma AnchoredBodyPoint(w: World, place: (AnchorFrame, Instant) -> Pose, frame: AnchorFrame, s: Stamp, v: Vec3)
    requires Reports(w, place) && Unit(s.quaternion) && w.pair(s.frame) == frame
    requires Dynamic(w, s.frame, At(w, s)) == None
    ensures BodyPoint(w, place, s, v) == ProjectedBodyPoint(w, place, frame, s, v)
  {
  }

  /** Projected rows whose points are at the same places have the same points. */
  lemma SamePoint(w: World, place: (AnchorFrame, Instant) -> Pose, frame: AnchorFrame, a: Stamp, b: Stamp, v: Vec3)
    requires Reports(w, place) && At(w, a) == At(w, b)
    requires ProjectedBodyPoint(w, place, frame, a, v) == ProjectedBodyPoint(w, place, frame, b, v)
    ensures OutOf(PoseOf(w, a), v) == OutOf(PoseOf(w, b), v)
  {
    IntoUndoesOutOf(place(frame, At(w, a)), OutOf(PoseOf(w, a), v));
    IntoUndoesOutOf(place(frame, At(w, a)), OutOf(PoseOf(w, b), v));
  }

  /** Projecting by way of another astronomical frame puts each point where projecting directly does. */
  lemma {:induction false} ProjectionsCompose<R>(w: World, place: (AnchorFrame, Instant) -> Pose, via: Target,
                                                 target: Target, record: Record<R>, v: Vec3)
    requires Reports(w, place)
    requires via.id.IsAstro() && w.pair(via.id) == via.frame && forall at :: Dynamic(w, via.id, at) == None
    ensures var (direct, once) := (TransformRow(w, target, record), TransformRow(w, via, record));
            direct.Ok? && once.Ok?
            ==> var twice := TransformRow(w, target, once.value);
                twice.Ok? ==> OutOf(PoseOf(w, twice.value.stamp), v) == OutOf(PoseOf(w, direct.value.stamp), v)
  {
    var (direct, once) := (TransformRow(w, target, record), TransformRow(w, via, record));
    if direct.Ok? && once.Ok? && TransformRow(w, target, once.value).Ok? {
      var twice := TransformRow(w, target, once.value);
      ProjectionKeepsEveryPoint(w, place, via, record, v);
      ProjectionKeepsEveryPoint(w, place, target, record, v);
      ProjectionKeepsEveryPoint(w, place, target, once.value, v);
      FrameAndTime(w, via, record);
      FrameAndTime(w, target, record);
      FrameAndTime(w, target, once.value);
      ByWayOf(w, place, via.frame, target.frame, record.stamp, once.value.stamp, twice.value.stamp,
              direct.value.stamp, v);
    }
  }

  lemma FrameAndTime<R>(w: World, target: Target, record: Record<R>)
    requires TransformRow(w, target, record).Ok?
    ensures var after := TransformRow(w, target, record).value.stamp;
            after.frame == target.id && At(w, after) == At(w, record.stamp)
  {
  }

  lemma ByWayOf(w: World, place: (AnchorFrame, Instant) -> Pose, via: AnchorFrame, target: AnchorFrame,
                before: Stamp, once: Stamp, twice: Stamp, direct: Stamp, v: Vec3)
    requires Reports(w, place) && Unit(once.quaternion) && w.pair(once.frame) == via
    requires At(w, once) == At(w, before) && At(w, twice) == At(w, direct)
    requires Dynamic(w, once.frame, At(w, once)) == None
    requires ProjectedBodyPoint(w, place, via, once, v) == BodyPoint(w, place, before, v)
    requires ProjectedBodyPoint(w, place, target, direct, v) == BodyPoint(w, place, before, v)
    requires ProjectedBodyPoint(w, place, target, twice, v) == BodyPoint(w, place, once, v)
    ensures OutOf(PoseOf(w, twice), v) == OutOf(PoseOf(w, direct), v)
  {
    AnchoredBodyPoint(w, place, via, once, v);
    SamePoint(w, place, target, twice, direct, v);
  }

  // ----- every world can be reported -----

  /** The matrix of a rotation: its columns are the turned axes. */
  function MatrixOf(q: Quat): Matrix {
    var (x, y, z) := (Rotate(q, Vec3(1.0, 0.0, 0.0)), Rotate(q, Vec3(0.0, 1.0, 0.0)), Rotate(q, Vec3(0.0, 0.0, 1.0)));
    Columns(x, y, z)
  }

  function Columns(x: Vec3, y: Vec3, z: Vec3): Matrix {
    Matrix(Vec3(x.x, y.x, z.x), Vec3(x.y, y.y, z.y), Vec3(x.z, y.z, z.z))
  }

  lemma ApplyColumns(x: Vec3, y: Vec3, z: Vec3, v: Vec3)
    ensures Apply(Columns(x, y, z), v) == Plus(Plus(Scale(v.x, x), Scale(v.y, y)), Scale(v.z, z))
  {
  }

  lemma MatrixTurns(q: Quat, v: Vec3)
    ensures Apply(MatrixOf(q), v) == Rotate(q, v)
  {
    var (x, y, z) := (Vec3(1.0, 0.0, 0.0), Vec3(0.0, 1.0, 0.0), Vec3(0.0, 0.0, 1.0));
    AlongAxes(v);
    RotateScale(v.x, q, x);
    RotateScale(v.y, q, y);
    RotateScale(v.z, q, z);
    RotateSum(q, Scale(v.x, x), Scale(v.y, y));
    RotateSum(q, Plus(Scale(v.x, x), Scale(v.y, y)), Scale(v.z, z));
    ApplyColumns(Rotate(q, x), Rotate(q, y), Rotate(q, z), v);
  }

  lemma AlongAxes(v: Vec3)
    ensures v == Plus(Plus(Scale(v.x, Vec3(1.0, 0.0, 0.0)), Scale(v.y, Vec3(0.0, 1.0, 0.0))),
            Scale(v.z, Vec3(0.0, 0.0, 1.0)))
  {
  }

  ghost predicate IsQuatOf(q: Quat, m: Matrix) {
    Unit(q) && MatrixOf(q) == m
  }

  /** A quaternion read off a rotation's matrix, whichever of the two it is. */
  ghost function QuatOf(m: Matrix): Quat {
    if m == UNROTATED then ONE
    else if q :| IsQuatOf(q, m) then q
    else ONE
  }

  /** Of the many ways to make a quaternion unit, one that leaves unit quaternions alone. */
  function Normalized(q: Quat): Quat {
    if Unit(q) then q else ONE
  }

  lemma NormalizedIsUnit(q: Quat)
    ensures Unit(Normalized(q)) && Unit(ONE)
  {
  }

  /** The almanac of a world, with nothing posed by a ledger. */
  ghost function Almanac(place: (AnchorFrame, Instant) -> Pose): World {
    World((scale: TimeScale, centuries: int, ns: nat) => 0, None, (id: Id) => AnchorFrame(id.head, id.tail),
          (f: AnchorFrame, g: AnchorFrame, at: Instant) => Some(Minus(place(f, at).p, place(g, at).p)),
          (f: AnchorFrame, g: AnchorFrame, at: Instant) => Some(MatrixOf(Mul(Conj(place(g, at).q), place(f, at).q))),
          (m: Matrix) => QuatOf(m), Normalized,
          (unit: LengthUnit, x: real) => x, (unit: LengthUnit, x: real) => x)
  }

  lemma MatrixOfTurns(w: World, q: Quat)
    requires Unit(q) && w.toQuat(MatrixOf(q)) == QuatOf(MatrixOf(q))
    ensures Turns(w, MatrixOf(q), q)
  {
    var m := MatrixOf(q);
    ReadOff(q, m);
    forall v
      ensures Apply(m, v) == Rotate(q, v) && Rotate(QuatOf(m), v) == Rotate(q, v)
    {
      MatrixTurns(q, v);
      MatrixTurns(QuatOf(m), v);
    }
  }

  lemma ReadOff(q: Quat, m: Matrix)
    requires IsQuatOf(q, m)
    ensures IsQuatOf(QuatOf(m), m)
  {
    UnturnedMatrix();
  }

  /** Whatever the world, turned frames included, its almanac reports it. */
  lemma EveryWorldIsReported(place: (AnchorFrame, Instant) -> Pose)
    requires Places(place)
    ensures Reports(Almanac(place), place)
  {
    var w := Almanac(place);
    forall q
      ensures Unit(w.normalize(q)) && (Unit(q) ==> w.normalize(q) == q)
    {
      NormalizedIsUnit(q);
    }
    forall f, g, at | w.rotate(f, g, at).Some?
      ensures Turns(w, w.rotate(f, g, at).value, Mul(Conj(place(g, at).q), place(f, at).q))
    {
      ConjIsUnit(place(g, at).q);
      MulIsUnit(Conj(place(g, at).q), place(f, at).q);
      MatrixOfTurns(w, Mul(Conj(place(g, at).q), place(f, at).q));
    }
  }

  /** And it leaves every astronomical target in place, which is what projecting twice relies on. */
  lemma EveryWorldIsSettled(place: (AnchorFrame, Instant) -> Pose, target: Target)
    requires Places(place) && target.id.IsAstro() && Almanac(place).pair(target.id) == target.frame
    ensures Settled(Almanac(place), target)
  {
    var w := Almanac(place);
    forall q
      ensures Unit(w.normalize(q)) && (Unit(q) ==> w.normalize(q) == q)
    {
      NormalizedIsUnit(q);
    }
    forall m
      ensures Unit(w.toQuat(m))
    {
      QuatOfIsUnit(m);
    }
    forall at: Instant
      ensures w.rotate(target.frame, target.frame, at) == Some(UNROTATED)
      ensures w.translate(target.frame, target.frame, at) == Some(Vec3(0.0, 0.0, 0.0))
    {
      FrameToItself(place, target.frame, at);
    }
    UnturnedQuat();
  }

  lemma FrameToItself(place: (AnchorFrame, Instant) -> Pose, f: AnchorFrame, at: Instant)
    requires Places(place)
    ensures Almanac(place).rotate(f, f, at) == Some(UNROTATED)
    ensures Almanac(place).translate(f, f, at) == Some(Vec3(0.0, 0.0, 0.0))
  {
    UnturnedFrame(place(f, at).q);
    UnturnedMatrix();
    AlmanacReports(place, f, f, at);
    NothingBetween(place(f, at).p);
  }

  lemma AlmanacReports(place: (AnchorFrame, Instant) -> Pose, f: AnchorFrame, g: AnchorFrame, at: Instant)
    ensures Almanac(place).rotate(f, g, at) == Some(MatrixOf(Mul(Conj(place(g, at).q), place(f, at).q)))
    ensures Almanac(place).translate(f, g, at) == Some(Minus(place(f, at).p, place(g, at).p))
  {
  }

  lemma NothingBetween(p: Vec3)
    ensures Minus(p, p) == Vec3(0.0, 0.0, 0.0)
  {
  }

  lemma UnturnedQuat()
    ensures QuatOf(UNROTATED) == ONE
  {
  }

  lemma UnturnedFrame(q: Quat)
    requires Unit(q)
    ensures Mul(Conj(q), q) == ONE
  {
    ConjInverts(q);
  }

  lemma QuatOfIsUnit(m: Matrix)
    ensures Unit(QuatOf(m))
  {
    assert Unit(ONE);
  }

  lemma UnturnedMatrix()
    ensures MatrixOf(ONE) == UNROTATED
  {
    RotateByOne(Vec3(1.0, 0.0, 0.0));
    RotateByOne(Vec3(0.0, 1.0, 0.0));
    RotateByOne(Vec3(0.0, 0.0, 1.0));
  }

  const SPUN := Quat(0.6, 0.0, 0.0, 0.8)

  /** A world: centers stand along one axis, and frames with axes of their own are spun about another. */
  function Stands(f: AnchorFrame, at: Instant): Pose {
    Pose(Vec3(f.center as real, 0.0, 0.0), if f.orientation == J2000 then ONE else SPUN)
  }

  /** It is one, and in it frames do turn and stand apart. */
  lemma StandsIsAWorld()
    ensures Places(Stands)
    ensures Rotate(SPUN, Vec3(1.0, 0.0, 0.0)) != Vec3(1.0, 0.0, 0.0)
    ensures forall f: AnchorFrame, g: AnchorFrame, at :: f.center != g.center ==> Stands(f, at).p != Stands(g, at).p
  {
    NormalizedIsUnit(ONE);
    assert Unit(SPUN);
  }
}
