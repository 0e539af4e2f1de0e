/** Projecting a batch with a ledger's own chains as the resolver. */
module LedgerTransform {
  import opened Prelude
  import opened Identity
  import opened Rows
  import opened Quaternions
  import opened Segments
  import opened Topology
  import opened Ingest
  import opened StableSort
  import opened FrameGraph
  import opened CycleCheck
  import opened Runs
  import opened Ancestry
  import FrameChains
  import opened LedgerModel
  import opened PresentResolution
  import opened Window
  import opened LedgerAnswers
  import opened TransformBatches

  /** `resolve_to_root`: the root and pose of an entity frame, or nothing where it does not resolve. */
  function RootOf(s: LedgerState, frame: Id, at: Instant): Option<Resolved> {
    var answer := FrameChains.ResolveToRoot(s.tree, PresentLookups(s, at), frame, at);
    if answer.Ok? && answer.value.Some? then Some((answer.value.value.root, answer.value.value.pose)) else None
  }

  function WithLedger(s: LedgerState, w: World): World {
    w.(resolve := Some((frame: Id, at: Instant) => RootOf(s, frame, at)))
  }

  function WithoutLedger(w: World): World {
    w.(resolve := None)
  }

  predicate ReferencesEntityFrames<R>(batch: seq<Record<R>>) {
    exists i :: 0 <= i < |batch| && batch[i].stamp.frame.IsSoloc()
  }

  /** The resolver is only paid for when some row is in an entity's frame. */
  function Transform<R>(s: LedgerState, w: World, target: Target, batch: seq<Record<R>>)
    : Result<seq<Record<R>>, Fault>
  {
    if ReferencesEntityFrames(batch) then TransformRows(WithLedger(s, w), target, batch)
    else TransformRows(WithoutLedger(w), target, batch)
  }

  /**
   Skipping the resolver would show in a row: its frame is a posed entity whose id is neither soloc nor astronomical,
   and whose chain ends somewhere else.
   */
  predicate SkippingShows(s: LedgerState, frame: Id, at: Instant) {
    && !frame.IsSoloc() && !frame.IsAstro()
    && RootOf(s, frame, at).Some? && RootOf(s, frame, at).value.0 != frame
  }

  lemma AstroHasNoRoot(s: LedgerState, frame: Id, at: Instant)
    requires frame.IsAstro()
    ensures RootOf(s, frame, at) == None
  {
  }

  /** Skipping the resolver changes nothing, provided it would show in no row. */
  lemma {:induction false} SkippingTheResolverIsSafe<R>(s: LedgerState, w: World, target: Target, batch: seq<Record<R>>)
    requires forall i :: 0 <= i < |batch| ==> !SkippingShows(s, batch[i].stamp.frame, At(w, batch[i].stamp))
    ensures Transform(s, w, target, batch) == TransformRows(WithLedger(s, w), target, batch)
  {
    if !ReferencesEntityFrames(batch) {
      SameWithoutLedger(s, w, target, batch);
    }
  }

  lemma {:induction false} SameWithoutLedger<R>(s: LedgerState, w: World, target: Target, batch: seq<Record<R>>)
    requires forall i :: 0 <= i < |batch| ==> !batch[i].stamp.frame.IsSoloc()
    requires forall i :: 0 <= i < |batch| ==> !SkippingShows(s, batch[i].stamp.frame, At(w, batch[i].stamp))
    ensures TransformRows(WithoutLedger(w), target, batch) == TransformRows(WithLedger(s, w), target, batch)
  {
    if batch != [] {
      var front, last := batch[..|batch| - 1], batch[|batch| - 1];
      SameWithoutLedger(s, w, target, front);
      SameUnlessShown(s, w, target, last);
    }
  }

  /**
   A row in no soloc frame is projected alike with and without the resolver exactly when skipping it does not show.
   */
  lemma SameUnlessShown<R>(s: LedgerState, w: World, target: Target, record: Record<R>)
    requires !record.stamp.frame.IsSoloc()
    ensures TransformRow(WithoutLedger(w), target, record) == TransformRow(WithLedger(s, w), target, record)
       <==> !SkippingShows(s, record.stamp.frame, At(w, record.stamp))
  {
    var frame, at := record.stamp.frame, At(w, record.stamp);
    if frame.IsAstro() {
      AstroHasNoRoot(s, frame, at);
    } else {
      assert TransformRow(WithoutLedger(w), target, record) == Err(NeverAFrame(frame));
    }
  }

  /**
   Exactly when a batch of any length is projected: its chains place every row, and it has a row in a soloc frame, or
   none in which skipping shows. What comes out is then what the chains call for.
   */
  lemma {:induction false} ProjectedUnlessSkippingShows<R>(s: LedgerState, w: World, target: Target,
                                                           batch: seq<Record<R>>)
    ensures Transform(s, w, target, batch).Ok?
       <==> TransformRows(WithLedger(s, w), target, batch).Ok?
            && (ReferencesEntityFrames(batch)
                || forall i :: 0 <= i < |batch| ==> !SkippingShows(s, batch[i].stamp.frame, At(w, batch[i].stamp)))
    ensures Transform(s, w, target, batch).Ok?
            ==> Transform(s, w, target, batch) == TransformRows(WithLedger(s, w), target, batch)
  {
    if !ReferencesEntityFrames(batch) {
      FailsIffSomeRowFails(WithoutLedger(w), target, batch);
      FailsIffSomeRowFails(WithLedger(s, w), target, batch);
      if i :| 0 <= i < |batch| && SkippingShows(s, batch[i].stamp.frame, At(w, batch[i].stamp)) {
        assert TransformRow(WithoutLedger(w), target, batch[i]) == Err(NeverAFrame(batch[i].stamp.frame));
      } else {
        SkippingTheResolverIsSafe(s, w, target, batch);
      }
    }
  }

  /** So a batch of one row comes out differently exactly when skipping shows in it. */
  lemma SkippingShowsInOneRow<R>(s: LedgerState, w: World, target: Target, record: Record<R>)
    ensures Transform(s, w, target, [record]) == TransformRows(WithLedger(s, w), target, [record])
       <==> !SkippingShows(s, record.stamp.frame, At(w, record.stamp))
  {
    OneRowBatch(WithLedger(s, w), target, record);
    OneRowBatch(WithoutLedger(w), target, record);
    if record.stamp.frame.IsSoloc() {
      assert [record][0].stamp.frame.IsSoloc();
    } else {
      assert !ReferencesEntityFrames([record]);
      SameUnlessShown(s, w, target, record);
    }
  }

  /**
   A ledger that holds one pose of an entity of unknown kind refuses a row in that entity's frame, though its chain
   would have placed it.
   */
  lemma UnknownKindIsRefused<R>(size: Sizer, bytes: nat, entity: Id, anchor: Id, target: Target, record: Record<R>)
    requires !entity.IsSoloc() && !entity.IsAstro() && !entity.IsAbstract() && anchor.IsAstro()
    requires record.stamp.frame == entity
    ensures var s := Run(size, [Append([Row(entity, anchor, 0, MEASURED, IDENTITY)], bytes)]);
            && Transform(s, Almanac(Stands), target, [record]) == Err(NeverAFrame(entity))
            && TransformRows(WithLedger(s, Almanac(Stands)), target, [record]).Ok?
  {
    var ops := [Append([Row(entity, anchor, 0, MEASURED, IDENTITY)], bytes)];
    var s := Run(size, ops);
    OneAppend(ops, Row(entity, anchor, 0, MEASURED, IDENTITY));
    OnePoseHasRoot(size, ops, Row(entity, anchor, 0, MEASURED, IDENTITY));
    RefusedThoughPlaced(s, target, record, anchor);
  }

  lemma RefusedThoughPlaced<R>(s: LedgerState, target: Target, record: Record<R>, anchor: Id)
    requires !record.stamp.frame.IsSoloc() && !record.stamp.frame.IsAstro() && anchor.IsAstro()
    requires RootOf(s, record.stamp.frame, 0).Some? && RootOf(s, record.stamp.frame, 0).value.0 == anchor
    ensures Transform(s, Almanac(Stands), target, [record]) == Err(NeverAFrame(record.stamp.frame))
    ensures TransformRows(WithLedger(s, Almanac(Stands)), target, [record]).Ok?
  {
    StandsProjects(s, target, record, anchor);
    OneRowBatch(WithLedger(s, Almanac(Stands)), target, record);
    OneRowBatch(WithoutLedger(Almanac(Stands)), target, record);
  }

  lemma OneRowBatch<R>(w: World, target: Target, record: Record<R>)
    ensures var row := TransformRow(w, target, record);
            TransformRows(w, target, [record]) == if row.Ok? then Ok([row.value]) else Err(row.error)
  {
    var none: seq<Record<R>> := [];
    assert none + [record] == [record];
    TransformSnoc(w, target, none, record);
    var row := TransformRow(w, target, record);
    assert row.Ok? ==> none + [row.value] == [row.value];
  }

  lemma OnePoseHasRoot(size: Sizer, ops: seq<Op>, row: Row)
    requires EntityOrdered(History(ops)) && AppendedRows(ops) == [row]
    requires !row.id.IsAstro() && row.frame.IsAstro()
    ensures var root := RootOf(Run(size, ops), row.id, row.epoch);
            root.Some? && root.value.0 == row.frame
  {
    OnlyRow(row);
    RunTree(size, ops);
    var chain, resolved := PresentResolutionIsTotal(size, ops, row.id, row.epoch);
    LoneEdge(size, ops, row);
    ChainToAnchor(Run(size, ops).tree, row.id, row.frame, row.epoch, chain);
  }

  lemma OnlyRow(row: Row)
    ensures row.id in IdsOf([row]) && forall r :: r in [row] ==> r.epoch <= row.epoch
  {
    assert row in [row];
  }

  lemma LoneEdge(size: Sizer, ops: seq<Op>, row: Row)
    requires EntityOrdered(History(ops)) && AppendedRows(ops) == [row]
    ensures Run(size, ops).tree.latest == map[row.id := Edge(row.frame, row.epoch)]
  {
    RunTree(size, ops);
    OneEdge(row);
  }

  lemma ChainToAnchor(tree: Tree, entity: Id, anchor: Id, epoch: Epoch, chain: seq<Id>)
    requires IsChain(tree, epoch, chain) && chain[0] == entity && anchor.IsAstro()
    requires entity in tree.latest && tree.latest[entity] == Edge(anchor, epoch)
    ensures chain == [entity, anchor]
  {
    assert ParentAt(tree, chain[0], epoch) == Some(chain[1]);
    assert |chain| > 2 ==> IsHop(tree, chain[1]);
  }

  lemma StandsProjects<R>(s: LedgerState, target: Target, record: Record<R>, anchor: Id)
    requires anchor.IsAstro() && RootOf(s, record.stamp.frame, 0).Some?
    requires RootOf(s, record.stamp.frame, 0).value.0 == anchor
    ensures TransformRow(WithLedger(s, Almanac(Stands)), target, record).Ok?
  {
  }

  lemma OneEdge(row: Row)
    ensures AdvanceAll(map[], NaiveEvents(map[], [row])) == map[row.id := Edge(row.frame, row.epoch)]
  {
    SortedStays([row]);
    assert [row][..0] == [];
    assert Changes(map[], [row]) == [EventOf(row)];
    assert [EventOf(row)][..0] == [];
  }

  lemma OneAppend(ops: seq<Op>, row: Row)
    requires |ops| == 1 && ops[0].Append? && ops[0].rows == [row] && !row.id.IsAbstract() && row.frame.IsAstro()
    ensures EntityOrdered(History(ops)) && AppendedRows(ops) == [row]
  {
    OneRowAccepted(row);
    HistoryIsNoLonger(ops);
    NothingYet(ops[..0]);
    AppendedRowsGrow(ops);
  }

  lemma {:induction false} HistoryIsNoLonger(ops: seq<Op>)
    ensures |History(ops)| <= |ops|
  {
    if ops != [] {
      HistoryIsNoLonger(ops[..|ops| - 1]);
    }
  }

  lemma NothingYet(ops: seq<Op>)
    requires ops == []
    ensures AppendedRows(ops) == [] && HistoryTree(ops) == EMPTY_TREE
  {
  }

  lemma OneRowAccepted(row: Row)
    requires !row.id.IsAbstract() && row.frame.IsAstro()
    ensures Accepted(map[], [row])
  {
    OneRow(map[], row);
    OneStaged(EventOf(row));
    AnchoredIsAcyclic(CheckedGraph(map[], [EventOf(row)]));
  }

  lemma OneStaged(event: Event)
    ensures Staged([event]) == map[event.child := Edge(event.parent, event.epoch)]
  {
    assert [event][..0] == [];
    assert Staged([event]) == Staged([])[event.child := Edge(event.parent, event.epoch)];
  }

  // ----- the resolver's poses -----

  lemma RootsAreUnit(size: Sizer, ops: seq<Op>, frame: Id, at: Instant)
    requires UnitRows(AppendedRows(ops))
    ensures RootOf(Run(size, ops), frame, at).Some? ==> Unit(RootOf(Run(size, ops), frame, at).value.1.q)
  {
    var s := Run(size, ops);
    if RootOf(s, frame, at).Some? {
      LookupsAreUnit(size, ops, at);
      FrameChains.ChainIsUnit(PresentLookups(s, at), AncestryAt(s.tree, frame, at).value);
    }
  }

  /**
   End to end: on every reachable ledger, with an almanac that reports a physical world, a projected row puts each point
   of its body where the ledger's own chain of poses, hung from its astronomical root, puts it.
   */
  lemma {:induction false} LedgerProjectionKeepsEveryPoint<R>(size: Sizer, ops: seq<Op>, w: World,
                                                              place: (AnchorFrame, Instant) -> Pose,
                                                              target: Target, record: Record<R>, v: Vec3)
    requires UnitRows(AppendedRows(ops)) && Reports(WithoutLedger(w), place)
    ensures var world := WithLedger(Run(size, ops), w);
            var row := TransformRow(world, target, record);
            var at := w.instant(record.stamp.scale, record.stamp.centuries, record.stamp.ns);
            var root := RootOf(Run(size, ops), record.stamp.frame, at);
            var local := PointOf(w, record.stamp.unit, record.stamp.position, w.normalize(record.stamp.quaternion), v);
            row.Ok? ==> ProjectedBodyPoint(w, place, target.frame, row.value.stamp, v)
                        == if root.Some? then OutOf(place(w.pair(root.value.0), at), OutOf(root.value.1, local))
                           else OutOf(place(w.pair(record.stamp.frame), at), local)
  {
    var world := WithLedger(Run(size, ops), w);
    forall id, at: Instant | Dynamic(world, id, at).Some?
      ensures Unit(Dynamic(world, id, at).value.1.q)
    {
      RootsAreUnit(size, ops, id, at);
    }
    ReportsWithLedger(world, w, place);
    ProjectionKeepsEveryPoint(world, place, target, record, v);
  }

  lemma ReportsWithLedger(world: World, w: World, place: (AnchorFrame, Instant) -> Pose)
    requires Reports(WithoutLedger(w), place) && world == w.(resolve := world.resolve)
    requires forall id, at :: Dynamic(world, id, at).Some? ==> Unit(Dynamic(world, id, at).value.1.q)
    ensures Reports(world, place)
  {
    forall f, g, at | world.rotate(f, g, at).Some?
      ensures Turns(world, world.rotate(f, g, at).value, Mul(Conj(place(g, at).q), place(f, at).q))
    {
      assert Turns(WithoutLedger(w), w.rotate(f, g, at).value, Mul(Conj(place(g, at).q), place(f, at).q));
    }
  }
}
