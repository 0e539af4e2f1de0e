/** What rows that go back in time cost a ledger: a window with gaps, and stored batches that do not reload. */
module Backfills {
  import opened Prelude
  import opened Identity
  import opened Rows
  import opened Quaternions
  import opened FrameGraph
  import opened Segments
  import opened Topology
  import opened Ingest
  import opened CycleCheck
  import opened Runs
  import opened Poses
  import opened LedgerModel
  import opened Storage
  import opened LedgerRuns
  import opened Ledgers

  // ----- the window -----

  /** Every appended row strictly after the window's start is stored as often as appended. */
  ghost predicate HoldsWindow(s: LedgerState, all: seq<Row>) {
    WindowStart(s).Some? ==> forall row: Row :: WindowStart(s).value < row.epoch ==> HasAll(s, all, row)
  }

  ghost predicate HasAll(s: LedgerState, all: seq<Row>, row: Row) {
    multiset(StoredRows(s))[row] == multiset(all)[row]
  }

  /** The row is among those that evicting the oldest segment looks through, and is not its entity's latest. */
  ghost predicate Dropped(s: LedgerState, row: Row)
    requires s.segments != []
  {
    (row in PinnedRows(s) || row in s.segments[Oldest(s.segments)].rows) && !AtLatest(s.poses, row)
  }

  /** What eviction takes: every copy of a dropped row that is pinned or in the victim, and nothing else. */
  lemma EvictionTakes(size: Sizer, s: LedgerState, row: Row)
    requires Sound(s) && s.segments != []
    ensures var taken := multiset(PinnedRows(s))[row] + multiset(s.segments[Oldest(s.segments)].rows)[row];
            multiset(StoredRows(s))[row]
            == multiset(StoredRows(Evicted(size, s)))[row] + (if AtLatest(s.poses, row) then 0 else taken)
  {
    var idx, after := Oldest(s.segments), Evicted(size, s);
    var victim := s.segments[idx].rows;
    Removing(s.segments, idx);
    PinnedAfterIsFiltered(s, idx);
    CountKept(s.poses, PinnedRows(s) + victim, row);
    CountKept(s.poses, victim, row);
    var low, high := RowsIn(s.segments[..idx]), RowsIn(s.segments[idx + 1..]);
    assert PinnedRows(after) == PinnedAfter(s, idx);
    assert StoredRows(s) == PinnedRows(s) + (low + victim + high + RowsIn(s.tail));
    assert StoredRows(after) == PinnedAfter(s, idx) + (low + high + RowsIn(s.tail));
  }

  /** The window never starts earlier for an eviction. */
  lemma WindowOnlyShrinks(size: Sizer, s: LedgerState)
    requires Sound(s) && s.segments != [] && WindowStart(Evicted(size, s)).Some?
    ensures WindowStart(s).Some? && WindowStart(s).value <= WindowStart(Evicted(size, s)).value
  {
    var idx, after := Oldest(s.segments), Evicted(size, s);
    EvictionKeepsSound(size, s);
    WindowStartIsOldest(s);
    WindowStartIsOldest(after);
    Removing(s.segments, idx);
    MinIsLeast(Unpinned(s));
    MinIsLeast(Unpinned(after));
    var r :| r in Unpinned(after) && r.epoch == MinEpoch(Unpinned(after));
    assert r in Unpinned(s);
  }

  /** Eviction keeps a ledger holding its window exactly when no dropped row is after the start that it leaves. */
  lemma WindowHeldUnlessDroppedInside(size: Sizer, s: LedgerState, all: seq<Row>)
    requires Sound(s) && s.segments != [] && HoldsWindow(s, all) && WindowStart(Evicted(size, s)).Some?
    ensures HoldsWindow(Evicted(size, s), all)
       <==> forall row :: Dropped(s, row) ==> row.epoch <= WindowStart(Evicted(size, s)).value
  {
    var after := Evicted(size, s);
    WindowOnlyShrinks(size, s);
    if row :| Dropped(s, row) && WindowStart(after).value < row.epoch {
      KeptUnlessDropped(size, s, all, row);
    } else {
      forall row: Row | WindowStart(after).value < row.epoch
        ensures HasAll(after, all, row)
      {
        KeptUnlessDropped(size, s, all, row);
      }
    }
  }

  lemma KeptUnlessDropped(size: Sizer, s: LedgerState, all: seq<Row>, row: Row)
    requires Sound(s) && s.segments != [] && HasAll(s, all, row)
    ensures HasAll(Evicted(size, s), all, row) <==> !Dropped(s, row)
  {
    EvictionTakes(size, s, row);
  }

  /** An append keeps a ledger holding its window exactly when no new row is older than a lost one. */
  lemma WindowHeldUnlessBackfilled(s: LedgerState, all: seq<Row>, tree: Tree, rows: seq<Row>, bytes: nat)
    requires Sound(s) && HoldsWindow(s, all)
    ensures HoldsWindow(Grown(s, tree, rows, bytes), all + rows)
       <==> forall lost: Row, r: Row :: !HasAll(s, all, lost) && r in rows ==> lost.epoch <= r.epoch
  {
    var grown := Grown(s, tree, rows, bytes);
    GrownStart(s, tree, rows, bytes);
    MinIsLeast(rows);
    if lost: Row, r: Row :| !HasAll(s, all, lost) && r in rows && r.epoch < lost.epoch {
      GrownHasAll(s, all, tree, rows, bytes, lost);
    } else {
      forall row: Row | WindowStart(grown).Some? && WindowStart(grown).value < row.epoch
        ensures HasAll(grown, all + rows, row)
      {
        GrownHasAll(s, all, tree, rows, bytes, row);
      }
    }
  }

  lemma GrownStart(s: LedgerState, tree: Tree, rows: seq<Row>, bytes: nat)
    requires Sound(s)
    ensures WindowStart(Grown(s, tree, rows, bytes)) == Earlier(WindowStart(s), OldestRow(rows))
  {
    GrownRows(s, tree, rows, bytes);
    GrownIsSound(s, tree, rows, bytes);
    WindowStartIsOldest(s);
    WindowStartIsOldest(Grown(s, tree, rows, bytes));
    OldestOfBoth(Unpinned(s), rows);
  }

  lemma GrownHasAll(s: LedgerState, all: seq<Row>, tree: Tree, rows: seq<Row>, bytes: nat, row: Row)
    ensures HasAll(Grown(s, tree, rows, bytes), all + rows, row) <==> HasAll(s, all, row)
  {
    GrownRows(s, tree, rows, bytes);
  }

  // ----- a run with a gap in its window -----

  ghost predicate Anchored(latest: Latest) {
    forall child :: child in latest ==> latest[child].parent.IsAstro()
  }

  /** A row in an astronomical frame is accepted where all parents are astronomical, and keeps them so. */
  lemma AnchoredAccepts(latest: Latest, row: Row)
    requires Anchored(latest) && !row.id.IsAbstract() && row.frame.IsAstro()
    ensures Accepted(latest, [row]) && Anchored(AdvanceAll(latest, NaiveEvents(latest, [row])))
  {
    var events := NaiveEvents(latest, [row]);
    NaiveEventsAreRows(latest, [row]);
    assert FirstAbstract([row][..0]).None?;
    forall child
      ensures child in Staged(events) ==> Staged(events)[child].parent.IsAstro()
      ensures child in AdvanceAll(latest, events) ==> AdvanceAll(latest, events)[child].parent.IsAstro()
    {
      CommittedEdge(latest, events, child);
      assert child in AdvanceAll(latest, events) ==> Lookup(AdvanceAll(latest, events), child).Some?;
    }
    AnchoredIsAcyclic(CheckedGraph(latest, events));
  }

  lemma RunOneMore(size: Sizer, ops: seq<Op>, op: Op)
    ensures Run(size, ops + [op]) == Step(size, Run(size, ops), op)
    ensures HistoryTree(ops + [op])
         == if op.Append? then Ingested(HistoryTree(ops), op.rows) else HistoryTree(ops)
    ensures AppendedRows(ops + [op])
         == if op.Append? && Accepted(HistoryTree(ops).latest, op.rows) then AppendedRows(ops) + op.rows
            else AppendedRows(ops)
  {
    assert (ops + [op])[..|ops|] == ops;
    assert forall rows: seq<Row> :: (History(ops) + [rows])[..|History(ops)|] == History(ops);
  }

  /** A batch of one row that alone fills the tail is sealed as it is. */
  lemma SealedAlone(size: Sizer, s: LedgerState, tree: Tree, row: Row, bytes: nat)
    requires s.tail == [] && SegmentTarget(s.limit) < bytes
    ensures var grown := Grown(s, tree, [row], bytes);
            SealedTail(size, grown) == grown.(segments := s.segments + [Measured([row], bytes)], tail := [])
  {
    var one := Measured([row], bytes);
    InOne(one);
    assert s.tail + [one] == [one];
  }

  /** Where the account is within the limit after sealing, an append of one row amounts to growing and sealing. */
  lemma AppendedAlone(size: Sizer, s: LedgerState, row: Row, bytes: nat)
    requires Accepted(s.tree.latest, [row]) && s.tail == [] && SegmentTarget(s.limit) < bytes
    requires s.limit.Some? ==> s.residentBytes + bytes <= s.limit.value
    ensures Appended(size, s, [row], bytes)
         == Grown(s, Ingested(s.tree, [row]), [row], bytes)
            .(segments := s.segments + [Measured([row], bytes)], tail := [])
  {
    AcceptedIsAppended(s, [row]);
    SealedAlone(size, s, Ingested(s.tree, [row]), row, bytes);
  }

  /** Two rows, each filling a segment, and then one more, under a limit that keeps one segment. */
  function GapOps(late: Row, later: Row, early: Row): seq<Op> {
    [SetLimit(Some(4))] + [Append([late], 2)] + [Append([later], 2)] + [Append([early], 1)]
  }

  /**
   Where the two rows are of one entity and the last is a backfill of another, the run leaves a window that starts at
   the backfilled row, and has lost the first row, which is after the start.
   */
  lemma BackfillLeavesAGap(size: Sizer, late: Row, later: Row, early: Row)
    requires late.id == later.id != early.id && early.epoch < late.epoch < later.epoch
    requires late.id.IsSoloc() && early.id.IsSoloc()
    requires late.frame.IsAstro() && later.frame.IsAstro() && early.frame.IsAstro()
    ensures var ops := GapOps(late, later, early);
            && AppendedRows(ops) == [late, later, early] && WindowStart(Run(size, ops)) == Some(early.epoch)
            && late !in StoredRows(Run(size, ops))
  {
    TwoSegments(size, late, later);
    LastBackfills(size, [SetLimit(Some(4))] + [Append([late], 2)] + [Append([later], 2)], late, later, early);
    assert [late, later] + [early] == [late, later, early];
  }

  /** The ledger that the first two rows fill. */
  lemma TwoSegments(size: Sizer, late: Row, later: Row)
    requires late.id.IsSoloc() && later.id.IsSoloc() && late.frame.IsAstro() && later.frame.IsAstro()
    ensures var ops := [SetLimit(Some(4))] + [Append([late], 2)] + [Append([later], 2)];
            var s := Run(size, ops);
            && s.pinned.None? && s.limit == Some(4) && s.residentBytes == 4 && s.tail == []
            && s.segments == [Measured([late], 2), Measured([later], 2)] && Anchored(s.tree.latest)
            && AppendedRows(ops) == [late, later]
  {
    OneSegment(size, late);
    OneMoreSegment(size, [SetLimit(Some(4))] + [Append([late], 2)], later, 2);
    assert [late] + [later] == [late, later];
    assert [Measured([late], 2)] + [Measured([later], 2)] == [Measured([late], 2), Measured([later], 2)];
  }

  lemma OneSegment(size: Sizer, late: Row)
    requires late.id.IsSoloc() && late.frame.IsAstro()
    ensures var ops := [SetLimit(Some(4))] + [Append([late], 2)];
            var s := Run(size, ops);
            && s.pinned.None? && s.limit == Some(4) && s.residentBytes == 2 && s.tail == []
            && s.segments == [Measured([late], 2)] && Anchored(s.tree.latest) && AppendedRows(ops) == [late]
  {
    LimitedFromTheStart(size, [SetLimit(Some(4))]);
    OneMoreSegment(size, [SetLimit(Some(4))], late, 2);
    assert [] + [late] == [late] && [] + [Measured([late], 2)] == [Measured([late], 2)];
  }

  /** One more row in an astronomical frame, and it fills a segment of its own within the limit. */
  lemma OneMoreSegment(size: Sizer, ops: seq<Op>, row: Row, bytes: nat)
    requires var s := Run(size, ops);
             && s.tail == [] && SegmentTarget(s.limit) < bytes && Anchored(s.tree.latest)
             && (s.limit.Some? ==> s.residentBytes + bytes <= s.limit.value)
    requires !row.id.IsAbstract() && row.frame.IsAstro()
    ensures var s, after := Run(size, ops), Run(size, ops + [Append([row], bytes)]);
            && after.pinned == s.pinned && after.limit == s.limit && after.tail == [] && Anchored(after.tree.latest)
            && after.segments == s.segments + [Measured([row], bytes)] && after.residentBytes == s.residentBytes + bytes
            && AppendedRows(ops + [Append([row], bytes)]) == AppendedRows(ops) + [row]
  {
    var s := Run(size, ops);
    RunTracks(size, ops);
    RunOneMore(size, ops, Append([row], bytes));
    AnchoredAccepts(s.tree.latest, row);
    AppendedAlone(size, s, row, bytes);
  }

  lemma LastBackfills(size: Sizer, ops: seq<Op>, late: Row, later: Row, early: Row)
    requires late.id == later.id != early.id && early.epoch < late.epoch < later.epoch
    requires var s := Run(size, ops);
             && s.pinned.None? && s.limit == Some(4) && s.residentBytes == 4 && s.tail == []
             && s.segments == [Measured([late], 2), Measured([later], 2)] && Anchored(s.tree.latest)
    requires AppendedRows(ops) == [late, later] && !early.id.IsAbstract() && early.frame.IsAstro()
    ensures var s := Run(size, ops + [Append([early], 1)]);
            && AppendedRows(ops + [Append([early], 1)]) == [late, later] + [early]
            && WindowStart(s) == Some(early.epoch) && StoredRows(s) == [later, early]
  {
    RunTracks(size, ops);
    RunOneMore(size, ops, Append([early], 1));
    AnchoredAccepts(Run(size, ops).tree.latest, early);
    FilledThenBackfilled(size, Run(size, ops), late, later, early);
  }

  lemma LimitedFromTheStart(size: Sizer, ops: seq<Op>)
    requires ops == [SetLimit(Some(4))]
    ensures Run(size, ops) == EMPTY_LEDGER.(limit := Some(4))
    ensures AppendedRows(ops) == [] && HistoryTree(ops) == EMPTY_TREE
  {
    assert ops[..0] == [] && History(ops[..0]) == [];
    assert SplitSealed(size, EMPTY_LEDGER.(limit := Some(4))) == EMPTY_LEDGER.(limit := Some(4));
  }

  /** The backfilled row takes the ledger over its limit, and the older segment goes. */
  lemma FilledThenBackfilled(size: Sizer, s: LedgerState, late: Row, later: Row, early: Row)
    requires late.id == later.id != early.id && early.epoch < late.epoch < later.epoch
    requires s.pinned.None? && s.limit == Some(4) && s.residentBytes == 4 && s.tail == []
    requires s.segments == [Measured([late], 2), Measured([later], 2)] && s.poses == CacheOf([late, later])
    requires Accepted(s.tree.latest, [early])
    ensures var after := Appended(size, s, [early], 1);
            WindowStart(after) == Some(early.epoch) && StoredRows(after) == [later, early]
  {
    var last := Measured([early], 1);
    var grown := Grown(s, Ingested(s.tree, [early]), [early], 1);
    AcceptedIsAppended(s, [early]);
    KeptInTail(size, s, Ingested(s.tree, [early]), early, 1);
    Superseded(late, later, early);
    OldestGoes(size, grown, late, later);
    OneRowRange(later);
    OneRowRange(early);
    WhatIsLeft(Appended(size, s, [early], 1), Measured([later], 2), last);
  }

  /** A batch of one row within the target stays in the tail. */
  lemma KeptInTail(size: Sizer, s: LedgerState, tree: Tree, row: Row, bytes: nat)
    requires s.tail == [] && bytes <= SegmentTarget(s.limit)
    ensures var grown := Grown(s, tree, [row], bytes);
            grown.tail == [Measured([row], bytes)] && SealedTail(size, grown) == grown
  {
    InOne(Measured([row], bytes));
    assert s.tail + [Measured([row], bytes)] == [Measured([row], bytes)];
  }

  /** Of two segments the older goes, its row superseded, and that is enough. */
  lemma OldestGoes(size: Sizer, s: LedgerState, late: Row, later: Row)
    requires s.pinned.None? && s.limit == Some(4) && s.residentBytes == 5 && late.epoch < later.epoch
    requires s.segments == [Measured([late], 2), Measured([later], 2)] && !AtLatest(s.poses, late)
    ensures EvictedAll(size, s) == s.(segments := [Measured([later], 2)], residentBytes := 3) && MustEvict(s)
  {
    OneRowRange(late);
    OneRowRange(later);
    OnlyOther(s.poses, late);
    assert s.segments[..1] == [Measured([late], 2)];
    assert Oldest(s.segments) == 0;
    assert s.segments[..0] + s.segments[1..] == [Measured([later], 2)];
    assert Evicted(size, s) == Without(s, 0, None);
  }

  /** A ledger of one sealed segment and one in the tail, a row each. */
  lemma WhatIsLeft(s: LedgerState, sealed: Segment, last: Segment)
    requires s.pinned.None? && s.segments == [sealed] && s.tail == [last]
    requires |sealed.rows| == 1 && |last.rows| == 1 && last.minEpoch < sealed.minEpoch
    ensures WindowStart(s) == Some(last.minEpoch) && StoredRows(s) == [sealed.rows[0], last.rows[0]]
  {
    InOne(sealed);
    InOne(last);
    assert s.segments + s.tail == [sealed, last];
    assert [sealed, last][..1] == [sealed] && [sealed][..0] == [];
    assert LeastEpoch([]).None? && LeastEpoch([sealed]) == Some(sealed.minEpoch);
  }

  lemma OneRowRange(row: Row)
    ensures MinEpoch([row]) == row.epoch == MaxEpoch([row])
  {
    assert [row][..0] == [];
  }

  lemma Superseded(late: Row, later: Row, early: Row)
    requires late.id == later.id != early.id && late.epoch < later.epoch
    ensures !AtLatest(Refreshed(CacheOf([late, later]), [early]), late)
  {
    RefreshIsCacheOfAll([late, later], [early]);
    var all := [late, later] + [early];
    assert all[1] == later && later in all;
    assert FirstLatest(all, late.id).Some?;
  }

  lemma OnlyOther(poses: PoseCache, row: Row)
    requires !AtLatest(poses, row)
    ensures StillLatest(poses, [row]) == []
  {
    FilterNone([row], (r: Row) => AtLatest(poses, r));
  }

  // ----- reloading -----

  lemma {:induction false} AcceptedHasNoAbstract(tree: Tree, batches: seq<seq<Row>>)
    requires AllAccepted(tree, batches)
    ensures FirstAbstract(Flatten(batches)).None?
  {
    if batches != [] {
      AcceptedHasNoAbstract(tree, batches[..|batches| - 1]);
      FirstAbstractConcat(Flatten(batches[..|batches| - 1]), batches[|batches| - 1]);
    }
  }

  /** In group `k`, as one batch on what the groups before it leave, the walk up from a staged child comes back. */
  ghost predicate GroupLoops(groups: seq<seq<seq<Row>>>, k: nat)
    requires k < |groups|
  {
    LoopsOn(IngestedAll(EMPTY_TREE, Joined(groups[..k])).latest, Flatten(groups[k]))
  }

  ghost predicate LoopsOn(latest: Latest, rows: seq<Row>) {
    exists child :: child in Staged(NaiveEvents(latest, rows))
                    && Revisits(CheckedGraph(latest, NaiveEvents(latest, rows)), child)
  }

  ghost predicate SomeGroupLoops(groups: seq<seq<seq<Row>>>) {
    exists k: nat :: k < |groups| && GroupLoops(groups, k)
  }

  lemma OneMoreMayLoop(front: seq<seq<seq<Row>>>, last: seq<seq<Row>>)
    ensures SomeGroupLoops(front + [last]) <==> SomeGroupLoops(front) || GroupLoops(front + [last], |front|)
  {
    var groups := front + [last];
    forall k: nat | k < |front|
      ensures GroupLoops(front, k) <==> GroupLoops(groups, k)
    {
      assert groups[..k] == front[..k] && groups[k] == front[k];
    }
  }

  /** Accepted batches, merged in groups, are refused on reload exactly when some group closes a loop. */
  lemma {:induction false} ReloadRefusedForLoop(groups: seq<seq<seq<Row>>>)
    requires AllAccepted(EMPTY_TREE, Flatten(groups))
    ensures AllAccepted(EMPTY_TREE, Joined(groups)) <==> !SomeGroupLoops(groups)
  {
    if groups != [] {
      var front, last := groups[..|groups| - 1], groups[|groups| - 1];
      assert groups == front + [last];
      RunConcat(EMPTY_TREE, Flatten(front), last);
      ReloadRefusedForLoop(front);
      OneMoreGroup(front, last);
      OneMoreMayLoop(front, last);
    }
  }

  lemma OneMoreGroup(front: seq<seq<seq<Row>>>, last: seq<seq<Row>>)
    requires AllAccepted(IngestedAll(EMPTY_TREE, Flatten(front)), last)
    ensures AllAccepted(EMPTY_TREE, Joined(front + [last]))
       <==> AllAccepted(EMPTY_TREE, Joined(front)) && !GroupLoops(front + [last], |front|)
  {
    AcceptedHasNoAbstract(IngestedAll(EMPTY_TREE, Flatten(front)), last);
    assert (front + [last])[..|front|] == front;
    OneMoreBatch(EMPTY_TREE, Joined(front), Flatten(last));
  }

  /** Three appends without a limit; the first fills a segment, and the other two fill one between them. */
  function LoopOps(first: Row, second: Row, third: Row): seq<Op> {
    [Append([first], SEGMENT_TARGET_BYTES + 1)] + [Append([second], 1)] + [Append([third], SEGMENT_TARGET_BYTES)]
  }

  /**
   A ledger built through appends whose stored batches a reload refuses. With `a` under an anchor since 100, a row puts
   `a` under `b` at 50, which is stale, and another puts `b` under `a` at 0. Each is accepted; sealing makes them one
   batch, which is a cycle to the check.
   */
  lemma SealedBackfillsDoNotReload(size: Sizer, a: Id, b: Id, anchor: Id, pose: Pose)
    requires Before(a, b) && a != b && a.IsSoloc() && b.IsSoloc() && anchor.IsAstro()
    ensures var first := Row(a, anchor, 100, MEASURED, pose);
            var second, third := Row(a, b, 50, MEASURED, pose), Row(b, a, 0, MEASURED, pose);
            var s := Run(size, LoopOps(first, second, third));
            && AppendedRows(LoopOps(first, second, third)) == [first, second, third]
            && (WithinTarget(size([second, third]), SEGMENT_TARGET_BYTES)
                ==> BatchesOf(AllSegments(s)) == [[first], [second, third]]
                    && !AllAccepted(EMPTY_TREE, BatchesOf(AllSegments(s))))
  {
    var first := Row(a, anchor, 100, MEASURED, pose);
    var second, third := Row(a, b, 50, MEASURED, pose), Row(b, a, 0, MEASURED, pose);
    var one := [Append([first], SEGMENT_TARGET_BYTES + 1)];
    FirstAnchored(first);
    assert [] + one == one && [] + [first] == [first];
    OneMoreSegment(size, [], first, SEGMENT_TARGET_BYTES + 1);
    assert [] + [Measured([first], SEGMENT_TARGET_BYTES + 1)] == [Measured([first], SEGMENT_TARGET_BYTES + 1)];
    RunOneMore(size, [], Append([first], SEGMENT_TARGET_BYTES + 1));
    RunTracks(size, one);
    StaleThenLoop(first, second, third);
    TwoMore(size, one, first, second, third);
  }

  lemma TwoMore(size: Sizer, ops: seq<Op>, first: Row, second: Row, third: Row)
    requires var s, latest := Run(size, ops), HistoryTree(ops).latest;
             && s.pinned.None? && s.limit.None? && s.tail == [] && AppendedRows(ops) == [first]
             && s.segments == [Measured([first], SEGMENT_TARGET_BYTES + 1)] && s.tree.latest == latest
             && Accepted(map[], [first]) && Ingested(EMPTY_TREE, [first]).latest == latest
             && Accepted(latest, [second]) && AdvanceAll(latest, NaiveEvents(latest, [second])) == latest
             && Accepted(latest, [third]) && !Accepted(latest, [second, third])
    ensures var more := ops + [Append([second], 1)] + [Append([third], SEGMENT_TARGET_BYTES)];
            && AppendedRows(more) == [first, second, third]
            && (WithinTarget(size([second, third]), SEGMENT_TARGET_BYTES)
                ==> BatchesOf(AllSegments(Run(size, more))) == [[first], [second, third]]
                    && !AllAccepted(EMPTY_TREE, BatchesOf(AllSegments(Run(size, more)))))
  {
    var between := ops + [Append([second], 1)];
    SecondInTail(size, ops, second);
    assert [first] + [second] == [first, second];
    ThirdFillsIt(size, between, first, second, third);
    NotReloaded(first, [second, third]);
  }

  lemma ThirdFillsIt(size: Sizer, ops: seq<Op>, first: Row, second: Row, third: Row)
    requires var s := Run(size, ops);
             && s.pinned.None? && s.limit.None? && s.segments == [Measured([first], SEGMENT_TARGET_BYTES + 1)]
             && s.tail == [Measured([second], 1)] && s.tree.latest == HistoryTree(ops).latest
    requires Accepted(HistoryTree(ops).latest, [third]) && AppendedRows(ops) == [first, second]
    ensures var more := ops + [Append([third], SEGMENT_TARGET_BYTES)];
            && AppendedRows(more) == [first, second, third]
            && (WithinTarget(size([second, third]), SEGMENT_TARGET_BYTES)
                ==> BatchesOf(AllSegments(Run(size, more))) == [[first], [second, third]])
  {
    RunOneMore(size, ops, Append([third], SEGMENT_TARGET_BYTES));
    assert [first, second] + [third] == [first, second, third];
    if WithinTarget(size([second, third]), SEGMENT_TARGET_BYTES) {
      SealedTogether(size, Run(size, ops), first, second, third);
    }
  }

  lemma SecondInTail(size: Sizer, ops: seq<Op>, second: Row)
    requires var s, latest := Run(size, ops), HistoryTree(ops).latest;
             && s.limit.None? && s.tail == [] && s.tree.latest == latest
             && Accepted(latest, [second]) && AdvanceAll(latest, NaiveEvents(latest, [second])) == latest
    ensures var s, between := Run(size, ops), Run(size, ops + [Append([second], 1)]);
            && between.pinned == s.pinned && between.limit.None? && between.segments == s.segments
            && between.tail == [Measured([second], 1)] && between.tree.latest == HistoryTree(ops).latest
            && HistoryTree(ops + [Append([second], 1)]).latest == HistoryTree(ops).latest
            && AppendedRows(ops + [Append([second], 1)]) == AppendedRows(ops) + [second]
  {
    RunOneMore(size, ops, Append([second], 1));
    TailOfOne(size, Run(size, ops), second);
  }

  lemma TailOfOne(size: Sizer, s: LedgerState, row: Row)
    requires s.limit.None? && s.tail == [] && Accepted(s.tree.latest, [row])
    ensures Appended(size, s, [row], 1) == Grown(s, Ingested(s.tree, [row]), [row], 1)
    ensures Appended(size, s, [row], 1).tail == [Measured([row], 1)]
  {
    AcceptedIsAppended(s, [row]);
    KeptInTail(size, s, Ingested(s.tree, [row]), row, 1);
  }

  lemma NotReloaded(first: Row, rest: seq<Row>)
    requires !Accepted(Ingested(EMPTY_TREE, [first]).latest, rest)
    ensures !AllAccepted(EMPTY_TREE, [[first], rest])
  {
    OneMoreBatch(EMPTY_TREE, [[first]], rest);
    OneMoreBatch(EMPTY_TREE, [], [first]);
    assert [] + [[first]] == [[first]] && [[first]] + [rest] == [[first], rest];
  }

  lemma FirstAnchored(first: Row)
    requires !first.id.IsAbstract() && first.frame.IsAstro()
    ensures Accepted(map[], [first])
    ensures Ingested(EMPTY_TREE, [first]).latest == map[first.id := Edge(first.frame, first.epoch)]
  {
    AnchoredAccepts(map[], first);
    OneRow(map[], first);
    StagedOnce(map[], EventOf(first));
    assert Advance(map[], EventOf(first)) == map[first.id := Edge(first.frame, first.epoch)];
  }

  /** One by one the stale row and the next are accepted; as one batch they are not. */
  lemma StaleThenLoop(first: Row, second: Row, third: Row)
    requires first.id == second.id == third.frame && second.frame == third.id && Before(first.id, third.id)
    requires first.id != third.id && first.id.IsSoloc() && third.id.IsSoloc() && first.frame.IsAstro()
    requires second.epoch < first.epoch
    ensures var latest := map[first.id := Edge(first.frame, first.epoch)];
            && Accepted(latest, [second]) && AdvanceAll(latest, NaiveEvents(latest, [second])) == latest
            && Accepted(latest, [third]) && !Accepted(latest, [second, third])
  {
    var latest := map[first.id := Edge(first.frame, first.epoch)];
    StaleAccepted(latest, second);
    OneStepAccepted(latest, third);
    LoopRefused(latest, second, third);
  }

  lemma OneStepAccepted(latest: Latest, row: Row)
    requires row.id != row.frame && row.id.IsSoloc() && row.frame.IsSoloc() && row.id !in latest
    requires row.frame in latest ==> !latest[row.frame].parent.IsSoloc()
    ensures Accepted(latest, [row])
  {
    OneRow(latest, row);
    OneStep(latest, EventOf(row));
  }

  /** A stale row under an unknown entity is accepted and changes no edge. */
  lemma StaleAccepted(latest: Latest, row: Row)
    requires row.id != row.frame && row.id.IsSoloc() && row.frame.IsSoloc() && row.id in latest && row.frame !in latest
    requires latest[row.id].parent != row.frame && row.epoch < latest[row.id].since
    ensures Accepted(latest, [row]) && AdvanceAll(latest, NaiveEvents(latest, [row])) == latest
  {
    OneRow(latest, row);
    OneStep(latest, EventOf(row));
    StagedOnce(latest, EventOf(row));
  }

  lemma LoopRefused(latest: Latest, x: Row, y: Row)
    requires x.id == y.frame && x.frame == y.id && Before(x.id, y.id) && x.id != y.id
    requires x.id.IsSoloc() && y.id.IsSoloc()
    requires ParentOf(latest, x.id) != Some(x.frame) && ParentOf(latest, y.id) != Some(y.frame)
    ensures !Accepted(latest, [x, y])
  {
    TwoRows(latest, x, y);
    LoopOfTwo(latest, EventOf(x), EventOf(y));
  }

  /** One event, to a parent that the walk does not go on from. */
  lemma OneStep(latest: Latest, event: Event)
    requires event.parent != event.child
    requires event.parent in latest ==> !latest[event.parent].parent.IsSoloc()
    ensures PassesCheck(latest, [event])
  {
    StagedOnce(latest, event);
    var g := CheckedGraph(latest, [event]);
    assert Next(g, event.parent) == None;
    assert Walk(g, event.child, 1) == Next(g, event.child);
    assert Walk(g, event.child, 2) == None;
    EndedWalkDoesNotRevisit(g, event.child, 2);
  }

  lemma StagedOnce(latest: Latest, event: Event)
    ensures Staged([event]) == map[event.child := Edge(event.parent, event.epoch)]
    ensures AdvanceAll(latest, [event]) == Advance(latest, event)
  {
    assert [event][..0] == [];
    assert Staged([event]) == Staged([])[event.child := Edge(event.parent, event.epoch)];
  }

  lemma LoopOfTwo(latest: Latest, x: Event, y: Event)
    requires x.child == y.parent && x.parent == y.child && x.child != y.child && x.child.IsSoloc() && y.child.IsSoloc()
    ensures !PassesCheck(latest, [x, y])
  {
    StagedOnce(latest, x);
    assert [x, y][..1] == [x];
    var g := CheckedGraph(latest, [x, y]);
    assert Staged([x, y]) == Staged([x])[y.child := Edge(y.parent, y.epoch)];
    assert Walk(g, x.child, 0) == Some(x.child) && Walk(g, x.child, 1) == Some(y.child);
    assert Walk(g, x.child, 2) == Some(x.child);
    assert Revisits(g, x.child);
  }

  /** After a sealed segment and a batch in the tail, another that fills the tail is sealed together with it. */
  lemma SealedTogether(size: Sizer, s: LedgerState, first: Row, second: Row, third: Row)
    requires s.pinned.None? && s.limit.None? && s.segments == [Measured([first], SEGMENT_TARGET_BYTES + 1)]
    requires s.tail == [Measured([second], 1)] && Accepted(s.tree.latest, [third])
    requires WithinTarget(size([second, third]), SEGMENT_TARGET_BYTES)
    ensures BatchesOf(AllSegments(Appended(size, s, [third], SEGMENT_TARGET_BYTES))) == [[first], [second, third]]
  {
    AcceptedIsAppended(s, [third]);
    FullOfTwo(size, s, Ingested(s.tree, [third]), second, third);
    TwoBatches(Appended(size, s, [third], SEGMENT_TARGET_BYTES), s.segments[0],
               Measured([second, third], size([second, third])));
  }

  lemma FullOfTwo(size: Sizer, s: LedgerState, tree: Tree, second: Row, third: Row)
    requires s.limit.None? && s.tail == [Measured([second], 1)]
    requires WithinTarget(size([second, third]), SEGMENT_TARGET_BYTES)
    ensures var after := SealedTail(size, Grown(s, tree, [third], SEGMENT_TARGET_BYTES));
            && after.segments == s.segments + [Measured([second, third], size([second, third]))]
            && after.tail == [] && after.pinned == s.pinned && after.limit == s.limit
  {
    var grown, last := Grown(s, tree, [third], SEGMENT_TARGET_BYTES), Measured([third], SEGMENT_TARGET_BYTES);
    TwoInTail(s.tail[0], last);
    assert grown.tail == [s.tail[0]] + [last];
    FullTailIsSealed(size, grown, [Measured([second, third], size([second, third]))]);
  }

  lemma TwoBatches(s: LedgerState, x: Segment, y: Segment)
    requires s.pinned.None? && s.segments == [x] + [y] && s.tail == []
    ensures BatchesOf(AllSegments(s)) == [x.rows, y.rows]
  {
    assert AllSegments(s) == [x] + [y];
    BatchesOfMore([x], y);
    BatchesOfMore([], x);
    assert [] + [x] == [x];
  }

  lemma TwoInTail(x: Segment, y: Segment)
    requires |x.rows| == 1 && |y.rows| == 1
    ensures RowsIn([x] + [y]) == [x.rows[0], y.rows[0]] && BytesIn([x] + [y]) == x.bytes + y.bytes
  {
    InConcat([x], [y]);
    InOne(x);
    InOne(y);
  }
}
