/** What one more append or limit change does to what is stored, read off the ledger before and after it. */
module Enforcement {
  import opened Prelude
  import opened Rows
  import opened Segments
  import opened Topology
  import opened Ingest
  import opened LedgerModel
  import opened Storage
  import opened LedgerRuns
  import opened Window
  import Trim

  // ----- the last step of a run -----

  /** The last step lost a row, pinned something else than before, or left fewer sealed segments. */
  ghost predicate LastStepEvicts(size: Sizer, ops: seq<Op>)
    requires ops != []
  {
    var front := ops[..|ops| - 1];
    var before, after := Run(size, front), Run(size, ops);
    || multiset(StoredRows(after)) + multiset(AppendedRows(front))
       != multiset(StoredRows(before)) + multiset(AppendedRows(ops))
    || after.pinned != before.pinned || |after.segments| < |before.segments|
  }

  lemma {:induction false} SplitAllIsNoShorter(size: Sizer, segments: seq<Segment>, target: nat)
    requires 0 < target
    ensures |segments| <= |SplitAll(size, segments, target)|
  {
    if segments != [] {
      SplitAllIsNoShorter(size, segments[..|segments| - 1], target);
    }
  }

  /** Splitting moves no row in or out, and pins nothing. */
  lemma LaidByLimit(size: Sizer, s: LedgerState, limit: Option<nat>)
    requires Sound(s)
    ensures var laid := SplitSealed(size, s.(limit := limit));
            && Sound(laid) && laid.pinned == s.pinned && |s.segments| <= |laid.segments|
            && StoredRows(laid) == StoredRows(s)
  {
    SplitKeepsLedgerRows(size, s.(limit := limit));
    SplitAllIsNoShorter(size, s.segments, SegmentTarget(limit));
  }

  /** Neither does sealing, once the batch is on the tail. */
  lemma LaidByAppend(size: Sizer, s: LedgerState, tree: Tree, rows: seq<Row>, bytes: nat)
    requires Sound(s)
    ensures var laid := SealedTail(size, Grown(s, tree, rows, bytes));
            && Sound(laid) && laid.pinned == s.pinned && |s.segments| <= |laid.segments|
            && StoredRows(laid) == StoredRows(s) + rows
  {
    var grown := Grown(s, tree, rows, bytes);
    GrownIsSound(s, tree, rows, bytes);
    GrownRows(s, tree, rows, bytes);
    SealKeepsRows(size, grown);
  }

  /** What the last step enforces the limit on: rows appended and laid out anew, nothing taken yet. */
  lemma BeforeEnforcing(size: Sizer, ops: seq<Op>) returns (laid: LedgerState)
    requires ops != []
    ensures var front := ops[..|ops| - 1];
            var before := Run(size, front);
            && (Run(size, ops) == Enforced(size, laid) || Run(size, ops) == before == laid)
            && Sound(laid) && laid.pinned == before.pinned && |before.segments| <= |laid.segments|
            && multiset(StoredRows(laid)) + multiset(AppendedRows(front))
               == multiset(StoredRows(before)) + multiset(AppendedRows(ops))
  {
    var front, last := ops[..|ops| - 1], ops[|ops| - 1];
    var before := Run(size, front);
    RunTracks(size, front);
    match last
    case SetLimit(limit) =>
      laid := SplitSealed(size, before.(limit := limit));
      LaidByLimit(size, before, limit);
    case Append(rows, bytes) =>
      AcceptedIsAppended(before, rows);
      laid := before;
      if Accepted(before.tree.latest, rows) {
        LaidByAppend(size, before, Ingested(before.tree, rows), rows, bytes);
        laid := SealedTail(size, Grown(before, Ingested(before.tree, rows), rows, bytes));
        AppendedRowsGrow(ops);
      }
  }

  lemma EvictingMustHave(size: Sizer, ops: seq<Op>) returns (laid: LedgerState)
    requires ops != [] && LastStepEvicts(size, ops)
    ensures Sound(laid) && MustEvict(laid) && Run(size, ops) == Enforced(size, laid)
  {
    laid := BeforeEnforcing(size, ops);
  }

  /**
   The topology log is trimmed to the window: after a step that evicts, no child has two events from before the oldest
   row outside `pinned`.
   */
  lemma EvictionTrimsTheLog(size: Sizer, ops: seq<Op>, start: Epoch, i: nat, j: nat)
    requires ops != [] && LastStepEvicts(size, ops) && WindowStart(Run(size, ops)) == Some(start)
    requires i < j < |Run(size, ops).tree.log|
    requires Run(size, ops).tree.log[i].child == Run(size, ops).tree.log[j].child
    ensures start <= Run(size, ops).tree.log[i].epoch || start <= Run(size, ops).tree.log[j].epoch
  {
    var laid := EvictingMustHave(size, ops);
    Trim.TrimLeavesOnePerChild(EvictedAll(size, laid).tree.log, start, i, j);
  }

  lemma {:induction false} EvictedAllPinsLatest(size: Sizer, s: LedgerState, row: Row)
    requires Sound(s) && MustEvict(s) && row in PinnedRows(EvictedAll(size, s))
    ensures AtLatest(EvictedAll(size, s).poses, row) && EvictedAll(size, s).poses == s.poses
    decreases |s.segments|
  {
    var after := Evicted(size, s);
    EvictionKeepsSound(size, s);
    if MustEvict(after) {
      EvictedAllPinsLatest(size, after, row);
    } else {
      var idx := Oldest(s.segments);
      PinnedAfterIsFiltered(s, idx);
      FilterMembers(PinnedRows(s) + s.segments[idx].rows, (r: Row) => AtLatest(s.poses, r));
      FilterMembers(s.segments[idx].rows, (r: Row) => AtLatest(s.poses, r));
    }
  }

  /** And then only latest rows are pinned: no row of the entity that was ever appended is later. */
  lemma EvictionPinsLatestRows(size: Sizer, ops: seq<Op>, pinned: Row, row: Row)
    requires ops != [] && LastStepEvicts(size, ops)
    requires pinned in PinnedRows(Run(size, ops)) && row in AppendedRows(ops) && row.id == pinned.id
    ensures row.epoch <= pinned.epoch
  {
    var laid := EvictingMustHave(size, ops);
    EvictedAllPinsLatest(size, laid, pinned);
    RunTracks(size, ops);
    var all := AppendedRows(ops);
    assert FirstLatest(all, row.id).Some?;
    var k :| 0 <= k < |all| && all[k] == row;
  }

  // ----- an append that fits -----

  /** At most 256 MiB, and under a limit an eighth of it or a single byte. */
  predicate FitsTail(bytes: nat, limit: Option<nat>) {
    bytes <= 268_435_456 && (limit.Some? ==> bytes <= limit.value / 8 || bytes <= 1)
  }

  lemma FitsTailIsTarget(bytes: nat, limit: Option<nat>)
    ensures FitsTail(bytes, limit) <==> bytes <= SegmentTarget(limit)
  {
  }

  /** After an accepted append the tail is at most fifty batches, and fits. */
  lemma TailIsBounded(size: Sizer, ops: seq<Op>, rows: seq<Row>, bytes: nat)
    requires Accepted(HistoryTree(ops).latest, rows)
    ensures var after := Run(size, ops + [Append(rows, bytes)]);
            |after.tail| <= 50 && FitsTail(BytesIn(after.tail), after.limit)
  {
    assert (ops + [Append(rows, bytes)])[..|ops|] == ops;
    RunTracks(size, ops);
    AppendTracks(size, Run(size, ops), AppendedRows(ops), HistoryTree(ops), rows, bytes);
    FitsTailIsTarget(BytesIn(Run(size, ops + [Append(rows, bytes)]).tail), Run(size, ops).limit);
  }

  /** An accepted append that leaves tail and account within bounds is put on the tail, and nothing else is touched. */
  lemma SmallAppendIsKept(size: Sizer, ops: seq<Op>, rows: seq<Row>, bytes: nat)
    requires Accepted(HistoryTree(ops).latest, rows)
    requires var s := Run(size, ops);
             && |s.tail| < 50 && FitsTail(BytesIn(s.tail) + bytes, s.limit)
             && (s.limit.Some? ==> s.residentBytes + bytes <= s.limit.value)
    ensures var s, after := Run(size, ops), Run(size, ops + [Append(rows, bytes)]);
            && after.pinned == s.pinned && after.segments == s.segments && after.limit == s.limit
            && after.tail == s.tail + [Measured(rows, bytes)] && after.residentBytes == s.residentBytes + bytes
            && after.tree.log == s.tree.log + NaiveEvents(s.tree.latest, rows)
  {
    var s := Run(size, ops);
    assert (ops + [Append(rows, bytes)])[..|ops|] == ops;
    RunTracks(size, ops);
    AcceptedIsAppended(s, rows);
    GrownRows(s, Ingested(s.tree, rows), rows, bytes);
    FitsTailIsTarget(BytesIn(s.tail) + bytes, s.limit);
    Untouched(size, Grown(s, Ingested(s.tree, rows), rows, bytes));
  }

  lemma Untouched(size: Sizer, s: LedgerState)
    requires !TailIsFull(s) && !MustEvict(s)
    ensures Enforced(size, SealedTail(size, s)) == s
  {
  }

  lemma {:induction false} NothingToCut(size: Sizer, segments: seq<Segment>, target: nat)
    requires forall g :: g in segments ==> g.bytes <= target + target / 8
    ensures SplitAll(size, segments, target) == segments
  {
    if segments != [] {
      var front, last := segments[..|segments| - 1], segments[|segments| - 1];
      assert segments == front + [last] && last in segments;
      NothingToCut(size, front, target);
    }
  }

  /** A limit that the account is within, and whose target no sealed segment is an eighth over, changes nothing else. */
  lemma RoomyLimitTakesNothing(size: Sizer, ops: seq<Op>, limit: Option<nat>)
    requires limit.Some? ==> Run(size, ops).residentBytes <= limit.value
    requires forall g :: g in Run(size, ops).segments ==> g.bytes <= SegmentTarget(limit) + SegmentTarget(limit) / 8
    ensures Run(size, ops + [SetLimit(limit)]) == Run(size, ops).(limit := limit)
  {
    assert (ops + [SetLimit(limit)])[..|ops|] == ops;
    NothingToCut(size, Run(size, ops).segments, SegmentTarget(limit));
  }

  // ----- sealed segments are cut to size -----

  /** Batches that kernels build take `unit` bytes a row, and incoming ones no less. */
  ghost predicate Uniform(size: Sizer, ops: seq<Op>, unit: nat) {
    && (forall rows :: size(rows) == |rows| * unit)
    && (forall op :: op in ops && op.Append? ==> |op.rows| * unit <= op.bytes)
  }

  /** The account of a batch is no less than its rows call for. */
  ghost predicate Weighs(g: Segment, unit: nat) {
    |g.rows| * unit <= g.bytes
  }

  /** Not more than one row, or at most an eighth over the target. */
  predicate CutToSize(g: Segment, target: nat) {
    |g.rows| <= 1 || g.bytes <= target + target / 8
  }

  ghost predicate AllCut(s: LedgerState, unit: nat) {
    && (forall g :: g in s.segments ==> Weighs(g, unit) && CutToSize(g, SegmentTarget(s.limit)))
    && (forall g :: g in s.tail ==> Weighs(g, unit))
  }

  lemma CutOne(size: Sizer, rows: seq<Row>, bytes: nat, target: nat, unit: nat)
    requires (forall r :: size(r) == |r| * unit) && |rows| * unit <= bytes
    ensures forall g :: g in SplitOversized(size, rows, bytes, target) ==> Weighs(g, unit) && CutToSize(g, target)
  {
    forall g | g in SplitOversized(size, rows, bytes, target)
      ensures Weighs(g, unit) && CutToSize(g, target)
    {
      if !WithinTarget(bytes, target) && |rows| >= 2 {
        ChunksAreSmall(size, rows, ChunkRows(|rows|, bytes, target));
        assert g.bytes == |g.rows| * unit;
        ShareOf(|g.rows|, |rows|, unit, bytes);
        ChunksFitTarget(size, rows, bytes, target, g);
      }
    }
  }

  lemma ShareOf(part: nat, whole: nat, unit: nat, bytes: nat)
    requires whole * unit <= bytes
    ensures part * unit * whole <= part * bytes
  {
    TimesMonotone(whole * unit, bytes, part);
    assert part * unit * whole == whole * unit * part;
  }

  lemma {:induction false} CutAll(size: Sizer, segments: seq<Segment>, target: nat, unit: nat)
    requires (forall r :: size(r) == |r| * unit) && forall g :: g in segments ==> Weighs(g, unit)
    ensures forall g :: g in SplitAll(size, segments, target) ==> Weighs(g, unit) && CutToSize(g, target)
  {
    if segments != [] {
      var last := segments[|segments| - 1];
      assert last in segments;
      CutAll(size, segments[..|segments| - 1], target, unit);
      CutOne(size, last.rows, last.bytes, target, unit);
    }
  }

  lemma SealingCuts(size: Sizer, s: LedgerState, unit: nat)
    requires (forall r :: size(r) == |r| * unit) && AllCut(s, unit)
    ensures AllCut(SealedTail(size, s), unit)
  {
    if TailIsFull(s) {
      if |s.tail| == 1 {
        assert s.tail[0] in s.tail;
        InOne(s.tail[0]);
        assert s.tail == [s.tail[0]];
      }
      CutOne(size, RowsIn(s.tail), TailBytes(size, s.tail), SegmentTarget(s.limit), unit);
    }
  }

  lemma {:induction false} EnforcingKeepsCut(size: Sizer, s: LedgerState, unit: nat)
    requires AllCut(s, unit)
    ensures AllCut(EvictedAll(size, s), unit) && AllCut(Enforced(size, s), unit)
    ensures EvictedAll(size, s).limit == s.limit
    decreases |s.segments|
  {
    if MustEvict(s) {
      EnforcingKeepsCut(size, Evicted(size, s), unit);
    }
  }

  /**
   The memory bound bounds every part: at each reachable ledger a sealed segment is within an eighth of the target, a
   share of the limit, or is a single row, when batches take the same bytes per row wherever they are built.
   */
  lemma {:induction false} SealedSegmentsAreCut(size: Sizer, ops: seq<Op>, unit: nat)
    requires Uniform(size, ops, unit)
    ensures AllCut(Run(size, ops), unit)
  {
    if ops != [] {
      var front, last := ops[..|ops| - 1], ops[|ops| - 1];
      var s := Run(size, front);
      assert last in ops && forall op :: op in front ==> op in ops;
      SealedSegmentsAreCut(size, front, unit);
      match last
      case SetLimit(limit) =>
        CutAll(size, s.segments, SegmentTarget(limit), unit);
        EnforcingKeepsCut(size, SplitSealed(size, s.(limit := limit)), unit);
      case Append(rows, bytes) =>
        if AppendVerdict(s, rows).None? {
          var grown := Grown(s, Ingested(s.tree, rows), rows, bytes);
          SealingCuts(size, grown, unit);
          EnforcingKeepsCut(size, SealedTail(size, grown), unit);
        }
    }
  }

  // ----- the account is of real batches -----

  /** The bytes are what was said of this very batch when it was appended, or what a batch of its rows measures. */
  ghost predicate Honest(size: Sizer, ops: seq<Op>, g: Segment) {
    g.bytes == size(g.rows) || Append(g.rows, g.bytes) in ops
  }

  ghost predicate AllHonest(size: Sizer, ops: seq<Op>, s: LedgerState) {
    && (forall g :: g in s.segments ==> Honest(size, ops, g))
    && (forall g :: g in s.tail ==> Honest(size, ops, g))
    && (s.pinned.Some? ==> s.pinned.value.bytes == size(s.pinned.value.rows))
  }

  lemma CutsAreHonest(size: Sizer, ops: seq<Op>, rows: seq<Row>, bytes: nat, target: nat)
    requires bytes == size(rows) || Append(rows, bytes) in ops
    ensures forall g :: g in SplitOversized(size, rows, bytes, target) ==> Honest(size, ops, g)
  {
    if !WithinTarget(bytes, target) && |rows| >= 2 {
      ChunksAreSmall(size, rows, ChunkRows(|rows|, bytes, target));
    }
  }

  lemma {:induction false} SplitsAreHonest(size: Sizer, ops: seq<Op>, segments: seq<Segment>, target: nat)
    requires forall g :: g in segments ==> Honest(size, ops, g)
    ensures forall g :: g in SplitAll(size, segments, target) ==> Honest(size, ops, g)
  {
    if segments != [] {
      var last := segments[|segments| - 1];
      assert last in segments;
      SplitsAreHonest(size, ops, segments[..|segments| - 1], target);
      CutsAreHonest(size, ops, last.rows, last.bytes, target);
    }
  }

  lemma SealingIsHonest(size: Sizer, ops: seq<Op>, s: LedgerState)
    requires AllHonest(size, ops, s)
    ensures AllHonest(size, ops, SealedTail(size, s))
  {
    if TailIsFull(s) {
      if |s.tail| == 1 {
        assert s.tail[0] in s.tail && s.tail == [s.tail[0]];
        InOne(s.tail[0]);
      }
      CutsAreHonest(size, ops, RowsIn(s.tail), TailBytes(size, s.tail), SegmentTarget(s.limit));
    }
  }

  lemma {:induction false} EnforcingIsHonest(size: Sizer, ops: seq<Op>, s: LedgerState)
    requires AllHonest(size, ops, s)
    ensures AllHonest(size, ops, EvictedAll(size, s)) && AllHonest(size, ops, Enforced(size, s))
    decreases |s.segments|
  {
    if MustEvict(s) {
      EnforcingIsHonest(size, ops, Evicted(size, s));
    }
  }

  /** On every reachable ledger each segment is accounted at its batch's bytes, and pinned rows at what they measure. */
  lemma {:induction false} SegmentsAreMeasured(size: Sizer, ops: seq<Op>)
    ensures AllHonest(size, ops, Run(size, ops))
  {
    if ops != [] {
      var front, last := ops[..|ops| - 1], ops[|ops| - 1];
      var s := Run(size, front);
      assert last in ops && forall op :: op in front ==> op in ops;
      SegmentsAreMeasured(size, front);
      match last
      case SetLimit(limit) =>
        SplitsAreHonest(size, ops, s.segments, SegmentTarget(limit));
        EnforcingIsHonest(size, ops, SplitSealed(size, s.(limit := limit)));
      case Append(rows, bytes) =>
        if AppendVerdict(s, rows).None? {
          var grown := Grown(s, Ingested(s.tree, rows), rows, bytes);
          SealingIsHonest(size, ops, grown);
          EnforcingIsHonest(size, ops, SealedTail(size, grown));
        }
    }
  }
}
