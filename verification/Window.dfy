/** Runs in time order, where eviction takes the oldest rows and the rest is a window. */
module Window {
  import opened Prelude
  import opened Identity
  import opened Rows
  import opened Segments
  import opened Topology
  import opened Ingest
  import opened CycleCheck
  import opened Ancestry
  import opened Poses
  import opened LedgerModel
  import opened Storage
  import opened LedgerRuns
  import opened CurrentState
  import opened Queries
  import Trim

  /** Each row is as late as every row before it. */
  ghost predicate TimeOrdered(rows: seq<Row>) {
    forall i, j :: 0 <= i < j < |rows| ==> rows[i].epoch <= rows[j].epoch
  }

  /** How many of the appended rows have left the window. */
  function Gone(s: LedgerState, all: seq<Row>): int {
    |all| - |Unpinned(s)|
  }

  /**
   The rows outside `pinned` are the last rows appended, and the pinned rows that are still
   latest are, in order, those among the rows before them.
   */
  ghost predicate Windowed(s: LedgerState, all: seq<Row>) {
    && 0 <= Gone(s, all) && Unpinned(s) == all[Gone(s, all)..]
    && StillLatest(s.poses, PinnedRows(s)) == StillLatest(s.poses, all[..Gone(s, all)])
    && (forall r :: r in PinnedRows(s) ==> r in all[..Gone(s, all)])
  }

  lemma WindowIsOrdered(s: LedgerState, all: seq<Row>)
    requires Windowed(s, all) && TimeOrdered(all)
    ensures TimeOrdered(Unpinned(s))
  {
    var k := Gone(s, all);
    assert forall i :: 0 <= i < |Unpinned(s)| ==> Unpinned(s)[i] == all[k + i];
  }

  lemma BeforeAppended(all: seq<Row>, rows: seq<Row>, x: Row, y: Row)
    requires TimeOrdered(all + rows) && x in all && y in rows
    ensures x.epoch <= y.epoch
  {
    var i :| 0 <= i < |all| && all[i] == x;
    var j :| 0 <= j < |rows| && rows[j] == y;
    assert (all + rows)[i] == x && (all + rows)[|all| + j] == y;
  }

  /** What follows segment `idx` in the window. */
  function After(s: LedgerState, idx: nat): seq<Row>
    requires idx < |s.segments|
  {
    RowsIn(s.segments[idx + 1..]) + RowsIn(s.tail)
  }

  /** The window with segment `idx` singled out. */
  lemma WindowParts(s: LedgerState, idx: nat)
    requires idx < |s.segments|
    ensures Unpinned(s) == RowsIn(s.segments[..idx]) + (s.segments[idx].rows + After(s, idx))
  {
    Removing(s.segments, idx);
    var low, victim, high := RowsIn(s.segments[..idx]), s.segments[idx].rows, RowsIn(s.segments[idx + 1..]);
    ConcatAssoc(low + victim, high, RowsIn(s.tail));
    ConcatAssoc(low, victim, high + RowsIn(s.tail));
  }

  /** In time order the oldest sealed segment, if it has any rows, is the first. */
  lemma OldestIsFirst(s: LedgerState, all: seq<Row>)
    requires Sound(s) && Windowed(s, all) && TimeOrdered(all) && s.segments != []
    requires s.segments[Oldest(s.segments)].rows != []
    ensures Oldest(s.segments) == 0
  {
    var idx := Oldest(s.segments);
    if idx > 0 {
      var first, victim := s.segments[0], s.segments[idx];
      assert IsMeasured(first) && IsMeasured(victim);
      MaxIsGreatest(first.rows);
      MaxIsGreatest(victim.rows);
      assert first.rows != [];
      var x :| x in first.rows && x.epoch == first.maxEpoch;
      var y :| y in victim.rows && y.epoch == victim.maxEpoch;
      InSegment(s.segments[..idx], 0);
      assert x in RowsIn(s.segments[..idx]);
      WindowIsOrdered(s, all);
      WindowParts(s, idx);
      BeforeAppended(RowsIn(s.segments[..idx]), victim.rows + After(s, idx), x, y);
      assert false;
    }
  }

  lemma UnpinnedAfterEviction(size: Sizer, s: LedgerState)
    requires s.segments != []
    ensures var idx := Oldest(s.segments);
            Unpinned(Evicted(size, s)) == RowsIn(s.segments[..idx]) + After(s, idx)
  {
    var idx := Oldest(s.segments);
    Removing(s.segments, idx);
    ConcatAssoc(RowsIn(s.segments[..idx]), RowsIn(s.segments[idx + 1..]), RowsIn(s.tail));
  }

  /** Evicting takes the victim's rows off the front of the window. */
  lemma EvictionMovesWindow(size: Sizer, s: LedgerState, all: seq<Row>)
    requires Sound(s) && Windowed(s, all) && TimeOrdered(all) && s.segments != []
    ensures Unpinned(s) == s.segments[Oldest(s.segments)].rows + Unpinned(Evicted(size, s))
  {
    var idx := Oldest(s.segments);
    var low, victim, rest := RowsIn(s.segments[..idx]), s.segments[idx].rows, After(s, idx);
    assert low == [] || victim == [] by {
      if victim != [] {
        OldestIsFirst(s, all);
      }
    }
    WindowParts(s, idx);
    UnpinnedAfterEviction(size, s);
    FrontOf(low, victim, rest);
  }

  lemma FrontOf(low: seq<Row>, victim: seq<Row>, rest: seq<Row>)
    requires low == [] || victim == []
    ensures low + (victim + rest) == victim + (low + rest)
  {
  }

  lemma EvictionKeepsWindowed(size: Sizer, s: LedgerState, all: seq<Row>)
    requires Sound(s) && Windowed(s, all) && TimeOrdered(all) && s.segments != []
    ensures Windowed(Evicted(size, s), all)
  {
    var idx, after := Oldest(s.segments), Evicted(size, s);
    var victim := s.segments[idx].rows;
    EvictionMovesWindow(size, s, all);
    Advanced(all, Gone(s, all), victim, Unpinned(after));
    PinnedAfterIsFiltered(s, idx);
    PinnedMoves(s.poses, PinnedRows(s), all[..Gone(s, all)], victim, PinnedRows(after));
  }

  /** Pinning a victim's latest rows keeps the pinned rows those of everything gone. */
  lemma PinnedMoves(poses: PoseCache, pinned: seq<Row>, gone: seq<Row>, victim: seq<Row>, after: seq<Row>)
    requires StillLatest(poses, pinned) == StillLatest(poses, gone)
    requires after == StillLatest(poses, pinned + victim) || (pinned == [] && after == StillLatest(poses, victim))
    ensures StillLatest(poses, after) == StillLatest(poses, gone + victim)
    ensures forall r :: r in after ==> r in gone + victim
  {
    var latest := (r: Row) => AtLatest(poses, r);
    assert pinned == [] ==> pinned + victim == victim;
    FilterConcat(pinned, victim, latest);
    FilterConcat(gone, victim, latest);
    FilterIdempotent(pinned + victim, latest, latest);
    FilterMembers(gone + victim, latest);
  }

  lemma Advanced(all: seq<Row>, k: nat, victim: seq<Row>, rest: seq<Row>)
    requires k <= |all| && all[k..] == victim + rest
    ensures k + |victim| == |all| - |rest|
    ensures all[..k + |victim|] == all[..k] + victim && all[k + |victim|..] == rest
  {
    assert all == all[..k] + all[k..];
    assert all == all[..k] + victim + rest;
  }

  lemma {:induction false} EvictedAllKeepsWindowed(size: Sizer, s: LedgerState, all: seq<Row>)
    requires Sound(s) && Windowed(s, all) && TimeOrdered(all)
    ensures Sound(EvictedAll(size, s)) && Windowed(EvictedAll(size, s), all)
    ensures |Unpinned(EvictedAll(size, s))| <= |Unpinned(s)|
    decreases |s.segments|
  {
    if MustEvict(s) {
      EvictionKeepsSound(size, s);
      EvictionKeepsWindowed(size, s, all);
      EvictionMovesWindow(size, s, all);
      EvictedAllKeepsWindowed(size, Evicted(size, s), all);
    }
  }

  /** Appending extends the window; rows that stop being latest stop on both sides. */
  lemma GrownKeepsWindowed(s: LedgerState, all: seq<Row>, tree: Tree, rows: seq<Row>, bytes: nat)
    requires Windowed(s, all) && s.poses == CacheOf(all)
    ensures Windowed(Grown(s, tree, rows, bytes), all + rows)
  {
    var grown := Grown(s, tree, rows, bytes);
    assert grown.poses == CacheOf(all + rows) by {
      RefreshIsCacheOfAll(all, rows);
    }
    GrownRows(s, tree, rows, bytes);
    SameLatestAfter(s, all, rows);
    LongerWindow(s, grown, all, rows);
  }

  lemma LongerWindow(s: LedgerState, grown: LedgerState, all: seq<Row>, rows: seq<Row>)
    requires Windowed(s, all) && Unpinned(grown) == Unpinned(s) + rows && grown.pinned == s.pinned
    requires StillLatest(grown.poses, PinnedRows(s)) == StillLatest(grown.poses, all[..Gone(s, all)])
    ensures Windowed(grown, all + rows)
  {
    var k := Gone(s, all);
    assert (all + rows)[..k] == all[..k] && (all + rows)[k..] == all[k..] + rows;
  }

  lemma SameLatestAfter(s: LedgerState, all: seq<Row>, rows: seq<Row>)
    requires Windowed(s, all) && s.poses == CacheOf(all)
    ensures StillLatest(CacheOf(all + rows), PinnedRows(s)) == StillLatest(CacheOf(all + rows), all[..Gone(s, all)])
  {
    assert forall r :: r in all[..Gone(s, all)] ==> r in all;
    LatestFilterShrinks(all, rows, PinnedRows(s));
    LatestFilterShrinks(all, rows, all[..Gone(s, all)]);
  }

  lemma LatestFilterShrinks(all: seq<Row>, rows: seq<Row>, some: seq<Row>)
    requires forall r :: r in some ==> r in all
    ensures StillLatest(CacheOf(all + rows), some)
         == StillLatest(CacheOf(all + rows), StillLatest(CacheOf(all), some))
  {
    var was, now := (r: Row) => AtLatest(CacheOf(all), r), (r: Row) => AtLatest(CacheOf(all + rows), r);
    forall r | r in some && now(r)
      ensures was(r)
    {
      if !was(r) {
        LatestEpochGrows(all, rows, r);
      }
    }
    FilterIdempotent(some, was, now);
  }

  // ----- the topology log of a windowed ledger -----

  /** From where on the trimmed log is as good as the whole one. */
  function Horizon(s: LedgerState, all: seq<Row>): Epoch {
    if Unpinned(s) == [] then MaxEpoch(all) else MinEpoch(Unpinned(s))
  }

  /** Every event came from an appended row. */
  ghost predicate FromRows(log: seq<Event>, all: seq<Row>) {
    forall e :: e in log ==> exists r :: r in all && EventOf(r) == e
  }

  ghost predicate LogHolds(log: seq<Event>, latest: Latest, all: seq<Row>) {
    Coherent(Tree(latest, log)) && EpochSorted(log) && FromRows(log, all)
  }

  /** The limited and the whole log put the same edge in force at every epoch from the horizon on. */
  ghost predicate SameInForce(log: seq<Event>, whole: seq<Event>, from: Epoch) {
    forall child: Id, epoch: Epoch :: from <= epoch ==> InForce(log, child, epoch) == InForce(whole, child, epoch)
  }

  lemma {:induction false} SameInForceGrows(log: seq<Event>, whole: seq<Event>, events: seq<Event>,
                                            child: Id, epoch: Epoch)
    requires InForce(log, child, epoch) == InForce(whole, child, epoch)
    ensures InForce(log + events, child, epoch) == InForce(whole + events, child, epoch)
  {
    if events == [] {
      assert log + [] == log && whole + [] == whole;
    } else {
      var front := events[..|events| - 1];
      SameInForceGrows(log, whole, front, child, epoch);
      assert (log + events)[..|log + events| - 1] == log + front;
      assert (whole + events)[..|whole + events| - 1] == whole + front;
    }
  }

  /** Rows no earlier than any appended extend a sorted log by a sorted one. */
  lemma LogGrows(log: seq<Event>, latest: Latest, all: seq<Row>, rows: seq<Row>)
    requires LogHolds(log, latest, all) && TimeOrdered(all + rows)
    ensures var events := NaiveEvents(latest, rows);
            LogHolds(log + events, AdvanceAll(latest, events), all + rows)
  {
    var events := NaiveEvents(latest, rows);
    NaiveEventsAreRows(latest, rows);
    ApplyKeepsCoherent(Tree(latest, log), events);
    forall e, f | e in log && f in events
      ensures e.epoch <= f.epoch
    {
      var x :| x in all && EventOf(x) == e;
      var y :| y in rows && EventOf(y) == f;
      BeforeAppended(all, rows, x, y);
    }
  }

  lemma TrimKeepsLog(log: seq<Event>, latest: Latest, all: seq<Row>, window: Epoch)
    requires LogHolds(log, latest, all)
    ensures LogHolds(Trim.Trimmed(log, window), latest, all)
  {
    Trim.TrimKeepsCoherent(Tree(latest, log), window);
    Trim.TrimKeepsSorted(log, window);
    var kept := Trim.Trimmed(log, window);
    forall e | e in kept
      ensures e in log
    {
      var p :| 0 <= p < |kept| && kept[p] == e;
      var i := Trim.RankOnto(log, window, |log|, p);
      Trim.KeptAtRank(log, window, i);
    }
  }

  // ----- whole runs -----

  ghost predicate WindowHolds(s: LedgerState, all: seq<Row>, tree: Tree) {
    && Tracks(s, all, tree) && Windowed(s, all)
    && LogHolds(s.tree.log, s.tree.latest, all) && LogHolds(tree.log, tree.latest, all)
    && SameInForce(s.tree.log, tree.log, Horizon(s, all))
  }

  /** A window that got shorter has a later horizon. */
  lemma HorizonMoves(a: LedgerState, b: LedgerState, all: seq<Row>)
    requires Windowed(a, all) && Windowed(b, all) && |Unpinned(b)| <= |Unpinned(a)|
    ensures Horizon(a, all) <= Horizon(b, all)
  {
    SuffixEpochs(all, Gone(a, all), Gone(b, all));
    SuffixEpochs(all, Gone(a, all), |all|);
  }

  /** The later a suffix starts, the later its earliest row; no row is after the latest of all. */
  lemma SuffixEpochs(rows: seq<Row>, i: nat, j: nat)
    requires i <= j <= |rows|
    ensures rows[j..] != [] ==> MinEpoch(rows[i..]) <= MinEpoch(rows[j..])
    ensures rows[i..] != [] ==> MinEpoch(rows[i..]) <= MaxEpoch(rows)
  {
    MinIsLeast(rows[i..]);
    MinIsLeast(rows[j..]);
    MaxIsGreatest(rows);
    if j < |rows| {
      var r :| r in rows[j..] && r.epoch == MinEpoch(rows[j..]);
      var k :| j <= k < |rows| && rows[k] == r;
      assert rows[i..][k - i] == r;
    }
    if i < |rows| {
      assert rows[i..][0] in rows && rows[i..][0] in rows[i..];
    }
  }

  lemma TrimmedSameInForce(log: seq<Event>, whole: seq<Event>, from: Epoch, to: Epoch)
    requires SameInForce(log, whole, from) && from <= to
    ensures SameInForce(Trim.Trimmed(log, to), whole, to)
  {
    forall child: Id, epoch: Epoch | to <= epoch
      ensures InForce(Trim.Trimmed(log, to), child, epoch) == InForce(whole, child, epoch)
    {
      Trim.TrimPreservesInForce(log, to, child, epoch);
    }
  }

  lemma EvictedAllHolds(size: Sizer, s: LedgerState, all: seq<Row>, tree: Tree)
    requires WindowHolds(s, all, tree) && TimeOrdered(all)
    ensures WindowHolds(EvictedAll(size, s), all, tree)
  {
    EvictedAllTracks(size, s, all, tree);
    EvictedAllKeepsWindowed(size, s, all);
    HorizonMoves(s, EvictedAll(size, s), all);
  }

  lemma EnforcedHolds(size: Sizer, s: LedgerState, all: seq<Row>, tree: Tree)
    requires WindowHolds(s, all, tree) && TimeOrdered(all)
    ensures WindowHolds(Enforced(size, s), all, tree)
  {
    var evicted := EvictedAll(size, s);
    EvictedAllHolds(size, s, all, tree);
    EnforcedTracks(size, s, all, tree);
    WindowStartIsOldest(evicted);
    if MustEvict(s) && WindowStart(evicted).Some? {
      TrimHolds(evicted, Enforced(size, s), all, tree);
    }
  }

  lemma TrimHolds(evicted: LedgerState, after: LedgerState, all: seq<Row>, tree: Tree)
    requires WindowHolds(evicted, all, tree) && Tracks(after, all, tree)
    requires after == evicted.(tree := evicted.tree.(log := Trim.Trimmed(evicted.tree.log, Horizon(evicted, all))))
    ensures WindowHolds(after, all, tree)
  {
    TrimKeepsLog(evicted.tree.log, evicted.tree.latest, all, Horizon(evicted, all));
    TrimmedSameInForce(evicted.tree.log, tree.log, Horizon(evicted, all), Horizon(evicted, all));
    assert PinnedRows(after) == PinnedRows(evicted) && Unpinned(after) == Unpinned(evicted);
  }

  /** Sealing and splitting move rows about but leave the window as a sequence alone. */
  lemma RelaidHolds(s: LedgerState, after: LedgerState, all: seq<Row>, tree: Tree)
    requires WindowHolds(s, all, tree) && Sound(after)
    requires after.pinned == s.pinned && after.tree == s.tree && after.poses == s.poses
    requires Unpinned(after) == Unpinned(s)
    ensures WindowHolds(after, all, tree)
  {
    SameRowsTrack(s, after, all, tree);
  }

  lemma HorizonGrows(s: LedgerState, all: seq<Row>, tree: Tree, rows: seq<Row>, bytes: nat)
    requires Windowed(s, all) && TimeOrdered(all + rows)
    ensures Horizon(s, all) <= Horizon(Grown(s, tree, rows, bytes), all + rows)
  {
    var grown := Grown(s, tree, rows, bytes);
    GrownRows(s, tree, rows, bytes);
    MinIsLeast(Unpinned(s));
    MinIsLeast(Unpinned(grown));
    if Unpinned(grown) == [] {
      assert all + rows == all;
    } else {
      forall r | r in Unpinned(grown)
        ensures Horizon(s, all) <= r.epoch
      {
        if r in rows {
          AllBefore(all, rows, r, Unpinned(s));
        }
      }
    }
  }

  lemma AllBefore(all: seq<Row>, rows: seq<Row>, row: Row, window: seq<Row>)
    requires TimeOrdered(all + rows) && row in rows
    requires forall r :: r in window ==> r in all
    ensures MaxEpoch(all) <= row.epoch
    ensures window != [] ==> MinEpoch(window) <= row.epoch
  {
    forall x | x in all
      ensures x.epoch <= row.epoch
    {
      BeforeAppended(all, rows, x, row);
    }
    MaxIsGreatest(all);
    MinIsLeast(window);
    if window != [] {
      assert window[0] in window;
    }
  }

  lemma GrownHolds(s: LedgerState, all: seq<Row>, tree: Tree, rows: seq<Row>, bytes: nat)
    requires WindowHolds(s, all, tree) && TimeOrdered(all + rows) && Accepted(tree.latest, rows)
    ensures WindowHolds(Grown(s, Ingested(s.tree, rows), rows, bytes), all + rows, Ingested(tree, rows))
  {
    var events := NaiveEvents(tree.latest, rows);
    var grown := Grown(s, Ingested(s.tree, rows), rows, bytes);
    GrownTracks(s, all, tree, rows, bytes, Ingested(s.tree, rows));
    GrownKeepsWindowed(s, all, Ingested(s.tree, rows), rows, bytes);
    LogGrows(s.tree.log, s.tree.latest, all, rows);
    LogGrows(tree.log, tree.latest, all, rows);
    HorizonGrows(s, all, Ingested(s.tree, rows), rows, bytes);
    forall child: Id, epoch: Epoch | Horizon(grown, all + rows) <= epoch
      ensures InForce(s.tree.log + events, child, epoch) == InForce(tree.log + events, child, epoch)
    {
      SameInForceGrows(s.tree.log, tree.log, events, child, epoch);
    }
  }

  lemma {:induction false} RunHoldsWindow(size: Sizer, ops: seq<Op>)
    requires TimeOrdered(AppendedRows(ops))
    ensures WindowHolds(Run(size, ops), AppendedRows(ops), HistoryTree(ops))
  {
    RunTracks(size, ops);
    if ops != [] {
      var front, last := ops[..|ops| - 1], ops[|ops| - 1];
      var s, all, tree := Run(size, front), AppendedRows(front), HistoryTree(front);
      PrefixOrdered(ops);
      RunHoldsWindow(size, front);
      match last
      case SetLimit(limit) =>
        RelaidHolds(s, s.(limit := limit), all, tree);
        SplitKeepsLedgerRows(size, s.(limit := limit));
        RelaidHolds(s.(limit := limit), SplitSealed(size, s.(limit := limit)), all, tree);
        EnforcedHolds(size, SplitSealed(size, s.(limit := limit)), all, tree);
      case Append(rows, bytes) =>
        AcceptedIsAppended(s, rows);
        if Accepted(tree.latest, rows) {
          var grown := Grown(s, Ingested(s.tree, rows), rows, bytes);
          AppendedRowsGrow(ops);
          GrownHolds(s, all, tree, rows, bytes);
          SealKeepsRows(size, grown);
          RelaidHolds(grown, SealedTail(size, grown), all + rows, Ingested(tree, rows));
          EnforcedHolds(size, SealedTail(size, grown), all + rows, Ingested(tree, rows));
        }
    }
  }

  lemma AppendedRowsGrow(ops: seq<Op>)
    requires ops != []
    ensures var front, last := ops[..|ops| - 1], ops[|ops| - 1];
            AppendedRows(ops) == if last.Append? && Accepted(HistoryTree(front).latest, last.rows)
                                 then AppendedRows(front) + last.rows else AppendedRows(front)
  {
    var front, last := ops[..|ops| - 1], ops[|ops| - 1];
    if last.Append? && Accepted(HistoryTree(front).latest, last.rows) {
      assert History(ops)[..|History(front)|] == History(front);
    }
  }

  lemma PrefixOrdered(ops: seq<Op>)
    requires ops != [] && TimeOrdered(AppendedRows(ops))
    ensures TimeOrdered(AppendedRows(ops[..|ops| - 1]))
  {
    AppendedRowsGrow(ops);
    var front := AppendedRows(ops[..|ops| - 1]);
    assert forall i :: 0 <= i < |front| ==> AppendedRows(ops)[i] == front[i];
  }

  // ----- what the window answers -----

  /** Rows that have left a window are not after its start. */
  lemma GoneRowsAreOlder(s: LedgerState, all: seq<Row>, row: Row)
    requires Sound(s) && Windowed(s, all) && TimeOrdered(all) && WindowStart(s).Some? && row in all[..Gone(s, all)]
    ensures row.epoch <= WindowStart(s).value
  {
    WindowStartIsOldest(s);
    var k, start := Gone(s, all), MinEpoch(Unpinned(s));
    assert all == all[..k] + Unpinned(s);
    MinIsLeast(Unpinned(s));
    var first :| first in Unpinned(s) && first.epoch == start;
    BeforeAppended(all[..k], Unpinned(s), row, first);
  }

  lemma WindowedFilter(s: LedgerState, all: seq<Row>, keep: Row -> bool)
    requires Sound(s) && Windowed(s, all) && TimeOrdered(all) && WindowStart(s).Some?
    requires forall r :: keep(r) ==> WindowStart(s).value < r.epoch
    ensures Filter(StoredRows(s), keep) == Filter(all, keep)
  {
    var k := Gone(s, all);
    forall r | r in all[..k]
      ensures !keep(r)
    {
      GoneRowsAreOlder(s, all, r);
    }
    assert forall r :: r in PinnedRows(s) ==> r in all[..k];
    FilterNone(all[..k], keep);
    FilterNone(PinnedRows(s), keep);
    assert all == all[..k] + Unpinned(s);
    FilterConcat(all[..k], Unpinned(s), keep);
    FilterConcat(PinnedRows(s), Unpinned(s), keep);
  }

  /** The rows accepted by a run are in time order, and the ledger it reaches holds them in full from `start`. */
  ghost predicate WindowedRun(size: Sizer, ops: seq<Op>, start: Epoch) {
    TimeOrdered(AppendedRows(ops)) && WindowStart(Run(size, ops)) == Some(start)
  }

  /** Every appended row strictly after the window's start is stored, in append order. */
  lemma {:induction false} WindowIsComplete(size: Sizer, ops: seq<Op>, start: Epoch, keep: Row -> bool)
    requires WindowedRun(size, ops, start)
    requires forall r :: keep(r) ==> start < r.epoch
    ensures Filter(StoredRows(Run(size, ops)), keep) == Filter(AppendedRows(ops), keep)
  {
    RunHoldsWindow(size, ops);
    WindowedFilter(Run(size, ops), AppendedRows(ops), keep);
  }

  /** Queries for a range after the window's start select what the never-evicting ledger selects. */
  lemma {:induction false} WindowQueries(size: Sizer, ops: seq<Op>, start: Epoch, filter: SpatiotemporalFilter)
    requires WindowedRun(size, ops, start)
    requires filter.timeRange.Some? && start < filter.timeRange.value.0
    ensures var s, u := Run(size, ops), Run(size, Unlimited(ops));
            && Matching(filter, StoredRows(s)) == Matching(filter, StoredRows(u))
            && (filter.origin.None? ==> Query(s, filter) == Query(u, filter))
  {
    SamePoses(size, ops);
    WindowIsComplete(size, ops, start, (r: Row) => Passes(filter, r));
    if filter.origin.None? {
      WindowHasSegments(size, ops);
      PruningIsSound(size, ops, filter);
      PruningIsSound(size, Unlimited(ops), filter);
    }
  }

  lemma WindowHasSegments(size: Sizer, ops: seq<Op>)
    requires WindowStart(Run(size, ops)).Some?
    ensures AllSegments(Run(size, ops)) != [] && AllSegments(Run(size, Unlimited(ops))) != []
  {
    var s, u := Run(size, ops), Run(size, Unlimited(ops));
    RunTracks(size, ops);
    WindowStartIsOldest(s);
    RunKeepsLatest(size, ops);
    SamePoses(size, ops);
    IterationOrder(u);
    assert Unpinned(s)[0] in StoredRows(s);
  }

  /** From the window's start on, every parent is the one the never-evicting ledger names. */
  lemma WindowParents(size: Sizer, ops: seq<Op>, start: Epoch, child: Id, epoch: Epoch)
    requires WindowedRun(size, ops, start)
    requires start <= epoch
    ensures ParentAt(Run(size, ops).tree, child, epoch) == ParentAt(Run(size, Unlimited(ops)).tree, child, epoch)
  {
    var s, tree := Run(size, ops), HistoryTree(ops);
    SamePoses(size, ops);
    RunHoldsWindow(size, ops);
    WindowStartIsOldest(s);
    ParentAtIsInForce(s.tree, child, epoch);
    ParentAtIsInForce(tree, child, epoch);
    assert InForce(s.tree.log, child, epoch) == InForce(tree.log, child, epoch);
  }

  lemma {:induction false} SameParentsSameClimb(a: Tree, b: Tree, epoch: Epoch, current: Id, visited: set<Id>)
    requires a.latest == b.latest
    requires forall child :: ParentAt(a, child, epoch) == ParentAt(b, child, epoch)
    ensures Climb(a, epoch, current, visited) == Climb(b, epoch, current, visited)
    decreases a.latest.Keys - visited
  {
    var parent := ParentAt(a, current, epoch);
    assert parent == ParentAt(b, current, epoch);
    if parent.Some? && IsHop(a, parent.value) && parent.value !in visited {
      SameParentsSameClimb(a, b, epoch, parent.value, visited + {parent.value});
    }
  }

  /** And so is every chain. */
  lemma {:induction false} WindowAncestry(size: Sizer, ops: seq<Op>, start: Epoch, entity: Id, epoch: Epoch)
    requires WindowedRun(size, ops, start)
    requires start <= epoch
    ensures AncestryAt(Run(size, ops).tree, entity, epoch) == AncestryAt(Run(size, Unlimited(ops)).tree, entity, epoch)
  {
    var a, b := Run(size, ops).tree, Run(size, Unlimited(ops)).tree;
    RunTracks(size, ops);
    SamePoses(size, ops);
    forall child
      ensures ParentAt(a, child, epoch) == ParentAt(b, child, epoch)
    {
      WindowParents(size, ops, start, child, epoch);
    }
    SameParentsSameClimb(a, b, epoch, entity, {entity});
  }

  /** Rows up to `start` matter to a scan only when there is no later candidate. */
  lemma {:induction false} LaterRowsDecide(rows: seq<Row>, start: Epoch, id: Id, epoch: Epoch)
    ensures var later := Filter(rows, (r: Row) => start < r.epoch);
            var full, part := ScannedRow(rows, id, epoch), ScannedRow(later, id, epoch);
            if part.Some? then full == part && start < part.value.epoch else full.None? || full.value.epoch <= start
  {
    if rows != [] {
      var front, last := rows[..|rows| - 1], rows[|rows| - 1];
      assert rows == front + [last];
      LaterRowsDecide(front, start, id, epoch);
      FilterSnoc(front, last, (r: Row) => start < r.epoch);
      ScannedRowSnoc(front, last, id, epoch);
      ScannedRowSnoc(Filter(front, (r: Row) => start < r.epoch), last, id, epoch);
    }
  }

  /** The same later rows, in the same order, and a candidate among them: the same scan. */
  lemma SameLaterRowsSameScan(a: seq<Row>, b: seq<Row>, start: Epoch, id: Id, epoch: Epoch, row: Row)
    requires Filter(a, (r: Row) => start < r.epoch) == Filter(b, (r: Row) => start < r.epoch)
    requires row in b && row.id == id && start < row.epoch <= epoch
    ensures Scanned(a, id, epoch) == Scanned(b, id, epoch)
  {
    LaterRowsDecide(a, start, id, epoch);
    LaterRowsDecide(b, start, id, epoch);
    CandidateIsScanned(b, id, epoch, row);
  }

  /** The entity has a row in the window up to the query, or the query is not before its latest row. */
  ghost predicate InReach(rows: seq<Row>, start: Epoch, id: Id, epoch: Epoch) {
    || (exists r :: r in rows && r.id == id && start < r.epoch <= epoch)
    || (id in CacheOf(rows) && CacheOf(rows)[id].epoch <= epoch)
  }

  /** Poses within reach of the window match the ledger that never evicts. */
  lemma {:induction false} WindowPoses(size: Sizer, ops: seq<Op>, start: Epoch, id: Id, epoch: Epoch)
    requires WindowedRun(size, ops, start)
    requires InReach(AppendedRows(ops), start, id, epoch)
    ensures var s, u := Run(size, ops), Run(size, Unlimited(ops));
            Resolved(s.poses, StoredRows(s), id, epoch) == Resolved(u.poses, StoredRows(u), id, epoch)
  {
    var s, u, all := Run(size, ops), Run(size, Unlimited(ops)), AppendedRows(ops);
    SamePoses(size, ops);
    if !(id in s.poses && s.poses[id].epoch <= epoch) {
      var r :| r in all && r.id == id && start < r.epoch <= epoch;
      WindowIsComplete(size, ops, start, (r: Row) => start < r.epoch);
      SameLaterRowsSameScan(StoredRows(s), all, start, id, epoch, r);
    }
  }

  lemma SamePoses(size: Sizer, ops: seq<Op>)
    ensures var s, u := Run(size, ops), Run(size, Unlimited(ops));
            && s.poses == u.poses == CacheOf(AppendedRows(ops))
            && StoredRows(u) == AppendedRows(ops) && u.tree == HistoryTree(ops)
  {
    UnlimitedHistory(ops);
    UnlimitedKeepsAll(size, Unlimited(ops));
    RunTracks(size, ops);
    RunTracks(size, Unlimited(ops));
  }

  lemma CandidateIsScanned(rows: seq<Row>, id: Id, epoch: Epoch, row: Row)
    requires row in rows && row.id == id && row.epoch <= epoch
    ensures ScannedRow(rows, id, epoch).Some? && row.epoch <= ScannedRow(rows, id, epoch).value.epoch
  {
    var k :| 0 <= k < |rows| && rows[k] == row;
    assert Candidate(rows, id, epoch, k);
  }

  /** Equal rows at the latest epochs, in order, make equal best rows. */
  lemma SameLatestSameBest(stored: seq<Row>, all: seq<Row>, wanted: Option<set<Id>>,
                                              cutoff: Option<Epoch>, id: Id)
    requires LatestKept(stored, all) && StillLatest(CacheOf(all), stored) == StillLatest(CacheOf(all), all)
    ensures BestRow(stored, wanted, cutoff, id) == BestRow(all, wanted, cutoff, id)
  {
    SameBestRow(stored, all, wanted, cutoff, id);
    if BestRow(all, wanted, cutoff, id).Some? {
      BestIsLatest(all, wanted, cutoff, id);
      forall r | r in all && r.id in CacheOf(all)
        ensures r.epoch <= CacheOf(all)[r.id].epoch
      {
        var latest := RowsAreNotAfterLatest(all, r);
      }
      LatestRowsDecide(all, CacheOf(all), wanted, cutoff, id);
      LatestRowsDecide(stored, CacheOf(all), wanted, cutoff, id);
    }
  }

  lemma SameBestRowsOf(stored: seq<Row>, all: seq<Row>, wanted: Option<set<Id>>, cutoff: Option<Epoch>)
    requires LatestKept(stored, all) && StillLatest(CacheOf(all), stored) == StillLatest(CacheOf(all), all)
    ensures BestRows(stored, wanted, cutoff) == BestRows(all, wanted, cutoff)
  {
    forall id
      ensures BestRow(stored, wanted, cutoff, id) == BestRow(all, wanted, cutoff, id)
    {
      SameLatestSameBest(stored, all, wanted, cutoff, id);
    }
    SameBestSameMap(stored, all, wanted, cutoff);
  }

  lemma SameBestSameMap(some: seq<Row>, others: seq<Row>, wanted: Option<set<Id>>, cutoff: Option<Epoch>)
    requires forall id :: BestRow(some, wanted, cutoff, id) == BestRow(others, wanted, cutoff, id)
    ensures BestRows(some, wanted, cutoff) == BestRows(others, wanted, cutoff)
  {
    var a, b := BestRows(some, wanted, cutoff), BestRows(others, wanted, cutoff);
    forall id
      ensures id in a <==> id in b
      ensures id in a && id in b ==> a[id] == b[id]
    {
      assert BestRow(some, wanted, cutoff, id) == BestRow(others, wanted, cutoff, id);
      BestRowHasId(some, wanted, cutoff, id);
      BestRowHasId(others, wanted, cutoff, id);
    }
  }

  /** In time order `current_state` even answers with the same rows. */
  lemma {:induction false} SameCurrentRows(size: Sizer, ops: seq<Op>, wanted: Option<set<Id>>, notBefore: Option<Epoch>)
    requires TimeOrdered(AppendedRows(ops)) && AppendedRows(ops) != []
    ensures State(StoredRows(Run(size, ops)), wanted, notBefore)
         == State(StoredRows(Run(size, Unlimited(ops))), wanted, notBefore)
  {
    var s, all := Run(size, ops), AppendedRows(ops);
    SamePoses(size, ops);
    RunHoldsWindow(size, ops);
    RunKeepsLatest(size, ops);
    SameLatestRows(s, all);
    SameCutoff(StoredRows(s), all, notBefore);
    SameBestRowsOf(StoredRows(s), all, wanted, Cutoff(all, notBefore));
  }

  lemma SameLatestRows(s: LedgerState, all: seq<Row>)
    requires Windowed(s, all)
    ensures StillLatest(s.poses, StoredRows(s)) == StillLatest(s.poses, all)
  {
    var latest, k := (r: Row) => AtLatest(s.poses, r), Gone(s, all);
    assert all == all[..k] + Unpinned(s);
    FilterConcat(PinnedRows(s), Unpinned(s), latest);
    FilterConcat(all[..k], Unpinned(s), latest);
  }

  /** A best row at its entity's latest epoch is found among the rows at their latest epoch. */
  lemma {:induction false} LatestRowsDecide(rows: seq<Row>, poses: PoseCache, wanted: Option<set<Id>>,
                                            cutoff: Option<Epoch>, id: Id)
    requires forall r :: r in rows && r.id in poses ==> r.epoch <= poses[r.id].epoch
    ensures var full, part := BestRow(rows, wanted, cutoff, id), BestRow(StillLatest(poses, rows), wanted, cutoff, id);
            if part.Some? then full == part else full.None? || !AtLatest(poses, full.value)
  {
    if rows != [] {
      var front, last := rows[..|rows| - 1], rows[|rows| - 1];
      LatestRowsDecide(front, poses, wanted, cutoff, id);
      var kept := StillLatest(poses, front);
      FilterMembers(front, (r: Row) => AtLatest(poses, r));
      assert last in rows;
      if AtLatest(poses, last) {
        assert (kept + [last])[..|kept|] == kept;
      }
    }
  }
}
