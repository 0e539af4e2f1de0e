/** The mutable ledger: every method is tied to a function of the ledger as a value. */
module Ledgers {
  import opened Prelude
  import opened Identity
  import opened Rows
  import opened Quaternions
  import opened Segments
  import opened Topology
  import opened Ingest
  import opened IngestPasses
  import opened Storage
  import opened TransformTrees
  import opened Runs
  import opened FrameChains
  import opened Poses
  import opened PresentResolution
  import opened LedgerModel
  import opened CurrentState
  import opened Queries

  /** Measures a batch in one pass over its epochs. */
  method NewSegment(rows: seq<Row>, bytes: nat) returns (segment: Segment)
    ensures segment == Measured(rows, bytes)
  {
    var minEpoch: Epoch, maxEpoch: Epoch := EPOCH_MAX, EPOCH_MIN;
    for i := 0 to |rows|
      invariant minEpoch == MinEpoch(rows[..i])
      invariant maxEpoch == MaxEpoch(rows[..i])
    {
      assert rows[..i + 1][..i] == rows[..i];
      if rows[i].epoch <= minEpoch {
        minEpoch := rows[i].epoch;
      }
      if maxEpoch <= rows[i].epoch {
        maxEpoch := rows[i].epoch;
      }
    }
    assert rows[..|rows|] == rows;
    return Segment(rows, minEpoch, maxEpoch, bytes);
  }

  class Ledger {
    const size: Sizer
    const tree: TransformTree
    var pinned: Option<Segment>
    var segments: seq<Segment>
    var tail: seq<Segment>
    var residentBytes: int
    var memoryLimit: Option<nat>
    var latestPose: PoseCache

    ghost function State(): LedgerState
      reads this, tree
    {
      LedgerState(pinned, segments, tail, residentBytes, memoryLimit, tree.State(), latestPose)
    }

    constructor (size: Sizer)
      ensures this.size == size && fresh(tree)
      ensures State() == EMPTY_LEDGER
    {
      this.size := size;
      tree := new TransformTree();
      pinned, segments, tail, residentBytes, memoryLimit, latestPose := None, [], [], 0, None, map[];
    }

    /**
     Validates and appends a batch. A batch that is refused, for an abstract id or a cycle,
     leaves every field as it was.
     */
    method Append(rows: seq<Row>, bytes: nat) returns (error: Option<AppendError>)
      modifies this, tree
      ensures error == AppendVerdict(old(State()), rows)
      ensures State() == Appended(size, old(State()), rows, bytes)
      ensures error.Some? ==> State() == old(State())
    {
      var invalid := ValidateFrames(rows);
      if invalid.Some? {
        return Some(InvalidFrame(invalid.value));
      }
      ghost var before := State();
      var rejected := AppendValidated(rows, bytes);
      ValidatedAppend(size, before, rows, bytes);
      return if rejected.Some? then Some(Rejected(rejected.value)) else None;
    }

    method AppendValidated(rows: seq<Row>, bytes: nat) returns (rejected: Option<IngestError>)
      modifies this, tree
      ensures rejected == var verdict := Verdict(old(tree.latest), rows);
                          if verdict.Err? then Some(verdict.error) else None
      ensures State() == if rejected.Some? then old(State())
                         else var grown := Grown(old(State()), Ingested(old(tree.State()), rows), rows, bytes);
                              Enforced(size, SealedTail(size, grown))
    {
      ghost var before := State();
      var segment := NewSegment(rows, bytes);
      rejected := Derive(rows);
      if rejected.None? {
        ghost var grown := Grown(before, Ingested(before.tree, rows), rows, bytes);
        assert State().(tail := tail + [segment], residentBytes := residentBytes + segment.bytes) == grown;
        PushSegment(segment);
      }
    }

    /** Folds an incoming batch into the topology, then into the pose cache; or into neither. */
    method Derive(rows: seq<Row>) returns (rejected: Option<IngestError>)
      modifies this`latestPose, tree
      ensures rejected == var verdict := Verdict(old(tree.latest), rows);
                          if verdict.Err? then Some(verdict.error) else None
      ensures State() == if rejected.Some? then old(State())
                         else old(State()).(tree := Ingested(old(tree.State()), rows),
                                            poses := Refreshed(old(latestPose), rows))
    {
      var outcome := tree.IngestBatch(rows);
      if outcome.Err? {
        return Some(outcome.error);
      }
      UpdatePoseCache(rows, outcome.value.latestRows);
      return None;
    }

    static method ValidateFrames(rows: seq<Row>) returns (invalid: Option<Id>)
      ensures invalid == FirstAbstractFrame(rows)
    {
      for i := 0 to |rows|
        invariant FirstAbstractFrame(rows[..i]).None?
      {
        assert rows[..i + 1][..i] == rows[..i];
        if rows[i].frame.IsAbstract() {
          FirstAbstractFrameStays(rows, i + 1);
          return Some(rows[i].frame);
        }
      }
      assert rows[..|rows|] == rows;
      return None;
    }

    /** Takes each entity's winning row into the cache, if it is strictly later than what is there. */
    method UpdatePoseCache(rows: seq<Row>, latestRows: map<Id, nat>)
      requires latestRows == LatestRows(rows)
      modifies this`latestPose
      ensures latestPose == Refreshed(old(latestPose), rows)
    {
      var before := latestPose;
      ghost var target := Refreshed(before, rows);
      var cache, remaining := before, latestRows.Keys;
      while remaining != {}
        invariant remaining <= latestRows.Keys
        invariant forall id :: id in cache <==> id in before || (id in latestRows && id !in remaining)
        invariant forall id :: id in latestRows && id !in remaining ==> id in target && cache[id] == target[id]
        invariant forall id :: id in before && (id in latestRows ==> id in remaining) ==> cache[id] == before[id]
        decreases remaining
      {
        var id :| id in remaining;
        var row := rows[FirstLatestIndex(rows, latestRows, id)];
        RefreshedBy(before, rows, latestRows, id);
        if id !in cache || row.epoch > cache[id].epoch {
          cache := cache[id := LatestPose(row.frame, row.pose, row.epoch)];
        }
        remaining := remaining - {id};
      }
      IsRefreshed(before, rows, latestRows, cache);
      latestPose := cache;
    }

    method PushSegment(segment: Segment)
      modifies this, tree
      ensures var grown := old(State()).(tail := old(tail) + [segment],
                                         residentBytes := old(residentBytes) + segment.bytes);
              State() == Enforced(size, SealedTail(size, grown))
    {
      ghost var grown := State().(tail := tail + [segment], residentBytes := residentBytes + segment.bytes);
      residentBytes := residentBytes + segment.bytes;
      tail := tail + [segment];
      assert State() == grown;
      SealTailIfNeeded();
      EnforceMemoryLimit();
    }

    method SetMemoryLimit(limit: Option<nat>)
      modifies this, tree
      ensures State() == Limited(size, old(State()), limit)
    {
      memoryLimit := limit;
      SplitSealedSegments();
      EnforceMemoryLimit();
    }

    method SplitSealedSegments()
      modifies this`segments, this`residentBytes
      ensures State() == SplitSealed(size, old(State()))
    {
      var target, taken := SegmentTarget(memoryLimit), segments;
      segments := [];
      for i := 0 to |taken|
        invariant segments == SplitAll(size, taken[..i], target)
        invariant residentBytes == old(residentBytes) - BytesIn(taken[..i]) + BytesIn(segments)
      {
        SplitAllNext(size, taken, i, target);
        var cut := SplitOne(size, taken[i], target);
        residentBytes := residentBytes - taken[i].bytes + BytesIn(cut);
        segments := segments + cut;
      }
      assert taken[..|taken|] == taken;
    }

    method SealTailIfNeeded()
      modifies this`segments, this`tail, this`residentBytes
      ensures State() == SealedTail(size, old(State()))
    {
      var target, tailBytes := SegmentTarget(memoryLimit), BytesIn(tail);
      if |tail| <= SEGMENT_THRESHOLD && tailBytes <= target {
        return;
      }
      ghost var before := State();
      var merged, mergedBytes := RowsIn(tail), if |tail| == 1 then tail[0].bytes else size(RowsIn(tail));
      var sealed := Segments.SplitOversized(size, merged, mergedBytes, target);
      FullTailIsSealed(size, before, sealed);
      residentBytes := residentBytes - tailBytes + BytesIn(sealed);
      tail := [];
      segments := segments + sealed;
    }

    /** Evicts sealed segments until within the limit, then trims the topology log to the window. */
    method EnforceMemoryLimit()
      modifies this, tree
      ensures State() == Enforced(size, old(State()))
    {
      if memoryLimit.None? {
        return;
      }
      ghost var before := State();
      var evicted := false;
      while residentBytes > memoryLimit.value
        invariant memoryLimit == old(memoryLimit) && memoryLimit.Some?
        invariant tree.State() == old(tree.State())
        invariant EvictedAll(size, before) == EvictedAll(size, State())
        invariant evicted <==> State() != before || |segments| != |before.segments|
        invariant evicted ==> MustEvict(before)
        invariant !evicted ==> State() == before
        decreases |segments|
      {
        var gone := EvictOldestSegment();
        if !gone {
          break;
        }
        evicted := true;
      }
      assert EvictedAll(size, before) == State();
      if evicted {
        var start := FindWindowStart();
        if start.Some? {
          var _ := tree.TrimBefore(start.value);
        }
      }
    }

    /** Drops the sealed segment of least `maxEpoch`, pinning its rows that are still latest. */
    method EvictOldestSegment() returns (gone: bool)
      modifies this`pinned, this`segments, this`residentBytes
      ensures gone <==> old(segments) != []
      ensures State() == if gone then Evicted(size, old(State())) else old(State())
    {
      if segments == [] {
        return false;
      }
      ghost var before := State();
      var idx := OldestIndex();
      var newPinned := PinnedWithout(idx);
      residentBytes := residentBytes - segments[idx].bytes;
      segments := segments[..idx] + segments[idx + 1..];
      if pinned.Some? {
        residentBytes := residentBytes - pinned.value.bytes;
      }
      if newPinned.Some? {
        residentBytes := residentBytes + newPinned.value.bytes;
      }
      pinned := newPinned;
      assert State() == Without(before, idx, newPinned);
      return true;
    }

    /** The pinned rows that there will be once segment `idx` is gone, built before anything changes. */
    method PinnedWithout(idx: nat) returns (newPinned: Option<Segment>)
      requires idx < |segments|
      ensures newPinned == PinnedSegment(size, PinnedAfter(State(), idx))
    {
      var kept := FindStillLatest(segments[idx].rows);
      if pinned.Some? {
        kept := FindStillLatest(pinned.value.rows + kept);
      }
      if kept == [] {
        return None;
      }
      var segment := NewSegment(kept, size(kept));
      return Some(segment);
    }

    method OldestIndex() returns (idx: nat)
      requires segments != []
      ensures idx == Oldest(segments)
    {
      idx := 0;
      for i := 1 to |segments|
        invariant idx < i
        invariant forall j :: 0 <= j < i ==> segments[idx].maxEpoch <= segments[j].maxEpoch
        invariant forall j :: 0 <= j < idx ==> segments[idx].maxEpoch < segments[j].maxEpoch
      {
        if segments[i].maxEpoch < segments[idx].maxEpoch {
          idx := i;
        }
      }
    }

    method FindStillLatest(rows: seq<Row>) returns (kept: seq<Row>)
      ensures kept == StillLatest(latestPose, rows)
    {
      kept := [];
      for i := 0 to |rows|
        invariant kept == StillLatest(latestPose, rows[..i])
      {
        assert rows[..i + 1][..i] == rows[..i];
        if rows[i].id in latestPose && rows[i].epoch == latestPose[rows[i].id].epoch {
          kept := kept + [rows[i]];
        }
      }
      assert rows[..|rows|] == rows;
    }

    /** The least `minEpoch` over the sealed and unsealed segments that hold rows. */
    method FindWindowStart() returns (start: Option<Epoch>)
      ensures start == WindowStart(State())
    {
      var all := segments + tail;
      start := None;
      for i := 0 to |all|
        invariant start == LeastEpoch(all[..i])
      {
        assert all[..i + 1][..i] == all[..i];
        if all[i].rows != [] && (start.None? || all[i].minEpoch < start.value) {
          start := Some(all[i].minEpoch);
        }
      }
      assert all[..|all|] == all;
    }

    // ----- reading -----

    /** Every stored segment: pinned, then sealed, then tail. */
    ghost predicate AllExact()
      reads this, tree
    {
      AllMeasured(AllSegments(State()))
    }

    function Stored(): seq<Segment>
      reads this
    {
      (if pinned.Some? then [pinned.value] else []) + segments + tail
    }

    /** The filtered rows of the segments whose epoch range meets the filter's, in one batch. */
    method RunQuery(filter: SpatiotemporalFilter) returns (r: Result<seq<Row>, QueryError>)
      ensures r == Query(State(), filter)
    {
      var all := Stored();
      if all == [] {
        return Err(EmptyLedger);
      }
      var kept: seq<Row> := [];
      for i := 0 to |all|
        invariant FilterSegments(filter, all[..i]) == Ok(kept)
      {
        FilterSegmentsNext(filter, all, i);
        if filter.timeRange.None? || all[i].Overlaps(filter.timeRange.value.0, filter.timeRange.value.1) {
          var filtered := FilterRows(filter, all[i].rows);
          if filtered.Err? {
            FilterErrorStays(filter, all, i + 1);
            return filtered;
          }
          kept := kept + filtered.value;
        }
      }
      assert all[..|all|] == all;
      return Ok(kept);
    }

    /** The filtered batches one by one, errors included. */
    method StreamQuery(filter: SpatiotemporalFilter) returns (results: seq<Result<seq<Row>, QueryError>>)
      ensures results == Streamed(filter, AllSegments(State()))
    {
      var all := Stored();
      results := [];
      for i := 0 to |all|
        invariant results == Streamed(filter, all[..i])
      {
        assert all[..i + 1][..i] == all[..i];
        if filter.timeRange.None? || all[i].Overlaps(filter.timeRange.value.0, filter.timeRange.value.1) {
          var filtered := FilterRows(filter, all[i].rows);
          results := results + [filtered];
        }
      }
      assert all[..|all|] == all;
    }

    method LatestStoredEpoch() returns (latest: Option<Epoch>)
      ensures latest == GreatestEpoch(AllSegments(State()))
    {
      var all := Stored();
      latest := None;
      for i := 0 to |all|
        invariant latest == GreatestEpoch(all[..i])
      {
        assert all[..i + 1][..i] == all[..i];
        if all[i].rows != [] && (latest.None? || latest.value <= all[i].maxEpoch) {
          latest := Some(all[i].maxEpoch);
        }
      }
      assert all[..|all|] == all;
    }

    /** The best row of every wanted entity that is not too old; `None` for an empty ledger. */
    method FindCurrentState(wanted: Option<set<Id>>, notBefore: Option<Epoch>) returns (rows: Option<map<Id, Row>>)
      requires AllExact()
      ensures rows == if AllSegments(State()) == [] then None
                      else Some(CurrentState.State(StoredRows(State()), wanted, notBefore))
    {
      var all := Stored();
      if all == [] {
        return None;
      }
      IterationOrder(State());
      GreatestEpochIsGreatest(all);
      var cutoff := notBefore;
      if notBefore.None? {
        var latest := LatestStoredEpoch();
        cutoff := if latest.Some? then Some(WindowBefore(latest.value)) else None;
      }
      var best := ScanBest(all, wanted, cutoff);
      return Some(best);
    }

    /** The pose of an entity at the latest epoch not after `epoch`: cached, or found by a scan. */
    method ResolveFrameAt(id: Id, epoch: Epoch) returns (placement: Option<Placement>)
      ensures placement == Resolved(latestPose, StoredRows(State()), id, epoch)
    {
      if id in latestPose && latestPose[id].epoch <= epoch {
        return Some(Placement(latestPose[id].parent, latestPose[id].pose));
      }
      var all := Stored();
      IterationOrder(State());
      placement := ScanPoses(all, id, epoch);
    }

    // ----- frame chains -----

    /** Enters every hop of the chain from `id` into `frames`, composing inward from the root. */
    method AccumulatePosesToRoot(id: Id, epoch: Epoch, frames: FrameMap) returns (r: Result<FrameMap, ResolveError>)
      ensures r.Ok? ==> Accumulated(tree.State(), PresentLookups(State(), epoch), id, epoch, frames, r.value)
      ensures r.Err? ==> ResolveToRoot(tree.State(), PresentLookups(State(), epoch), id, epoch) == Err(r.error)
    {
      var up := tree.FindAncestry(id, epoch);
      if up.Err? {
        return Err(Broken(up.error));
      }
      var chain := up.value;
      AncestryIsNotEmpty(tree.State(), id, epoch);
      r := ComposeChain(chain, epoch, frames);
      if r.Ok? {
        ChainAccumulates(tree.State(), PresentLookups(State(), epoch), id, epoch, chain, frames, r.value);
      } else {
        assert |chain| >= 2;
      }
    }

    method ComposeChain(chain: seq<Id>, epoch: Epoch, frames: FrameMap) returns (r: Result<FrameMap, ResolveError>)
      requires chain != []
      ensures var placed, root := PresentLookups(State(), epoch), chain[|chain| - 1];
              && (r.Ok? <==> RootToNode(placed, chain).Ok?)
              && (r.Err? ==> |chain| >= 2 && RootToNode(placed, chain) == Err(r.error))
              && (r.Ok? ==> ChainEntered(placed, chain, 0, frames, r.value))
    {
      ghost var placed := PresentLookups(State(), epoch);
      var root := chain[|chain| - 1];
      var acc, result, i := IDENTITY, frames, |chain| - 1;
      while i > 0
        invariant 0 <= i < |chain|
        invariant RootToNode(placed, chain[i..]) == Ok(acc)
        invariant ChainEntered(placed, chain, i, frames, result)
        decreases i
      {
        var node := chain[i - 1];
        assert chain[i - 1..][1..] == chain[i..];
        var placement := ResolveFrameAt(node, epoch);
        assert placement == placed(node);
        if placement.None? {
          FailureSpreads(placed, chain, i - 1);
          return Err(NotFound(node));
        }
        acc := Compose(acc, placement.value.pose);
        EnterHop(placed, chain, i, frames, result, acc);
        result := result[node := Rooted(root, acc)];
        i := i - 1;
      }
      assert chain[0..] == chain;
      return Ok(result);
    }

    /** One entity's root and its pose there, or `None` where it does not resolve. */
    method FindRoot(id: Id, epoch: Epoch) returns (resolved: Option<Rooted>)
      ensures var answer := ResolveToRoot(tree.State(), PresentLookups(State(), epoch), id, epoch);
              resolved == if answer.Ok? then answer.value else None
    {
      var frames := AccumulatePosesToRoot(id, epoch, map[]);
      if frames.Err? {
        return None;
      }
      HopsOfSelf(tree.State(), PresentLookups(State(), epoch), id, epoch);
      if id in frames.value {
        return Some(frames.value[id]);
      }
      return None;
    }

    /**
     The frame map of several entities at one epoch, each chain's hops memoised. It succeeds
     exactly when every entity resolves, and every entry is what its key resolves to alone.
     */
    method BuildDynamicFrameMap(ids: seq<Id>, epoch: Epoch) returns (r: Result<FrameMap, ResolveError>)
      ensures var placed := PresentLookups(State(), epoch);
              && (r.Ok? <==> forall id :: id in ids ==> ResolveToRoot(tree.State(), placed, id, epoch).Ok?)
              && (r.Ok? ==> IsFrameMap(tree.State(), placed, ids, epoch, r.value))
    {
      ghost var placed := PresentLookups(State(), epoch);
      var frames: FrameMap := map[];
      for i := 0 to |ids|
        invariant forall id :: id in ids[..i] ==> ResolveToRoot(tree.State(), placed, id, epoch).Ok?
        invariant IsFrameMap(tree.State(), placed, ids[..i], epoch, frames)
      {
        assert ids[..i + 1] == ids[..i] + [ids[i]];
        ghost var before := frames;
        if ids[i] !in frames {
          var next := AccumulatePosesToRoot(ids[i], epoch, frames);
          if next.Err? {
            assert ids[i] in ids;
            return Err(next.error);
          }
          frames := next.value;
          MapGrows(tree.State(), placed, ids[..i], ids[i], epoch, before, frames);
        } else {
          MapHasIt(tree.State(), placed, ids[..i], ids[i], epoch, frames);
        }
      }
      assert ids[..|ids|] == ids;
      return Ok(frames);
    }

    /** Derives one more stored batch, on top of those before it. */
    method Replay(ghost earlier: seq<Segment>, segment: Segment) returns (rejected: Option<IngestError>)
      requires Replayed(earlier, tree.State(), latestPose)
      modifies this`latestPose, tree
      ensures rejected.None? ==> Replayed(earlier + [segment], tree.State(), latestPose)
      ensures rejected.Some? ==> !AllAccepted(EMPTY_TREE, BatchesOf(earlier + [segment]))
    {
      ReplayOne(earlier, segment, tree.State(), latestPose);
      rejected := Derive(segment.rows);
    }

    /** Rebuilds topology and pose cache from the stored batches, stopping at one it must refuse. */
    method RebuildDerivedState() returns (rejected: Option<IngestError>)
      requires tree.State() == EMPTY_TREE && latestPose == map[]
      modifies this`latestPose, tree
      ensures var batches := BatchesOf(old(Stored()));
              && (rejected.None? <==> AllAccepted(EMPTY_TREE, batches))
              && (rejected.None?
                  ==> tree.State() == IngestedAll(EMPTY_TREE, batches) && latestPose == RefreshedAll(batches))
    {
      var all := Stored();
      for i := 0 to |all|
        invariant Replayed(all[..i], tree.State(), latestPose)
      {
        NextSegment(all, i);
        rejected := Replay(all[..i], all[i]);
        if rejected.Some? {
          RefusalStays(all, i + 1);
          return;
        }
      }
      WholeReplayed(all, tree.State(), latestPose);
      return None;
    }
  }

  lemma WholeReplayed(all: seq<Segment>, tree: Tree, poses: PoseCache)
    requires Replayed(all[..|all|], tree, poses)
    ensures Replayed(all, tree, poses)
  {
    assert all[..|all|] == all;
  }

  lemma NextSegment(all: seq<Segment>, i: nat)
    requires i < |all|
    ensures all[..i + 1] == all[..i] + [all[i]]
  {
  }

  /** Tree and cache are those of the segments' batches, each of which was accepted. */
  ghost predicate Replayed(segments: seq<Segment>, tree: Tree, poses: PoseCache) {
    var batches := BatchesOf(segments);
    AllAccepted(EMPTY_TREE, batches) && tree == IngestedAll(EMPTY_TREE, batches) && poses == RefreshedAll(batches)
  }

  lemma ReplayOne(segments: seq<Segment>, last: Segment, tree: Tree, poses: PoseCache)
    requires Replayed(segments, tree, poses)
    ensures if Verdict(tree.latest, last.rows).Ok?
            then Replayed(segments + [last], Ingested(tree, last.rows), Refreshed(poses, last.rows))
            else !AllAccepted(EMPTY_TREE, BatchesOf(segments + [last]))
  {
    var batches := BatchesOf(segments);
    BatchesOfMore(segments, last);
    OneMoreBatch(EMPTY_TREE, batches, last.rows);
    RefreshedOneMore(batches, last.rows);
  }

  lemma BatchesOfMore(segments: seq<Segment>, last: Segment)
    ensures BatchesOf(segments + [last]) == BatchesOf(segments) + [last.rows]
  {
    assert (segments + [last])[..|segments|] == segments;
  }

  function BatchesOf(segments: seq<Segment>): seq<seq<Row>> {
    if segments == [] then [] else BatchesOf(segments[..|segments| - 1]) + [segments[|segments| - 1].rows]
  }

  lemma {:induction false} RefusalStays(segments: seq<Segment>, n: nat)
    requires n <= |segments| && !AllAccepted(EMPTY_TREE, BatchesOf(segments[..n]))
    ensures !AllAccepted(EMPTY_TREE, BatchesOf(segments))
  {
    if n == |segments| {
      assert segments[..n] == segments;
    } else {
      var front := segments[..|segments| - 1];
      assert front[..n] == segments[..n];
      RefusalStays(front, n);
      OneMoreBatch(EMPTY_TREE, BatchesOf(front), segments[|segments| - 1].rows);
    }
  }

  lemma FilterSegmentsNext(filter: SpatiotemporalFilter, segments: seq<Segment>, i: nat)
    requires i < |segments| && FilterSegments(filter, segments[..i]).Ok?
    ensures var kept := FilterBatch(filter, segments[i].rows);
            FilterSegments(filter, segments[..i + 1])
            == if !Visited(filter, segments[i]) then FilterSegments(filter, segments[..i])
               else if kept.Err? then kept
               else Ok(FilterSegments(filter, segments[..i]).value + kept.value)
  {
    assert segments[..i + 1][..i] == segments[..i];
  }

  lemma {:induction false} FilterErrorStays(filter: SpatiotemporalFilter, segments: seq<Segment>, n: nat)
    requires n <= |segments| && FilterSegments(filter, segments[..n]).Err?
    ensures FilterSegments(filter, segments) == FilterSegments(filter, segments[..n])
  {
    if n == |segments| {
      assert segments[..n] == segments;
    } else {
      assert segments[..|segments| - 1][..n] == segments[..n];
      FilterErrorStays(filter, segments[..|segments| - 1], n);
    }
  }

  /** Scans the segments in iteration order for the first row of highest epoch not after `epoch`. */
  method ScanPoses(segments: seq<Segment>, id: Id, epoch: Epoch) returns (best: Option<Placement>)
    ensures best == Scanned(RowsIn(segments), id, epoch)
  {
    var bestEpoch: Option<Epoch> := None;
    best := None;
    for b := 0 to |segments|
      invariant ScanStands(RowsIn(segments[..b]), id, epoch, bestEpoch, best)
    {
      var rows := segments[b].rows;
      assert RowsIn(segments[..b]) + rows[..0] == RowsIn(segments[..b]);
      for i := 0 to |rows|
        invariant ScanStands(RowsIn(segments[..b]) + rows[..i], id, epoch, bestEpoch, best)
      {
        assert RowsIn(segments[..b]) + rows[..i] + [rows[i]] == RowsIn(segments[..b]) + rows[..i + 1];
        ScannedRowSnoc(RowsIn(segments[..b]) + rows[..i], rows[i], id, epoch);
        if rows[i].id != id || rows[i].epoch > epoch || (bestEpoch.Some? && rows[i].epoch <= bestEpoch.value) {
          continue;
        }
        bestEpoch := Some(rows[i].epoch);
        best := Some(PlacementOf(rows[i]));
      }
      assert rows[..|rows|] == rows;
      assert segments[..b + 1][..b] == segments[..b];
    }
    assert segments[..|segments|] == segments;
  }

  ghost predicate ScanStands(seen: seq<Row>, id: Id, epoch: Epoch, bestEpoch: Option<Epoch>, best: Option<Placement>) {
    var row := ScannedRow(seen, id, epoch);
    && best == (if row.Some? then Some(PlacementOf(row.value)) else None)
    && bestEpoch == (if row.Some? then Some(row.value.epoch) else None)
  }

  /** What appending does once the frames are known to be valid. */
  lemma ValidatedAppend(size: Sizer, s: LedgerState, rows: seq<Row>, bytes: nat)
    requires FirstAbstractFrame(rows).None?
    ensures var verdict := Verdict(s.tree.latest, rows);
            && AppendVerdict(s, rows) == (if verdict.Err? then Some(Rejected(verdict.error)) else None)
            && Appended(size, s, rows, bytes)
               == if verdict.Err? then s
                  else Enforced(size, SealedTail(size, Grown(s, Ingested(s.tree, rows), rows, bytes)))
  {
  }

  lemma {:induction false} FirstAbstractFrameStays(rows: seq<Row>, n: nat)
    requires n <= |rows| && FirstAbstractFrame(rows[..n]).Some?
    ensures FirstAbstractFrame(rows) == FirstAbstractFrame(rows[..n])
  {
    if n == |rows| {
      assert rows[..n] == rows;
    } else {
      assert rows[..|rows| - 1][..n] == rows[..n];
      FirstAbstractFrameStays(rows[..|rows| - 1], n);
    }
  }

  lemma RefreshedBy(before: PoseCache, rows: seq<Row>, latestRows: map<Id, nat>, id: Id)
    requires latestRows == LatestRows(rows) && id in latestRows
    ensures var row := rows[FirstLatestIndex(rows, latestRows, id)];
            && id in Refreshed(before, rows)
            && Refreshed(before, rows)[id]
               == if id !in before || row.epoch > before[id].epoch then CachedFrom(row) else before[id]
  {
  }

  lemma IsRefreshed(before: PoseCache, rows: seq<Row>, latestRows: map<Id, nat>, after: PoseCache)
    requires latestRows == LatestRows(rows)
    requires forall id :: id in after <==> id in before || id in latestRows
    requires forall id :: id in latestRows ==> id in Refreshed(before, rows) && after[id] == Refreshed(before, rows)[id]
    requires forall id :: id in before && id !in latestRows ==> after[id] == before[id]
    ensures after == Refreshed(before, rows)
  {
    assert latestRows.Keys == IdsOf(rows);
    assert after.Keys == before.Keys + IdsOf(rows);
    forall id | id in after
      ensures after[id] == Refreshed(before, rows)[id]
    {
      if id !in latestRows {
        LatestIffSeen(rows, id);
      }
    }
  }

  function FirstLatestIndex(rows: seq<Row>, latestRows: map<Id, nat>, id: Id): (i: nat)
    requires latestRows == LatestRows(rows) && id in latestRows
    ensures i < |rows| && FirstLatest(rows, id) == Some(i)
  {
    latestRows[id]
  }
}
