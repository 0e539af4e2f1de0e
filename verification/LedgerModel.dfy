/** The ledger as a value, and what appends and limit changes do to it. */
module LedgerModel {
  import opened Prelude
  import opened Identity
  import opened Rows
  import opened Segments
  import opened Topology
  import opened Ingest
  import opened Poses
  import Trim

  const SEGMENT_THRESHOLD := 50
  const SEGMENT_TARGET_BYTES := 256 * 1024 * 1024
  const SEGMENTS_PER_LIMIT := 8

  datatype AppendError = InvalidFrame(frame: Id) | Rejected(error: IngestError)

  /**
   Pinned rows, then sealed segments, then the unsealed tail, in iteration order; with the
   byte account, the limit, the parent graph and the latest-pose cache.
   */
  datatype LedgerState = LedgerState(
    pinned: Option<Segment>,
    segments: seq<Segment>,
    tail: seq<Segment>,
    residentBytes: int,
    limit: Option<nat>,
    tree: Tree,
    poses: PoseCache)

  const EMPTY_LEDGER := LedgerState(None, [], [], 0, None, EMPTY_TREE, map[])

  function PinnedSegments(s: LedgerState): seq<Segment> {
    if s.pinned.Some? then [s.pinned.value] else []
  }

  function AllSegments(s: LedgerState): seq<Segment> {
    PinnedSegments(s) + s.segments + s.tail
  }

  function PinnedRows(s: LedgerState): seq<Row> {
    if s.pinned.Some? then s.pinned.value.rows else []
  }

  function PinnedBytes(s: LedgerState): nat {
    if s.pinned.Some? then s.pinned.value.bytes else 0
  }

  /** The rows outside `pinned`, in append order. */
  function Unpinned(s: LedgerState): seq<Row> {
    RowsIn(s.segments) + RowsIn(s.tail)
  }

  function StoredRows(s: LedgerState): seq<Row> {
    PinnedRows(s) + Unpinned(s)
  }

  /** Stored rows are the rows of all segments in iteration order. */
  lemma IterationOrder(s: LedgerState)
    ensures RowsIn(AllSegments(s)) == StoredRows(s)
    ensures BytesIn(AllSegments(s)) == PinnedBytes(s) + BytesIn(s.segments) + BytesIn(s.tail)
  {
    InConcat(PinnedSegments(s) + s.segments, s.tail);
    InConcat(PinnedSegments(s), s.segments);
    if s.pinned.Some? {
      InOne(s.pinned.value);
    }
  }

  /** The largest segment the ledger should hold. */
  function SegmentTarget(limit: Option<nat>): (target: nat)
    ensures 0 < target <= SEGMENT_TARGET_BYTES
  {
    if limit.None? || SEGMENT_TARGET_BYTES <= limit.value / SEGMENTS_PER_LIMIT then SEGMENT_TARGET_BYTES
    else if limit.value / SEGMENTS_PER_LIMIT < 1 then 1
    else limit.value / SEGMENTS_PER_LIMIT
  }

  /** A sealed segment as it is when within the target, else cut to size. */
  function SplitOne(size: Sizer, segment: Segment, target: nat): seq<Segment> {
    if WithinTarget(segment.bytes, target) then [segment]
    else SplitOversized(size, segment.rows, segment.bytes, target)
  }

  function SplitAll(size: Sizer, segments: seq<Segment>, target: nat): seq<Segment> {
    if segments == [] then []
    else SplitAll(size, segments[..|segments| - 1], target) + SplitOne(size, segments[|segments| - 1], target)
  }

  /** One more segment's share of a split, and of its bytes. */
  lemma SplitAllNext(size: Sizer, segments: seq<Segment>, i: nat, target: nat)
    requires i < |segments|
    ensures SplitAll(size, segments[..i + 1], target)
         == SplitAll(size, segments[..i], target) + SplitOne(size, segments[i], target)
    ensures BytesIn(SplitAll(size, segments[..i + 1], target))
         == BytesIn(SplitAll(size, segments[..i], target)) + BytesIn(SplitOne(size, segments[i], target))
    ensures BytesIn(segments[..i + 1]) == BytesIn(segments[..i]) + segments[i].bytes
    ensures BytesIn([segments[i]]) == segments[i].bytes
  {
    assert segments[..i + 1][..i] == segments[..i];
    InConcat(SplitAll(size, segments[..i], target), SplitOne(size, segments[i], target));
    InOne(segments[i]);
  }

  function SplitSealed(size: Sizer, s: LedgerState): LedgerState {
    var split := SplitAll(size, s.segments, SegmentTarget(s.limit));
    s.(segments := split, residentBytes := s.residentBytes - BytesIn(s.segments) + BytesIn(split))
  }

  /** The tail as one batch: a lone append as it is, several concatenated. */
  function TailBytes(size: Sizer, tail: seq<Segment>): nat {
    if |tail| == 1 then tail[0].bytes else size(RowsIn(tail))
  }

  predicate TailIsFull(s: LedgerState) {
    |s.tail| > SEGMENT_THRESHOLD || BytesIn(s.tail) > SegmentTarget(s.limit)
  }

  function SealedTail(size: Sizer, s: LedgerState): LedgerState {
    if !TailIsFull(s) then s
    else
      var sealed := SplitOversized(size, RowsIn(s.tail), TailBytes(size, s.tail), SegmentTarget(s.limit));
      s.(segments := s.segments + sealed, tail := [],
         residentBytes := s.residentBytes - BytesIn(s.tail) + BytesIn(sealed))
  }

  lemma FullTailIsSealed(size: Sizer, s: LedgerState, sealed: seq<Segment>)
    requires TailIsFull(s)
    requires sealed == SplitOversized(size, RowsIn(s.tail), TailBytes(size, s.tail), SegmentTarget(s.limit))
    ensures SealedTail(size, s)
         == s.(segments := s.segments + sealed, tail := [],
               residentBytes := s.residentBytes - BytesIn(s.tail) + BytesIn(sealed))
  {
  }

  /** The row is still at its entity's latest epoch. */
  predicate AtLatest(poses: PoseCache, row: Row) {
    row.id in poses && row.epoch == poses[row.id].epoch
  }

  function StillLatest(poses: PoseCache, rows: seq<Row>): seq<Row> {
    Filter(rows, (r: Row) => AtLatest(poses, r))
  }

  /** What stays pinned once segment `idx` goes: what was, and the victim's rows, if still latest. */
  function PinnedAfter(s: LedgerState, idx: nat): seq<Row>
    requires idx < |s.segments|
  {
    var survivors := StillLatest(s.poses, s.segments[idx].rows);
    if s.pinned.Some? then StillLatest(s.poses, s.pinned.value.rows + survivors) else survivors
  }

  function PinnedSegment(size: Sizer, rows: seq<Row>): Option<Segment> {
    if rows == [] then None else Some(Measured(rows, size(rows)))
  }

  /** Segment `idx` gone and `pinned` in place of what was pinned. */
  function Without(s: LedgerState, idx: nat, pinned: Option<Segment>): LedgerState
    requires idx < |s.segments|
  {
    s.(pinned := pinned, segments := s.segments[..idx] + s.segments[idx + 1..],
       residentBytes := s.residentBytes - s.segments[idx].bytes - PinnedBytes(s)
                        + (if pinned.Some? then pinned.value.bytes else 0))
  }

  function Evicted(size: Sizer, s: LedgerState): LedgerState
    requires s.segments != []
  {
    var idx := Oldest(s.segments);
    Without(s, idx, PinnedSegment(size, PinnedAfter(s, idx)))
  }

  predicate MustEvict(s: LedgerState) {
    s.limit.Some? && s.residentBytes > s.limit.value && s.segments != []
  }

  /** Eviction one sealed segment at a time, until within the limit or none is left. */
  function EvictedAll(size: Sizer, s: LedgerState): LedgerState
    decreases |s.segments|
  {
    if MustEvict(s) then EvictedAll(size, Evicted(size, s)) else s
  }

  /** The least `minEpoch` over the segments that hold rows. */
  function LeastEpoch(segments: seq<Segment>): Option<Epoch> {
    if segments == [] then None
    else
      var earlier, last := LeastEpoch(segments[..|segments| - 1]), segments[|segments| - 1];
      if last.rows != [] && (earlier.None? || last.minEpoch < earlier.value) then Some(last.minEpoch) else earlier
  }

  /** The epoch the ledger holds in full from: its oldest row outside `pinned`. */
  function WindowStart(s: LedgerState): Option<Epoch> {
    LeastEpoch(s.segments + s.tail)
  }

  /** The greatest `maxEpoch` over the segments that hold rows. */
  function GreatestEpoch(segments: seq<Segment>): Option<Epoch> {
    if segments == [] then None
    else
      var earlier, last := GreatestEpoch(segments[..|segments| - 1]), segments[|segments| - 1];
      if last.rows != [] && (earlier.None? || earlier.value <= last.maxEpoch) then Some(last.maxEpoch) else earlier
  }

  ghost function Enforced(size: Sizer, s: LedgerState): LedgerState {
    var after := EvictedAll(size, s);
    if MustEvict(s) && WindowStart(after).Some? then
      after.(tree := after.tree.(log := Trim.Trimmed(after.tree.log, WindowStart(after).value)))
    else after
  }

  /** An accepted batch derived from, and put on the tail. */
  function Grown(s: LedgerState, tree: Tree, rows: seq<Row>, bytes: nat): LedgerState {
    s.(tree := tree, poses := Refreshed(s.poses, rows),
       tail := s.tail + [Measured(rows, bytes)], residentBytes := s.residentBytes + bytes)
  }

  /** The first row expressed in an abstract frame, which validation refuses. */
  function FirstAbstractFrame(rows: seq<Row>): Option<Id> {
    if rows == [] then None
    else
      var earlier, last := FirstAbstractFrame(rows[..|rows| - 1]), rows[|rows| - 1];
      if earlier.Some? then earlier else if last.frame.IsAbstract() then Some(last.frame) else None
  }

  ghost function AppendVerdict(s: LedgerState, rows: seq<Row>): Option<AppendError> {
    if FirstAbstractFrame(rows).Some? then Some(InvalidFrame(FirstAbstractFrame(rows).value))
    else
      var verdict := Verdict(s.tree.latest, rows);
      if verdict.Err? then Some(Rejected(verdict.error)) else None
  }

  /** A rejected append changes nothing. */
  ghost function Appended(size: Sizer, s: LedgerState, rows: seq<Row>, bytes: nat): LedgerState {
    if AppendVerdict(s, rows).Some? then s
    else Enforced(size, SealedTail(size, Grown(s, Ingested(s.tree, rows), rows, bytes)))
  }

  ghost function Limited(size: Sizer, s: LedgerState, limit: Option<nat>): LedgerState {
    Enforced(size, SplitSealed(size, s.(limit := limit)))
  }

  // ----- runs -----

  datatype Op = Append(rows: seq<Row>, bytes: nat) | SetLimit(limit: Option<nat>)

  ghost function Step(size: Sizer, s: LedgerState, op: Op): LedgerState {
    match op
    case Append(rows, bytes) => Appended(size, s, rows, bytes)
    case SetLimit(limit) => Limited(size, s, limit)
  }

  ghost function Run(size: Sizer, ops: seq<Op>): LedgerState {
    if ops == [] then EMPTY_LEDGER else Step(size, Run(size, ops[..|ops| - 1]), ops[|ops| - 1])
  }

  /** The same run with no limit ever set: the ledger that never evicts. */
  function Unlimited(ops: seq<Op>): seq<Op> {
    if ops == [] then []
    else
      var last := ops[|ops| - 1];
      Unlimited(ops[..|ops| - 1]) + [if last.SetLimit? then SetLimit(None) else last]
  }

  /** The accepted batches of a run, judged against an untrimmed tree of their own. */
  ghost function History(ops: seq<Op>): seq<seq<Row>> {
    if ops == [] then []
    else
      var earlier, last := History(ops[..|ops| - 1]), ops[|ops| - 1];
      if last.Append? && Accepted(HistoryTree(ops[..|ops| - 1]).latest, last.rows)
        then earlier + [last.rows] else earlier
  }

  ghost function HistoryTree(ops: seq<Op>): Tree {
    if ops == [] then EMPTY_TREE
    else
      var last := ops[|ops| - 1];
      if last.Append? then Ingested(HistoryTree(ops[..|ops| - 1]), last.rows) else HistoryTree(ops[..|ops| - 1])
  }

  ghost function AppendedRows(ops: seq<Op>): seq<Row> {
    Flatten(History(ops))
  }
}
