/** Spatiotemporal filtering, and pruning whole segments by their epoch range. */
module Queries {
  import opened Prelude
  import opened Identity
  import opened Rows
  import opened Quaternions
  import opened Segments
  import opened LedgerModel
  import opened LedgerRuns

  /** An inclusive epoch range and a sphere, each optional. */
  datatype SpatiotemporalFilter = SpatiotemporalFilter(
    timeRange: Option<(Epoch, Epoch)>,
    origin: Option<Vec3>,
    radius: Option<real>)

  datatype QueryError = EmptyLedger | MixedFrames(first: Id, other: Id)

  predicate InTime(filter: SpatiotemporalFilter, row: Row) {
    filter.timeRange.Some? ==> filter.timeRange.value.0 <= row.epoch <= filter.timeRange.value.1
  }

  function DistanceSquared(a: Vec3, b: Vec3): real {
    var d := Minus(a, b);
    d.x * d.x + d.y * d.y + d.z * d.z
  }

  predicate InSphere(filter: SpatiotemporalFilter, row: Row) {
    filter.origin.Some? && filter.radius.Some? ==>
      DistanceSquared(row.pose.p, filter.origin.value) <= filter.radius.value * filter.radius.value
  }

  predicate Passes(filter: SpatiotemporalFilter, row: Row) {
    InTime(filter, row) && InSphere(filter, row)
  }

  /** The row-by-row reading of a filter. */
  function Matching(filter: SpatiotemporalFilter, rows: seq<Row>): seq<Row> {
    Filter(rows, (r: Row) => Passes(filter, r))
  }

  ghost predicate OneFrame(rows: seq<Row>) {
    forall r, s :: r in rows && s in rows ==> r.frame == s.frame
  }

  /** The two frames that first betray a mixed batch. */
  function Mixture(rows: seq<Row>): (mix: Option<(Id, Id)>)
    ensures mix.None? <==> OneFrame(rows)
    ensures mix.Some? ==> mix.value.0 != mix.value.1
                          && exists r, s :: r in rows && s in rows && r.frame == mix.value.0 && s.frame == mix.value.1
  {
    if rows == [] then None
    else
      var earlier, last := Mixture(rows[..|rows| - 1]), rows[|rows| - 1];
      assert rows == rows[..|rows| - 1] + [last];
      assert rows[0] in rows;
      assert |rows| > 1 ==> rows[0] == rows[..|rows| - 1][0] && rows[0] in rows[..|rows| - 1];
      if earlier.Some? then earlier
      else if rows[0].frame != last.frame then Some((rows[0].frame, last.frame))
      else None
  }

  function FilterBatch(filter: SpatiotemporalFilter, rows: seq<Row>): Result<seq<Row>, QueryError> {
    if filter.timeRange.None? && filter.origin.None? then Ok(rows)
    else if filter.origin.Some? && Mixture(rows).Some?
      then Err(MixedFrames(Mixture(rows).value.0, Mixture(rows).value.1))
    else Ok(Matching(filter, rows))
  }

  /** A segment that pruning skips holds no row in the time range. */
  predicate Visited(filter: SpatiotemporalFilter, segment: Segment) {
    filter.timeRange.Some? ==> segment.Overlaps(filter.timeRange.value.0, filter.timeRange.value.1)
  }

  /** Filters the visited segments one by one, in order, stopping at the first error. */
  function FilterSegments(filter: SpatiotemporalFilter, segments: seq<Segment>): Result<seq<Row>, QueryError> {
    if segments == [] then Ok([])
    else
      var earlier, last := FilterSegments(filter, segments[..|segments| - 1]), segments[|segments| - 1];
      if earlier.Err? || !Visited(filter, last) then earlier
      else
        var kept := FilterBatch(filter, last.rows);
        if kept.Err? then kept else Ok(earlier.value + kept.value)
  }

  function Query(s: LedgerState, filter: SpatiotemporalFilter): Result<seq<Row>, QueryError> {
    if AllSegments(s) == [] then Err(EmptyLedger) else FilterSegments(filter, AllSegments(s))
  }

  /** No filter at all is the filter that every row passes. */
  lemma FilterBatchMatches(filter: SpatiotemporalFilter, rows: seq<Row>)
    requires filter.origin.None? || OneFrame(rows)
    ensures FilterBatch(filter, rows) == Ok(Matching(filter, rows))
  {
    if filter.timeRange.None? && filter.origin.None? {
      FilterAll(rows, (r: Row) => Passes(filter, r));
    }
  }

  lemma SkippedHasNothing(filter: SpatiotemporalFilter, segment: Segment)
    requires IsMeasured(segment) && !Visited(filter, segment)
    ensures Matching(filter, segment.rows) == []
  {
    MinIsLeast(segment.rows);
    MaxIsGreatest(segment.rows);
    forall r | r in segment.rows
      ensures !InTime(filter, r)
    {
      assert segment.minEpoch <= r.epoch <= segment.maxEpoch;
    }
    FilterNone(segment.rows, (r: Row) => Passes(filter, r));
  }

  /** Every segment the query reads can be filtered: no sphere is asked for, or it has one frame. */
  ghost predicate Filterable(filter: SpatiotemporalFilter, segments: seq<Segment>) {
    forall g :: g in segments && Visited(filter, g) ==> filter.origin.None? || OneFrame(g.rows)
  }

  lemma {:induction false} FilterSegmentsMatches(filter: SpatiotemporalFilter, segments: seq<Segment>)
    requires AllMeasured(segments)
    ensures FilterSegments(filter, segments).Ok? <==> Filterable(filter, segments)
    ensures Filterable(filter, segments) ==> FilterSegments(filter, segments) == Ok(Matching(filter, RowsIn(segments)))
  {
    if segments != [] {
      var front, last := segments[..|segments| - 1], segments[|segments| - 1];
      assert segments == front + [last];
      FilterSegmentsMatches(filter, front);
      FilterConcat(RowsIn(front), last.rows, (r: Row) => Passes(filter, r));
      if !Visited(filter, last) {
        SkippedHasNothing(filter, last);
        assert Matching(filter, RowsIn(front)) + [] == Matching(filter, RowsIn(front));
      } else if filter.origin.None? || OneFrame(last.rows) {
        FilterBatchMatches(filter, last.rows);
      }
    }
  }

  /** What streaming yields: the outcome for each visited segment. */
  function Streamed(filter: SpatiotemporalFilter, segments: seq<Segment>): seq<Result<seq<Row>, QueryError>> {
    if segments == [] then []
    else
      var earlier, last := Streamed(filter, segments[..|segments| - 1]), segments[|segments| - 1];
      if Visited(filter, last) then earlier + [FilterBatch(filter, last.rows)] else earlier
  }

  /** The rows of the batches a stream yields, one after another. */
  function Yielded(results: seq<Result<seq<Row>, QueryError>>): seq<Row> {
    if results == [] then []
    else
      var last := results[|results| - 1];
      Yielded(results[..|results| - 1]) + if last.Ok? then last.value else []
  }

  lemma {:induction false} StreamMatches(filter: SpatiotemporalFilter, segments: seq<Segment>)
    requires AllMeasured(segments) && Filterable(filter, segments)
    ensures Yielded(Streamed(filter, segments)) == Matching(filter, RowsIn(segments))
  {
    if segments != [] {
      var front, last := segments[..|segments| - 1], segments[|segments| - 1];
      assert segments == front + [last];
      StreamMatches(filter, front);
      FilterConcat(RowsIn(front), last.rows, (r: Row) => Passes(filter, r));
      if Visited(filter, last) {
        FilterBatchMatches(filter, last.rows);
        assert Streamed(filter, segments)[..|Streamed(filter, front)|] == Streamed(filter, front);
      } else {
        SkippedHasNothing(filter, last);
        assert Matching(filter, RowsIn(front)) + [] == Matching(filter, RowsIn(front));
      }
    }
  }

  /**
   Segment pruning is sound on every reachable ledger that holds a batch. A query succeeds
   exactly when no sphere is asked of a mixed segment it has to read; then it selects, in
   order, the rows that a row-by-row filter of the whole stored sequence does, and a stream
   yields the same rows batch by batch.
   */
  lemma {:induction false} PruningIsSound(size: Sizer, ops: seq<Op>, filter: SpatiotemporalFilter)
    requires AllSegments(Run(size, ops)) != []
    ensures var s := Run(size, ops);
            && (Query(s, filter).Ok? <==> Filterable(filter, AllSegments(s)))
            && (Filterable(filter, AllSegments(s)) ==>
                  && Query(s, filter) == Ok(Matching(filter, StoredRows(s)))
                  && Yielded(Streamed(filter, AllSegments(s))) == Matching(filter, StoredRows(s)))
  {
    var s := Run(size, ops);
    RunTracks(size, ops);
    IterationOrder(s);
    FilterSegmentsMatches(filter, AllSegments(s));
    if Filterable(filter, AllSegments(s)) {
      StreamMatches(filter, AllSegments(s));
    }
  }

  /** What a caller asks for: rows in the range, both ends included, and in the ball, its surface included. */
  predicate AskedFor(filter: SpatiotemporalFilter, row: Row) {
    && (match filter.timeRange
        case None => true
        case Some(range) => range.0 <= row.epoch && row.epoch <= range.1)
    && (match (filter.origin, filter.radius)
        case (Some(origin), Some(radius)) => LengthSquared(Minus(row.pose.p, origin)) <= radius * radius
        case _ => true)
  }

  lemma AskedForPasses(filter: SpatiotemporalFilter, row: Row)
    ensures Passes(filter, row) <==> AskedFor(filter, row)
  {
    assert filter.origin.Some? ==>
        DistanceSquared(row.pose.p, filter.origin.value) == LengthSquared(Minus(row.pose.p, filter.origin.value));
  }

  lemma {:induction false} CountMatching(filter: SpatiotemporalFilter, rows: seq<Row>, row: Row)
    ensures multiset(Matching(filter, rows))[row] == if AskedFor(filter, row) then multiset(rows)[row] else 0
  {
    if rows != [] {
      CountMatching(filter, rows[..|rows| - 1], row);
      assert rows == rows[..|rows| - 1] + [rows[|rows| - 1]];
      AskedForPasses(filter, rows[|rows| - 1]);
    }
  }

  /**
   What a query and a stream answer: each stored row that is asked for as often as it is stored, and no other row. It
   succeeds exactly when no sphere is asked for, or every stored batch is of one frame or all before or all after the
   range.
   */
  lemma {:induction false} QueryAnswers(size: Sizer, ops: seq<Op>, filter: SpatiotemporalFilter, row: Row)
    requires AllSegments(Run(size, ops)) != []
    ensures var s := Run(size, ops);
            var count := if AskedFor(filter, row) then multiset(StoredRows(s))[row] else 0;
            && (Query(s, filter).Ok? ==> multiset(Query(s, filter).value)[row] == count)
            && (Query(s, filter).Ok? ==> multiset(Yielded(Streamed(filter, AllSegments(s))))[row] == count)
    ensures var s := Run(size, ops);
            Query(s, filter).Ok? <==> filter.origin.None? || forall g :: g in AllSegments(s) ==>
              OneFrame(g.rows) || OutOfRange(filter, g.rows)
  {
    var s := Run(size, ops);
    PruningIsSound(size, ops, filter);
    CountMatching(filter, StoredRows(s), row);
    RunTracks(size, ops);
    forall g | g in AllSegments(s)
      ensures OneFrame(g.rows) || (Visited(filter, g) <==> !OutOfRange(filter, g.rows))
    {
      assert IsMeasured(g);
      UnvisitedIsOutOfRange(filter, g);
    }
  }

  /** All rows are before the range, or all are after it. */
  ghost predicate OutOfRange(filter: SpatiotemporalFilter, rows: seq<Row>) {
    && filter.timeRange.Some?
    && ((forall r: Row :: r in rows ==> r.epoch < filter.timeRange.value.0)
        || (forall r: Row :: r in rows ==> filter.timeRange.value.1 < r.epoch))
  }

  lemma UnvisitedIsOutOfRange(filter: SpatiotemporalFilter, g: Segment)
    requires IsMeasured(g)
    ensures g.rows == [] || (Visited(filter, g) <==> !OutOfRange(filter, g.rows))
  {
    MinIsLeast(g.rows);
    MaxIsGreatest(g.rows);
  }

  /** Row `i` is the first in another frame than the first row's. */
  ghost predicate FirstOther(rows: seq<Row>, i: nat) {
    0 < i < |rows| && rows[i].frame != rows[0].frame && forall j :: 0 <= j < i ==> rows[j].frame == rows[0].frame
  }

  lemma FirstOtherStays(rows: seq<Row>, n: nat, i: nat)
    requires n <= |rows| && FirstOther(rows[..n], i)
    ensures FirstOther(rows, i) && rows[..n][i] == rows[i] && rows[..n][0] == rows[0]
  {
    assert forall j :: 0 <= j < n ==> rows[..n][j] == rows[j];
  }

  /** A mixed batch is reported by its first frame and the first that differs from it. */
  lemma {:induction false} MixtureIsFirst(rows: seq<Row>)
    ensures Mixture(rows).Some? ==>
              exists i: nat :: FirstOther(rows, i) && Mixture(rows) == Some((rows[0].frame, rows[i].frame))
  {
    if rows != [] {
      var k := |rows| - 1;
      var front := rows[..k];
      MixtureIsFirst(front);
      if Mixture(front).Some? {
        var i: nat :| FirstOther(front, i) && Mixture(front) == Some((front[0].frame, front[i].frame));
        FirstOtherStays(rows, k, i);
      } else if Mixture(rows).Some? {
        assert OneFrame(front) && forall j :: 0 <= j < k ==> rows[j] == front[j] && rows[j] in front;
        assert FirstOther(rows, k);
      }
    }
  }

  /** A time-only filter, and any filter when the stored rows share one frame, always succeeds. */
  lemma UniformQueriesSucceed(s: LedgerState, filter: SpatiotemporalFilter)
    requires filter.origin.None? || OneFrame(StoredRows(s))
    ensures Filterable(filter, AllSegments(s))
  {
    IterationOrder(s);
    forall g | g in AllSegments(s) && filter.origin.Some?
      ensures OneFrame(g.rows)
    {
      var i :| 0 <= i < |AllSegments(s)| && AllSegments(s)[i] == g;
      InSegment(AllSegments(s), i);
    }
  }

  // ----- the filter as a loop over rows -----

  /** The first frame seen and the first that differs from it, if any does. */
  method CheckFrameUniformity(rows: seq<Row>) returns (mix: Option<(Id, Id)>)
    ensures mix == Mixture(rows)
  {
    var seen: Option<Id> := None;
    for i := 0 to |rows|
      invariant Mixture(rows[..i]).None?
      invariant seen == if i == 0 then None else Some(rows[0].frame)
    {
      assert rows[..i + 1][..i] == rows[..i];
      var frame := rows[i].frame;
      if seen.None? {
        seen := Some(frame);
      } else if seen.value != frame {
        MixtureStays(rows, i + 1);
        return Some((seen.value, frame));
      }
    }
    assert rows[..|rows|] == rows;
    return None;
  }

  lemma {:induction false} MixtureStays(rows: seq<Row>, n: nat)
    requires n <= |rows| && Mixture(rows[..n]).Some?
    ensures Mixture(rows) == Mixture(rows[..n])
  {
    if n == |rows| {
      assert rows[..n] == rows;
    } else {
      assert rows[..|rows| - 1][..n] == rows[..n];
      MixtureStays(rows[..|rows| - 1], n);
    }
  }

  method FilterRows(filter: SpatiotemporalFilter, rows: seq<Row>) returns (r: Result<seq<Row>, QueryError>)
    ensures r == FilterBatch(filter, rows)
  {
    if filter.timeRange.None? && filter.origin.None? {
      return Ok(rows);
    }
    if filter.origin.Some? {
      var mix := CheckFrameUniformity(rows);
      if mix.Some? {
        return Err(MixedFrames(mix.value.0, mix.value.1));
      }
    }
    var kept: seq<Row> := [];
    for i := 0 to |rows|
      invariant kept == Matching(filter, rows[..i])
    {
      assert rows[..i + 1] == rows[..i] + [rows[i]];
      FilterSnoc(rows[..i], rows[i], (r: Row) => Passes(filter, r));
      var keep := true;
      if filter.timeRange.Some? {
        var (start, end) := filter.timeRange.value;
        if rows[i].epoch < start || rows[i].epoch > end {
          keep := false;
        }
      }
      if keep && filter.origin.Some? && filter.radius.Some? {
        if DistanceSquared(rows[i].pose.p, filter.origin.value) > filter.radius.value * filter.radius.value {
          keep := false;
        }
      }
      if keep {
        kept := kept + [rows[i]];
      }
    }
    assert rows[..|rows|] == rows;
    return Ok(kept);
  }
}
