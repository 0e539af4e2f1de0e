/** Stored batches with their epoch range and size measured once, and cutting them to size. */
module Segments {
  import opened Rows

  /** Bytes allocated for a batch that a concat, take or filter kernel built from these rows. */
  type Sizer = seq<Row> -> nat

  datatype Segment = Segment(rows: seq<Row>, minEpoch: Epoch, maxEpoch: Epoch, bytes: nat) {
    /** Whether any row may fall in the inclusive range. */
    predicate Overlaps(start: Epoch, end: Epoch) {
      minEpoch <= end && maxEpoch >= start
    }
  }

  /** The earliest epoch, or the greatest one there is when there are no rows. */
  function MinEpoch(rows: seq<Row>): Epoch {
    if rows == [] then EPOCH_MAX
    else
      var earlier, last := MinEpoch(rows[..|rows| - 1]), rows[|rows| - 1];
      if last.epoch <= earlier then last.epoch else earlier
  }

  function MaxEpoch(rows: seq<Row>): Epoch {
    if rows == [] then EPOCH_MIN
    else
      var earlier, last := MaxEpoch(rows[..|rows| - 1]), rows[|rows| - 1];
      if earlier <= last.epoch then last.epoch else earlier
  }

  lemma {:induction false} MinIsLeast(rows: seq<Row>)
    ensures forall r :: r in rows ==> MinEpoch(rows) <= r.epoch
    ensures rows != [] ==> exists r :: r in rows && r.epoch == MinEpoch(rows)
  {
    if rows != [] {
      MinIsLeast(rows[..|rows| - 1]);
      assert rows == rows[..|rows| - 1] + [rows[|rows| - 1]];
      assert rows[|rows| - 1] in rows;
    }
  }

  lemma {:induction false} MaxIsGreatest(rows: seq<Row>)
    ensures forall r :: r in rows ==> r.epoch <= MaxEpoch(rows)
    ensures rows != [] ==> exists r :: r in rows && r.epoch == MaxEpoch(rows)
  {
    if rows != [] {
      MaxIsGreatest(rows[..|rows| - 1]);
      assert rows == rows[..|rows| - 1] + [rows[|rows| - 1]];
      assert rows[|rows| - 1] in rows;
    }
  }

  function Measured(rows: seq<Row>, bytes: nat): Segment {
    Segment(rows, MinEpoch(rows), MaxEpoch(rows), bytes)
  }

  predicate IsMeasured(segment: Segment) {
    segment == Measured(segment.rows, segment.bytes)
  }

  ghost predicate AllMeasured(segments: seq<Segment>) {
    forall g :: g in segments ==> IsMeasured(g)
  }

  function RowsIn(segments: seq<Segment>): seq<Row> {
    if segments == [] then [] else RowsIn(segments[..|segments| - 1]) + segments[|segments| - 1].rows
  }

  function BytesIn(segments: seq<Segment>): nat {
    if segments == [] then 0 else BytesIn(segments[..|segments| - 1]) + segments[|segments| - 1].bytes
  }

  lemma {:induction false} InConcat(a: seq<Segment>, b: seq<Segment>)
    ensures RowsIn(a + b) == RowsIn(a) + RowsIn(b)
    ensures BytesIn(a + b) == BytesIn(a) + BytesIn(b)
  {
    if b == [] {
      assert a + b == a;
    } else {
      assert (a + b)[..|a + b| - 1] == a + b[..|b| - 1];
      InConcat(a, b[..|b| - 1]);
    }
  }

  lemma InOne(segment: Segment)
    ensures RowsIn([segment]) == segment.rows && BytesIn([segment]) == segment.bytes
  {
    assert [segment][..0] == [];
  }

  lemma {:induction false} InSegment(segments: seq<Segment>, i: nat)
    requires i < |segments|
    ensures forall r :: r in segments[i].rows ==> r in RowsIn(segments)
  {
    if i < |segments| - 1 {
      InSegment(segments[..|segments| - 1], i);
    }
  }

  /** At most an eighth over `target` is close enough to leave unsplit. */
  predicate WithinTarget(bytes: nat, target: nat) {
    bytes <= target + target / 8
  }

  /** Consecutive chunks of `n` rows, each copied into buffers of its own. */
  function Chunks(size: Sizer, rows: seq<Row>, n: nat): seq<Segment>
    requires 0 < n
    decreases |rows|
  {
    if rows == [] then []
    else
      var k := if n < |rows| then n else |rows|;
      [Measured(rows[..k], size(rows[..k]))] + Chunks(size, rows[k..], n)
  }

  lemma {:induction false} ChunksKeepRows(size: Sizer, rows: seq<Row>, n: nat)
    requires 0 < n
    ensures RowsIn(Chunks(size, rows, n)) == rows
    decreases |rows|
  {
    if rows != [] {
      var k := if n < |rows| then n else |rows|;
      ChunksKeepRows(size, rows[k..], n);
      FirstThenRest(Measured(rows[..k], size(rows[..k])), Chunks(size, rows[k..], n));
      assert rows == rows[..k] + rows[k..];
    }
  }

  /** A chunk is measured afresh, is not empty, and holds at most `n` rows. */
  lemma {:induction false} ChunksAreSmall(size: Sizer, rows: seq<Row>, n: nat)
    requires 0 < n
    ensures forall g :: g in Chunks(size, rows, n) ==> 0 < |g.rows| <= n && g == Measured(g.rows, size(g.rows))
    decreases |rows|
  {
    if rows != [] {
      ChunksAreSmall(size, rows[if n < |rows| then n else |rows|..], n);
    }
  }

  /** All chunks but the last are full. */
  lemma {:induction false} ChunksAreFull(size: Sizer, rows: seq<Row>, n: nat, i: nat)
    requires 0 < n && i + 1 < |Chunks(size, rows, n)|
    ensures |Chunks(size, rows, n)[i].rows| == n
    decreases |rows|
  {
    var k := if n < |rows| then n else |rows|;
    if i > 0 {
      ChunksAreFull(size, rows[k..], n, i - 1);
    } else {
      assert rows[k..] != [];
    }
  }

  lemma FirstThenRest(first: Segment, rest: seq<Segment>)
    ensures RowsIn([first] + rest) == first.rows + RowsIn(rest)
  {
    InConcat([first], rest);
    InOne(first);
  }

  /** How many rows go in a chunk of at most `max` bytes, at the batch's bytes per row. */
  function ChunkRows(rows: nat, bytes: nat, max: nat): (n: nat)
    requires 0 < bytes
    ensures 0 < n
  {
    var n := rows * max / bytes;
    if n > 1 then n else 1
  }

  /** A batch as segments: one when it is within the target, else chunks in row order. */
  function SplitOversized(size: Sizer, rows: seq<Row>, bytes: nat, max: nat): seq<Segment> {
    if WithinTarget(bytes, max) || |rows| < 2 then [Measured(rows, bytes)]
    else Chunks(size, rows, ChunkRows(|rows|, bytes, max))
  }

  lemma SplitKeepsRows(size: Sizer, rows: seq<Row>, bytes: nat, max: nat)
    ensures RowsIn(SplitOversized(size, rows, bytes, max)) == rows
    ensures AllMeasured(SplitOversized(size, rows, bytes, max))
  {
    if WithinTarget(bytes, max) || |rows| < 2 {
      InOne(Measured(rows, bytes));
    } else {
      ChunksAreSmall(size, rows, ChunkRows(|rows|, bytes, max));
      ChunksKeepRows(size, rows, ChunkRows(|rows|, bytes, max));
    }
  }

  /** As many rows as have their share of the bytes within the maximum, but at least one. */
  lemma ChunkRowsFit(rows: nat, bytes: nat, max: nat)
    requires 0 < bytes
    ensures var n := ChunkRows(rows, bytes, max);
            (n == 1 || n * bytes <= rows * max) && rows * max < (n + 1) * bytes
  {
    DivisionFits(rows * max, bytes);
    var n := rows * max / bytes;
    if n < 1 {
      assert rows * max < bytes;
    }
  }

  lemma DivisionFits(x: nat, y: nat)
    requires 0 < y
    ensures x / y * y <= x < (x / y + 1) * y
  {
  }

  /**
   A chunk of a batch that is split is a single row, or its share of the batch's bytes is within the maximum; so a chunk
   that measures no more than its share is within the maximum.
   */
  lemma ChunksFitTarget(size: Sizer, rows: seq<Row>, bytes: nat, max: nat, g: Segment)
    requires !WithinTarget(bytes, max) && |rows| >= 2 && g in SplitOversized(size, rows, bytes, max)
    ensures |g.rows| == 1 || |g.rows| * bytes <= |rows| * max
    ensures |g.rows| > 1 && g.bytes * |rows| <= |g.rows| * bytes ==> g.bytes <= max
  {
    var n := ChunkRows(|rows|, bytes, max);
    ChunkRowsFit(|rows|, bytes, max);
    ChunksAreSmall(size, rows, n);
    if |g.rows| > 1 {
      ShareFits(|rows|, bytes, max, n, |g.rows|, g.bytes);
    }
  }

  lemma ShareFits(rows: nat, bytes: nat, max: nat, n: nat, k: nat, size: nat)
    requires k <= n && n * bytes <= rows * max && rows > 0
    ensures k * bytes <= rows * max
    ensures size * rows <= k * bytes ==> size <= max
  {
    TimesMonotone(k, n, bytes);
    if size > max {
      TimesMonotone(max + 1, size, rows);
    }
  }

  lemma TimesMonotone(x: nat, y: nat, z: nat)
    requires x <= y
    ensures x * z <= y * z
  {
  }

  /** The position of the first segment of least `maxEpoch`. */
  function Oldest(segments: seq<Segment>): (idx: nat)
    requires segments != []
    ensures idx < |segments|
    ensures forall i :: 0 <= i < |segments| ==> segments[idx].maxEpoch <= segments[i].maxEpoch
    ensures forall i :: 0 <= i < idx ==> segments[idx].maxEpoch < segments[i].maxEpoch
  {
    var k := |segments| - 1;
    if k == 0 then 0
    else
      var earlier := Oldest(segments[..k]);
      if segments[k].maxEpoch < segments[earlier].maxEpoch then k else earlier
  }

  lemma Around(low: seq<Segment>, segment: Segment, high: seq<Segment>)
    ensures RowsIn(low + [segment] + high) == RowsIn(low) + segment.rows + RowsIn(high)
    ensures BytesIn(low + [segment] + high) == BytesIn(low) + segment.bytes + BytesIn(high)
  {
    InConcat(low + [segment], high);
    InConcat(low, [segment]);
    InOne(segment);
  }

  lemma Cut(segments: seq<Segment>, idx: nat)
    requires idx < |segments|
    ensures segments == segments[..idx] + [segments[idx]] + segments[idx + 1..]
  {
  }

  lemma Removing(segments: seq<Segment>, idx: nat)
    requires idx < |segments|
    ensures RowsIn(segments) == RowsIn(segments[..idx]) + segments[idx].rows + RowsIn(segments[idx + 1..])
    ensures RowsIn(segments[..idx] + segments[idx + 1..]) == RowsIn(segments[..idx]) + RowsIn(segments[idx + 1..])
    ensures BytesIn(segments) == BytesIn(segments[..idx] + segments[idx + 1..]) + segments[idx].bytes
  {
    Cut(segments, idx);
    Around(segments[..idx], segments[idx], segments[idx + 1..]);
    InConcat(segments[..idx], segments[idx + 1..]);
  }
}
