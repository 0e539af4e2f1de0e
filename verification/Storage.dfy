/** What sealing, splitting and evicting keep of the stored rows and of the byte account. */
module Storage {
  import opened Prelude
  import opened Rows
  import opened Segments
  import opened Poses
  import opened LedgerModel

  /** The byte account is the sum over pinned, sealed and tail, and every epoch range is exact. */
  ghost predicate Sound(s: LedgerState) {
    && s.residentBytes == PinnedBytes(s) + BytesIn(s.segments) + BytesIn(s.tail)
    && AllMeasured(s.segments) && AllMeasured(s.tail)
    && (s.pinned.Some? ==> IsMeasured(s.pinned.value) && s.pinned.value.rows != [])
  }

  /** Everything but the storage layout. */
  ghost predicate SameDerived(a: LedgerState, b: LedgerState) {
    a.pinned == b.pinned && a.limit == b.limit && a.tree == b.tree && a.poses == b.poses
  }

  /** Sealing the tail moves its rows, in order, and keeps the account. */
  lemma SealKeepsRows(size: Sizer, s: LedgerState)
    requires Sound(s)
    ensures var after := SealedTail(size, s);
            && Sound(after) && SameDerived(after, s)
            && Unpinned(after) == Unpinned(s) && StoredRows(after) == StoredRows(s)
            && |after.tail| <= SEGMENT_THRESHOLD && BytesIn(after.tail) <= SegmentTarget(s.limit)
  {
    if TailIsFull(s) {
      var sealed := SplitOversized(size, RowsIn(s.tail), TailBytes(size, s.tail), SegmentTarget(s.limit));
      SplitKeepsRows(size, RowsIn(s.tail), TailBytes(size, s.tail), SegmentTarget(s.limit));
      InConcat(s.segments, sealed);
      NothingAfter(RowsIn(s.segments) + RowsIn(s.tail));
    }
  }

  lemma NothingAfter(rows: seq<Row>)
    ensures rows + [] == rows
  {
  }

  lemma {:induction false} SplitAllKeepsRows(size: Sizer, segments: seq<Segment>, target: nat)
    requires AllMeasured(segments)
    ensures RowsIn(SplitAll(size, segments, target)) == RowsIn(segments)
    ensures AllMeasured(SplitAll(size, segments, target))
  {
    if segments != [] {
      var front, last := segments[..|segments| - 1], segments[|segments| - 1];
      SplitAllKeepsRows(size, front, target);
      InConcat(SplitAll(size, front, target), SplitOne(size, last, target));
      InOne(last);
      SplitKeepsRows(size, last.rows, last.bytes, target);
    }
  }

  /** Splitting sealed segments cuts rows at new places, in order, and keeps the account. */
  lemma SplitKeepsLedgerRows(size: Sizer, s: LedgerState)
    requires Sound(s)
    ensures var after := SplitSealed(size, s);
            Sound(after) && SameDerived(after, s)
            && Unpinned(after) == Unpinned(s) && StoredRows(after) == StoredRows(s)
  {
    SplitAllKeepsRows(size, s.segments, SegmentTarget(s.limit));
  }

  // ----- eviction -----

  lemma {:induction false} CountKept(poses: PoseCache, rows: seq<Row>, row: Row)
    ensures multiset(StillLatest(poses, rows))[row] == if AtLatest(poses, row) then multiset(rows)[row] else 0
  {
    if rows != [] {
      CountKept(poses, rows[..|rows| - 1], row);
      assert rows == rows[..|rows| - 1] + [rows[|rows| - 1]];
    }
  }

  lemma PinnedAfterIsFiltered(s: LedgerState, idx: nat)
    requires idx < |s.segments|
    requires s.pinned.None? || s.pinned.value.rows != []
    ensures PinnedAfter(s, idx) == if s.pinned.Some? then StillLatest(s.poses, PinnedRows(s) + s.segments[idx].rows)
                                   else StillLatest(s.poses, s.segments[idx].rows)
  {
    var latest := (r: Row) => AtLatest(s.poses, r);
    var victim := s.segments[idx].rows;
    if s.pinned.Some? {
      FilterConcat(PinnedRows(s), StillLatest(s.poses, victim), latest);
      FilterConcat(PinnedRows(s), victim, latest);
      FilterIdempotent(victim, latest, latest);
    }
  }

  lemma EvictionKeepsSound(size: Sizer, s: LedgerState)
    requires Sound(s) && s.segments != []
    ensures Sound(Evicted(size, s))
  {
    Removing(s.segments, Oldest(s.segments));
  }

  /**
   Eviction loses no row that is still its entity's latest, however often it occurs, and adds
   none: what goes are rows older than their entity's latest epoch.
   */
  lemma EvictionDropsOnlyOlder(size: Sizer, s: LedgerState, row: Row)
    requires Sound(s) && s.segments != []
    ensures var before, after := multiset(StoredRows(s))[row], multiset(StoredRows(Evicted(size, s)))[row];
            if AtLatest(s.poses, row) then after == before else after <= before
  {
    var idx, after := Oldest(s.segments), Evicted(size, s);
    var victim := s.segments[idx].rows;
    Removing(s.segments, idx);
    PinnedAfterIsFiltered(s, idx);
    CountKept(s.poses, PinnedRows(s) + victim, row);
    CountKept(s.poses, victim, row);
    var low, high := RowsIn(s.segments[..idx]), RowsIn(s.segments[idx + 1..]);
    assert PinnedRows(after) == PinnedAfter(s, idx);
    assert StoredRows(s) == PinnedRows(s) + (low + victim + high + RowsIn(s.tail));
    assert StoredRows(after) == PinnedAfter(s, idx) + (low + high + RowsIn(s.tail));
  }

  function OldestRow(rows: seq<Row>): Option<Epoch> {
    if rows == [] then None else Some(MinEpoch(rows))
  }

  function Earlier(a: Option<Epoch>, b: Option<Epoch>): Option<Epoch> {
    if b.Some? && (a.None? || b.value < a.value) then b else a
  }

  lemma OldestOfBoth(a: seq<Row>, b: seq<Row>)
    ensures OldestRow(a + b) == Earlier(OldestRow(a), OldestRow(b))
  {
    if a == [] {
      assert a + b == b;
    } else if b == [] {
      assert a + b == a;
    } else {
      MinIsLeast(a);
      MinIsLeast(b);
      MinIsLeast(a + b);
      var x :| x in a && x.epoch == MinEpoch(a);
      var y :| y in b && y.epoch == MinEpoch(b);
      assert x in a + b && y in a + b;
    }
  }

  lemma {:induction false} LeastEpochIsLeast(segments: seq<Segment>)
    requires AllMeasured(segments)
    ensures LeastEpoch(segments) == OldestRow(RowsIn(segments))
  {
    if segments != [] {
      var front, last := segments[..|segments| - 1], segments[|segments| - 1];
      assert segments == front + [last];
      LeastEpochIsLeast(front);
      assert IsMeasured(last);
      OldestOfBoth(RowsIn(front), last.rows);
    }
  }

  /** The window starts at the oldest row outside `pinned`. */
  lemma WindowStartIsOldest(s: LedgerState)
    requires Sound(s)
    ensures WindowStart(s) == OldestRow(Unpinned(s))
  {
    InConcat(s.segments, s.tail);
    LeastEpochIsLeast(s.segments + s.tail);
  }

  function NewestRow(rows: seq<Row>): Option<Epoch> {
    if rows == [] then None else Some(MaxEpoch(rows))
  }

  function Later(a: Option<Epoch>, b: Option<Epoch>): Option<Epoch> {
    if b.Some? && (a.None? || a.value <= b.value) then b else a
  }

  lemma NewestOfBoth(a: seq<Row>, b: seq<Row>)
    ensures NewestRow(a + b) == Later(NewestRow(a), NewestRow(b))
  {
    if a == [] {
      assert a + b == b;
    } else if b == [] {
      assert a + b == a;
    } else {
      MaxIsGreatest(a);
      MaxIsGreatest(b);
      MaxIsGreatest(a + b);
      var x :| x in a && x.epoch == MaxEpoch(a);
      var y :| y in b && y.epoch == MaxEpoch(b);
      assert x in a + b && y in a + b;
    }
  }

  lemma {:induction false} GreatestEpochIsGreatest(segments: seq<Segment>)
    requires AllMeasured(segments)
    ensures GreatestEpoch(segments) == NewestRow(RowsIn(segments))
  {
    if segments != [] {
      var front, last := segments[..|segments| - 1], segments[|segments| - 1];
      assert segments == front + [last];
      GreatestEpochIsGreatest(front);
      assert IsMeasured(last);
      NewestOfBoth(RowsIn(front), last.rows);
    }
  }
}
