/** What every run of appends and limit changes keeps, against the rows it accepted. */
module LedgerRuns {
  import opened Prelude
  import opened Rows
  import opened Segments
  import opened Topology
  import opened Ingest
  import opened Runs
  import opened Poses
  import opened LedgerModel
  import opened Storage

  /** Every row is stored at most as often as appended, and as often when still latest. */
  ghost predicate Retains(s: LedgerState, all: seq<Row>) {
    forall row :: Retained(s, all, row)
  }

  ghost predicate Retained(s: LedgerState, all: seq<Row>, row: Row) {
    var stored, appended := multiset(StoredRows(s))[row], multiset(all)[row];
    if AtLatest(s.poses, row) then stored == appended else stored <= appended
  }

  /** The ledger is sound, and its derived state is that of all the rows ever appended. */
  ghost predicate Tracks(s: LedgerState, all: seq<Row>, tree: Tree) {
    Sound(s) && s.poses == CacheOf(all) && s.tree.latest == tree.latest && Retains(s, all)
  }

  lemma {:induction false} EvictedAllTracks(size: Sizer, s: LedgerState, all: seq<Row>, tree: Tree)
    requires Tracks(s, all, tree)
    ensures Tracks(EvictedAll(size, s), all, tree)
    ensures var after := EvictedAll(size, s);
            after.tail == s.tail && after.tree == s.tree && after.limit == s.limit && !MustEvict(after)
    decreases |s.segments|
  {
    if MustEvict(s) {
      var after := Evicted(size, s);
      EvictionKeepsSound(size, s);
      forall row
        ensures Retained(after, all, row)
      {
        assert Retained(s, all, row);
        EvictionDropsOnlyOlder(size, s, row);
      }
      EvictedAllTracks(size, after, all, tree);
    }
  }

  lemma EnforcedTracks(size: Sizer, s: LedgerState, all: seq<Row>, tree: Tree)
    requires Tracks(s, all, tree)
    ensures Tracks(Enforced(size, s), all, tree)
    ensures var after := Enforced(size, s); after.tail == s.tail && after.limit == s.limit && !MustEvict(after)
  {
    EvictedAllTracks(size, s, all, tree);
    var evicted, after := EvictedAll(size, s), Enforced(size, s);
    forall row
      ensures Retained(after, all, row)
    {
      assert Retained(evicted, all, row);
    }
  }

  lemma SameRowsTrack(s: LedgerState, after: LedgerState, all: seq<Row>, tree: Tree)
    requires Tracks(s, all, tree)
    requires Sound(after) && StoredRows(after) == StoredRows(s) && after.poses == s.poses && after.tree == s.tree
    ensures Tracks(after, all, tree)
  {
    forall row
      ensures Retained(after, all, row)
    {
      assert Retained(s, all, row);
    }
  }

  lemma GrownRows(s: LedgerState, tree: Tree, rows: seq<Row>, bytes: nat)
    ensures StoredRows(Grown(s, tree, rows, bytes)) == StoredRows(s) + rows
    ensures Unpinned(Grown(s, tree, rows, bytes)) == Unpinned(s) + rows
    ensures BytesIn(Grown(s, tree, rows, bytes).tail) == BytesIn(s.tail) + bytes
  {
    InConcat(s.tail, [Measured(rows, bytes)]);
    InOne(Measured(rows, bytes));
    ConcatAssoc(RowsIn(s.segments), RowsIn(s.tail), rows);
    ConcatAssoc(PinnedRows(s), Unpinned(s), rows);
  }

  lemma GrownIsSound(s: LedgerState, tree: Tree, rows: seq<Row>, bytes: nat)
    requires Sound(s)
    ensures Sound(Grown(s, tree, rows, bytes))
  {
    GrownRows(s, tree, rows, bytes);
  }

  /** An entity's latest epoch never goes back, so a superseded row stays superseded. */
  lemma LatestEpochGrows(all: seq<Row>, rows: seq<Row>, row: Row)
    requires row in all && !AtLatest(CacheOf(all), row)
    ensures !AtLatest(CacheOf(all + rows), row)
  {
    RefreshIsCacheOfAll(all, rows);
  }

  lemma GrownTracks(s: LedgerState, all: seq<Row>, tree: Tree, rows: seq<Row>, bytes: nat, next: Tree)
    requires Tracks(s, all, tree)
    ensures Tracks(Grown(s, next, rows, bytes), all + rows, next)
  {
    var grown := Grown(s, next, rows, bytes);
    GrownRows(s, next, rows, bytes);
    GrownIsSound(s, next, rows, bytes);
    RefreshIsCacheOfAll(all, rows);
    forall row
      ensures Retained(grown, all + rows, row)
    {
      assert Retained(s, all, row);
      if row in all && AtLatest(grown.poses, row) && !AtLatest(s.poses, row) {
        LatestEpochGrows(all, rows, row);
      }
    }
  }

  lemma {:induction false} AbstractFrameIsRejected(rows: seq<Row>)
    ensures FirstAbstractFrame(rows).Some? ==> FirstAbstract(rows).Some?
  {
    if rows != [] {
      AbstractFrameIsRejected(rows[..|rows| - 1]);
    }
  }

  /** Row `i` is the first that names an abstract id. */
  ghost predicate FirstNaming(rows: seq<Row>, i: nat) {
    && i < |rows| && (rows[i].id.IsAbstract() || rows[i].frame.IsAbstract())
    && forall j: nat :: j < i ==> !rows[j].id.IsAbstract() && !rows[j].frame.IsAbstract()
  }

  function AbstractAt(rows: seq<Row>, i: nat): IngestError
    requires i < |rows|
  {
    if rows[i].id.IsAbstract() then AbstractEntity(i, rows[i].id) else AbstractFrame(rows[i].frame)
  }

  lemma FirstNamingStays(rows: seq<Row>, n: nat, i: nat)
    requires n <= |rows| && FirstNaming(rows[..n], i)
    ensures FirstNaming(rows, i) && AbstractAt(rows, i) == AbstractAt(rows[..n], i)
  {
    assert forall j: nat :: j < n ==> rows[..n][j] == rows[j];
  }

  ghost predicate NamesNone(rows: seq<Row>) {
    forall r :: r in rows ==> !r.id.IsAbstract() && !r.frame.IsAbstract()
  }

  /** Ingesting refuses a batch that names an abstract id, for the first row that does, and for its entity first. */
  lemma {:induction false} AbstractIsRefused(rows: seq<Row>)
    ensures FirstAbstract(rows).None? <==> NamesNone(rows)
    ensures FirstAbstract(rows).Some? ==>
              exists i: nat :: FirstNaming(rows, i) && FirstAbstract(rows).value == AbstractAt(rows, i)
  {
    if rows != [] {
      var k := |rows| - 1;
      var front := rows[..k];
      AbstractIsRefused(front);
      assert rows == front + [rows[k]];
      if FirstAbstract(front).Some? {
        var i: nat :| FirstNaming(front, i) && FirstAbstract(front).value == AbstractAt(front, i);
        FirstNamingStays(rows, k, i);
      } else if FirstAbstract(rows).Some? {
        assert forall j: nat :: j < k ==> rows[j] == front[j] && rows[j] in front;
        assert FirstNaming(rows, k);
      }
    }
  }

  lemma {:induction false} FirstAbstractFrameIsFirst(rows: seq<Row>)
    ensures FirstAbstractFrame(rows).None? <==> forall r :: r in rows ==> !r.frame.IsAbstract()
    ensures FirstAbstractFrame(rows).Some? ==>
              exists i: nat :: i < |rows| && rows[i].frame.IsAbstract()
                && FirstAbstractFrame(rows).value == rows[i].frame
                && forall j: nat :: j < i ==> !rows[j].frame.IsAbstract()
  {
    if rows != [] {
      var k := |rows| - 1;
      var front := rows[..k];
      FirstAbstractFrameIsFirst(front);
      assert rows == front + [rows[k]];
      assert forall i: nat :: i < k ==> front[i] == rows[i] && rows[i] in front;
    }
  }

  /**
   What an append answers: the first abstract frame if any row has one, before anything else; else the first abstract
   entity; else a cycle, where the check finds one. It is taken only if it names no abstract id.
   */
  lemma AppendAnswers(s: LedgerState, rows: seq<Row>)
    ensures var verdict := AppendVerdict(s, rows);
            if exists r :: r in rows && r.frame.IsAbstract() then
              exists i: nat :: i < |rows| && rows[i].frame.IsAbstract() && verdict == Some(InvalidFrame(rows[i].frame))
                && forall j: nat :: j < i ==> !rows[j].frame.IsAbstract()
            else if exists r :: r in rows && r.id.IsAbstract() then
              exists i: nat :: FirstNaming(rows, i) && verdict == Some(Rejected(AbstractEntity(i, rows[i].id)))
            else
              verdict == if PassesCheck(s.tree.latest, NaiveEvents(s.tree.latest, rows)) then None
                         else Some(Rejected(CycleDetected))
  {
    FirstAbstractFrameIsFirst(rows);
    AbstractIsRefused(rows);
  }

  lemma AcceptedIsAppended(s: LedgerState, rows: seq<Row>)
    ensures AppendVerdict(s, rows).None? <==> Accepted(s.tree.latest, rows)
  {
    AbstractFrameIsRejected(rows);
  }

  lemma AppendTracks(size: Sizer, s: LedgerState, all: seq<Row>, tree: Tree, rows: seq<Row>, bytes: nat)
    requires Tracks(s, all, tree) && Accepted(tree.latest, rows)
    ensures Tracks(Appended(size, s, rows, bytes), all + rows, Ingested(tree, rows))
    ensures var after := Appended(size, s, rows, bytes);
            && !MustEvict(after)
            && |after.tail| <= SEGMENT_THRESHOLD && BytesIn(after.tail) <= SegmentTarget(after.limit)
  {
    AcceptedIsAppended(s, rows);
    var next := Ingested(s.tree, rows);
    var grown := Grown(s, next, rows, bytes);
    GrownTracks(s, all, tree, rows, bytes, next);
    SealKeepsRows(size, grown);
    SameRowsTrack(grown, SealedTail(size, grown), all + rows, next);
    EnforcedTracks(size, SealedTail(size, grown), all + rows, next);
  }

  lemma LimitTracks(size: Sizer, s: LedgerState, all: seq<Row>, tree: Tree, limit: Option<nat>)
    requires Tracks(s, all, tree)
    ensures Tracks(Limited(size, s, limit), all, tree) && !MustEvict(Limited(size, s, limit))
  {
    var reset := s.(limit := limit);
    SameRowsTrack(s, reset, all, tree);
    SplitKeepsLedgerRows(size, reset);
    SameRowsTrack(reset, SplitSealed(size, reset), all, tree);
    EnforcedTracks(size, SplitSealed(size, reset), all, tree);
  }

  lemma {:induction false} RunTracks(size: Sizer, ops: seq<Op>)
    ensures Tracks(Run(size, ops), AppendedRows(ops), HistoryTree(ops))
    ensures !MustEvict(Run(size, ops))
  {
    if ops == [] {
      assert CacheOf([]) == map[];
    } else {
      var front, last := ops[..|ops| - 1], ops[|ops| - 1];
      RunTracks(size, front);
      var s, all, tree := Run(size, front), AppendedRows(front), HistoryTree(front);
      match last
      case SetLimit(limit) => LimitTracks(size, s, all, tree, limit);
      case Append(rows, bytes) =>
        AcceptedIsAppended(s, rows);
        if Accepted(tree.latest, rows) {
          AppendTracks(size, s, all, tree, rows, bytes);
          assert History(ops)[..|History(front)|] == History(front);
        }
    }
  }

  /** The byte account of every reachable ledger is the sum over its segments. */
  lemma BytesAreAccounted(size: Sizer, ops: seq<Op>)
    ensures Run(size, ops).residentBytes == BytesIn(AllSegments(Run(size, ops)))
  {
    RunTracks(size, ops);
    IterationOrder(Run(size, ops));
  }

  /**
   Conservation: at every reachable state the appended rows are the stored rows and some
   evicted ones, and each evicted row is strictly older than its entity's latest epoch.
   */
  lemma {:induction false} RowsAreConserved(size: Sizer, ops: seq<Op>) returns (evicted: multiset<Row>)
    ensures multiset(AppendedRows(ops)) == multiset(StoredRows(Run(size, ops))) + evicted
    ensures forall row :: row in evicted ==> exists r :: r in AppendedRows(ops) && r.id == row.id && row.epoch < r.epoch
  {
    var s, all := Run(size, ops), AppendedRows(ops);
    RunTracks(size, ops);
    evicted := multiset(all) - multiset(StoredRows(s));
    forall row
      ensures multiset(StoredRows(s))[row] <= multiset(all)[row]
    {
      assert Retained(s, all, row);
    }
    forall row | row in evicted
      ensures exists r :: r in all && r.id == row.id && row.epoch < r.epoch
    {
      assert Retained(s, all, row);
      assert row in all;
      SupersededByALaterRow(all, row);
    }
  }

  lemma SupersededByALaterRow(all: seq<Row>, row: Row)
    requires row in all && !AtLatest(CacheOf(all), row)
    ensures exists r :: r in all && r.id == row.id && row.epoch < r.epoch
  {
    assert row.id in IdsOf(all);
    var i := FirstLatest(all, row.id).value;
    var k :| 0 <= k < |all| && all[k] == row;
    assert all[i] in all && row.epoch < all[i].epoch;
  }

  /**
   The memory bound: after every accepted append under a limit, the ledger is within it, or
   has no sealed segment left and holds only pinned rows and a tail of at most fifty batches
   and an eighth of the limit.
   */
  lemma MemoryIsBounded(size: Sizer, ops: seq<Op>)
    requires ops != [] && ops[|ops| - 1].Append?
    requires Accepted(HistoryTree(ops[..|ops| - 1]).latest, ops[|ops| - 1].rows)
    requires Run(size, ops).limit.Some?
    ensures var s, limit := Run(size, ops), Run(size, ops).limit.value;
            && |s.tail| <= SEGMENT_THRESHOLD
            && BytesIn(s.tail) <= (if limit / SEGMENTS_PER_LIMIT > 1 then limit / SEGMENTS_PER_LIMIT else 1)
            && (s.residentBytes <= limit || (s.segments == [] && s.residentBytes == PinnedBytes(s) + BytesIn(s.tail)))
  {
    var front, last := ops[..|ops| - 1], ops[|ops| - 1];
    RunTracks(size, ops);
    RunTracks(size, front);
    AppendTracks(size, Run(size, front), AppendedRows(front), HistoryTree(front), last.rows, last.bytes);
  }

  // ----- the ledger that never evicts -----

  ghost predicate NeverLimited(ops: seq<Op>) {
    forall op :: op in ops && op.SetLimit? ==> op.limit.None?
  }

  /** With no limit, the stored rows are the appended rows in order, through every seal and split. */
  lemma {:induction false} UnlimitedKeepsAll(size: Sizer, ops: seq<Op>)
    requires NeverLimited(ops)
    ensures var s := Run(size, ops);
            s.limit.None? && s.pinned.None? && StoredRows(s) == AppendedRows(ops) && s.tree == HistoryTree(ops)
  {
    RunTracks(size, ops);
    if ops != [] {
      var front, last := ops[..|ops| - 1], ops[|ops| - 1];
      assert NeverLimited(front);
      assert last in ops;
      UnlimitedKeepsAll(size, front);
      RunTracks(size, front);
      var s := Run(size, front);
      match last
      case SetLimit(limit) => SplitKeepsLedgerRows(size, s.(limit := limit));
      case Append(rows, bytes) =>
        AcceptedIsAppended(s, rows);
        if Accepted(s.tree.latest, rows) {
          var grown := Grown(s, Ingested(s.tree, rows), rows, bytes);
          GrownRows(s, Ingested(s.tree, rows), rows, bytes);
          GrownIsSound(s, Ingested(s.tree, rows), rows, bytes);
          SealKeepsRows(size, grown);
          assert History(ops)[..|History(front)|] == History(front);
        }
    }
  }

  lemma {:induction false} UnlimitedHistory(ops: seq<Op>)
    ensures NeverLimited(Unlimited(ops))
    ensures History(Unlimited(ops)) == History(ops) && HistoryTree(Unlimited(ops)) == HistoryTree(ops)
  {
    if ops != [] {
      var front := ops[..|ops| - 1];
      UnlimitedHistory(front);
      assert Unlimited(ops)[..|Unlimited(ops)| - 1] == Unlimited(front);
    }
  }

  /** The accepted batches of a run, ingested one by one, give its tree. */
  lemma {:induction false} HistoryIsARun(ops: seq<Op>)
    ensures AllAccepted(EMPTY_TREE, History(ops))
    ensures IngestedAll(EMPTY_TREE, History(ops)) == HistoryTree(ops)
  {
    if ops != [] {
      var front, last := ops[..|ops| - 1], ops[|ops| - 1];
      HistoryIsARun(front);
      if last.Append? && Accepted(HistoryTree(front).latest, last.rows) {
        OneMoreBatch(EMPTY_TREE, History(front), last.rows);
      }
    }
  }
}
