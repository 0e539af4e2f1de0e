/** The best row per entity, and why eviction never shows in it. */
module CurrentState {
  import opened Prelude
  import opened Identity
  import opened Rows
  import opened Segments
  import opened Ingest
  import opened Poses
  import opened LedgerModel
  import opened LedgerRuns

  const CURRENT_STATE_WINDOW_NS := 3_600 * 1_000_000_000

  /** The row passes the id filter and is not older than the cutoff. */
  predicate Eligible(row: Row, wanted: Option<set<Id>>, cutoff: Option<Epoch>) {
    && (wanted.Some? ==> row.id in wanted.value)
    && (cutoff.Some? ==> cutoff.value <= row.epoch)
  }

  /** `row` replaces `best`: it is later, or as late with a better estimate. */
  predicate Beats(row: Row, best: Row) {
    row.epoch > best.epoch || (row.epoch == best.epoch && row.estimate.Priority() < best.estimate.Priority())
  }

  /** The running best over the rows of one entity, in stored order. A full tie keeps the first. */
  function BestRow(rows: seq<Row>, wanted: Option<set<Id>>, cutoff: Option<Epoch>, id: Id): (best: Option<Row>)
    ensures best.Some? ==>
              && best.value in rows && best.value.id == id && Eligible(best.value, wanted, cutoff)
              && forall r :: r in rows && r.id == id && Eligible(r, wanted, cutoff) ==> !Beats(r, best.value)
    ensures best.None? ==> forall r :: r in rows && r.id == id ==> !Eligible(r, wanted, cutoff)
  {
    if rows == [] then None
    else
      var earlier, last := BestRow(rows[..|rows| - 1], wanted, cutoff, id), rows[|rows| - 1];
      if last.id == id && Eligible(last, wanted, cutoff) && (earlier.Some? ==> Beats(last, earlier.value))
        then Some(last)
      else earlier
  }

  /** An hour earlier, saturating at the least epoch. */
  function WindowBefore(latest: Epoch): Epoch {
    if latest - CURRENT_STATE_WINDOW_NS < EPOCH_MIN then EPOCH_MIN else latest - CURRENT_STATE_WINDOW_NS
  }

  /** Without an explicit cutoff it is an hour before the latest stored epoch. */
  function Cutoff(rows: seq<Row>, notBefore: Option<Epoch>): Option<Epoch> {
    if notBefore.Some? then notBefore
    else if rows == [] then None
    else Some(WindowBefore(MaxEpoch(rows)))
  }

  function BestRows(rows: seq<Row>, wanted: Option<set<Id>>, cutoff: Option<Epoch>): map<Id, Row> {
    map id | id in IdsOf(rows) && BestRow(rows, wanted, cutoff, id).Some? :: BestRow(rows, wanted, cutoff, id).value
  }

  function State(rows: seq<Row>, wanted: Option<set<Id>>, notBefore: Option<Epoch>): map<Id, Row> {
    BestRows(rows, wanted, Cutoff(rows, notBefore))
  }

  /** Fewer rows, but every row still at its entity's latest epoch. */
  ghost predicate LatestKept(stored: seq<Row>, all: seq<Row>) {
    && (forall r :: r in stored ==> r in all)
    && (forall r :: r in all && AtLatest(CacheOf(all), r) ==> r in stored)
  }

  lemma RowsAreNotAfterLatest(all: seq<Row>, row: Row) returns (latest: Row)
    requires row in all
    ensures latest in all && latest.id == row.id && row.epoch <= latest.epoch && AtLatest(CacheOf(all), latest)
    ensures AtLatest(CacheOf(all), row) <==> row.epoch == latest.epoch
  {
    assert row.id in IdsOf(all);
    latest := all[FirstLatest(all, row.id).value];
    assert latest in all;
    var k :| 0 <= k < |all| && all[k] == row;
  }

  lemma SameMaxEpoch(stored: seq<Row>, all: seq<Row>)
    requires LatestKept(stored, all) && all != []
    ensures stored != [] && MaxEpoch(stored) == MaxEpoch(all)
  {
    MaxIsGreatest(all);
    MaxIsGreatest(stored);
    var r :| r in all && r.epoch == MaxEpoch(all);
    var latest := RowsAreNotAfterLatest(all, r);
    assert latest in stored;
  }

  lemma SameCutoff(stored: seq<Row>, all: seq<Row>, notBefore: Option<Epoch>)
    requires LatestKept(stored, all) && all != []
    ensures stored != [] && Cutoff(stored, notBefore) == Cutoff(all, notBefore)
  {
    SameMaxEpoch(stored, all);
  }

  /** A best row is always at its entity's latest epoch: any eligible older row has a later eligible one. */
  lemma BestIsLatest(all: seq<Row>, wanted: Option<set<Id>>, cutoff: Option<Epoch>, id: Id)
    requires BestRow(all, wanted, cutoff, id).Some?
    ensures AtLatest(CacheOf(all), BestRow(all, wanted, cutoff, id).value)
  {
    var best := BestRow(all, wanted, cutoff, id).value;
    var latest := RowsAreNotAfterLatest(all, best);
    assert !Beats(latest, best);
  }

  /** The best rows of the two histories agree in who is there, how late and how well measured. */
  ghost predicate SameBest(a: map<Id, Row>, b: map<Id, Row>) {
    && a.Keys == b.Keys
    && forall id :: id in a ==> a[id].epoch == b[id].epoch && a[id].estimate == b[id].estimate
  }

  lemma SameBestRow(stored: seq<Row>, all: seq<Row>, wanted: Option<set<Id>>, cutoff: Option<Epoch>,
                                       id: Id)
    requires LatestKept(stored, all)
    ensures var a, b := BestRow(stored, wanted, cutoff, id), BestRow(all, wanted, cutoff, id);
            && (a.Some? <==> b.Some?)
            && (a.Some? ==> a.value.epoch == b.value.epoch && a.value.estimate == b.value.estimate)
  {
    var a, b := BestRow(stored, wanted, cutoff, id), BestRow(all, wanted, cutoff, id);
    if b.Some? {
      BestIsLatest(all, wanted, cutoff, id);
      assert b.value in stored;
      assert a.Some? && !Beats(b.value, a.value);
    }
    if a.Some? {
      assert a.value in all;
      assert b.Some? && !Beats(a.value, b.value);
      SamePriority(a.value, b.value);
    }
  }

  lemma SamePriority(a: Row, b: Row)
    requires !Beats(a, b) && !Beats(b, a)
    ensures a.epoch == b.epoch && a.estimate == b.estimate
  {
  }

  lemma SameStates(stored: seq<Row>, all: seq<Row>, wanted: Option<set<Id>>, notBefore: Option<Epoch>)
    requires LatestKept(stored, all) && all != []
    ensures SameBest(State(stored, wanted, notBefore), State(all, wanted, notBefore))
  {
    SameCutoff(stored, all, notBefore);
    var cutoff := Cutoff(all, notBefore);
    var a, b := BestRows(stored, wanted, cutoff), BestRows(all, wanted, cutoff);
    forall id
      ensures id in a <==> id in b
      ensures id in a && id in b ==> a[id].epoch == b[id].epoch && a[id].estimate == b[id].estimate
    {
      SameBestRow(stored, all, wanted, cutoff, id);
      BestRowHasId(stored, wanted, cutoff, id);
      BestRowHasId(all, wanted, cutoff, id);
    }
  }

  lemma BestRowHasId(rows: seq<Row>, wanted: Option<set<Id>>, cutoff: Option<Epoch>, id: Id)
    ensures BestRow(rows, wanted, cutoff, id).Some? ==> id in IdsOf(rows)
  {
  }

  lemma RunKeepsLatest(size: Sizer, ops: seq<Op>)
    ensures LatestKept(StoredRows(Run(size, ops)), AppendedRows(ops))
  {
    var s, all := Run(size, ops), AppendedRows(ops);
    RunTracks(size, ops);
    forall r
      ensures r in StoredRows(s) ==> r in all
      ensures r in all && AtLatest(CacheOf(all), r) ==> r in StoredRows(s)
    {
      assert Retained(s, all, r);
    }
  }

  /**
   Eviction is invisible to `current_state`: for every run that appended at least one row, any
   filter and any cutoff, the ledger under limits answers with the same entities, at the same
   epochs and priorities, as the ledger that never evicts.
   */
  lemma {:induction false} EvictionIsInvisible(size: Sizer, ops: seq<Op>, wanted: Option<set<Id>>,
                                               notBefore: Option<Epoch>)
    requires AppendedRows(ops) != []
    ensures var s, u := Run(size, ops), Run(size, Unlimited(ops));
            && AllSegments(s) != [] && AllSegments(u) != []
            && SameBest(State(StoredRows(s), wanted, notBefore), State(StoredRows(u), wanted, notBefore))
  {
    var s, u := Run(size, ops), Run(size, Unlimited(ops));
    UnlimitedHistory(ops);
    UnlimitedKeepsAll(size, Unlimited(ops));
    RunKeepsLatest(size, ops);
    SameStates(StoredRows(s), AppendedRows(ops), wanted, notBefore);
    SameCutoff(StoredRows(s), AppendedRows(ops), notBefore);
    IterationOrder(s);
    IterationOrder(u);
  }

  /**
   The comment on `current_state` promises that later insertion wins a full tie. It does not:
   the first row stays, whatever row of the same entity, epoch and priority follows it.
   */
  lemma FullTieKeepsTheFirst(first: Row, second: Row)
    requires first.id == second.id && first.epoch == second.epoch && first.estimate == second.estimate
    ensures State([first, second], None, None) == map[first.id := first]
  {
    var rows := [first, second];
    assert rows[..1] == [first];
    assert [first][..0] == [];
    MaxIsGreatest(rows);
    assert first in rows && second in rows;
    assert BestRow(rows, None, Cutoff(rows, None), first.id) == Some(first);
    assert IdsOf(rows) == {first.id};
  }

  // ----- the running best as the loops keep it -----

  /** Where a best row is stored, and what it is compared by. */
  datatype Best = Best(epoch: Epoch, priority: nat, segment: nat, row: nat)

  /** `best` is right about the rows seen so far. */
  ghost predicate BestHolds(best: map<Id, Best>, segments: seq<Segment>, seen: seq<Row>,
                            wanted: Option<set<Id>>, cutoff: Option<Epoch>)
  {
    forall id :: BestHoldsFor(best, segments, seen, wanted, cutoff, id)
  }

  ghost predicate BestHoldsFor(best: map<Id, Best>, segments: seq<Segment>, seen: seq<Row>,
                               wanted: Option<set<Id>>, cutoff: Option<Epoch>, id: Id)
  {
    && (id in best <==> BestRow(seen, wanted, cutoff, id).Some?)
    && (id in best ==>
          var b := best[id];
          && b.segment < |segments| && b.row < |segments[b.segment].rows|
          && BestRow(seen, wanted, cutoff, id) == Some(segments[b.segment].rows[b.row])
          && b.epoch == segments[b.segment].rows[b.row].epoch
          && b.priority == segments[b.segment].rows[b.row].estimate.Priority())
  }

  lemma BestRowSnoc(seen: seq<Row>, row: Row, wanted: Option<set<Id>>, cutoff: Option<Epoch>, id: Id)
    ensures var earlier := BestRow(seen, wanted, cutoff, id);
            BestRow(seen + [row], wanted, cutoff, id)
            == if row.id == id && Eligible(row, wanted, cutoff) && (earlier.Some? ==> Beats(row, earlier.value))
               then Some(row)
               else earlier
  {
    assert (seen + [row])[..|seen|] == seen;
  }

  /** One more row, judged against the best of its entity. */
  method Consider(best: map<Id, Best>, segments: seq<Segment>, b: nat, i: nat, ghost seen: seq<Row>,
                  wanted: Option<set<Id>>, cutoff: Option<Epoch>) returns (next: map<Id, Best>)
    requires b < |segments| && i < |segments[b].rows|
    requires BestHolds(best, segments, seen, wanted, cutoff)
    ensures BestHolds(next, segments, seen + [segments[b].rows[i]], wanted, cutoff)
  {
    var row := segments[b].rows[i];
    next := best;
    assert BestHoldsFor(best, segments, seen, wanted, cutoff, row.id);
    if (wanted.Some? && row.id !in wanted.value) || (cutoff.Some? && row.epoch < cutoff.value) {
    } else {
      var priority := row.estimate.Priority();
      var update := row.id !in best
                    || row.epoch > best[row.id].epoch
                    || (row.epoch == best[row.id].epoch && priority < best[row.id].priority);
      if update {
        next := next[row.id := Best(row.epoch, priority, b, i)];
      }
    }
    forall id
      ensures BestHoldsFor(next, segments, seen + [row], wanted, cutoff, id)
    {
      assert BestHoldsFor(best, segments, seen, wanted, cutoff, id);
      BestRowSnoc(seen, row, wanted, cutoff, id);
    }
  }

  /** The best rows over all segments, scanned in iteration order. */
  method ScanBest(segments: seq<Segment>, wanted: Option<set<Id>>, cutoff: Option<Epoch>) returns (rows: map<Id, Row>)
    ensures rows == BestRows(RowsIn(segments), wanted, cutoff)
  {
    var best: map<Id, Best> := map[];
    for b := 0 to |segments|
      invariant BestHolds(best, segments, RowsIn(segments[..b]), wanted, cutoff)
    {
      var rows := segments[b].rows;
      assert RowsIn(segments[..b]) + rows[..0] == RowsIn(segments[..b]);
      for i := 0 to |rows|
        invariant BestHolds(best, segments, RowsIn(segments[..b]) + rows[..i], wanted, cutoff)
      {
        assert RowsIn(segments[..b]) + rows[..i] + [rows[i]] == RowsIn(segments[..b]) + rows[..i + 1];
        best := Consider(best, segments, b, i, RowsIn(segments[..b]) + rows[..i], wanted, cutoff);
      }
      assert rows[..|rows|] == rows;
      assert segments[..b + 1][..b] == segments[..b];
    }
    assert segments[..|segments|] == segments;
    assert forall id :: id in best ==> BestHoldsFor(best, segments, RowsIn(segments), wanted, cutoff, id);
    rows := map id | id in best :: segments[best[id].segment].rows[best[id].row];
    HeldBestIsBest(best, segments, wanted, cutoff, rows);
  }

  lemma HeldBestIsBest(best: map<Id, Best>, segments: seq<Segment>, wanted: Option<set<Id>>, cutoff: Option<Epoch>,
                       rows: map<Id, Row>)
    requires BestHolds(best, segments, RowsIn(segments), wanted, cutoff)
    requires rows.Keys == best.Keys
    requires forall id :: id in best ==> BestRow(RowsIn(segments), wanted, cutoff, id) == Some(rows[id])
    ensures rows == BestRows(RowsIn(segments), wanted, cutoff)
  {
    var expected := BestRows(RowsIn(segments), wanted, cutoff);
    forall id
      ensures id in rows <==> id in expected
      ensures id in rows && id in expected ==> rows[id] == expected[id]
    {
      assert BestHoldsFor(best, segments, RowsIn(segments), wanted, cutoff, id);
      BestRowHasId(RowsIn(segments), wanted, cutoff, id);
    }
  }
}
