/** Which of several equally good rows `current_state` keeps, and when its comment's rule gives the same answer. */
module FullTies {
  import opened Prelude
  import opened Identity
  import opened Rows
  import opened Segments
  import opened CurrentState

  /** Row `i` is of the entity and passes the filter. */
  predicate Contends(rows: seq<Row>, wanted: Option<set<Id>>, cutoff: Option<Epoch>, id: Id, i: nat) {
    i < |rows| && rows[i].id == id && Eligible(rows[i], wanted, cutoff)
  }

  ghost predicate Unbeaten(rows: seq<Row>, wanted: Option<set<Id>>, cutoff: Option<Epoch>, id: Id, i: nat) {
    && Contends(rows, wanted, cutoff, id, i)
    && forall j: nat :: Contends(rows, wanted, cutoff, id, j) ==> !Beats(rows[j], rows[i])
  }

  ghost predicate FirstUnbeaten(rows: seq<Row>, wanted: Option<set<Id>>, cutoff: Option<Epoch>, id: Id, i: nat) {
    && Unbeaten(rows, wanted, cutoff, id, i)
    && forall j: nat :: Unbeaten(rows, wanted, cutoff, id, j) ==> i <= j
  }

  ghost predicate LastUnbeaten(rows: seq<Row>, wanted: Option<set<Id>>, cutoff: Option<Epoch>, id: Id, i: nat) {
    && Unbeaten(rows, wanted, cutoff, id, i)
    && forall j: nat :: Unbeaten(rows, wanted, cutoff, id, j) ==> j <= i
  }

  /** The running best is the row at the least index among the contenders that nothing beats. */
  lemma {:induction false} BestIsFirstUnbeaten(rows: seq<Row>, wanted: Option<set<Id>>, cutoff: Option<Epoch>, id: Id)
    ensures var best := BestRow(rows, wanted, cutoff, id);
            if best.Some? then exists i: nat :: FirstUnbeaten(rows, wanted, cutoff, id, i) && rows[i] == best.value
            else forall i: nat :: !Contends(rows, wanted, cutoff, id, i)
  {
    if rows != [] {
      var n := |rows| - 1;
      var front, last := rows[..n], rows[n];
      BestIsFirstUnbeaten(front, wanted, cutoff, id);
      var earlier := BestRow(front, wanted, cutoff, id);
      assert forall j: nat :: j < n ==>
               (Contends(front, wanted, cutoff, id, j) <==> Contends(rows, wanted, cutoff, id, j));
      if earlier.Some? {
        var i: nat :| FirstUnbeaten(front, wanted, cutoff, id, i) && front[i] == earlier.value;
        NextBest(rows, wanted, cutoff, id, i);
      } else if Contends(rows, wanted, cutoff, id, n) {
        assert FirstUnbeaten(rows, wanted, cutoff, id, n);
      }
    }
  }

  /** An hour in nanoseconds before the newest row, or whatever was asked for: the row is not older. */
  ghost predicate RecentEnough(rows: seq<Row>, notBefore: Option<Epoch>, row: Row) {
    match notBefore
    case Some(bound) => bound <= row.epoch
    case None => forall newest: Row :: newest in rows ==> newest.epoch - row.epoch <= 3_600_000_000_000
  }

  predicate BetterMeasured(a: Row, b: Row) {
    match a.estimate
    case MEASURED => b.estimate != MEASURED
    case ESTIMATED => b.estimate == SIMULATED
    case SIMULATED => false
  }

  /** Row `i` is the entity's latest, of those the best measured, and of those the first. */
  ghost predicate IsBestOf(rows: seq<Row>, id: Id, i: nat) {
    && i < |rows| && rows[i].id == id
    && forall j: nat :: j < |rows| && rows[j].id == id ==>
         && rows[j].epoch <= rows[i].epoch
         && (rows[j].epoch == rows[i].epoch ==> !BetterMeasured(rows[j], rows[i]))
         && (rows[j].epoch == rows[i].epoch && rows[j].estimate == rows[i].estimate ==> i <= j)
  }

  /**
   What `current_state` answers: the entities asked for that have a recent enough row, each with the first of the best
   measured of its latest rows.
   */
  lemma CurrentStateAnswers(rows: seq<Row>, wanted: Option<set<Id>>, notBefore: Option<Epoch>, id: Id)
    ensures id in State(rows, wanted, notBefore)
       <==> (wanted.Some? ==> id in wanted.value)
            && exists r :: r in rows && r.id == id && RecentEnough(rows, notBefore, r)
    ensures id in State(rows, wanted, notBefore) ==>
              exists i: nat :: IsBestOf(rows, id, i) && rows[i] == State(rows, wanted, notBefore)[id]
  {
    var cutoff := Cutoff(rows, notBefore);
    BestRowHasId(rows, wanted, cutoff, id);
    forall r | r in rows
      ensures Eligible(r, wanted, cutoff)
         <==> (wanted.Some? ==> r.id in wanted.value) && RecentEnough(rows, notBefore, r)
    {
      EligibleIsRecent(rows, wanted, notBefore, r);
    }
    if id in State(rows, wanted, notBefore) {
      BestIsFirstUnbeaten(rows, wanted, cutoff, id);
      var i: nat :| FirstUnbeaten(rows, wanted, cutoff, id, i) && rows[i] == BestRow(rows, wanted, cutoff, id).value;
      FirstUnbeatenIsBest(rows, wanted, cutoff, id, i);
    }
  }

  lemma EligibleIsRecent(rows: seq<Row>, wanted: Option<set<Id>>, notBefore: Option<Epoch>, row: Row)
    requires row in rows
    ensures Eligible(row, wanted, Cutoff(rows, notBefore))
       <==> (wanted.Some? ==> row.id in wanted.value) && RecentEnough(rows, notBefore, row)
  {
    if notBefore.None? {
      MaxIsGreatest(rows);
      var newest :| newest in rows && newest.epoch == MaxEpoch(rows);
    }
  }

  /** Older rows and rows worse measured count too: any of them that the filter lets pass is beaten. */
  lemma FirstUnbeatenIsBest(rows: seq<Row>, wanted: Option<set<Id>>, cutoff: Option<Epoch>, id: Id, i: nat)
    requires FirstUnbeaten(rows, wanted, cutoff, id, i)
    ensures IsBestOf(rows, id, i)
  {
    forall j: nat | j < |rows| && rows[j].id == id
      ensures rows[j].epoch <= rows[i].epoch
      ensures rows[j].epoch == rows[i].epoch ==> !BetterMeasured(rows[j], rows[i])
      ensures rows[j].epoch == rows[i].epoch && rows[j].estimate == rows[i].estimate ==> i <= j
    {
      if Contends(rows, wanted, cutoff, id, j) {
        assert !Beats(rows[j], rows[i]);
        if rows[j].epoch == rows[i].epoch && rows[j].estimate == rows[i].estimate {
          assert Unbeaten(rows, wanted, cutoff, id, j);
        }
      }
    }
  }

  /** One more row takes over exactly when it beats the first unbeaten one so far. */
  lemma NextBest(rows: seq<Row>, wanted: Option<set<Id>>, cutoff: Option<Epoch>, id: Id, i: nat)
    requires rows != [] && FirstUnbeaten(rows[..|rows| - 1], wanted, cutoff, id, i)
    ensures var n := |rows| - 1;
            var takesOver := Contends(rows, wanted, cutoff, id, n) && Beats(rows[n], rows[i]);
            FirstUnbeaten(rows, wanted, cutoff, id, if takesOver then n else i)
  {
    var n := |rows| - 1;
    var front := rows[..n];
    forall j: nat | j < n
      ensures Contends(front, wanted, cutoff, id, j) <==> Contends(rows, wanted, cutoff, id, j)
      ensures Unbeaten(rows, wanted, cutoff, id, j) ==> Unbeaten(front, wanted, cutoff, id, j)
    {
      if Unbeaten(rows, wanted, cutoff, id, j) {
        forall k: nat | Contends(front, wanted, cutoff, id, k)
          ensures !Beats(front[k], front[j])
        {
          assert Contends(rows, wanted, cutoff, id, k);
        }
      }
    }
    var takesOver := Contends(rows, wanted, cutoff, id, n) && Beats(rows[n], rows[i]);
    assert Unbeaten(rows, wanted, cutoff, id, if takesOver then n else i);
  }

  /** The rule of the comment: of the contenders that nothing beats, the one inserted last. */
  ghost predicate LaterInsertionWins(rows: seq<Row>, wanted: Option<set<Id>>, cutoff: Option<Epoch>, id: Id) {
    forall i: nat :: LastUnbeaten(rows, wanted, cutoff, id, i) ==> BestRow(rows, wanted, cutoff, id) == Some(rows[i])
  }

  /** Rows `i` and `j` are the first and the last of their entity at its highest epoch and best priority. */
  ghost predicate FullTieEnds(rows: seq<Row>, i: nat, j: nat) {
    && i < |rows| && j < |rows| && rows[j].id == rows[i].id && !Beats(rows[i], rows[j])
    && forall k: nat :: k < |rows| && rows[k].id == rows[i].id ==>
         !Beats(rows[k], rows[i]) && (Beats(rows[i], rows[k]) || i <= k <= j)
  }

  ghost predicate FullTiesAgree(rows: seq<Row>) {
    forall i: nat, j: nat :: FullTieEnds(rows, i, j) ==> rows[i] == rows[j]
  }

  /**
   The comment's rule holds, for every id filter and every explicit or default cutoff, exactly when for each entity the
   first and the last row of highest epoch and best priority are the same row.
   */
  lemma LaterInsertionWinsIffFullTiesAgree(rows: seq<Row>)
    ensures (forall wanted: Option<set<Id>>, notBefore: Option<Epoch>, id ::
               LaterInsertionWins(rows, wanted, Cutoff(rows, notBefore), id))
       <==> FullTiesAgree(rows)
  {
    if FullTiesAgree(rows) {
      forall wanted: Option<set<Id>>, notBefore: Option<Epoch>, id
        ensures LaterInsertionWins(rows, wanted, Cutoff(rows, notBefore), id)
      {
        AgreeingTiesHideTheRule(rows, wanted, Cutoff(rows, notBefore), id);
      }
    } else {
      var i: nat, j: nat :| FullTieEnds(rows, i, j) && rows[i] != rows[j];
      TieShowsTheRule(rows, i, j);
    }
  }

  lemma AgreeingTiesHideTheRule(rows: seq<Row>, wanted: Option<set<Id>>, cutoff: Option<Epoch>, id: Id)
    requires FullTiesAgree(rows)
    ensures LaterInsertionWins(rows, wanted, cutoff, id)
  {
    forall j: nat | LastUnbeaten(rows, wanted, cutoff, id, j)
      ensures BestRow(rows, wanted, cutoff, id) == Some(rows[j])
    {
      BestIsFirstUnbeaten(rows, wanted, cutoff, id);
      var i: nat :| FirstUnbeaten(rows, wanted, cutoff, id, i) && rows[i] == BestRow(rows, wanted, cutoff, id).value;
      UnbeatenEnds(rows, wanted, cutoff, id, i, j);
    }
  }

  /** A filter hides an entity altogether or leaves its best rows as they are. */
  lemma UnbeatenEnds(rows: seq<Row>, wanted: Option<set<Id>>, cutoff: Option<Epoch>, id: Id, i: nat, j: nat)
    requires FirstUnbeaten(rows, wanted, cutoff, id, i) && LastUnbeaten(rows, wanted, cutoff, id, j)
    ensures FullTieEnds(rows, i, j)
  {
    forall k: nat | k < |rows| && rows[k].id == id
      ensures !Beats(rows[k], rows[i]) && (Beats(rows[i], rows[k]) || i <= k <= j)
    {
      if !Beats(rows[i], rows[k]) {
        assert Contends(rows, wanted, cutoff, id, k);
        assert Unbeaten(rows, wanted, cutoff, id, k);
      }
    }
  }

  lemma TieShowsTheRule(rows: seq<Row>, i: nat, j: nat)
    requires FullTieEnds(rows, i, j) && rows[i] != rows[j]
    ensures !LaterInsertionWins(rows, None, Cutoff(rows, Some(EPOCH_MIN)), rows[i].id)
  {
    var id, cutoff := rows[i].id, Cutoff(rows, Some(EPOCH_MIN));
    assert forall k: nat :: Contends(rows, None, cutoff, id, k) <==> k < |rows| && rows[k].id == id;
    assert Unbeaten(rows, None, cutoff, id, i);
    assert LastUnbeaten(rows, None, cutoff, id, j);
    BestIsFirstUnbeaten(rows, None, cutoff, id);
    var first: nat :| FirstUnbeaten(rows, None, cutoff, id, first)
                      && rows[first] == BestRow(rows, None, cutoff, id).value;
    assert first == i;
  }
}
