/** Topology and poses are derived from the same rows, and answer alike. */
module Agreement {
  import opened Prelude
  import opened Identity
  import opened Rows
  import opened Quaternions
  import opened StableSort
  import opened FrameGraph
  import opened Topology
  import opened Ingest
  import opened CycleCheck
  import opened Runs
  import opened Poses

  lemma {:induction false} OwnEventsAnswer(log: seq<Event>, child: Id, epoch: Epoch)
    ensures LastLogged(log, child, epoch) == LastLogged(EventsOf(log, child), child, epoch)
  {
    if log != [] {
      var front, last := log[..|log| - 1], log[|log| - 1];
      OwnEventsAnswer(front, child, epoch);
      if last.child == child {
        assert (EventsOf(front, child) + [last])[..|EventsOf(front, child)|] == EventsOf(front, child);
      }
    }
  }

  /** `parent_at` reads a tree only through its edges and each child's own events. */
  lemma SameHistorySameParent(a: Tree, b: Tree, child: Id, epoch: Epoch)
    requires SameHistory(a, b)
    ensures ParentAt(a, child, epoch) == ParentAt(b, child, epoch)
  {
    OwnEventsAnswer(a.log, child, epoch);
    OwnEventsAnswer(b.log, child, epoch);
    assert EventsOf(a.log, child) == EventsOf(b.log, child);
  }

  /** The frame of the last of an entity's sorted rows not after `epoch`. */
  function LastFrame(sorted: seq<Row>, epoch: Epoch): Option<Id> {
    if sorted == [] then None
    else if sorted[|sorted| - 1].epoch <= epoch then Some(sorted[|sorted| - 1].frame)
    else LastFrame(sorted[..|sorted| - 1], epoch)
  }

  /** The logged changes of an entity replay the frames of its rows at every epoch. */
  lemma {:induction false} ChangesReplayFrames(sorted: seq<Row>, child: Id, epoch: Epoch)
    requires forall i :: 0 <= i < |sorted| ==> sorted[i].id == child
    requires forall i, j :: 0 <= i < j < |sorted| ==> sorted[i].epoch <= sorted[j].epoch
    ensures LastLogged(ChildChanges(None, sorted), child, epoch) == LastFrame(sorted, epoch)
  {
    if sorted != [] {
      var k := |sorted| - 1;
      ChangesReplayFrames(sorted[..k], child, epoch);
      var earlier := ChildChanges(None, sorted[..k]);
      assert (earlier + [EventOf(sorted[k])])[..|earlier|] == earlier;
    }
  }

  /** No row up to `epoch` is later than `bound`. */
  ghost predicate NoneAbove(own: seq<Row>, epoch: Epoch, bound: Epoch) {
    forall i :: 0 <= i < |own| && own[i].epoch <= epoch ==> own[i].epoch <= bound
  }

  /** Inserting a row into sorted rows changes the last frame up to `epoch` iff no later row is in the way. */
  lemma {:induction false} InsertedLastFrame(sorted: seq<Row>, row: Row, epoch: Epoch)
    requires forall i :: 0 <= i < |sorted| ==> sorted[i].id == row.id
    requires forall i, j :: 0 <= i < j < |sorted| ==> sorted[i].epoch <= sorted[j].epoch
    ensures LastFrame(Insert(sorted, row), epoch)
         == if row.epoch <= epoch && NoneAbove(sorted, epoch, row.epoch)
            then Some(row.frame) else LastFrame(sorted, epoch)
  {
    if sorted == [] || KeyLeq(sorted[|sorted| - 1], row) {
      LastFrameSnoc(sorted, row, epoch);
    } else {
      var front, last := sorted[..|sorted| - 1], sorted[|sorted| - 1];
      InsertedLastFrame(front, row, epoch);
      LastFrameSnoc(Insert(front, row), last, epoch);
      if last.epoch <= epoch {
        assert !NoneAbove(sorted, epoch, row.epoch);
      } else {
        assert NoneAbove(sorted, epoch, row.epoch) <==> NoneAbove(front, epoch, row.epoch);
      }
    }
  }

  lemma LastFrameSnoc(sorted: seq<Row>, row: Row, epoch: Epoch)
    ensures LastFrame(sorted + [row], epoch) == if row.epoch <= epoch then Some(row.frame) else LastFrame(sorted, epoch)
  {
    assert (sorted + [row])[..|sorted|] == sorted;
  }

  /** The frame of the last row of highest epoch. */
  function LastBestFrame(rows: seq<Row>, child: Id, epoch: Epoch): Option<Id> {
    var best := LastBest(rows, child, epoch);
    if best.Some? then Some(rows[best.value].frame) else None
  }

  lemma LastBestSnoc(front: seq<Row>, last: Row, child: Id, epoch: Epoch)
    ensures var best := LastBest(front, child, epoch);
            LastBestFrame(front + [last], child, epoch)
            == if last.id == child && last.epoch <= epoch && (best.Some? ==> front[best.value].epoch <= last.epoch)
               then Some(last.frame)
               else LastBestFrame(front, child, epoch)
  {
    assert (front + [last])[..|front|] == front;
  }

  lemma {:induction false} SortedLastFrame(rows: seq<Row>, child: Id, epoch: Epoch)
    ensures LastFrame(StableSorted(RowsOf(rows, child)), epoch) == LastBestFrame(rows, child, epoch)
  {
    if rows != [] {
      var front, last := rows[..|rows| - 1], rows[|rows| - 1];
      assert rows == front + [last];
      SortedLastFrame(front, child, epoch);
      LastBestSnoc(front, last, child, epoch);
      if last.id == child {
        NextLastFrame(front, last, child, epoch);
      }
    }
  }

  lemma NextLastFrame(front: seq<Row>, last: Row, child: Id, epoch: Epoch)
    requires last.id == child
    ensures var best := LastBest(front, child, epoch);
            var before := LastFrame(StableSorted(RowsOf(front, child)), epoch);
            LastFrame(StableSorted(RowsOf(front + [last], child)), epoch)
            == if last.epoch <= epoch && (best.Some? ==> front[best.value].epoch <= last.epoch) then Some(last.frame)
               else before
  {
    var own := StableSorted(RowsOf(front, child));
    SortedOwnRows(front, child);
    SortSnoc(front, last, child);
    InsertedLastFrame(own, last, epoch);
    BestAmong(front, own, child, epoch, last.epoch);
  }

  lemma SortSnoc(front: seq<Row>, last: Row, child: Id)
    requires last.id == child
    ensures StableSorted(RowsOf(front + [last], child)) == Insert(StableSorted(RowsOf(front, child)), last)
  {
    FilterSnoc(front, last, (r: Row) => r.id == child);
    assert (RowsOf(front, child) + [last])[..|RowsOf(front, child)|] == RowsOf(front, child);
  }

  /** A bound on the candidates in stored order is a bound on them in sorted order. */
  lemma BestAmong(rows: seq<Row>, own: seq<Row>, child: Id, epoch: Epoch, bound: Epoch)
    requires forall i :: 0 <= i < |own| ==> own[i].id == child && own[i] in rows
    requires forall r :: r in rows && r.id == child ==> r in own
    ensures var best := LastBest(rows, child, epoch);
            (best.Some? ==> rows[best.value].epoch <= bound)
            <==> NoneAbove(own, epoch, bound)
  {
    var best := LastBest(rows, child, epoch);
    forall i | 0 <= i < |own| && own[i].epoch <= epoch
      ensures best.Some? && own[i].epoch <= rows[best.value].epoch
    {
      var k :| 0 <= k < |rows| && rows[k] == own[i];
      assert Candidate(rows, child, epoch, k);
    }
    if best.Some? {
      assert rows[best.value] in own;
    }
  }

  /**
   After any run of accepted, entity-ordered batches, the parent of an entity at an epoch is
   the frame of its row of highest epoch not after it, the last such row where several tie.
   */
  lemma {:induction false} ParentIsLastBestFrame(batches: seq<seq<Row>>, child: Id, epoch: Epoch)
    requires EntityOrdered(batches) && AllAccepted(EMPTY_TREE, batches)
    ensures ParentAt(IngestedAll(EMPTY_TREE, batches), child, epoch) == LastBestFrame(Flatten(batches), child, epoch)
  {
    var rows := Flatten(batches);
    var events := NaiveEvents(map[], rows);
    var tree := ApplyAll(EMPTY_TREE, events);
    EmptyIsAcyclic();
    RunAsOneBatch(EMPTY_TREE, batches);
    SameHistorySameParent(IngestedAll(EMPTY_TREE, batches), tree, child, epoch);
    assert tree.log == events;
    ApplyKeepsCoherent(EMPTY_TREE, events);
    NaiveEventsAreRows(map[], rows);
    ParentAtIsInForce(tree, child, epoch);
    SortedScanFindsTop(events, child, epoch);
    OwnEventsAnswer(events, child, epoch);
    EventsPerChild(map[], rows, child);
    SortedOwnRows(rows, child);
    ChangesReplayFrames(StableSorted(RowsOf(rows, child)), child, epoch);
    SortedLastFrame(rows, child, epoch);
  }

  lemma EmptyIsAcyclic()
    ensures Acyclic(Parents(EMPTY_TREE.latest))
  {
    forall node, k: nat | 0 < k
      ensures Walk(Parents(EMPTY_TREE.latest), node, k).None?
    {
      if k > 1 {
        EndsEarly(Parents(EMPTY_TREE.latest), node, k);
      }
    }
  }

  lemma EndsEarly(g: Graph, node: Id, k: nat)
    requires 0 < k && Walk(g, node, 1).None?
    ensures Walk(g, node, k).None?
  {
    if Walk(g, node, k).Some? {
      WalkStarts(g, node, 1, k);
    }
  }

  /** Row `i` is the first of its entity at its epoch, and row `j` the last. */
  ghost predicate TieEnds(rows: seq<Row>, i: nat, j: nat) {
    && i < |rows| && j < |rows| && rows[i].id == rows[j].id && rows[i].epoch == rows[j].epoch
    && forall k: nat :: k < |rows| && rows[k].id == rows[i].id && rows[k].epoch == rows[i].epoch ==> i <= k <= j
  }

  /** Wherever one entity has several rows at one epoch, the first and the last share a frame. */
  ghost predicate TiesAgree(rows: seq<Row>) {
    forall i: nat, j: nat :: TieEnds(rows, i, j) ==> rows[i].frame == rows[j].frame
  }

  function FrameOf(placement: Option<Placement>): Option<Id> {
    if placement.Some? then Some(placement.value.frame) else None
  }

  /** The parent named by topology and the frame of the resolved pose, for one query. */
  ghost predicate AgreeAt(batches: seq<seq<Row>>, child: Id, epoch: Epoch) {
    ParentAt(IngestedAll(EMPTY_TREE, batches), child, epoch)
    == FrameOf(Resolved(CacheOf(Flatten(batches)), Flatten(batches), child, epoch))
  }

  lemma AgreeAtBest(batches: seq<seq<Row>>, child: Id, epoch: Epoch)
    requires EntityOrdered(batches) && AllAccepted(EMPTY_TREE, batches)
    ensures var rows := Flatten(batches);
            var first, last := FirstBest(rows, child, epoch), LastBest(rows, child, epoch);
            && (first.Some? <==> last.Some?)
            && (first.Some? ==> TieEnds(rows, first.value, last.value))
            && (AgreeAt(batches, child, epoch)
                <==> (first.Some? ==> rows[first.value].frame == rows[last.value].frame))
  {
    var rows := Flatten(batches);
    var first, last := FirstBest(rows, child, epoch), LastBest(rows, child, epoch);
    ParentIsLastBestFrame(batches, child, epoch);
    CacheNeverDisagrees(rows, child, epoch);
    if first.Some? {
      assert Candidate(rows, child, epoch, first.value) && Candidate(rows, child, epoch, last.value);
      forall k: nat | k < |rows| && rows[k].id == child && rows[k].epoch == rows[first.value].epoch
        ensures first.value <= k <= last.value
      {
        assert Candidate(rows, child, epoch, k);
      }
    }
  }

  /** A tie whose ends carry different frames is met by a query at its epoch. */
  lemma TieIsMet(batches: seq<seq<Row>>, i: nat, j: nat)
    requires EntityOrdered(batches) && AllAccepted(EMPTY_TREE, batches)
    requires TieEnds(Flatten(batches), i, j) && Flatten(batches)[i].frame != Flatten(batches)[j].frame
    ensures !AgreeAt(batches, Flatten(batches)[i].id, Flatten(batches)[i].epoch)
  {
    var rows := Flatten(batches);
    AgreeAtBest(batches, rows[i].id, rows[i].epoch);
    TieEndsAreBest(rows, i, j);
  }

  lemma TieEndsAreBest(rows: seq<Row>, i: nat, j: nat)
    requires TieEnds(rows, i, j)
    ensures FirstBest(rows, rows[i].id, rows[i].epoch) == Some(i)
    ensures LastBest(rows, rows[i].id, rows[i].epoch) == Some(j)
  {
    assert Candidate(rows, rows[i].id, rows[i].epoch, i) && Candidate(rows, rows[i].id, rows[i].epoch, j);
  }

  /**
   Topology and poses never disagree, both absent included, for every entity and epoch:
   exactly when ties agree. Frame-tie-free rows are the usual case.
   */
  lemma {:induction false} TopologyAndPosesAgree(batches: seq<seq<Row>>)
    requires EntityOrdered(batches) && AllAccepted(EMPTY_TREE, batches)
    ensures (forall child: Id, epoch: Epoch :: AgreeAt(batches, child, epoch)) <==> TiesAgree(Flatten(batches))
  {
    if TiesAgree(Flatten(batches)) {
      forall child: Id, epoch: Epoch
        ensures AgreeAt(batches, child, epoch)
      {
        AgreeAtBest(batches, child, epoch);
      }
    } else {
      var i: nat, j: nat :| TieEnds(Flatten(batches), i, j) && Flatten(batches)[i].frame != Flatten(batches)[j].frame;
      TieIsMet(batches, i, j);
    }
  }

  /** An accepted batch on which the two differ: one entity, one epoch, two astronomical frames. */
  lemma TieShows(entity: Id, first: Id, second: Id, pose: Pose)
    requires entity.IsSoloc() && first.IsAstro() && second.IsAstro() && first != second
    ensures var batches := [[Row(entity, first, 1, MEASURED, pose), Row(entity, second, 1, MEASURED, pose)]];
            EntityOrdered(batches) && AllAccepted(EMPTY_TREE, batches) && !AgreeAt(batches, entity, 1)
  {
    var rows := [Row(entity, first, 1, MEASURED, pose), Row(entity, second, 1, MEASURED, pose)];
    var batches := [rows];
    assert batches[..0] == [] && batches == [] + [rows] && Flatten(batches) == [] + rows == rows;
    ChangedAtOnce(rows[0], rows[1]);
    OneMoreBatch(EMPTY_TREE, [], rows);
    assert TieEnds(rows, 0, 1);
    TieIsMet(batches, 0, 1);
  }

  lemma ChangedAtOnce(first: Row, second: Row)
    requires first.id == second.id && first.epoch == second.epoch && first.frame != second.frame
    requires !first.id.IsAbstract() && first.frame.IsAstro() && second.frame.IsAstro()
    ensures Accepted(map[], [first, second])
  {
    NoneAbstract(first, second);
    BothLogged(first, second);
    StagedInTurn(EventOf(first), EventOf(second));
    AnchoredIsAcyclic(CheckedGraph(map[], [EventOf(first), EventOf(second)]));
  }

  lemma NoneAbstract(first: Row, second: Row)
    requires !first.id.IsAbstract() && !first.frame.IsAbstract() && !second.id.IsAbstract()
             && !second.frame.IsAbstract()
    ensures FirstAbstract([first, second]).None?
  {
    assert [first, second][..1] == [first] && [first][..0] == [];
    assert FirstAbstract([first]).None?;
  }

  lemma BothLogged(first: Row, second: Row)
    requires first.id == second.id && first.epoch == second.epoch && first.frame != second.frame
    ensures NaiveEvents(map[], [first, second]) == [EventOf(first), EventOf(second)]
  {
    SortedStays([first, second]);
    OneChange(map[], first);
    assert [first, second][..1] == [first];
  }

  lemma StagedInTurn(first: Event, second: Event)
    requires first.child == second.child
    ensures Staged([first, second]) == map[first.child := Edge(second.parent, second.epoch)]
  {
    assert [first, second][..1] == [first] && [first][..0] == [];
    assert Staged([first]) == Staged([])[first.child := Edge(first.parent, first.epoch)];
  }
}
