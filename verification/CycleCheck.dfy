/** How far the ingest-time cycle check decides whether the committed graph has a cycle. */
module CycleCheck {
  import opened Prelude
  import opened Identity
  import opened Rows
  import opened StableSort
  import opened FrameGraph
  import opened Topology
  import opened Ingest
  import opened Quaternions

  /** No row predates its entity's current edge: the batch is not a backfill. */
  ghost predicate NotBefore(latest: Latest, rows: seq<Row>) {
    forall r :: r in rows && r.id in latest ==> latest[r.id].since <= r.epoch
  }

  /** A staged edge older than its child's current edge, and naming another parent. */
  predicate Stale(latest: Latest, events: seq<Event>, child: Id) {
    && child in latest && child in Staged(events)
    && Staged(events)[child].since < latest[child].since
    && Staged(events)[child].parent != latest[child].parent
  }

  /**
   From an acyclic tree the check is exact about the graph it walks: the batch passes iff that
   graph has no cycle.
   */
  lemma CheckDecidesCheckedGraph(latest: Latest, events: seq<Event>)
    requires Acyclic(Parents(latest))
    ensures PassesCheck(latest, events) <==> Acyclic(CheckedGraph(latest, events))
  {
    OverrideAcyclic(Parents(latest), Parents(Staged(events)));
  }

  /** What committing does to one child, when its events come in epoch order. */
  lemma {:induction false} CommittedEdge(latest: Latest, events: seq<Event>, child: Id)
    requires EpochSorted(events)
    ensures var staged := Staged(events);
            Lookup(AdvanceAll(latest, events), child)
            == if child in staged && !(child in latest && staged[child].since < latest[child].since)
               then Some(staged[child]) else Lookup(latest, child)
    ensures child in Staged(events) ==>
              exists e :: e in events && e.child == child && Staged(events)[child] == Edge(e.parent, e.epoch)
    ensures forall e :: e in events && e.child == child ==>
              child in Staged(events) && e.epoch <= Staged(events)[child].since
  {
    if events != [] {
      var front, last := events[..|events| - 1], events[|events| - 1];
      CommittedEdge(latest, front, child);
    }
  }

  /**
   The committed graph is the checked graph exactly when no staged edge is stale. The staged
   edge of a stale child is walked by the check but never becomes current.
   */
  lemma {:induction false} CommittedIsChecked(latest: Latest, events: seq<Event>)
    requires EpochSorted(events)
    ensures Parents(AdvanceAll(latest, events)) == CheckedGraph(latest, events)
       <==> forall child :: !Stale(latest, events, child)
  {
    var committed, checked := Parents(AdvanceAll(latest, events)), CheckedGraph(latest, events);
    forall child
      ensures child in committed <==> child in checked
      ensures child in committed ==> (committed[child] == checked[child] <==> !Stale(latest, events, child))
      ensures Stale(latest, events, child) ==> child in committed
    {
      CommittedEdge(latest, events, child);
      assert Lookup(AdvanceAll(latest, events), child).Some? <==> child in committed;
    }
    if child :| Stale(latest, events, child) {
      assert committed[child] != checked[child];
    } else {
      assert committed == checked;
    }
  }

  lemma {:induction false} EventsAreRows(latest: Latest, sorted: seq<Row>)
    requires Sorted(sorted)
    ensures forall e :: e in Changes(latest, sorted) ==> exists r :: r in sorted && EventOf(r) == e
    ensures EpochSorted(Changes(latest, sorted))
  {
    if sorted != [] {
      var k := |sorted| - 1;
      var front, last := sorted[..k], sorted[k];
      EventsAreRows(latest, front);
      forall e | e in Changes(latest, front) && e.child == last.id
        ensures e.epoch <= last.epoch
      {
        var r :| r in front && EventOf(r) == e;
        assert KeyLeq(r, last);
      }
    }
  }

  /** Every event a batch yields is one of its rows, and each entity's come in epoch order. */
  lemma NaiveEventsAreRows(latest: Latest, rows: seq<Row>)
    ensures forall e :: e in NaiveEvents(latest, rows) ==> exists r :: r in rows && EventOf(r) == e
    ensures EpochSorted(NaiveEvents(latest, rows))
  {
    StableSortSorts(rows);
    EventsAreRows(latest, StableSorted(rows));
    SortedMembers(rows);
  }

  lemma NotBeforeIsNotStale(latest: Latest, rows: seq<Row>)
    requires NotBefore(latest, rows)
    ensures forall child :: !Stale(latest, NaiveEvents(latest, rows), child)
  {
    NaiveEventsAreRows(latest, rows);
    forall child
      ensures !Stale(latest, NaiveEvents(latest, rows), child)
    {
      CommittedEdge(latest, NaiveEvents(latest, rows), child);
    }
  }

  /**
   The ingest check is exact about the tree it commits to, for every batch that stages no stale edge: it passes iff the
   resulting graph of soloc parents is acyclic.
   */
  lemma IngestCheckIsExact(latest: Latest, rows: seq<Row>)
    requires Acyclic(Parents(latest)) && forall child :: !Stale(latest, NaiveEvents(latest, rows), child)
    ensures PassesCheck(latest, NaiveEvents(latest, rows))
       <==> Acyclic(Parents(AdvanceAll(latest, NaiveEvents(latest, rows))))
  {
    NaiveEventsAreRows(latest, rows);
    CommittedIsChecked(latest, NaiveEvents(latest, rows));
    CheckDecidesCheckedGraph(latest, NaiveEvents(latest, rows));
  }

  // ----- with stale edges -----

  function StaleChildren(latest: Latest, events: seq<Event>): set<Id> {
    set child | child in latest && Stale(latest, events, child)
  }

  /** The edges that the check and the committed graph have in common: those of the children whose edge is not stale. */
  function SettledGraph(latest: Latest, events: seq<Event>): Graph {
    CheckedGraph(latest, events) - StaleChildren(latest, events)
  }

  /** The staged parents that the check walks and committing does not take. */
  function StagedStale(latest: Latest, events: seq<Event>): Graph {
    map child | child in Staged(events) && Stale(latest, events, child) :: Staged(events)[child].parent
  }

  /** A stale child's walk, along the edges the check uses, comes back. */
  ghost predicate StaleLoopChecked(latest: Latest, events: seq<Event>) {
    exists child :: Stale(latest, events, child) && Revisits(CheckedGraph(latest, events), child)
  }

  /** A stale child's walk, along the edges the tree will have, comes back. */
  ghost predicate StaleLoopCommitted(latest: Latest, events: seq<Event>) {
    exists child :: Stale(latest, events, child)
                    && Revisits(SettledGraph(latest, events) + StaleParents(latest, events), child)
  }

  lemma CommittedIsSettled(latest: Latest, events: seq<Event>)
    requires EpochSorted(events)
    ensures Parents(AdvanceAll(latest, events)) == SettledGraph(latest, events) + StaleParents(latest, events)
  {
    CommittedRestoresStale(latest, events);
    Recut(CheckedGraph(latest, events), StaleParents(latest, events), StaleChildren(latest, events));
  }

  lemma CheckedIsSettled(latest: Latest, events: seq<Event>)
    ensures CheckedGraph(latest, events) == SettledGraph(latest, events) + StagedStale(latest, events)
  {
    var checked := CheckedGraph(latest, events);
    Recut(checked, StagedStale(latest, events), StaleChildren(latest, events));
    assert checked + StagedStale(latest, events) == checked;
  }

  /** Edges that are overridden may as well be taken out first. */
  lemma Recut(g: Graph, over: Graph, children: set<Id>)
    requires over.Keys == children
    ensures g + over == g - children + over
  {
  }

  /**
   Exactly when the check is right, for any batch on an acyclic tree. A cycle among the settled edges is rightly
   refused. Otherwise the check is right iff a stale child's walk comes back along both the checked and the committed
   edges, or along neither.
   */
  lemma CheckIsRightUnlessStaleLoop(latest: Latest, rows: seq<Row>)
    requires Acyclic(Parents(latest))
    ensures var events := NaiveEvents(latest, rows);
            (PassesCheck(latest, events) <==> Acyclic(Parents(AdvanceAll(latest, events))))
            <==> (Acyclic(SettledGraph(latest, events))
                  ==> (StaleLoopChecked(latest, events) <==> StaleLoopCommitted(latest, events)))
  {
    var events := NaiveEvents(latest, rows);
    var settled := SettledGraph(latest, events);
    NaiveEventsAreRows(latest, rows);
    CommittedIsSettled(latest, events);
    CheckedIsSettled(latest, events);
    CheckDecidesCheckedGraph(latest, events);
    if Acyclic(settled) {
      OverrideAcyclic(settled, StagedStale(latest, events));
      OverrideAcyclic(settled, StaleParents(latest, events));
    } else {
      SubgraphCycle(settled, CheckedGraph(latest, events));
      SubgraphCycle(settled, Parents(AdvanceAll(latest, events)));
    }
  }

  lemma SubgraphCycle(part: Graph, whole: Graph)
    requires !Acyclic(part) && forall child :: child in part ==> child in whole && whole[child] == part[child]
    ensures !Acyclic(whole)
  {
    var node, k: nat :| 0 < k && Walk(part, node, k) == Some(node);
    SubgraphWalk(part, whole, node, k);
  }

  lemma {:induction false} SubgraphWalk(part: Graph, whole: Graph, node: Id, k: nat)
    requires forall child :: child in part ==> child in whole && whole[child] == part[child]
    ensures Walk(part, node, k).Some? ==> Walk(whole, node, k) == Walk(part, node, k)
  {
    if k > 0 {
      SubgraphWalk(part, whole, node, k - 1);
    }
  }

  lemma OverrideTwice(g: Graph, a: Graph, b: Graph)
    requires a.Keys == b.Keys
    ensures g + a + b == g + b
  {
  }

  /**
   An accepted batch leaves the graph acyclic exactly when no stale child's walk comes back along the committed edges.
   */
  lemma AcceptedLeavesAcyclic(latest: Latest, rows: seq<Row>)
    requires Acyclic(Parents(latest)) && PassesCheck(latest, NaiveEvents(latest, rows))
    ensures Acyclic(Parents(AdvanceAll(latest, NaiveEvents(latest, rows))))
       <==> !StaleLoopCommitted(latest, NaiveEvents(latest, rows))
  {
    var events := NaiveEvents(latest, rows);
    NaiveEventsAreRows(latest, rows);
    CommittedIsSettled(latest, events);
    CommittedRestoresStale(latest, events);
    CheckDecidesCheckedGraph(latest, events);
    OverrideAcyclic(CheckedGraph(latest, events), StaleParents(latest, events));
  }

  /**
   A batch that would leave the graph acyclic is refused exactly when a stale child's walk comes back in the check.
   */
  lemma HarmlessIsRefusedForStaleLoop(latest: Latest, rows: seq<Row>)
    requires Acyclic(Parents(latest)) && Acyclic(Parents(AdvanceAll(latest, NaiveEvents(latest, rows))))
    ensures PassesCheck(latest, NaiveEvents(latest, rows)) <==> !StaleLoopChecked(latest, NaiveEvents(latest, rows))
  {
    var events := NaiveEvents(latest, rows);
    var committed := Parents(AdvanceAll(latest, events));
    NaiveEventsAreRows(latest, rows);
    CommittedIsSettled(latest, events);
    CheckedIsSettled(latest, events);
    CheckDecidesCheckedGraph(latest, events);
    OverrideTwice(SettledGraph(latest, events), StaleParents(latest, events), StagedStale(latest, events));
    OverrideAcyclic(committed, StagedStale(latest, events));
  }

  /** The current parents that stale edges fail to replace. */
  function StaleParents(latest: Latest, events: seq<Event>): Graph {
    map child | child in latest && Stale(latest, events, child) :: latest[child].parent
  }

  lemma CommittedRestoresStale(latest: Latest, events: seq<Event>)
    requires EpochSorted(events)
    ensures Parents(AdvanceAll(latest, events)) == CheckedGraph(latest, events) + StaleParents(latest, events)
  {
    var committed := Parents(AdvanceAll(latest, events));
    var restored := CheckedGraph(latest, events) + StaleParents(latest, events);
    forall child
      ensures child in committed <==> child in restored
      ensures child in committed ==> committed[child] == restored[child]
    {
      CommittedEdge(latest, events, child);
      assert Lookup(AdvanceAll(latest, events), child).Some? <==> child in committed;
    }
  }

  /**
   A backfill is outside the guarantee. With `a` under `b` since 100, a batch that puts `a`
   elsewhere at 50 and `b` under `a` at 200 passes the check and leaves `a` and `b` each
   other's parent.
   */
  lemma BackfillSlipsThrough(a: Id, b: Id, anchor: Id, pose: Pose)
    requires Before(a, b) && a.IsSoloc() && b.IsSoloc() && anchor.IsAstro()
    ensures var latest := map[a := Edge(b, 100), b := Edge(anchor, 0)];
            var rows := [Row(a, anchor, 50, MEASURED, pose), Row(b, a, 200, MEASURED, pose)];
            && Acyclic(Parents(latest)) && Accepted(latest, rows)
            && !Acyclic(Parents(AdvanceAll(latest, NaiveEvents(latest, rows))))
  {
    var latest := map[a := Edge(b, 100), b := Edge(anchor, 0)];
    var ra, rb := Row(a, anchor, 50, MEASURED, pose), Row(b, a, 200, MEASURED, pose);
    TwoRows(latest, ra, rb);
    TwoNodeChain(latest, a, b);
    BackfillChecked(latest, a, b, anchor);
    BackfillCommitted(latest, a, b, anchor);
  }

  /**
   The other way about, a backfill that changes nothing can be refused. With `a` under an anchor since 100 and `b` under
   `a`, a row that puts `a` under `b` at 50 is taken for a cycle, though committing it would leave every edge as it is.
   */
  lemma HarmlessBackfillIsRefused(a: Id, b: Id, anchor: Id, pose: Pose)
    requires a != b && a.IsSoloc() && b.IsSoloc() && anchor.IsAstro()
    ensures var latest := map[a := Edge(anchor, 100), b := Edge(a, 0)];
            var rows := [Row(a, b, 50, MEASURED, pose)];
            && Acyclic(Parents(latest)) && Verdict(latest, rows) == Err(CycleDetected)
            && AdvanceAll(latest, NaiveEvents(latest, rows)) == latest
  {
    var latest := map[a := Edge(anchor, 100), b := Edge(a, 0)];
    TwoNodeChain(latest, b, a);
    OneRow(latest, Row(a, b, 50, MEASURED, pose));
    HarmlessChecked(latest, a, b);
    HarmlessCommitted(latest, a, b);
  }

  lemma OneRow(latest: Latest, row: Row)
    requires !row.id.IsAbstract() && !row.frame.IsAbstract() && ParentOf(latest, row.id) != Some(row.frame)
    ensures FirstAbstract([row]).None? && NaiveEvents(latest, [row]) == [EventOf(row)]
  {
    assert [row][..0] == [];
    assert StableSorted([row]) == [row];
    OneChange(latest, row);
  }

  lemma HarmlessChecked(latest: Latest, a: Id, b: Id)
    requires a != b && a.IsSoloc() && b.IsSoloc() && b in latest && latest.Keys == {a, b} && latest[b].parent == a
    ensures !PassesCheck(latest, [Event(a, b, 50)])
  {
    var events := [Event(a, b, 50)];
    assert events[..0] == [];
    assert Staged(events) == map[a := Edge(b, 50)];
    var checked := CheckedGraph(latest, events);
    assert checked == map[a := b, b := a];
    assert Walk(checked, a, 0) == Some(a) && Walk(checked, a, 1) == Some(b) && Walk(checked, a, 2) == Some(a);
    assert Revisits(checked, a);
  }

  lemma HarmlessCommitted(latest: Latest, a: Id, b: Id)
    requires a in latest && 50 < latest[a].since
    ensures AdvanceAll(latest, [Event(a, b, 50)]) == latest
  {
    assert [Event(a, b, 50)][..0] == [];
  }

  lemma BackfillChecked(latest: Latest, a: Id, b: Id, anchor: Id)
    requires a != b && a.IsSoloc() && anchor.IsAstro() && latest == map[a := Edge(b, 100), b := Edge(anchor, 0)]
    ensures PassesCheck(latest, [Event(a, anchor, 50), Event(b, a, 200)])
  {
    var events := [Event(a, anchor, 50), Event(b, a, 200)];
    assert events[..1] == [Event(a, anchor, 50)];
    assert Staged(events[..1]) == map[a := Edge(anchor, 50)];
    var checked := CheckedGraph(latest, events);
    assert checked == map[a := anchor, b := a];
    EndedWalkDoesNotRevisit(checked, a, 1);
    assert Walk(checked, b, 1) == Some(a);
    EndedWalkDoesNotRevisit(checked, b, 2);
  }

  lemma BackfillCommitted(latest: Latest, a: Id, b: Id, anchor: Id)
    requires a != b && a.IsSoloc() && b.IsSoloc() && latest == map[a := Edge(b, 100), b := Edge(anchor, 0)]
    ensures !Acyclic(Parents(AdvanceAll(latest, [Event(a, anchor, 50), Event(b, a, 200)])))
  {
    var events := [Event(a, anchor, 50), Event(b, a, 200)];
    assert events[..1] == [Event(a, anchor, 50)];
    assert AdvanceAll(latest, events[..1]) == latest;
    var committed := Parents(AdvanceAll(latest, events));
    assert committed == map[a := b, b := a];
    assert Walk(committed, a, 1) == Some(b);
    assert Walk(committed, a, 2) == Some(a);
  }

  lemma TwoNodeChain(latest: Latest, a: Id, b: Id)
    requires a != b && a in latest && latest.Keys == {a, b}
    requires latest[a].parent == b && !latest[b].parent.IsSoloc()
    ensures Acyclic(Parents(latest))
  {
    var g := Parents(latest);
    AcyclicIffNoRevisit(g);
    forall node
      ensures !Revisits(g, node)
    {
      assert Walk(g, node, 0) == Some(node);
      assert Walk(g, node, 1) == Next(g, node);
      assert Walk(g, node, 2).None?;
      EndedWalkDoesNotRevisit(g, node, 2);
    }
  }

  /** Two rows of different entities, in id order, each changing its entity's parent. */
  lemma TwoRows(latest: Latest, ra: Row, rb: Row)
    requires Before(ra.id, rb.id) && ra.id != rb.id
    requires ParentOf(latest, ra.id) != Some(ra.frame) && ParentOf(latest, rb.id) != Some(rb.frame)
    requires !ra.id.IsAbstract() && !ra.frame.IsAbstract() && !rb.id.IsAbstract() && !rb.frame.IsAbstract()
    ensures FirstAbstract([ra, rb]).None?
    ensures NaiveEvents(latest, [ra, rb]) == [EventOf(ra), EventOf(rb)]
  {
    assert [ra, rb][..1] == [ra];
    assert FirstAbstract([ra]).None? by {
      assert [ra][..0] == [];
    }
    TwoSorted(ra, rb);
    OneChange(latest, ra);
  }

  lemma TwoSorted(ra: Row, rb: Row)
    requires Before(ra.id, rb.id)
    ensures StableSorted([ra, rb]) == [ra, rb]
  {
    assert [ra, rb][..1] == [ra];
    assert StableSorted([ra]) == [ra] by {
      assert [ra][..0] == [];
    }
    InsertLast([ra], rb);
  }

  lemma OneChange(latest: Latest, ra: Row)
    requires ParentOf(latest, ra.id) != Some(ra.frame)
    ensures Changes(latest, [ra]) == [EventOf(ra)]
  {
    assert [ra][..0] == [];
  }
}
