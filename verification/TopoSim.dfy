/**
 examples/sim_study_0/tools/topo_sim.py: the topology of a saved ledger read straight off its rows, and the tree at an
 instant read off the events. Grouping by entity follows first appearance in the file.
 */
module TopoSim {
  import opened Prelude
  import opened Identity
  import opened Rows
  import opened StableSort
  import opened Topology
  import opened Ingest
  import opened CycleCheck
  import opened Runs
  import opened Agreement

  /** The entities, in the order of their first rows. */
  function FirstSeen(rows: seq<Row>): (ids: seq<Id>)
    ensures forall id :: id in ids <==> id in IdsOf(rows)
    ensures forall i, j :: 0 <= i < j < |ids| ==> ids[i] != ids[j]
  {
    if rows == [] then []
    else
      var earlier, last := FirstSeen(rows[..|rows| - 1]), rows[|rows| - 1];
      assert rows == rows[..|rows| - 1] + [last];
      if last.id in earlier then earlier else earlier + [last.id]
  }

  /** The rows of `ids` in turn, each entity's sorted stably by epoch. */
  function Grouped(rows: seq<Row>, ids: seq<Id>): seq<Row> {
    if ids == [] then []
    else Grouped(rows, ids[..|ids| - 1]) + StableSorted(RowsOf(rows, ids[|ids| - 1]))
  }

  lemma {:induction false} GroupedOwnRows(rows: seq<Row>, ids: seq<Id>, child: Id)
    requires forall i, j :: 0 <= i < j < |ids| ==> ids[i] != ids[j]
    ensures RowsOf(Grouped(rows, ids), child) == if child in ids then StableSorted(RowsOf(rows, child)) else []
  {
    if ids != [] {
      var front, last := ids[..|ids| - 1], ids[|ids| - 1];
      GroupedOwnRows(rows, front, child);
      FilterConcat(Grouped(rows, front), StableSorted(RowsOf(rows, last)), (r: Row) => r.id == child);
      OneEntity(rows, last, child);
      assert ids == front + [last];
    }
  }

  lemma OneEntity(rows: seq<Row>, id: Id, child: Id)
    ensures RowsOf(StableSorted(RowsOf(rows, id)), child) == if id == child then StableSorted(RowsOf(rows, id)) else []
  {
    SortedOwnRows(rows, id);
    if id == child {
      FilterAll(StableSorted(RowsOf(rows, id)), (r: Row) => r.id == child);
    } else {
      FilterNone(StableSorted(RowsOf(rows, id)), (r: Row) => r.id == child);
    }
  }

  lemma {:induction false} GroupedIsContiguous(rows: seq<Row>, ids: seq<Id>)
    requires forall i, j :: 0 <= i < j < |ids| ==> ids[i] != ids[j]
    ensures Contiguous(Grouped(rows, ids))
    ensures forall r :: r in Grouped(rows, ids) ==> r.id in ids
  {
    if ids != [] {
      var front, last := ids[..|ids| - 1], ids[|ids| - 1];
      GroupedIsContiguous(rows, front);
      SortedOwnRows(rows, last);
      var before, own := Grouped(rows, front), StableSorted(RowsOf(rows, last));
      assert forall r :: r in before ==> r.id != last;
      forall i, j, k | 0 <= i < j < k < |before + own| && (before + own)[i].id == (before + own)[k].id
        ensures (before + own)[j].id == (before + own)[i].id
      {
        if i < |before| {
          assert before[i] in before;
          assert k < |before|;
        }
      }
    }
  }

  /** Every first sighting and parent change. For each entity these are the events a tree logs for the same rows. */
  method EventsFromRows(rows: seq<Row>) returns (events: seq<Event>)
    ensures forall child :: EventsOf(events, child) == EventsOf(NaiveEvents(map[], rows), child)
    ensures events == Changes(map[], Grouped(rows, FirstSeen(rows)))
  {
    events := WalkGrouped(Grouped(rows, FirstSeen(rows)));
    forall child
      ensures EventsOf(events, child) == EventsOf(NaiveEvents(map[], rows), child)
    {
      GroupedEvents(rows, child);
    }
  }

  method WalkGrouped(order: seq<Row>) returns (events: seq<Event>)
    ensures events == Changes(map[], order)
  {
    events := [];
    var previous: Option<(Id, Id)> := None;
    for k := 0 to |order|
      invariant events == Changes(map[], order[..k])
      invariant previous == if k > 0 then Some((order[k - 1].id, order[k - 1].frame)) else None
    {
      var row := order[k];
      assert order[..k + 1][..k] == order[..k];
      if previous != Some((row.id, row.frame)) {
        events := events + [EventOf(row)];
      }
      previous := Some((row.id, row.frame));
    }
    assert order[..|order|] == order;
  }

  lemma GroupedEvents(rows: seq<Row>, child: Id)
    ensures EventsOf(Changes(map[], Grouped(rows, FirstSeen(rows))), child) == EventsOf(NaiveEvents(map[], rows), child)
  {
    var ids := FirstSeen(rows);
    GroupedIsContiguous(rows, ids);
    ChangesPerChild(map[], Grouped(rows, ids), child);
    GroupedOwnRows(rows, ids, child);
    EventsPerChild(map[], rows, child);
    if child !in ids {
      FilterNone(rows, (r: Row) => r.id == child);
    }
  }

  // ----- the tree at an instant -----

  function InsertByEpoch(sorted: seq<Event>, e: Event): seq<Event> {
    if sorted == [] || sorted[|sorted| - 1].epoch <= e.epoch then sorted + [e]
    else InsertByEpoch(sorted[..|sorted| - 1], e) + [sorted[|sorted| - 1]]
  }

  /** Sorted by epoch, stably. */
  function ByEpoch(events: seq<Event>): seq<Event> {
    if events == [] then [] else InsertByEpoch(ByEpoch(events[..|events| - 1]), events[|events| - 1])
  }

  ghost predicate Ascending(events: seq<Event>) {
    forall i, j :: 0 <= i < j < |events| ==> events[i].epoch <= events[j].epoch
  }

  lemma {:induction false} InsertAscends(sorted: seq<Event>, e: Event)
    requires Ascending(sorted)
    ensures Ascending(InsertByEpoch(sorted, e))
    ensures forall x :: x in InsertByEpoch(sorted, e) ==> x in sorted || x == e
  {
    if sorted != [] && sorted[|sorted| - 1].epoch > e.epoch {
      var front, last := sorted[..|sorted| - 1], sorted[|sorted| - 1];
      InsertAscends(front, e);
      var put := InsertByEpoch(front, e);
      assert forall i :: 0 <= i < |put| ==> put[i] in put;
    }
  }

  lemma {:induction false} ByEpochAscends(events: seq<Event>)
    ensures Ascending(ByEpoch(events))
  {
    if events != [] {
      ByEpochAscends(events[..|events| - 1]);
      InsertAscends(ByEpoch(events[..|events| - 1]), events[|events| - 1]);
    }
  }

  lemma InForceSnoc(log: seq<Event>, e: Event, child: Id, epoch: Epoch)
    ensures var earlier := InForce(log, child, epoch);
            InForce(log + [e], child, epoch)
            == if e.child == child && e.epoch <= epoch && (earlier.Some? ==> earlier.value.epoch <= e.epoch)
               then Some(e)
               else earlier
  {
    assert (log + [e])[..|log|] == log;
  }

  /** Where an event is put among later ones does not change which is in force. */
  lemma {:induction false} InsertKeepsInForce(sorted: seq<Event>, e: Event, child: Id, epoch: Epoch)
    ensures InForce(InsertByEpoch(sorted, e), child, epoch) == InForce(sorted + [e], child, epoch)
  {
    if sorted != [] && sorted[|sorted| - 1].epoch > e.epoch {
      var front, last := sorted[..|sorted| - 1], sorted[|sorted| - 1];
      InsertKeepsInForce(front, e, child, epoch);
      InForceSnoc(InsertByEpoch(front, e), last, child, epoch);
      InForceSnoc(front, e, child, epoch);
      InForceSnoc(sorted, e, child, epoch);
    }
  }

  lemma {:induction false} ByEpochKeepsInForce(events: seq<Event>, child: Id, epoch: Epoch)
    ensures InForce(ByEpoch(events), child, epoch) == InForce(events, child, epoch)
  {
    if events != [] {
      var front, last := events[..|events| - 1], events[|events| - 1];
      ByEpochKeepsInForce(front, child, epoch);
      InsertKeepsInForce(ByEpoch(front), last, child, epoch);
      InForceSnoc(ByEpoch(front), last, child, epoch);
      InForceSnoc(front, last, child, epoch);
      assert events == front + [last];
    }
  }

  /** The parent of each child as of `epoch`: the edge in force, in whatever order the events come. */
  method TreeAt(events: seq<Event>, epoch: Epoch) returns (parent: map<Id, Id>)
    ensures forall child :: (child in parent <==> ParentInForce(events, child, epoch).Some?)
                            && (child in parent ==> ParentInForce(events, child, epoch) == Some(parent[child]))
  {
    var sorted := ByEpoch(events);
    ByEpochAscends(events);
    parent := map[];
    for i := 0 to |sorted|
      invariant forall child :: Get(parent, child) == ParentInForce(sorted[..i], child, epoch)
    {
      var e := sorted[i];
      assert sorted[..i + 1] == sorted[..i] + [e];
      forall child
        ensures ParentInForce(sorted[..i + 1], child, epoch)
             == if e.child == child && e.epoch <= epoch
                then Some(e.parent) else ParentInForce(sorted[..i], child, epoch)
      {
        InForceSnoc(sorted[..i], e, child, epoch);
        InForceIsTop(sorted[..i], child, epoch);
      }
      ghost var before := parent;
      if e.epoch <= epoch {
        parent := parent[e.child := e.parent];
      }
      forall child
        ensures Get(parent, child) == ParentInForce(sorted[..i + 1], child, epoch)
      {
        assert Get(before, child) == ParentInForce(sorted[..i], child, epoch);
      }
    }
    assert sorted[..|sorted|] == sorted;
    forall child
      ensures Get(parent, child) == ParentInForce(events, child, epoch)
    {
      ByEpochKeepsInForce(events, child, epoch);
    }
  }

  function Get(m: map<Id, Id>, id: Id): Option<Id> {
    if id in m then Some(m[id]) else None
  }

  // ----- against the ledger's tree -----

  /** The edge in force depends on the child's own events. */
  lemma {:induction false} OwnEventsInForce(log: seq<Event>, child: Id, epoch: Epoch)
    ensures InForce(log, child, epoch) == InForce(EventsOf(log, child), child, epoch)
  {
    if log != [] {
      var front, last := log[..|log| - 1], log[|log| - 1];
      OwnEventsInForce(front, child, epoch);
      if last.child == child {
        InForceSnoc(EventsOf(front, child), last, child, epoch);
      }
    }
  }

  /**
   The summary of a saved ledger shows the tree the ledger had: for rows appended as any run of accepted, entity-ordered
   batches, what is in force among the summary's events is what the tree answers, at every instant.
   */
  lemma {:induction false} SummaryShowsTheTree(batches: seq<seq<Row>>, events: seq<Event>, child: Id, epoch: Epoch)
    requires EntityOrdered(batches) && AllAccepted(EMPTY_TREE, batches)
    requires EventsOf(events, child) == EventsOf(NaiveEvents(map[], Flatten(batches)), child)
    ensures ParentInForce(events, child, epoch) == ParentAt(IngestedAll(EMPTY_TREE, batches), child, epoch)
  {
    var rows := Flatten(batches);
    var tree := ApplyAll(EMPTY_TREE, NaiveEvents(map[], rows));
    OwnEventsInForce(events, child, epoch);
    OwnEventsInForce(tree.log, child, epoch);
    EmptyIsAcyclic();
    RunAsOneBatch(EMPTY_TREE, batches);
    SameHistorySameParent(IngestedAll(EMPTY_TREE, batches), tree, child, epoch);
    OneTreeInForce(rows, child, epoch);
  }

  lemma OneTreeInForce(rows: seq<Row>, child: Id, epoch: Epoch)
    ensures var tree := ApplyAll(EMPTY_TREE, NaiveEvents(map[], rows));
            && tree.log == NaiveEvents(map[], rows)
            && ParentAt(tree, child, epoch) == ParentInForce(tree.log, child, epoch)
  {
    var events := NaiveEvents(map[], rows);
    var tree := ApplyAll(EMPTY_TREE, events);
    assert tree.log == events;
    ApplyKeepsCoherent(EMPTY_TREE, events);
    NaiveEventsAreRows(map[], rows);
    ParentAtIsInForce(tree, child, epoch);
  }
}
