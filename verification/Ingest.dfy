/**
 Deriving topology from rows. The specification is the naive reading: sort every row of the
 batch stably by (id, epoch), walk them in that order, and log each change of parent,
 starting each id from the parent it had before the batch.
 */
module Ingest {
  import opened Prelude
  import opened Identity
  import opened Rows
  import opened StableSort
  import opened FrameGraph
  import opened Topology

  datatype IngestError = AbstractEntity(row: nat, id: Id) | AbstractFrame(frame: Id) | CycleDetected

  datatype Outcome = Outcome(events: seq<Event>, latestRows: map<Id, nat>)

  function EventOf(row: Row): Event {
    Event(row.id, row.frame, row.epoch)
  }

  /** The parent that the row at `k` is compared with: its predecessor's frame, or the tree's. */
  function RunningParent(latest: Latest, sorted: seq<Row>, k: nat): Option<Id>
    requires k < |sorted|
  {
    if k > 0 && sorted[k - 1].id == sorted[k].id then Some(sorted[k - 1].frame)
    else ParentOf(latest, sorted[k].id)
  }

  /** The parent changes met walking sorted rows in order. */
  function Changes(latest: Latest, sorted: seq<Row>): seq<Event> {
    if sorted == [] then []
    else
      var last := |sorted| - 1;
      var earlier := Changes(latest, sorted[..last]);
      if RunningParent(latest, sorted, last) == Some(sorted[last].frame) then earlier
      else earlier + [EventOf(sorted[last])]
  }

  /** The events a batch yields, naively. */
  function NaiveEvents(latest: Latest, rows: seq<Row>): seq<Event> {
    Changes(latest, StableSorted(rows))
  }

  /** For each child, the last of its events: the edge waiting to be committed. */
  function Staged(events: seq<Event>): Latest {
    if events == [] then map[]
    else
      var last := events[|events| - 1];
      Staged(events[..|events| - 1])[last.child := Edge(last.parent, last.epoch)]
  }

  /** The index of the entity's first row of highest epoch. */
  function FirstLatest(rows: seq<Row>, id: Id): (first: Option<nat>)
    ensures first.None? ==> forall k :: 0 <= k < |rows| ==> rows[k].id != id
    ensures first.Some? ==>
              var i := first.value;
              && i < |rows| && rows[i].id == id
              && forall k :: 0 <= k < |rows| && rows[k].id == id ==>
                   rows[k].epoch < rows[i].epoch || (rows[k].epoch == rows[i].epoch && i <= k)
  {
    if rows == [] then None
    else
      var k := |rows| - 1;
      var earlier := FirstLatest(rows[..k], id);
      if rows[k].id != id || (earlier.Some? && rows[k].epoch <= rows[earlier.value].epoch) then earlier
      else Some(k)
  }

  function LatestRows(rows: seq<Row>): map<Id, nat> {
    map id | id in IdsOf(rows) :: FirstLatest(rows, id).value
  }

  /** The first row naming an abstract id, as entity or as frame, and which it was. */
  function FirstAbstract(rows: seq<Row>): Option<IngestError> {
    if rows == [] then None
    else
      var k := |rows| - 1;
      var earlier := FirstAbstract(rows[..k]);
      if earlier.Some? then earlier
      else if rows[k].id.IsAbstract() then Some(AbstractEntity(k, rows[k].id))
      else if rows[k].frame.IsAbstract() then Some(AbstractFrame(rows[k].frame))
      else None
  }

  /** The graph the cycle check walks: the tree's parents with the staged edges put over them. */
  function CheckedGraph(latest: Latest, events: seq<Event>): Graph {
    Parents(latest) + Parents(Staged(events))
  }

  /** No walk up from a staged child comes back to a node it has met. */
  ghost predicate PassesCheck(latest: Latest, events: seq<Event>) {
    forall child :: child in Staged(events) ==> !Revisits(CheckedGraph(latest, events), child)
  }

  ghost predicate Accepted(latest: Latest, rows: seq<Row>) {
    FirstAbstract(rows).None? && PassesCheck(latest, NaiveEvents(latest, rows))
  }

  /** What ingesting `rows` answers; a rejected batch commits nothing. */
  ghost function Verdict(latest: Latest, rows: seq<Row>): Result<Outcome, IngestError> {
    if FirstAbstract(rows).Some? then Err(FirstAbstract(rows).value)
    else if !PassesCheck(latest, NaiveEvents(latest, rows)) then Err(CycleDetected)
    else Ok(Outcome(NaiveEvents(latest, rows), LatestRows(rows)))
  }

  ghost function Ingested(tree: Tree, rows: seq<Row>): Tree {
    if Accepted(tree.latest, rows) then ApplyAll(tree, NaiveEvents(tree.latest, rows)) else tree
  }

  // ----- one child at a time -----

  /** The parent changes of a single entity whose rows are in epoch order. */
  function ChildChanges(start: Option<Id>, sorted: seq<Row>): seq<Event> {
    if sorted == [] then []
    else
      var last := |sorted| - 1;
      var before := if last > 0 then Some(sorted[last - 1].frame) else start;
      if before == Some(sorted[last].frame) then ChildChanges(start, sorted[..last])
      else ChildChanges(start, sorted[..last]) + [EventOf(sorted[last])]
  }

  /** No row is separated from the others of its entity. */
  ghost predicate Contiguous(rows: seq<Row>) {
    forall i, j, k :: 0 <= i < j < k < |rows| && rows[i].id == rows[k].id ==> rows[j].id == rows[i].id
  }

  lemma SortedIsContiguous(rows: seq<Row>)
    requires Sorted(rows)
    ensures Contiguous(rows)
  {
    forall i, j, k | 0 <= i < j < k < |rows| && rows[i].id == rows[k].id
      ensures rows[j].id == rows[i].id
    {
      assert KeyLeq(rows[i], rows[j]) && KeyLeq(rows[j], rows[k]);
    }
  }

  /** Restricted to one entity, the walk over grouped rows sees only that entity's rows. */
  lemma {:induction false} ChangesPerChild(latest: Latest, rows: seq<Row>, child: Id)
    requires Contiguous(rows)
    ensures EventsOf(Changes(latest, rows), child) == ChildChanges(ParentOf(latest, child), RowsOf(rows, child))
  {
    if rows != [] {
      var k := |rows| - 1;
      var front, last := rows[..k], rows[k];
      ChangesPerChild(latest, front, child);
      FilterSnoc(Changes(latest, front), EventOf(last), (e: Event) => e.child == child);
      if last.id == child {
        var own := RowsOf(front, child);
        assert RowsOf(rows, child) == own + [last];
        assert (own + [last])[..|own|] == own;
        LastOfGroup(rows, child);
      }
    }
  }

  /** In grouped rows the row before the last is of the last row's entity, or there is none. */
  lemma LastOfGroup(rows: seq<Row>, child: Id)
    requires Contiguous(rows) && rows != [] && rows[|rows| - 1].id == child
    ensures var k := |rows| - 1;
            var own := RowsOf(rows[..k], child);
            if k > 0 && rows[k - 1].id == child then own != [] && own[|own| - 1] == rows[k - 1] else own == []
  {
    var k := |rows| - 1;
    if k > 0 && rows[k - 1].id != child {
      forall r | r in rows[..k]
        ensures r.id != child
      {
        var i :| 0 <= i < k && rows[i] == r;
      }
      FilterNone(rows[..k], (r: Row) => r.id == child);
    }
  }

  /** A batch's events for one entity come from that entity's rows alone, sorted by epoch. */
  lemma EventsPerChild(latest: Latest, rows: seq<Row>, child: Id)
    ensures EventsOf(NaiveEvents(latest, rows), child)
         == ChildChanges(ParentOf(latest, child), StableSorted(RowsOf(rows, child)))
  {
    StableSortSorts(rows);
    SortedIsContiguous(StableSorted(rows));
    ChangesPerChild(latest, StableSorted(rows), child);
    FilterSorted(rows, (r: Row) => r.id == child);
  }

  // ----- skipping clean ids -----

  /** Every row of an id outside `dirty` repeats the parent the tree already has for it. */
  ghost predicate CleanOutside(latest: Latest, rows: seq<Row>, dirty: set<Id>) {
    forall r :: r in rows && r.id !in dirty ==> ParentOf(latest, r.id) == Some(r.frame)
  }

  /**
   Sorting and walking only the rows of dirty ids logs exactly what sorting and walking all
   the rows does.
   */
  lemma DirtyRowsSuffice(latest: Latest, rows: seq<Row>, dirty: set<Id>)
    requires CleanOutside(latest, rows, dirty)
    ensures Changes(latest, StableSorted(Filter(rows, (r: Row) => r.id in dirty))) == NaiveEvents(latest, rows)
  {
    FilterSorted(rows, (r: Row) => r.id in dirty);
    StableSortSorts(rows);
    SortedMembers(rows);
    CleanRowsChangeNothing(latest, StableSorted(rows), dirty);
  }

  lemma {:induction false} CleanRowsChangeNothing(latest: Latest, sorted: seq<Row>, dirty: set<Id>)
    requires Sorted(sorted) && CleanOutside(latest, sorted, dirty)
    ensures Changes(latest, Filter(sorted, (r: Row) => r.id in dirty)) == Changes(latest, sorted)
  {
    if sorted != [] {
      var k := |sorted| - 1;
      var front, last := sorted[..k], sorted[k];
      CleanRowsChangeNothing(latest, front, dirty);
      if last.id in dirty {
        var kept := Filter(front, (r: Row) => r.id in dirty);
        assert (kept + [last])[..|kept|] == kept;
        SamePredecessor(latest, sorted, dirty);
      }
    }
  }

  /** A dirty row is compared with the same running parent whether or not clean rows are present. */
  lemma SamePredecessor(latest: Latest, sorted: seq<Row>, dirty: set<Id>)
    requires Sorted(sorted) && sorted != [] && sorted[|sorted| - 1].id in dirty
    ensures var k := |sorted| - 1;
            var kept := Filter(sorted[..k], (r: Row) => r.id in dirty);
            RunningParent(latest, kept + [sorted[k]], |kept|) == RunningParent(latest, sorted, k)
  {
    var k := |sorted| - 1;
    var front, last := sorted[..k], sorted[k];
    var kept := Filter(front, (r: Row) => r.id in dirty);
    if k > 0 && sorted[k - 1].id == last.id {
      assert kept[|kept| - 1] == sorted[k - 1];
    } else if kept != [] {
      FilterMembers(front, (r: Row) => r.id in dirty);
      assert kept[|kept| - 1] in kept;
      var i :| 0 <= i < k && front[i] == kept[|kept| - 1];
      assert KeyLeq(sorted[i], sorted[k - 1]) || i == k - 1;
      assert KeyLeq(sorted[k - 1], sorted[k]);
    }
  }
}
