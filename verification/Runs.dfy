/** Whole runs of ingested batches, and how they may be regrouped. */
module Runs {
  import opened Prelude
  import opened Identity
  import opened Rows
  import opened StableSort
  import opened FrameGraph
  import opened Topology
  import opened Ingest
  import opened CycleCheck

  /** No entity goes back in time from `a` to `b`. Rows within each may be in any order. */
  ghost predicate Follows(a: seq<Row>, b: seq<Row>) {
    forall r, s :: r in a && s in b && r.id == s.id ==> r.epoch <= s.epoch
  }

  ghost predicate EntityOrdered(batches: seq<seq<Row>>) {
    forall i, j :: 0 <= i < j < |batches| ==> Follows(batches[i], batches[j])
  }

  ghost function IngestedAll(tree: Tree, batches: seq<seq<Row>>): Tree {
    if batches == [] then tree
    else Ingested(IngestedAll(tree, batches[..|batches| - 1]), batches[|batches| - 1])
  }

  ghost predicate AllAccepted(tree: Tree, batches: seq<seq<Row>>) {
    batches != [] ==>
      && AllAccepted(tree, batches[..|batches| - 1])
      && Accepted(IngestedAll(tree, batches[..|batches| - 1]).latest, batches[|batches| - 1])
  }

  lemma OneMoreBatch(tree: Tree, batches: seq<seq<Row>>, rows: seq<Row>)
    ensures IngestedAll(tree, batches + [rows]) == Ingested(IngestedAll(tree, batches), rows)
    ensures AllAccepted(tree, batches + [rows])
       <==> AllAccepted(tree, batches) && Accepted(IngestedAll(tree, batches).latest, rows)
  {
    assert (batches + [rows])[..|batches|] == batches;
  }

  /** Trees that answer every query alike: equal edges, and equal histories of each child. */
  ghost predicate SameHistory(a: Tree, b: Tree) {
    a.latest == b.latest && forall child :: EventsOf(a.log, child) == EventsOf(b.log, child)
  }

  // ----- two batches as one -----

  lemma {:induction false} ChildChangesConcat(start: Option<Id>, a: seq<Row>, b: seq<Row>)
    ensures ChildChanges(start, a + b)
         == ChildChanges(start, a) + ChildChanges(if a == [] then start else Some(a[|a| - 1].frame), b)
  {
    if b == [] {
      assert a + b == a;
    } else {
      assert (a + b)[..|a + b| - 1] == a + b[..|b| - 1];
      ChildChangesConcat(start, a, b[..|b| - 1]);
    }
  }

  /** After an entity's rows, its current parent is the frame of the last of them. */
  lemma {:induction false} ParentAfterRows(latest: Latest, sorted: seq<Row>, child: Id)
    requires forall i :: 0 <= i < |sorted| ==> sorted[i].id == child
    requires forall i, j :: 0 <= i < j < |sorted| ==> sorted[i].epoch <= sorted[j].epoch
    requires child in latest && sorted != [] ==> latest[child].since <= sorted[0].epoch
    ensures var after := AdvanceAll(latest, ChildChanges(ParentOf(latest, child), sorted));
            && ParentOf(after, child)
               == (if sorted == [] then ParentOf(latest, child) else Some(sorted[|sorted| - 1].frame))
            && (sorted != [] ==> after[child].since <= sorted[|sorted| - 1].epoch)
  {
    if sorted != [] {
      var k := |sorted| - 1;
      ParentAfterRows(latest, sorted[..k], child);
      var earlier := ChildChanges(ParentOf(latest, child), sorted[..k]);
      assert (earlier + [EventOf(sorted[k])])[..|earlier|] == earlier;
    }
  }

  /** An entity's sorted rows: they are its rows of the batch, in epoch order. */
  lemma SortedOwnRows(rows: seq<Row>, child: Id)
    ensures var own := StableSorted(RowsOf(rows, child));
            && (forall i :: 0 <= i < |own| ==> own[i].id == child && own[i] in rows)
            && (forall i, j :: 0 <= i < j < |own| ==> own[i].epoch <= own[j].epoch)
            && (forall r :: r in rows && r.id == child ==> r in own)
            && (own != [] ==> own[0].id == child && own[0] in rows)
  {
    var own := StableSorted(RowsOf(rows, child));
    FilterMembers(rows, (r: Row) => r.id == child);
    SortedMembers(RowsOf(rows, child));
    StableSortSorts(RowsOf(rows, child));
    assert forall i :: 0 <= i < |own| ==> own[i] in own;
    assert forall i, j :: 0 <= i < j < |own| ==> KeyLeq(own[i], own[j]);
  }

  lemma SortedRowsConcat(a: seq<Row>, b: seq<Row>, child: Id)
    requires Follows(a, b)
    ensures StableSorted(RowsOf(a + b, child)) == StableSorted(RowsOf(a, child)) + StableSorted(RowsOf(b, child))
  {
    FilterConcat(a, b, (r: Row) => r.id == child);
    FilterMembers(a, (r: Row) => r.id == child);
    FilterMembers(b, (r: Row) => r.id == child);
    SortedConcat(RowsOf(a, child), RowsOf(b, child));
  }

  lemma ParentByOwnEvents(latest: Latest, events: seq<Event>, child: Id)
    ensures ParentOf(AdvanceAll(latest, events), child) == ParentOf(AdvanceAll(latest, EventsOf(events, child)), child)
  {
    OwnEventsDecide(latest, events, child);
    assert Lookup(AdvanceAll(latest, events), child) == Lookup(AdvanceAll(latest, EventsOf(events, child)), child);
  }

  lemma ParentAfterBatch(latest: Latest, rows: seq<Row>, child: Id)
    requires NotBefore(latest, rows)
    ensures var own := StableSorted(RowsOf(rows, child));
            ParentOf(AdvanceAll(latest, NaiveEvents(latest, rows)), child)
            == if own == [] then ParentOf(latest, child) else Some(own[|own| - 1].frame)
  {
    var own, events := StableSorted(RowsOf(rows, child)), NaiveEvents(latest, rows);
    SortedOwnRows(rows, child);
    assert child in latest && own != [] ==> latest[child].since <= own[0].epoch;
    ParentAfterRows(latest, own, child);
    EventsPerChild(latest, rows, child);
    ParentByOwnEvents(latest, events, child);
  }

  /** A child's events over two batches are those of the concatenated batch. */
  lemma EventsConcat(latest: Latest, a: seq<Row>, b: seq<Row>, child: Id)
    requires NotBefore(latest, a) && Follows(a, b)
    ensures var after := AdvanceAll(latest, NaiveEvents(latest, a));
            EventsOf(NaiveEvents(latest, a + b), child)
            == EventsOf(NaiveEvents(latest, a) + NaiveEvents(after, b), child)
  {
    var after := AdvanceAll(latest, NaiveEvents(latest, a));
    EventsPerChild(latest, a, child);
    EventsPerChild(after, b, child);
    EventsPerChild(latest, a + b, child);
    SortedRowsConcat(a, b, child);
    ChildChangesConcat(ParentOf(latest, child), StableSorted(RowsOf(a, child)), StableSorted(RowsOf(b, child)));
    EventsOfConcat(NaiveEvents(latest, a), NaiveEvents(after, b), child);
    ParentAfterBatch(latest, a, child);
  }

  /** Every edge after a batch was there before it, or comes from one of the batch's rows. */
  lemma NotBeforeAfter(latest: Latest, a: seq<Row>, b: seq<Row>)
    requires NotBefore(latest, b) && Follows(a, b)
    ensures NotBefore(AdvanceAll(latest, NaiveEvents(latest, a)), b)
  {
    var events := NaiveEvents(latest, a);
    NaiveEventsAreRows(latest, a);
    forall s | s in b && s.id in AdvanceAll(latest, events)
      ensures AdvanceAll(latest, events)[s.id].since <= s.epoch
    {
      CommittedEdge(latest, events, s.id);
      assert Lookup(AdvanceAll(latest, events), s.id) == Some(AdvanceAll(latest, events)[s.id]);
    }
  }

  lemma {:induction false} FirstAbstractConcat(a: seq<Row>, b: seq<Row>)
    requires FirstAbstract(a).None?
    ensures FirstAbstract(a + b).None? <==> FirstAbstract(b).None?
  {
    if b == [] {
      assert a + b == a;
    } else {
      assert (a + b)[..|a + b| - 1] == a + b[..|b| - 1];
      FirstAbstractConcat(a, b[..|b| - 1]);
    }
  }

  lemma LatestConcat(latest: Latest, a: seq<Row>, b: seq<Row>)
    requires NotBefore(latest, a) && Follows(a, b)
    ensures var after := AdvanceAll(latest, NaiveEvents(latest, a));
            AdvanceAll(latest, NaiveEvents(latest, a + b)) == AdvanceAll(after, NaiveEvents(after, b))
  {
    var first := NaiveEvents(latest, a);
    var after := AdvanceAll(latest, first);
    var second, both := NaiveEvents(after, b), NaiveEvents(latest, a + b);
    AdvanceAllConcat(latest, first, second);
    forall child
      ensures Lookup(AdvanceAll(latest, first + second), child) == Lookup(AdvanceAll(latest, both), child)
    {
      EventsConcat(latest, a, b, child);
      AdvanceIsPerChild(latest, latest, first + second, both, child);
    }
    LookupDecides(AdvanceAll(latest, first + second), AdvanceAll(latest, both));
  }

  lemma AcceptedConcat(latest: Latest, a: seq<Row>, b: seq<Row>)
    requires Acyclic(Parents(latest)) && NotBefore(latest, a) && NotBefore(latest, b) && Follows(a, b)
    requires Accepted(latest, a) && Accepted(AdvanceAll(latest, NaiveEvents(latest, a)), b)
    ensures Accepted(latest, a + b)
    ensures Acyclic(Parents(AdvanceAll(latest, NaiveEvents(latest, a + b))))
  {
    var after := AdvanceAll(latest, NaiveEvents(latest, a));
    LatestConcat(latest, a, b);
    NotBeforeAfter(latest, a, b);
    assert NotBefore(latest, a + b);
    NotBeforeIsNotStale(latest, a);
    NotBeforeIsNotStale(after, b);
    NotBeforeIsNotStale(latest, a + b);
    IngestCheckIsExact(latest, a);
    IngestCheckIsExact(after, b);
    IngestCheckIsExact(latest, a + b);
    FirstAbstractConcat(a, b);
  }

  lemma SameEventsSameHistory(tree: Tree, a: seq<Event>, b: seq<Event>)
    requires AdvanceAll(tree.latest, a) == AdvanceAll(tree.latest, b)
    requires forall child :: EventsOf(a, child) == EventsOf(b, child)
    ensures SameHistory(ApplyAll(tree, a), ApplyAll(tree, b))
  {
    forall child
      ensures EventsOf(tree.log + a, child) == EventsOf(tree.log + b, child)
    {
      EventsOfConcat(tree.log, a, child);
      EventsOfConcat(tree.log, b, child);
      assert EventsOf(a, child) == EventsOf(b, child);
    }
  }

  lemma ApplyTwice(tree: Tree, a: seq<Event>, b: seq<Event>)
    ensures ApplyAll(ApplyAll(tree, a), b) == ApplyAll(tree, a + b)
  {
    AdvanceAllConcat(tree.latest, a, b);
    assert tree.log + a + b == tree.log + (a + b);
  }

  /** Two accepted batches, the second not before the first, make one accepted batch. */
  lemma TwoBatchesAsOne(tree: Tree, a: seq<Row>, b: seq<Row>)
    requires Acyclic(Parents(tree.latest)) && NotBefore(tree.latest, a) && NotBefore(tree.latest, b) && Follows(a, b)
    requires Accepted(tree.latest, a) && Accepted(Ingested(tree, a).latest, b)
    ensures Accepted(tree.latest, a + b)
    ensures SameHistory(Ingested(Ingested(tree, a), b), Ingested(tree, a + b))
    ensures Acyclic(Parents(Ingested(tree, a + b).latest))
  {
    AcceptedConcat(tree.latest, a, b);
    assert SameHistory(Ingested(Ingested(tree, a), b), Ingested(tree, a + b)) by {
      var first := NaiveEvents(tree.latest, a);
      var second := NaiveEvents(AdvanceAll(tree.latest, first), b);
      ApplyTwice(tree, first, second);
      LatestConcat(tree.latest, a, b);
      AdvanceAllConcat(tree.latest, first, second);
      forall child
        ensures EventsOf(first + second, child) == EventsOf(NaiveEvents(tree.latest, a + b), child)
      {
        EventsConcat(tree.latest, a, b, child);
      }
      SameEventsSameHistory(tree, first + second, NaiveEvents(tree.latest, a + b));
    }
  }

  // ----- any run as one batch -----

  lemma FlattenFollows(batches: seq<seq<Row>>, b: seq<Row>)
    requires forall i :: 0 <= i < |batches| ==> Follows(batches[i], b)
    ensures Follows(Flatten(batches), b)
  {
  }

  /**
   A run of accepted, entity-ordered batches amounts to ingesting their concatenation: it is
   accepted too, and leaves the same edges and the same events of every child.
   */
  lemma {:induction false} RunAsOneBatch(tree: Tree, batches: seq<seq<Row>>)
    requires Acyclic(Parents(tree.latest)) && EntityOrdered(batches) && AllAccepted(tree, batches)
    requires NotBefore(tree.latest, Flatten(batches))
    ensures Accepted(tree.latest, Flatten(batches))
    ensures SameHistory(IngestedAll(tree, batches), Ingested(tree, Flatten(batches)))
    ensures Acyclic(Parents(IngestedAll(tree, batches).latest))
  {
    if batches == [] {
      assert NaiveEvents(tree.latest, []) == [];
      assert tree.log + [] == tree.log;
    } else {
      var front, last := batches[..|batches| - 1], batches[|batches| - 1];
      RunAsOneBatch(tree, front);
      FlattenFollows(front, last);
      TwoBatchesAsOne(tree, Flatten(front), last);
      SameLatestSameBatch(IngestedAll(tree, front), Ingested(tree, Flatten(front)), last);
    }
  }

  /** Ingesting reads nothing of a tree but its current edges. */
  lemma SameLatestSameBatch(a: Tree, b: Tree, rows: seq<Row>)
    requires SameHistory(a, b)
    ensures SameHistory(Ingested(a, rows), Ingested(b, rows))
  {
    var events := NaiveEvents(a.latest, rows);
    forall child
      ensures EventsOf(a.log + events, child) == EventsOf(b.log + events, child)
    {
      EventsOfConcat(a.log, events, child);
      EventsOfConcat(b.log, events, child);
      assert EventsOf(a.log, child) == EventsOf(b.log, child);
    }
  }

  // ----- regrouping -----

  /** Each group of batches concatenated into one batch, as sealing then reloading does. */
  function Joined(groups: seq<seq<seq<Row>>>): seq<seq<Row>> {
    if groups == [] then [] else Joined(groups[..|groups| - 1]) + [Flatten(groups[|groups| - 1])]
  }

  lemma {:induction false} JoinedRows(groups: seq<seq<seq<Row>>>)
    ensures Flatten(Joined(groups)) == Flatten(Flatten(groups))
  {
    if groups != [] {
      var front, last := groups[..|groups| - 1], groups[|groups| - 1];
      JoinedRows(front);
      assert Flatten(Joined(groups)) == Flatten(Joined(front)) + Flatten(last) by {
        assert Joined(groups)[..|Joined(front)|] == Joined(front);
      }
      FlattenConcat(Flatten(front), last);
    }
  }

  lemma {:induction false} RunConcat(tree: Tree, a: seq<seq<Row>>, b: seq<seq<Row>>)
    ensures IngestedAll(tree, a + b) == IngestedAll(IngestedAll(tree, a), b)
    ensures AllAccepted(tree, a + b) <==> AllAccepted(tree, a) && AllAccepted(IngestedAll(tree, a), b)
  {
    if b == [] {
      assert a + b == a;
    } else {
      assert (a + b)[..|a + b| - 1] == a + b[..|b| - 1];
      RunConcat(tree, a, b[..|b| - 1]);
    }
  }

  lemma OrderedParts(a: seq<seq<Row>>, b: seq<seq<Row>>)
    requires EntityOrdered(a + b)
    ensures EntityOrdered(a) && EntityOrdered(b) && Follows(Flatten(a), Flatten(b))
  {
    assert forall i :: 0 <= i < |a| ==> (a + b)[i] == a[i];
    assert forall j :: 0 <= j < |b| ==> (a + b)[|a| + j] == b[j];
    forall r, s | r in Flatten(a) && s in Flatten(b) && r.id == s.id
      ensures r.epoch <= s.epoch
    {
      var i :| 0 <= i < |a| && r in a[i];
      var j :| 0 <= j < |b| && s in b[j];
      assert Follows((a + b)[i], (a + b)[|a| + j]);
    }
  }

  lemma RunIsNotBefore(tree: Tree, a: seq<seq<Row>>, later: seq<Row>)
    requires Acyclic(Parents(tree.latest)) && EntityOrdered(a) && AllAccepted(tree, a)
    requires NotBefore(tree.latest, Flatten(a)) && NotBefore(tree.latest, later) && Follows(Flatten(a), later)
    ensures NotBefore(IngestedAll(tree, a).latest, later)
  {
    RunAsOneBatch(tree, a);
    NotBeforeAfter(tree.latest, Flatten(a), later);
  }

  /**
   Batch grouping does not matter: a run of accepted, entity-ordered batches may be ingested
   in any concatenation of consecutive whole batches. Every joined batch is accepted, and the
   edges and each child's events come out the same.
   */
  lemma {:induction false} GroupingDoesNotMatter(tree: Tree, groups: seq<seq<seq<Row>>>)
    requires Acyclic(Parents(tree.latest)) && NotBefore(tree.latest, Flatten(Flatten(groups)))
    requires EntityOrdered(Flatten(groups)) && AllAccepted(tree, Flatten(groups))
    ensures AllAccepted(tree, Joined(groups))
    ensures SameHistory(IngestedAll(tree, Flatten(groups)), IngestedAll(tree, Joined(groups)))
  {
    if groups != [] {
      var front, last := groups[..|groups| - 1], groups[|groups| - 1];
      var before := IngestedAll(tree, Flatten(front));
      assert Flatten(groups) == Flatten(front) + last;
      RunConcat(tree, Flatten(front), last);
      OrderedParts(Flatten(front), last);
      FlattenConcat(Flatten(front), last);
      GroupingDoesNotMatter(tree, front);
      RunAsOneBatch(tree, Flatten(front));
      RunIsNotBefore(tree, Flatten(front), Flatten(last));
      RunAsOneBatch(before, last);
      assert Joined(groups)[..|Joined(front)|] == Joined(front);
      SameLatestSameBatch(before, IngestedAll(tree, Joined(front)), Flatten(last));
    }
  }
}
