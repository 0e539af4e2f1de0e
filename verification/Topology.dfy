/**
 The parent graph as a value: the current edge of every child, and the log of every parent
 change. `TransformTree` holds one of these; everything said about runs is said about it.
 */
module Topology {
  import opened Prelude
  import opened Identity
  import opened Rows
  import opened FrameGraph

  /** `child` became parented to `parent` at `epoch`. */
  datatype Event = Event(child: Id, parent: Id, epoch: Epoch)

  datatype Edge = Edge(parent: Id, since: Epoch)

  type Latest = map<Id, Edge>

  datatype Tree = Tree(latest: Latest, log: seq<Event>)

  const EMPTY_TREE := Tree(map[], [])

  function Lookup(latest: Latest, child: Id): Option<Edge> {
    if child in latest then Some(latest[child]) else None
  }

  function ParentOf(latest: Latest, child: Id): Option<Id> {
    if child in latest then Some(latest[child].parent) else None
  }

  /** The graph of current parents. */
  function Parents(latest: Latest): Graph {
    map child | child in latest :: latest[child].parent
  }

  function EventsOf(events: seq<Event>, child: Id): seq<Event> {
    Filter(events, (e: Event) => e.child == child)
  }

  lemma EventsOfConcat(a: seq<Event>, b: seq<Event>, child: Id)
    ensures EventsOf(a + b, child) == EventsOf(a, child) + EventsOf(b, child)
  {
    FilterConcat(a, b, (e: Event) => e.child == child);
  }

  /** `latest` after one event: an event older than the current edge does not roll it back. */
  function Advance(latest: Latest, event: Event): Latest {
    if event.child in latest && event.epoch < latest[event.child].since then latest
    else latest[event.child := Edge(event.parent, event.epoch)]
  }

  function AdvanceAll(latest: Latest, events: seq<Event>): Latest {
    if events == [] then latest
    else Advance(AdvanceAll(latest, events[..|events| - 1]), events[|events| - 1])
  }

  function ApplyAll(tree: Tree, events: seq<Event>): Tree {
    Tree(AdvanceAll(tree.latest, events), tree.log + events)
  }

  lemma AdvanceAllConcat(latest: Latest, a: seq<Event>, b: seq<Event>)
    ensures AdvanceAll(latest, a + b) == AdvanceAll(AdvanceAll(latest, a), b)
  {
    if b == [] {
      assert a + b == a;
    } else {
      assert (a + b)[..|a + b| - 1] == a + b[..|b| - 1];
      AdvanceAllConcat(latest, a, b[..|b| - 1]);
    }
  }

  /** A child's edge depends on that child's own events only. */
  lemma AdvanceIsPerChild(latest: Latest, other: Latest, a: seq<Event>, b: seq<Event>, child: Id)
    requires Lookup(latest, child) == Lookup(other, child)
    requires EventsOf(a, child) == EventsOf(b, child)
    ensures Lookup(AdvanceAll(latest, a), child) == Lookup(AdvanceAll(other, b), child)
  {
    OwnEventsDecide(latest, a, child);
    OwnEventsDecide(other, b, child);
    SameStart(latest, other, EventsOf(a, child), child);
  }

  lemma {:induction false} OwnEventsDecide(latest: Latest, events: seq<Event>, child: Id)
    ensures Lookup(AdvanceAll(latest, events), child) == Lookup(AdvanceAll(latest, EventsOf(events, child)), child)
  {
    if events != [] {
      var front, last := events[..|events| - 1], events[|events| - 1];
      OwnEventsDecide(latest, front, child);
      if last.child == child {
        assert (EventsOf(front, child) + [last])[..|EventsOf(front, child)|] == EventsOf(front, child);
      }
    }
  }

  lemma {:induction false} SameStart(latest: Latest, other: Latest, events: seq<Event>, child: Id)
    requires Lookup(latest, child) == Lookup(other, child)
    ensures Lookup(AdvanceAll(latest, events), child) == Lookup(AdvanceAll(other, events), child)
  {
    if events != [] {
      SameStart(latest, other, events[..|events| - 1], child);
    }
  }

  lemma LookupDecides(a: Latest, b: Latest)
    requires forall child :: Lookup(a, child) == Lookup(b, child)
    ensures a == b
  {
    forall child
      ensures child in a <==> child in b
      ensures child in a ==> a[child] == b[child]
    {
      assert Lookup(a, child) == Lookup(b, child);
    }
  }

  /**
   The event in force for `child` at `epoch`: the highest epoch not after it, and among equal
   epochs the one logged last.
   */
  function InForce(log: seq<Event>, child: Id, epoch: Epoch): Option<Event> {
    if log == [] then None
    else
      var earlier, last := InForce(log[..|log| - 1], child, epoch), log[|log| - 1];
      if last.child == child && last.epoch <= epoch && (earlier.Some? ==> earlier.value.epoch <= last.epoch)
      then Some(last) else earlier
  }

  /** The last event by log position, whatever its epoch, that is not after `epoch`. */
  function LastLogged(log: seq<Event>, child: Id, epoch: Epoch): Option<Id> {
    if log == [] then None
    else
      var last := log[|log| - 1];
      if last.child == child && last.epoch <= epoch then Some(last.parent)
      else LastLogged(log[..|log| - 1], child, epoch)
  }

  /** `child`'s parent as of `epoch`: its current edge if already in effect, else the log. */
  function ParentAt(tree: Tree, child: Id, epoch: Epoch): Option<Id> {
    if child !in tree.latest then None
    else if tree.latest[child].since <= epoch then Some(tree.latest[child].parent)
    else LastLogged(tree.log, child, epoch)
  }

  /** `latest` is what replaying the log gives. */
  ghost predicate Coherent(tree: Tree) {
    tree.latest == AdvanceAll(map[], tree.log)
  }

  /** Each child's events were logged in epoch order. */
  ghost predicate EpochSorted(log: seq<Event>) {
    forall i, j :: 0 <= i < j < |log| && log[i].child == log[j].child ==> log[i].epoch <= log[j].epoch
  }

  lemma ApplyKeepsCoherent(tree: Tree, events: seq<Event>)
    requires Coherent(tree)
    ensures Coherent(ApplyAll(tree, events))
  {
    AdvanceAllConcat(map[], tree.log, events);
  }

  /** `index` is the position of the event in force. */
  ghost predicate IsTop(log: seq<Event>, child: Id, epoch: Epoch, index: int) {
    && 0 <= index < |log| && log[index].child == child && log[index].epoch <= epoch
    && (forall j :: 0 <= j < |log| && log[j].child == child && log[j].epoch <= epoch ==>
          log[j].epoch < log[index].epoch || (log[j].epoch == log[index].epoch && j <= index))
  }

  /** `InForce` read declaratively: it names the top event, and exists when any candidate does. */
  lemma {:induction false} InForceIsTop(log: seq<Event>, child: Id, epoch: Epoch)
    ensures InForce(log, child, epoch).Some? ==>
              exists i :: IsTop(log, child, epoch, i) && log[i] == InForce(log, child, epoch).value
    ensures InForce(log, child, epoch).None? ==>
              forall j :: 0 <= j < |log| && log[j].child == child ==> epoch < log[j].epoch
  {
    if log != [] {
      var front, last := log[..|log| - 1], log[|log| - 1];
      InForceIsTop(front, child, epoch);
      assert forall j :: 0 <= j < |front| ==> front[j] == log[j];
      var earlier := InForce(front, child, epoch);
      if last.child == child && last.epoch <= epoch && (earlier.Some? ==> earlier.value.epoch <= last.epoch) {
        assert IsTop(log, child, epoch, |log| - 1);
      } else if earlier.Some? {
        var i :| IsTop(front, child, epoch, i) && front[i] == earlier.value;
        assert IsTop(log, child, epoch, i);
      }
    }
  }

  lemma TopIsInForce(log: seq<Event>, child: Id, epoch: Epoch, index: int)
    requires IsTop(log, child, epoch, index)
    ensures InForce(log, child, epoch) == Some(log[index])
  {
    InForceIsTop(log, child, epoch);
  }

  /** With no upper bound on the epoch, the edge in force is the one in `latest`. */
  lemma {:induction false} LatestIsInForce(log: seq<Event>, child: Id)
    ensures var top := InForce(log, child, EPOCH_MAX);
            Lookup(AdvanceAll(map[], log), child)
            == if top.Some? then Some(Edge(top.value.parent, top.value.epoch)) else None
  {
    if log != [] {
      LatestIsInForce(log[..|log| - 1], child);
    }
  }

  /** A bound that the top event meets selects the same event. */
  lemma TopWithinBound(log: seq<Event>, child: Id, epoch: Epoch)
    requires InForce(log, child, EPOCH_MAX).Some?
    requires InForce(log, child, EPOCH_MAX).value.epoch <= epoch
    ensures InForce(log, child, epoch) == InForce(log, child, EPOCH_MAX)
  {
    InForceIsTop(log, child, EPOCH_MAX);
    var i :| IsTop(log, child, EPOCH_MAX, i) && log[i] == InForce(log, child, EPOCH_MAX).value;
    assert IsTop(log, child, epoch, i);
    TopIsInForce(log, child, epoch, i);
  }

  lemma {:induction false} SortedScanFindsTop(log: seq<Event>, child: Id, epoch: Epoch)
    requires EpochSorted(log)
    ensures LastLogged(log, child, epoch)
         == if InForce(log, child, epoch).Some? then Some(InForce(log, child, epoch).value.parent) else None
  {
    if log != [] {
      var front, last := log[..|log| - 1], log[|log| - 1];
      SortedScanFindsTop(front, child, epoch);
      InForceIsTop(front, child, epoch);
    }
  }

  function ParentInForce(log: seq<Event>, child: Id, epoch: Epoch): Option<Id> {
    var top := InForce(log, child, epoch);
    if top.Some? then Some(top.value.parent) else None
  }

  /** `parent_at` answers with the edge in force, for a log that is epoch-sorted per child. */
  lemma ParentAtIsInForce(tree: Tree, child: Id, epoch: Epoch)
    requires Coherent(tree)
    requires EpochSorted(tree.log) || (child in tree.latest ==> tree.latest[child].since <= epoch)
    ensures ParentAt(tree, child, epoch) == ParentInForce(tree.log, child, epoch)
  {
    LatestIsInForce(tree.log, child);
    if child !in tree.latest {
      InForceIsTop(tree.log, child, EPOCH_MAX);
      InForceIsTop(tree.log, child, epoch);
    } else if tree.latest[child].since <= epoch {
      TopWithinBound(tree.log, child, epoch);
    } else {
      SortedScanFindsTop(tree.log, child, epoch);
    }
  }

  /** Event `j` is the last logged of the child's events not after `epoch`: the one the scan stops at. */
  ghost predicate IsLast(log: seq<Event>, child: Id, epoch: Epoch, j: int) {
    && 0 <= j < |log| && log[j].child == child && log[j].epoch <= epoch
    && (forall k :: j < k < |log| && log[k].child == child ==> epoch < log[k].epoch)
  }

  lemma {:induction false} LastLoggedIsLast(log: seq<Event>, child: Id, epoch: Epoch)
    ensures var found := LastLogged(log, child, epoch);
            if found.Some? then exists j :: IsLast(log, child, epoch, j) && log[j].parent == found.value
            else forall j :: 0 <= j < |log| && log[j].child == child ==> epoch < log[j].epoch
  {
    if log != [] {
      var front, last := log[..|log| - 1], log[|log| - 1];
      LastLoggedIsLast(front, child, epoch);
      if last.child == child && last.epoch <= epoch {
        assert IsLast(log, child, epoch, |log| - 1);
      } else if LastLogged(front, child, epoch).Some? {
        var j :| IsLast(front, child, epoch, j) && front[j].parent == LastLogged(front, child, epoch).value;
        assert IsLast(log, child, epoch, j);
      }
    }
  }

  lemma LastIsLastLogged(log: seq<Event>, child: Id, epoch: Epoch, j: int)
    requires IsLast(log, child, epoch, j)
    ensures LastLogged(log, child, epoch) == Some(log[j].parent)
  {
    LastLoggedIsLast(log, child, epoch);
  }

  /**
   The later-logged event `j` hides event `i` from the scan: `i` is in force from its own epoch on, before the current
   edge is in effect, and `j` is older, names another parent, and has nothing of the child's as old as `i` logged after
   it.
   */
  ghost predicate Hides(tree: Tree, child: Id, i: nat, j: nat) {
    && child in tree.latest && i < j < |tree.log| && tree.log[j].child == child
    && IsTop(tree.log, child, tree.log[i].epoch, i) && tree.log[i].epoch < tree.latest[child].since
    && tree.log[j].epoch < tree.log[i].epoch && tree.log[j].parent != tree.log[i].parent
    && forall k :: j < k < |tree.log| && tree.log[k].child == child ==> tree.log[i].epoch < tree.log[k].epoch
  }

  /** `parent_at` names the edge in force at every epoch exactly when no event of the child hides another. */
  lemma ParentAtIsInForceUnlessHidden(tree: Tree, child: Id)
    requires Coherent(tree)
    ensures (forall epoch: Epoch :: ParentAt(tree, child, epoch) == ParentInForce(tree.log, child, epoch))
       <==> forall i: nat, j: nat :: !Hides(tree, child, i, j)
  {
    if i: nat, j: nat :| Hides(tree, child, i, j) {
      HiddenEventIsMissed(tree, child, i, j);
    } else {
      forall epoch: Epoch
        ensures ParentAt(tree, child, epoch) == ParentInForce(tree.log, child, epoch)
      {
        NothingHiddenNothingMissed(tree, child, epoch);
      }
    }
  }

  lemma HiddenEventIsMissed(tree: Tree, child: Id, i: nat, j: nat)
    requires Hides(tree, child, i, j)
    ensures var epoch := tree.log[i].epoch;
            ParentAt(tree, child, epoch) == Some(tree.log[j].parent) != ParentInForce(tree.log, child, epoch)
  {
    TopIsInForce(tree.log, child, tree.log[i].epoch, i);
    LastIsLastLogged(tree.log, child, tree.log[i].epoch, j);
  }

  lemma NothingHiddenNothingMissed(tree: Tree, child: Id, epoch: Epoch)
    requires Coherent(tree) && forall i: nat, j: nat :: !Hides(tree, child, i, j)
    ensures ParentAt(tree, child, epoch) == ParentInForce(tree.log, child, epoch)
  {
    var log := tree.log;
    if child !in tree.latest || tree.latest[child].since <= epoch {
      ParentAtIsInForce(tree, child, epoch);
    } else {
      InForceIsTop(log, child, epoch);
      LastLoggedIsLast(log, child, epoch);
      if InForce(log, child, epoch).Some? {
        var i :| IsTop(log, child, epoch, i) && log[i] == InForce(log, child, epoch).value;
        var j :| IsLast(log, child, epoch, j) && log[j].parent == LastLogged(log, child, epoch).value;
        UnhiddenTopIsFound(tree, child, epoch, i, j);
      }
    }
  }

  lemma UnhiddenTopIsFound(tree: Tree, child: Id, epoch: Epoch, i: nat, j: nat)
    requires child in tree.latest && epoch < tree.latest[child].since
    requires IsTop(tree.log, child, epoch, i) && IsLast(tree.log, child, epoch, j) && !Hides(tree, child, i, j)
    ensures tree.log[j].parent == tree.log[i].parent
  {
    assert i <= j && (i != j ==> tree.log[j].epoch < tree.log[i].epoch);
  }

  /**
   Out of epoch order the scan can answer wrongly: after edges since 20 and 5 were logged, an
   edge since 3 logged last hides the one since 5 from a query at 10.
   */
  lemma UnsortedLogMisleadsParentAt(child: Id, a: Id, b: Id, c: Id)
    requires a != b
    ensures var tree := ApplyAll(EMPTY_TREE, [Event(child, c, 20), Event(child, a, 5), Event(child, b, 3)]);
            Coherent(tree) && ParentAt(tree, child, 10) == Some(b) && ParentInForce(tree.log, child, 10) == Some(a)
  {
    var log := [Event(child, c, 20), Event(child, a, 5), Event(child, b, 3)];
    assert log[..2] == [Event(child, c, 20), Event(child, a, 5)];
    assert log[..2][..1] == [Event(child, c, 20)];
    assert log[..2][..1][..0] == [];
    assert AdvanceAll(map[], log[..2][..1]) == map[child := Edge(c, 20)];
    assert AdvanceAll(map[], log[..2]) == map[child := Edge(c, 20)];
    assert EMPTY_TREE.log + log == log;
    TopIsInForce(log, child, 10, 1);
  }
}
