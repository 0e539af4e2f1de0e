/**
 visualizer/src/core/topology.ts: a one-pass port of the transform tree, fed rows that a ledger has already validated.
 It logs the events the tree logs, entity by entity in id order, and makes the last of them current whatever its epoch.
 */
module VisualizerTopology {
  import opened Prelude
  import opened Identity
  import opened Rows
  import opened StableSort
  import opened FrameGraph
  import opened Topology
  import opened Ingest
  import opened CycleCheck
  import opened Runs
  import opened Ancestry
  import opened Quaternions

  /** The entities of `ids` in id order. */
  ghost predicate InOrder(ids: seq<Id>) {
    forall i, j :: 0 <= i < j < |ids| ==> Before(ids[i], ids[j])
  }

  lemma BeforeIsTotal(a: Id, b: Id, c: Id)
    ensures Before(a, b) || Before(b, a) || a == b
    ensures !(Before(a, b) && Before(b, a)) && !Before(a, a)
    ensures Before(a, b) && Before(b, c) ==> Before(a, c)
  {
  }

  method SmallestId(ids: set<Id>) returns (least: Id)
    requires ids != {}
    ensures least in ids && forall id :: id in ids && id != least ==> Before(least, id)
  {
    least :| least in ids;
    var rest := ids - {least};
    while rest != {}
      invariant rest <= ids && least in ids && least !in rest
      invariant forall id :: id in ids && id !in rest && id != least ==> Before(least, id)
      decreases rest
    {
      var id :| id in rest;
      rest := rest - {id};
      BeforeIsTotal(id, least, id);
      if Before(id, least) {
        forall other | other in ids && other !in rest && other != id
          ensures Before(id, other)
        {
          BeforeIsTotal(id, least, other);
        }
        least := id;
      }
    }
  }

  method SortedIds(ids: set<Id>) returns (order: seq<Id>)
    ensures InOrder(order) && forall id :: id in order <==> id in ids
  {
    order := [];
    var rest := ids;
    while rest != {}
      invariant InOrder(order) && rest <= ids
      invariant forall id :: id in order <==> id in ids && id !in rest
      invariant forall a, b :: a in order && b in rest ==> Before(a, b)
      decreases rest
    {
      var least := SmallestId(rest);
      order := order + [least];
      rest := rest - {least};
    }
  }

  /** What has been walked once the entities `done` have: a stretch of the sorted rows. */
  function UpTo(rows: seq<Row>, done: set<Id>): seq<Row> {
    Filter(StableSorted(rows), (r: Row) => r.id in done)
  }

  /** Walking one more entity, after all the smaller ones, walks the next stretch of the sorted rows. */
  lemma NextStretch(rows: seq<Row>, done: set<Id>, id: Id)
    requires forall other :: other in done ==> Before(other, id)
    ensures UpTo(rows, done + {id}) == UpTo(rows, done) + StableSorted(RowsOf(rows, id))
  {
    FilterSorted(rows, (r: Row) => r.id == id);
    StableSortSorts(rows);
    SplitAtId(StableSorted(rows), done, id);
  }

  lemma {:induction false} SplitAtId(sorted: seq<Row>, done: set<Id>, id: Id)
    requires Sorted(sorted) && forall other :: other in done ==> Before(other, id)
    ensures Filter(sorted, (r: Row) => r.id in done + {id})
         == Filter(sorted, (r: Row) => r.id in done) + Filter(sorted, (r: Row) => r.id == id)
  {
    if sorted != [] {
      var k := |sorted| - 1;
      var front, last := sorted[..k], sorted[k];
      SplitAtId(front, done, id);
      if last.id in done {
        forall r | r in front
          ensures r.id != id
        {
          var i :| 0 <= i < k && sorted[i] == r;
          assert KeyLeq(sorted[i], last);
          BeforeIsTotal(last.id, id, last.id);
        }
        FilterNone(front, (r: Row) => r.id == id);
      } else if last.id == id {
        ConcatAssoc(Filter(front, (r: Row) => r.id in done), Filter(front, (r: Row) => r.id == id), [last]);
      }
    }
  }

  /** `latest` with every entity that has events set to the last of them. */
  function Overlaid(latest: Latest, events: seq<Event>): Latest {
    latest + Staged(events)
  }

  class TransformTopology {
    var events: seq<Event>
    var latest: Latest

    constructor ()
      ensures events == [] && latest == map[]
    {
      events, latest := [], map[];
    }

    method GroupById(rows: seq<Row>) returns (byId: map<Id, seq<Row>>)
      ensures byId.Keys == IdsOf(rows)
      ensures forall id :: id in byId ==> byId[id] == RowsOf(rows, id)
    {
      byId := map[];
      for i := 0 to |rows|
        invariant byId.Keys == IdsOf(rows[..i])
        invariant forall id :: id in byId ==> byId[id] == RowsOf(rows[..i], id)
      {
        var r := rows[i];
        assert rows[..i + 1] == rows[..i] + [r];
        forall id
          ensures RowsOf(rows[..i + 1], id) == if r.id == id then RowsOf(rows[..i], id) + [r] else RowsOf(rows[..i], id)
        {
          FilterSnoc(rows[..i], r, (x: Row) => x.id == id);
        }
        if r.id in byId {
          byId := byId[r.id := byId[r.id] + [r]];
        } else {
          FilterNone(rows[..i], (x: Row) => x.id == r.id);
          byId := byId[r.id := [r]];
        }
      }
      assert rows[..|rows|] == rows;
    }

    /** Walks one entity's rows in epoch order, from the parent it had, logging each change. */
    method WalkEntity(ghost start: Latest, ghost log: seq<Event>, ghost walked: seq<Row>, id: Id, own: seq<Row>,
                      emitted: seq<Event>)
      returns (extended: seq<Event>)
      requires events == log + emitted && latest == Overlaid(start, emitted) && emitted == Changes(start, walked)
      requires (forall r :: r in walked ==> r.id != id) && forall i :: 0 <= i < |own| ==> own[i].id == id
      modifies this
      ensures extended == Changes(start, walked + own)
      ensures events == log + extended && latest == Overlaid(start, extended)
    {
      extended := emitted;
      StagedAreRows(start, walked, id);
      var running := ParentOf(latest, id);
      assert walked + own[..0] == walked;
      for j := 0 to |own|
        invariant extended == Changes(start, walked + own[..j])
        invariant events == log + extended && latest == Overlaid(start, extended)
        invariant running == RunningFrom(start, id, own, j)
      {
        var row := own[j];
        WalkOne(start, walked, id, own, j);
        if running != Some(row.frame) {
          running := Some(row.frame);
          var event := EventOf(row);
          StageOne(start, extended, event);
          ConcatAssoc(log, extended, [event]);
          extended := extended + [event];
          events := events + [event];
          latest := latest[id := Edge(row.frame, row.epoch)];
        }
      }
      assert own[..|own|] == own;
    }

    /** Derives the parent changes of `rows` and applies them. */
    method Ingest(rows: seq<Row>) returns (emitted: seq<Event>)
      modifies this
      ensures emitted == NaiveEvents(old(latest), rows)
      ensures events == old(events) + emitted
      ensures latest == Overlaid(old(latest), emitted)
    {
      var byId := GroupById(rows);
      var order := SortedIds(byId.Keys);
      emitted := [];
      ghost var start, log := latest, events;
      ghost var done: set<Id> := {};
      NothingWalked(rows);
      for n := 0 to |order|
        invariant forall id :: id in done <==> id in order[..n]
        invariant emitted == Changes(start, UpTo(rows, done))
        invariant events == log + emitted && latest == Overlaid(start, emitted)
      {
        var id := order[n];
        AllEarlier(order, n, done);
        NextStretch(rows, done, id);
        SortedOwnRows(rows, id);
        UpToMembers(rows, done);
        emitted := WalkEntity(start, log, UpTo(rows, done), id, StableSorted(byId[id]), emitted);
        NextDone(order, n, done);
        done := done + {id};
      }
      assert order[..|order|] == order;
      AllWalked(rows, done);
    }

    method FindParentAt(child: Id, epoch: Epoch) returns (parent: Option<Id>)
      ensures parent == ParentAt(Tree(latest, events), child, epoch)
    {
      if child !in latest {
        return None;
      }
      if latest[child].since <= epoch {
        return Some(latest[child].parent);
      }
      var i := |events|;
      assert events[..i] == events;
      while i > 0
        invariant 0 <= i <= |events|
        invariant LastLogged(events, child, epoch) == LastLogged(events[..i], child, epoch)
      {
        i := i - 1;
        assert events[..i + 1][..i] == events[..i];
        if events[i].child == child && events[i].epoch <= epoch {
          return Some(events[i].parent);
        }
      }
      return None;
    }

    /** The chain up from `entity`, ending where a parent is missing, repeated or not posed. */
    method ChainAt(entity: Id, epoch: Epoch) returns (chain: seq<Id>)
      ensures chain == [entity] + Upward(Tree(latest, events), epoch, entity, {entity})
    {
      chain := [entity];
      var seen, node := {entity}, entity;
      ghost var tree := Tree(latest, events);
      while true
        invariant [entity] + Upward(tree, epoch, entity, {entity}) == chain + Upward(tree, epoch, node, seen)
        decreases latest.Keys - seen
      {
        var parent := FindParentAt(node, epoch);
        if parent.None? || parent.value in seen {
          assert chain + [] == chain;
          return;
        }
        ghost var rest := if parent.value !in latest then []
                          else Upward(tree, epoch, parent.value, seen + {parent.value});
        ConcatAssoc(chain, [parent.value], rest);
        chain := chain + [parent.value];
        if parent.value !in latest {
          assert chain + [] == chain;
          return;
        }
        seen := seen + {parent.value};
        node := parent.value;
      }
    }
  }

  /** What is above `node`, stopping before a node already seen and after one that is not posed. */
  function Upward(tree: Tree, epoch: Epoch, node: Id, seen: set<Id>): seq<Id>
    decreases tree.latest.Keys - seen
  {
    var parent := ParentAt(tree, node, epoch);
    if parent.None? || parent.value in seen then []
    else if parent.value !in tree.latest then [parent.value]
    else [parent.value] + Upward(tree, epoch, parent.value, seen + {parent.value})
  }

  lemma NothingWalked(rows: seq<Row>)
    ensures var none: set<Id> := {}; UpTo(rows, none) == []
  {
    var none: set<Id> := {};
    FilterNone(StableSorted(rows), (r: Row) => r.id in none);
  }

  lemma AllWalked(rows: seq<Row>, done: set<Id>)
    requires forall id :: id in IdsOf(rows) ==> id in done
    ensures UpTo(rows, done) == StableSorted(rows)
  {
    SortedMembers(rows);
    FilterAll(StableSorted(rows), (r: Row) => r.id in done);
  }

  lemma UpToMembers(rows: seq<Row>, done: set<Id>)
    ensures forall r :: r in UpTo(rows, done) ==> r.id in done
  {
    FilterMembers(StableSorted(rows), (r: Row) => r.id in done);
  }

  lemma AllEarlier(order: seq<Id>, n: nat, done: set<Id>)
    requires InOrder(order) && n < |order| && forall id :: id in done <==> id in order[..n]
    ensures forall id :: id in done ==> Before(id, order[n])
    ensures order[n] !in done
  {
    BeforeIsTotal(order[n], order[n], order[n]);
  }

  lemma {:induction false} StagedAreRows(latest: Latest, rows: seq<Row>, id: Id)
    requires forall r :: r in rows ==> r.id != id
    ensures id !in Staged(Changes(latest, rows))
  {
    if rows != [] {
      StagedAreRows(latest, rows[..|rows| - 1], id);
      var earlier := Changes(latest, rows[..|rows| - 1]);
      assert (earlier + [EventOf(rows[|rows| - 1])])[..|earlier|] == earlier;
    }
  }

  /** The parent that row `j` of an entity is compared with: the row before it, or the tree. */
  function RunningFrom(latest: Latest, id: Id, own: seq<Row>, j: nat): Option<Id>
    requires j <= |own|
  {
    if j > 0 then Some(own[j - 1].frame) else ParentOf(latest, id)
  }

  lemma WalkOne(latest: Latest, walked: seq<Row>, id: Id, own: seq<Row>, j: nat)
    requires (forall r :: r in walked ==> r.id != id) && j < |own| && forall i :: 0 <= i < |own| ==> own[i].id == id
    ensures Changes(latest, walked + own[..j + 1])
         == if RunningFrom(latest, id, own, j) == Some(own[j].frame) then Changes(latest, walked + own[..j])
            else Changes(latest, walked + own[..j]) + [EventOf(own[j])]
  {
    var all := walked + own[..j + 1];
    assert all[..|all| - 1] == walked + own[..j];
    if j == 0 && walked != [] {
      assert walked[|walked| - 1] in walked;
    }
  }

  lemma NextDone(order: seq<Id>, n: nat, done: set<Id>)
    requires n < |order| && forall id :: id in done <==> id in order[..n]
    ensures forall id :: id in done + {order[n]} <==> id in order[..n + 1]
  {
    assert order[..n + 1] == order[..n] + [order[n]];
  }

  lemma StageOne(latest: Latest, events: seq<Event>, event: Event)
    ensures Overlaid(latest, events + [event])
         == Overlaid(latest, events)[event.child := Edge(event.parent, event.epoch)]
  {
    assert (events + [event])[..|events|] == events;
  }

  // ----- against the tree -----

  /** The last of an entity's new events is older than its current edge. */
  ghost predicate RollsBack(latest: Latest, events: seq<Event>, child: Id) {
    child in latest && child in Staged(events) && Staged(events)[child].since < latest[child].since
  }

  /** The port's current edges are the tree's exactly when nothing is rolled back. */
  lemma PortAgreesUnlessRolledBack(latest: Latest, rows: seq<Row>)
    ensures var events := NaiveEvents(latest, rows);
            Overlaid(latest, events) == AdvanceAll(latest, events)
            <==> forall child :: !RollsBack(latest, events, child)
  {
    var events := NaiveEvents(latest, rows);
    NaiveEventsAreRows(latest, rows);
    var port, tree := Overlaid(latest, events), AdvanceAll(latest, events);
    forall child
      ensures Lookup(port, child) == Lookup(tree, child) <==> !RollsBack(latest, events, child)
    {
      CommittedEdge(latest, events, child);
    }
    if forall child :: !RollsBack(latest, events, child) {
      LookupDecides(port, tree);
    }
  }

  /** An accepted batch keeps the port and the tree in step exactly when it rolls nothing back. */
  lemma PortFollowsTheTree(tree: Tree, rows: seq<Row>)
    requires Accepted(tree.latest, rows)
    ensures var events := NaiveEvents(tree.latest, rows);
            Tree(Overlaid(tree.latest, events), tree.log + events) == Ingested(tree, rows)
            <==> forall child :: !RollsBack(tree.latest, events, child)
  {
    PortAgreesUnlessRolledBack(tree.latest, rows);
  }

  /** An accepted backfill that the port rolls back to, and the tree does not. */
  lemma PortRollsBack(entity: Id, a: Id, b: Id, pose: Pose)
    requires entity.IsSoloc() && a.IsAstro() && b.IsAstro() && a != b
    ensures var latest, rows := map[entity := Edge(a, 100)], [Row(entity, b, 50, MEASURED, pose)];
            && Accepted(latest, rows) && ParentOf(AdvanceAll(latest, NaiveEvents(latest, rows)), entity) == Some(a)
            && ParentOf(Overlaid(latest, NaiveEvents(latest, rows)), entity) == Some(b)
  {
    var latest, event := map[entity := Edge(a, 100)], Event(entity, b, 50);
    OneRow(latest, Row(entity, b, 50, MEASURED, pose));
    assert [event][..0] == [];
    assert Staged([event]) == map[entity := Edge(b, 50)];
    AnchoredIsAcyclic(CheckedGraph(latest, [event]));
  }

  lemma {:induction false} PortClimbs(tree: Tree, epoch: Epoch, node: Id, visited: set<Id>)
    requires Climb(tree, epoch, node, visited).Ok? && forall id :: id in visited ==> IsHop(tree, id)
    ensures var chain := Climb(tree, epoch, node, visited).value;
            var up := [node] + Upward(tree, epoch, node, visited);
            chain <= up && (chain[|chain| - 1] !in tree.latest ==> chain == up)
    decreases tree.latest.Keys - visited
  {
    var parent := ParentAt(tree, node, epoch).value;
    if IsHop(tree, parent) {
      PortClimbs(tree, epoch, parent, visited + {parent});
    }
  }

  /** Where the tree has a chain the port's chain begins with it, and is it when nothing poses its terminal frame. */
  lemma PortChainAgrees(tree: Tree, entity: Id, epoch: Epoch)
    requires entity.IsSoloc() && AncestryAt(tree, entity, epoch).Ok?
    ensures var chain := AncestryAt(tree, entity, epoch).value;
            var up := [entity] + Upward(tree, epoch, entity, {entity});
            chain <= up && (chain[|chain| - 1] !in tree.latest ==> chain == up)
  {
    PortClimbs(tree, epoch, entity, {entity});
  }

  /** Where the climb goes on above `path`, whose nodes are `seen`. */
  lemma {:induction false} UpwardIsThePath(tree: Tree, epoch: Epoch, path: seq<Id>, seen: set<Id>)
    requires IsPortPath(tree, epoch, path) && forall id :: id in seen <==> id in path
    requires |path| > 1 ==> path[|path| - 1] in tree.latest
    ensures var whole := path + Upward(tree, epoch, path[|path| - 1], seen);
            IsPortPath(tree, epoch, whole) && EndsThere(tree, epoch, whole)
    decreases tree.latest.Keys - seen
  {
    var node := path[|path| - 1];
    var parent := ParentAt(tree, node, epoch);
    if parent.None? || parent.value in seen {
      assert path + [] == path;
    } else {
      var longer := path + [parent.value];
      assert IsPortPath(tree, epoch, longer);
      if parent.value in tree.latest {
        UpwardIsThePath(tree, epoch, longer, seen + {parent.value});
        ConcatAssoc(path, [parent.value], Upward(tree, epoch, parent.value, seen + {parent.value}));
      }
    }
  }

  /** Each node's parent comes next, no node repeats, and whatever is between the ends is posed. */
  ghost predicate IsPortPath(tree: Tree, epoch: Epoch, path: seq<Id>) {
    && path != []
    && (forall i :: 0 <= i < |path| - 1 ==> ParentAt(tree, path[i], epoch) == Some(path[i + 1]))
    && (forall i, j :: 0 <= i < j < |path| ==> path[i] != path[j])
    && (forall i :: 0 < i < |path| - 1 ==> path[i] in tree.latest)
  }

  /** The last node is not posed, has no parent, or has one that came before. */
  ghost predicate EndsThere(tree: Tree, epoch: Epoch, path: seq<Id>)
    requires path != []
  {
    var last := path[|path| - 1];
    var parent := ParentAt(tree, last, epoch);
    (|path| > 1 && last !in tree.latest) || parent.None? || parent.value in path
  }

  /** The port's chain is the path up from the entity, as far as it goes. */
  lemma PortChainIsThePath(tree: Tree, entity: Id, epoch: Epoch)
    ensures var chain := [entity] + Upward(tree, epoch, entity, {entity});
            IsPortPath(tree, epoch, chain) && EndsThere(tree, epoch, chain) && chain[0] == entity
  {
    UpwardIsThePath(tree, epoch, [entity], {entity});
  }
}
