/** Merging topology logs between peers, and what any order of merges agrees on. */
module Federation {
  import opened Prelude
  import opened Identity
  import opened Rows
  import opened FrameGraph
  import opened Topology
  import opened StableSort
  import opened Ingest
  import opened CycleCheck
  import opened Quaternions

  /** The events of `batch` that are neither logged already nor repeated earlier in the batch. */
  function Novel(log: seq<Event>, batch: seq<Event>): seq<Event> {
    if batch == [] then []
    else
      var earlier, last := Novel(log, batch[..|batch| - 1]), batch[|batch| - 1];
      if last in log || last in earlier then earlier else earlier + [last]
  }

  /** The tree a merge tries: the novel events applied in the order they appear. */
  function Absorbed(tree: Tree, batch: seq<Event>): Tree {
    ApplyAll(tree, Novel(tree.log, batch))
  }

  ghost predicate Mergeable(tree: Tree, batch: seq<Event>) {
    Acyclic(Parents(Absorbed(tree, batch).latest))
  }

  /** A merge is taken whole or not at all. */
  ghost function Merged(tree: Tree, batch: seq<Event>): Tree {
    if Mergeable(tree, batch) then Absorbed(tree, batch) else tree
  }

  ghost function MergedAll(tree: Tree, peers: seq<seq<Event>>): Tree {
    if peers == [] then tree else Merged(MergedAll(tree, peers[..|peers| - 1]), peers[|peers| - 1])
  }

  ghost predicate AllMergeable(tree: Tree, peers: seq<seq<Event>>) {
    peers != [] ==>
      && AllMergeable(tree, peers[..|peers| - 1])
      && Mergeable(MergedAll(tree, peers[..|peers| - 1]), peers[|peers| - 1])
  }

  ghost predicate SameEvents(a: seq<Event>, b: seq<Event>) {
    forall e :: e in a <==> e in b
  }

  /** The child's events of highest epoch all name one parent. */
  ghost predicate OneTopParent(log: seq<Event>, child: Id) {
    forall x, y :: IsTopEvent(log, child, x) && IsTopEvent(log, child, y) ==> x.parent == y.parent
  }

  ghost predicate IsTopEvent(log: seq<Event>, child: Id, event: Event) {
    && event in log && event.child == child
    && forall e :: e in log && e.child == child ==> e.epoch <= event.epoch
  }

  lemma {:induction false} NovelMembers(log: seq<Event>, batch: seq<Event>)
    ensures forall e :: e in Novel(log, batch) <==> e in batch && e !in log
    ensures forall i, j :: 0 <= i < j < |Novel(log, batch)| ==> Novel(log, batch)[i] != Novel(log, batch)[j]
  {
    if batch != [] {
      NovelMembers(log, batch[..|batch| - 1]);
      assert batch == batch[..|batch| - 1] + [batch[|batch| - 1]];
    }
  }

  /** Merging a log that has been merged before finds nothing new. */
  lemma MergeIsIdempotent(tree: Tree, batch: seq<Event>)
    requires Mergeable(tree, batch)
    ensures Novel(Merged(tree, batch).log, batch) == []
    ensures Merged(Merged(tree, batch), batch) == Merged(tree, batch)
  {
    var once := Absorbed(tree, batch);
    var again := Novel(once.log, batch);
    assert again != [] ==> again[0] in again;
    NovelMembers(tree.log, batch);
    NovelMembers(once.log, batch);
    assert once.log + [] == once.log;
  }

  /** No event is logged twice. Ingesting can log one twice: a parent left and taken again at one epoch. */
  ghost predicate NoRepeats(log: seq<Event>) {
    forall i, j :: 0 <= i < j < |log| ==> log[i] != log[j]
  }

  lemma {:induction false} AllNovelIffNoRepeats(batch: seq<Event>)
    ensures Novel([], batch) == batch <==> NoRepeats(batch)
    ensures |Novel([], batch)| <= |batch|
  {
    if batch != [] {
      var front, last := batch[..|batch| - 1], batch[|batch| - 1];
      AllNovelIffNoRepeats(front);
      NovelMembers([], front);
      assert batch == front + [last];
      assert last in front <==> exists i :: 0 <= i < |front| && batch[i] == last;
    }
  }

  /**
   A peer that knows nothing learns the tree as it stands, log and edges, exactly when no event is logged twice and the
   tree has no cycle.
   */
  lemma EmptyPeerLearnsAll(tree: Tree)
    requires Coherent(tree)
    ensures Merged(EMPTY_TREE, tree.log) == tree <==> NoRepeats(tree.log) && Acyclic(Parents(tree.latest))
  {
    AllNovelIffNoRepeats(tree.log);
    AnchoredIsAcyclic(Parents(EMPTY_TREE.latest));
    assert EMPTY_TREE.log + Novel([], tree.log) == Novel([], tree.log);
  }

  /** The event at `j` was not logged before. */
  ghost predicate First(log: seq<Event>, j: nat)
    requires j < |log|
  {
    forall k :: 0 <= k < j ==> log[k] != log[j]
  }

  /** Event `j`, as late as event `i` and of the same child, was logged for the first time after it. */
  ghost predicate FirstLoggedAfter(log: seq<Event>, i: nat, j: nat) {
    i < j < |log| && First(log, j) && log[j].child == log[i].child && log[j].epoch == log[i].epoch
  }

  function EdgeEvent(tree: Tree, child: Id): Event
    requires child in tree.latest
  {
    Event(child, tree.latest[child].parent, tree.latest[child].since)
  }

  /** An event as late as the child's edge was logged for the first time after the edge was. */
  ghost predicate LosesEdge(tree: Tree, child: Id)
    requires child in tree.latest
  {
    exists i: nat, j: nat :: FirstLoggedAfter(tree.log, i, j) && tree.log[i] == EdgeEvent(tree, child)
  }

  /** The copy that a merge into an empty tree tries has the child's edge exactly when no such event was logged. */
  lemma TrialLearnsEdge(tree: Tree, child: Id)
    requires Coherent(tree) && child in tree.latest
    ensures Lookup(Absorbed(EMPTY_TREE, tree.log).latest, child) == Some(tree.latest[child])
       <==> !LosesEdge(tree, child)
    ensures child in Absorbed(EMPTY_TREE, tree.log).latest
    ensures Absorbed(EMPTY_TREE, tree.log).latest[child].since == tree.latest[child].since
  {
    var log, event := tree.log, EdgeEvent(tree, child);
    LatestIsTopEvent(tree, child);
    LatestIsInForce(Novel([], log), child);
    NovelTop(log, child);
    assert event in log;
    var n: nat :| IsNewestTop(log, child, n) && log[n] == InForce(Novel([], log), child, EPOCH_MAX).value;
    NewestIsLearned(log, child, event, n);
  }

  /** The edge itself is learned exactly when the merge is accepted and no such event was logged. */
  lemma EmptyPeerLearnsEdge(tree: Tree, child: Id)
    requires Coherent(tree) && child in tree.latest
    ensures Lookup(Merged(EMPTY_TREE, tree.log).latest, child) == Some(tree.latest[child])
       <==> Mergeable(EMPTY_TREE, tree.log) && !LosesEdge(tree, child)
  {
    TrialLearnsEdge(tree, child);
  }

  /** The parents that an empty peer would learn in place of the tree's own. */
  ghost function Lost(tree: Tree): Graph {
    var learned := Absorbed(EMPTY_TREE, tree.log).latest;
    map child | child in tree.latest && child in learned && LosesEdge(tree, child) :: learned[child].parent
  }

  lemma LearnedGraph(tree: Tree)
    requires Coherent(tree)
    ensures Parents(Absorbed(EMPTY_TREE, tree.log).latest) == Parents(tree.latest) - Lost(tree).Keys + Lost(tree)
  {
    var trial := Absorbed(EMPTY_TREE, tree.log);
    var learned, rebuilt := Parents(trial.latest), Parents(tree.latest) - Lost(tree).Keys + Lost(tree);
    AbsorbedFromNothing(tree.log);
    forall child
      ensures child in learned <==> child in rebuilt
      ensures child in learned ==> learned[child] == rebuilt[child]
    {
      LatestIsTopEvent(trial, child);
      LatestIsTopEvent(tree, child);
      if child in tree.latest {
        TrialLearnsEdge(tree, child);
      }
    }
  }

  /**
   An empty peer accepts an exported log exactly when the edges it learns as they are have no cycle, which they have not
   where the tree has none, and no walk up from a child whose edge is lost comes back.
   */
  lemma EmptyPeerAcceptsUnlessLostLoop(tree: Tree)
    requires Coherent(tree)
    ensures Mergeable(EMPTY_TREE, tree.log)
       <==> Acyclic(Parents(tree.latest) - Lost(tree).Keys)
            && forall child :: child in Lost(tree) ==> !Revisits(Parents(tree.latest) + Lost(tree), child)
    ensures Acyclic(Parents(tree.latest)) ==> Acyclic(Parents(tree.latest) - Lost(tree).Keys)
  {
    var kept, lost := Parents(tree.latest) - Lost(tree).Keys, Lost(tree);
    LearnedGraph(tree);
    assert kept + lost == Parents(tree.latest) + lost;
    if Acyclic(kept) {
      OverrideAcyclic(kept, lost);
    } else {
      SubgraphCycle(kept, kept + lost);
      SubgraphCycle(kept, Parents(tree.latest));
    }
  }

  lemma NewestIsLearned(log: seq<Event>, child: Id, event: Event, n: nat)
    requires IsNewestTop(log, child, n) && IsTopEvent(log, child, event)
    ensures log[n].child == event.child && log[n].epoch == event.epoch
    ensures log[n] == event <==> forall i: nat, j: nat :: FirstLoggedAfter(log, i, j) ==> log[i] != event
  {
    assert log[n] in log;
    var k :| 0 <= k < |log| && log[k] == event;
    if log[n] == event {
      forall i: nat, j: nat | FirstLoggedAfter(log, i, j)
        ensures log[i] != event
      {
        NothingAfterNewest(log, child, n, i, j);
      }
    } else {
      var i := NewestIsAfter(log, child, event, n, k);
    }
  }

  lemma NothingAfterNewest(log: seq<Event>, child: Id, n: nat, i: nat, j: nat)
    requires IsNewestTop(log, child, n) && FirstLoggedAfter(log, i, j)
    ensures log[i] != log[n]
  {
    assert log[i] == log[n] ==> n <= i;
  }

  lemma NewestIsAfter(log: seq<Event>, child: Id, event: Event, n: nat, k: nat) returns (i: nat)
    requires IsNewestTop(log, child, n) && log[n] != event && k < |log| && log[k] == event
    requires event.child == child && event.epoch == log[n].epoch
    ensures i < |log| && FirstLoggedAfter(log, i, n) && log[i] == event
  {
    i := FirstAt(log, event, k);
  }

  /** Where an event is logged for the first time. */
  lemma {:induction false} FirstAt(log: seq<Event>, event: Event, k: nat) returns (i: nat)
    requires k < |log| && log[k] == event
    ensures i <= k && log[i] == event && First(log, i)
  {
    if j: nat :| j < k && log[j] == event {
      i := FirstAt(log, event, j);
    } else {
      i := k;
    }
  }

  /** Of the child's events of highest epoch, the one logged for the first time last. */
  ghost predicate IsNewestTop(log: seq<Event>, child: Id, n: nat) {
    && n < |log| && log[n].child == child && First(log, n)
    && forall j: nat :: j < |log| && log[j].child == child ==>
         log[j].epoch <= log[n].epoch && (log[j].epoch == log[n].epoch && First(log, j) ==> j <= n)
  }

  /** Once repeats are dropped, that event is the edge in force. */
  lemma {:induction false} NovelTop(log: seq<Event>, child: Id)
    ensures var top := InForce(Novel([], log), child, EPOCH_MAX);
            if top.Some? then exists n: nat :: IsNewestTop(log, child, n) && log[n] == top.value
            else forall j :: 0 <= j < |log| ==> log[j].child != child
  {
    if log != [] {
      var k := |log| - 1;
      var front, last := log[..k], log[k];
      NovelTop(front, child);
      NovelSnoc(front, last, child);
      assert log == front + [last];
      NotInFront(log);
      var earlier := InForce(Novel([], front), child, EPOCH_MAX);
      if earlier.Some? {
        var n: nat :| IsNewestTop(front, child, n) && front[n] == earlier.value;
        NextNewest(log, child, n);
      } else if last.child == child {
        OnlyNewest(log, child);
      }
    }
  }

  lemma NotInFront(log: seq<Event>)
    requires log != []
    ensures First(log, |log| - 1) <==> log[|log| - 1] !in log[..|log| - 1]
  {
    var front := log[..|log| - 1];
    assert forall k :: 0 <= k < |front| ==> front[k] == log[k];
  }

  lemma OnlyNewest(log: seq<Event>, child: Id)
    requires log != [] && log[|log| - 1].child == child
    requires forall j :: 0 <= j < |log| - 1 ==> log[j].child != child
    ensures IsNewestTop(log, child, |log| - 1)
  {
  }

  lemma NovelSnoc(front: seq<Event>, last: Event, child: Id)
    ensures var earlier := InForce(Novel([], front), child, EPOCH_MAX);
            InForce(Novel([], front + [last]), child, EPOCH_MAX)
            == if last !in front && last.child == child && (earlier.Some? ==> earlier.value.epoch <= last.epoch)
               then Some(last) else earlier
  {
    NovelMembers([], front);
    assert (front + [last])[..|front|] == front;
    assert (Novel([], front) + [last])[..|Novel([], front)|] == Novel([], front);
  }

  /** A first-logged event of the child that is at least as late takes over. */
  lemma NextNewest(log: seq<Event>, child: Id, n: nat)
    requires log != [] && IsNewestTop(log[..|log| - 1], child, n)
    ensures var k := |log| - 1;
            var takesOver := First(log, k) && log[k].child == child && log[n].epoch <= log[k].epoch;
            IsNewestTop(log, child, if takesOver then k else n)
  {
    var k := |log| - 1;
    var front := log[..k];
    assert forall j: nat :: j < k ==> front[j] == log[j];
    assert forall j: nat :: j < k ==> (First(front, j) <==> First(log, j));
    if !First(log, k) {
      var j :| 0 <= j < k && log[j] == log[k];
      assert front[j] == log[k];
    }
  }

  /**
   A log that one ingested batch yields, and that an empty peer does not learn the edge from: an entity is put under
   `p`, `q` and `p` again at one epoch, and the repeat of `p` is dropped.
   */
  lemma RepeatLosesTheEdge(a: Id, p: Id, q: Id, pose: Pose)
    requires a.IsSoloc() && p.IsAstro() && q.IsAstro() && p != q
    ensures var rows := [Row(a, p, 1, MEASURED, pose), Row(a, q, 1, MEASURED, pose), Row(a, p, 1, MEASURED, pose)];
            var tree := Ingested(EMPTY_TREE, rows);
            && Accepted(map[], rows) && ParentOf(tree.latest, a) == Some(p)
            && ParentOf(Merged(EMPTY_TREE, tree.log).latest, a) == Some(q)
  {
    var rows := [Row(a, p, 1, MEASURED, pose), Row(a, q, 1, MEASURED, pose), Row(a, p, 1, MEASURED, pose)];
    var (x, y) := (Event(a, p, 1), Event(a, q, 1));
    BackAndForth(rows[0], rows[1], rows[2]);
    AppliedBackAndForth(x, y);
    assert EMPTY_TREE.log + [x, y, x] == [x, y, x];
    AnchoredIsAcyclic(CheckedGraph(map[], [x, y, x]));
    AnchoredIsAcyclic(map[a := q]);
    assert Parents(Absorbed(EMPTY_TREE, [x, y, x]).latest) == map[a := q];
  }

  /** Three rows of one entity at one epoch, in two frames by turns. */
  lemma BackAndForth(first: Row, second: Row, third: Row)
    requires first.id == second.id == third.id && first.epoch == second.epoch == third.epoch
    requires first.frame == third.frame != second.frame
    requires !first.id.IsAbstract() && !first.frame.IsAbstract() && !second.frame.IsAbstract()
    ensures FirstAbstract([first, second, third]).None?
    ensures NaiveEvents(map[], [first, second, third]) == [EventOf(first), EventOf(second), EventOf(third)]
    ensures StableSorted([first, second, third]) == [first, second, third]
  {
    var rows := [first, second, third];
    SortedStays(rows);
    assert rows[..2] == [first, second] && rows[..2][..1] == [first] && rows[..2][..1][..0] == [];
    assert Changes(map[], rows[..2][..1]) == [EventOf(first)];
    assert Changes(map[], rows[..2]) == [EventOf(first), EventOf(second)];
    assert FirstAbstract(rows[..2][..1]).None?;
    assert FirstAbstract(rows[..2]).None?;
  }

  /**
   A log that one ingested batch yields, and that an empty peer refuses whole. Besides the rows above, `q` is put under
   `a`: with the repeat of `p` dropped, `a` would be left under `q`.
   */
  lemma RepeatIsRefused(a: Id, p: Id, q: Id, pose: Pose)
    requires a.IsSoloc() && p.IsAstro() && q.IsSoloc() && a != q && Before(a, q)
    ensures var rows := [Row(a, p, 1, MEASURED, pose), Row(a, q, 1, MEASURED, pose), Row(a, p, 1, MEASURED, pose),
                         Row(q, a, 1, MEASURED, pose)];
            var tree := Ingested(EMPTY_TREE, rows);
            && Accepted(map[], rows) && tree.latest == map[a := Edge(p, 1), q := Edge(a, 1)]
            && Acyclic(Parents(tree.latest)) && Merged(EMPTY_TREE, tree.log) == EMPTY_TREE
  {
    var three := [Row(a, p, 1, MEASURED, pose), Row(a, q, 1, MEASURED, pose), Row(a, p, 1, MEASURED, pose)];
    var last := Row(q, a, 1, MEASURED, pose);
    BackAndForth(three[0], three[1], three[2]);
    AndAnother(three, last);
    assert [three[0], three[1], three[2], last] == three + [last];
    RefusedLog(a, p, q);
  }

  lemma RefusedLog(a: Id, p: Id, q: Id)
    requires a.IsSoloc() && p.IsAstro() && q.IsSoloc() && a != q
    ensures var log := [Event(a, p, 1), Event(a, q, 1), Event(a, p, 1)] + [Event(q, a, 1)];
            && PassesCheck(map[], log) && ApplyAll(EMPTY_TREE, log) == Tree(map[a := Edge(p, 1), q := Edge(a, 1)], log)
            && Acyclic(Parents(map[a := Edge(p, 1), q := Edge(a, 1)])) && !Mergeable(EMPTY_TREE, log)
  {
    var log := [Event(a, p, 1), Event(a, q, 1), Event(a, p, 1)] + [Event(q, a, 1)];
    RepeatsAndAnother(Event(a, p, 1), Event(a, q, 1), Event(q, a, 1));
    assert EMPTY_TREE.log + log == log;
    RepeatsChecked(a, p, q);
    RoundTwo(Parents(Absorbed(EMPTY_TREE, log).latest), a, q);
  }

  /** An event, another, and the first again, of one child at one epoch, and then an event of another child. */
  lemma RepeatsAndAnother(x: Event, y: Event, z: Event)
    requires x.child == y.child != z.child && x.epoch == y.epoch && x != y
    ensures var log := [x, y, x] + [z];
            var edges := map[x.child := Edge(x.parent, x.epoch), z.child := Edge(z.parent, z.epoch)];
            && AdvanceAll(map[], log) == edges && Staged(log) == edges
            && AdvanceAll(map[], Novel([], log)) == edges[x.child := Edge(y.parent, y.epoch)]
  {
    AppliedBackAndForth(x, y);
    var log := [x, y, x] + [z];
    assert log[..3] == [x, y, x] && ([x, y] + [z])[..2] == [x, y];
    assert Novel([], log) == [x, y] + [z];
  }

  lemma RepeatsChecked(a: Id, p: Id, q: Id)
    requires a.IsSoloc() && p.IsAstro() && a != q
    ensures var edges := map[a := Edge(p, 1), q := Edge(a, 1)];
            Acyclic(Parents(edges)) && forall child :: !Revisits(Parents(map[]) + Parents(edges), child)
  {
    var edges := map[a := Edge(p, 1), q := Edge(a, 1)];
    TwoNodeChain(edges, q, a);
    assert Parents(map[]) + Parents(edges) == Parents(edges);
    AcyclicIffNoRevisit(Parents(edges));
  }

  /** One more row, of an entity whose id comes after the others'. */
  lemma AndAnother(rows: seq<Row>, row: Row)
    requires StableSorted(rows) == rows && forall r :: r in rows ==> Before(r.id, row.id) && r.id != row.id
    requires !row.id.IsAbstract() && !row.frame.IsAbstract() && FirstAbstract(rows).None?
    ensures FirstAbstract(rows + [row]).None?
    ensures NaiveEvents(map[], rows + [row]) == NaiveEvents(map[], rows) + [EventOf(row)]
  {
    var all := rows + [row];
    assert all[..|rows|] == rows;
    InsertLast(rows, row);
    assert |rows| > 0 ==> rows[|rows| - 1] in rows;
  }

  /** Two nodes, each the other's parent. */
  lemma RoundTwo(g: Graph, a: Id, b: Id)
    requires a in g && g[a] == b && b in g && g[b] == a && a.IsSoloc() && b.IsSoloc()
    ensures !Acyclic(g)
  {
    assert Walk(g, a, 0) == Some(a) && Walk(g, a, 1) == Some(b) && Walk(g, a, 2) == Some(a);
  }

  lemma AppliedBackAndForth(x: Event, y: Event)
    requires x.child == y.child && x.epoch == y.epoch && x != y
    ensures var log := [x, y, x];
            && AdvanceAll(map[], log) == map[x.child := Edge(x.parent, x.epoch)]
            && Staged(log) == map[x.child := Edge(x.parent, x.epoch)]
            && Novel([], log) == [x, y]
            && AdvanceAll(map[], [x, y]) == map[x.child := Edge(y.parent, y.epoch)]
  {
    var log := [x, y, x];
    assert log[..2] == [x, y] && [x, y][..1] == [x] && [x][..0] == [];
    assert AdvanceAll(map[], [x]) == map[x.child := Edge(x.parent, x.epoch)];
    assert Staged([x]) == Staged([])[x.child := Edge(x.parent, x.epoch)];
    assert Staged([x, y]) == Staged([x])[x.child := Edge(y.parent, y.epoch)];
    assert Novel([], [x]) == [x] && Novel([], [x, y]) == [x, y];
  }

  lemma {:induction false} MergedAllKeeps(tree: Tree, peers: seq<seq<Event>>)
    requires Coherent(tree)
    ensures Coherent(MergedAll(tree, peers))
    ensures Acyclic(Parents(tree.latest)) ==> Acyclic(Parents(MergedAll(tree, peers).latest))
  {
    if peers != [] {
      var before := MergedAll(tree, peers[..|peers| - 1]);
      MergedAllKeeps(tree, peers[..|peers| - 1]);
      ApplyKeepsCoherent(before, Novel(before.log, peers[|peers| - 1]));
    }
  }

  lemma {:induction false} MergedAllEvents(tree: Tree, peers: seq<seq<Event>>)
    requires AllMergeable(tree, peers)
    ensures forall e :: e in MergedAll(tree, peers).log <==> e in tree.log || exists p :: p in peers && e in p
  {
    if peers != [] {
      var front, last := peers[..|peers| - 1], peers[|peers| - 1];
      MergedAllEvents(tree, front);
      NovelMembers(MergedAll(tree, front).log, last);
      assert peers == front + [last];
      assert forall p :: p in peers <==> p in front || p == last;
    }
  }

  /** The edge a coherent tree has for a child is one of its top events. */
  lemma LatestIsTopEvent(tree: Tree, child: Id)
    requires Coherent(tree)
    ensures child in tree.latest <==> exists e :: e in tree.log && e.child == child
    ensures child in tree.latest ==>
              IsTopEvent(tree.log, child, Event(child, tree.latest[child].parent, tree.latest[child].since))
  {
    LatestIsInForce(tree.log, child);
    InForceIsTop(tree.log, child, EPOCH_MAX);
    if e :| e in tree.log && e.child == child {
      var j :| 0 <= j < |tree.log| && tree.log[j] == e;
    }
  }

  /** Same events, same edges: the parent wherever it is unambiguous, and the epoch always. */
  lemma SameEventsConverge(a: Tree, b: Tree, child: Id)
    requires Coherent(a) && Coherent(b) && SameEvents(a.log, b.log)
    ensures child in a.latest <==> child in b.latest
    ensures child in a.latest ==> a.latest[child].since == b.latest[child].since
    ensures child in a.latest && OneTopParent(a.log, child) ==> a.latest[child] == b.latest[child]
  {
    LatestIsTopEvent(a, child);
    LatestIsTopEvent(b, child);
    if child in a.latest && child in b.latest {
      var x := Event(child, a.latest[child].parent, a.latest[child].since);
      var y := Event(child, b.latest[child].parent, b.latest[child].since);
      assert IsTopEvent(a.log, child, x) && IsTopEvent(a.log, child, y);
    }
  }

  /**
   Federation converges: merging one collection of peer logs in any order and with any
   repetition, every merge accepted, ends with one event set, and with one parent for every
   child whose highest epoch names one.
   */
  lemma FederationConverges(tree: Tree, some: seq<seq<Event>>, others: seq<seq<Event>>)
    requires Coherent(tree) && AllMergeable(tree, some) && AllMergeable(tree, others)
    requires forall p :: p in some <==> p in others
    ensures SameEvents(MergedAll(tree, some).log, MergedAll(tree, others).log)
    ensures forall child :: OneTopParent(MergedAll(tree, some).log, child) ==>
              Lookup(MergedAll(tree, some).latest, child) == Lookup(MergedAll(tree, others).latest, child)
  {
    var a, b := MergedAll(tree, some), MergedAll(tree, others);
    MergedAllEvents(tree, some);
    MergedAllEvents(tree, others);
    MergedAllKeeps(tree, some);
    MergedAllKeeps(tree, others);
    forall child | OneTopParent(a.log, child)
      ensures Lookup(a.latest, child) == Lookup(b.latest, child)
    {
      SameEventsConverge(a, b, child);
    }
  }

  /**
   Two peers exchanging logs: one merge is accepted iff the other is, and then both end alike. Where the merges are
   refused both stay as they are, and they are not alike.
   */
  lemma ExchangeIsSymmetric(a: Tree, b: Tree)
    requires Coherent(a) && Coherent(b)
    requires forall child :: OneTopParent(a.log + b.log, child)
    ensures Mergeable(a, b.log) <==> Mergeable(b, a.log)
    ensures Absorbed(a, b.log).latest == Absorbed(b, a.log).latest
    ensures SameEvents(Absorbed(a, b.log).log, Absorbed(b, a.log).log)
    ensures Acyclic(Parents(a.latest)) ==>
              var x, y := Merged(a, b.log), Merged(b, a.log);
              (x.latest == y.latest && SameEvents(x.log, y.log) <==> Mergeable(a, b.log))
  {
    var x, y := Absorbed(a, b.log), Absorbed(b, a.log);
    NovelMembers(a.log, b.log);
    NovelMembers(b.log, a.log);
    ApplyKeepsCoherent(a, Novel(a.log, b.log));
    ApplyKeepsCoherent(b, Novel(b.log, a.log));
    forall child
      ensures Lookup(x.latest, child) == Lookup(y.latest, child)
    {
      assert SameEvents(x.log, a.log + b.log);
      assert OneTopParent(a.log + b.log, child);
      SameTopParents(x.log, a.log + b.log, child);
      SameEventsConverge(x, y, child);
    }
    LookupDecides(x.latest, y.latest);
    if SameEvents(a.log, b.log) {
      NothingToLearn(a, b.log);
    }
  }

  /** A log that holds no new event is absorbed without effect. */
  lemma NothingToLearn(tree: Tree, batch: seq<Event>)
    requires forall e :: e in batch ==> e in tree.log
    ensures Absorbed(tree, batch) == tree
  {
    var novel := Novel(tree.log, batch);
    assert novel != [] ==> novel[0] in novel;
    NovelMembers(tree.log, batch);
    assert tree.log + [] == tree.log;
  }

  lemma SameTopParents(a: seq<Event>, b: seq<Event>, child: Id)
    requires SameEvents(a, b) && OneTopParent(b, child)
    ensures OneTopParent(a, child)
  {
    forall x | IsTopEvent(a, child, x)
      ensures IsTopEvent(b, child, x)
    {
    }
  }

  /**
   Where two top events disagree, order decides: merging everything else first and then one of
   them leaves the child under whichever came last.
   */
  lemma TiesFollowMergeOrder(log: seq<Event>, child: Id, last: Event)
    requires IsTopEvent(log, child, last)
    ensures var tree := Absorbed(Absorbed(EMPTY_TREE, Filter(log, (e: Event) => e != last)), [last]);
            SameEvents(tree.log, log) && ParentOf(tree.latest, child) == Some(last.parent)
  {
    var rest := Filter(log, (e: Event) => e != last);
    var before := Absorbed(EMPTY_TREE, rest);
    FilterMembers(log, (e: Event) => e != last);
    NovelMembers([], rest);
    assert before.log == Novel([], rest);
    LastNovel(before, last);
    ApplyKeepsCoherent(EMPTY_TREE, Novel([], rest));
    LatestIsTopEvent(before, child);
    if child in before.latest {
      assert Event(child, before.latest[child].parent, before.latest[child].since) in log;
    }
  }

  lemma LastNovel(tree: Tree, event: Event)
    requires event !in tree.log
    ensures Absorbed(tree, [event]) == Tree(Advance(tree.latest, event), tree.log + [event])
  {
    assert [event][..0] == [];
    assert Novel(tree.log, [event]) == [event];
    assert AdvanceAll(tree.latest, [event]) == Advance(tree.latest, event);
  }

  // ----- what merge orders agree on -----

  ghost predicate Mentions(log: seq<Event>, child: Id) {
    exists e :: e in log && e.child == child
  }

  ghost predicate IsTopParent(log: seq<Event>, child: Id, parent: Id) {
    exists e :: IsTopEvent(log, child, e) && e.parent == parent
  }

  /** Some top event of each child that has events, and no other edges. */
  ghost predicate IsChoice(log: seq<Event>, g: Graph) {
    && (forall child :: child in g <==> Mentions(log, child))
    && (forall child :: child in g ==> IsTopParent(log, child, g[child]))
  }

  /** The choices without a cycle all put the child under one parent. */
  ghost predicate ChoicesAgree(log: seq<Event>, child: Id) {
    forall g: Graph, h: Graph ::
      IsChoice(log, g) && Acyclic(g) && IsChoice(log, h) && Acyclic(h) && child in g && child in h ==>
        g[child] == h[child]
  }

  /** A tree that accepted merges may have built from exactly these events. */
  ghost predicate BuiltFrom(tree: Tree, log: seq<Event>) {
    Coherent(tree) && Acyclic(Parents(tree.latest)) && SameEvents(tree.log, log)
  }

  /** The edges of a tree are a choice among its top events. */
  lemma EdgesAreAChoice(tree: Tree, log: seq<Event>)
    requires Coherent(tree) && SameEvents(tree.log, log)
    ensures IsChoice(log, Parents(tree.latest))
  {
    forall child
      ensures child in tree.latest <==> Mentions(log, child)
      ensures child in tree.latest ==> IsTopParent(log, child, tree.latest[child].parent)
    {
      LatestIsTopEvent(tree, child);
      assert child in tree.latest ==> IsTopEvent(log, child, EdgeEvent(tree, child));
    }
  }

  /** The event is the one its child is to end up under. */
  ghost predicate Chosen(log: seq<Event>, g: Graph, e: Event) {
    IsTopEvent(log, e.child, e) && e.child in g && g[e.child] == e.parent
  }

  /** The log with the chosen events moved to its end. */
  ghost function ChosenLast(log: seq<Event>, g: Graph): seq<Event> {
    Filter(log, (e: Event) => !Chosen(log, g, e)) + Filter(log, (e: Event) => Chosen(log, g, e))
  }

  lemma ChosenLastMembers(log: seq<Event>, g: Graph)
    ensures SameEvents(ChosenLast(log, g), log)
    ensures forall k :: 0 <= k < |ChosenLast(log, g)| ==>
              (Chosen(log, g, ChosenLast(log, g)[k]) <==> |Filter(log, (e: Event) => !Chosen(log, g, e))| <= k)
  {
    var rest, chosen := Filter(log, (e: Event) => !Chosen(log, g, e)), Filter(log, (e: Event) => Chosen(log, g, e));
    FilterMembers(log, (e: Event) => !Chosen(log, g, e));
    FilterMembers(log, (e: Event) => Chosen(log, g, e));
    forall k | 0 <= k < |rest + chosen|
      ensures Chosen(log, g, (rest + chosen)[k]) <==> |rest| <= k
    {
      assert if k < |rest| then (rest + chosen)[k] in rest else (rest + chosen)[k] in chosen;
    }
  }

  /** Of the child's events in that order, the one that wins is a chosen one. */
  lemma ChosenWins(log: seq<Event>, g: Graph, child: Id)
    requires IsChoice(log, g) && child in g
    ensures ParentOf(Absorbed(EMPTY_TREE, ChosenLast(log, g)).latest, child) == Some(g[child])
  {
    var order := ChosenLast(log, g);
    ChosenLastMembers(log, g);
    var e :| IsTopEvent(log, child, e) && e.parent == g[child];
    assert e in order;
    var k :| 0 <= k < |order| && order[k] == e;
    var i := FirstAt(order, e, k);
    NovelTop(order, child);
    LatestIsInForce(Novel([], order), child);
    var n: nat :| IsNewestTop(order, child, n) && order[n] == InForce(Novel([], order), child, EPOCH_MAX).value;
    assert order[n] in log;
    assert i <= n;
  }

  /** Every choice comes of some order, and where it has no cycle a merge of the events in that order is accepted. */
  lemma {:induction false} ChoiceIsReached(log: seq<Event>, g: Graph)
    requires IsChoice(log, g)
    ensures Parents(Absorbed(EMPTY_TREE, ChosenLast(log, g)).latest) == g
    ensures Acyclic(g) ==> BuiltFrom(Merged(EMPTY_TREE, ChosenLast(log, g)), log)
  {
    var order := ChosenLast(log, g);
    var tree := Absorbed(EMPTY_TREE, order);
    ChosenLastMembers(log, g);
    AbsorbedFromNothing(order);
    EdgesAreAChoice(tree, log);
    forall child | child in g
      ensures ParentOf(tree.latest, child) == Some(g[child])
    {
      ChosenWins(log, g, child);
    }
    ParentsAre(tree.latest, g);
  }

  lemma AbsorbedFromNothing(batch: seq<Event>)
    ensures Coherent(Absorbed(EMPTY_TREE, batch)) && SameEvents(Absorbed(EMPTY_TREE, batch).log, batch)
  {
    NovelMembers([], batch);
    assert EMPTY_TREE.log + Novel([], batch) == Novel([], batch);
  }

  lemma ParentsAre(latest: Latest, g: Graph)
    requires forall child :: child in latest <==> child in g
    requires forall child :: child in g ==> ParentOf(latest, child) == Some(g[child])
    ensures Parents(latest) == g
  {
  }

  /** Any top event of a child can be chosen. */
  lemma TopCanBeChosen(log: seq<Event>, e: Event) returns (g: Graph)
    requires IsTopEvent(log, e.child, e)
    ensures IsChoice(log, g) && e.child in g && g[e.child] == e.parent
  {
    AbsorbedFromNothing(log);
    EdgesAreAChoice(Absorbed(EMPTY_TREE, log), log);
    g := Parents(Absorbed(EMPTY_TREE, log).latest)[e.child := e.parent];
    assert Mentions(log, e.child) && IsTopParent(log, e.child, e.parent);
  }

  /**
   All orders of accepted merges agree on a child's parent exactly when the choices without a cycle do. One top parent
   is enough for that, and where no choice has a cycle it is needed.
   */
  lemma AgreementNeedsOneTopParent(log: seq<Event>, child: Id)
    ensures (forall a, b :: BuiltFrom(a, log) && BuiltFrom(b, log) ==>
               ParentOf(a.latest, child) == ParentOf(b.latest, child))
       <==> ChoicesAgree(log, child)
    ensures OneTopParent(log, child) ==> ChoicesAgree(log, child)
    ensures (forall g: Graph :: IsChoice(log, g) ==> Acyclic(g)) && ChoicesAgree(log, child)
            ==> OneTopParent(log, child)
  {
    if a, b :| BuiltFrom(a, log) && BuiltFrom(b, log) && ParentOf(a.latest, child) != ParentOf(b.latest, child) {
      EdgesAreAChoice(a, log);
      EdgesAreAChoice(b, log);
      assert child in Parents(a.latest) <==> child in Parents(b.latest);
    } else if !ChoicesAgree(log, child) {
      var g: Graph, h: Graph :| IsChoice(log, g) && Acyclic(g) && IsChoice(log, h) && Acyclic(h)
                                && child in g && child in h && g[child] != h[child];
      ChoiceIsReached(log, g);
      ChoiceIsReached(log, h);
    }
    if x, y :| IsTopEvent(log, child, x) && IsTopEvent(log, child, y) && x.parent != y.parent {
      var g := TopCanBeChosen(log, x);
      var h := TopCanBeChosen(log, y);
    }
  }

  /**
   Two top parents on which accepted merges agree all the same: `child` is put under `x` and under `y` at one epoch, and
   `x` is under `child`, so that every order ending under `x` is refused.
   */
  lemma CycleSettlesTheTie(child: Id, x: Id, y: Id)
    requires child.IsSoloc() && x.IsSoloc() && child != x && x != y
    ensures var log := [Event(child, x, 5), Event(child, y, 5), Event(x, child, 0)];
            !OneTopParent(log, child) && ChoicesAgree(log, child)
  {
    var log := [Event(child, x, 5), Event(child, y, 5), Event(x, child, 0)];
    assert IsTopEvent(log, child, log[0]) && IsTopEvent(log, child, log[1]);
    forall g: Graph | IsChoice(log, g) && Acyclic(g) && child in g
      ensures g[child] == y
    {
      assert Mentions(log, x) by {
        assert log[2] in log;
      }
      assert IsTopParent(log, child, g[child]) && IsTopParent(log, x, g[x]);
      if g[child] == x {
        RoundTwo(g, child, x);
      }
    }
  }
}
