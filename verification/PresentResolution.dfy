/** Reloading a ledger, and resolving entities at the present. */
module PresentResolution {
  import opened Prelude
  import opened Identity
  import opened Rows
  import opened StableSort
  import opened FrameGraph
  import opened Segments
  import opened Topology
  import opened Ingest
  import opened CycleCheck
  import opened Runs
  import opened Poses
  import opened Agreement
  import opened Ancestry
  import opened FrameChains
  import opened LedgerModel
  import opened LedgerRuns

  /** The pose cache that replaying `batches` one after another builds. */
  function RefreshedAll(batches: seq<seq<Row>>): PoseCache {
    if batches == [] then map[] else Refreshed(RefreshedAll(batches[..|batches| - 1]), batches[|batches| - 1])
  }

  lemma RefreshedOneMore(batches: seq<seq<Row>>, rows: seq<Row>)
    ensures RefreshedAll(batches + [rows]) == Refreshed(RefreshedAll(batches), rows)
  {
    assert (batches + [rows])[..|batches|] == batches;
  }

  lemma {:induction false} ReplayBuildsCache(batches: seq<seq<Row>>)
    ensures RefreshedAll(batches) == CacheOf(Flatten(batches))
  {
    if batches != [] {
      ReplayBuildsCache(batches[..|batches| - 1]);
      RefreshIsCacheOfAll(Flatten(batches[..|batches| - 1]), batches[|batches| - 1]);
    }
  }

  /**
   Reloading a saved ledger whose batches were merged whole, in order, rebuilds its derived
   state: every batch is taken, and edges, histories and pose cache are those of the run.
   */
  lemma ReloadRebuildsDerivedState(groups: seq<seq<seq<Row>>>)
    requires EntityOrdered(Flatten(groups)) && AllAccepted(EMPTY_TREE, Flatten(groups))
    ensures AllAccepted(EMPTY_TREE, Joined(groups))
    ensures SameHistory(IngestedAll(EMPTY_TREE, Flatten(groups)), IngestedAll(EMPTY_TREE, Joined(groups)))
    ensures RefreshedAll(Joined(groups)) == RefreshedAll(Flatten(groups))
  {
    EmptyIsAcyclic();
    GroupingDoesNotMatter(EMPTY_TREE, groups);
    ReplayBuildsCache(Joined(groups));
    ReplayBuildsCache(Flatten(groups));
    JoinedRows(groups);
  }

  /** The edge is the one that the row states. */
  ghost predicate StatesEdge(row: Row, child: Id, edge: Edge) {
    row.id == child && Edge(row.frame, row.epoch) == edge
  }

  /** An entity's first row changes its parent if it had none. */
  lemma {:induction false} FirstRowChanges(sorted: seq<Row>)
    requires sorted != []
    ensures ChildChanges(None, sorted) != []
  {
    if |sorted| > 1 {
      FirstRowChanges(sorted[..|sorted| - 1]);
    }
  }

  lemma NewEntityIsStaged(latest: Latest, rows: seq<Row>, child: Id)
    requires child in IdsOf(rows) && child !in latest
    ensures child in AdvanceAll(latest, NaiveEvents(latest, rows))
  {
    var events, own := NaiveEvents(latest, rows), StableSorted(RowsOf(rows, child));
    SortedOwnRows(rows, child);
    assert own != [];
    FirstRowChanges(own);
    EventsPerChild(latest, rows, child);
    assert EventsOf(events, child)[0] in EventsOf(events, child);
    FilterMembers(events, (e: Event) => e.child == child);
    NaiveEventsAreRows(latest, rows);
    CommittedEdge(latest, events, child);
    assert Lookup(AdvanceAll(latest, events), child).Some?;
  }

  /** A batch's entities become known, and each edge is an earlier one or what a row of the batch states. */
  lemma BatchEdges(latest: Latest, rows: seq<Row>, child: Id)
    ensures var after := AdvanceAll(latest, NaiveEvents(latest, rows));
            && (child in after <==> child in latest || child in IdsOf(rows))
            && (child in after ==>
                  (child in latest && after[child] == latest[child])
                  || exists r :: r in rows && StatesEdge(r, child, after[child]))
  {
    var events := NaiveEvents(latest, rows);
    var after := AdvanceAll(latest, events);
    NaiveEventsAreRows(latest, rows);
    CommittedEdge(latest, events, child);
    if child in IdsOf(rows) && child !in latest {
      NewEntityIsStaged(latest, rows, child);
    }
    assert Lookup(after, child).Some? <==> child in after;
    if child in after && Lookup(after, child) != Lookup(latest, child) {
      var e :| e in events && e.child == child && Staged(events)[child] == Edge(e.parent, e.epoch);
      var r :| r in rows && EventOf(r) == e;
      assert StatesEdge(r, child, after[child]);
    }
  }

  /** After any run, in any order, the known entities are those appended, and each edge is stated by an appended row. */
  lemma {:induction false} EdgesAreRows(ops: seq<Op>, child: Id)
    ensures var latest := HistoryTree(ops).latest;
            && (child in latest <==> child in IdsOf(AppendedRows(ops)))
            && (child in latest ==> exists r :: r in AppendedRows(ops) && StatesEdge(r, child, latest[child]))
  {
    if ops != [] {
      var front, last := ops[..|ops| - 1], ops[|ops| - 1];
      EdgesAreRows(front, child);
      if last.Append? && Accepted(HistoryTree(front).latest, last.rows) {
        assert History(ops)[..|History(front)|] == History(front);
        assert AppendedRows(ops) == AppendedRows(front) + last.rows;
        BatchEdges(HistoryTree(front).latest, last.rows, child);
      }
    }
  }

  lemma EdgesInEffect(ops: seq<Op>, epoch: Epoch)
    requires forall r :: r in AppendedRows(ops) ==> r.epoch <= epoch
    ensures AllInEffect(HistoryTree(ops).latest, epoch)
  {
    forall child | child in HistoryTree(ops).latest
      ensures HistoryTree(ops).latest[child].since <= epoch
    {
      EdgesAreRows(ops, child);
    }
  }

  /** Every hop of a present chain has a cached pose that is not after the query. */
  function PresentLookups(s: LedgerState, epoch: Epoch): Lookups {
    (id: Id) => Resolved(s.poses, StoredRows(s), id, epoch)
  }

  lemma PresentPoses(s: LedgerState, rows: seq<Row>, id: Id, epoch: Epoch)
    requires s.poses == CacheOf(rows) && id in IdsOf(rows)
    requires forall r :: r in rows ==> r.epoch <= epoch
    ensures PresentLookups(s, epoch)(id).Some?
  {
    assert rows[FirstLatest(rows, id).value] in rows;
  }

  /** The tree of any entity-ordered run, whatever was evicted meanwhile. */
  lemma RunTree(size: Sizer, ops: seq<Op>)
    requires EntityOrdered(History(ops))
    ensures var latest := Run(size, ops).tree.latest;
            && latest == AdvanceAll(map[], NaiveEvents(map[], AppendedRows(ops)))
            && Acyclic(Parents(latest))
  {
    RunTracks(size, ops);
    HistoryIsARun(ops);
    EmptyIsAcyclic();
    RunAsOneBatch(EMPTY_TREE, History(ops));
  }

  lemma PresentChain(size: Sizer, ops: seq<Op>, entity: Id, epoch: Epoch) returns (chain: seq<Id>)
    requires Acyclic(Parents(Run(size, ops).tree.latest))
    requires entity in IdsOf(AppendedRows(ops)) && !entity.IsAstro()
    requires forall r :: r in AppendedRows(ops) ==> r.epoch <= epoch
    ensures AncestryAt(Run(size, ops).tree, entity, epoch) == Ok(chain)
    ensures IsChain(Run(size, ops).tree, epoch, chain) && chain[0] == entity
  {
    var tree := Run(size, ops).tree;
    RunTracks(size, ops);
    EdgesInEffect(ops, epoch);
    EdgesAreRows(ops, entity);
    PresentChainExists(tree, entity, epoch);
    chain := AncestryAt(tree, entity, epoch).value;
    AncestryIsTheChain(tree, entity, epoch, chain);
  }

  lemma PresentHops(size: Sizer, ops: seq<Op>, entity: Id, epoch: Epoch, chain: seq<Id>)
    requires entity in IdsOf(AppendedRows(ops))
    requires forall r :: r in AppendedRows(ops) ==> r.epoch <= epoch
    requires IsChain(Run(size, ops).tree, epoch, chain) && chain[0] == entity
    ensures forall i :: 0 <= i < |chain| - 1 ==> PresentLookups(Run(size, ops), epoch)(chain[i]).Some?
  {
    var s, rows := Run(size, ops), AppendedRows(ops);
    RunTracks(size, ops);
    forall i | 0 <= i < |chain| - 1
      ensures PresentLookups(s, epoch)(chain[i]).Some?
    {
      assert i > 0 ==> IsHop(s.tree, chain[i]);
      EdgesAreRows(ops, chain[i]);
      PresentPoses(s, rows, chain[i], epoch);
    }
  }

  /**
   Present-epoch resolution is total: after any run that leaves no cycle, with or without limits, every ingested entity
   has, at or after all ingested epochs, a repeat-free parent chain, and resolves along it to the chain's root.
   */
  lemma {:induction false} PresentResolutionIsTotal(size: Sizer, ops: seq<Op>, entity: Id, epoch: Epoch)
    returns (chain: seq<Id>, resolved: Rooted)
    requires Acyclic(Parents(Run(size, ops).tree.latest))
    requires entity in IdsOf(AppendedRows(ops)) && !entity.IsAstro()
    requires forall r :: r in AppendedRows(ops) ==> r.epoch <= epoch
    ensures var s := Run(size, ops);
            && AncestryAt(s.tree, entity, epoch) == Ok(chain)
            && IsChain(s.tree, epoch, chain) && chain[0] == entity
            && ResolveToRoot(s.tree, PresentLookups(s, epoch), entity, epoch) == Ok(Some(resolved))
            && resolved.root == chain[|chain| - 1]
  {
    var s := Run(size, ops);
    chain := PresentChain(size, ops, entity, epoch);
    PresentHops(size, ops, entity, epoch, chain);
    resolved := PlacedChainResolves(s.tree, PresentLookups(s, epoch), entity, epoch, chain);
  }

  lemma PlacedChainResolves(tree: Tree, placed: Lookups, id: Id, epoch: Epoch, chain: seq<Id>)
    returns (resolved: Rooted)
    requires AncestryAt(tree, id, epoch) == Ok(chain) && |chain| >= 2
    requires forall i :: 0 <= i < |chain| - 1 ==> placed(chain[i]).Some?
    ensures ResolveToRoot(tree, placed, id, epoch) == Ok(Some(resolved))
    ensures resolved.root == chain[|chain| - 1]
  {
    AllPlacedResolves(placed, chain);
    resolved := Rooted(chain[|chain| - 1], RootToNode(placed, chain).value);
  }

  /** Going up parent by parent at the present, the chain keeps to the walk. */
  lemma {:induction false} ChainIsWalk(tree: Tree, epoch: Epoch, chain: seq<Id>, i: nat)
    requires AllInEffect(tree.latest, epoch) && IsChain(tree, epoch, chain) && i < |chain|
    requires forall k: nat :: Walk(Parents(tree.latest), chain[0], k).Some?
    ensures Walk(Parents(tree.latest), chain[0], i) == Some(chain[i])
  {
    if i > 0 {
      ChainIsWalk(tree, epoch, chain, i - 1);
      assert ParentAt(tree, chain[i - 1], epoch) == Some(chain[i]);
      assert Walk(Parents(tree.latest), chain[0], i).Some?;
    }
  }

  /** A node that a walk has come to and goes on from is a hop. */
  lemma WalkedOnIsHop(tree: Tree, start: Id, n: nat, node: Id)
    requires 0 < n && Walk(Parents(tree.latest), start, n) == Some(node)
    requires Walk(Parents(tree.latest), start, n + 1).Some?
    ensures IsHop(tree, node)
  {
    assert Next(Parents(tree.latest), node).Some?;
    assert Next(Parents(tree.latest), Walk(Parents(tree.latest), start, n - 1).value) == Some(node);
  }

  /** A node on a cycle has no chain at the present. */
  lemma CycleHasNoChain(tree: Tree, epoch: Epoch, node: Id, k: nat)
    requires AllInEffect(tree.latest, epoch) && 0 < k && Walk(Parents(tree.latest), node, k) == Some(node)
    ensures IsHop(tree, node) && AncestryAt(tree, node, epoch).Err?
  {
    var g := Parents(tree.latest);
    forall n: nat
      ensures Walk(g, node, n).Some?
    {
      WalkGoesOn(g, node, 0, k, n);
    }
    assert Walk(g, node, k + 1).Some?;
    WalkedOnIsHop(tree, node, k, node);
    if AncestryAt(tree, node, epoch).Ok? {
      var chain := AncestryAt(tree, node, epoch).value;
      AncestryIsTheChain(tree, node, epoch, chain);
      var last := |chain| - 1;
      ChainIsWalk(tree, epoch, chain, last);
      assert Walk(g, node, last + 1).Some?;
      WalkedOnIsHop(tree, node, last, chain[last]);
    }
  }

  /** After any run every ingested entity resolves at the present exactly when the tree has no cycle. */
  lemma {:induction false} PresentIsTotalIffAcyclic(size: Sizer, ops: seq<Op>, epoch: Epoch)
    requires forall r :: r in AppendedRows(ops) ==> r.epoch <= epoch
    ensures var s := Run(size, ops);
            Acyclic(Parents(s.tree.latest))
            <==> forall entity :: entity in IdsOf(AppendedRows(ops)) && !entity.IsAstro() ==>
                   ResolveToRoot(s.tree, PresentLookups(s, epoch), entity, epoch).Ok?
    ensures EntityOrdered(History(ops)) ==> Acyclic(Parents(Run(size, ops).tree.latest))
  {
    var s := Run(size, ops);
    RunTracks(size, ops);
    if Acyclic(Parents(s.tree.latest)) {
      forall entity | entity in IdsOf(AppendedRows(ops)) && !entity.IsAstro()
        ensures ResolveToRoot(s.tree, PresentLookups(s, epoch), entity, epoch).Ok?
      {
        var chain, resolved := PresentResolutionIsTotal(size, ops, entity, epoch);
      }
    } else {
      var node, k: nat :| 0 < k && Walk(Parents(s.tree.latest), node, k) == Some(node);
      EdgesInEffect(ops, epoch);
      CycleHasNoChain(s.tree, epoch, node, k);
      EdgesAreRows(ops, node);
    }
    if EntityOrdered(History(ops)) {
      RunTree(size, ops);
    }
  }
}
