/**
 The graph whose cycles topology forbids: every child has at most one parent, and a walk goes
 on from a node only while its parent is a soloc id. A parent of any other kind is a terminal
 anchor.
 */
module FrameGraph {
  import opened Prelude
  import opened Identity

  type Graph = map<Id, Id>

  function Next(g: Graph, node: Id): Option<Id> {
    if node in g && g[node].IsSoloc() then Some(g[node]) else None
  }

  /** The node `k` steps up from `node`, or `None` when the walk has ended by then. */
  function Walk(g: Graph, node: Id, k: nat): Option<Id> {
    if k == 0 then Some(node)
    else
      var below := Walk(g, node, k - 1);
      if below.None? then None else Next(g, below.value)
  }

  /** The walk from `node` comes back to a node it has been at. */
  ghost predicate Revisits(g: Graph, node: Id) {
    exists i: nat, j: nat :: i < j && Walk(g, node, i).Some? && Walk(g, node, i) == Walk(g, node, j)
  }

  /** No node is its own ancestor. */
  ghost predicate Acyclic(g: Graph) {
    forall node, k: nat :: 0 < k ==> Walk(g, node, k) != Some(node)
  }

  lemma {:induction false} WalkSplit(g: Graph, node: Id, i: nat, j: nat)
    requires Walk(g, node, i).Some?
    ensures Walk(g, node, i + j) == Walk(g, Walk(g, node, i).value, j)
  {
    if j > 0 {
      WalkSplit(g, node, i, j - 1);
    }
  }

  lemma {:induction false} WalkStarts(g: Graph, node: Id, i: nat, j: nat)
    requires i <= j && Walk(g, node, j).Some?
    ensures Walk(g, node, i).Some?
  {
    if i < j {
      WalkStarts(g, node, i, j - 1);
    }
  }

  lemma RevisitClosesCycle(g: Graph, node: Id)
    requires Revisits(g, node)
    ensures !Acyclic(g)
  {
    var i: nat, j: nat :| i < j && Walk(g, node, i).Some? && Walk(g, node, i) == Walk(g, node, j);
    var on := Walk(g, node, i).value;
    WalkSplit(g, node, i, j - i);
    assert Walk(g, on, j - i) == Some(on);
  }

  /** A graph is acyclic exactly when no walk in it revisits a node. */
  lemma AcyclicIffNoRevisit(g: Graph)
    ensures Acyclic(g) <==> forall node :: !Revisits(g, node)
  {
    if node :| Revisits(g, node) {
      RevisitClosesCycle(g, node);
    } else if !Acyclic(g) {
      var node, k: nat :| 0 < k && Walk(g, node, k) == Some(node);
      assert Walk(g, node, 0) == Some(node);
      assert Revisits(g, node);
    }
  }

  /** A walk that ends visits no node twice: revisiting would make it go on for ever. */
  lemma EndedWalkDoesNotRevisit(g: Graph, node: Id, end: nat)
    requires Walk(g, node, end).None?
    ensures !Revisits(g, node)
  {
    if Revisits(g, node) {
      var i: nat, j: nat :| i < j && Walk(g, node, i).Some? && Walk(g, node, i) == Walk(g, node, j);
      WalkGoesOn(g, node, i, j, end);
    }
  }

  /** Where every parent is an anchor, no walk gets anywhere. */
  lemma AnchoredIsAcyclic(g: Graph)
    requires forall child :: child in g ==> !g[child].IsSoloc()
    ensures Acyclic(g) && forall node :: !Revisits(g, node)
  {
    forall node
      ensures !Revisits(g, node)
    {
      assert Walk(g, node, 0) == Some(node);
      EndedWalkDoesNotRevisit(g, node, 1);
    }
    AcyclicIffNoRevisit(g);
  }

  lemma {:induction false} WalkGoesOn(g: Graph, node: Id, i: nat, j: nat, n: nat)
    requires i < j && Walk(g, node, i).Some? && Walk(g, node, i) == Walk(g, node, j)
    ensures Walk(g, node, n).Some?
    decreases n
  {
    if n < j {
      WalkStarts(g, node, n, j);
    } else {
      WalkGoesOn(g, node, i, j, n - (j - i));
      WalkSplit(g, node, j, n - j);
      WalkSplit(g, node, i, n - j);
    }
  }

  /**
   Overriding the edges of some children can close a cycle only through one of those
   children, so it is enough to walk up from each of them.
   */
  lemma OverrideAcyclic(base: Graph, staged: Graph)
    requires Acyclic(base)
    ensures Acyclic(base + staged) <==> forall child :: child in staged ==> !Revisits(base + staged, child)
  {
    var g := base + staged;
    AcyclicIffNoRevisit(g);
    if !Acyclic(g) {
      var node, k: nat :| 0 < k && Walk(g, node, k) == Some(node);
      if i: nat :| i < k && Walk(g, node, i).Some? && Walk(g, node, i).value in staged {
        var child := Walk(g, node, i).value;
        WalkSplit(g, node, i, k - i);
        WalkSplit(g, child, k - i, i);
        assert Walk(g, child, 0) == Some(child) == Walk(g, child, k);
        assert Revisits(g, child);
      } else {
        SameWalk(base, g, node, k);
        assert Walk(base, node, k) == Some(node);
      }
    }
  }

  lemma {:induction false} SameWalk(base: Graph, g: Graph, node: Id, k: nat)
    requires forall i: nat :: i < k && Walk(g, node, i).Some? ==>
               Next(base, Walk(g, node, i).value) == Next(g, Walk(g, node, i).value)
    ensures Walk(base, node, k) == Walk(g, node, k)
  {
    if k > 0 {
      SameWalk(base, g, node, k - 1);
    }
  }

  /** Each node of `path` is the parent of the one before it, and a soloc id. */
  ghost predicate OnWalk(g: Graph, path: seq<Id>) {
    forall i :: 0 < i < |path| ==> Next(g, path[i - 1]) == Some(path[i])
  }

  lemma {:induction false} PathIsWalk(g: Graph, path: seq<Id>, i: nat)
    requires i < |path| && OnWalk(g, path)
    ensures Walk(g, path[0], i) == Some(path[i])
  {
    if i > 0 {
      PathIsWalk(g, path, i - 1);
    }
  }

  /**
   Follows parents from `child`, remembering the nodes met, until the walk ends or comes back.
   `seen` starts empty; the caller's reusable set is cleared between children.
   */
  method WalkUp(g: Graph, child: Id) returns (revisits: bool)
    ensures revisits <==> Revisits(g, child)
  {
    if child !in g || !g[child].IsSoloc() {
      EndedWalkDoesNotRevisit(g, child, 1);
      return false;
    }
    var seen, node := {child}, g[child];
    ghost var path := [child];
    while true
      invariant path != [] && path[0] == child && OnWalk(g, path)
      invariant forall n :: n in seen <==> n in path
      invariant forall n :: n in path ==> n in g && g[n].IsSoloc()
      invariant node == g[path[|path| - 1]]
      decreases g.Keys - seen
    {
      PathIsWalk(g, path, |path| - 1);
      assert Walk(g, child, |path|) == Some(node);
      if node in seen {
        ghost var i :| 0 <= i < |path| && path[i] == node;
        PathIsWalk(g, path, i);
        return true;
      }
      if node !in g || !g[node].IsSoloc() {
        EndedWalkDoesNotRevisit(g, child, |path| + 1);
        return false;
      }
      seen := seen + {node};
      path := path + [node];
      node := g[node];
    }
  }
}
