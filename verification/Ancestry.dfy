/** Frame chains: from an entity up to its astronomical root, as of an epoch. */
module Ancestry {
  import opened Prelude
  import opened Identity
  import opened Rows
  import opened FrameGraph
  import opened Topology

  datatype ChainError = NoParent(node: Id) | CycleInChain(node: Id)

  /** The rest of the chain from `current`, none of whose later entities may be in `visited`. */
  function Climb(tree: Tree, epoch: Epoch, current: Id, visited: set<Id>): Result<seq<Id>, ChainError>
    decreases tree.latest.Keys - visited
  {
    var parent := ParentAt(tree, current, epoch);
    if parent.None? then Err(NoParent(current))
    else if !parent.value.IsSoloc() || parent.value !in tree.latest then Ok([current, parent.value])
    else if parent.value in visited then Err(CycleInChain(parent.value))
    else
      var rest := Climb(tree, epoch, parent.value, visited + {parent.value});
      if rest.Ok? then Ok([current] + rest.value) else rest
  }

  /** An astronomical id is its own root; anything else climbs parent by parent. */
  function AncestryAt(tree: Tree, entity: Id, epoch: Epoch): Result<seq<Id>, ChainError> {
    if entity.IsAstro() then Ok([entity]) else Climb(tree, epoch, entity, {entity})
  }

  /** A node the walk goes on from. */
  predicate IsHop(tree: Tree, node: Id) {
    node.IsSoloc() && node in tree.latest
  }

  /** Each node is the parent of the one before; only the last is terminal; no hop repeats. */
  ghost predicate IsChain(tree: Tree, epoch: Epoch, chain: seq<Id>) {
    && 2 <= |chain|
    && (forall i :: 0 <= i < |chain| - 1 ==> ParentAt(tree, chain[i], epoch) == Some(chain[i + 1]))
    && (forall i :: 0 < i < |chain| - 1 ==> IsHop(tree, chain[i]))
    && !IsHop(tree, chain[|chain| - 1])
    && (forall i, j :: 0 <= i < j < |chain| - 1 ==> chain[i] != chain[j])
  }

  lemma {:induction false} ClimbFindsChain(tree: Tree, epoch: Epoch, current: Id, visited: set<Id>)
    requires current in visited
    ensures var up := Climb(tree, epoch, current, visited);
            up.Ok? ==>
              && IsChain(tree, epoch, up.value) && up.value[0] == current
              && forall i :: 0 < i < |up.value| - 1 ==> up.value[i] !in visited
    decreases tree.latest.Keys - visited
  {
    var up := Climb(tree, epoch, current, visited);
    var parent := ParentAt(tree, current, epoch);
    if up.Ok? && IsHop(tree, parent.value) {
      ClimbFindsChain(tree, epoch, parent.value, visited + {parent.value});
      var rest := Climb(tree, epoch, parent.value, visited + {parent.value}).value;
      assert forall i :: 0 < i < |up.value| ==> up.value[i] == rest[i - 1];
    }
  }

  lemma {:induction false} ChainIsClimbed(tree: Tree, epoch: Epoch, chain: seq<Id>, visited: set<Id>)
    requires IsChain(tree, epoch, chain) && chain[0] in visited
    requires forall i :: 0 < i < |chain| - 1 ==> chain[i] !in visited
    ensures Climb(tree, epoch, chain[0], visited) == Ok(chain)
    decreases |chain|
  {
    assert ParentAt(tree, chain[0], epoch) == Some(chain[1]);
    if |chain| > 2 {
      assert IsHop(tree, chain[1]);
      SuffixIsChain(tree, epoch, chain, 1);
      ChainIsClimbed(tree, epoch, chain[1..], visited + {chain[1]});
      assert chain == [chain[0]] + chain[1..];
    } else {
      assert chain == [chain[0], chain[1]];
    }
  }

  lemma SuffixIsChain(tree: Tree, epoch: Epoch, chain: seq<Id>, i: nat)
    requires IsChain(tree, epoch, chain) && i < |chain| - 1
    ensures IsChain(tree, epoch, chain[i..])
  {
    forall j | 0 <= j < |chain[i..]| - 1
      ensures ParentAt(tree, chain[i..][j], epoch) == Some(chain[i..][j + 1])
    {
      assert ParentAt(tree, chain[i + j], epoch) == Some(chain[i + j + 1]);
    }
  }

  /** `ancestry_at` answers with the one repeat-free parent chain there is, or there is none. */
  lemma AncestryIsTheChain(tree: Tree, entity: Id, epoch: Epoch, chain: seq<Id>)
    requires !entity.IsAstro()
    ensures AncestryAt(tree, entity, epoch) == Ok(chain)
       <==> IsChain(tree, epoch, chain) && chain[0] == entity
  {
    ClimbFindsChain(tree, epoch, entity, {entity});
    if IsChain(tree, epoch, chain) && chain[0] == entity {
      ChainIsClimbed(tree, epoch, chain, {entity});
    }
  }

  /** The walk up from the first node, none of its later nodes terminal and none met twice. */
  ghost predicate IsPath(tree: Tree, epoch: Epoch, path: seq<Id>) {
    && path != []
    && (forall i :: 0 <= i < |path| - 1 ==> ParentAt(tree, path[i], epoch) == Some(path[i + 1]))
    && (forall i :: 0 < i < |path| ==> IsHop(tree, path[i]))
    && (forall i, j :: 0 <= i < j < |path| ==> path[i] != path[j])
  }

  /** The walk ends at a node without a parent, or comes to a node for the second time. */
  ghost predicate StopsWith(tree: Tree, epoch: Epoch, path: seq<Id>, error: ChainError) {
    && IsPath(tree, epoch, path)
    && var parent := ParentAt(tree, path[|path| - 1], epoch);
       match error
       case NoParent(node) => node == path[|path| - 1] && parent == None
       case CycleInChain(node) => node in path && IsHop(tree, node) && parent == Some(node)
  }

  lemma {:induction false} ClimbStops(tree: Tree, epoch: Epoch, path: seq<Id>, visited: set<Id>)
    returns (whole: seq<Id>)
    requires IsPath(tree, epoch, path) && Climb(tree, epoch, path[|path| - 1], visited).Err?
    requires forall n :: n in visited <==> n in path
    ensures path <= whole && StopsWith(tree, epoch, whole, Climb(tree, epoch, path[|path| - 1], visited).error)
    decreases tree.latest.Keys - visited
  {
    whole := path;
    var parent := ParentAt(tree, path[|path| - 1], epoch);
    if parent.Some? && parent.value !in visited {
      assert IsPath(tree, epoch, path + [parent.value]);
      whole := ClimbStops(tree, epoch, path + [parent.value], visited + {parent.value});
      assert path <= path + [parent.value];
    }
  }

  lemma {:induction false} StopIsClimbed(tree: Tree, epoch: Epoch, path: seq<Id>, i: nat, visited: set<Id>,
                                         error: ChainError)
    requires StopsWith(tree, epoch, path, error) && i < |path|
    requires forall n :: n in visited <==> n in path[..i + 1]
    ensures Climb(tree, epoch, path[i], visited) == Err(error)
    decreases |path| - i
  {
    if i + 1 < |path| {
      assert ParentAt(tree, path[i], epoch) == Some(path[i + 1]);
      assert path[i + 1] !in path[..i + 1];
      assert path[..i + 2] == path[..i + 1] + [path[i + 1]];
      StopIsClimbed(tree, epoch, path, i + 1, visited + {path[i + 1]}, error);
    } else {
      assert path[..i + 1] == path;
    }
  }

  /** Which fault `ancestry_at` reports, and of which node: where the walk up ends, or what it meets a second time. */
  lemma AncestryFaults(tree: Tree, entity: Id, epoch: Epoch, error: ChainError)
    requires !entity.IsAstro()
    ensures AncestryAt(tree, entity, epoch) == Err(error)
       <==> exists path :: StopsWith(tree, epoch, path, error) && path[0] == entity
  {
    if AncestryAt(tree, entity, epoch) == Err(error) {
      var path := ClimbStops(tree, epoch, [entity], {entity});
    }
    if path :| StopsWith(tree, epoch, path, error) && path[0] == entity {
      StopIsClimbed(tree, epoch, path, 0, {entity}, error);
    }
  }

  /** A hop's chain is the rest of any chain that passes through it. */
  lemma HopChainIsSuffix(tree: Tree, entity: Id, epoch: Epoch, chain: seq<Id>, i: nat)
    requires AncestryAt(tree, entity, epoch) == Ok(chain) && i < |chain| - 1
    ensures AncestryAt(tree, chain[i], epoch) == Ok(chain[i..])
  {
    if i > 0 {
      AncestryIsTheChain(tree, entity, epoch, chain);
      SuffixIsChain(tree, epoch, chain, i);
      AncestryIsTheChain(tree, chain[i], epoch, chain[i..]);
    } else {
      assert chain[0..] == chain;
      if !entity.IsAstro() {
        AncestryIsTheChain(tree, entity, epoch, chain);
      }
    }
  }

  /** Every edge is in effect by `epoch`. */
  ghost predicate AllInEffect(latest: Latest, epoch: Epoch) {
    forall child :: child in latest ==> latest[child].since <= epoch
  }

  /**
   At the present every known entity has a chain: all its parents are current, and in an
   acyclic tree climbing them never comes back.
   */
  lemma PresentChainExists(tree: Tree, entity: Id, epoch: Epoch)
    requires Acyclic(Parents(tree.latest)) && AllInEffect(tree.latest, epoch)
    requires entity in tree.latest && !entity.IsAstro()
    ensures AncestryAt(tree, entity, epoch).Ok?
    ensures IsChain(tree, epoch, AncestryAt(tree, entity, epoch).value)
  {
    PresentClimb(tree, epoch, [entity], {entity});
    ClimbFindsChain(tree, epoch, entity, {entity});
  }

  lemma {:induction false} PresentClimb(tree: Tree, epoch: Epoch, path: seq<Id>, visited: set<Id>)
    requires Acyclic(Parents(tree.latest)) && AllInEffect(tree.latest, epoch)
    requires path != [] && OnWalk(Parents(tree.latest), path)
    requires forall n :: n in path ==> n in tree.latest
    requires forall n :: n in visited <==> n in path
    ensures Climb(tree, epoch, path[|path| - 1], visited).Ok?
    decreases tree.latest.Keys - visited
  {
    var current := path[|path| - 1];
    var parent := tree.latest[current].parent;
    assert ParentAt(tree, current, epoch) == Some(parent);
    if IsHop(tree, parent) {
      if parent in visited {
        var i :| 0 <= i < |path| && path[i] == parent;
        ComesBack(Parents(tree.latest), path, i);
      } else {
        PresentClimb(tree, epoch, path + [parent], visited + {parent});
      }
    }
  }

  lemma ComesBack(g: Graph, path: seq<Id>, i: nat)
    requires i < |path| && OnWalk(g, path) && Next(g, path[|path| - 1]) == Some(path[i])
    ensures !Acyclic(g)
  {
    PathIsWalk(g, path, i);
    PathIsWalk(g, path, |path| - 1);
    assert Walk(g, path[0], |path|) == Some(path[i]);
    RevisitClosesCycle(g, path[0]);
  }
}
