/** Composing the poses along a frame chain, and memoising every hop met on the way. */
module FrameChains {
  import opened Prelude
  import opened Identity
  import opened Rows
  import opened Quaternions
  import opened Topology
  import opened Ancestry
  import opened Poses

  datatype ResolveError = Broken(chain: ChainError) | NotFound(node: Id)

  /** A root and the pose, in its frame, of the node that was asked about. */
  datatype Rooted = Rooted(root: Id, pose: Pose)

  type FrameMap = map<Id, Rooted>

  /** How each entity is placed in its parent's frame, at the epoch asked about. */
  type Lookups = Id -> Option<Placement>

  /** The product of hop poses from the root, the chain's last node, down to its first. */
  function RootToNode(placed: Lookups, chain: seq<Id>): Result<Pose, ResolveError>
    requires chain != []
  {
    if |chain| == 1 then Ok(IDENTITY)
    else
      var above := RootToNode(placed, chain[1..]);
      if above.Err? then above
      else if placed(chain[0]).None? then Err(NotFound(chain[0]))
      else Ok(Compose(above.value, placed(chain[0]).value.pose))
  }

  /** One entity resolved on its own. An astronomical id has no hops, hence no answer. */
  function ResolveToRoot(tree: Tree, placed: Lookups, id: Id, epoch: Epoch): Result<Option<Rooted>, ResolveError> {
    var up := AncestryAt(tree, id, epoch);
    if up.Err? then Err(Broken(up.error))
    else if |up.value| < 2 then Ok(None)
    else
      var pose := RootToNode(placed, up.value);
      if pose.Err? then Err(pose.error) else Ok(Some(Rooted(up.value[|up.value| - 1], pose.value)))
  }

  /** The nodes of the chain from `id` that need a pose. */
  function Hops(tree: Tree, id: Id, epoch: Epoch): set<Id> {
    var up := AncestryAt(tree, id, epoch);
    if up.Ok? then BelowRoot(up.value) else {}
  }

  function BelowRoot(chain: seq<Id>): set<Id> {
    set i | 0 <= i < |chain| - 1 :: chain[i]
  }

  lemma SuffixBelowRoot(chain: seq<Id>, i: nat)
    requires i < |chain|
    ensures BelowRoot(chain[i..]) <= BelowRoot(chain)
  {
    forall node | node in BelowRoot(chain[i..])
      ensures node in BelowRoot(chain)
    {
      var j :| 0 <= j < |chain[i..]| - 1 && chain[i..][j] == node;
      assert chain[i + j] == node;
    }
  }

  /** Every entry is what resolving its key on its own gives. */
  ghost predicate Faithful(tree: Tree, placed: Lookups, epoch: Epoch, frames: FrameMap) {
    forall node :: node in frames ==> ResolveToRoot(tree, placed, node, epoch) == Ok(Some(frames[node]))
  }

  lemma {:induction false} SuffixResolves(placed: Lookups, chain: seq<Id>, i: nat)
    requires i < |chain| && RootToNode(placed, chain).Ok?
    ensures RootToNode(placed, chain[i..]).Ok?
  {
    if i == 0 {
      assert chain[0..] == chain;
    } else {
      SuffixResolves(placed, chain[1..], i - 1);
      assert chain[1..][i - 1..] == chain[i..];
    }
  }

  /**
   A hop resolves, on its own, to the root of the chain it was met in and the product from
   that root down to it.
   */
  lemma HopResolves(tree: Tree, placed: Lookups, id: Id, epoch: Epoch, i: nat)
    requires ResolveToRoot(tree, placed, id, epoch).Ok?
    requires i < |AncestryAt(tree, id, epoch).value| - 1
    ensures var chain := AncestryAt(tree, id, epoch).value;
            && RootToNode(placed, chain[i..]).Ok?
            && ResolveToRoot(tree, placed, chain[i], epoch)
               == Ok(Some(Rooted(chain[|chain| - 1], RootToNode(placed, chain[i..]).value)))
            && Hops(tree, chain[i], epoch) <= Hops(tree, id, epoch)
  {
    var chain := AncestryAt(tree, id, epoch).value;
    HopChainIsSuffix(tree, id, epoch, chain, i);
    SuffixResolves(placed, chain, i);
    SuffixBelowRoot(chain, i);
  }

  /** A chain that does not resolve lacks a pose, and it is the node nearest the root that is reported. */
  lemma {:induction false} NotFoundNearestRoot(placed: Lookups, chain: seq<Id>)
    requires chain != []
    ensures RootToNode(placed, chain).Err? <==> exists i :: 0 <= i < |chain| - 1 && placed(chain[i]).None?
    ensures RootToNode(placed, chain).Err? ==>
              exists i :: 0 <= i < |chain| - 1 && placed(chain[i]).None?
                          && RootToNode(placed, chain) == Err(NotFound(chain[i]))
                          && forall j :: i < j < |chain| - 1 ==> placed(chain[j]).Some?
  {
    if |chain| > 1 {
      NotFoundNearestRoot(placed, chain[1..]);
      assert forall i :: 0 < i < |chain| ==> chain[i] == chain[1..][i - 1];
      if i :| 0 <= i < |chain[1..]| - 1 && placed(chain[1..][i]).None?
              && RootToNode(placed, chain[1..]) == Err(NotFound(chain[1..][i]))
              && forall j :: i < j < |chain[1..]| - 1 ==> placed(chain[1..][j]).Some? {
        assert chain[i + 1] == chain[1..][i];
      }
    }
  }

  // ----- what the product means -----

  ghost predicate UnitLookups(placed: Lookups) {
    forall id :: placed(id).Some? ==> Unit(placed(id).value.pose.q)
  }

  lemma {:induction false} ChainIsUnit(placed: Lookups, chain: seq<Id>)
    requires UnitLookups(placed) && chain != [] && RootToNode(placed, chain).Ok?
    ensures Unit(RootToNode(placed, chain).value.q)
  {
    if |chain| > 1 {
      ChainIsUnit(placed, chain[1..]);
      MulIsUnit(RootToNode(placed, chain[1..]).value.q, placed(chain[0]).value.pose.q);
    }
  }

  /**
   The node, its parent and the root: a point of the node's frame is moved by the node's own pose into the parent's
   frame, and from there as the parent's points are, unless the parent is the root.
   */
  ghost predicate PlacedByParent(tree: Tree, placed: Lookups, epoch: Epoch, node: Id, at: Rooted,
                                 above: Option<Rooted>, v: Vec3)
  {
    var parent := ParentAt(tree, node, epoch);
    && parent.Some? && placed(node).Some?
    && (if IsHop(tree, parent.value)
        then above.Some? && above.value.root == at.root
             && OutOf(at.pose, v) == OutOf(above.value.pose, Plus(placed(node).value.pose.p,
                                                                  Rotate(placed(node).value.pose.q, v)))
        else at.root == parent.value
             && OutOf(at.pose, v) == Plus(placed(node).value.pose.p, Rotate(placed(node).value.pose.q, v)))
  }

  /** Whatever resolves is placed by its parent, which resolves too if it is not the root. */
  lemma ResolvedPlacesPoints(tree: Tree, placed: Lookups, id: Id, epoch: Epoch, v: Vec3)
    requires UnitLookups(placed)
    requires ResolveToRoot(tree, placed, id, epoch).Ok? && ResolveToRoot(tree, placed, id, epoch).value.Some?
    ensures var at, parent := ResolveToRoot(tree, placed, id, epoch).value.value, ParentAt(tree, id, epoch);
            && parent.Some?
            && (IsHop(tree, parent.value) ==> ResolveToRoot(tree, placed, parent.value, epoch).Ok?)
            && PlacedByParent(tree, placed, epoch, id, at,
                              if IsHop(tree, parent.value)
                              then ResolveToRoot(tree, placed, parent.value, epoch).value else None, v)
  {
    var chain := AncestryAt(tree, id, epoch).value;
    AncestryIsTheChain(tree, id, epoch, chain);
    assert ParentAt(tree, chain[0], epoch) == Some(chain[1]);
    if |chain| > 2 {
      assert IsHop(tree, chain[1]);
      HopResolves(tree, placed, id, epoch, 1);
      ChainIsUnit(placed, chain[1..]);
      OutOfComposed(RootToNode(placed, chain[1..]).value, placed(id).value.pose, v);
    } else {
      assert RootToNode(placed, chain[1..]) == Ok(IDENTITY);
      IdentityComposes(placed(id).value.pose);
    }
  }

  /** The chain exists and every hop on it has a pose: the walk to the root succeeds. */
  lemma {:induction false} AllPlacedResolves(placed: Lookups, chain: seq<Id>)
    requires chain != [] && forall i :: 0 <= i < |chain| - 1 ==> placed(chain[i]).Some?
    ensures RootToNode(placed, chain).Ok?
  {
    if |chain| > 1 {
      AllPlacedResolves(placed, chain[1..]);
    }
  }

  /** `frames` with every hop of the chain from `id` entered. */
  ghost predicate Accumulated(tree: Tree, placed: Lookups, id: Id, epoch: Epoch, before: FrameMap, after: FrameMap) {
    && ResolveToRoot(tree, placed, id, epoch).Ok?
    && after.Keys == before.Keys + Hops(tree, id, epoch)
    && (forall node :: node in after && node !in Hops(tree, id, epoch) ==> after[node] == before[node])
    && (forall node :: node in Hops(tree, id, epoch) ==>
          ResolveToRoot(tree, placed, node, epoch) == Ok(Some(after[node])))
  }

  /** `frames` with the hops of `chain` from position `i` up to the root entered. */
  ghost predicate ChainEntered(placed: Lookups, chain: seq<Id>, i: nat, before: FrameMap, after: FrameMap)
    requires i < |chain|
  {
    && after.Keys == before.Keys + BelowRoot(chain[i..])
    && (forall node :: node in before && node !in BelowRoot(chain[i..]) ==> after[node] == before[node])
    && (forall node :: node in BelowRoot(chain[i..]) ==> EnteredRight(placed, chain, i, node, after[node]))
  }

  /** The entry is right for some position that the node has in the chain. */
  ghost predicate EnteredRight(placed: Lookups, chain: seq<Id>, i: nat, node: Id, entry: Rooted)
    requires i < |chain|
  {
    exists j :: i <= j < |chain| - 1 && chain[j] == node && RootToNode(placed, chain[j..]) == Ok(entry.pose)
                && entry.root == chain[|chain| - 1]
  }

  lemma EnterHop(placed: Lookups, chain: seq<Id>, i: nat, before: FrameMap, after: FrameMap, acc: Pose)
    requires 0 < i < |chain| && ChainEntered(placed, chain, i, before, after)
    requires RootToNode(placed, chain[i - 1..]) == Ok(acc)
    ensures ChainEntered(placed, chain, i - 1, before, after[chain[i - 1] := Rooted(chain[|chain| - 1], acc)])
  {
    var node, next := chain[i - 1], after[chain[i - 1] := Rooted(chain[|chain| - 1], acc)];
    BelowRootGrows(chain, i);
    forall n | n in BelowRoot(chain[i - 1..])
      ensures EnteredRight(placed, chain, i - 1, n, next[n])
    {
      if n != node {
        assert EnteredRight(placed, chain, i, n, after[n]);
      }
    }
  }

  lemma BelowRootGrows(chain: seq<Id>, i: nat)
    requires 0 < i < |chain|
    ensures BelowRoot(chain[i - 1..]) == BelowRoot(chain[i..]) + {chain[i - 1]}
  {
    forall n
      ensures n in BelowRoot(chain[i - 1..]) <==> n in BelowRoot(chain[i..]) || n == chain[i - 1]
    {
      BelowRootAt(chain, i, n);
      BelowRootAt(chain, i - 1, n);
    }
  }

  lemma BelowRootAt(chain: seq<Id>, i: nat, node: Id)
    requires i < |chain|
    ensures node in BelowRoot(chain[i..]) <==> exists j :: i <= j < |chain| - 1 && chain[j] == node
  {
    if node in BelowRoot(chain[i..]) {
      var j :| 0 <= j < |chain[i..]| - 1 && chain[i..][j] == node;
      assert chain[i + j] == node;
    }
    if j :| i <= j < |chain| - 1 && chain[j] == node {
      assert chain[i..][j - i] == node;
    }
  }

  /** A node that cannot be placed keeps everything below it from resolving. */
  lemma {:induction false} FailureSpreads(placed: Lookups, chain: seq<Id>, i: nat)
    requires i < |chain| && RootToNode(placed, chain[i..]).Err?
    ensures RootToNode(placed, chain) == RootToNode(placed, chain[i..])
  {
    if i == 0 {
      assert chain[0..] == chain;
    } else {
      assert chain[1..][i - 1..] == chain[i..];
      FailureSpreads(placed, chain[1..], i - 1);
    }
  }

  lemma AncestryIsNotEmpty(tree: Tree, id: Id, epoch: Epoch)
    ensures AncestryAt(tree, id, epoch).Ok? ==> AncestryAt(tree, id, epoch).value != []
  {
    ClimbFindsChain(tree, epoch, id, {id});
  }

  lemma ChainAccumulates(tree: Tree, placed: Lookups, id: Id, epoch: Epoch, chain: seq<Id>,
                         before: FrameMap, after: FrameMap)
    requires AncestryAt(tree, id, epoch) == Ok(chain) && chain != []
    requires RootToNode(placed, chain).Ok? && ChainEntered(placed, chain, 0, before, after)
    ensures Accumulated(tree, placed, id, epoch, before, after)
  {
    assert chain[0..] == chain;
    forall node | node in Hops(tree, id, epoch)
      ensures ResolveToRoot(tree, placed, node, epoch) == Ok(Some(after[node]))
    {
      assert EnteredRight(placed, chain, 0, node, after[node]);
      var j :| 0 <= j < |chain| - 1 && chain[j] == node && RootToNode(placed, chain[j..]) == Ok(after[node].pose);
      HopResolves(tree, placed, id, epoch, j);
    }
  }

  /** An id that resolves to something is the first of its own hops; otherwise it has none. */
  lemma HopsOfSelf(tree: Tree, placed: Lookups, id: Id, epoch: Epoch)
    ensures var answer := ResolveToRoot(tree, placed, id, epoch);
            answer.Ok? ==> (answer.value.Some? <==> id in Hops(tree, id, epoch))
  {
    ClimbFindsChain(tree, epoch, id, {id});
    var up := AncestryAt(tree, id, epoch);
    if up.Ok? && |up.value| >= 2 {
      assert up.value[0] in BelowRoot(up.value);
    }
  }

  /** The map that resolving each of `ids` on its own, hops included, calls for. */
  ghost predicate IsFrameMap(tree: Tree, placed: Lookups, ids: seq<Id>, epoch: Epoch, frames: FrameMap) {
    && Faithful(tree, placed, epoch, frames)
    && frames.Keys == AllHops(tree, ids, epoch)
  }

  function AllHops(tree: Tree, ids: seq<Id>, epoch: Epoch): set<Id> {
    set id, node | id in ids && node in Hops(tree, id, epoch) :: node
  }

  /** Hops of hops are hops already: the key set is closed under going up. */
  lemma AllHopsClosed(tree: Tree, ids: seq<Id>, epoch: Epoch, node: Id)
    requires node in AllHops(tree, ids, epoch)
    ensures Hops(tree, node, epoch) <= AllHops(tree, ids, epoch)
  {
    var id :| id in ids && node in Hops(tree, id, epoch);
    var chain := AncestryAt(tree, id, epoch).value;
    var i :| 0 <= i < |chain| - 1 && chain[i] == node;
    HopChainIsSuffix(tree, id, epoch, chain, i);
    SuffixBelowRoot(chain, i);
  }

  /** The order and repetition of the requested ids leave no trace in the map. */
  lemma FrameMapIgnoresOrder(tree: Tree, placed: Lookups, some: seq<Id>, others: seq<Id>, epoch: Epoch,
                             a: FrameMap, b: FrameMap)
    requires IsFrameMap(tree, placed, some, epoch, a) && IsFrameMap(tree, placed, others, epoch, b)
    requires forall id :: id in some <==> id in others
    ensures a == b
  {
    assert a.Keys == b.Keys;
    forall node | node in a
      ensures a[node] == b[node]
    {
      assert Ok(Some(a[node])) == ResolveToRoot(tree, placed, node, epoch) == Ok(Some(b[node]));
    }
  }

  /** The node is below the root on the chain from `id`. */
  ghost predicate OnTheWay(tree: Tree, id: Id, epoch: Epoch, node: Id) {
    var up := AncestryAt(tree, id, epoch);
    up.Ok? && exists i :: 0 <= i < |up.value| - 1 && up.value[i] == node
  }

  /**
   Every entry of a frame map is placed by the entry of its parent, or by itself below the root; and the entries are
   those of the nodes below the root on the chains of the ids asked for.
   */
  lemma FrameMapPlacesPoints(tree: Tree, placed: Lookups, ids: seq<Id>, epoch: Epoch, frames: FrameMap, node: Id,
                             v: Vec3)
    requires UnitLookups(placed) && IsFrameMap(tree, placed, ids, epoch, frames)
    ensures node in frames <==> exists id :: id in ids && OnTheWay(tree, id, epoch, node)
    ensures node in frames ==>
              var parent := ParentAt(tree, node, epoch);
              && parent.Some? && (IsHop(tree, parent.value) ==> parent.value in frames)
              && PlacedByParent(tree, placed, epoch, node, frames[node],
                                if IsHop(tree, parent.value) then Some(frames[parent.value]) else None, v)
  {
    forall id | id in ids
      ensures node in Hops(tree, id, epoch) <==> OnTheWay(tree, id, epoch, node)
    {
    }
    if node in frames {
      ResolvedPlacesPoints(tree, placed, node, epoch, v);
      var parent := ParentAt(tree, node, epoch).value;
      if IsHop(tree, parent) {
        AllHopsClosed(tree, ids, epoch, node);
        HopOfParent(tree, node, epoch);
      }
    }
  }

  /** A parent that is not the root is one of the node's hops. */
  lemma HopOfParent(tree: Tree, node: Id, epoch: Epoch)
    requires AncestryAt(tree, node, epoch).Ok? && |AncestryAt(tree, node, epoch).value| >= 2
    requires ParentAt(tree, node, epoch).Some? && IsHop(tree, ParentAt(tree, node, epoch).value)
    ensures ParentAt(tree, node, epoch).value in Hops(tree, node, epoch)
  {
    var chain := AncestryAt(tree, node, epoch).value;
    AncestryIsTheChain(tree, node, epoch, chain);
    assert ParentAt(tree, chain[0], epoch) == Some(chain[1]);
    assert chain[1] in BelowRoot(chain);
  }

  lemma MapGrows(tree: Tree, placed: Lookups, ids: seq<Id>, id: Id, epoch: Epoch, before: FrameMap, after: FrameMap)
    requires IsFrameMap(tree, placed, ids, epoch, before)
    requires Accumulated(tree, placed, id, epoch, before, after)
    ensures IsFrameMap(tree, placed, ids + [id], epoch, after)
  {
    assert AllHops(tree, ids + [id], epoch) == AllHops(tree, ids, epoch) + Hops(tree, id, epoch);
    forall node | node in after
      ensures ResolveToRoot(tree, placed, node, epoch) == Ok(Some(after[node]))
    {
      if node !in Hops(tree, id, epoch) {
        assert node in before;
      }
    }
  }

  /** An id already in the map costs nothing more: it resolves, and its hops are all there. */
  lemma MapHasIt(tree: Tree, placed: Lookups, ids: seq<Id>, id: Id, epoch: Epoch, frames: FrameMap)
    requires IsFrameMap(tree, placed, ids, epoch, frames) && id in frames
    ensures IsFrameMap(tree, placed, ids + [id], epoch, frames)
    ensures ResolveToRoot(tree, placed, id, epoch).Ok?
  {
    AllHopsClosed(tree, ids, epoch, id);
    assert AllHops(tree, ids + [id], epoch) == AllHops(tree, ids, epoch) + Hops(tree, id, epoch);
  }
}
