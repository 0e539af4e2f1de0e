/** What trimming the topology log to a window keeps, and why no query inside it can tell. */
module Trim {
  import opened Prelude
  import opened Identity
  import opened Rows
  import opened Topology

  /** Event `j` is logged before the window opens and takes precedence over event `i`. */
  predicate Outranks(log: seq<Event>, window: Epoch, j: nat, i: nat)
    requires i < |log| && j < |log|
  {
    && log[j].child == log[i].child && log[j].epoch < window
    && (log[i].epoch < log[j].epoch || (log[i].epoch == log[j].epoch && i < j))
  }

  /** Event `i` is in the window, or is its child's edge in force when the window opens. */
  ghost predicate Keeps(log: seq<Event>, window: Epoch, i: nat)
    requires i < |log|
  {
    window <= log[i].epoch || forall j: nat :: j < |log| ==> !Outranks(log, window, j, i)
  }

  /** How many of the first `n` events are kept. */
  ghost function Rank(log: seq<Event>, window: Epoch, n: nat): (rank: nat)
    requires n <= |log|
    ensures rank <= n
  {
    if n == 0 then 0 else Rank(log, window, n - 1) + if Keeps(log, window, n - 1) then 1 else 0
  }

  /** The kept events among the first `n`. */
  ghost function KeptOf(log: seq<Event>, window: Epoch, n: nat): (r: seq<Event>)
    requires n <= |log|
    ensures |r| == Rank(log, window, n)
  {
    if n == 0 then []
    else if Keeps(log, window, n - 1) then KeptOf(log, window, n - 1) + [log[n - 1]]
    else KeptOf(log, window, n - 1)
  }

  ghost function Trimmed(log: seq<Event>, window: Epoch): seq<Event> {
    KeptOf(log, window, |log|)
  }

  lemma {:induction false} RankMonotone(log: seq<Event>, window: Epoch, m: nat, n: nat)
    requires m <= n <= |log|
    ensures Rank(log, window, m) <= Rank(log, window, n)
    ensures KeptOf(log, window, m) == KeptOf(log, window, n)[..Rank(log, window, m)]
    ensures m < n && Keeps(log, window, m) ==> Rank(log, window, m) < Rank(log, window, n)
  {
    if m < n {
      RankMonotone(log, window, m, n - 1);
    }
  }

  /** A kept event sits at its rank. */
  lemma KeptAtRank(log: seq<Event>, window: Epoch, i: nat)
    requires i < |log| && Keeps(log, window, i)
    ensures Rank(log, window, i) < |Trimmed(log, window)|
    ensures Trimmed(log, window)[Rank(log, window, i)] == log[i]
  {
    RankMonotone(log, window, i + 1, |log|);
    assert KeptOf(log, window, i + 1)[Rank(log, window, i)] == log[i];
  }

  /** Every position of the trimmed log holds the kept event of that rank. */
  lemma {:induction false} RankOnto(log: seq<Event>, window: Epoch, n: nat, p: nat) returns (i: nat)
    requires n <= |log| && p < Rank(log, window, n)
    ensures i < n && Keeps(log, window, i) && Rank(log, window, i) == p
  {
    if p < Rank(log, window, n - 1) {
      i := RankOnto(log, window, n - 1, p);
    } else {
      i := n - 1;
    }
  }

  /** Log order survives: a later kept event has the greater rank, and conversely. */
  lemma RankOrder(log: seq<Event>, window: Epoch, i: nat, j: nat)
    requires i < |log| && j < |log| && Keeps(log, window, i) && Keeps(log, window, j)
    ensures i < j <==> Rank(log, window, i) < Rank(log, window, j)
  {
    if i < j {
      RankMonotone(log, window, i, j);
    } else if j < i {
      RankMonotone(log, window, j, i);
    }
  }

  lemma TopSurvives(log: seq<Event>, window: Epoch, child: Id, epoch: Epoch, i: nat)
    requires window <= epoch && IsTop(log, child, epoch, i)
    ensures Keeps(log, window, i) && IsTop(Trimmed(log, window), child, epoch, Rank(log, window, i))
  {
    assert Keeps(log, window, i);
    KeptAtRank(log, window, i);
    var kept, rank := Trimmed(log, window), Rank(log, window, i);
    forall p: nat | p < |kept| && kept[p].child == child && kept[p].epoch <= epoch
      ensures kept[p].epoch < kept[rank].epoch || (kept[p].epoch == kept[rank].epoch && p <= rank)
    {
      var j := RankOnto(log, window, |log|, p);
      KeptAtRank(log, window, j);
      RankOrder(log, window, i, j);
    }
  }

  /**
   For any log, sorted or not: the edge in force at any epoch from the window's start on is
   the same before and after trimming.
   */
  lemma TrimPreservesInForce(log: seq<Event>, window: Epoch, child: Id, epoch: Epoch)
    requires window <= epoch
    ensures InForce(Trimmed(log, window), child, epoch) == InForce(log, child, epoch)
  {
    InForceIsTop(log, child, epoch);
    if InForce(log, child, epoch).Some? {
      var i :| IsTop(log, child, epoch, i) && log[i] == InForce(log, child, epoch).value;
      TopSurvives(log, window, child, epoch, i);
      KeptAtRank(log, window, i);
      TopIsInForce(Trimmed(log, window), child, epoch, Rank(log, window, i));
    } else {
      InForceIsTop(Trimmed(log, window), child, epoch);
      if InForce(Trimmed(log, window), child, epoch).Some? {
        var p :| IsTop(Trimmed(log, window), child, epoch, p);
        var i := RankOnto(log, window, |log|, p);
        KeptAtRank(log, window, i);
        assert false;
      }
    }
  }

  /** `latest`, which trimming does not touch, stays the replay of the trimmed log. */
  lemma TrimKeepsCoherent(tree: Tree, window: Epoch)
    requires Coherent(tree)
    ensures Coherent(tree.(log := Trimmed(tree.log, window)))
  {
    var kept := Trimmed(tree.log, window);
    forall child
      ensures Lookup(AdvanceAll(map[], kept), child) == Lookup(tree.latest, child)
    {
      TrimPreservesInForce(tree.log, window, child, EPOCH_MAX);
      LatestIsInForce(kept, child);
      LatestIsInForce(tree.log, child);
    }
    LookupDecides(AdvanceAll(map[], kept), tree.latest);
  }

  lemma TrimKeepsSorted(log: seq<Event>, window: Epoch)
    requires EpochSorted(log)
    ensures EpochSorted(Trimmed(log, window))
  {
    var kept := Trimmed(log, window);
    forall p: nat, q: nat | p < q < |kept| && kept[p].child == kept[q].child
      ensures kept[p].epoch <= kept[q].epoch
    {
      var i := RankOnto(log, window, |log|, p);
      var j := RankOnto(log, window, |log|, q);
      KeptAtRank(log, window, i);
      KeptAtRank(log, window, j);
      RankOrder(log, window, i, j);
    }
  }

  /** `parent_at` answers the same for every epoch in the window, when the log is epoch-sorted. */
  lemma TrimPreservesParentAt(tree: Tree, window: Epoch, child: Id, epoch: Epoch)
    requires Coherent(tree) && EpochSorted(tree.log) && window <= epoch
    ensures ParentAt(tree.(log := Trimmed(tree.log, window)), child, epoch) == ParentAt(tree, child, epoch)
  {
    TrimKeepsCoherent(tree, window);
    TrimKeepsSorted(tree.log, window);
    ParentAtIsInForce(tree, child, epoch);
    ParentAtIsInForce(tree.(log := Trimmed(tree.log, window)), child, epoch);
    TrimPreservesInForce(tree.log, window, child, epoch);
  }

  /**
   Dropping event `j` lets the scan fall back on the earlier-logged kept event `p`, which names another parent. From
   `p`'s epoch, or the window's start if that is later, and before the current edge is in effect, everything kept in
   between and everything logged after `j` is later.
   */
  ghost predicate TrimExposes(tree: Tree, window: Epoch, child: Id, p: nat, j: nat) {
    var log := tree.log;
    && child in tree.latest && p < j < |log| && log[p].child == child && log[j].child == child
    && Keeps(log, window, p) && !Keeps(log, window, j) && log[p].parent != log[j].parent
    && var from := FirstEpoch(window, log[p].epoch);
       && from < tree.latest[child].since
       && (forall k: nat :: p < k < j && log[k].child == child && Keeps(log, window, k) ==> from < log[k].epoch)
       && (forall k: nat :: j < k < |log| && log[k].child == child ==> from < log[k].epoch)
  }

  function FirstEpoch(window: Epoch, epoch: Epoch): Epoch {
    if window <= epoch then epoch else window
  }

  /** Trimming changes what `parent_at` answers in the window exactly when it exposes an event. */
  lemma ParentAtSurvivesUnlessExposed(tree: Tree, window: Epoch, child: Id)
    ensures var trimmed := tree.(log := Trimmed(tree.log, window));
            (forall epoch: Epoch :: window <= epoch ==> ParentAt(trimmed, child, epoch) == ParentAt(tree, child, epoch))
            <==> forall p: nat, j: nat :: !TrimExposes(tree, window, child, p, j)
  {
    var trimmed := tree.(log := Trimmed(tree.log, window));
    if p: nat, j: nat :| TrimExposes(tree, window, child, p, j) {
      ExposedEventAnswers(tree, window, child, p, j);
    } else {
      forall epoch: Epoch | window <= epoch
        ensures ParentAt(trimmed, child, epoch) == ParentAt(tree, child, epoch)
      {
        NothingExposedNothingChanged(tree, window, child, epoch);
      }
    }
  }

  /** The last kept event up to an epoch is where the scan of the trimmed log stops. */
  lemma KeptIsLast(log: seq<Event>, window: Epoch, child: Id, epoch: Epoch, p: nat)
    requires p < |log| && log[p].child == child && log[p].epoch <= epoch && Keeps(log, window, p)
    requires forall k: nat :: p < k < |log| && log[k].child == child && Keeps(log, window, k) ==> epoch < log[k].epoch
    ensures LastLogged(Trimmed(log, window), child, epoch) == Some(log[p].parent)
  {
    var kept, rank := Trimmed(log, window), Rank(log, window, p);
    KeptAtRank(log, window, p);
    forall q: nat | rank < q < |kept| && kept[q].child == child
      ensures epoch < kept[q].epoch
    {
      var k := RankOnto(log, window, |log|, q);
      KeptAtRank(log, window, k);
      RankOrder(log, window, p, k);
    }
    LastIsLastLogged(kept, child, epoch, rank);
  }

  lemma ExposedEventAnswers(tree: Tree, window: Epoch, child: Id, p: nat, j: nat)
    requires TrimExposes(tree, window, child, p, j)
    ensures var epoch := FirstEpoch(window, tree.log[p].epoch);
            && window <= epoch
            && ParentAt(tree.(log := Trimmed(tree.log, window)), child, epoch) == Some(tree.log[p].parent)
            && ParentAt(tree, child, epoch) == Some(tree.log[j].parent)
  {
    var epoch := FirstEpoch(window, tree.log[p].epoch);
    LastIsLastLogged(tree.log, child, epoch, j);
    KeptIsLast(tree.log, window, child, epoch, p);
  }

  lemma NothingExposedNothingChanged(tree: Tree, window: Epoch, child: Id, epoch: Epoch)
    requires window <= epoch && forall p: nat, j: nat :: !TrimExposes(tree, window, child, p, j)
    ensures ParentAt(tree.(log := Trimmed(tree.log, window)), child, epoch) == ParentAt(tree, child, epoch)
  {
    var log := tree.log;
    LastLoggedIsLast(log, child, epoch);
    if LastLogged(log, child, epoch).None? {
      NothingLoggedNothingKept(log, window, child, epoch);
    } else {
      var j :| IsLast(log, child, epoch, j) && log[j].parent == LastLogged(log, child, epoch).value;
      if Keeps(log, window, j) {
        KeptIsLast(log, window, child, epoch, j);
      } else if child in tree.latest && epoch < tree.latest[child].since {
        DroppedEventIsReplaced(tree, window, child, epoch, j);
      }
    }
  }

  lemma NothingLoggedNothingKept(log: seq<Event>, window: Epoch, child: Id, epoch: Epoch)
    requires forall k :: 0 <= k < |log| && log[k].child == child ==> epoch < log[k].epoch
    ensures LastLogged(Trimmed(log, window), child, epoch).None?
  {
    var kept := Trimmed(log, window);
    LastLoggedIsLast(kept, child, epoch);
    if LastLogged(kept, child, epoch).Some? {
      var q :| IsLast(kept, child, epoch, q);
      var k := RankOnto(log, window, |log|, q);
      KeptAtRank(log, window, k);
      assert false;
    }
  }

  lemma DroppedEventIsReplaced(tree: Tree, window: Epoch, child: Id, epoch: Epoch, j: nat)
    requires window <= epoch && child in tree.latest && epoch < tree.latest[child].since
    requires IsLast(tree.log, child, epoch, j) && !Keeps(tree.log, window, j)
    requires forall p: nat :: !TrimExposes(tree, window, child, p, j)
    ensures LastLogged(Trimmed(tree.log, window), child, epoch) == Some(tree.log[j].parent)
  {
    var log := tree.log;
    var i: nat :| i < |log| && Outranks(log, window, i, j);
    var best := BestOutranker(log, window, j, i);
    var p := LastKept(log, window, child, epoch, best);
    KeptIsLast(log, window, child, epoch, p);
    assert !TrimExposes(tree, window, child, p, j);
  }

  /** From one kept event up to `epoch`, the last such event. */
  lemma LastKept(log: seq<Event>, window: Epoch, child: Id, epoch: Epoch, some: nat) returns (p: nat)
    requires some < |log| && log[some].child == child && log[some].epoch <= epoch && Keeps(log, window, some)
    ensures p < |log| && log[p].child == child && log[p].epoch <= epoch && Keeps(log, window, p)
    ensures forall k: nat :: p < k < |log| && log[k].child == child && Keeps(log, window, k) ==> epoch < log[k].epoch
  {
    p := some;
    for n := some + 1 to |log|
      invariant p < n && log[p].child == child && log[p].epoch <= epoch && Keeps(log, window, p)
      invariant forall k: nat :: p < k < n && log[k].child == child && Keeps(log, window, k) ==> epoch < log[k].epoch
    {
      if log[n].child == child && log[n].epoch <= epoch && Keeps(log, window, n) {
        p := n;
      }
    }
  }

  /**
   The comment on `trim_before` promises that `parent_at` answers the same from the window's start on. Out of epoch
   order it does not: after edges since 20 and 5, an edge since 3 logged last answers at 10 until trimming to 10 drops
   it.
   */
  lemma TrimCanChangeParentAt(child: Id, a: Id, b: Id, c: Id)
    requires a != b
    ensures var tree := ApplyAll(EMPTY_TREE, [Event(child, c, 20), Event(child, a, 5), Event(child, b, 3)]);
            && Coherent(tree) && ParentAt(tree, child, 10) == Some(b)
            && ParentAt(tree.(log := Trimmed(tree.log, 10)), child, 10) == Some(a)
  {
    var tree := ApplyAll(EMPTY_TREE, [Event(child, c, 20), Event(child, a, 5), Event(child, b, 3)]);
    UnsortedLogMisleadsParentAt(child, a, b, c);
    assert tree.log == [Event(child, c, 20), Event(child, a, 5), Event(child, b, 3)];
    assert Outranks(tree.log, 10, 1, 2);
    LatestIsTop(tree, child, 0);
    assert TrimExposes(tree, 10, child, 1, 2);
    ExposedEventAnswers(tree, 10, child, 1, 2);
  }

  lemma LatestIsTop(tree: Tree, child: Id, i: nat)
    requires Coherent(tree) && IsTop(tree.log, child, EPOCH_MAX, i)
    ensures child in tree.latest && tree.latest[child] == Edge(tree.log[i].parent, tree.log[i].epoch)
  {
    LatestIsInForce(tree.log, child);
    TopIsInForce(tree.log, child, EPOCH_MAX, i);
    assert Lookup(tree.latest, child).Some?;
  }

  /** At most one event per child is left from before the window. */
  lemma TrimLeavesOnePerChild(log: seq<Event>, window: Epoch, p: nat, q: nat)
    requires p < q < |Trimmed(log, window)|
    requires Trimmed(log, window)[p].child == Trimmed(log, window)[q].child
    ensures window <= Trimmed(log, window)[p].epoch || window <= Trimmed(log, window)[q].epoch
  {
    var i := RankOnto(log, window, |log|, p);
    var j := RankOnto(log, window, |log|, q);
    KeptAtRank(log, window, i);
    KeptAtRank(log, window, j);
    RankOrder(log, window, i, j);
    assert Outranks(log, window, j, i) || Outranks(log, window, i, j) || window <= log[i].epoch
      || window <= log[j].epoch;
  }

  /** Where event `j` outranks event `i`, so does one that is itself outranked by none. */
  lemma BestOutranker(log: seq<Event>, window: Epoch, i: nat, j: nat) returns (best: nat)
    requires i < |log| && j < |log| && Outranks(log, window, j, i)
    ensures best < |log| && Outranks(log, window, best, i)
    ensures forall k: nat :: k < |log| ==> !Outranks(log, window, k, best)
  {
    var top := InForce(log, log[i].child, window - 1);
    InForceIsTop(log, log[i].child, window - 1);
    best :| IsTop(log, log[i].child, window - 1, best);
  }

  /** A narrower window judges an event the same with and without the events a wider one dropped. */
  lemma KeepsAfterTrim(log: seq<Event>, wide: Epoch, narrow: Epoch, i: nat)
    requires wide <= narrow && i < |log|
    ensures Keeps(log, narrow, i) ==> Keeps(log, wide, i)
    ensures Keeps(log, wide, i) ==>
              Rank(log, wide, i) < |Trimmed(log, wide)|
              && (Keeps(Trimmed(log, wide), narrow, Rank(log, wide, i)) <==> Keeps(log, narrow, i))
  {
    if Keeps(log, narrow, i) && !Keeps(log, wide, i) {
      var j: nat :| j < |log| && Outranks(log, wide, j, i);
      assert Outranks(log, narrow, j, i);
    }
    if Keeps(log, wide, i) {
      var kept, rank := Trimmed(log, wide), Rank(log, wide, i);
      KeptAtRank(log, wide, i);
      if q: nat :| q < |kept| && Outranks(kept, narrow, q, rank) {
        var j := RankOnto(log, wide, |log|, q);
        KeptAtRank(log, wide, j);
        RankOrder(log, wide, i, j);
        assert Outranks(log, narrow, j, i);
      } else if j: nat :| j < |log| && Outranks(log, narrow, j, i) {
        var best := BestOutranker(log, narrow, i, j);
        assert Keeps(log, wide, best) by {
          if k: nat :| k < |log| && Outranks(log, wide, k, best) {
            assert Outranks(log, narrow, k, best);
          }
        }
        KeptAtRank(log, wide, best);
        RankOrder(log, wide, i, best);
        assert Outranks(kept, narrow, Rank(log, wide, best), rank);
      }
    }
  }

  lemma {:induction false} KeptOfTrimmed(log: seq<Event>, wide: Epoch, narrow: Epoch, n: nat)
    requires wide <= narrow && n <= |log|
    ensures Rank(log, wide, n) <= |Trimmed(log, wide)|
    ensures KeptOf(Trimmed(log, wide), narrow, Rank(log, wide, n)) == KeptOf(log, narrow, n)
  {
    RankMonotone(log, wide, n, |log|);
    if n > 0 {
      KeptOfTrimmed(log, wide, narrow, n - 1);
      KeepsAfterTrim(log, wide, narrow, n - 1);
      if Keeps(log, wide, n - 1) {
        KeptAtRank(log, wide, n - 1);
        NextKept(log, narrow, n - 1, Trimmed(log, wide), Rank(log, wide, n - 1));
      }
    }
  }

  /** Logs that agree so far, and hold one event judged alike next, agree one event further. */
  lemma NextKept(log: seq<Event>, window: Epoch, n: nat, other: seq<Event>, m: nat)
    requires n < |log| && m < |other| && log[n] == other[m]
    requires KeptOf(other, window, m) == KeptOf(log, window, n)
    requires Keeps(other, window, m) <==> Keeps(log, window, n)
    ensures KeptOf(other, window, m + 1) == KeptOf(log, window, n + 1)
  {
  }

  /** Trimming twice, the second window no wider than the first, is trimming once. */
  lemma TrimTwice(log: seq<Event>, wide: Epoch, narrow: Epoch)
    requires wide <= narrow
    ensures Trimmed(Trimmed(log, wide), narrow) == Trimmed(log, narrow)
  {
    KeptOfTrimmed(log, wide, narrow, |log|);
  }
}
