/** The mutable transform tree: every method is tied to a function of the tree as a value. */
module TransformTrees {
  import opened Prelude
  import opened Identity
  import opened Rows
  import opened FrameGraph
  import opened StableSort
  import opened Topology
  import opened Ingest
  import opened IngestPasses
  import Trim
  import opened Federation
  import opened Ancestry

  /** An exported log: one column per field, in log order. */
  datatype LogBatch = LogBatch(child: seq<Id>, parent: seq<Id>, epoch: seq<Epoch>)

  ghost predicate IsLogBatch(batch: LogBatch) {
    |batch.child| == |batch.parent| == |batch.epoch|
  }

  /** The events of the first `n` rows of an exported log. */
  function Decoded(batch: LogBatch, n: nat): (events: seq<Event>)
    requires IsLogBatch(batch) && n <= |batch.child|
    ensures |events| == n
    ensures forall i :: 0 <= i < n ==> events[i] == Event(batch.child[i], batch.parent[i], batch.epoch[i])
  {
    if n == 0 then [] else Decoded(batch, n - 1) + [Event(batch.child[n - 1], batch.parent[n - 1], batch.epoch[n - 1])]
  }

  class TransformTree {
    var latest: Latest
    var log: seq<Event>

    function State(): Tree
      reads this
    {
      Tree(latest, log)
    }

    constructor ()
      ensures State() == EMPTY_TREE
    {
      latest, log := map[], [];
    }

    constructor Clone(other: TransformTree)
      ensures State() == other.State()
    {
      latest, log := other.latest, other.log;
    }

    method FindParentAt(child: Id, epoch: Epoch) returns (parent: Option<Id>)
      ensures parent == ParentAt(State(), child, epoch)
    {
      if child !in latest {
        return None;
      }
      if latest[child].since <= epoch {
        return Some(latest[child].parent);
      }
      var i := |log|;
      assert log[..i] == log;
      while i > 0
        invariant 0 <= i <= |log|
        invariant LastLogged(log, child, epoch) == LastLogged(log[..i], child, epoch)
      {
        i := i - 1;
        assert log[..i + 1][..i] == log[..i];
        if log[i].child == child && log[i].epoch <= epoch {
          return Some(log[i].parent);
        }
      }
      return None;
    }

    method FindAncestry(entity: Id, epoch: Epoch) returns (r: Result<seq<Id>, ChainError>)
      ensures r == AncestryAt(State(), entity, epoch)
    {
      if entity.IsAstro() {
        return Ok([entity]);
      }
      var chain, visiting, current := [entity], {entity}, entity;
      assert forall rest: seq<Id> :: chain[..0] + rest == rest;
      while true
        invariant chain != [] && chain[|chain| - 1] == current
        invariant AncestryAt(State(), entity, epoch) ==
                  var rest := Climb(State(), epoch, current, visiting);
                  if rest.Ok? then Ok(chain[..|chain| - 1] + rest.value) else rest
        decreases latest.Keys - visiting
      {
        var parent := FindParentAt(current, epoch);
        if parent.None? {
          return Err(NoParent(current));
        }
        ghost var below := chain[..|chain| - 1];
        assert below + [current, parent.value] == chain + [parent.value];
        chain := chain + [parent.value];
        if !parent.value.IsSoloc() || parent.value !in latest {
          return Ok(chain);
        }
        if parent.value in visiting {
          return Err(CycleInChain(parent.value));
        }
        visiting := visiting + {parent.value};
        assert forall rest: seq<Id> :: below + ([current] + rest) == chain[..|chain| - 1] + rest;
        current := parent.value;
      }
    }

    /** Logs `event`, and makes it its child's edge unless that edge is newer. */
    method ApplyEvent(event: Event)
      modifies this
      ensures State() == ApplyAll(old(State()), [event])
    {
      var supersedes := event.child !in latest || event.epoch >= latest[event.child].since;
      assert [event][..0] == [];
      assert AdvanceAll(latest, [event]) == Advance(latest, event);
      if supersedes {
        latest := latest[event.child := Edge(event.parent, event.epoch)];
      }
      log := log + [event];
    }

    method ApplyEvents(events: seq<Event>)
      modifies this
      ensures State() == ApplyAll(old(State()), events)
    {
      ghost var before := State();
      assert before.log + [] == before.log;
      for i := 0 to |events|
        invariant State() == ApplyAll(before, events[..i])
      {
        assert events[..i + 1][..i] == events[..i];
        ApplyEvent(events[i]);
        AdvanceAllConcat(before.latest, events[..i], [events[i]]);
        assert events[..i] + [events[i]] == events[..i + 1];
        assert before.log + events[..i] + [events[i]] == before.log + events[..i + 1];
      }
      assert events[..|events|] == events;
    }

    /**
     Derives topology from a batch and folds it in. The answer and the new tree are those of
     the naive derivation; a rejected batch leaves the tree as it was.
     */
    method IngestBatch(rows: seq<Row>) returns (r: Result<Outcome, IngestError>)
      modifies this
      ensures r == Verdict(old(latest), rows)
      ensures State() == Ingested(old(State()), rows)
      ensures r.Err? ==> State() == old(State())
    {
      if rows == [] {
        EmptyBatch(State());
        return Ok(Outcome([], map[]));
      }
      var scans := ScanRows(rows);
      if scans.Err? {
        return Err(scans.error);
      }
      var latestRows, dirty := FindDirty(latest, rows, scans.value);
      if dirty == {} {
        NothingDirty(State(), rows);
        return Ok(Outcome([], latestRows));
      }
      var events, staged := WalkDirty(latest, rows, dirty);
      var ok := CheckStaged(latest, staged);
      if !ok {
        return Err(CycleDetected);
      }
      ApplyEvents(events);
      return Ok(Outcome(events, latestRows));
    }

    /** Drops the history that no query from `window` on can reach, counting what it drops. */
    method TrimBefore(window: Epoch) returns (removed: nat)
      modifies this
      ensures State() == old(State()).(log := Trim.Trimmed(old(log), window))
      ensures removed == |old(log)| - |log|
    {
      var inForce: map<Id, nat> := map[];
      for i := 0 to |log|
        invariant forall c :: c in inForce ==>
                    inForce[c] < i && log[inForce[c]].child == c && log[inForce[c]].epoch < window
        invariant forall c, j: nat :: c in inForce && j < i ==> !Trim.Outranks(log, window, j, inForce[c])
        invariant forall j :: 0 <= j < i && log[j].epoch < window ==> log[j].child in inForce
      {
        var event := log[i];
        if event.epoch < window {
          var newerKept := event.child in inForce && log[inForce[event.child]].epoch > event.epoch;
          if !newerKept {
            forall j: nat | j < i + 1
              ensures !Trim.Outranks(log, window, j, i)
            {
              assert event.child in inForce ==> !Trim.Outranks(log, window, j, inForce[event.child]) || j == i;
            }
            inForce := inForce[event.child := i];
          }
        }
      }
      var kept: seq<Event> := [];
      for i := 0 to |log|
        invariant kept == Trim.KeptOf(log, window, i)
      {
        var event := log[i];
        var keep := event.epoch >= window || (event.child in inForce && inForce[event.child] == i);
        if event.epoch < window && inForce[event.child] != i {
          assert !Trim.Outranks(log, window, i, inForce[event.child]);
          assert Trim.Outranks(log, window, inForce[event.child], i);
        }
        assert keep <==> Trim.Keeps(log, window, i);
        if keep {
          kept := kept + [event];
        }
      }
      removed := |log| - |kept|;
      log := kept;
    }

    method ToLogBatch() returns (batch: LogBatch)
      ensures IsLogBatch(batch) && Decoded(batch, |batch.child|) == log
    {
      var child, parent, epoch: seq<Epoch> := [], [], [];
      for i := 0 to |log|
        invariant |child| == |parent| == |epoch| == i
        invariant forall j :: 0 <= j < i ==> log[j] == Event(child[j], parent[j], epoch[j])
      {
        child := child + [log[i].child];
        parent := parent + [log[i].parent];
        epoch := epoch + [log[i].epoch];
      }
      return LogBatch(child, parent, epoch);
    }

    /**
     Merges an exported log: what is new in it is tried on a copy, and taken only if the result
     has no cycle. Answers how many events were applied, or that the merge was rejected.
     */
    method MergeLogBatch(batch: LogBatch) returns (applied: Option<nat>)
      requires IsLogBatch(batch)
      modifies this
      ensures var events := Decoded(batch, |batch.child|);
              && State() == Merged(old(State()), events)
              && applied == if Mergeable(old(State()), events) then Some(|Novel(old(log), events)|) else None
    {
      var seen := set e | e in log;
      var events: seq<Event> := [];
      for i := 0 to |batch.child|
        invariant events == Novel(log, Decoded(batch, i))
        invariant forall e :: e in seen <==> e in log || e in events
      {
        var event := Event(batch.child[i], batch.parent[i], batch.epoch[i]);
        assert Decoded(batch, i + 1)[..i] == Decoded(batch, i);
        if event !in seen {
          seen := seen + {event};
          events := events + [event];
        }
      }
      var trial := new TransformTree.Clone(this);
      trial.ApplyEvents(events);
      var ok := trial.CheckAcyclic();
      if !ok {
        return None;
      }
      latest, log := trial.latest, trial.log;
      return Some(|events|);
    }

    /** Whether no known child's parent chain loops back on itself. */
    method CheckAcyclic() returns (ok: bool)
      ensures ok <==> Acyclic(Parents(latest))
    {
      var g := Parents(latest);
      AcyclicIffNoRevisit(g);
      var remaining := latest.Keys;
      while remaining != {}
        invariant remaining <= latest.Keys
        invariant forall start :: start in latest && start !in remaining ==> !Revisits(g, start)
        decreases remaining
      {
        var start :| start in remaining;
        var revisits := WalkUp(g, start);
        if revisits {
          return false;
        }
        remaining := remaining - {start};
      }
      forall node
        ensures !Revisits(g, node)
      {
        if node !in latest {
          EndedWalkDoesNotRevisit(g, node, 1);
        }
      }
      return true;
    }
  }

  lemma EmptyBatch(tree: Tree)
    ensures Verdict(tree.latest, []) == Ok(Outcome([], map[]))
    ensures Ingested(tree, []) == tree
  {
    assert NaiveEvents(tree.latest, []) == [];
    assert tree.log + [] == tree.log;
  }

  lemma NothingDirty(tree: Tree, rows: seq<Row>)
    requires FirstAbstract(rows).None? && CleanOutside(tree.latest, rows, {})
    ensures Verdict(tree.latest, rows) == Ok(Outcome([], LatestRows(rows)))
    ensures Ingested(tree, rows) == tree
  {
    AllCleanNoEvents(tree.latest, rows);
    assert tree.log + [] == tree.log;
  }

  lemma AllCleanNoEvents(latest: Latest, rows: seq<Row>)
    requires CleanOutside(latest, rows, {})
    ensures NaiveEvents(latest, rows) == []
  {
    var none: set<Id> := {};
    DirtyRowsSuffice(latest, rows, none);
    FilterNone(rows, (r: Row) => r.id in none);
    assert StableSorted([]) == [];
  }
}
