/** What a ledger answers after any run: poses, parents and roots, with and without a memory limit. */
module LedgerAnswers {
  import opened Prelude
  import opened Identity
  import opened Rows
  import opened Topology
  import opened Ingest
  import opened Runs
  import opened Ancestry
  import opened Quaternions
  import opened FrameChains
  import opened Poses
  import opened Agreement
  import opened Segments
  import opened LedgerModel
  import opened LedgerRuns
  import opened PresentResolution
  import opened Window

  // ----- with no limit -----

  /** With no eviction, every lookup is what the scan of the stored rows alone would return. */
  lemma {:induction false} RunLookupsAreScans(size: Sizer, ops: seq<Op>, id: Id, epoch: Epoch)
    requires NeverLimited(ops)
    ensures var s := Run(size, ops);
            Resolved(s.poses, StoredRows(s), id, epoch) == Scanned(StoredRows(s), id, epoch)
  {
    UnlimitedKeepsAll(size, ops);
    RunTracks(size, ops);
    CacheNeverDisagrees(AppendedRows(ops), id, epoch);
  }

  /** The ledger's tree and its poses answer alike at `epoch`. */
  ghost predicate AnswersAgree(s: LedgerState, child: Id, epoch: Epoch) {
    ParentAt(s.tree, child, epoch) == FrameOf(Resolved(s.poses, StoredRows(s), child, epoch))
  }

  /** With no eviction, tree and poses answer alike for every entity and epoch exactly when ties agree. */
  lemma {:induction false} RunTopologyAndPosesAgree(size: Sizer, ops: seq<Op>)
    requires NeverLimited(ops) && EntityOrdered(History(ops))
    ensures (forall child: Id, epoch: Epoch :: AnswersAgree(Run(size, ops), child, epoch))
            <==> TiesAgree(AppendedRows(ops))
  {
    UnlimitedKeepsAll(size, ops);
    RunTracks(size, ops);
    HistoryIsARun(ops);
    TopologyAndPosesAgree(History(ops));
    assert forall child: Id, epoch: Epoch ::
        AnswersAgree(Run(size, ops), child, epoch) <==> AgreeAt(History(ops), child, epoch);
  }

  // ----- what the poses mean -----

  ghost predicate UnitRows(rows: seq<Row>) {
    forall r :: r in rows ==> Unit(r.pose.q)
  }

  lemma StoredWasAppended(size: Sizer, ops: seq<Op>, row: Row)
    requires row in StoredRows(Run(size, ops))
    ensures row in AppendedRows(ops)
  {
    RunTracks(size, ops);
    assert Retained(Run(size, ops), AppendedRows(ops), row);
    assert row in multiset(StoredRows(Run(size, ops)));
    assert row in multiset(AppendedRows(ops));
  }

  /** The entity's latest row is stored. */
  lemma LatestIsStored(size: Sizer, ops: seq<Op>, row: Row)
    requires row in AppendedRows(ops) && AtLatest(CacheOf(AppendedRows(ops)), row)
    ensures row in StoredRows(Run(size, ops))
  {
    RunTracks(size, ops);
    assert Retained(Run(size, ops), AppendedRows(ops), row);
    assert row in multiset(AppendedRows(ops));
    assert row in multiset(StoredRows(Run(size, ops)));
  }

  /** The row is the entity's, not after `epoch`, and none of the rows that are so is later. */
  ghost predicate IsLatestBy(rows: seq<Row>, id: Id, epoch: Epoch, row: Row) {
    && row in rows && row.id == id && row.epoch <= epoch
    && forall r :: r in rows && r.id == id && r.epoch <= epoch ==> r.epoch <= row.epoch
  }

  /**
   On every reachable ledger a lookup answers with frame and pose of a stored row of the entity, of highest epoch among
   those up to the query, and answers nothing only when no stored row is.
   */
  lemma LookupIsAStoredRow(size: Sizer, ops: seq<Op>, id: Id, epoch: Epoch)
    ensures var s := Run(size, ops);
            var answer, rows := Resolved(s.poses, StoredRows(s), id, epoch), StoredRows(s);
            if answer.None? then forall r :: r in rows && r.id == id ==> epoch < r.epoch
            else exists row :: IsLatestBy(rows, id, epoch, row)
                               && answer.value.frame == row.frame && answer.value.pose == row.pose
  {
    var s, all := Run(size, ops), AppendedRows(ops);
    RunTracks(size, ops);
    if id in s.poses && s.poses[id].epoch <= epoch {
      var row := all[FirstLatest(all, id).value];
      assert row in all;
      LatestIsStored(size, ops, row);
      forall r | r in StoredRows(s) && r.id == id && r.epoch <= epoch
        ensures r.epoch <= row.epoch
      {
        StoredWasAppended(size, ops, r);
        var k :| 0 <= k < |all| && all[k] == r;
      }
      assert IsLatestBy(StoredRows(s), id, epoch, row);
    } else {
      ScannedIsLatest(StoredRows(s), id, epoch);
    }
  }

  lemma ScannedIsLatest(rows: seq<Row>, id: Id, epoch: Epoch)
    ensures var answer := Scanned(rows, id, epoch);
            if answer.None? then forall r :: r in rows && r.id == id ==> epoch < r.epoch
            else exists row :: IsLatestBy(rows, id, epoch, row)
                               && answer.value.frame == row.frame && answer.value.pose == row.pose
  {
    var best := FirstBest(rows, id, epoch);
    if best.Some? {
      assert IsLatestBy(rows, id, epoch, rows[best.value]);
    } else {
      forall r | r in rows && r.id == id
        ensures epoch < r.epoch
      {
        var k: nat :| k < |rows| && rows[k] == r;
        assert !Candidate(rows, id, epoch, k);
      }
    }
  }

  lemma LookupsAreUnit(size: Sizer, ops: seq<Op>, at: Epoch)
    requires UnitRows(AppendedRows(ops))
    ensures UnitLookups(PresentLookups(Run(size, ops), at))
  {
    var s := Run(size, ops);
    forall id | PresentLookups(s, at)(id).Some?
      ensures Unit(PresentLookups(s, at)(id).value.pose.q)
    {
      LookupIsAStoredRow(size, ops, id, at);
      var row :| IsLatestBy(StoredRows(s), id, at, row) && PresentLookups(s, at)(id).value.pose == row.pose;
      StoredWasAppended(size, ops, row);
    }
  }

  /** The answer at the root is the product the right way round: each entity is placed by its own pose in its parent. */
  lemma RootsPlacePoints(size: Sizer, ops: seq<Op>, id: Id, epoch: Epoch, v: Vec3)
    requires UnitRows(AppendedRows(ops))
    requires var s := Run(size, ops);
             var answer := ResolveToRoot(s.tree, PresentLookups(s, epoch), id, epoch); answer.Ok? && answer.value.Some?
    ensures var s := Run(size, ops);
            var placed, parent := PresentLookups(s, epoch), ParentAt(s.tree, id, epoch);
            && parent.Some?
            && (IsHop(s.tree, parent.value) ==> ResolveToRoot(s.tree, placed, parent.value, epoch).Ok?)
            && PlacedByParent(s.tree, placed, epoch, id, ResolveToRoot(s.tree, placed, id, epoch).value.value,
                              if IsHop(s.tree, parent.value)
                              then ResolveToRoot(s.tree, placed, parent.value, epoch).value else None, v)
  {
    LookupsAreUnit(size, ops, epoch);
    ResolvedPlacesPoints(Run(size, ops).tree, PresentLookups(Run(size, ops), epoch), id, epoch, v);
  }

  // ----- in the window -----

  /** Every hop of the chain is within reach of the window. */
  ghost predicate ChainInReach(rows: seq<Row>, start: Epoch, tree: Tree, id: Id, epoch: Epoch) {
    var up := AncestryAt(tree, id, epoch);
    up.Ok? ==> forall i :: 0 <= i < |up.value| - 1 ==> InReach(rows, start, up.value[i], epoch)
  }

  lemma {:induction false} SameHopsSameProduct(a: Lookups, b: Lookups, chain: seq<Id>)
    requires chain != [] && forall i :: 0 <= i < |chain| - 1 ==> a(chain[i]) == b(chain[i])
    ensures RootToNode(a, chain) == RootToNode(b, chain)
  {
    if |chain| > 1 {
      SameHopsSameProduct(a, b, chain[1..]);
    }
  }

  /**
   In the window the limited ledger resolves an entity to its root as the ledger that never evicts does, fault and all,
   whenever every hop of the chain is within reach.
   */
  lemma {:induction false} WindowRoots(size: Sizer, ops: seq<Op>, start: Epoch, id: Id, epoch: Epoch)
    requires WindowedRun(size, ops, start) && start <= epoch
    requires ChainInReach(AppendedRows(ops), start, Run(size, ops).tree, id, epoch)
    ensures var s, u := Run(size, ops), Run(size, Unlimited(ops));
            ResolveToRoot(s.tree, PresentLookups(s, epoch), id, epoch)
            == ResolveToRoot(u.tree, PresentLookups(u, epoch), id, epoch)
  {
    var s, u := Run(size, ops), Run(size, Unlimited(ops));
    WindowAncestry(size, ops, start, id, epoch);
    var up := AncestryAt(s.tree, id, epoch);
    if up.Ok? && up.value != [] {
      forall i | 0 <= i < |up.value| - 1
        ensures PresentLookups(s, epoch)(up.value[i]) == PresentLookups(u, epoch)(up.value[i])
      {
        WindowPoses(size, ops, start, up.value[i], epoch);
      }
      SameHopsSameProduct(PresentLookups(s, epoch), PresentLookups(u, epoch), up.value);
    }
  }

  // ----- at the present -----

  /** Once every edge is in effect, the log is not read. */
  lemma PresentParents(a: Tree, b: Tree, child: Id, epoch: Epoch)
    requires a.latest == b.latest && AllInEffect(a.latest, epoch)
    ensures ParentAt(a, child, epoch) == ParentAt(b, child, epoch)
  {
  }

  lemma PresentLookupsAgree(size: Sizer, ops: seq<Op>, id: Id, epoch: Epoch)
    requires forall r :: r in AppendedRows(ops) ==> r.epoch <= epoch
    ensures PresentLookups(Run(size, ops), epoch)(id) == PresentLookups(Run(size, Unlimited(ops)), epoch)(id)
  {
    var s, all := Run(size, ops), AppendedRows(ops);
    SamePoses(size, ops);
    if id in IdsOf(all) {
      assert all[FirstLatest(all, id).value] in all;
    } else {
      RunTracks(size, ops);
      forall row | row in StoredRows(s)
        ensures row in all
      {
        assert Retained(s, all, row);
        assert row in multiset(StoredRows(s));
        assert row in multiset(all);
      }
      NothingScanned(StoredRows(s), id, epoch);
      NothingScanned(all, id, epoch);
    }
  }

  lemma NothingScanned(rows: seq<Row>, id: Id, epoch: Epoch)
    requires id !in IdsOf(rows)
    ensures Scanned(rows, id, epoch) == None
  {
    assert forall k: nat :: Candidate(rows, id, epoch, k) ==> rows[k] in rows;
  }

  /**
   Present-epoch transforms survive eviction: after any run, in any order and under any limits, chains, roots and poses
   at or after all appended rows are those of the ledger that never evicts, faults included.
   */
  lemma {:induction false} PresentSurvivesEviction(size: Sizer, ops: seq<Op>, id: Id, epoch: Epoch)
    requires forall r :: r in AppendedRows(ops) ==> r.epoch <= epoch
    ensures var s, u := Run(size, ops), Run(size, Unlimited(ops));
            && AncestryAt(s.tree, id, epoch) == AncestryAt(u.tree, id, epoch)
            && ResolveToRoot(s.tree, PresentLookups(s, epoch), id, epoch)
               == ResolveToRoot(u.tree, PresentLookups(u, epoch), id, epoch)
  {
    var s, u := Run(size, ops), Run(size, Unlimited(ops));
    RunTracks(size, ops);
    SamePoses(size, ops);
    EdgesInEffect(ops, epoch);
    forall child
      ensures ParentAt(s.tree, child, epoch) == ParentAt(u.tree, child, epoch)
    {
      PresentParents(s.tree, u.tree, child, epoch);
    }
    SameParentsSameClimb(s.tree, u.tree, epoch, id, {id});
    var up := AncestryAt(s.tree, id, epoch);
    if up.Ok? && up.value != [] {
      forall i | 0 <= i < |up.value| - 1
        ensures PresentLookups(s, epoch)(up.value[i]) == PresentLookups(u, epoch)(up.value[i])
      {
        PresentLookupsAgree(size, ops, up.value[i], epoch);
      }
      SameHopsSameProduct(PresentLookups(s, epoch), PresentLookups(u, epoch), up.value);
    }
  }
}
