/** Looking up an entity's pose: the full scan, and the latest-pose cache in front of it. */
module Poses {
  import opened Prelude
  import opened Identity
  import opened Rows
  import opened Quaternions
  import opened Ingest

  /** A frame and the pose in it. */
  datatype Placement = Placement(frame: Id, pose: Pose)

  datatype LatestPose = LatestPose(parent: Id, pose: Pose, epoch: Epoch)

  type PoseCache = map<Id, LatestPose>

  function PlacementOf(row: Row): Placement {
    Placement(row.frame, row.pose)
  }

  function CachedFrom(row: Row): LatestPose {
    LatestPose(row.frame, row.pose, row.epoch)
  }

  /** Row `i` may answer a query for `id` at `epoch`. */
  predicate Candidate(rows: seq<Row>, id: Id, epoch: Epoch, i: nat) {
    i < |rows| && rows[i].id == id && rows[i].epoch <= epoch
  }

  /** The first candidate of highest epoch. */
  function FirstBest(rows: seq<Row>, id: Id, epoch: Epoch): (best: Option<nat>)
    ensures best.None? ==> forall k: nat :: !Candidate(rows, id, epoch, k)
    ensures best.Some? ==>
              var i := best.value;
              && Candidate(rows, id, epoch, i)
              && forall k: nat :: Candidate(rows, id, epoch, k) ==>
                   rows[k].epoch < rows[i].epoch || (rows[k].epoch == rows[i].epoch && i <= k)
  {
    if rows == [] then None
    else
      var k := |rows| - 1;
      var earlier := FirstBest(rows[..k], id, epoch);
      assert forall j: nat :: j < k ==> (Candidate(rows[..k], id, epoch, j) <==> Candidate(rows, id, epoch, j));
      if Candidate(rows, id, epoch, k) && (earlier.Some? ==> rows[earlier.value].epoch < rows[k].epoch) then Some(k)
      else earlier
  }

  /** The last candidate of highest epoch. */
  function LastBest(rows: seq<Row>, id: Id, epoch: Epoch): (best: Option<nat>)
    ensures best.None? ==> forall k: nat :: !Candidate(rows, id, epoch, k)
    ensures best.Some? ==>
              var i := best.value;
              && Candidate(rows, id, epoch, i)
              && forall k: nat :: Candidate(rows, id, epoch, k) ==>
                   rows[k].epoch < rows[i].epoch || (rows[k].epoch == rows[i].epoch && k <= i)
  {
    if rows == [] then None
    else
      var k := |rows| - 1;
      var earlier := LastBest(rows[..k], id, epoch);
      assert forall j: nat :: j < k ==> (Candidate(rows[..k], id, epoch, j) <==> Candidate(rows, id, epoch, j));
      if Candidate(rows, id, epoch, k) && (earlier.Some? ==> rows[earlier.value].epoch <= rows[k].epoch) then Some(k)
      else earlier
  }

  /** The row a scan settles on. */
  function ScannedRow(rows: seq<Row>, id: Id, epoch: Epoch): Option<Row> {
    var best := FirstBest(rows, id, epoch);
    if best.Some? then Some(rows[best.value]) else None
  }

  lemma ScannedRowSnoc(rows: seq<Row>, row: Row, id: Id, epoch: Epoch)
    ensures var earlier := ScannedRow(rows, id, epoch);
            ScannedRow(rows + [row], id, epoch)
            == if row.id == id && row.epoch <= epoch && (earlier.Some? ==> earlier.value.epoch < row.epoch)
               then Some(row)
               else earlier
  {
    assert (rows + [row])[..|rows|] == rows;
  }

  /** What a scan of every stored row answers. */
  function Scanned(rows: seq<Row>, id: Id, epoch: Epoch): Option<Placement> {
    var best := FirstBest(rows, id, epoch);
    if best.Some? then Some(PlacementOf(rows[best.value])) else None
  }

  /** The lookup: the cached pose when its epoch is not after the query, else the scan. */
  function Resolved(cache: PoseCache, rows: seq<Row>, id: Id, epoch: Epoch): Option<Placement> {
    if id in cache && cache[id].epoch <= epoch then Some(Placement(cache[id].parent, cache[id].pose))
    else Scanned(rows, id, epoch)
  }

  /** The cache after a batch: an entry gives way to the batch's winning row only if that is later. */
  function Refreshed(cache: PoseCache, rows: seq<Row>): PoseCache {
    map id | id in cache.Keys + IdsOf(rows) :: RefreshedPose(cache, rows, id)
  }

  function RefreshedPose(cache: PoseCache, rows: seq<Row>, id: Id): LatestPose
    requires id in cache.Keys + IdsOf(rows)
  {
    var best := FirstLatest(rows, id);
    if best.Some? && (id in cache ==> cache[id].epoch < rows[best.value].epoch) then CachedFrom(rows[best.value])
    else cache[id]
  }

  /** The cache that a whole history of rows calls for. */
  function CacheOf(rows: seq<Row>): PoseCache {
    map id | id in IdsOf(rows) :: CachedFrom(rows[FirstLatest(rows, id).value])
  }

  /** Later rows win only when strictly later, so ties and backfills keep what was cached. */
  ghost predicate LaterWins(a: seq<Row>, b: seq<Row>, all: seq<Row>, id: Id) {
    var x, y := FirstLatest(a, id), FirstLatest(b, id);
    FirstLatest(all, id)
    == if y.Some? && (x.Some? ==> a[x.value].epoch < b[y.value].epoch) then Some(|a| + y.value) else x
  }

  lemma {:induction false} FirstLatestOf(a: seq<Row>, b: seq<Row>, all: seq<Row>, id: Id)
    requires |all| == |a| + |b| && all[..|a|] == a && all[|a|..] == b
    ensures LaterWins(a, b, all, id)
  {
    if b == [] {
      assert all == a;
    } else {
      var front, allFront := b[..|b| - 1], all[..|all| - 1];
      assert allFront[..|a|] == a && allFront[|a|..] == front && all[|all| - 1] == b[|b| - 1];
      FirstLatestOf(a, front, allFront, id);
      assert forall k :: 0 <= k < |a| ==> allFront[k] == a[k];
      assert forall k :: 0 <= k < |front| ==> allFront[|a| + k] == front[k];
    }
  }

  lemma FirstLatestConcat(a: seq<Row>, b: seq<Row>, id: Id)
    ensures LaterWins(a, b, a + b, id)
  {
    FirstLatestOf(a, b, a + b, id);
  }

  /** Refreshing batch by batch builds exactly the cache of the whole history, backfills included. */
  lemma RefreshIsCacheOfAll(a: seq<Row>, b: seq<Row>)
    ensures Refreshed(CacheOf(a), b) == CacheOf(a + b)
  {
    var refreshed, cache := Refreshed(CacheOf(a), b), CacheOf(a + b);
    RefreshedKeys(a, b);
    forall id | id in cache
      ensures refreshed[id] == cache[id]
    {
      RefreshedEntry(a, b, id);
    }
    SameEntries(refreshed, cache);
  }

  lemma SameEntries(a: PoseCache, b: PoseCache)
    requires a.Keys == b.Keys && forall id :: id in b ==> a[id] == b[id]
    ensures a == b
  {
  }

  lemma RefreshedKeys(a: seq<Row>, b: seq<Row>)
    ensures Refreshed(CacheOf(a), b).Keys == CacheOf(a + b).Keys == IdsOf(a) + IdsOf(b)
  {
    assert IdsOf(a + b) == IdsOf(a) + IdsOf(b);
  }

  lemma RefreshedEntry(a: seq<Row>, b: seq<Row>, id: Id)
    requires id in IdsOf(a) + IdsOf(b) && id in IdsOf(a + b)
    ensures Refreshed(CacheOf(a), b)[id] == CacheOf(a + b)[id]
  {
    FirstLatestConcat(a, b, id);
    var x, y := FirstLatest(a, id), FirstLatest(b, id);
    assert id in IdsOf(a) <==> x.Some?;
    if y.Some? && (x.Some? ==> a[x.value].epoch < b[y.value].epoch) {
      TakenFromBatch(a, b, a + b, id, y.value, |a| + y.value);
    } else {
      KeptFromCache(a, b, a + b, id, x.value);
    }
  }

  lemma TakenFromBatch(a: seq<Row>, b: seq<Row>, all: seq<Row>, id: Id, y: nat, z: nat)
    requires FirstLatest(b, id) == Some(y) && FirstLatest(all, id) == Some(z) && all[z] == b[y]
    requires id in IdsOf(all) && (id in IdsOf(a) ==> CacheOf(a)[id].epoch < b[y].epoch)
    ensures id in Refreshed(CacheOf(a), b) && Refreshed(CacheOf(a), b)[id] == CacheOf(all)[id]
  {
    assert b[y] in b;
  }

  lemma KeptFromCache(a: seq<Row>, b: seq<Row>, all: seq<Row>, id: Id, x: nat)
    requires FirstLatest(a, id) == Some(x) && FirstLatest(all, id) == Some(x) && all[x] == a[x]
    requires id in IdsOf(all) && (FirstLatest(b, id).Some? ==> b[FirstLatest(b, id).value].epoch <= a[x].epoch)
    ensures id in Refreshed(CacheOf(a), b) && Refreshed(CacheOf(a), b)[id] == CacheOf(all)[id]
  {
    assert a[x] in a;
  }

  /** The fast path never disagrees with the scan it skips. */
  lemma CacheNeverDisagrees(rows: seq<Row>, id: Id, epoch: Epoch)
    ensures Resolved(CacheOf(rows), rows, id, epoch) == Scanned(rows, id, epoch)
  {
    if id in CacheOf(rows) && CacheOf(rows)[id].epoch <= epoch {
      var i := FirstLatest(rows, id).value;
      assert Candidate(rows, id, epoch, i);
      assert FirstBest(rows, id, epoch) == Some(i);
    }
  }

  /** Row `i` is the entity's first of highest epoch up to `epoch`. */
  ghost predicate IsFirstLatestBy(rows: seq<Row>, id: Id, epoch: Epoch, i: nat) {
    && i < |rows| && rows[i].id == id && rows[i].epoch <= epoch
    && forall k: nat :: k < |rows| && rows[k].id == id && rows[k].epoch <= epoch ==>
         rows[k].epoch < rows[i].epoch || (rows[k].epoch == rows[i].epoch && i <= k)
  }

  /** A lookup answers with the frame and the pose of that row, or with nothing when there is none. */
  lemma LookupIsFirstRow(rows: seq<Row>, id: Id, epoch: Epoch)
    ensures var answer := Resolved(CacheOf(rows), rows, id, epoch);
            if answer.None? then forall r :: r in rows && r.id == id ==> epoch < r.epoch
            else exists i: nat :: IsFirstLatestBy(rows, id, epoch, i)
                                  && answer.value.frame == rows[i].frame && answer.value.pose == rows[i].pose
  {
    CacheNeverDisagrees(rows, id, epoch);
    var best := FirstBest(rows, id, epoch);
    forall k: nat | k < |rows| && rows[k].id == id && rows[k].epoch <= epoch
      ensures Candidate(rows, id, epoch, k)
    {
    }
    if best.Some? {
      assert IsFirstLatestBy(rows, id, epoch, best.value);
    } else {
      assert forall r :: r in rows ==> exists k: nat :: k < |rows| && rows[k] == r;
    }
  }
}
