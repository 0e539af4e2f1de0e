/** The three passes of batch ingestion, each over as little of the batch as it can. */
module IngestPasses {
  import opened Prelude
  import opened Identity
  import opened Rows
  import opened StableSort
  import opened FrameGraph
  import opened Topology
  import opened Ingest

  /** What pass A learns of one id: its winning row, its first frame, and whether another came. */
  datatype IdScan = IdScan(bestRow: nat, bestEpoch: Epoch, firstFrame: Id, multiFrame: bool)

  type Scans = map<Id, IdScan>

  ghost predicate ScanHolds(rows: seq<Row>, id: Id, scan: IdScan) {
    && FirstLatest(rows, id) == Some(scan.bestRow)
    && scan.bestEpoch == rows[scan.bestRow].epoch
    && (scan.multiFrame || forall r :: r in rows && r.id == id ==> r.frame == scan.firstFrame)
  }

  ghost predicate ScansHold(rows: seq<Row>, scans: Scans) {
    && scans.Keys == IdsOf(rows)
    && forall id :: id in scans ==> ScanHolds(rows, id, scans[id])
  }

  /** One more row leaves the scans of the other ids as they were. */
  lemma OtherScansHold(rows: seq<Row>, row: Row, id: Id, scan: IdScan)
    requires ScanHolds(rows, id, scan) && row.id != id
    ensures ScanHolds(rows + [row], id, scan)
  {
    assert (rows + [row])[..|rows|] == rows;
  }

  lemma FirstScanHolds(rows: seq<Row>, row: Row)
    requires row.id !in IdsOf(rows)
    ensures ScanHolds(rows + [row], row.id, IdScan(|rows|, row.epoch, row.frame, false))
  {
    assert (rows + [row])[..|rows|] == rows;
    LatestIffSeen(rows, row.id);
  }

  lemma LatestIffSeen(rows: seq<Row>, id: Id)
    ensures FirstLatest(rows, id).Some? <==> id in IdsOf(rows)
  {
    if FirstLatest(rows, id).Some? {
      assert rows[FirstLatest(rows, id).value] in rows;
    }
  }

  lemma NextScanHolds(rows: seq<Row>, row: Row, scan: IdScan, next: IdScan)
    requires ScanHolds(rows, row.id, scan)
    requires next == IdScan(if scan.bestEpoch < row.epoch then |rows| else scan.bestRow,
                            if scan.bestEpoch < row.epoch then row.epoch else scan.bestEpoch,
                            scan.firstFrame,
                            scan.multiFrame || row.frame != scan.firstFrame)
    ensures ScanHolds(rows + [row], row.id, next)
  {
    assert (rows + [row])[..|rows|] == rows;
  }

  /** Takes the row at position `|seen|` into its id's scan. */
  method ScanRow(ghost seen: seq<Row>, row: Row, i: nat, scans: Scans) returns (next: Scans)
    requires i == |seen| && ScansHold(seen, scans)
    ensures ScansHold(seen + [row], next)
  {
    if row.id !in scans {
      FirstScanHolds(seen, row);
      next := scans[row.id := IdScan(i, row.epoch, row.frame, false)];
    } else {
      var scan := scans[row.id];
      if row.epoch > scan.bestEpoch {
        scan := scan.(bestEpoch := row.epoch, bestRow := i);
      }
      if row.frame != scan.firstFrame {
        scan := scan.(multiFrame := true);
      }
      NextScanHolds(seen, row, scans[row.id], scan);
      next := scans[row.id := scan];
    }
    ScansGrow(seen, row, scans, next);
  }

  lemma ScansGrow(seen: seq<Row>, row: Row, scans: Scans, next: Scans)
    requires ScansHold(seen, scans) && row.id in next && next == scans[row.id := next[row.id]]
    requires ScanHolds(seen + [row], row.id, next[row.id])
    ensures ScansHold(seen + [row], next)
  {
    assert IdsOf(seen + [row]) == IdsOf(seen) + {row.id};
    forall id | id in next
      ensures ScanHolds(seen + [row], id, next[id])
    {
      if id != row.id {
        OtherScansHold(seen, row, id, scans[id]);
      }
    }
  }

  /** Pass A: one sweep, which also rejects abstract ids at the first row that has one. */
  method ScanRows(rows: seq<Row>) returns (r: Result<Scans, IngestError>)
    ensures r.Err? <==> FirstAbstract(rows).Some?
    ensures r.Err? ==> FirstAbstract(rows) == Some(r.error)
    ensures r.Ok? ==> ScansHold(rows, r.value)
  {
    var scans: Scans := map[];
    for i := 0 to |rows|
      invariant FirstAbstract(rows[..i]).None?
      invariant ScansHold(rows[..i], scans)
    {
      var row := rows[i];
      assert rows[..i + 1] == rows[..i] + [row];
      assert rows[..i + 1][..i] == rows[..i];
      if row.id.IsAbstract() {
        FirstAbstractStays(rows, i + 1);
        return Err(AbstractEntity(i, row.id));
      }
      if row.frame.IsAbstract() {
        FirstAbstractStays(rows, i + 1);
        return Err(AbstractFrame(row.frame));
      }
      scans := ScanRow(rows[..i], row, i, scans);
    }
    assert rows[..|rows|] == rows;
    return Ok(scans);
  }

  lemma {:induction false} FirstAbstractStays(rows: seq<Row>, n: nat)
    requires n <= |rows| && FirstAbstract(rows[..n]).Some?
    ensures FirstAbstract(rows) == FirstAbstract(rows[..n])
  {
    if n == |rows| {
      assert rows[..n] == rows;
    } else {
      assert rows[..|rows| - 1][..n] == rows[..n];
      FirstAbstractStays(rows[..|rows| - 1], n);
    }
  }

  /** Every row of `id` repeats the parent the tree already has for it. */
  ghost predicate Clean(latest: Latest, rows: seq<Row>, id: Id) {
    forall r :: r in rows && r.id == id ==> ParentOf(latest, id) == Some(r.frame)
  }

  lemma CleanScan(latest: Latest, rows: seq<Row>, id: Id, scan: IdScan)
    requires ScanHolds(rows, id, scan) && !scan.multiFrame
    requires ParentOf(latest, id) == Some(rows[scan.bestRow].frame)
    ensures Clean(latest, rows, id)
  {
    assert rows[scan.bestRow] in rows;
  }

  /** Pass B: the winning row of every id, and the ids whose parent may have changed. */
  method FindDirty(latest: Latest, rows: seq<Row>, scans: Scans) returns (latestRows: map<Id, nat>, dirty: set<Id>)
    requires ScansHold(rows, scans)
    ensures latestRows == LatestRows(rows)
    ensures CleanOutside(latest, rows, dirty)
  {
    latestRows, dirty := map[], {};
    var remaining := scans.Keys;
    while remaining != {}
      invariant remaining <= scans.Keys
      invariant latestRows.Keys == scans.Keys - remaining
      invariant forall id :: id in latestRows ==> FirstLatest(rows, id) == Some(latestRows[id])
      invariant forall id :: id in latestRows && id !in dirty ==> Clean(latest, rows, id)
      decreases remaining
    {
      var id :| id in remaining;
      var scan := scans[id];
      assert ScanHolds(rows, id, scan);
      latestRows := latestRows[id := scan.bestRow];
      var winningFrame := rows[scan.bestRow].frame;
      if scan.multiFrame || id !in latest || latest[id].parent != winningFrame {
        dirty := dirty + {id};
      } else {
        CleanScan(latest, rows, id, scan);
      }
      remaining := remaining - {id};
    }
    AreLatestRows(rows, latestRows);
    AllClean(latest, rows, dirty);
  }

  lemma AreLatestRows(rows: seq<Row>, latestRows: map<Id, nat>)
    requires latestRows.Keys == IdsOf(rows)
    requires forall id :: id in latestRows ==> FirstLatest(rows, id) == Some(latestRows[id])
    ensures latestRows == LatestRows(rows)
  {
  }

  lemma AllClean(latest: Latest, rows: seq<Row>, dirty: set<Id>)
    requires forall id :: id in IdsOf(rows) && id !in dirty ==> Clean(latest, rows, id)
    ensures CleanOutside(latest, rows, dirty)
  {
    forall r | r in rows && r.id !in dirty
      ensures ParentOf(latest, r.id) == Some(r.frame)
    {
      assert Clean(latest, rows, r.id);
    }
  }

  /** Pass C: the dirty ids' rows in (id, epoch) order, an event at every change of parent. */
  method WalkDirty(latest: Latest, rows: seq<Row>, dirty: set<Id>) returns (events: seq<Event>, staged: Latest)
    requires CleanOutside(latest, rows, dirty)
    ensures events == NaiveEvents(latest, rows)
    ensures staged == Staged(events)
  {
    var dirtyRows: seq<Row> := [];
    for i := 0 to |rows|
      invariant dirtyRows == Filter(rows[..i], (r: Row) => r.id in dirty)
    {
      assert rows[..i + 1] == rows[..i] + [rows[i]];
      FilterSnoc(rows[..i], rows[i], (r: Row) => r.id in dirty);
      if rows[i].id in dirty {
        dirtyRows := dirtyRows + [rows[i]];
      }
    }
    assert rows[..|rows|] == rows;
    DirtyRowsSuffice(latest, rows, dirty);
    var sorted := StableSorted(dirtyRows);
    events, staged := WalkSorted(latest, sorted);
  }

  method WalkSorted(latest: Latest, sorted: seq<Row>) returns (events: seq<Event>, staged: Latest)
    ensures events == Changes(latest, sorted)
    ensures staged == Staged(events)
  {
    events, staged := [], map[];
    var groupId: Option<Id> := None;
    var runningParent: Option<Id> := None;
    for k := 0 to |sorted|
      invariant events == Changes(latest, sorted[..k])
      invariant staged == Staged(events)
      invariant k == 0 ==> groupId == None
      invariant k > 0 ==> groupId == Some(sorted[k - 1].id) && runningParent == Some(sorted[k - 1].frame)
    {
      var row := sorted[k];
      assert sorted[..k + 1][..k] == sorted[..k];
      if groupId != Some(row.id) {
        groupId := Some(row.id);
        runningParent := ParentOf(latest, row.id);
      }
      assert runningParent == RunningParent(latest, sorted[..k + 1], k);
      if runningParent != Some(row.frame) {
        runningParent := Some(row.frame);
        staged := staged[row.id := Edge(row.frame, row.epoch)];
        assert (events + [EventOf(row)])[..|events|] == events;
        events := events + [Event(row.id, row.frame, row.epoch)];
      }
    }
    assert sorted[..|sorted|] == sorted;
  }

  /** Walks up from every staged child, in whatever order the map yields them. */
  method CheckStaged(latest: Latest, staged: Latest) returns (ok: bool)
    ensures ok <==> forall child :: child in staged ==> !Revisits(Parents(latest) + Parents(staged), child)
  {
    var g := Parents(latest) + Parents(staged);
    var remaining := staged.Keys;
    while remaining != {}
      invariant remaining <= staged.Keys
      invariant forall child :: child in staged && child !in remaining ==> !Revisits(g, child)
      decreases remaining
    {
      var child :| child in remaining;
      var revisits := WalkUp(g, child);
      if revisits {
        return false;
      }
      remaining := remaining - {child};
    }
    return true;
  }
}
