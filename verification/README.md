# Transform topology and ledger: a verified model

A Dafny model of the part of this repository that decides where things are. Rows say that an entity has a pose in a frame
at an epoch. From them a tree of parents is derived, with a log of every change of parent; the rows themselves go into a
log-structured ledger that seals, splits and evicts under a memory limit, keeps a cache of latest poses, prunes queries by
segment, and composes poses along frame chains up to an astronomical root.

The proofs are about whole runs, batches and logs of any length:

- **Topology** (`FrameGraph`, `Topology`, `Trim`, `Ingest`, `IngestPasses`, `CycleCheck`, `Runs`, `Ancestry`, `Federation`,
  class `TransformTree`). The three-pass ingest refines a naive sort and walk; its cycle check is exact, except for
  backfilled batches, where the exact limit is stated; trimming history is invisible inside the window; grouping of batches
  does not matter; merges of peer logs converge.
- **Ledger** (`Segments`, `LedgerModel`, `Storage`, `LedgerRuns`, `Window`, `CurrentState`, `FullTies`, `Poses`,
  `Agreement`, `PresentResolution`, `FrameChains`, `LedgerAnswers`, `Backfills`, `Enforcement`, `Queries`, class `Ledger`). Every
  run of appends and limit changes is compared with the same run on a ledger that never evicts: rows are conserved, memory is
  bounded, current state, the window, parents, chains and poses agree where they should.
- **Projection** (`TransformBatch`, `LedgerTransform`, `Quaternions`, `WorldResolve`). The memoised batch projection is a
  row-wise map, and with an accurate almanac it moves no physical point; re-expressing a point between frames is
  invertible, compositional and rigid.
- **Ports** (`VisualizerTopology`, `TopoSim`). The visualizer's tree and the simulation's summary show the ledger's tree.

Code that updates state in place is modelled by classes and loops, each tied by its contract to a function of the state as
a value; what is promised is proved about those functions. Epochs are integer nanoseconds from J2000 TAI, within the range
of a duration. Poses and quaternions are over the reals. An id is its bytes split around the kind nibble, so that comparing
ids is comparing bytes. What depends on code outside the model is a parameter: `size` measures a batch built by a kernel,
the byte count of an incoming batch comes with it, and a `World` holds the almanac, unit ratios and timescales.

Two orders of rows matter. In an *entity-ordered* run no entity goes back in time from one batch to the next; in a
*time-ordered* run no row does.

Where the code falls short of an unconditional claim, the code is followed:

- `parent_at` scans the log by position (crates/spacetimestamp/src/topology.rs:164). Out of epoch order a later-logged event
  can hide the edge in force; `Topology.ParentAtIsInForceUnlessHidden` says exactly when.
- `trim_before` promises that `parent_at` is unchanged from the window's start on (crates/spacetimestamp/src/topology.rs:416).
  Trimming can drop an event that was hiding another; `Trim.ParentAtSurvivesUnlessExposed` says exactly when.
- The cycle check prefers a staged edge even when it is older than the current one (crates/spacetimestamp/src/topology.rs:388).
  A backfilled batch can close a cycle (`CycleCheck.BackfillSlipsThrough`), and one that changes nothing can be refused
  (`CycleCheck.HarmlessBackfillIsRefused`); `CycleCheck.CheckIsRightUnlessStaleLoop` says exactly when. What a cycle costs is
  `PresentResolution.PresentIsTotalIffAcyclic`.
- A merge skips repeated events (crates/spacetimestamp/src/topology.rs:555), but ingestion can log one twice, so an exported log
  need not restore its tree: an edge can come out different (`Federation.RepeatLosesTheEdge`), and the whole log can be refused
  as a cycle (`Federation.RepeatIsRefused`). `Federation.EmptyPeerLearnsEdge` and `Federation.EmptyPeerAcceptsUnlessLostLoop`
  say exactly when.
- On an epoch tie `parent_at` follows the last row and `resolve_frame_at` the first (crates/soloc-ledger/src/ledger.rs:774);
  `Agreement.TopologyAndPosesAgree` says exactly when that shows.
- `current_state` keeps the first row on a full tie (crates/soloc-ledger/src/ledger.rs:1040), while its comment
  (crates/soloc-ledger/src/ledger.rs:963) says the later one wins; `FullTies.LaterInsertionWinsIffFullTiesAgree` says exactly
  when that shows.
- `transform` builds a resolver only for batches with a soloc frame (crates/soloc-ledger/src/ledger.rs:709), and so refuses a
  row in the frame of a posed entity of unknown kind (`LedgerTransform.UnknownKindIsRefused`);
  `LedgerTransform.ProjectedUnlessSkippingShows` says exactly when.
- The comment on reloading says that a ledger built through appends cannot hold data that is refused
  (crates/soloc-ledger/src/ledger.rs:329). Sealing can join accepted backfills into a batch that is
  (`Backfills.SealedBackfillsDoNotReload`); `Backfills.ReloadRefusedForLoop` says exactly when.
- The window is called the epoch that the ledger holds in full from (crates/soloc-ledger/src/ledger.rs:567). A backfill moves
  its start to before rows that are gone (`Backfills.BackfillLeavesAGap`); `Backfills.WindowHeldUnlessBackfilled` and
  `Backfills.WindowHeldUnlessDroppedInside` say exactly when. In a time-ordered run it does hold in full (`Window`).
- The visualizer's tree lets a backfill replace a newer edge (`VisualizerTopology.PortRollsBack`);
  `VisualizerTopology.PortFollowsTheTree` says exactly when.

## Model

| member | source | states |
|---|---|---|
| `CurrentState.EvictionIsInvisible` | crates/soloc-ledger/src/ledger.rs:518-565 | For every run of appends and limit changes that appended a row, every id filter and every explicit or default cutoff, `current_state` of the limited ledger and of the one that never evicts have the same entities, at the same epochs and priorities |
| `Window.SameCurrentRows` | crates/soloc-ledger/src/ledger.rs:969-1069 | In a time-ordered run the two answer with the very same rows |
| `CurrentState.BestIsLatest` | crates/soloc-ledger/src/ledger.rs:1010-1069 | A row that `current_state` picks is always at its entity's latest epoch, so pinning the latest rows is enough |
| `FullTies.BestIsFirstUnbeaten` | crates/soloc-ledger/src/ledger.rs:1034-1050 | For all rows, id filter, cutoff and entity, the kept row is the one at the least index among the eligible rows that nothing beats |
| `FullTies.LaterInsertionWinsIffFullTiesAgree` | crates/soloc-ledger/src/ledger.rs:963-1050 | The rule of the comment, that later insertion wins, holds for every filter and every explicit or default cutoff if and only if for each entity the first and the last row of highest epoch and best priority are the same row |
| `FullTies.CurrentStateAnswers` | crates/soloc-ledger/src/ledger.rs:969-1050 | `current_state` answers for exactly the entities asked for that have a row not older than the cutoff, or without one than an hour before the newest row; each with the first of the best measured (MEASURED, ESTIMATED, SIMULATED) of its latest rows |
| `CurrentState.FullTieKeepsTheFirst` | crates/soloc-ledger/src/ledger.rs:963-1050 | Two rows of one entity on which it fails: of a full tie the first is kept |
| `CurrentState.ScanBest` | crates/soloc-ledger/src/ledger.rs:969-1069 | The scan over all segments finds the best eligible row per entity, ties kept as stored |
| `Agreement.TopologyAndPosesAgree` | crates/soloc-ledger/src/ledger.rs:739-789 | Over an entity-ordered run of accepted batches, `parent_at` names the frame of the pose that `resolve_frame_at` finds, for every entity and epoch, absence included, if and only if the first and last row of every epoch tie of one entity share a frame |
| `Agreement.TieShows` | crates/soloc-ledger/src/ledger.rs:774 | An accepted batch on which they differ |
| `LedgerAnswers.RunTopologyAndPosesAgree` | crates/soloc-ledger/src/ledger.rs:308-325 | The same of every entity-ordered run of a ledger that never had a limit |
| `Agreement.ParentIsLastBestFrame` | crates/spacetimestamp/src/topology.rs:159-169 | After such a run, `parent_at` is the frame of the last row of highest epoch not after the query |
| `Window.WindowIsComplete` | crates/soloc-ledger/src/ledger.rs:484-575 | In a time-ordered run every appended row strictly after the window start is stored, in append order, for any selection of such rows |
| `Window.WindowQueries` | crates/soloc-ledger/src/ledger.rs:628-661 | A range query starting after the window start selects what the ledger that never evicts selects, and answers alike when no sphere is asked for |
| `Window.WindowParents` | crates/soloc-ledger/src/ledger.rs:484-513 | `parent_at` matches the never-evicting ledger from the window start on |
| `Window.WindowAncestry` | crates/spacetimestamp/src/topology.rs:184-229 | So does `ancestry_at` |
| `Window.WindowPoses` | crates/soloc-ledger/src/ledger.rs:739-789 | So does `resolve_frame_at`, whenever the entity has a row after the window start up to the query, or the query is not before its latest row |
| `LedgerAnswers.WindowRoots` | crates/soloc-ledger/src/ledger.rs:727-732 | And `resolve_to_root`, whenever that is so of every hop of the chain |
| `Federation.FederationConverges` | crates/spacetimestamp/src/topology.rs:517-570 | Merging one collection of peer logs in any order and with any repetition, all merges accepted, ends with one event set and one parent for every child whose highest epoch names one parent |
| `Federation.ExchangeIsSymmetric` | crates/spacetimestamp/src/topology.rs:517-570 | Of two peers exchanging such logs, one merge is accepted iff the other is; both end with equal edges and events if and only if the merges are accepted |
| `Federation.AgreementNeedsOneTopParent` | crates/spacetimestamp/src/topology.rs:450-460 | All trees that accepted merges build from one set of events agree on a child's parent if and only if all ways of choosing a top event for each child that close no cycle do; one top parent is enough, and it is needed where no choice closes a cycle |
| `Federation.ChoiceIsReached` | crates/spacetimestamp/src/topology.rs:517-570 | Every such way of choosing comes of merging the events in some order, and is accepted when it closes no cycle |
| `Federation.CycleSettlesTheTie` | crates/spacetimestamp/src/topology.rs:560-570 | Two top parents on which accepted merges agree all the same, because one would close a cycle |
| `Federation.TiesFollowMergeOrder` | crates/spacetimestamp/src/topology.rs:450-460 | Otherwise whichever of the tied events is applied last wins |
| `Federation.MergeIsIdempotent` | crates/spacetimestamp/src/topology.rs:508-516 | Merging a log again finds nothing new and changes nothing |
| `Federation.EmptyPeerLearnsAll` | crates/spacetimestamp/src/topology.rs:470-570 | Export then merge into an empty tree restores log and edges if and only if no event is logged twice and the tree has no cycle |
| `Federation.EmptyPeerLearnsEdge` | crates/spacetimestamp/src/topology.rs:470-570 | It restores a child's edge if and only if the merge is accepted and no event of the child as late as the edge was logged for the first time after it |
| `Federation.EmptyPeerAcceptsUnlessLostLoop` | crates/spacetimestamp/src/topology.rs:560-570 | That merge is accepted if and only if the edges it learns as they are have no cycle, as in an acyclic tree, and no walk up from a child whose edge is lost comes back |
| `Federation.RepeatLosesTheEdge` | crates/spacetimestamp/src/topology.rs:517-570 | An ingested batch whose log, merged into an empty tree, leaves the entity under another parent |
| `Federation.RepeatIsRefused` | crates/spacetimestamp/src/topology.rs:565 | An ingested batch that leaves an acyclic tree, whose log an empty tree refuses as a cycle |
| `Federation.MergedAllKeeps` | crates/spacetimestamp/src/topology.rs:560-570 | Any sequence of merges, accepted or not, keeps the graph acyclic and `latest` the replay of the log |
| `Runs.GroupingDoesNotMatter` | crates/spacetimestamp/src/topology.rs:242-411 | Accepted, entity-ordered batches may be ingested in any concatenation of consecutive whole batches: all accepted, same edges, same events per child |
| `Runs.RunAsOneBatch` | crates/spacetimestamp/src/topology.rs:242-411 | In particular as one batch |
| `PresentResolution.ReloadRebuildsDerivedState` | crates/soloc-ledger/src/ledger.rs:331-342 | Reloading batches merged whole, in order, rebuilds edges, histories and pose cache |
| `CycleCheck.IngestCheckIsExact` | crates/spacetimestamp/src/topology.rs:371-405 | From an acyclic tree, when no staged edge both predates and differs from its child's current edge, the check passes iff the committed graph of soloc-parent edges is acyclic |
| `CycleCheck.CheckIsRightUnlessStaleLoop` | crates/spacetimestamp/src/topology.rs:371-411 | For any batch on an acyclic tree, the check agrees with the committed graph if and only if the edges that are not stale have a cycle, or a stale child's walk comes back along both the checked and the committed edges or along neither |
| `CycleCheck.CheckDecidesCheckedGraph` | crates/spacetimestamp/src/topology.rs:371-405 | For any batch the check is exact about the graph it walks: base edges overridden by staged ones |
| `CycleCheck.CommittedIsChecked` | crates/spacetimestamp/src/topology.rs:371-411 | The committed graph is the checked one if and only if no staged edge is older than its child's current edge and names another parent |
| `CycleCheck.AcceptedLeavesAcyclic` | crates/spacetimestamp/src/topology.rs:371-411 | An accepted batch leaves the graph acyclic iff no stale child's walk comes back along its current edge and the edges that are not stale |
| `CycleCheck.HarmlessIsRefusedForStaleLoop` | crates/spacetimestamp/src/topology.rs:371-411 | A batch that would leave the graph acyclic is refused iff a stale child's walk comes back along the edges the check uses |
| `CycleCheck.HarmlessBackfillIsRefused` | crates/spacetimestamp/src/topology.rs:388 | A backfilled row that the check refuses as a cycle though committing it would change no edge |
| `CycleCheck.BackfillSlipsThrough` | crates/spacetimestamp/src/topology.rs:388 | A backfilled batch that the check accepts and that closes a cycle |
| `FrameGraph.OverrideAcyclic` | crates/spacetimestamp/src/topology.rs:371-405 | Overriding edges of an acyclic graph closes a cycle only through an overridden child |
| `FrameGraph.AcyclicIffNoRevisit` | crates/spacetimestamp/src/topology.rs:573-598 | A graph is acyclic iff no upward walk revisits a node |
| `FrameGraph.WalkUp` | crates/spacetimestamp/src/topology.rs:376-404 | The walk with its visited set terminates and reports a revisit exactly when there is one |
| `LedgerRuns.AppendAnswers` | crates/soloc-ledger/src/ledger.rs:308-325 | An append is refused for the first abstract frame if a row has one, else for the first abstract entity, else for a cycle where the check finds one |
| `LedgerRuns.AbstractIsRefused` | crates/spacetimestamp/src/topology.rs:242-300 | Ingesting refuses exactly the batches that name an abstract id, for the first row that does |
| `Enforcement.EvictionTrimsTheLog` | crates/soloc-ledger/src/ledger.rs:484-513 | After any step that evicts, no child has two events in the log from before the oldest row outside `pinned` |
| `Enforcement.EvictionPinsLatestRows` | crates/soloc-ledger/src/ledger.rs:518-565 | And no pinned row is older than any row of its entity ever appended |
| `Enforcement.SmallAppendIsKept` | crates/soloc-ledger/src/ledger.rs:408-415 | An accepted append that leaves the tail within fifty batches and its bytes, and the account within the limit, is put on the tail and nothing else is touched |
| `Enforcement.TailIsBounded` | crates/soloc-ledger/src/ledger.rs:584-602 | After every accepted append the tail is within fifty batches, 256 MiB and an eighth of the limit |
| `Enforcement.RoomyLimitTakesNothing` | crates/soloc-ledger/src/ledger.rs:436-480 | A limit that the account is within, with no sealed segment over its target by an eighth, changes nothing else |
| `Enforcement.SealedSegmentsAreCut` | crates/soloc-ledger/src/ledger.rs:454-480 | At every reachable ledger a sealed segment is within an eighth over the target or a single row, when batches take the same bytes per row wherever built |
| `Enforcement.SegmentsAreMeasured` | crates/soloc-ledger/src/ledger.rs:518-549 | Every segment is accounted at its own batch's bytes, and pinned rows at what they measure |
| `LedgerRuns.RowsAreConserved` | crates/soloc-ledger/src/ledger.rs:462-602 | At every reachable state the appended rows are the disjoint union of stored and evicted rows, and each evicted row is strictly older than a row of its entity |
| `LedgerRuns.UnlimitedKeepsAll` | crates/soloc-ledger/src/ledger.rs:584-602 | With no limit the stored rows are exactly the appended rows in order, through every seal and split |
| `LedgerRuns.BytesAreAccounted` | crates/soloc-ledger/src/ledger.rs:412-549 | `resident_bytes` is the sum over pinned, sealed and tail in every reachable ledger |
| `LedgerRuns.MemoryIsBounded` | crates/soloc-ledger/src/ledger.rs:412-549 | After an accepted append under limit L the ledger is within L, or has no sealed segment and holds only pinned bytes and a tail of at most 50 batches and max(1, L/8) bytes |
| `LedgerRuns.RunTracks` | crates/soloc-ledger/src/ledger.rs:308-325 | The invariant of all runs: account and epoch ranges exact, pose cache and edges those of all accepted rows, every latest row stored as often as appended |
| `Storage.EvictionDropsOnlyOlder` | crates/soloc-ledger/src/ledger.rs:518-565 | One eviction keeps every row at its entity's latest epoch with its multiplicity, and adds none |
| `Storage.SealKeepsRows` | crates/soloc-ledger/src/ledger.rs:584-602 | Sealing keeps the row sequence, the account and exact epoch ranges, and leaves the tail within its bounds |
| `Storage.SplitKeepsLedgerRows` | crates/soloc-ledger/src/ledger.rs:462-480 | Splitting sealed segments keeps the row sequence and the account |
| `Storage.WindowStartIsOldest` | crates/soloc-ledger/src/ledger.rs:568-575 | The window starts at the oldest row outside `pinned` |
| `Storage.GreatestEpochIsGreatest` | crates/soloc-ledger/src/ledger.rs:950-957 | The greatest `max_epoch` is the epoch of the newest stored row |
| `Segments.SplitKeepsRows` | crates/soloc-ledger/src/ledger.rs:186-203 | Splitting an oversized batch keeps its rows in order, with exact epoch ranges |
| `Segments.ChunksAreSmall` | crates/soloc-ledger/src/ledger.rs:193-202 | Each chunk is measured afresh, is not empty and is within the row count asked for |
| `Segments.ChunksAreFull` | crates/soloc-ledger/src/ledger.rs:193-202 | All chunks but the last have the row count asked for |
| `Segments.ChunksFitTarget` | crates/soloc-ledger/src/ledger.rs:186-203 | A chunk of a batch that is split is one row or has its share of the bytes within the target; one that measures no more than its share is within the target |
| `Trim.TrimPreservesInForce` | crates/spacetimestamp/src/topology.rs:420-443 | For any log, the edge in force at every epoch from the window start on is unchanged |
| `Trim.ParentAtSurvivesUnlessExposed` | crates/spacetimestamp/src/topology.rs:416-443 | `parent_at` answers the same for every epoch from the window start on, as the comment promises, if and only if no dropped event was hiding an earlier-logged kept one that names another parent |
| `Trim.TrimCanChangeParentAt` | crates/spacetimestamp/src/topology.rs:416-443 | A log for which it does not |
| `Trim.TrimPreservesParentAt` | crates/spacetimestamp/src/topology.rs:420-443 | For logs epoch-sorted per child it does |
| `Trim.TrimKeepsCoherent` | crates/spacetimestamp/src/topology.rs:420-443 | `latest` stays the replay of the trimmed log |
| `Trim.TrimLeavesOnePerChild` | crates/spacetimestamp/src/topology.rs:420-443 | At most one event per child is left from before the window |
| `Trim.TrimTwice` | crates/spacetimestamp/src/topology.rs:420-443 | Trimming to w1 and then to w2, with w1 not after w2, is trimming to w2 |
| `Topology.ParentAtIsInForceUnlessHidden` | crates/spacetimestamp/src/topology.rs:159-169 | For a coherent tree `parent_at` names the edge in force at every epoch if and only if no later-logged, older event of the child with another parent hides one that is in force before the current edge |
| `Topology.ParentAtIsInForce` | crates/spacetimestamp/src/topology.rs:159-169 | In particular when the log is epoch-sorted per child, or the query is not before the current edge |
| `Topology.UnsortedLogMisleadsParentAt` | crates/spacetimestamp/src/topology.rs:159-169 | An unsorted log for which it names another |
| `Topology.InForceIsTop` | crates/spacetimestamp/src/topology.rs:420-443 | The edge in force is the event of highest epoch up to the query, the later logged on ties |
| `Poses.CacheNeverDisagrees` | crates/soloc-ledger/src/ledger.rs:739-789 | For any history of rows, backfills and ties included, the answer with its cache is what the scan would find, at every epoch |
| `LedgerAnswers.RunLookupsAreScans` | crates/soloc-ledger/src/ledger.rs:739-789 | So on every run of a ledger that never had a limit, `resolve_frame_at` returns what the scan of its stored rows alone would |
| `Poses.LookupIsFirstRow` | crates/soloc-ledger/src/ledger.rs:739-789 | The answer is frame and pose of the entity's first row of highest epoch up to the query, or nothing when it has none |
| `LedgerAnswers.LookupIsAStoredRow` | crates/soloc-ledger/src/ledger.rs:739-789 | On every reachable ledger the answer is frame and pose of a stored row of the entity, of highest epoch up to the query, or nothing when no stored row is |
| `Poses.RefreshIsCacheOfAll` | crates/soloc-ledger/src/ledger.rs:375-408 | Refreshing the cache batch by batch builds the cache of the whole history |
| `FrameChains.HopResolves` | crates/soloc-ledger/src/ledger.rs:814-846 | A hop met on a chain resolves on its own to the chain's root and the product of poses from there down to it |
| `FrameChains.ResolvedPlacesPoints` | crates/soloc-ledger/src/ledger.rs:814-846 | Whatever resolves is placed by its parent: a point is turned and moved by the node's own pose and then placed as the parent's points are, unless the parent is the root; and the parent resolves to the same root |
| `LedgerAnswers.RootsPlacePoints` | crates/soloc-ledger/src/ledger.rs:727-732 | So on every reachable ledger |
| `FrameChains.FrameMapPlacesPoints` | crates/soloc-ledger/src/ledger.rs:795-846 | And so every entry of the frame map by the entry of its parent; the entries are those of the nodes below the root on the chains of the ids asked for |
| `FrameChains.NotFoundNearestRoot` | crates/soloc-ledger/src/ledger.rs:827-841 | A chain fails iff a node below the root has no pose, and reports the one nearest the root |
| `FrameChains.FrameMapIgnoresOrder` | crates/soloc-ledger/src/ledger.rs:795-812 | Two frame maps for the same ids in any order and repetition are equal |
| `Ancestry.HopChainIsSuffix` | crates/spacetimestamp/src/topology.rs:184-229 | A hop's chain is the rest of the chain it was met in |
| `Ancestry.AncestryIsTheChain` | crates/spacetimestamp/src/topology.rs:184-229 | `ancestry_at` answers with a chain iff it is the repeat-free parent chain from the entity to a terminal id |
| `Ancestry.AncestryFaults` | crates/spacetimestamp/src/topology.rs:184-229 | It reports a node without parent exactly when the walk up ends there, and a cycle at a node exactly when the walk comes to it a second time |
| `Ancestry.PresentChainExists` | crates/spacetimestamp/src/topology.rs:184-229 | With all edges in effect and no cycle every known entity has a chain |
| `PresentResolution.PresentResolutionIsTotal` | crates/soloc-ledger/src/ledger.rs:727-846 | After any run that leaves no cycle, with or without limits, every ingested entity resolves at or after all ingested epochs, along a repeat-free chain |
| `PresentResolution.PresentIsTotalIffAcyclic` | crates/soloc-ledger/src/ledger.rs:727-846 | After any run all ingested entities resolve at the present if and only if the tree has no cycle, and an entity-ordered run leaves none |
| `LedgerAnswers.PresentSurvivesEviction` | crates/soloc-ledger/src/ledger.rs:417-419 | After any run, in any order and under any limits, every chain, root and pose at or after all appended rows is that of the ledger that never evicts, faults included |
| `Backfills.WindowHeldUnlessDroppedInside` | crates/soloc-ledger/src/ledger.rs:518-575 | An eviction keeps a ledger holding every row after its window start if and only if no superseded row it drops is after the start it leaves |
| `Backfills.WindowHeldUnlessBackfilled` | crates/soloc-ledger/src/ledger.rs:412-415 | An append keeps it so if and only if no new row is older than a row already lost |
| `Backfills.BackfillLeavesAGap` | crates/soloc-ledger/src/ledger.rs:568-575 | A backfilled run under a limit in which a row after the window start is gone |
| `Backfills.ReloadRefusedForLoop` | crates/soloc-ledger/src/ledger.rs:327-342 | Accepted batches, merged whole in groups, are refused on reload if and only if, in some group taken as one batch, the walk up from a staged child comes back |
| `Backfills.SealedBackfillsDoNotReload` | crates/soloc-ledger/src/ledger.rs:327-342 | A ledger built through appends whose sealed batches a reload refuses as a cycle |
| `Ingest.DirtyRowsSuffice` | crates/spacetimestamp/src/topology.rs:303-369 | Sorting and walking only the rows of dirty ids logs exactly what sorting and walking all rows does |
| `Ingest.EventsPerChild` | crates/spacetimestamp/src/topology.rs:329-369 | A batch's events for one entity come from that entity's rows alone, in stable epoch order |
| `IngestPasses.ScanRows` | crates/spacetimestamp/src/topology.rs:252-300 | Pass A finds each id's first row of highest epoch and whether its frames differ, and rejects the first abstract id |
| `IngestPasses.FindDirty` | crates/spacetimestamp/src/topology.rs:302-327 | Pass B leaves clean only ids whose every row repeats the current parent |
| `IngestPasses.WalkDirty` | crates/spacetimestamp/src/topology.rs:329-369 | Pass C emits exactly the events of stably sorting all rows by id and epoch and logging each parent change |
| `IngestPasses.CheckStaged` | crates/spacetimestamp/src/topology.rs:371-405 | The check accepts iff no walk up from a staged child revisits a node |
| `TransformTrees.TransformTree.IngestBatch` | crates/spacetimestamp/src/topology.rs:242-411 | Verdict, events, winning rows and new tree are those of the naive derivation; a rejected batch changes nothing |
| `TransformTrees.TransformTree.ApplyEvent` | crates/spacetimestamp/src/topology.rs:450-460 | Logs the event, and makes it current unless the current edge is newer |
| `TransformTrees.TransformTree.FindParentAt` | crates/spacetimestamp/src/topology.rs:159-169 | The current edge if in effect, else the last logged event not after the query |
| `TransformTrees.TransformTree.FindAncestry` | crates/spacetimestamp/src/topology.rs:184-229 | The loop computes the chain, or reports where it breaks or loops |
| `TransformTrees.TransformTree.TrimBefore` | crates/spacetimestamp/src/topology.rs:420-443 | Keeps the window and each child's edge in force before it, and counts what it drops |
| `TransformTrees.TransformTree.ToLogBatch` | crates/spacetimestamp/src/topology.rs:470-500 | The exported columns decode to the log |
| `TransformTrees.TransformTree.MergeLogBatch` | crates/spacetimestamp/src/topology.rs:517-570 | A merge takes all novel events or, when that would close a cycle, none |
| `TransformTrees.TransformTree.CheckAcyclic` | crates/spacetimestamp/src/topology.rs:573-598 | Answers whether the current edges are acyclic |
| `Ledgers.Ledger.Append` | crates/soloc-ledger/src/ledger.rs:308-325 | The new state is that of the model; a refused batch leaves every field as it was |
| `Ledgers.Ledger.UpdatePoseCache` | crates/soloc-ledger/src/ledger.rs:375-408 | An entity's winning row replaces its cached pose only if strictly later |
| `Ledgers.Ledger.SetMemoryLimit` | crates/soloc-ledger/src/ledger.rs:436-449 | Splits sealed segments, then evicts down to the limit |
| `Ledgers.Ledger.SplitSealedSegments` | crates/soloc-ledger/src/ledger.rs:462-480 | Cuts each oversized sealed segment, in order, and moves the account by the difference |
| `Ledgers.Ledger.SealTailIfNeeded` | crates/soloc-ledger/src/ledger.rs:584-602 | Seals a full tail as one batch cut to size |
| `Ledgers.Ledger.EnforceMemoryLimit` | crates/soloc-ledger/src/ledger.rs:484-513 | Evicts until within the limit or no sealed segment is left, then trims the log to the window; the loop ends |
| `Ledgers.Ledger.EvictOldestSegment` | crates/soloc-ledger/src/ledger.rs:518-549 | Drops the first segment of least `max_epoch` and pins its rows that are still latest |
| `Ledgers.Ledger.RunQuery` | crates/soloc-ledger/src/ledger.rs:628-650 | The segment-pruned query, errors included |
| `Ledgers.Ledger.StreamQuery` | crates/soloc-ledger/src/ledger.rs:655-661 | The outcome of each visited batch in order |
| `Ledgers.Ledger.FindCurrentState` | crates/soloc-ledger/src/ledger.rs:969-1069 | The best row of every wanted entity, with the default cutoff an hour before the latest stored epoch |
| `Ledgers.Ledger.ResolveFrameAt` | crates/soloc-ledger/src/ledger.rs:739-789 | The cached pose when not after the query, else the scan's |
| `Ledgers.Ledger.AccumulatePosesToRoot` | crates/soloc-ledger/src/ledger.rs:814-846 | Enters every hop of the chain with its product from the root, or fails as resolving alone fails |
| `Ledgers.Ledger.BuildDynamicFrameMap` | crates/soloc-ledger/src/ledger.rs:795-812 | Succeeds iff every id resolves; every entry is what its key resolves to alone, and the keys are all hops met |
| `Ledgers.Ledger.FindRoot` | crates/soloc-ledger/src/ledger.rs:727-732 | The root and pose of one entity, or nothing |
| `Ledgers.Ledger.RebuildDerivedState` | crates/soloc-ledger/src/ledger.rs:331-342 | Replays the stored batches into tree and cache, stopping iff one must be refused |
| `Queries.PruningIsSound` | crates/soloc-ledger/src/ledger.rs:628-661 | On every reachable ledger holding a batch a query succeeds iff no sphere is asked of a segment of mixed frames that it reads; then query and stream yield exactly the row-by-row filter of the stored sequence |
| `Queries.QueryAnswers` | crates/spacetimestamp/src/query.rs:78-125 | On every reachable ledger a query, and a stream, yields each stored row in the range, both ends included, and in the ball as often as it is stored, and no other; it succeeds iff no sphere is asked for or every stored batch is of one frame or all before or all after the range |
| `Queries.UniformQueriesSucceed` | crates/soloc-ledger/src/ledger.rs:628-661 | A time-only filter, or any filter on rows of one frame, always succeeds |
| `Queries.FilterRows` | crates/spacetimestamp/src/query.rs:78-125 | The mask loop keeps exactly the rows that pass, in order, or reports mixed frames |
| `Queries.MixtureIsFirst` | crates/spacetimestamp/src/query.rs:129-152 | A mixed batch is reported by its first frame and the first that differs |
| `Queries.CheckFrameUniformity` | crates/spacetimestamp/src/query.rs:129-152 | Finds the first frame and the first that differs from it |
| `TransformBatches.TransformBatch` | crates/spacetimestamp/src/transforms.rs:112-293 | The loop with its three caches computes the row-by-row projection, first fault included |
| `TransformBatches.RowByRow` | crates/spacetimestamp/src/transforms.rs:157-293 | Output row i is row i projected alone; a failing batch fails with the fault of its first failing row |
| `TransformBatches.FailsIffSomeRowFails` | crates/spacetimestamp/src/transforms.rs:157-293 | A batch fails iff some row fails on its own |
| `TransformBatches.TransformOfConcat` | crates/spacetimestamp/src/transforms.rs:157-293 | Projection commutes with concatenation, faults included |
| `TransformBatches.RowFaults` | crates/spacetimestamp/src/transforms.rs:189-274 | When a row cannot be projected and with which fault; the J2000 rotation is needed only between different centers and into axes that are not J2000 |
| `TransformBatches.PlaceAloneChanges` | crates/spacetimestamp/src/transforms.rs:280-292 | Source, estimate, timescale, epoch parts and other columns stay; frame and unit become the target's; covariances are dropped |
| `TransformBatches.ProjectionKeepsEveryPoint` | crates/spacetimestamp/src/transforms.rs:210-274 | With an almanac that reports a physical world, every point fixed to a row's body is at the same place before and after, with where it was spelled out by the resolver's pose and the root's: the J2000 rotation of the translation is what makes it so |
| `TransformBatches.ProjectionsCompose` | crates/spacetimestamp/src/transforms.rs:210-274 | Projecting by way of another astronomical frame puts every point where projecting directly does |
| `TransformBatches.EveryWorldIsReported` | crates/spacetimestamp/src/transforms.rs:29-35 | There is such an almanac for every world of placed frames with unit orientations, turned frames included |
| `TransformBatches.EveryWorldIsSettled` | crates/spacetimestamp/src/transforms.rs:29-35 | And it leaves every astronomical target in place, which projecting twice relies on |
| `TransformBatches.StandsIsAWorld` | crates/spacetimestamp/src/transforms.rs:29-35 | There are worlds in which frames turn and stand apart |
| `TransformBatches.ProjectionIsIdempotent` | crates/spacetimestamp/src/transforms.rs:112-293 | Projecting a projected batch again changes nothing, with an almanac that leaves the target in place |
| `LedgerTransform.LedgerProjectionKeepsEveryPoint` | crates/soloc-ledger/src/ledger.rs:701-732 | On every reachable ledger, a row in an entity's frame is projected to where the ledger's own chain of poses puts it |
| `LedgerTransform.SkippingTheResolverIsSafe` | crates/soloc-ledger/src/ledger.rs:708-716 | Not building the resolver changes nothing when every row's frame is soloc, astronomical, unresolved, or its own root |
| `LedgerTransform.SkippingShowsInOneRow` | crates/soloc-ledger/src/ledger.rs:708-716 | On a batch of one row it changes the outcome if and only if the frame is none of these |
| `LedgerTransform.ProjectedUnlessSkippingShows` | crates/soloc-ledger/src/ledger.rs:701-716 | A batch of any length is projected if and only if the ledger's chains place every row and it has a row in a soloc frame or none in whose frame skipping shows; the output is then what the chains call for |
| `LedgerTransform.UnknownKindIsRefused` | crates/soloc-ledger/src/ledger.rs:708-716 | A reachable ledger and a row in the frame of a posed entity of unknown kind, refused though the resolver would have placed it |
| `Quaternions.RotateByProduct` | visualizer/src/core/quat.ts:6-33 | For unit quaternions, rotating by a product is rotating by one after the other, and the product is unit |
| `Quaternions.RotateIsConjugation` | visualizer/src/core/quat.ts:21-33 | The rotation formula is conjugation by the quaternion |
| `Quaternions.RotateBack` | visualizer/src/core/quat.ts:16-33 | The conjugate undoes the rotation, either way round |
| `Quaternions.RotateKeepsLength` | visualizer/src/core/quat.ts:21-33 | Rotation keeps lengths |
| `Quaternions.HamiltonProduct` | visualizer/src/core/quat.ts:6-15 | The product is Hamilton's, not its reverse |
| `Quaternions.TurnsCounterClockwise` | visualizer/src/core/quat.ts:21-33 | A turn about z takes x towards y by twice the half angle |
| `Quaternions.NormOfMul` | visualizer/src/core/quat.ts:6-15 | The norm is multiplicative |
| `Quaternions.MulAssociates` | visualizer/src/core/quat.ts:6-15 | The product is associative |
| `Quaternions.ComposeAssociates` | visualizer/src/core/worldResolve.ts:35-39 | Composition of poses is associative, so a chain's product does not depend on bracketing |
| `WorldResolve.WorldPoseIsUnit` | visualizer/src/core/worldResolve.ts:30-40 | The world orientation stays unit along any chain, cut off or not |
| `WorldResolve.ReexpressRoundTrip` | visualizer/src/core/worldResolve.ts:43-49 | From A to B and back to A at one epoch is the identity |
| `WorldResolve.ReexpressComposes` | visualizer/src/core/worldResolve.ts:43-49 | From A by way of B to C is from A to C |
| `WorldResolve.ReexpressIsRigid` | visualizer/src/core/worldResolve.ts:43-49 | Distances do not depend on the frame |
| `WorldResolve.ShortcutAgrees` | visualizer/src/core/worldResolve.ts:43-49 | The early return for equal frames gives what the formula gives |
| `WorldResolve.GuardIsInvisible` | visualizer/src/core/worldResolve.ts:30-40 | The depth guard does not show where the chain ends before it |
| `WorldResolve.ReexpressIntoParent` | visualizer/src/core/worldResolve.ts:30-49 | A point of a posed frame is placed in its parent frame by the sample alone, when the chain ends before the guard |
| `VisualizerTopology.TransformTopology.Ingest` | visualizer/src/core/topology.ts:47-72 | Emits exactly the events the Rust tree derives, in the same order, and makes the last of each entity current |
| `VisualizerTopology.PortAgreesUnlessRolledBack` | visualizer/src/core/topology.ts:47-72 | Its current edges are the Rust tree's iff no entity's last new event is older than its current edge |
| `VisualizerTopology.PortFollowsTheTree` | visualizer/src/core/topology.ts:47-72 | An accepted batch leaves the two trees equal if and only if it rolls nothing back |
| `VisualizerTopology.PortRollsBack` | visualizer/src/core/topology.ts:47-72 | An accepted backfill that moves the port's edge and not the tree's |
| `VisualizerTopology.TransformTopology.FindParentAt` | visualizer/src/core/topology.ts:94-103 | The query is the Rust tree's |
| `VisualizerTopology.TransformTopology.ChainAt` | visualizer/src/core/topology.ts:111-124 | The chain ends where a parent is missing, repeated or not posed |
| `VisualizerTopology.PortChainIsThePath` | visualizer/src/core/topology.ts:111-124 | The port's chain is the repeat-free path of parents up from the entity, as far as it goes |
| `VisualizerTopology.PortChainAgrees` | visualizer/src/core/topology.ts:111-124 | Where the Rust tree has a chain the port's begins with it, and equals it when nothing poses its terminal frame |
| `TopoSim.EventsFromRows` | examples/sim_study_0/tools/topo_sim.py:28-53 | For every entity these are the events a tree logs for the same rows |
| `TopoSim.TreeAt` | examples/sim_study_0/tools/topo_sim.py:56-62 | Each child is under its edge in force at the instant |
| `TopoSim.SummaryShowsTheTree` | examples/sim_study_0/tools/topo_sim.py:28-62 | For rows appended as any accepted, entity-ordered run, the summary's parent at every instant is the ledger's `parent_at` |

## Left out

- Arrow buffers, IPC, schemas and metadata: a batch is a sequence of rows, and its bytes are given; batches that a kernel
  built are measured by an uninterpreted `size`.
- Timescale conversion and f64 rounding: rows are TAI with integer epochs, poses are over the reals, and a stored pose is
  already in kilometres with a normalised quaternion.
- SPICE kernels: the almanac is a pure function that may fail. `Reports` and `Settled` state what a lemma assumes of it.
- Ledgers without an id column, including the error of `set_memory_limit` for them and row-index keys in `current_state`.
- Null or undecodable ids and frames, and unrecognised vocabulary codes, which are refused before anything else happens.
- Allocation failures in sealing, splitting and evicting, and the over-budget warning flag.
- Loaded files that bypassed `append`, and reloading a ledger after a batch was split mid-batch.
- `latest_snapshot`, the name registry, minting of ids, saving and loading as such, the gRPC service and its locks.
- Merges inside a ledger run: the runs of `LedgerModel` are appends and limit changes. Merging is proved on trees.
- The order of the rows that `current_state` returns, which follows a hash map: the result is a map from entity to row.
- Interpolation of the visualizer's timelines: a timeline is any function from epochs to samples.
- Rendering, user interface, simulation geometry and plots.
- LedgerTransform.SkippingTheResolverIsSafe: `transform` is modelled on values; a closure over the mutable ledger is not
  captured.
