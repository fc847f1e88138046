# fabriq, verified

Fabriq keeps the same data in several places and keeps them in agreement: analytics rows
in two very different engines, paths derived from parent links, cached copies of rows, a
remote stream of deltas, a registry rebuilt from persisted descriptors, a graph projection.
This project models those parts in Dafny and proves what they promise, over every input,
every run or every reachable state.

`dafny verify dfyconfig.toml` checks everything.

## Layout

| files | part of the system |
|---|---|
| `MergeTree`, `AnalyticsModel`, `ClickHouseSink`, `DuckSink`, `SinkRefinement`, `SinkRuns` | the two analytics sinks; ClickHouse as bags of ranked rows with merges at any time, DuckDB as one row per key, the refinement between them, and whole runs |
| `FsForest`, `FsMove`, `FsPath`, `FsTree`, `FsWalk`, `FsOps` | the file tree: ancestry, the move protocol, printing and resolving paths, the subtree walk, the operations |
| `CacheTiers`, `CacheKeys`, `CacheNode`, `CacheReads`, `CacheSystem` | the two-tier row cache: one tier, the text of its keys, one node's classes, reads, and many nodes with a database and an event log |
| `LiveBuffer`, `LiveStream` | the remote live query: the delta buffer with its pump, and the joined client, channels and server |
| `Sweeper`, `SweepGate` | the debounced distillation sweeper and its per-tenant gate |
| `DynamicCodec`, `DynamicBind`, `DynamicSync`, `DynamicTables` | dynamic entities: descriptor codec and growth test, schema binding, registry sync, lifecycle steps with crashes |
| `GraphReplay`, `GraphCompile` | graph mutations: query semantics and replay, compilation and quoting |
| `CatalogScan`, `BlobStream`, `WireFilter` | catalog paging and compare-and-set, blob chunk streams, the filter wire codec |
| `Wrappers`, `StringOrder`, `SeqFacts` | options; byte-wise string order; sequences without repetition |

## Reading guide

- Operations that change state are classes or methods with loops; each is proved against
  a function or predicate on values, and the theorems are about those.
- Concurrent parts are state machines over atomic steps: a locked section, a channel
  operation, a statement or a transaction is one step. A `Run` is any sequence of enabled
  steps; theorems about runs hold at every position.
- Calls into code outside the model (registry validation, table creation, the database, the
  clock, fresh ids, SQL engines) are parameters or environment steps.

Where a promise does not hold as it stands, the exact condition is proved instead:

- The ClickHouse rank leaves 2^20 slots per version of a fact; the sinks agree as long as no
  version is rewritten that often (`AdmissibleIff`, `LastSlotBreaks`).
- The SQL and the portable cycle check differ on chains of 513 and 514 nodes (`ChecksAgree`).
- RenameNode echoes the new path only if the old name has no slash (`RenameEcho`), and a
  node created or moved below a parent at the depth bound gets a path that can no longer be
  printed (`EchoBelow`).
- On SQL the subtree query stops at depth 512 without an error, so a permanent delete can
  leave orphans and a trash can leave live rows (`SubtreeComplete`, `TrashedBelow`,
  `DeepDeleteOrphans`). The comment on `descendantNodes` calls the two walks identical, the
  one on `descendantsAdjacencyWalk` names the difference; the model follows the code.
- Every persisted descriptor names an existing table only as long as no dropped table is
  named by another row and no drop takes effect while its reply is lost (`StepExact`,
  `RowsBackedIff`, `DropIsSafeIff`, `SharedTableBreaks`, `CodeTypeBreaks`, `LostDropBreaks`).
  A sync repairs such a row only on an instance to which the row is new or looks changed
  (`HealsIff`, `LostDropHealsIff`).
- A cache fill that is not one step with its load is coherent exactly if no commit in
  between changed the row, or the last one wrote the value loaded (`LateFill`).
- The growth test is reflexive exactly on specs in which every column and index is the last
  of its name (`AdditiveReflexive`, `RepeatedNameIsNotReflexive`).
- Cache keys of two entities collide exactly when one name is the other continued by the
  text of a key (`SharedKeysCollideIff`, `LocalKeysCollideIff`). The tiers of `CacheSystem`
  use records as keys, so its theorems rest on names of which none continues another
  (`TextStandsForRecords`).
- Putting a replaced descriptor back restores the registry exactly when the old spec still
  validates (`ReplaceUndoes`); the sync keeps that of every dynamic entry.
- A second sync is quiet except for rows the first one skipped (`SecondSyncIsQuiet`,
  `RetriedRowIsAdded`).
- The live handler may return while its delta goroutine is in a send; that send then meets a
  closed channel exactly when the goroutine was not done (`SendsOnClosedIff`,
  `ReturnIsSafeIff`).
- The comment on the graph dialect says every write is gated on the stored version; the
  node delete is not, so a late redelivery brings an older version back (`DeleteForgets`),
  and a relation is lost with its target (`ReplayConverges`).
- Stale graph targets are told apart by id only (`StaleTargets`).
- A row's ttl survives only if it fits in 64-bit nanoseconds (`RowRoundTrip`), limit and
  offset only if they fit in 32 bits (`QueryTrip`); exactly which specs and queries come back
  unchanged say `SurvivesIff` and `ArrivesUnchangedIff`.
- The debounce window holds for the timer in charge; a timer that had fired before it was
  stopped sweeps early (`NoSweepTooEarly`, `OrphanSweepsEarly`).
- The comment on `Loopback.BidiStream` says the context is cancelled once the handler
  returns; the code cancels it only in Close, which the client's reader calls as its last
  deferred step. The model follows the code.

## Model

| member | source | states |
|---|---|---|
| `MergeTree.MergeKeepsView` | `adapters/chanalytics/sink.go:229-236` | a background merge, whatever losing rows it drops, changes nothing a reader sees |
| `MergeTree.MergedIff` | `adapters/chanalytics/sink.go:229-236` | the merges are exactly the drops that leave each key one of its winning rows, so a table may shrink to one row per key and no further |
| `MergeTree.WinnerExists` | `adapters/chanalytics/sink.go:244-252` | every stored key has an answer to argMax |
| `MergeTree.InsertOnTop` | `adapters/chanalytics/sink.go:112-131` | a row that outranks its key becomes what readers see, and nothing else changes |
| `MergeTree.InsertBelow` | `adapters/chanalytics/sink.go:112-131` | a row that is outranked, or a copy of the winner, changes nothing visible |
| `MergeTree.DeleteKeys` | `adapters/chanalytics/sink.go:373-421` | deleting whole keys removes exactly those keys from the view, and uniqExact counts exactly them |
| `MergeTree.RaiseAll` | `adapters/chanalytics/sink.go:290-303` | a batch of rewrites, each ranked above its key, replaces exactly those values in the view |
| `ClickHouseSink.ArgMax` | `adapters/chanalytics/sink.go:244-252` | argMax returns some row of greatest rank of the key, or nothing when there is none |
| `ClickHouseSink.DeleteWhere` | `adapters/chanalytics/sink.go:373-421` | DELETE WHERE removes all copies of the selected rows and only those |
| `ClickHouseSink.CollectRewrites` | `adapters/chanalytics/sink.go:239-303` | the reprojection scan yields exactly one new row for each in-scope key whose winner the transform changes, ranked one above the key's maximum; it stops only at a payload the transform rejects |
| `ClickHouseSink.Sink.UpsertFacts` | `adapters/chanalytics/sink.go:112-131` | appends one row per fact at the packed rank; everything already stored stays |
| `ClickHouseSink.Sink.AppendEvents` | `adapters/chanalytics/sink.go:135-149` | appends one row per event at rank 0 |
| `ClickHouseSink.Sink.SetWatermark` | `adapters/chanalytics/sink.go:167-180` | appends one row per watermark |
| `ClickHouseSink.Sink.Watermark` | `adapters/chanalytics/sink.go:153-163` | reads the highest applied version of the key, 0 when unknown |
| `ClickHouseSink.Sink.ReprojectTenant` | `adapters/chanalytics/sink.go:239-371` | facts then events: on success exactly the changed rows are appended and counted; on failure, which table's payload was rejected, that it is untouched, and what was appended and counted before it (which rows are in scope: `SinkRefinement.ReprojectReaches`) |
| `ClickHouseSink.Sink.PruneEvents` | `adapters/chanalytics/sink.go:373-389` | deletes exactly the events older than the cutoff and returns the number of distinct keys |
| `ClickHouseSink.Sink.PurgeTenant` | `adapters/chanalytics/sink.go:398-421` | deletes every row of the tenant from the three tables and returns the number of distinct keys |
| `DuckSink.UpsertKeepsNewest` | `adapters/duckanalytics/sink.go:101-116` | after any batch each key holds the highest version offered for it, from the table or from the batch, and never a lower one than before |
| `DuckSink.ReprojectTwice` | `adapters/duckanalytics/sink.go:216-317` | when the transform has settled, a second reprojection alters nothing and counts nothing |
| `DuckSink.RewriteTable` | `adapters/duckanalytics/sink.go:216-317` | rewrites row by row: on success every in-scope row is transformed and the changed ones are counted; on failure the rows rewritten so far, their number, and a row the transform rejects |
| `DuckSink.Sink.UpsertFacts` | `adapters/duckanalytics/sink.go:101-116` | one row per key behind the strict version gate |
| `DuckSink.Sink.AppendEvents` | `adapters/duckanalytics/sink.go:119-130` | the first event of a key stays |
| `DuckSink.Sink.SetWatermark` | `adapters/duckanalytics/sink.go:148-160` | a watermark never falls |
| `DuckSink.Sink.ReprojectTenant` | `adapters/duckanalytics/sink.go:216-317` | facts then events; it succeeds exactly when the transform accepts every payload of the tenant's rows, of one aggregate if one is named; then rows of other tenants, and of other aggregates when one is named, are as they were, every other one holds its transformed payload with its columns kept, and the count is the number of payloads that differ; on failure which table stopped, what has been rewritten in it and the count returned |
| `DuckSink.ReprojectReaches` | `adapters/duckanalytics/sink.go:216-317` | the same of the specification's step, said by tenant and aggregate of the keys |
| `DuckSink.DeleteRows` | `adapters/duckanalytics/sink.go:320-369` | a delete removes exactly the selected rows and the count is the number of rows the table lost |
| `DuckSink.Sink.PruneEvents` | `adapters/duckanalytics/sink.go:320-334` | exactly the events of the cutoff or later remain, unchanged, and the count is the number of rows gone |
| `DuckSink.Sink.PurgeTenant` | `adapters/duckanalytics/sink.go:337-369` | no row of the tenant is left in the three tables, every other row is, unchanged, and the count is the number of rows gone |
| `SinkRefinement.SameRankSameFact` | `adapters/chanalytics/sink.go:29-34` | a stored fact row that ties with a fresh one is a copy of it |
| `SinkRefinement.StepRefines` | `adapters/chanalytics/sink.go:112-421` | every admissible ClickHouse call is matched by the DuckDB call: same visible facts, events and watermarks, same returned count |
| `SinkRefinement.ReprojectRefines` | `adapters/chanalytics/sink.go:239-371` | a successful ClickHouse reprojection is a successful DuckDB reprojection with the same rows and the same count |
| `SinkRefinement.ReprojectReaches` | `adapters/chanalytics/sink.go:239-371` | after an admissible ClickHouse reprojection the winning rows of other tenants, and of other aggregates when one is named, are as they were, every other key's winner holds its transformed payload with its columns kept, and the count is the number of keys whose payload differs |
| `SinkRefinement.CompactionIsInvisible` | `adapters/chanalytics/sink.go:229-236` | background merges of all three tables keep the two sinks in agreement |
| `SinkRuns.SinksAgree` | `adapters/chanalytics/sink.go:112-421` | in every run of calls and merges, after every prefix, the sinks show the same data and every call returned the same count |
| `SinkRefinement.ReadsAgree` | `adapters/chanalytics/sink.go:151-201` | in agreeing states every winning fact and event, every key set and every watermark is the same, and rank / 2^20 is the version on every fact row |
| `SinkRuns.AdmissibleIff` | `adapters/chanalytics/sink.go:29-34` | the exact condition, counted on the DuckDB side: every call of a run is admissible exactly when inputs are fixed by (key, version), versions lie below 2^44, and at no point has one version of a fact been rewritten 2^20 times (one event 2^64 times) since it was last absent |
| `SinkRuns.RewrittenWinner` | `adapters/chanalytics/sink.go:239-303` | after a pass the winner of an altered key lies one rank above the old winner, every other winner is the old one |
| `SinkRuns.FewReprojectionsSuffice` | `adapters/chanalytics/sink.go:29-34` | in particular fewer than 2^20 reprojections in all are enough |
| `SinkRefinement.LastSlotBreaks` | `adapters/chanalytics/sink.go:29-34` | the bound is sharp: one rewrite more and the next version no longer outranks the stale row |
| `FsForest.RelinkKeepsAcyclic` | `fs_node_move_guard.go:39-43` | a move closes a cycle only if the new parent already lies below the moved node |
| `FsForest.ReachesUnaffectedByOwnLink` | `fs_node_move_guard.go:39-43` | staging the moved row first does not change whether the walk from the new parent meets it |
| `FsForest.LeafKeepsAcyclic` | `fs_node.go:99-124` | a new node changes no ancestry |
| `FsForest.CutKeepsAcyclic` | `fs_node_move.go:99-109` | moves to the root and deletions create no ancestry, so they may go unguarded |
| `FsMove.SqlCycleCheck` | `fs_node_move_guard.go:43-65` | the PL/pgSQL loop reports a cycle, too deep or pass exactly as a 513-node look at the chain decides |
| `FsMove.PortableCycleWalk` | `fs_node_move_guard.go:96-118` | the portable walk decides the same with a 514-node look |
| `FsMove.ChecksAgree` | `fs_node_move_guard.go:43-118` | the two checks agree on chains of at most 512 nodes; beyond that, exactly when they differ |
| `FsMove.TrackCut` | `fs_node_move_guard.go:43-65` | what a walk in progress has ruled out stays ruled out when unlocked moves to the root and deletes commit between its hops |
| `FsMove.PassMeansNoCycle` | `fs_node_move_guard.go:39-65` | a passing check on the staged state means the new parent is not below the moved node |
| `FsMove.MovesNeverCycle` | `fs_node_move.go:58-111` | in every interleaving of concurrent moves, creates and deletes, with each hop of a guarded move's walk its own read, the committed parents stay acyclic, however stale each pre-check was (that moves do move: `MovesMove`, `WholeMove`) |
| `FsMove.MovesMove` | `fs_node_move.go:105-116` | in every run a commit gives the node of the move that mover began, if it is still a row, the parent it asked for, and changes no other link; a commit to the root gives it none; creates and deletes change their own rows only; every other step changes no link |
| `FsMove.HopsDecide` | `fs_node_move_guard.go:43-65` | taken in one go from the lock on, the hops end past the check exactly when the check passes on the staged rows, and otherwise give the lock back with the links unchanged |
| `FsMove.WholeMove` | `fs_node_move.go:99-116` | a move begun with the lock free goes through exactly when the check passes and then has done nothing but set its node's parent; a refused one has done nothing; moves to the root always go through |
| `FsMove.StagedSame` | `fs_node_move_guard.go:43-65` | the verdict is the same on the committed rows and on rows with the move staged |
| `FsMove.PreCheckAloneIsNotEnough` | `fs_node_move.go:99-103` | two moves that both passed the first check close a cycle without the second |
| `FsMove.StaleRowWrite` | `fs_node_path.go:15-20` | a writer that puts back an old parent keeps the links acyclic exactly when that parent is not below the node |
| `FsPath.PathRoundTrip` | `fs_node_path.go:24-37` | an accepted path prints back unchanged; a printed path is accepted and gives back its names exactly when they are non-empty and slash-free |
| `FsPath.DirOfPrint` | `fs_node_move.go:21-27` | dirOf of a printed path is the parent's path exactly when the last name has no slash |
| `FsPath.PrintOfSplit` | `fs_node_path.go:24-37` | printing the segments of a string gives the string back |
| `FsPath.SplitOfPrint` | `fs_node_path.go:24-69` | splitting a printed path gives its names back |
| `FsTree.ChainToRoot` | `fs_node_path.go:39-54` | returns the chain to the root when it has at most 513 nodes, and fails otherwise |
| `FsTree.PathFromChain` | `fs_node_path.go:57-69` | prints the names of a chain, root first |
| `FsTree.NodePath` | `fs_node_path.go:78-88` | returns the path of every node whose chain is complete and within the bound, an error for all others |
| `FsTree.FindChild` | `fs_node_path.go:92-114` | a live child of that name if there is one |
| `FsTree.GetNodeByPath` | `fs_node_path.go:92-114` | what it returns is spelled by live rows from the root; with unique live siblings a failure means nothing is |
| `FsTree.PrintedPathResolves` | `fs_node_path.go:57-114` | resolving a live node's printed path returns that node and nothing else |
| `FsTree.ResolvedPathPrintsBack` | `fs_node_path.go:57-114` | a path that resolves prints back unchanged, up to the depth bound |
| `FsTree.RenameEcho` | `fs_node_move.go:47-51` | the path RenameNode echoes is the node's path afterwards exactly when the old name holds no slash |
| `FsTree.EchoBelow` | `fs_node_move.go:83-111` | below a parent whose chain avoids the row, the echoed path is the path afterwards; below a parent at the depth bound no path can be printed |
| `FsTree.EchoAtRoot` | `fs_node_move.go:83-111` | at the root the echoed path is the path afterwards |
| `FsTree.ReverseInPlace` | `fs_node.go:190-195` | the two-index swap loop reverses the slice |
| `FsTree.Ancestors` | `fs_node.go:182-197` | returns the rows above a node, root first, exactly when the chain is within the bound |
| `FsWalk.Children` | `fs_node_path.go:187-196` | each child of a queue entry once |
| `FsWalk.SortByPath` | `fs_node_path.go:205-205` | a permutation of the results without inversions |
| `StringOrder.LessMeans` | `fs_node_path.go:205` | the order of paths and ids: a proper prefix is less, and otherwise the first differing character decides |
| `FsWalk.DeepOrCyclic` | `fs_node_path.go:159-165` | some node lies at depth 512 exactly when the root is on a parent cycle or some node lies that deep or deeper |
| `FsWalk.Explore` | `fs_node_path.go:166-203` | the queue loop ends on any rows; it fails exactly when some node lies at depth 512; otherwise it has found every entry below the root |
| `FsWalk.AncestorLess` | `fs_node_path.go:198-205` | an ancestor's relative path sorts strictly before its descendant's |
| `FsWalk.Filter` | `fs_node_path.go:207-213` | keeps exactly the entries that pass, in order |
| `FsWalk.Descendants` | `fs_node_path.go:166-214` | fails exactly when some node lies at depth 512; otherwise each proper descendant passing the filter exactly once, ancestors before descendants, in byte-wise order of the relative paths |
| `FsWalk.CteDescendants` | `fs_node_path.go:127-151` | the recursive query, level by level: exactly the descendants down to depth 512 that pass the filter, deeper ones dropped without an error; off cycles each once, ancestors before descendants, in byte-wise order of the relative paths |
| `FsOps.SubtreeComplete` | `fs_node_delete.go:15-21` | the rows of a subtree are closed under children exactly when nothing lies beyond the SQL depth bound |
| `FsOps.GuardVerdict` | `fs_node_move_guard.go:43-118` | on the staged row the guard passes exactly when the new parent's chain fits its bound |
| `FsOps.CreateKeeps` | `fs_node.go:99-124` | a create keeps the forest sound and anchored |
| `FsOps.MoveKeeps` | `fs_node_move.go:58-111` | a move keeps the forest sound and anchored |
| `FsOps.RenameKeeps` | `fs_node_move.go:31-52` | a rename keeps the forest sound and anchored |
| `FsOps.StampBatch` | `fs_node_delete.go:35-52` | the batch of updates goes through exactly when the stamped rows respect the unique index, and then all rows are stamped |
| `FsOps.TrashedBelow` | `fs_node_delete.go:25-61` | trashing leaves nothing live in the subtree, exactly when on SQL no live row lies beyond the depth bound |
| `FsOps.DeleteKeeps` | `fs_node_delete.go:73-99` | deleting rows keeps the forest sound and leaves no orphan exactly when they are closed under children |
| `FsOps.DeepDeleteOrphans` | `fs_node_delete.go:73-99` | on SQL, deleting the top of 514 nested folders leaves an orphan |
| `FsOps.FileTree.ParentPath` | `fs_node.go:52-64` | parentContext: succeeds exactly for the root and for folders within the depth bound, with the parent's path |
| `FsOps.FileTree.Admit` | `fs_node.go:49-97` | the checks before a create pass exactly for a valid free name under a folder within the bound, and give the parent's path |
| `FsOps.FileTree.CreateFolder` | `fs_node.go:99-124` | succeeds exactly for a valid free name under a folder within the bound; new state, kept invariant, and whether the echoed path can be printed afterwards |
| `FsOps.FileTree.CreateFile` | `fs_node.go:124-154` | the same, and only if the bytes could be stored and the command goes through: the node carries the new blob; refused checks and failed bytes leave no row and no blob, a failed command leaves the blob without a row |
| `FsOps.FileTree.Rename` | `fs_node_move.go:31-52` | succeeds exactly for an unlocked node and a valid free name; new state, kept invariant, echoed path |
| `FsOps.FileTree.NewParentPath` | `fs_node_move.go:74-92` | the walk before the transaction: the parent's path unless the moved node is on the way |
| `FsOps.FileTree.Guard` | `fs_node_move_guard.go:73-118` | the check inside the transaction, skipped for moves to the root |
| `FsOps.FileTree.Move` | `fs_node_move.go:58-111` | succeeds exactly when the node is unlocked, the parent's chain avoids it and fits, and the name is free; new state, kept invariant, echoed path |
| `FsOps.FileTree.Subtree` | `fs_node_delete.go:15-21` | the node first, then its descendants in byte-wise order of their relative paths, each once and ancestors first; with the portable walk's error and the SQL query's cut |
| `FsOps.FileTree.SetDeleted` | `fs_node_delete.go:25-69` | trash and restore: all rows of the subtree are stamped or none; name, place, kind, blob and lock of every row stay; when exactly it succeeds; kept invariant |
| `FsOps.FileTree.PermanentDelete` | `fs_node_delete.go:73-99` | removes exactly the subtree's rows, then its files' blobs in path order up to the first that cannot be deleted, which is reported; exactly which blobs are left; every parent still exists exactly when nothing lies beyond the SQL bound |
| `CacheTiers.KeysInjective` | `cachequery/cachequery.go:22-37` | row keyspace and partition names determine entity and tenant |
| `CacheTiers.PartsDistinct` | `adapters/cache/ops.go:178-192` | the three bumped partitions differ |
| `CacheTiers.PutView` | `adapters/cache/l1.go:90-100` | a stored row is what readers of its key see; no other key changes |
| `CacheTiers.DelView` | `adapters/cache/l1.go:124-137` | an evicted row is gone; no other key changes |
| `CacheTiers.DelEvicts` | `adapters/cache/l1.go:124-137` | deleting under the current generation is an eviction: that row is unseen, every other view and generation stays |
| `CacheTiers.BumpView` | `adapters/cache/l1.go:141-152` | a generation bump hides exactly the rows of its keyspace and partition |
| `CacheTiers.BumpAllGen` | `adapters/cache/ops.go:163-172` | bumping a list of generations raises each by its number of occurrences and deletes nothing |
| `CacheTiers.DropView` | `adapters/cache/l1.go:69-86` | evictions and expiries only hide rows |
| `CacheNode.SharedCache.Get` | `adapters/cache/ops.go:59-76` | resolves the generation and returns what readers of the key see |
| `CacheNode.SharedCache.Set` | `adapters/cache/ops.go:79-93` | readers of that key now see the row; every other view stays |
| `CacheNode.SharedCache.Invalidate` | `adapters/cache/ops.go:127-144` | that row is unseen afterwards; every other view stays |
| `CacheNode.SharedCache.InvalidateKeyspace` | `adapters/cache/ops.go:148-158` | every row of the keyspace and partition is unseen afterwards, nothing is deleted, every other view stays |
| `CacheNode.SharedCache.InvalidateEntity` | `adapters/cache/ops.go:163-172` | bumps the entity generation of every partition given |
| `CacheNode.L1Cache.Get` | `adapters/cache/l1.go:69-86` | local hit, else shared hit copied into the local tier |
| `CacheNode.L1Cache.Set` | `adapters/cache/l1.go:90-100` | readers of that key see the row in both tiers; every other view stays |
| `CacheNode.L1Cache.Invalidate` | `adapters/cache/l1.go:124-137` | that row is unseen in both tiers; every other view stays |
| `CacheNode.L1Cache.InvalidateKeyspace` | `adapters/cache/l1.go:141-152` | the keyspace and partition are unseen in both tiers; every other view stays |
| `CacheNode.L1Cache.InvalidateEntity` | `adapters/cache/l1.go:156-165` | bumps the entity in both tiers |
| `CacheNode.L1Cache.EvictLocal` | `adapters/cache/l1.go:170-188` | hides exactly the changed row (and any keyspace an entity shares its name with) in the local tier only |
| `CacheNode.ChangeOne` | `cache_invalidation.go:27-42` | one change more extends what the batch hides by exactly that change |
| `CacheNode.AfterCommit` | `cache_invalidation.go:27-42` | hides exactly the changed rows in both tiers, leaves every sibling warm, and bumps each distinct changed entity once per partition |
| `CacheReads.CachedRelational.Get` | `cachequery/cachequery.go:89-109` | answers from the tiers or the database and fills them exactly with what it answered |
| `CacheReads.CachedRelational.Probe` | `cachequery/cachequery.go:126-134` | splits the ids into tier hits with their rows and misses |
| `CacheReads.CachedRelational.Store` | `cachequery/cachequery.go:153-159` | caches each loaded row with an id in both tiers, skips one without |
| `CacheReads.CachedRelational.Order` | `cachequery/cachequery.go:162-167` | the rows found, at strictly increasing positions of the ids asked for, with every id that has a row among them |
| `CacheReads.CachedRelational.GetMany` | `cachequery/cachequery.go:118-172` | each id's answer, at strictly increasing positions of the ids asked for, with every id that has an answer among them; afterwards every answer is local and the shared tier gained exactly what neither tier held; a loaded row without an id is skipped |
| `CacheReads.AssembledInOrder` | `cachequery/cachequery.go:161-167` | the rows assembled are the answers at strictly increasing positions of the ids asked for, and every id with an answer is among them |
| `CacheSystem.CommitKeeps` | `cache_invalidation.go:27-42` | a commit with its invalidation keeps all nodes coherent: another node's old row has the event ahead of it |
| `CacheSystem.TailKeeps` | `adapters/cache/l1tailer.go:22-31` | handling the next event keeps the node coherent |
| `CacheSystem.EveryRunCoherent` | `adapters/cache/l1.go:69-188` | in every run with any evictions, the shared tier equals the database and each local row equals it or has an event for that id ahead |
| `CacheSystem.ReadsAreFresh` | `cachequery/cachequery.go:89-172` | a read differs from the database only for ids with an event ahead; a drained node returns exactly the rows the database holds, in the order asked for |
| `CacheSystem.Bookkeeping` | `adapters/cache/l1tailer.go:22-31` | the database and the log move by commits alone, one event per change in order; a node's position moves by one with each event it handles; a new node starts empty at the end of the log |
| `CacheSystem.ReadHappens` | `cachequery/cachequery.go:89-172` | in a coherent system every read on every node can happen |
| `CacheSystem.CommitHappens` | `cache_invalidation.go:27-42` | in a coherent system every commit on every node can happen, with its invalidation |
| `CacheSystem.CatchesUp` | `adapters/cache/l1tailer.go:22-31` | from any coherent state a node drains the log by its own events alone, exactly as many as are ahead of it, and then reads for every row what the database holds |
| `CacheSystem.FlushForgets` | `adapters/cache/l1.go:141-152` | a keyspace flush can happen on any node and leaves no row of that entity and tenant visible in its own tier or the shared one, and every other row as it was |
| `CacheSystem.EvictionsHappen` | `adapters/cache/l1.go:69-188` | either tier may lose any of its rows at any time |
| `CacheSystem.DatabaseAlong` | `cache_invalidation.go:27-42` | in every run the database moves between two points by exactly the commits in between |
| `CacheSystem.LastChangeDecides` | `cache_invalidation.go:27-42` | after a batch of changes a row is what the last change to it wrote, or as before |
| `CacheSystem.LateFill` | `cachequery/cachequery.go:101-106` | in every run, storing at any later point a value loaded earlier is coherent exactly when no commit in between changed the row or the last one that did wrote that value |
| `CacheKeys.OneEntityKeysDiffer` | `adapters/cache/ops.go:21-33` | rows of one entity, or of two with names of one length, share a key only if row and generation are the same |
| `CacheKeys.TenantMeans` | `core/tenant/context.go:31` | a tenant is 1 to 64 ASCII letters, digits, underscores and dashes |
| `CacheKeys.SharedKeysCollideIff` | `adapters/cache/ops.go:21-33` | for any two entity names: some two different rows share a shared-tier key exactly when one name is the other continued by the text of a row keyspace, a generation and a tenant |
| `CacheKeys.LocalKeysCollideIff` | `adapters/cache/l1.go:58-61` | the same question for the local tier's key text, with its own exact condition |
| `CacheKeys.TextStandsForRecords` | `adapters/cache/l1.go:58-61` | for a registry in which no name continues another so, key text and generation determine row and generation in both tiers |
| `LiveBuffer.DeltaBuffer.Append` | `remote/live.go:238-242` | the locked part of push is exactly the push step |
| `LiveBuffer.DeltaBuffer.MarkClosed` | `remote/live.go:248-251` | the locked part of close is exactly the close step |
| `LiveBuffer.DeltaBuffer.SendSignal` | `remote/live.go:243-246` | after the non-blocking send the token is there |
| `LiveBuffer.DeltaBuffer.TakeFirst` | `remote/live.go:260-278` | takes the oldest item, or reports an empty or ended buffer |
| `LiveBuffer.DeltaBuffer.ReceiveSignal` | `remote/live.go:268-269` | the wake-up consumes the token |
| `LiveBuffer.StepKeeps` | `remote/live.go:238-284` | every push, close, signal, check, wake-up and delivery keeps order, wake-ups and the end condition |
| `LiveBuffer.EveryRunFifo` | `remote/live.go:231-284` | delivered, in hand and buffered deltas are the received ones in order; the output ends only after all are delivered; no wake-up is lost |
| `LiveBuffer.PumpProgress` | `remote/live.go:258-284` | with a quiet pusher every pump step uses up work, and where none is possible all is delivered |
| `LiveBuffer.PumpFinishes` | `remote/live.go:258-284` | the pump stops within its work bound, with everything delivered |
| `LiveStream.LiveStep` | `remote/live.go:92-222` | every step of caller, reader, pump and server keeps order, numbering and pairing |
| `LiveStream.EveryRunPaired` | `remote/live.go:92-222` | in every run the k-th Reanchor returns the k-th reply or an error, and exactly the reply as long as the reply channel is open; the caller has a prefix of the deltas the server sent |
| `LiveStream.ErrorsOnlyWhenClosed` | `remote/live.go:113-124` | every finished Reanchor returned the reply that was waiting, or an error when its return found the reply channel closed and empty |
| `LiveStream.ReplyComesAfterDeltas` | `remote/live.go:183-222` | when a Reanchor returns its reply while the reader runs, every delta the server sent before that reply is in the client's buffer |
| `LiveStream.WholeReanchor` | `remote/live.go:92-124` | from a quiet stream a Reanchor goes all the way through server and reader and returns the computed reply, everything else as it was |
| `LiveStream.WholeDelta` | `remote/live.go:183-284` | from a quiet stream a delta goes all the way to the caller, everything else as it was |
| `LiveStream.ClosedWhy` | `remote/live.go:110-114` | sending a request fails only once the reader has exited or the handle was closed |
| `LiveStream.ReaderNeverBlocks` | `remote/live.go:183-222` | the reader never blocks on the size-one reply channel or on the caller's delta channel |
| `LiveStream.WaiterIsServed` | `remote/server.go:425-476` | while a Reanchor waits on an open stream, in every interleaving at most 2*16+6 steps carry its request or reply on and none takes it further away; a carrying step is always possible, or the reader can make room in a full channel |
| `LiveStream.EndedStreamReleases` | `remote/transport.go:243-315` | once the stream has ended, in every interleaving the reader takes a bounded number of steps, and when it has none left a waiting Reanchor, and one blocked in Send, can return |
| `LiveStream.CloseReleasesSend` | `remote/transport.go:243-315` | closing the handle lets a request that is being sent fail |
| `LiveStream.SendsOnClosedIff` | `remote/transport.go:251-271` | after the handler has returned, a send on the closed channel can happen exactly when the delta goroutine was not done |
| `LiveStream.ReturnIsSafeIff` | `remote/server.go:425-476` | a handler that returns because its deltas are done is safe for good; one that returns otherwise exactly if they happen to be done |
| `Sweeper.NextFireDelay` | `forgeext/distillworker.go:72-81` | never negative, at most the debounce, never past a deadline still ahead, and otherwise as late as allowed |
| `Sweeper.DistillSweeper.constructor` | `forgeext/distillworker.go:103-122` | debounce defaults to one second and maxWait to ten debounces, and maxWait is never below debounce |
| `Sweeper.DistillSweeper.MarkAndSchedule` | `forgeext/distillworker.go:129-146` | records the latest mark, keeps the first deadline, stops the old timer and arms the new one within the deadline |
| `Sweeper.DistillSweeper.TakeDirty` | `forgeext/distillworker.go:152-158` | takes the tenant's marks and clears its timer and deadline |
| `Sweeper.AlwaysScheduled` | `forgeext/distillworker.go:129-166` | at every lock boundary a tenant with marks has a live timer, whatever orphan timers fire, and sweeps take genuine marks |
| `Sweeper.EveryMarkSwept` | `forgeext/distillworker.go:129-166` | if timers fire by their due time every mark is swept, itself or through a later mark of its ref, no later than maxWait after the first mark since the tenant's sweep before |
| `Sweeper.NoSweepTooEarly` | `forgeext/distillworker.go:129-146` | in every run the timer in charge of a tenant sweeps no earlier than the debounce window after the tenant's latest mark, or than maxWait after the first mark since the sweep before |
| `Sweeper.OrphanSweepsEarly` | `forgeext/distillworker.go:138-142` | a timer that had fired when the mark that replaced it came to stop it is no longer in charge and can sweep at once: a reachable run |
| `Sweeper.NoMoreSweepsThanMarks` | `forgeext/distillworker.go:129-166` | in every run, sweeps done and timers still live are together at most the marks |
| `SweepGate.SweepsExclude` | `forgeext/distillworker.go:53-64` | two sweep bodies of one tenant never overlap, and a sweep waits only for its own tenant |
| `SweepGate.WholeSweep` | `forgeext/distillworker.go:53-64` | a sweep of a tenant that nobody is sweeping goes straight in and out and leaves every other lock as it was |
| `DynamicCodec.TypeNames` | `fabriq_dynamic_persist.go:121-137` | a column type and its name determine each other |
| `DynamicCodec.SpecRoundTrip` | `fabriq_dynamic_persist.go:158-262` | decoding an encoded spec gives its normal form, which encodes to the same row |
| `DynamicCodec.SurvivesIff` | `fabriq_dynamic_persist.go:158-262` | a spec survives the round trip unchanged exactly when no string list is empty but present, the cache ttl is whole seconds, and it has no in-process fields |
| `DynamicCodec.RowRoundTrip` | `fabriq_dynamic_persist.go:158-262` | a row that decodes encodes back to itself exactly when its ttl fits in 64-bit nanoseconds |
| `DynamicCodec.SameEncodingMeans` | `fabriq_dynamic_persist.go:265-275` | two specs persist alike exactly when their normal forms agree |
| `DynamicCodec.AdditiveExactly` | `fabriq_dynamic.go:248-280` | on any two specs, repeated names included, the test holds exactly when cur encodes, each of its columns is next's last of that name, each of its indexes packs like next's last of that name, and nothing else that persists differs |
| `DynamicCodec.AdditiveMeans` | `fabriq_dynamic.go:248-280` | on unique names the test holds exactly when next has every column and index of cur and nothing else that persists differs |
| `DynamicCodec.AdditiveReflexive` | `fabriq_dynamic.go:248-280` | reflexive exactly on encodable specs in which every column, and every index as it persists, is the last of its name |
| `DynamicCodec.AdditiveTransitive` | `fabriq_dynamic.go:248-280` | transitive on all specs |
| `DynamicCodec.AdditiveIgnoresOrder` | `fabriq_dynamic.go:248-280` | blind to the order of next's columns and indexes |
| `DynamicCodec.BoundReflexiveIff` | `core/registry/model.go:266-322` | on specs that registration accepts, reflexive exactly when the spec encodes and every index persists like the last of its name |
| `DynamicBind.BindDynamic` | `core/registry/model.go:264-322` | a schema is accepted exactly when its names are identifiers, no column is structural or repeated and its indexes are on known columns; the table then has the structural columns and the declared ones in their order, all distinct |
| `DynamicBind.IdentMeans` | `core/registry/model.go:13` | an identifier is 1 to 64 ASCII letters, digits and underscores and does not start with a digit |
| `DynamicCodec.RepeatedNameIsNotReflexive` | `fabriq_dynamic.go:252-259` | a spec that registration accepts can fail the test against itself: two indexes of one name on different known columns |
| `DynamicSync.Saved` | `adapters/postgres/dynamic_store.go:27-55` | a new row has revision 1; the revision stays exactly when the stored spec is unchanged; no other row moves |
| `DynamicSync.ReplaceUndoes` | `core/registry/registry.go:217-239` | replacing an entry and replacing it back restores the registry exactly when the old spec validates or nothing changed |
| `DynamicSync.Registry.AddRow` | `fabriq_dynamic_persist.go:338-351` | register, ensure the table, unregister when that fails: added at the row's revision exactly when the spec validates and its table can be ensured, otherwise skipped with the registry as it was |
| `DynamicSync.Registry.UpdateRow` | `fabriq_dynamic_persist.go:352-379` | replace with the in-process fields, fall back to the bare spec, ensure the table, put the old spec back when that fails: updated to that spec at the row's revision exactly when the entry is dynamic, the preferred variant validates and its table can be ensured, otherwise skipped with registry and revisions as they were; the in-process fields survive exactly when they still validate |
| `DynamicSync.Registry.SyncOne` | `fabriq_dynamic_persist.go:322-380` | one row: failed rows and types registered in code leave the registry as it was, every other row's entry loads it at its revision, no other name moves |
| `DynamicSync.Registry.ApplyRows` | `fabriq_dynamic_persist.go:322-381` | each stored name is treated as its row, entry and known revision call for, independently of the others |
| `DynamicSync.Registry.RemoveMissing` | `fabriq_dynamic_persist.go:381-391` | loaded names without a row leave the loaded map and, when dynamic, the registry |
| `DynamicSync.Registry.Sync` | `fabriq_dynamic_persist.go:312-397` | every name's outcome, said without the specification function: unreadable and unusable rows are skipped and leave the entry as it was, new usable rows are added, rows at another revision or encoding replace the entry with its in-process fields where that validates, types registered in code and unchanged rows stay, loaded names without a row go; every dynamic entry still validates |
| `DynamicSync.SyncReconciles` | `fabriq_dynamic_persist.go:312-397` | the specification of a sync has exactly those outcomes, for every world, store and instance |
| `DynamicSync.CleanSyncMatchesStore` | `fabriq_dynamic_persist.go:312-397` | without skipped rows each stored name not registered in code holds its row's spec at the row's revision, and loaded names without a row are gone |
| `DynamicSync.InstancesConverge` | `fabriq_dynamic_persist.go:312-397` | two instances that each sync the same store without skipped rows, whatever they held before, hold every stored name that neither registers in code at the same revision and with the same encoding |
| `DynamicSync.LoadedEncodesToRow` | `fabriq_dynamic_persist.go:356-360` | a loaded entry encodes to its very row exactly when the row's ttl fits |
| `DynamicSync.SecondSyncIsQuiet` | `fabriq_dynamic_persist.go:312-397` | a second sync of an unchanged store leaves and reports nothing new for any name that was not skipped, even if validation and table creation now answer differently; if they answer alike nothing changes at all |
| `DynamicSync.RetriedRowIsAdded` | `fabriq_dynamic_persist.go:338-351` | a new row skipped by one sync is added by the next, once it validates and its table can be ensured |
| `DynamicSync.SavedAgainLooksUnchanged` | `fabriq_dynamic_persist.go:352-360` | a row deleted and saved again is back at revision 1, so an instance that held that spec at revision 1 does nothing, whatever became of the table |
| `DynamicTables.StepExact` | `fabriq_dynamic.go:99-239` | a step with any outcome (success, failure, effect with a lost reply, crash) keeps every persisted row on an existing table exactly when it is safe: it drops no table that a row left behind still names, and restores no row whose table is gone |
| `DynamicTables.RowsBackedIff` | `fabriq_dynamic.go:99-239` | in every run all rows have their tables at every point exactly when every step was safe |
| `DynamicTables.EveryRowHasItsTable` | `fabriq_dynamic.go:99-239` | with one writer, any number of syncing instances at any point of a sync, and a failure, crash or lost reply after any step, every persisted row names an existing table, provided dropped tables are named by no other row or owned entry and no drop takes effect while its reply is lost |
| `DynamicTables.DropIsSafeIff` | `fabriq_dynamic.go:162-191` | a drop keeps that exactly when no other row (for a type registered in code: no row) names the table |
| `DynamicTables.FailuresRollBack` | `fabriq_dynamic.go:99-191` | a failed define leaves registry and rows as they were, a failed ensure undoes an alter, a drop that fails at its table is undone up to the row's revision, which is 1 again; a drop that took effect but was reported failed brings the row back without its table |
| `DynamicTables.CompletedOperations` | `fabriq_dynamic.go:99-239` | a completed define leaves table, row at revision 1 and entry; an alter of an owned type leaves the new descriptor in row and entry and moves the revision exactly if it changed; an alter of a type registered in code leaves the rows alone; a drop leaves no row, no entry and no table |
| `DynamicTables.SharedTableBreaks` | `fabriq_dynamic.go:162-191` | two persisted types on one table: dropping one leaves the other's row without its table |
| `DynamicTables.CodeTypeBreaks` | `fabriq_dynamic.go:171-191` | dropping a type registered in code takes a persisted type's table |
| `DynamicTables.LostDropBreaks` | `fabriq_dynamic.go:180-191` | a reachable run: the table is dropped, the reply is lost, the row comes back without its table, another instance holds it at the same revision, and no number of syncs brings the table back |
| `DynamicTables.HealsIff` | `fabriq_dynamic_persist.go:322-391` | with no operation in progress, syncs of any instances, interleaved and with any results, can bring a missing table back exactly when some instance does not know a row on it, loaded that row at another revision or with another encoding, or is in a sync that read older rows and still has to act on them |
| `DynamicTables.LostDropHealsIff` | `fabriq_dynamic.go:162-191` | where all instances were in step, a drop whose reply was lost heals by sync exactly when the type had been altered since it was defined and another instance had loaded it |
| `GraphReplay.NodeStep` | `adapters/falkordb/mutate.go:32-65` | a node upsert sets the properties and the version when its gate passes and changes nothing otherwise |
| `GraphReplay.EdgeStep` | `adapters/falkordb/mutate.go:67-84` | an edge mutation that passes its gate leaves exactly its target; every other edge and the node stay |
| `GraphReplay.StaleTargets` | `adapters/falkordb/mutate.go:75-83` | the target is the only one left exactly when no edge of the relation leads to the same id under another label |
| `GraphReplay.ForeignStep` | `adapters/falkordb/mutate.go:32-101` | other aggregates' queries never touch the node's properties, and take one of its edges only by deleting what it points at |
| `GraphReplay.NeverRegresses` | `adapters/falkordb/mutate.go:32-101` | the node version never falls and there is never more than one outgoing edge per relation |
| `GraphReplay.ReplayConverges` | `adapters/falkordb/mutate.go:32-101` | however batches are interleaved, repeated or cut short, once the highest batch has run in order the node's properties are exactly that batch's, and each relation is exactly as that batch says unless its target was deleted since the relation's query last ran, and then it is not |
| `GraphReplay.DeleteForgets` | `adapters/falkordb/mutate.go:86-92` | after a delete the node converges to the highest version delivered since, even one older than it had |
| `GraphReplay.GoneUnlessCreated` | `adapters/falkordb/mutate.go:86-92` | after its last delete a node is there exactly when some later query created it: its own upsert or a gated-in edge to it |
| `GraphCompile.CollectSets` | `adapters/falkordb/mutate.go:43-57` | exactly the identifier keys other than id become SET items, with their values |
| `GraphCompile.IdentMeans` | `adapters/falkordb/mutate.go:25-27` | an identifier is a letter or underscore and up to 63 more letters, digits and underscores, by ASCII code |
| `GraphCompile.CypherFor` | `adapters/falkordb/mutate.go:30-101` | a query exactly when all identifiers are valid, and the one the mutation calls for |
| `GraphCompile.QuoteRoundTrip` | `adapters/falkordb/mutate.go:212-216` | a quoted string scans back whole, whatever it holds and whatever follows |
| `CatalogScan.List` | `adapters/postgres/catalog.go:194-226` | the ids after the cursor in order, cut at the limit (100 for a limit of zero or less), never more; a next cursor exactly for a full page |
| `CatalogScan.ActiveOf` | `sharding.go:113-117` | the active ids of a page, in order |
| `CatalogScan.AllTenants` | `sharding.go:105-123` | strictly increasing ids; each id exactly once, present exactly when active at the time its page was read, whatever changes between pages; an unchanging catalog is finished within its number of pages |
| `CatalogScan.CatalogStore.Put` | `adapters/postgres/catalog.go:133-191` | read-only, invalid, duplicate and conflict errors exactly where the source gives them; otherwise the new rows and stamp |
| `CatalogScan.PutsFormChain` | `adapters/postgres/catalog.go:133-191` | each winning update was based on the winner just before it |
| `CatalogScan.NoLostUpdate` | `adapters/postgres/catalog.go:133-191` | of two Puts based on the same timestamp at most one wins |
| `BlobStream.SendChunks` | `remote/blob.go:46-68` | no frame is empty; the frames concatenate to what was read before a failed send, all of it when every send goes through; success exactly on a clean end with no failed send |
| `BlobStream.Feed` | `remote/server.go:628-650` | what the store is given, to the end or until it stops reading, and when it accepts: an error frame, an undecodable frame or a broken stream fails a store that has not stopped before |
| `BlobStream.Upload` | `remote/blob.go:32-80` | a Put succeeds exactly when the source ends cleanly, every send goes through, the store accepts and its reply arrives; a store that reads to the end accepts nothing but the whole object |
| `BlobStream.BlobReader.Read` | `remote/blob.go:230-253` | the piece read plus the rest is the old rest; the end comes only when nothing is left, as end-of-file exactly for a sound stream; a non-empty buffer makes progress |
| `BlobStream.BlobReader.ReadAll` | `remote/blob.go:224-253` | any sequence of buffer sizes reads the bytes in order, all of them once the end is reported |
| `BlobStream.Download` | `remote/server.go:661-694` | server frames and reader composed: never more than a prefix of the object; end-of-file exactly when reading and sending succeeded, and then all of it |
| `WireFilter.Wrap` | `remote/wire.go:269-301` | integer conversion lands in the signed range and keeps values already in it |
| `WireFilter.WrapsByWords` | `remote/wire.go:269-301` | and differs from its input by a whole number of words |
| `WireFilter.ValueTrip` | `remote/wire.go:269-362` | every operand decodes to its normal form |
| `WireFilter.ValueSettles` | `remote/wire.go:269-362` | the normal form of a normal form is itself |
| `WireFilter.CondTrip` | `remote/wire.go:227-262` | every condition tree decodes to its normal form, which is a fixed point |
| `WireFilter.QueryTrip` | `remote/wire.go:174-362` | a filter of any depth arrives in normal form; limit and offset arrive exactly when they fit in 32 bits; a second trip is the identity |
| `WireFilter.ArrivesUnchangedIff` | `remote/wire.go:174-362` | a query arrives exactly as it was sent when and only when every condition and operand is one the wire can carry as it is and limit and offset fit in 32 bits |

## Left out

- Failed reprojections inside the run theorem of the sinks: ClickHouse writes nothing to the failing table, DuckDB keeps the rows already rewritten, so the sinks differ; the class methods state both.
- LagByTenant and AllWatermarks: the first needs commit times monotone in versions, the second is the watermark read for every key.
- Stale full-row updates from writers other than moves are outside the move protocol; StaleRowWrite states when they are harmless.
- FsWalk.SortByPath: the library sort is any permutation without inversions, modelled by an insertion loop.
- FsOps.FileTree.CreateFile: the stored bytes are a blob id or a failure; failing commands of the other operations leave everything as it was and are not modelled.
- ReplaceFile, LockNode, ListChildren and name search: single-row or single-query operations.
- Cache fills that interleave with an invalidation inside one call, scoped partitions, failed invalidations, GetOrLoad with its single-flight group, and query result sets: the time-to-live is the source's only backstop there.
- Cache key text inside the tiers: the tiers use records as keys; the text of row keys is compared with them in CacheKeys, the text of generation keys is not.
- Cache entries that do not parse: rows are opaque and lossless.
- LiveQuery's setup exchange (first frame, snapshot, setup errors) and abandoned Reanchor calls: an abandoned call leaves its reply in the channel, so pairing is stated without them.
- The order of two sweeps of one tenant: the gate gives exclusion, not order. What a sweep does with its batch is not modelled.
- The guarded-table set of dynamic types, column-level DDL and the define-as-alter shortcut: only tables, rows, registry and loaded revisions are modelled.
- DynamicSync.Registry.Sync: rows are taken in any order; the source takes them by name, and its reasons for skipping are one outcome.
- GraphCompile.CypherFor: extra labels on node upserts, RelUpsert and RelDelete, the query text and number formatting are not modelled; queries are values with a state semantics.
- CatalogScan.AllTenants: each page is read from the catalog as it is at that moment, given as a sequence of snapshots; a catalog that grows for ever keeps the loop going.
- Removing catalog entries.
- BlobStream.SendChunks: the metadata frame is not modelled.
- Byte-level codecs: JSON, protobuf and SQL are taken as lossless.
- WireFilter.ValueTrip: floating-point operands are reals, printed forms of unknown types are given.
- Encryption, row-level security, authorization, metrics, tracing, configuration and migrations.
