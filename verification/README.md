# NeuralBase: a verified model of its cores

A Dafny model of the parts of NeuralBase whose correctness is a claim about every run or every
input, with proofs of those claims. `dafny verify dfyconfig.toml` checks the whole project.

| modules | what they model |
|---|---|
| `Hlc` | the hybrid logical clock and its 64-bit encoding |
| `Versions`, `Mvcc`, `MvccRaces`, `Calls`, `MvccEngine` | versioned rows; the state machine of transactions and collection; runs in which a snapshot is not kept; whole calls as runs; the transaction manager and collector as objects whose calls make one run |
| `Wire`, `Storage` | byte order, and how versions are located in the sorted key space |
| `Sql`, `JoinPlan`, `JoinLoss`, `JoinExec` | expressions and names; push-down and hash joins against the filtered Cartesian product; when a row is lost; the executor's loops |
| `Membership`, `Operator`, `Convergence`, `Progress` | cluster membership; the reconciler's plans and their safety; progress, convergence and what prevents it |
| `RaftStore` | the incremental Raft store against the store that keeps the whole state |
| `JoinGraph` | depth-first cycle detection on the join multigraph |
| `PitrSegment`, `PitrChain`, `PitrArchive`, `PitrRuntime`, `PitrReplay`, `PitrBranch` | the point-in-time-recovery archive: segment format, hash chains, several writers, the archive fence, replay and lineages, branches and retirement |
| `Items`, `Formats`, `BatchCodec`, `IdentityCodec` | formats written at a position; the row batch codec; the canonical identity codec |
| `Calendar` | day numbers and civil dates |

Code that updates things step by step is modelled by classes and methods with loops, each proved
against a specification function; the theorems are lemmas about those functions and about state
machines over them. Clocks, random bytes, UTF-8 validity, the digest, the hash map's listing order
and the decoders of other command formats are parameters. RocksDB write batches and the creation
of an archive file are atomic steps.

## Where the code falls short of what is claimed for it

Each of these is proved with its exact condition.

- `read_latest` and `latest_visible_ts_any` check a key prefix, which is not enough when one
  primary key continues another (`Storage.LocatedIff`, `Storage.LongerKeyIntrudes`).
- Two interleavings let a collection delete a version that a snapshot reads: a horizon taken from
  an empty registry (`MvccRaces.EmptyRegistryLosesRead`), and a horizon taken while a begin below it
  has ticked and is not registered yet (`MvccRaces.UnregisteredBeginLosesRead`). A scan marks what a
  snapshot reads exactly when its horizon overruns it (`Mvcc.ScanDoomsIff`); a horizon from a
  non-empty registry with no begin below it on its way overruns no one
  (`Mvcc.SafeHorizonMakesScansSafe`).
- A transaction that begins between the tick and the write of a commit sees that write arrive and
  can overwrite it without a conflict (`MvccRaces.BeginInsideCommitChangesRead`). These are the only
  ways in which a read changes (`Mvcc.StepChangesReadIff`), and without them snapshot isolation
  holds (`Mvcc.SnapshotIsolation`, `Mvcc.GuardedSnapshotIsolation`), as it does whenever calls do
  not overlap (`Calls.WholeCallsIsolate`).
- WHERE calls two NULLs equal, and the two zeros, but the hash join does not bring them together
  (`JoinPlan.EqualValuesMeetIff`); a query loses exactly the rows that hold such a pair under a key
  it joins on (`JoinPlan.PipelineMeansProductWithoutLost`, `JoinLoss.TwoTablesIff`,
  `JoinLoss.UnmetKeysLoseRow`).
- The reconciler removes undesired members in the order of their names. With a bare majority ready,
  a ready undesired voter that comes first blocks the plan, although removing one that is down
  would be safe (`Convergence.LiveVoterFirstJams`, `Convergence.OtherOrderIsSafe`). Whether a run
  converges or ends there is decided by the order at the start (`Convergence.Converges`,
  `Convergence.Jams`).
- The Raft store cannot load a state whose snapshot boundary is the last 64-bit index, because the
  saturated range asks for a record that is never written (`RaftStore.LoadsWhatIsHeldIff`).
- `HlcClock::update` returns the remote timestamp itself when the remote counter is exhausted
  (`Hlc.UpdatePassesRemoteIff`).
- Cycle detection uses the empty name for "no parent" and is blind to cycles through an edge that
  joins a start table with it (`JoinGraph.HasCycle`, `JoinGraph.MissesEmptyName`).
- A crash after an entry is applied and before it is archived leaves the archive one entry behind;
  a restarted node resumes above the durable apply index, so the archive then refuses every later
  entry as a gap (`PitrRuntime.BehindForever`, `PitrRuntime.RestartArchivesIff`).
- A date such as 30 February is accepted, although the comment promises rejection, and means a day
  in March (`Calendar.AcceptedMeansItselfIff`). A date with a large year, such as 2000000000-01-01,
  is accepted and overflows (`Calendar.OverflowIff`, `Calendar.YearTwoBillionOverflows`).
- The batch encoder truncates counts and lengths to their fields (`BatchCodec.SurvivesIff`), and
  writes the column table of a batch without rows although its header comment says otherwise.

## Model

| member | source | states |
|---|---|---|
| Hlc.RoundTripIff | src/hlc.rs:37-47 | The 64-bit encoding of a timestamp can be undone exactly when the millisecond part is below 2^48. |
| Hlc.DecodeThenEncode | src/hlc.rs:37-47 | Every 64-bit value decodes to a timestamp that encodes to it again. |
| Hlc.EncodingPreservesOrder | src/hlc.rs:37-47 | Below 2^48 ms, comparing encodings is comparing timestamps, and equal encodings mean equal timestamps. |
| Hlc.Advance | src/hlc.rs:137-156 | The advanced clock is strictly later than before and not behind the wall clock, also when the counter is exhausted. |
| Hlc.HlcClock.Tick | src/hlc.rs:85-93 | The clock takes one tick step and returns its new value, strictly above the old one. |
| Hlc.HlcClock.ObserveCommitted | src/hlc.rs:97-104 | The clock never falls behind itself or the observed commit. |
| Hlc.HlcClock.Update | src/hlc.rs:110-124 | Refused, with the measured skew and without moving the clock, exactly when the remote wall clock is too far ahead; otherwise a strictly later value. |
| Hlc.NeverGoesBack | src/hlc.rs:85-124 | Along any run of ticks, updates and observations, whatever the wall clock does, the clock never goes back. |
| Hlc.IssuedTimestampsIncrease | src/hlc.rs:85-124 | All timestamps handed out along a run strictly increase. |
| Hlc.IssuedAboveObserved | src/hlc.rs:97-104 | Every timestamp handed out lies above each commit observed earlier in the run. |
| Hlc.IssuedIdsIncrease | src/mvcc.rs:105-112 | While a run stays below 2^48 ms, the 64-bit identifiers it hands out strictly increase, so live snapshots never share one. |
| Hlc.UpdatePassesRemoteIff | src/hlc.rs:110-124 | An update passes the remote timestamp except, exactly, when the remote counter is exhausted and the merged clock stays on its millisecond; it then returns the remote timestamp itself. |
| Versions.Newest | src/storage.rs:203-230 | The newest version at or below a snapshot: none lies between it and the snapshot, and None means there is none at all. |
| Versions.FlushMovesReadIff | src/mvcc.rs:149-158 | A commit batch changes what a snapshot reads exactly when it writes the row, its stamp is not above the snapshot and no newer version shadows it. |
| Versions.FlushedRowsReadBack | src/mvcc.rs:149-158 | A later snapshot reads the last value the committed transaction buffered for the row. |
| Versions.CollectKeepsReadIff | src/gc.rs:115-161 | A collection keeps the read of a snapshot exactly unless the snapshot sits between two versions of the row that both lie at or below the horizon. |
| Versions.CollectKeepsReadsFrom | src/gc.rs:115-161 | Reads at or above the horizon survive a collection. |
| Versions.CollectKeepsNewest | src/gc.rs:131-159 | A collection never deletes the newest version of a row. |
| Mvcc.Buffered | src/mvcc.rs:61-66 | Buffering replaces the earlier write of the row; the buffer answers with the latest value. |
| Mvcc.StepChangesReadIff | src/mvcc.rs:105-192 | In every reachable state, of all steps of begins, commits, rollbacks and collections exactly two kinds change what is read at a stamp: the write of a commit whose stamp is not above it, for the rows written, and the deletion of the version read. |
| Mvcc.ScanDoomsIff | src/gc.rs:115-161 | A scan marks the version that a snapshot reads exactly when its horizon lies above the snapshot with a newer version of the row in between. |
| Mvcc.DoomedCanBeLost | src/gc.rs:146-159 | A version so marked can be deleted at once, and what is read changes. |
| Mvcc.HighReadsSpared | src/gc.rs:4-11 | No version that is read at or above the horizon, or at or above the clock, is ever marked. |
| Mvcc.ReadsStable | src/mvcc.rs:105-192 | Along every run, reads at a stamp below which no commit is about to write never change as long as no scan overruns the stamp. |
| Mvcc.PassKeepsReads | src/gc.rs:83-161 | A collection taken apart into its steps keeps every read at or above its horizon, open snapshot or not, while begins, commits and rollbacks run in between. |
| Mvcc.CommitDecision | src/mvcc.rs:139-147 | Looking at the newest stored version decides the same as looking through all past commits. |
| Mvcc.StepKeepsInv | src/mvcc.rs:105-192 | Every step keeps the invariant, without any condition: the registry is the open transactions and the one committing, the clock covers all stamps, commits stay recorded, marked versions are outlived, writers do not overlap, and what the conflict check found holds until the write. |
| Mvcc.SnapshotIsolation | src/mvcc.rs:10-12 | In every run, a transaction whose begin did not tick between the tick and the write of a commit, and that no scan overruns, reads its own writes and otherwise the newest version that existed when it began. |
| Mvcc.SafeHorizonMakesScansSafe | src/gc.rs:18-22 | A horizon taken from a non-empty registry, while no begin below it is between its tick and its registration, never lies above a reader for the rest of its pass. |
| Mvcc.GuardedSnapshotIsolation | src/mvcc.rs:10-12 | Snapshot isolation for all transactions of a run in which begins keep out of the middle of commits and no scan is made under a horizon above a reader. |
| Mvcc.FirstCommitterWins | src/mvcc.rs:129-164 | In every run a commit is refused exactly when another transaction that wrote one of its rows committed after its snapshot, even if collections ran meanwhile. |
| Mvcc.CommittedIntervalsDisjoint | src/mvcc.rs:129-164 | In every run the (snapshot, commit] intervals of two committed writers of a common row are disjoint. |
| Mvcc.NewestNeverLost | src/gc.rs:131-159 | In every run the newest version of a row only ever gets newer, so collection cannot hide a write-write conflict. |
| MvccRaces.EmptyRegistryLosesRead | src/gc.rs:107-113 | A run in which a horizon from an empty registry makes a scan delete what a transaction begun meanwhile reads. |
| MvccRaces.UnregisteredBeginLosesRead | src/mvcc.rs:105-112 | A run in which a begin has ticked and not registered, the horizon of a non-empty registry passes it, and a scan deletes what it reads. |
| MvccRaces.BeginInsideCommitChangesRead | src/mvcc.rs:148-158 | A run in which a transaction begins between the tick and the write of a commit: its read changes when the write arrives, and it may then overwrite the row without being refused. |
| Calls.CommitReaches | src/mvcc.rs:129-164 | The steps of a commit that wins, taken together, write its batch under the new stamp and close the transaction. |
| Calls.PassReaches | src/gc.rs:83-95 | Taking a horizon, scanning the tables in turn and deleting what was marked, with nothing in between, is the specified collection. |
| Calls.WholeCallsIsolate | src/mvcc.rs:10-12 | In every run made of whole calls, each uninterrupted, every open transaction reads its own writes and otherwise what was stored when it began, with no further condition. |
| MvccEngine.Transaction.Buffer | src/mvcc.rs:61-66 | The in-place edit of the write set is the specified buffering. |
| MvccEngine.Transaction.ReadOwnWrite | src/mvcc.rs:69-75 | Searching the buffer from its end finds the latest own write. |
| MvccEngine.StorageEngine.RawScan | src/storage.rs:307-325 | The scan lists every version of the table exactly once. |
| MvccEngine.TransactionManager.Begin | src/mvcc.rs:105-113 | Ticks and registers: the two begin steps are added to the run, the registry grows by the new snapshot and the objects stay in the last state of the run. |
| MvccEngine.TransactionManager.Commit | src/mvcc.rs:129-164 | Refuses a finished transaction unchanged; otherwise adds the steps of a commit to the run, refused exactly when the transaction loses, and the registry shrinks either way. |
| MvccEngine.TransactionManager.HasConflict | src/mvcc.rs:139-147 | The loop over the write set finds a conflict exactly when some written row has a version newer than the snapshot. |
| MvccEngine.TransactionManager.Batch | src/mvcc.rs:150-157 | The batch loop builds the specified atomic write. |
| MvccEngine.TransactionManager.Write | src/mvcc.rs:61-66 | A buffered write is a step of the run. |
| MvccEngine.TransactionManager.Rollback | src/mvcc.rs:167-175 | Clears the buffer, leaves the registry and adds one step to the run; a finished transaction is left alone. |
| MvccEngine.TransactionManager.Read | src/mvcc.rs:179-192 | Own writes first, then the snapshot, as the machine reads in the last state of the run; and that is what was stored at the begin of the transaction. |
| MvccEngine.GarbageCollector.SafeHorizon | src/gc.rs:107-113 | The least active snapshot, or the maximum when none is active. |
| MvccEngine.GarbageCollector.GcTable | src/gc.rs:115-161 | Grouping, sorting and deleting leaves exactly the specified collection of the table, and counts what it deleted. |
| MvccEngine.GarbageCollector.GroupByPk | src/gc.rs:119-127 | Every version of the table is in the group of its primary key, once. |
| MvccEngine.GarbageCollector.Sweep | src/gc.rs:129-158 | For one row, deletes exactly the versions that a newer one at or below the horizon outlives. |
| MvccEngine.GarbageCollector.RunOnce | src/gc.rs:83-95 | A pass over several tables is one collection of all of them under one horizon, with the total count, and goes on with the run of the manager. |
| Calls.CollectTableByTable | src/gc.rs:83-95 | Collecting table by table equals collecting all tables at once, and the counts add up. |
| MvccEngine.LastIsNewest | src/gc.rs:131-145 | In ascending order the last stamp at or below the horizon is the version that is kept. |
| Wire.BigEndianOrder | src/storage.rs:472-479 | Big-endian encodings of one width sort as byte strings the way the numbers do. |
| Storage.EncodeInjective | src/storage.rs:472-479 | No two versions share a byte key. |
| Storage.SeekForPrev | src/storage.rs:203-230 | The seek returns the largest key at or below the sought one, or None if there is none. |
| Storage.LocatedIff | src/storage.rs:203-230 | The seek with its prefix check lands on the newest visible version of the row (or on nothing when there is none) exactly when no key of another row intrudes. |
| Storage.ReadLatest | src/storage.rs:203-230 | Returns what the snapshot reads unless some key intrudes, and then the value of an intruding row. |
| Storage.LatestVisibleTsAny | src/storage.rs:234-254 | Returns the newest stamp of the row unless some key intrudes, and then the stamp of another row. |
| Storage.FixedWidthKeysNeverIntrude | src/storage.rs:472-487 | Tables whose primary keys all have one width are read correctly. |
| Storage.LongerKeyIntrudes | src/storage.rs:203-254 | With variable-width keys, a row whose key continues another key with the eight bytes of its newest stamp hides that version. |
| Sql.PairsImplied | src/query_executor.rs:775-822 | Every mined column pair is implied by the condition: a row that passes equates the two columns, through AND, OR and parentheses. |
| Sql.ConjunctsHold | src/query_executor.rs:1099-1111 | A row that passes a condition passes each of its conjuncts. |
| Sql.EvalInside | src/query_executor.rs:1113-1186 | An expression that refers to one table only evaluates alike on its row and on any joined row with unambiguous names. |
| JoinPlan.EqualValuesMeetIff | src/query_executor.rs:863-875 | Values the condition calls equal meet in the hash index exactly unless both are NULL or they are the two zeros. |
| JoinPlan.PushDownKeepsUseful | src/query_executor.rs:1188-1217 | Push-down only drops rows that no passing result row contains, and keeps order and multiplicity. |
| JoinPlan.MinedKeyMeetsIff | src/query_executor.rs:877-925 | If a joined row passes the condition the key was mined from, the hash join finds it under that key exactly unless its two key values are NULLs or the two zeros. |
| JoinPlan.ExtendThins | src/query_executor.rs:997-1010 | Hash join or product of thinned sides is the full product of the sides, thinned, in order, and holds only rows that meet under the key. |
| JoinPlan.ExtensionThins | src/query_executor.rs:987-1043 | Joining the next relation on its key drops from the Cartesian product only rows that do not meet or that no passing result contains. |
| JoinPlan.SourceTrims | src/query_executor.rs:965-1049 | Every round of the FROM clause, first, comma or inner join with its ON, keeps that. |
| JoinPlan.PipelineMeansProductWithoutLost | src/query_executor.rs:367-393 | Whenever no row budget stops the query, push-down, hash joins and the final WHERE give the filtered Cartesian product, in its order, without exactly the rows that have two NULLs or the two zeros under a key the query joins on. |
| JoinPlan.PipelineMeansFilteredProductIff | src/query_executor.rs:367-393 | The result is the filtered Cartesian product exactly when it has no such row. |
| JoinLoss.MeetingKeysSuffice | src/query_executor.rs:877-961 | That is so whenever no relation holds, under a pair its condition equates, two NULLs or the two zeros against an earlier one; NULL on one side, or in other columns, does no harm. |
| JoinLoss.TwoTablesIff | src/query_executor.rs:877-1043 | For two tables, joined by a comma or by INNER JOIN with any ON, and any WHERE: the result is right exactly when no pair of stored rows that passes both has two NULLs or the two zeros under the join key. |
| JoinLoss.EquiJoinIff | src/query_executor.rs:877-1043 | For two tables and one equality, in WHERE or in ON: exactly when no key value is NULL in both tables, and none is one zero here and the other there. |
| JoinLoss.UnmetKeysLoseRow | src/query_executor.rs:927-961 | For every pair of values that are equal but do not meet (two NULLs, the two zeros), the pipeline loses a row that filtering the product keeps. |
| JoinLoss.LowerCaseIsClear | src/query_executor.rs:833-861 | References written in lower case satisfy the naming condition for every header. |
| JoinExec.CrossProduct | src/query_executor.rs:1229-1244 | The nested loops build the ordered product, or stop exactly when it exceeds the budget. |
| JoinExec.BuildIndex | src/query_executor.rs:933-941 | Each bucket lists the positions of its key in row order; NULL keys are in none. |
| JoinExec.HashJoinKeyed | src/query_executor.rs:927-961 | Index and probe give exactly the ordered key join, or stop when it exceeds the budget. |
| JoinExec.ApplySingleTablePredicates | src/query_executor.rs:1188-1217 | Retaining by each applicable conjunct is the specified push-down. |
| JoinExec.SearchJoinKey | src/query_executor.rs:877-925 | The search over pairs and both orientations returns the first usable key. |
| JoinExec.ResolveFrom | src/query_executor.rs:965-1049 | The loop over relations computes the specified FROM clause, or stops at the first exceeded budget. |
| JoinExec.Select | src/query_executor.rs:367-393 | The executor returns the filtered Cartesian product without exactly the lost rows. |
| RaftStore.EntryRoundTrip | src/raft_persistence.rs:138-200 | An encoded log entry decodes to itself under its index. |
| RaftStore.StagedRoundTrip | src/raft_persistence.rs:246-298 | An encoded staged snapshot decodes to itself. |
| RaftStore.LoadsWhatIsHeldIff | src/raft_persistence.rs:423-503 | Loading the split representation returns the held state exactly unless its boundary is the last 64-bit index. |
| RaftStore.MatchingLogsContinue | src/raft_persistence.rs:301-389 | Log Matching (section 5.3 of the Raft paper) and one snapshot per boundary are enough for the incremental save. |
| RaftStore.SaveHolds | src/raft_persistence.rs:301-389 | Saving over a held state leaves the new state held with no stale record. |
| RaftStore.SaveLoadsBackIff | src/raft_persistence.rs:301-503 | A save can be loaded back exactly when it continues the state it replaces and its boundary is not the last index. |
| RaftStore.EveryRunRefines | src/consensus/log.rs:114-170 | After any run of saves, staging, loads and crashes, the incremental store loads what the reference store holds and its cache, when filled, equals the durable hard state. |
| RaftStore.RocksDbRaftStore.CurrentHardState | src/raft_persistence.rs:102-128 | Fills the cache from the durable hard state and returns it. |
| RaftStore.RocksDbRaftStore.SaveState | src/raft_persistence.rs:301-389 | Publishes the specified batch, or nothing when an entry is missing or cannot be encoded. |
| RaftStore.RocksDbRaftStore.LoadState | src/raft_persistence.rs:423-503 | Returns what is specified to be loaded, all error cases included. |
| RaftStore.PutLogRange | src/raft_persistence.rs:210-230 | Writes exactly the records of the range, or fails exactly when one of them is too long. |
| RaftStore.ReadEntries | src/raft_persistence.rs:438-446 | Reads the range in order or reports the first missing or malformed record. |
| RaftStore.DeleteLogRange | src/raft_persistence.rs:232-244 | Deletes exactly the range. |
| Membership.TransitionKeeps | src/consensus/membership.rs:209-310 | Every accepted change gives a valid membership of the next generation that forgets no identity and no tombstone. |
| Membership.MajoritiesMeet | src/consensus/membership.rs:173-189 | Two majorities of one voter set have a common member. |
| Membership.NeighbouringMajoritiesMeet | src/consensus/membership.rs:227-293 | So do majorities of two voter sets that differ by one member. |
| Operator.Validate | src/operator.rs:87-118 | The loop with its address set reports exactly the first failing condition, duplicate addresses included. |
| Operator.RemovalIsSafe | src/operator.rs:207-226 | A planned removal is of an undesired member, comes after every desired voter votes, never takes the leader out as a voter, and leaves the floor and a ready majority. |
| Operator.DecidedRemoval | src/operator.rs:122-226 | The same for a plan made from any whole observation. |
| Operator.FloorNeverBlocks | src/operator.rs:207-214 | When a removal is refused as unsafe, the voter floor is never the reason. |
| Convergence.BlockedIff | src/operator.rs:143-250 | On a fit deployment, where undesired voters may be down, the plan is Blocked exactly when the first member to be removed is a voter without whom no ready majority is left. |
| Convergence.OrderBlocksIff | src/operator.rs:207-214 | In numbers: exactly when that member is a ready voter and the ready voters outnumber the others by one. |
| Convergence.NeverBlocked | src/operator.rs:143-250 | If, in the order of removals, each undesired voter leaves a ready majority behind, the plan is never Blocked. |
| Convergence.FewDownDrains | src/operator.rs:207-214 | That is so whenever fewer undesired voters are down than voters are desired. |
| Convergence.ActionDropsMeasure | src/operator.rs:178-245 | From every accepted, unobstructed observation, ready and caught up or not, each action other than Blocked and Converged strictly decreases the pair of work left and leader-goes-first. |
| Convergence.MoveKeepsFit | src/operator.rs:178-245 | Carrying out an action keeps the deployment fit. |
| Convergence.MoveKeepsDrains | src/operator.rs:207-226 | It also keeps the order of removals workable. |
| Convergence.MoveKeepsJam | src/operator.rs:207-226 | And it never makes an unworkable order workable unless an undesired voter comes back. |
| Convergence.ServingIsHealthy | src/consensus/raft.rs:1586-1603 | An observation as a serving leader reports it, with the progress of every target but itself, is healthy when ready targets have caught up. |
| Convergence.HealthyStep | src/operator.rs:122-250 | Carrying out the plan of a healthy observation leaves a healthy deployment with a smaller measure. |
| Convergence.StepExists | src/operator.rs:60-67 | The planned action of a healthy deployment can always be carried out, membership generations included, to an observation in which the leader reports the progress of exactly the other targets. |
| Convergence.Converges | src/operator.rs:122-250 | However plans are carried out, a healthy undisturbed deployment whose order of removals works out reaches the goal within as many actions as its measure. |
| Convergence.Jams | src/operator.rs:207-214 | Every other healthy deployment ends in a removal refused as unsafe, unless an undesired voter that is down comes back. |
| Convergence.ReplacesDeadVoters | src/operator.rs:122-250 | Dead voters are replaced: with fewer undesired voters down than voters desired, the goal is reached. |
| Convergence.OtherOrderIsSafe | src/operator.rs:203-214 | Where the order blocks, removing an undesired voter that is down would have been safe. |
| Convergence.LiveVoterFirstJams | src/operator.rs:203-214 | Five voters, two of them desired and two down: if the third that runs comes first in order, the removals jam. |
| Convergence.ConvergedMeansDone | src/operator.rs:227-249 | Converged means: voters equal to the desired ones, no learners, exactly the voters running, no removed process running. |
| Operator.CarriedOutMembership | src/consensus/membership.rs:209-293 | What each membership action does to voters, learners and tombstones once its joint configuration is finalised. |
| Operator.RunsAreSafe | src/operator.rs:178-226 | Along every run with one desired topology and arbitrary observations, a desired voter that votes keeps voting, none is tombstoned, and removals start only when all desired voters vote. |
| Operator.SuccessiveMajoritiesMeet | src/operator.rs:178-226 | Every majority of one voter set of such a run meets every majority of the next. |
| Progress.MeasureMakesInevitable | src/operator.rs:122-250 | A measure that every step decreases bounds the way to the goal in every execution. |
| JoinGraph.BuildAdjacency | src/join_graph.rs:113-121 | Each list holds the other ends of the edges at a table in edge order, self-loops twice. |
| JoinGraph.Dfs | src/join_graph.rs:179-198 | Terminates as the unvisited tables shrink; true only with a cycle in reach, false only with everything in reach explored as a tree. |
| JoinGraph.HasCycle | src/join_graph.rs:112-130 | True exactly when some search start reaches a cycle other than through an edge between that start and the empty name, for all graphs with parallel edges and self-loops. |
| JoinGraph.TreeHasNoCycle | src/join_graph.rs:179-198 | What a search that returned false has explored contains no cycle. |
| JoinGraph.ChordClosesCycle | src/join_graph.rs:187-194 | An edge outside the search tree between two visited tables closes a cycle. |
| JoinGraph.NamedCyclesAreSeen | src/join_graph.rs:112-130 | If no listed table is joined with the empty name, the answer is exactly whether some listed table reaches a cycle. |
| JoinGraph.MissesEmptyName | src/join_graph.rs:125 | Parallel predicates between a table and the empty name are a cycle that is never reported. |
| PitrSegment.ValidRecordIff | src/pitr.rs:75-159 | A record is valid exactly when it is the record of its own log entry; the payload alone decides its kind. |
| PitrSegment.SegmentRoundTrip | src/pitr.rs:188-318 | Every valid segment is decoded from its encoding. |
| PitrSegment.DecodeIff | src/pitr.rs:215-318 | Accepted bytes are exactly the encodings of valid segments. |
| PitrSegment.EncodeInjective | src/pitr.rs:188-213 | No two valid segments have one encoding. |
| PitrSegment.AnchorInjective | src/pitr.rs:359-368 | The baseline anchor input determines timeline, index, term and backup hash. |
| PitrSegment.AnchorIsNoSegment | src/pitr.rs:359-368 | An anchor input is never the encoding of a segment. |
| PitrSegment.FormatIsLawful | src/pitr.rs:188-368 | The archive format satisfies all laws the chain theory rests on, whatever the digest. |
| PitrChain.VerifyArchiveChain | src/pitr.rs:379-428 | The loop returns what chain verification specifies, each error included. |
| PitrChain.VerifiedIff | src/pitr.rs:379-428 | Verification accepts exactly the encodings of gap-free hash-linked chains below the last index, and returns their frontier. |
| PitrChain.HashPinsPrefix | src/pitr.rs:359-428 | Two chains without a digest collision whose hashes agree at one link agree on the spec and on every segment before it. |
| PitrChain.FrontierPinsChain | src/pitr.rs:372-428 | A verified chain is determined by its frontier hash. |
| PitrChain.ForeignSegmentNeverVerifies | src/pitr.rs:396-400 | The bytes of a segment of one timeline verify in no stream of another, wherever they are put. |
| PitrArchive.AppendKeeps | src/pitr_archive.rs:347-382 | Any append leaves the directory one chain, extended by at most one segment, with the frontier of this and every other writer on it. |
| PitrArchive.AppendArchives | src/pitr_archive.rs:347-382 | An append that succeeds leaves exactly this entry under its index; one that finds another entry there fails and changes nothing. |
| PitrArchive.PublishKeeps | src/pitr_archive.rs:462-521 | Creating the next file and finding an equal one from another writer both continue the chain. |
| PitrArchive.EveryRunIsConsistent | src/pitr_archive.rs:314-435 | However any number of writers interleave, conflict, crash and reopen, the directory stays one gap-free chain that only grows and every frontier is the one recomputed over a prefix. |
| PitrArchive.PublishedNeverChanges | src/pitr_archive.rs:462-521 | Published segments never change and never go away. |
| PitrArchive.StreamsReopen | src/pitr_archive.rs:314-338 | From an empty stream on, reopening finds the frontier of the whole directory as long as the listing and index limits are not reached. |
| PitrArchive.OneChain | src/pitr_archive.rs:384-435 | A directory holds at most one chain. |
| PitrArchive.ListSegmentFiles | src/pitr_archive.rs:604-649 | Lists the file indexes in order, each once. |
| PitrArchive.VerifyChain | src/pitr_archive.rs:384-435 | Succeeds exactly on directories that hold a chain within the limits, with the frontier of the whole. |
| PitrArchive.PitrArchiveWriter.constructor | src/pitr_archive.rs:314-338 | Opening recomputes the frontier from the directory, or fails. |
| PitrArchive.PitrArchiveWriter.AppendCommitted | src/pitr_archive.rs:347-382 | Directory, frontier and result change as specified. |
| PitrArchive.PitrArchiveWriter.PublishSegment | src/pitr_archive.rs:462-521 | Creates the file unless it is there; a file that is there must say the same apart from its creation time. |
| PitrRuntime.PitrRuntimeArchiver.Archive | src/pitr_runtime.rs:132-160 | Skips the baseline, stops at the segment limit, and otherwise appends. |
| PitrRuntime.StepKeepsFence | src/pitr_runtime.rs:80-160 | Every apply, publish, confirm, crash and accepted restart keeps the fence. |
| PitrRuntime.ConfirmedIsArchived | src/main.rs:218-236 | Over every run every confirmed entry above the baseline is archived under its index, the archive never runs ahead of durable apply, and the segment count never passes the limit. |
| PitrRuntime.CrashLeavesBehind | src/main.rs:218-236 | A crash between apply and publication leaves the archive behind durable apply. |
| PitrRuntime.BehindForever | src/main.rs:246-264 | From then on nothing is archived or confirmed again, however often the node restarts, because it resumes above the durable apply index. |
| PitrRuntime.RestartArchivesIff | src/pitr_runtime.rs:80-120 | After an accepted restart the next entry is archived exactly when the archive had caught up with durable apply. |
| PitrReplay.RecoverTo | src/pitr_replay.rs:97-165 | What the replay loop returns is the fold of a chain of exactly the files up to the target; on a held directory it always returns the fold up to the target or the first failure to apply an entry or its membership change. |
| PitrReplay.ReplayFolds | src/pitr_replay.rs:129-165 | A replay that goes through has folded exactly the entries above the baseline up to the target, and reports their count and last term. |
| PitrReplay.ReplayKeepsMembership | src/pitr_replay.rs:149-153 | The membership changes of the replayed entries lead to a valid membership of no earlier generation that has forgotten no identity. |
| PitrReplay.ReplayComposes | src/pitr_replay.rs:129-165 | Replay composes across a branch: parent entries up to the branch point, child entries from there on. |
| PitrReplay.EventKeeps | src/pitr_replay.rs:293-340 | An accepted membership change or recovery gives a valid membership of a later generation; a recovery identity was unknown before. |
| PitrReplay.IdentitiesNeverRepeat | src/pitr_replay.rs:309-340 | Along any lineage of changes and recoveries generations strictly grow and no recovery takes an identity the lineage has known. |
| PitrBranch.NewTimelineIsNew | src/pitr_branch.rs:67-79 | Whatever the random bytes, a branch timeline is neither zero nor its parent timeline. |
| PitrBranch.BranchIsRooted | src/pitr_branch.rs:28-104 | An accepted branch starts at the branch index with the term the parent chain has there, on a timeline of its own. |
| PitrBranch.ParentNeverJoinsBranch | src/pitr_branch.rs:22-27 | No segment of the parent ever verifies in the branch. |
| PitrBranch.VerifyMovedStream | src/pitr_retention.rs:109-214 | Succeeds exactly when the moved directory is complete, holds what the writer knew and nothing else, and has nothing staged. |
| PitrBranch.RetirementKeepsNewest | src/pitr_retention.rs:38-79 | Whatever index could be recovered, that or a newer one still can be after retirement, even if the old stream grew behind its writer. |
| PitrBranch.DeletedOnlyWhenReplaced | src/pitr_retention.rs:81-107 | A stream is deleted only unchanged and replaced, at its own frontier and term, by a child on another timeline. |
| BatchCodec.ValueRoundTrip | src/codec.rs:257-287 | Every value that fits its column type is read back, two’s complement, float bit patterns and text included. |
| BatchCodec.NullBitsAt | src/codec.rs:90-97 | Bit i of the row bitmap is set exactly when cell i is null. |
| BatchCodec.RowRoundTrip | src/codec.rs:90-105 | A row of fitting cells is read back, null positions included. |
| BatchCodec.BatchRoundTrip | src/codec.rs:61-233 | A well-typed batch within the limits is read back from its encoding followed by any bytes. |
| BatchCodec.DecodedIsWithinLimits | src/codec.rs:115-233 | Whatever is decoded is within the limits. |
| BatchCodec.SurvivesIff | src/codec.rs:61-233 | A well-typed batch survives encoding and decoding exactly when it is within the limits. |
| BatchCodec.EncodingsArePrefixFree | src/codec.rs:61-109 | No encoding is a prefix of another batch’s encoding. |
| BatchCodec.WriteRow | src/codec.rs:90-105 | Setting bits and appending values gives the specified row. |
| BatchCodec.EncodeBatch | src/codec.rs:61-109 | The encoder gives the specified bytes, or fails on ragged columns. |
| BatchCodec.ReadRowInto | src/codec.rs:153-204 | The cursor reads the specified row and pushes each cell onto its column. |
| BatchCodec.DecodeBatch | src/codec.rs:115-233 | The decoder returns the specified batch for all bytes. |
| Items.ManyRoundTrip | src/codec.rs:80-106 | Fitting items written one after another are read back one after another. |
| Formats.PairIsExact | src/replicated_identity.rs:378-396 | Two inverse formats in sequence are an inverse format. |
| Formats.BlobIsExact | src/replicated_identity.rs:324-329 | Length-prefixed bytes are written and read inversely. |
| Formats.ManyCanonical | src/replicated_identity.rs:226-231 | A run of items that is read is what stands there. |
| IdentityCodec.UsersAreExact | src/replicated_identity.rs:278-396 | User records and drop records are written and read inversely. |
| IdentityCodec.Bijection | src/replicated_identity.rs:151-262 | Decoding to a command implies that it encodes to those bytes, and an encoding decodes to the command with its users in order, for every command and every byte string. |
| IdentityCodec.InitializationIsOrdered | src/replicated_identity.rs:157-174 | An encoded initialisation decodes to the same users, strictly in order. |
| IdentityCodec.EnsureUserOrder | src/replicated_identity.rs:294-305 | Accepts exactly valid users in strict order. |
| IdentityCodec.EncodeMutation | src/replicated_identity.rs:151-202 | The encoder gives the specified bytes or fails. |
| IdentityCodec.DecodeMutation | src/replicated_identity.rs:206-262 | The decoder returns the specified command for all bytes. |
| IdentityCodec.Reader.NextUser | src/replicated_identity.rs:371-396 | The advancing reader takes a user as the format reads it. |
| Calendar.CivilRoundTrip | src/extended_protocol.rs:527-539 | A real date is read back from its day number. |
| Calendar.DaysRoundTrip | src/binder.rs:687-695 | Every day number is the number of a real Gregorian date and is recomputed from it. |
| Calendar.NextDayCounts | src/binder.rs:687-695 | The calendar successor of a date has the next day number. |
| Calendar.DaysFollowCalendar | src/extended_protocol.rs:527-539 | Day zero is 1970-01-01 and each day number is the calendar successor of the one before. |
| Calendar.PostgresEpoch | src/extended_protocol.rs:357-364 | The shift between the PostgreSQL and the Unix epoch is 10957 days. |
| Calendar.AcceptedMeansItselfIff | src/binder.rs:672-685 | An accepted date means itself exactly when it is real; otherwise it runs over into the next month. |
| Calendar.OverflowIff | src/binder.rs:672-695 | For every accepted date the conversion overflows 32-bit arithmetic exactly when the day number is not a 32-bit integer or among the last 719468 of them. |
| Calendar.WayBackOverflowsIff | src/binder.rs:687-695 | The date of a 32-bit day number cannot be converted back exactly for the last 719468. |
| Calendar.YearTwoBillionOverflows | src/binder.rs:678-684 | The accepted date 2000000000-01-01 overflows. |

## Left out

- LEFT OUTER JOIN: WHERE conjuncts are applied to the right side before padding, so the equivalence with the filtered product does not extend to it.
- Window functions, ORDER BY, grouping, aggregation, set operations, subqueries and projection: they come after the rows the pipeline theorem is about, and comparison by NULL keys is no order.
- Resolution of table factors: FROM is given as a flat list of relations with their qualified columns; derived tables and correlated outer rows are not modelled.
- Expression operators other than AND, OR, equality and parentheses: one uninterpreted operator stands for all of them.
- Row and table discovery for collection (`discover_table_ids`) and the background collection thread: they only call the modelled pass.
- Raft itself (elections, replication, leadership transfer, read barriers): membership, logs and commit order enter as given.
- Installation of a Raft snapshot on a node with an archive: the fence is modelled for entries that are applied one by one.
- The historical whole-state record of the Raft store is read but never written; its JSON form and that of the hard state and stream metadata are taken as faithful.
- File system mechanics (staging names, fsync, permissions, hard links) and I/O errors, those of RocksDB included: publication is one create-if-absent step, and a commit's batch is always written.
- MvccEngine.TransactionManager.Begin: a call runs its steps without interruption; how the steps of concurrent calls interleave is the subject of `Mvcc` and `MvccRaces`.
- Encryption of segments, SCRAM and the digest itself: encryption is the identity, and collision freedom is assumed only of the inputs hashed in the two chains compared.
- Which error is reported: the identity codec, the batch codec and `PitrArchive.ReadNext` distinguish success from failure; the other modules model the errors the code distinguishes.
- The offset table inside a text column: a text column is a sequence of optional strings.
- Text of dates: only the numeric conversions are modelled; formatting a year before 0 gives text that the parser's split on '-' cannot read.
- `operator.rs` plan validation and retry back-off, and `join_graph.rs` statistics: easy members.
- Convergence.Converges: assumes the deployment is otherwise undisturbed, as the convergence claim does: desired processes become ready, nobody who was ready goes down, and leadership moves only by planned transfer.
- JoinPlan.PipelineMeansProductWithoutLost: column references are taken to be unambiguous; the executor resolves an ambiguous one to the first match instead of refusing it.
- Operator.Validate: identities are compared and measured as UTF-8 bytes.
- PitrRuntime.ConfirmedIsArchived: one archive writer per node; several writers of one directory are the subject of `PitrArchive.EveryRunIsConsistent`.
- JoinGraph.Dfs: the shared visited set is passed in and out instead of by reference.
- PitrBranch.RetirementKeepsNewest: retirement is modelled on values, not by renaming directories in place.
- RaftStore.EveryRunRefines: requires saves to obey Log Matching and one snapshot per boundary, which Raft provides, and boundaries below the last 64-bit index.
