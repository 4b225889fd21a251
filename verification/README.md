# Birak, verified

Birak is an asynchronous, last-writer-wins file replicator. Every node keeps a full
copy of a directory, indexes it in SQLite, and polls its peers for changes. This
project models the parts of it that have to be right together, and proves what they
promise over every input, every run and every place where a process may stop.

Strings are sequences of Unicode scalar values, whose order is the byte order of UTF-8.
A SQLite transaction is one atomic step. SHA-256 is an arbitrary function `h`; where a
result needs it to be free of collisions, the result says so. What the world decides
(answers of peers, failures of system calls, the moment a process ends, what other
threads do in between) is a parameter: a list of fates that the code consumes effect
by effect, or a list of moves of everything else.

| module | what it models |
|---|---|
| `Text`, `Meta` | byte order of names; the metadata of a file |
| `Clock`, `Conflicts`, `Rank` | the logical clock that cannot overflow, namespace clocks and conflict names, the order of states that every node computes alike |
| `Store` | the tables and their transactions, as an object |
| `Replication`, `Syncing` | one node reading one peer: the protocol as steps, and the polling, repair and reconciliation loops as they are carried out, among arbitrary moves of everything else |
| `Node`, `Recovery`, `Operations` | one node's disk, index and intents as steps, what holds over all runs, and the operations as they are carried out, failing or cut after any effect |
| `Repair` | one repair carried out to its end: the worker of `Syncing` with the apply of `Operations` inside it |
| `Cluster` | many nodes exchanging states |
| `Trees`, `Replacement` | the journal behind MOVE and COPY over an existing tree, and its recovery |
| `Listing` | the two forms of an S3 listing page and the walk along continuation tokens |
| `Chunked` | the aws-chunked decoder with its signature chain |
| `Partial` | resumable downloads and what a power cut leaves of them |
| `Resolve` | the single-pass symlink walk against the search over all ancestors |
| `Fence`, `NameFence` | the lock-free read fence: registered readers against quarantined objects, and checks through a cached index of quarantined names |
| `Budget` | the budget of inferred deletions |

A step relation (`Replication.Next`, `Node.Next`, `Fence.Next`, `NameFence.Next`) carries
an inductive invariant; results about runs follow from it. The imperative classes beside it
(`Syncing.Syncer`, `Operations.Volume`) are written like the Go code, and each of their
effects is proved to be one of those steps, so whatever holds of all runs holds of them.

Where a promise fails in a corner, the code is modelled as it is. The failing case is a
lemma of its own, and the promise is proved under the condition that shuts out exactly
the failing cases:

* The cursor is safe if the node's ignore rules are upward closed, or if the peer's rows
  only rise strictly along the run, whatever the rules (`Replication.CursorSafety`,
  `CaughtUp`). For all other rules there is a run that breaks it (`CursorUnsafe`;
  `SafeIgnoreLists` says which rules these are): a state can be refused because of the
  name that displaced it or the name it is a copy of; a worker that fetches such a state
  counts its row as done, and after the peer is restored from a backup nothing covers the
  usable state any more. Reconciliation finds it again, from any cursor and under any rules
  (`Syncing.Syncer.ReconcileOnce`), and from that very state
  (`Syncing.ReconciliationFindsPassed`).
* A reader takes no bytes after a returned quarantine unless its own Close is under way
  (`Fence.NoBytesWhileQuarantined`, `ClosingReaderIsMissed`): Close deregisters a reader
  before it marks it closed.
* Following listing tokens ends for every page size but 0 (`Listing.FollowTokens`,
  `EmptyPageIsStuck`); requests are clamped to 1 to 10000 (`ClampMaxKeys`).
* The deletion budget holds for half-open windows if and only if no decision follows a
  deletion that could not be confirmed, nor, while something has been published before, a
  start that reads no window or one that was not saved (`Budget.BudgetHolds`,
  `BudgetFails`). The failing cases are runs of events: a deletion whose confirming read
  fails, a window not written before a restart, one not read after it, and a process that
  ends between publishing and recording (`UnconfirmedOverspends`,
  `UnsavedRestartOverspends`, `UnreadRestartOverspends`, `KilledOverspends`); for closed
  windows no fault is needed (`ClosedWindowExceeds`). Under all faults each process
  publishes at most the limit and one more for each deletion it could not confirm
  (`BudgetPerProcess`).
* A recovery deletes an object that no manifest lists exactly when the journal has a stage,
  it is there as a directory, and the sweep empties it (`Replacement.Volume.Recover`,
  `StageEmptiesAfter`, `StageIsUnlisted`); `RecoverLeftStage` shows it on a volume.
* A chunked body that is accepted when the transport reports its end with the last bytes is
  refused otherwise if and only if exactly 4096 bytes follow its last newline
  (`Chunked.TransportMatters`, `TransportDecides`); no verdict on any other body depends on it.

A predicate written `P(x) == true` in a contract or an invariant is the fact `P(x)`, carried
as one: the comparison keeps the verifier from spreading its definition over the proof, and
means nothing else.

Verify with `dafny verify dfyconfig.toml`.

## Model

| member | source | states |
|---|---|---|
| Text.ExtensionRange | internal/store/conflicts.go:15-44 | In byte order, the half-open range from `p`+c to `p`+(the next character) holds exactly the strings that extend `p`+c; the fact behind every index range used for a subtree |
| Clock.CompareDecimalNumeric | internal/store/clock.go:31-36 | For canonical digit strings of any length, comparing by length and then by text is comparing the numbers they denote |
| Clock.CompareClockNumeric | internal/store/clock.go:38-49 | For all validated metadata `CompareClock` is numeric comparison, also across the border between the int64 clock and its decimal continuation |
| Clock.ValidateClock | internal/store/clock.go:13-29 | The digit loop accepts exactly the representations of a clock: an int64 without continuation, or a canonical decimal above MaxInt64 with the int64 saturated |
| Clock.FormatIntRoundTrip | internal/store/clock.go:64-67 | Formatting a number in decimal and reading it back gives the number, and the digits are canonical |
| Clock.ClockDigits | internal/store/clock.go:64-67 | The digits of a positive int64 clock are canonical and denote it, up to MaxInt64 |
| Clock.IncrementAddsOne | internal/store/clock.go:68-80 | Adding one digit by digit adds one to the number, for every length and every run of nines, and keeps digits canonical |
| Clock.CarryStops | internal/store/clock.go:68-80 | The closed form of the carry: the nines behind the stopping digit become zeros, the digit grows by one, and a string of nines grows by one place |
| Clock.AddOne | internal/store/clock.go:68-80 | The in-place carry loop over the digit array computes the increment |
| Clock.AdvanceClock | internal/store/clock.go:53-82 | The result is valid, orders strictly after `previous`, changes nothing but the clock, and its value is exactly the greatest of 1, the state's own clock, its mtime and one more than `previous`: no overflow, no lost carry |
| Conflicts.DescendantRange | internal/store/conflicts.go:15-44 | A name lies in [name+"/", name+"0") if and only if it is a descendant of `name` |
| Conflicts.NamespaceNames | internal/store/conflicts.go:15-24 | The walk up the path collects exactly the name and its ancestors |
| Conflicts.NamespaceClock | internal/store/conflicts.go:15-44 | Returns a clock exactly when some row is at the name, above it or below it, and then the greatest of their clocks, although the two clock columns are maximised separately |
| Conflicts.CopyNameOutsideTree | internal/store/conflicts.go:60-64 | A conflict copy's name has no separator, differs from the original and never conflicts with it as file against directory |
| Conflicts.CopyNamesDiffer | internal/store/conflicts.go:48-50 | Copies of files at different names have different names |
| Rank.CompareStateReflexive | internal/store/store.go:914-954 | Every state, absent ones included, ties with itself |
| Rank.CompareStateFlip | internal/store/store.go:914-954 | Swapping the states negates the comparison, for all pairs of absent, live, deleted and displaced states |
| Rank.CompareStateTransitive | internal/store/store.go:914-954 | The order is transitive over all states, validated or not, and a chain ties only if each of its links does; with the two rows above, a total preorder |
| Rank.SupersededTiesWithWinner | internal/store/conflicts.go:54-56 | A settlement invents no rank: the tombstone it leaves at any losing name compares equal to the live winner and has a valid clock |
| Rank.TieMeansEquivalent | internal/store/store.go:914-954 | Two validated states of one name tie if and only if they have the same clock and mtime and either both are plainly deleted or both stand for the same content of the same owner |
| Rank.MergeAllIsGreatest | internal/syncer/syncer.go:1704-1706 | Applying any sequence of states by `remoteWins` leaves one of the states seen, and none of them ranks above it |
| Rank.Convergence | internal/syncer/syncer.go:1704-1706 | Nodes that have seen the same validated states of a name, in any order and with any repeats, end with equivalent rows |
| Store.LocalWriteRanksAbove | internal/store/store.go:511-532 | A committed local write ranks strictly above every row at its name, above it and below it |
| Store.LocalStateExists | internal/store/store.go:511-532 | Such a write is always possible: for every table and every clock in it there is a state that meets the rule |
| Store.EnqueueKeepsRows | internal/store/store.go:1003-1104 | An enqueue never lowers a queued state, touches no other peer, and gives every row it changes a revision above all earlier ones, so an unchanged revision means an unchanged row |
| Store.EnqueueCovers | internal/store/store.go:1003-1104 | A batch that is not cut short by the limit leaves each of its states matched or beaten by a queued row of its name |
| Store.Store.constructor | internal/store/store.go:511-532 | An empty store satisfies the object's invariant |
| Store.Store.CommitPut | internal/store/store.go:511-578 | Refuses exactly the malformed clocks and then changes nothing; a replica row is stored as given; a local row takes the exact clock its namespace demands; either takes the next version and drops the name's replica intent |
| Store.Store.BeginLocal | internal/store/intents.go:11-28 | Adds exactly the given paths to the announced ones, in one transaction |
| Store.Store.EndLocal | internal/store/intents.go:57-71 | Takes back exactly the given paths |
| Store.Store.HasLocalIntent | internal/store/intents.go:45-56 | The loop over the announced paths answers yes if and only if one of them is the name or a directory above it |
| Store.Store.StageReplica | internal/store/intents.go:75-84 | The intent replaces an earlier one of the name and nothing else changes |
| Store.Store.ClearReplicaIntent | internal/store/intents.go:121-126 | Only the name's intent goes |
| Store.Store.EnqueueChanges | internal/store/store.go:1003-1104 | The loop over the batch, with its cached per-peer counts, leaves the queue that the one-row-at-a-time definition gives, the number written and whether it stopped, and the counts stay true |
| Store.Store.ResolveRepairItem | internal/store/store.go:1202-1208 | Deletes the row only while its revision is the one the worker took; the cached counts stay true |
| Store.Store.DeferRepairItem | internal/store/store.go:1227-1233 | Counts an attempt only on the row the worker took; its state, version and revision stay |
| Replication.CollapseByName | internal/syncer/syncer.go:1725-1744 | Keeps exactly one entry per name, taken from the page and at least as new as every entry of that name, and the highest version of the whole page |
| Replication.CoveredRises | internal/syncer/syncer.go:662-711 | A state that is covered (excluded here, matched or beaten by the local row, or queued) stays covered when rows and queue rows rise |
| Replication.PollStepReads | internal/syncer/syncer.go:547-711 | Asking, answering, resetting, recording the epoch, comparing, enqueueing, advancing and failing each keep the part of the invariant behind the cursor |
| Replication.WorkerStepWorks | internal/syncer/syncer.go:964-1015 | For any ignore rules: taking, skipping, fetching, applying, resolving, deferring and abandoning a queue row each keep the queue's part of the invariant and uncover nothing the peer still offers, although the row may be replaced meanwhile |
| Replication.ResolveGrows | internal/syncer/syncer.go:1008-1015 | A finished worker uncovers nothing: work that arrived during the attempt has a newer revision and stays |
| Replication.NextWorks | internal/syncer/syncer.go:547-1015 | The queue's part of the invariant asks nothing of the cursor; every step keeps it, and uncovers nothing the peer still offers, if the rules are upward closed or the peer's rows do not fall in that step |
| Replication.NextKeeps | internal/syncer/syncer.go:547-711 | Every step of node, peer and workers, crashes included, keeps the whole invariant if the rules are upward closed (peer restarts from any backup included) or the peer's rows do not fall in that step (any rules) |
| Replication.CursorSafety | internal/syncer/syncer.go:547-711 | In every state of every run, while the stored epoch is the peer's incarnation, each row of the peer at or below the cursor is excluded here, matched or beaten by the local row, or queued: for upward closed ignore rules in all runs, and for ARBITRARY rules in runs whose peer rows only rise strictly, no older backup being restored |
| Replication.CaughtUp | internal/syncer/syncer.go:547-711 | Under the same alternative, a cursor at the peer's newest version and an empty queue mean that the node holds every usable state of the peer, or a greater one |
| Replication.CursorUnsafe | internal/syncer/syncer.go:975-1003 | Outside of that alternative it fails: whenever a rule excludes a well-formed state at or above a usable one of its name, there is a run that ends with a passed row nothing covers (a worker fetches the excluded state and counts its row as done, then the peer is restored from a backup) |
| Replication.SafeIgnoreLists | internal/syncer/syncer.go:808-818 | In terms of a node's ignore list: the rules are upward closed if and only if no well-formed state whose own name is replicated refers to an ignored name |
| Syncing.PathIsSafe | internal/syncer/syncer.go:547-711 | Along every path, from any cursor, no step of anyone uncovers a state the peer still offers; for upward closed rules, or for any rules while the peer's rows do not fall |
| Syncing.ReachesIsSafe | internal/syncer/syncer.go:547-711 | Being reached by steps is a relation the loops below keep, and for EVERY configuration one that keeps the invariants and all coverage when the rules are upward closed or the peer is idle |
| Syncing.CheckVersions | internal/syncer/syncer.go:609-615 | Accepts a page if and only if its versions rise strictly from the cursor |
| Syncing.CheckNames | internal/syncer/syncer.go:1156-1162 | Accepts a manifest page if and only if its names rise strictly from the position |
| Syncing.Usable | internal/syncer/syncer.go:666-678 | The loop keeps exactly the entries that are not excluded |
| Syncing.NewerThanLocal | internal/syncer/syncer.go:691-711 | The loop keeps exactly the entries that beat the local row, or tie with it at a quarantined name |
| Syncing.ServedFollows | internal/store/store.go:604-623 | A page as the peer's store serves it passes the reader's checks |
| Syncing.BatchMaxIsLast | internal/syncer/syncer.go:1725-1744 | On an accepted page the batch maximum is the version of its last entry, beyond the old cursor |
| Syncing.Select | internal/syncer/syncer.go:624-627 | Collapsing, filtering and comparing one page gives what the protocol's comparison step demands |
| Syncing.Syncer.constructor | internal/syncer/syncer.go:547-642 | Sets up a loop among arbitrary moves of everything else and arbitrary failures |
| Syncing.Syncer.Others | internal/syncer/syncer.go:547-642 | Between two effects of a loop everything else moves by steps and leaves the loop's own request, cursor or worker alone |
| Syncing.Syncer.Request | internal/syncer/syncer.go:548-574 | Reads the cursor and obtains the peer's incarnation and next page after it; on an error the poll ends with the cursor where it was |
| Syncing.Syncer.Recognize | internal/syncer/syncer.go:582-597 | Resets the cursor to the start of the new stream exactly when the epoch or the rewound maximum says so, and otherwise leaves it naming the answering incarnation |
| Syncing.Syncer.Fetch | internal/syncer/syncer.go:548-618 | A page at hand belongs to the cursor's own stream, starts right after it and fits the limit; a failure leaves the cursor's version alone |
| Syncing.Syncer.Compare | internal/syncer/syncer.go:624-627 | Collapses and filters against the rows of that moment; the batch ends where the page does |
| Syncing.Syncer.Record | internal/syncer/syncer.go:662-687 | Records the batch in full or ends the poll; it can only be full when the queue has a limit; the cursor does not move |
| Syncing.Syncer.Advance | internal/syncer/syncer.go:633-638 | Only after the batch is recorded does the cursor move, to the batch maximum of the epoch that was read |
| Syncing.Syncer.SyncBatch | internal/syncer/syncer.go:547-642 | Every effect is a protocol step under any interleaving and any failure; a failed or full poll leaves the cursor's version; of an idle peer it reports exactly the entries of the page after the cursor and moves the cursor to its end, or resets it |
| Syncing.Syncer.SyncOnce | internal/syncer/syncer.go:533-543 | One batch after at most one reset; an idle peer is never reset twice |
| Syncing.Syncer.CatchUp | internal/syncer/syncer.go:457-529 | For any ignore rules: polling until a page is empty terminates against an idle peer whatever this node's other loops do; then every state of the peer is covered; without errors and with an unlimited queue it always gets there |
| Syncing.Syncer.SkipHeld | internal/syncer/syncer.go:969-974 | A row is done unasked exactly when its state is matched or beaten locally |
| Syncing.Syncer.ChooseState | internal/syncer/syncer.go:975-990 | Takes the greater of the queued and the peer's current state; a missing record or a useless answer never replaces queued work, and only a queued deletion goes on without an answer |
| Syncing.Syncer.Decide | internal/syncer/syncer.go:964-990 | Undisturbed, the row is done unasked exactly when its state is held and not damaged; otherwise the state to apply is the one the selection rule names, and the attempt is put off exactly when there is none |
| Syncing.Syncer.ResolveRepair | internal/syncer/syncer.go:1008-1015 | The row that was taken is gone, a newer one is not; the queued state is held, or no longer what the peer offers |
| Syncing.Syncer.DeferRepair | internal/syncer/syncer.go:1020-1032 | A failed attempt ends as a protocol step: if the row is still the one that was taken, one more attempt is counted, its state and revision as they were; every other row and everything else is as the others had left it |
| Syncing.Syncer.RepairOne | internal/syncer/syncer.go:964-1004 | Under any interleaving and failure the attempt is a run of protocol steps; it removes only the row it took, and only once the queued state is held or no longer what the peer offers |
| Repair.ApplyOn | internal/syncer/syncer.go:716-803 | Applying a state to a node's own disk and database, failing or cut anywhere, leaves a node in order whose rows only rose; success means that the row is at or above the state, and without faults a feasible state is applied |
| Repair.ApplyHere | internal/syncer/syncer.go:992-1003 | The worker's apply is carried out inside the protocol: its effects are protocol steps, and the worker is finished exactly if the apply succeeded |
| Repair.RepairHere | internal/syncer/syncer.go:964-1032 | One repair with its apply carried out on the node's disk, for upward closed rules or an idle peer and while no other loop moves this node's rows: under any faults, and any other moves in between, the node stays in order and the row goes only once it is dealt with; undisturbed, it is resolved if the state was held or can be applied, the row then at or above the chosen state, and put off if there is nothing to apply |
| Syncing.Syncer.ReconcilePage | internal/syncer/syncer.go:1185-1209 | From any cursor and under any ignore rules, every entry of a page that was recorded in full is covered; it fills up only if the queue's limit is below the rows queued and the page together |
| Syncing.Syncer.ReconcileOnce | internal/syncer/syncer.go:1082-1182 | From ANY cursor and under ANY ignore rules, with an idle peer: a completed pass leaves every row after the stored position covered, whatever this node's other loops do; an interrupted one every row up to the position it saved; it terminates, and completes if nothing fails, the queue has room and the time is not limited |
| Syncing.AllCoveredIsSafe | internal/syncer/syncer.go:1082-1182 | Once every row of the peer is covered, the cursor is safe again, wherever it is |
| Syncing.ReconciliationFindsPassed | internal/syncer/syncer.go:1082-1182 | A pass from the very state in which a cursor passed an uncovered row covers that row and makes the cursor safe again |
| Node.RecoversKeeps | internal/watcher/commits.go:405-454 | Committing a pending replica intent without comparing ranks never lowers the row: a pending intent ranks at or above it in every reachable state |
| Node.InspectsKeeps | internal/watcher/watcher.go:819-950 | Indexing a name makes row and bytes agree and never lowers its rank |
| Node.BeginLocalKeeps | internal/watcher/commits.go:94-117 | Announcing paths only enlarges what intents cover |
| Node.MutatesKeeps | internal/fileops/fileops.go:219-247 | A local change touches only names covered by an announced path |
| Node.IndexesOneKeeps | internal/watcher/commits.go:141-202 | Indexing one name of a commit keeps the invariant, at startup as well |
| Node.EndLocalKeeps | internal/watcher/commits.go:118-140 | Taking the announcement back uncovers only names that have been indexed |
| Node.StagesKeeps | internal/store/intents.go:75-84 | A replica intent is recorded only above the current row, for a change that fits it |
| Node.ChangesDiskKeeps | internal/syncer/syncer.go:1541-1553 | The one disk change behind an intent keeps every other name consistent |
| Node.CommitsKeeps | internal/syncer/syncer.go:1560-1570 | Committing the row clears its intent and leaves the name agreeing with disk |
| Node.ApplyStepKeeps | internal/syncer/syncer.go:716-803 | Every branch of an apply keeps the invariant: skip, deletion, time-only change, new content, namespace tombstone |
| Node.PreservesKeeps | internal/syncer/namespace.go:194-284 | Publishing a conflict copy keeps the invariant and touches no name an operation waits for |
| Node.SettleStepKeeps | internal/syncer/namespace.go:128-169 | Choosing a winner, displacing a loser and yielding to a greater file keep the invariant |
| Node.NextKeeps | internal/watcher/commits.go:213-249 | Every step of a node, crash and error exits at every point included, keeps the invariant and never lowers the rank of any name |
| Recovery.RankNeverFalls | internal/store/store.go:511-578 | Along every run of local commits, applies, settlements, crashes and recoveries, the rank of a name never decreases |
| Recovery.IndexMatchesDisk | internal/watcher/commits.go:94-202 | In every reachable state a name covered by no intent has a live row exactly when disk holds that content, and is never quarantined |
| Recovery.StartupRecovers | internal/watcher/commits.go:213-249 | Once startup recovery has run, all names agree and no intent of either kind is left |
| Recovery.IndexingNeverBlocked | internal/watcher/watcher.go:819-950 | Indexing under a local intent never gets stuck on a name, also when bytes changed without their time or a directory replaced a file |
| Recovery.ApplyReachesState | internal/syncer/syncer.go:716-803 | An apply that returned without error left a row at or above the state it was given, also when that state lost a namespace conflict |
| Recovery.NoBytesLost | internal/syncer/namespace.go:128-169 | From any state of any run and at every cut of every settlement, the bytes of a local file are at its own name, at its conflict copy, or at a copy of that copy, as long as no local commit and no ordinary newer state of a name that holds them replaces them; a namespace tombstone at a copy's own name is not such a state; for a collision-free digest |
| Recovery.LoserPreservedFirst | internal/syncer/syncer.go:1606-1668 | When the tombstone of an incoming file that lost is committed, its content is on disk at its conflict copy |
| Cluster.AsideIsClosed | internal/store/conflicts.go:48-50 | Conflict copies and ordinary names never block one another, so copies can be set aside |
| Cluster.TieIsLive | internal/store/store.go:914-954 | A state bounded by the greatest live file that replaces it is that live file again, not a tombstone |
| Cluster.NodeStepBounded | internal/syncer/namespace.go:128-284 | No replication step of a node makes a state above the greatest one, tombstones and copies included |
| Cluster.NextKeepsGreatest | internal/syncer/namespace.go:128-169 | Every step of every node and every exchange between them keeps the greatest live file greatest, and live where it is held |
| Cluster.GreatestStaysLive | internal/syncer/namespace.go:128-169 | Across every run of replication steps in the cluster, a live file that no row, queue row or intent outranks, copies aside, stays live on every node that holds it |
| Cluster.NodeStepIsRowsRise | internal/syncer/syncer.go:716-803 | Every step of a node is one the change-stream protocol allows: rows rise, queue and cursors stay |
| Cluster.ReturnedApplyLetsWorkerFinish | internal/syncer/syncer.go:996-1003 | Once an apply has returned, the row is at or above its state, which is what the protocol asks of a worker that counts its row as done |
| Operations.ReachableIsClosed | internal/watcher/commits.go:94-249 | Being the last state of some run of a node is a property the operations below keep, so all results about runs hold of their executions |
| Operations.RecoverEffect | internal/watcher/commits.go:405-454 | Settling one pending intent is a step of the node that changes nothing at other names |
| Operations.InspectEffect | internal/watcher/watcher.go:819-950 | Indexing one name is a step of the node after which it agrees and that changes nothing elsewhere |
| Operations.Volume.constructor | internal/watcher/commits.go:213-249 | A stopped node in any state that satisfies the chosen property |
| Operations.Volume.RecoverReplica | internal/watcher/commits.go:405-454 | Afterwards no intent of the name is pending, no byte and no other name has changed; without faults it succeeds |
| Operations.Volume.InspectFile | internal/watcher/watcher.go:819-950 | Afterwards row and bytes of the name agree; no byte and no other name has changed; refuses only unannounced replacement and silent change, and without faults succeeds on a disk whose file sizes fit an int64 |
| Operations.Volume.RefreshFile | internal/watcher/watcher.go:773-817 | Both of these, for a name with or without a pending intent |
| Operations.Volume.NamesUnder | internal/watcher/commits.go:141-191 | Collects exactly the names at or below the paths that are live or on disk |
| Operations.Volume.RefreshAll | internal/watcher/commits.go:192-201 | The loop refreshes every name and changes no byte on disk |
| Operations.Volume.FinishCommit | internal/watcher/commits.go:118-202 | Every name at or below the paths agrees with disk before their intents are taken back; no byte changes |
| Operations.Volume.Commit | internal/fileops/fileops.go:219-247 | Observe, announce, change, index, take back: each effect is a step, so a failure or cut anywhere is recoverable; on success the change was made to the bytes that were there, nothing else was, and its paths agree; without faults it succeeds for files whose size fits an int64 |
| Operations.Volume.ResolveReplicas | internal/watcher/commits.go:234-245 | The loop leaves no pending intent and changes no byte |
| Operations.Volume.Start | internal/watcher/commits.go:213-249 | On success every name agrees, no intent is left, and not one byte on disk was changed; without faults it succeeds on every disk whose file sizes fit an int64 |
| Operations.Volume.PublishReplica | internal/syncer/syncer.go:1541-1570 | Intent, one disk change, row: on success disk and database are exactly that; cut anywhere, the steps taken are recoverable |
| Operations.Volume.PublishCopy | internal/syncer/namespace.go:216-284 | The copy's bytes and row are in place, ranked above a removed copy, and only that name changed |
| Operations.Volume.PreserveConflict | internal/syncer/namespace.go:194-284 | On success the file's content is under its conflict copy's name, whether it was there before or is written now, and only that name changed; without faults it succeeds if that name is free or holds the content |
| Operations.Volume.CommitDeletion | internal/syncer/syncer.go:1606-1668 | A name yields to a namespace tombstone only after its bytes are preserved; each effect is a step; on success only the name and its copy's have changed; without faults it succeeds if there is room for the copy |
| Operations.Volume.ObserveConflicts | internal/syncer/namespace.go:52-123 | Returns exactly the files on disk that block the name, each freshly indexed, changes no byte, and disturbs nothing the settlement relies on; without faults it succeeds |
| Operations.Volume.ChooseWinner | internal/syncer/namespace.go:133-138 | Returns the greatest blocking file if one beats the incoming state, and none only if the incoming state is at least as great as all |
| Operations.Volume.SettleNamespace | internal/syncer/namespace.go:128-169 | Publishes the incoming file after displacing every blocking one, or preserves it and leaves a tombstone that ties with the winner; each effect is a step; without faults it succeeds if every file concerned can be kept as a copy that is not itself in the way |
| Operations.Volume.Displace | internal/syncer/namespace.go:149-169 | Every blocking file makes way, one by one, before the incoming one is published; without faults all of them do and it is |
| Operations.ReadyNext | internal/syncer/namespace.go:149-169 | When one blocking file has made way, the others still can: no copy takes the room of another or stands in the way of the incoming file |
| Operations.NeverTie | internal/store/store.go:914-954 | Live files of different names never tie, so that every blocking file yields or wins |
| Operations.Volume.Apply | internal/syncer/syncer.go:716-803 | For every state, every disk and every sequence of failures and cuts: each effect is a step of the node, and success means that the row is at or above the state; without faults it succeeds for every deletion and every file with the bytes it announces, settlements and namespace tombstones included, if the files that have to make way can be kept as copies |
| Trees.MovedTrees | internal/fileops/replace.go:130-141 | A rename onto a free name carries the whole tree, empties the old name, and leaves every disjoint tree alone |
| Trees.MovedTreeShaped | internal/fileops/replace.go:130-141 | A rename into an existing directory keeps the disk a tree |
| Trees.MatchesReplacement | internal/fileops/replacement_tree.go:107-121 | With all entries required, true if and only if the two manifests are the same tree; with missing ones allowed, if and only if every entry found is a recorded one |
| Trees.ValidateReplacementTree | internal/fileops/replacement_tree.go:123-154 | Accepts exactly the well-formed manifests: the root first, distinct local names in their shortest form, each parent a directory listed earlier, every file with a size and a SHA-256 checksum, and a root with an identity |
| Trees.SaneManifest | internal/fileops/replacement_tree.go:27-105 | A manifest taken from a volume is accepted |
| Trees.Walk | internal/fileops/replacement_tree.go:27-105 | The recursive listing appends each object of the tree once, directories before what they hold, and misses none |
| Trees.ReplacementTree | internal/fileops/replacement_tree.go:27-105 | The manifest has the shape that is checked, denotes exactly the tree on disk, and is empty if and only if nothing is there; taken from a volume with proper names and files it is accepted |
| Replacement.ValidateReplacement | internal/fileops/replace.go:363-393 | Accepts exactly the journals whose names and manifests meet the stated rules, those of every manifest entry included |
| Replacement.ValidIsApart | internal/fileops/replace.go:363-393 | An accepted journal names trees that cannot overlap |
| Replacement.Assess | internal/fileops/replace.go:211-243 | From the three trees on disk alone, tells exactly how far an uncommitted replacement got, or that they fit no stage of it |
| Replacement.SafeParents | internal/fileops/replace.go:338-361 | True if and only if no existing parent of the name is anything but a real directory |
| Replacement.UndisturbedIsSafe | internal/fileops/replace.go:338-361 | Without outside edits the parent checks never stop a recovery |
| Replacement.Examine | internal/fileops/replace.go:185-243 | Before the first change: proceeds if and only if the volume is recoverable, and reports a conflict if and only if the trees are not what the journal recorded |
| Replacement.RollbackSource | internal/fileops/replace.go:233-241 | Moving the published tree back lands on a free name and restores the backed-up stage |
| Replacement.RollbackDestination | internal/fileops/replace.go:245-253 | Moving the backup back lands on a free name and restores the starting stage |
| Replacement.SweepBackup | internal/fileops/replace.go:200-209 | Deleting any part of a committed backup stays recoverable and deletes only recorded entries |
| Replacement.SweepCopy | internal/fileops/replace.go:255-260 | Deleting any part of a rolled-back private copy does the same |
| Replacement.DropStage | internal/fileops/replace.go:262-267 | Removing the empty stage directory disturbs no recorded tree |
| Replacement.StageEmptiesAfter | internal/fileops/replace.go:255-267 | After the sweep the stage is empty if and only if, before the recovery, it held the private copy alone, or nothing once committed |
| Replacement.StageIsUnlisted | internal/fileops/replace.go:262-267 | No manifest lists the stage, so removing it is a deletion the manifests do not cover |
| Replacement.BackUp | internal/fileops/replace.go:130-138 | Moving the destination aside lands on a free name and stays recoverable |
| Replacement.Publish | internal/fileops/replace.go:139-145 | Moving the new tree in lands on a free name and stays recoverable |
| Replacement.Draft | internal/fileops/replace.go:93-121 | Succeeds whenever the source exists, the names are valid and the backup's name is free; its journal is valid and describes the volume |
| Replacement.DraftIsReady | internal/fileops/replace.go:93-127 | A drafted replacement is ready to start and its manifests are the old destination and the wanted tree |
| Replacement.RecoveryLeaves | internal/fileops/replace.go:185-279 | Whatever part of a recovery was carried out, what it leaves is again a stage of the same replacement or its end |
| Replacement.UnstartedIsAtomic | internal/fileops/replace.go:72-121 | Stopping before the journal exists leaves destination and a moved source as they were |
| Replacement.LeftIsAtomic | internal/fileops/replace.go:45-156 | Stopping at any later point leaves the replacement atomic |
| Replacement.RecoveredIsAtomic | internal/fileops/replace.go:185-279 | So does any complete or partial recovery after that |
| Replacement.Volume.Rename | internal/fileops/replace.go:130-141 | Only ever called onto a free name (its precondition, proved at each call); moves the tree or changes nothing |
| Replacement.Volume.RemoveTree | internal/fileops/replace.go:287-316 | Children before parents: whatever it removed is logged and lay under the name, what is left is a tree, and on success nothing is left there |
| Replacement.Volume.RollBack | internal/fileops/replace.go:219-254 | From every recognised stage, back to the start by renames alone; cut anywhere it stays recoverable |
| Replacement.Volume.SweepCommitted | internal/fileops/replace.go:200-209 | Removes the backup, and only entries of its manifest |
| Replacement.Volume.SweepRolledBack | internal/fileops/replace.go:255-260 | Removes the private copy, and only entries of its manifest |
| Replacement.Volume.RemoveStage | internal/fileops/replace.go:262-267 | Removes the stage only when empty; without outside edits it is |
| Replacement.Volume.SweepAll | internal/fileops/replace.go:200-267 | Deletes entries of a manifest only, and then at most the stage, as it was found; without faults the stage goes if it is there and empties |
| Replacement.Volume.Recover | internal/fileops/replace.go:185-279 | On an arbitrary disk: a conflict is reported if and only if the trees differ from the record, and then nothing at all has changed; otherwise each object deleted is an entry of a manifest or, last, the stage, and that only if it is a directory that the sweep empties; without faults it goes whenever it is; no other path changes, and the journal goes only when the replacement is settled; undisturbed and without faults it succeeds |
| Replacement.Volume.MoveAside | internal/fileops/replace.go:130-138 | First rename under the journal; recoverable whether or not it happened |
| Replacement.Volume.PutInPlace | internal/fileops/replace.go:139-145 | Second rename under the journal; recoverable whether or not it happened |
| Replacement.Volume.CommitAndClean | internal/fileops/replace.go:146-156 | On success the journal is gone and the destination is the new tree, with no backup left |
| Replacement.Volume.Execute | internal/fileops/replace.go:122-156 | A prepared replacement, failing or cut after any step, leaves a recoverable volume; without faults it succeeds |
| Replacement.Volume.Prepare | internal/fileops/replace.go:45-121 | Stages and drafts, or gives up with destination and source untouched; succeeds if feasible and nothing fails |
| Replacement.Volume.Replace | internal/fileops/replace.go:45-156 | Atomic at every cut and error; success means that the destination is exactly the wanted tree; never a conflict; succeeds if feasible and nothing fails |
| Replacement.Volume.ReplaceThroughCuts | internal/fileops/replace.go:45-279 | One operation cut anywhere, then any number of recoveries each cut anywhere, then one that runs through: no journal, no conflict, and either the old destination with the moved source intact or the complete new destination; nothing else on the volume changed |
| Replacement.OthersStay | internal/fileops/replace.go:418-441 | Recovering one journal changes nothing that matters to another whose trees are separate |
| Replacement.SameInFlight | internal/fileops/replace.go:418-441 | What matters to a journal is all its recovery depends on: a replacement in flight stays in flight |
| Replacement.ProgressIsStillThere | internal/fileops/replace.go:185-279 | A recovery that stopped part-way can be repeated: the parents it insists on and all it compares are still in order |
| Replacement.Volume.RecoverAll | internal/fileops/replace.go:398-441 | The loop over any number of journals with separate trees, on an arbitrary disk, failing or cut anywhere: those done are settled, each one left is as recoverable as it was, a conflict names the journal it stopped at, and nothing far from all of them changed; without faults, if all are in flight, it succeeds |
| Replacement.Volume.RecoverAllThroughCuts | internal/fileops/replace.go:395-441 | Any number of such recoveries each cut anywhere, then one that runs through: every replacement is settled, without a conflict, and nothing else changed |
| Replacement.LeftIsRecoverable | internal/fileops/replace.go:255-267 | The volume a recovery leaves that is cut between the payload and the stage |
| Replacement.RecoverLeftStage | internal/fileops/replace.go:185-279 | On that volume the next recovery deletes an object no manifest lists, whoever made it and whatever its mode: the stage |
| Listing.PrefixEnd | internal/gateway/s3/catalog.go:16-29 | Empty if and only if every character is the greatest one; otherwise [prefix, end) holds exactly the strings with the prefix, across tails of greatest characters and the surrogate gap |
| Listing.MaxTailRange | internal/gateway/s3/catalog.go:16-29 | A tail of greatest characters does not widen the range that ends at the next character before it |
| Listing.SortedUnique | internal/gateway/s3/handlers.go:532-569 | An ascending sequence is the sorted form of its elements, so a specification by sets fixes a page completely |
| Listing.GroupIsPrefix | internal/gateway/s3/catalog.go:79-88 | Every key that starts with a common prefix rolls up to it, and no other does, for delimiters of any length |
| Listing.SortByKey | internal/gateway/s3/handlers.go:539-546 | Ascending, with the same items |
| Listing.SearchAfter | internal/gateway/s3/handlers.go:548-551 | The binary search finds the first position whose key orders after the marker |
| Listing.Gather | internal/gateway/s3/handlers.go:539-546 | Objects and prefixes merged in order, each item knowing which it is |
| Listing.Separate | internal/gateway/s3/handlers.go:558-564 | The page's objects and prefixes, each in order |
| Listing.Paginate | internal/gateway/s3/handlers.go:532-569 | Objects and prefixes are the first `maxKeys` of the sorted entries past the marker; truncated if and only if there are more; the token is the last entry handed out |
| Listing.ListLiveRange | internal/store/store.go:685-710 | Refuses exactly the limits outside 1 to 10000; otherwise the first live names of the window, in order, none missing between them |
| Listing.TakesGroup | internal/gateway/s3/catalog.go:79-88 | Taking a group and seeking past it passes exactly the keys of that group |
| Listing.TakesObject | internal/gateway/s3/catalog.go:90-96 | Taking an object passes exactly that key |
| Listing.SkipsRow | internal/gateway/s3/catalog.go:53-78 | Passing over a row that is not shown loses no entry |
| Listing.FoundComesFirst | internal/gateway/s3/catalog.go:31-101 | What a seeking scan has found orders before everything it has not |
| Listing.EnoughFound | internal/gateway/s3/catalog.go:42-99 | More than `maxKeys` of the first entries, or all of them, fix the page and whether it is cut |
| Listing.ScanRows | internal/gateway/s3/catalog.go:53-97 | One batch of rows keeps what the scan has gathered complete and moves it on |
| Listing.ScanAdvances | internal/gateway/s3/catalog.go:42-53 | Each batch leaves fewer live names ahead, so the scan ends |
| Listing.ListPage | internal/gateway/s3/catalog.go:31-101 | For every set of names, visibility, prefix, delimiter, marker and page size, the seeking page equals filter, roll up, sort, drop up to the marker, cut |
| Listing.PrunedHasNoEntry | internal/gateway/s3/listing.go:70-152 | A directory that neither extends nor is extended by the prefix holds no entry of the listing |
| Listing.WalkListing | internal/gateway/s3/listing.go:70-152 | The pruned walk visits exactly the listing's entries, groups marked as such |
| Listing.Offer | internal/gateway/s3/listing.go:41-52 | Offering one entry to the bounded heap keeps it holding exactly the first `maxKeys`+1 of the entries offered so far |
| Listing.Select | internal/gateway/s3/listing.go:40-53 | After any order of visits with any repeats the heap holds exactly the first `maxKeys`+1 entries past the marker |
| Listing.FilesystemPage | internal/gateway/s3/listing.go:37-68 | For every directory tree, prefix, delimiter, marker and page size, the walking page equals the same filter, roll up, sort, drop, cut |
| Listing.AnswersAgree | internal/gateway/s3/listing.go:156-176 | Two answers to one request are the same, so index and disk list the same keys alike |
| Listing.ClampMaxKeys | internal/gateway/s3/handlers.go:691-707 | A request's page size always ends up between 1 and 10000 |
| Listing.TokenSplits | internal/gateway/s3/handlers.go:548-567 | What lies past a marker is one full page and what lies past its token, and the latter is less |
| Listing.EmptyPageIsStuck | internal/gateway/s3/handlers.go:553-567 | A page size of 0 would report more forever with an empty token; the one size for which following tokens fails |
| Listing.PageStep | internal/gateway/s3/handlers.go:532-569 | The same split for what a page answer hands out |
| Listing.FollowTokens | internal/gateway/s3/catalog.go:31-101 | For every positive page size, following tokens over a fixed bucket terminates and lists every key and every common prefix past the first marker exactly once, in order |
| Chunked.PartOfChunk | internal/gateway/s3/streaming.go:348-374 | Reading part of a chunk hands out that part and leaves a reader that decodes the rest |
| Chunked.ChunkReader.constructor | internal/gateway/s3/streaming.go:348-374 | A new reader stands for the one-shot decoding of the body |
| Chunked.ChunkReader.ReadTrailers | internal/gateway/s3/streaming.go:435-482 | The loop over trailer lines ends as the one-shot decoder does |
| Chunked.ChunkReader.NextChunk | internal/gateway/s3/streaming.go:378-429 | Closing one chunk and opening the next changes nothing that is still to be handed out, and reports an end only where the one-shot decoder does |
| Chunked.ChunkReader.Read | internal/gateway/s3/streaming.go:348-374 | For every buffer size and every way the transport cuts and ends the body: what is handed out now and what is pending make what was pending before; an end is reported only when nothing is pending, and it is the right one for a transport of that kind |
| Chunked.FramedDecodes | internal/gateway/s3/streaming.go:378-482 | Every well-framed body whose signatures link decodes to its data and its trailers |
| Chunked.EofIsFramed | internal/gateway/s3/streaming.go:378-429 | Conversely only a well-framed body whose signatures all link from the seed decodes to its end |
| Chunked.TrailersAttested | internal/gateway/s3/streaming.go:435-482 | Trailers accepted at the end are the announced ones and, where due, were signed over exactly the lines read, on the last link of the chain |
| Chunked.EofIsAuthentic | internal/gateway/s3/streaming.go:348-482 | End of file implies sound framing, every link of the chain from the seed, and attested trailers, and the data is the concatenation of the chunks |
| Chunked.EmptyBody | internal/gateway/s3/streaming.go:393-403 | An empty body passes only where it may stand for an empty payload |
| Chunked.HexRoundTrip | internal/gateway/s3/streaming.go:405-412 | A chunk size written in hexadecimal reads back as itself |
| Chunked.HeaderRoundTrip | internal/gateway/s3/streaming.go:405-419 | A header line, signed or not, reads back as its chunk's size and signature |
| Chunked.EncodeIsFramed | internal/gateway/s3/streaming.go:378-429 | An encoded chunk list is well framed |
| Chunked.RoundTrip | internal/gateway/s3/streaming.go:348-482 | Encoding and then decoding any linked chunk list returns its concatenation |
| Chunked.TailEnds | internal/gateway/s3/streaming.go:435-482 | The tail a client sends reads as exactly the trailer it announced |
| Chunked.SignAllStreams | internal/gateway/s3/streaming.go:528-547 | Signing pieces one after the other gives a linked chunk list with the same data |
| Chunked.ClientRoundTrip | internal/gateway/s3/streaming.go:348-547 | Whatever pieces a client cuts its data into, with or without signatures and trailer, decoding its upload gives back the data and the trailer |
| Chunked.IntactMeansChecked | internal/gateway/s3/streaming.go:287-311 | The verdict is intact if and only if framing, chain, trailers, announced length and checksum all hold |
| Chunked.ReadsDiffer | internal/gateway/s3/streaming.go:393-403 | Whether the end is reported with the last bytes matters to one line read only: exactly 4096 bytes are left and none is a newline |
| Chunked.TransportMatters | internal/gateway/s3/streaming.go:348-482 | For every body: how its end is reported never changes the data, nor a body that passes when it is reported late; a body that passes when it is reported with the last bytes is refused otherwise if and only if exactly 4096 bytes follow its last newline; no two verdicts differ unless they do |
| Chunked.TransportDecides | internal/gateway/s3/streaming.go:435-460 | There it does: every well-framed, linked body that ends in a blank line of exactly 4096 bytes passes if the end is reported with its last bytes and is malformed otherwise |
| Chunked.Payload.constructor | internal/gateway/s3/streaming.go:264-284 | Nothing handed out, no verdict yet |
| Chunked.Payload.Read | internal/gateway/s3/streaming.go:264-311 | The bytes handed out stay a prefix of the decoded data, and a verdict is the one the whole body deserves |
| Chunked.ReadThrough | internal/gateway/s3/streaming.go:264-311 | For every sequence of reads: a prefix of the one-shot decoding, the right verdict for a transport of that kind, all of the data with an intact one, and a verdict after enough reads |
| Partial.CrashKeepsSound | internal/syncer/partial.go:385-409 | Whatever a power cut leaves, each record names a missing file or one whose recorded bytes are durable and hash to the recorded prefix |
| Partial.Downloads.constructor | internal/syncer/partial.go:79-127 | Nothing staged, recorded or published |
| Partial.Downloads.SaveRecord | internal/syncer/partial.go:385-409 | A record is saved only for bytes that are durable under a durable name (its precondition, proved at each call) |
| Partial.Downloads.Checkpoint | internal/syncer/partial.go:385-409 | File, directory, record, in that order: a failure between them leaves the old record sound; on success the record says exactly what has been received |
| Partial.Downloads.Write | internal/syncer/partial.go:344-356 | File and running checksum stay the same bytes; a failed write marks the stage unusable |
| Partial.Downloads.Receive | internal/syncer/partial.go:359-381 | Never takes more than the announced size; a complete body was hashed exactly as it arrived; without faults it is complete if it ended |
| Partial.Downloads.Restart | internal/syncer/partial.go:412-429 | The record goes before the bytes do, so no record ever outlives them |
| Partial.Downloads.Discard | internal/syncer/partial.go:441-454 | Removes file and record; cut between the two the record is still sound |
| Partial.Downloads.Release | internal/syncer/partial.go:473-490 | A usable transfer that stopped part-way keeps its file and a record of exactly how far it got, and what is trusted from then on is exactly what was hashed; anything else is removed |
| Partial.Downloads.HashPrefix | internal/syncer/partial.go:320-341 | The block loop hashes exactly the first `n` bytes |
| Partial.Downloads.ResumeStage | internal/syncer/partial.go:235-273 | A resumed running checksum is that of all bytes in the file; without faults it resumes exactly when the file is there and something is left to fetch |
| Partial.Downloads.ResumableStage | internal/syncer/partial.go:197-215 | Goes on only with the same content, and otherwise drops the record before the file |
| Partial.Downloads.Publish | internal/syncer/syncer.go:1541-1548 | Only a file of the announced size and checksum is put in place (its precondition, proved at each call), with the bytes that were hashed |
| Partial.Downloads.Finish | internal/syncer/syncer.go:1443-1548 | Publishes exactly a complete and matching transfer, with the bytes hashed, keeps exactly what was received of an interrupted one and drops a wrong one |
| Partial.Downloads.Answered | internal/syncer/syncer.go:1382-1431 | A body is read only from the offset that was asked for, of the size that was announced; a whole answer empties the stage first |
| Partial.Downloads.Transfer | internal/syncer/syncer.go:1336-1470 | A complete transfer holds the trusted bytes of an earlier one and then the body, or the whole body alone; without faults an answer that completes the content is complete, and one that breaks off leaves a stage of exactly what was delivered |
| Partial.Downloads.Download | internal/syncer/syncer.go:1336-1548 | Under any faults and cuts: nothing is put in place, or exactly the content asked for, made of trusted bytes and those the peer sent; success means that it was put in place; without faults an answer that completes the content, whole or as the missing range of an earlier attempt, succeeds, and one that breaks off leaves exactly what was delivered to be gone on with |
| Partial.Downloads.Load | internal/syncer/partial.go:79-127 | Remembers exactly the records that queued work wants, that are no older than a week, and whose file still holds the recorded bytes; records that cannot be read are left and nothing is remembered |
| Partial.Downloads.Reboot | internal/syncer/partial.go:79-127 | However many starts are cut, the one that gets through remembers exactly what can be gone on with, or nothing if the records could not be read; records that are left have the bytes they had |
| Partial.Downloads.TryOnce | internal/syncer/syncer.go:1336-1548 | One attempt, and the restart if it was cut, is the step the results about runs are over |
| Partial.Downloads.Run | internal/syncer/partial.go:79-490 | Every run of attempts, faults, cuts, power losses and restarts is a sequence of such steps: its outcomes, what each attempt put in place, and the volume after each, records sound, are those of the attempts |
| Partial.TracePlaces | internal/syncer/syncer.go:1336-1548 | What is in place after a run is, for each name, what was put there last |
| Partial.TraceExplains | internal/syncer/syncer.go:1336-1548 | Whatever is in place for a name after a run was there before it, or is exactly the content an attempt asked for, complete; and no later attempt that succeeded was for that name |
| Partial.CutThenComplete | internal/syncer/partial.go:79-273 | A cut costs only what was not recorded: if the volume after a cut and an undisturbed start holds a record in order, an undisturbed answer with exactly the rest of the content succeeds |
| Partial.BrokenOffThenComplete | internal/syncer/partial.go:197-490 | An undisturbed transfer that breaks off costs nothing, across a restart too if the record is still wanted: an undisturbed answer with exactly the rest of the content completes it |
| Partial.RestartTrusts | internal/syncer/partial.go:79-127 | What was trusted of a content before a restart is, byte for byte, what is trusted after it |
| Resolve.EvalEntry | internal/gateway/resolve.go:48-104 | The loop over one entry and the links it leads through gives the same as the recursive definition of path resolution, with the same count of links, and ends by (links left, components left) |
| Resolve.CleanInParts | internal/gateway/resolve.go:25-37 | Cleaning the front of a path first changes nothing |
| Resolve.EvalAncestorByAncestor | internal/gateway/resolve_windows.go:12-28 | The search from the deepest ancestor up returns the first that resolves, with the rest of the path appended |
| Resolve.WalkInParts | internal/gateway/resolve.go:48-104 | Resolving a path in two parts, links counted on, is resolving it whole |
| Resolve.WalkOneMore | internal/gateway/resolve.go:25-37 | On any disk where nothing exists below a regular file, resolving one more component continues where the shorter path stopped |
| Resolve.DeepestIs | internal/gateway/resolve_windows.go:12-28 | Below an ancestor that does not resolve nothing does |
| Resolve.EvalDeepestAncestor | internal/gateway/resolve.go:25-37 | The single walk returns the same path as the search over all ancestors, for every such disk and every rooted clean path |
| Fence.NextKeeps | internal/fileops/reader.go:57-153 | Opens, checks, reads, closes, fences, revocations, returns and clears each keep the invariant, at any point of any other |
| Fence.NoBytesWhileQuarantined | internal/fileops/reader.go:57-153 | In every interleaving of any number of readers and quarantines, once the quarantine of a generation has returned and until it is cleared, a reader of it takes bytes from the file only while its own Close is under way |
| Fence.RevokedForever | internal/fileops/reader.go:122-153 | A revoked reader never takes bytes from the file again, through clears and repairs |
| Fence.ClosingReaderIsMissed | internal/fileops/reader.go:188-199 | The exception is real for every generation: a reader between the two steps of Close is missed by the revocation and takes bytes after the quarantine returned |
| NameFence.NextKeeps | internal/watcher/commits.go:298-358 | Quarantines, clears, outside replacements and every step of every check, cached index and rebuilds included, keep the invariant in any interleaving |
| NameFence.QuarantinedNameIsRefused | internal/watcher/commits.go:280-358 | A read whose check begins after the quarantine of its name returned does not pass until the name is cleared, whatever index is cached or being built by whom |
| NameFence.QuarantinedObjectIsRefused | internal/watcher/commits.go:332-338 | Nor does one that reaches the same object by a link, if the quarantined name has named that object ever since |
| Budget.DeletionGroup.constructor | internal/watcher/breaker.go:59-61 | An empty group |
| Budget.DeletionGroup.Add | internal/watcher/breaker.go:63-72 | The name is among the missing ones, kept while there is room; the count never falls below the number of distinct names |
| Budget.DeletionGroup.Merge | internal/watcher/breaker.go:74-84 | All names of both groups are in; the count still bounds the distinct ones, although neither group kept them all |
| Budget.CountedOnly | internal/watcher/breaker.go:74-84 | Why the merge may subtract the kept names: they are the only ones counted twice for certain |
| Budget.Collect | internal/watcher/breaker.go:74-84 | Collecting groups apart and merging them gives the group a decision is made about |
| Budget.PublishKeepsBudget | internal/watcher/breaker.go:174-226 | A group that fits what is left when it is decided keeps every ten-minute window within the limit, however long publishing takes |
| Budget.KeptSince | internal/watcher/breaker.go:286-299 | Dropping what is older than an earlier cutoff loses nothing of a later window |
| Budget.PublishDeletions | internal/watcher/breaker.go:231-251 | Counts exactly the names published and confirmed before the first fault, and tells whether one went out whose confirming read failed |
| Budget.Breaker.constructor | internal/watcher/breaker.go:121-123 | A fresh budget |
| Budget.Breaker.PublishedInWindow | internal/watcher/breaker.go:286-299 | Prunes and counts exactly the entries inside the window |
| Budget.Breaker.Load | internal/watcher/breaker.go:304-319 | The saved window is read once; an unreadable one counts as empty |
| Budget.Breaker.Save | internal/watcher/breaker.go:322-332 | What is saved is the window; a failed write leaves the older copy |
| Budget.Breaker.Settle | internal/watcher/breaker.go:174-226 | A group is held if and only if it does not fit what the window leaves of the budget, and then publishes nothing; otherwise exactly what was published and confirmed is entered and saved, or, if the process ends first, lost; a deletion that could not be confirmed is lost either way |
| Budget.Breaker.Restart | internal/watcher/breaker.go:304-319 | A restart goes on from the saved window alone |
| Budget.RunEvents | internal/watcher/breaker.go:174-332 | Carries out any sequence of decisions over merged groups, ends of the process between publishing and recording, and restarts, with any clock that does not go back; the breaker's state, everything published included, is the one the events define, and if the faults are harmless no half-open ten minutes see more deletions than the limit |
| Budget.BudgetHolds | internal/watcher/breaker.go:40-48 | The promise: whatever groups are found and whenever they are decided, it holds if no decision follows a deletion that could not be confirmed, nor, while something has been published before, a start that reads no window or one that was not saved |
| Budget.BudgetFails | internal/watcher/breaker.go:40-48 | The condition is exact: for every other pattern of faults, every limit and every start there are groups and times for which ten minutes see more than the limit |
| Budget.UnconfirmedOverspends | internal/watcher/breaker.go:253-268 | A run of two events by one process, every window written and read: a deletion goes out, the read that should confirm it fails, and the next group overspends |
| Budget.UnsavedRestartOverspends | internal/watcher/breaker.go:322-332 | A run of three events: a window that could not be written, a restart, and a group that overspends |
| Budget.UnreadRestartOverspends | internal/watcher/breaker.go:304-319 | A run of three events: a window that was written, a restart that cannot read it, and a group that overspends |
| Budget.KilledOverspends | internal/watcher/breaker.go:212-218 | A run of two events: a process that ends between publishing and recording, and a group that overspends; a restart loop does hand out fresh budgets |
| Budget.ClosedWindowExceeds | internal/watcher/breaker.go:286-299 | A run of two events without any fault, within the budget for half-open windows, in which ten minutes with both ends counted see twice the limit |
| Budget.BudgetPerProcess | internal/watcher/breaker.go:174-332 | What holds under all faults: what each process counts stays within the budget, so that in ten minutes it publishes at most the limit and one more for each deletion it could not confirm; what all processes publish adds up to all there is |

## Left out

- HTTP clients and handlers, TLS, JSON, XML, SQL text, configuration, logging and metrics: plumbing around the modelled code.
- SigV4: signatures are one abstract keyed function per chunk and per trailer; how the string to sign is built is not modelled.
- Peer identity: a peer that is this node itself or shares its node id, the protocol version and redirects.
- Dishonest peers in `Replication` and `Syncing`: pages are those of a store; malformed and oversized pages are refused by the modelled checks, but a peer that lies within them is not considered.
- Legacy rows: repairs by name only, empty epochs with a nonzero cursor, `PutFile`, purging of tombstones.
- Scheduling of repairs: due times, backoff, lanes by size and the bound on concurrent downloads; any order of attempts is a run here.
- Quarantined bytes in `Node` and `Operations`: repair of an equal state over damaged bytes is not modelled; `Replication` and `Syncing` let such states be queued.
- External writers on disk while a node runs, apart from the arbitrary disks of replacement recovery.
- fsync outside `Partial`: elsewhere an effect that happened is durable.
- File modes, directories as objects of their own in `Node`, and removal of empty parents.
- Symbolic links of an indexed volume: in `Node` and `Operations` every object on disk is a regular file.
- Names that fold together by case or normalisation, spelling reservations, Windows.
- Sizes, times and entity tags of listed objects; the catalog's refusal of strings that are not UTF-8.
- The heap and sort library routines: the heap's root is its greatest element, and sorting is an insertion sort.
- White space other than ASCII in chunk trailers, network errors inside a chunked body other than its end, and payloads that are not chunked.
- Sample names and messages of held deletions, and how single events are gathered into groups.
- Multipart uploads, SFTP, WebDAV locks, batch sizing and debouncing: not part of this model.
- Replication.CursorSafety: for upward closed ignore rules, or runs in which the peer's rows only rise, because it is false otherwise (`Replication.CursorUnsafe`).
- Replication.CaughtUp: under the same condition.
- Replication.NextKeeps: under the same condition, for one step.
- Syncing.Syncer.CatchUp: for a peer that is idle meanwhile, because against a peer that keeps writing polling never ends.
- Syncing.Syncer.ReconcileOnce: coverage is stated for an idle peer, because a row written behind the position is found in the next pass.
- Syncing.Syncer.RepairOne: the apply inside it is a move of everything else; `Repair.RepairHere` carries it out.
- Repair.RepairHere: this node's other loops leave its rows alone during the attempt, because the apply works on the disk it was given; they may change its queue and cursors. The rules are upward closed or the peer is idle, because otherwise the row may be dealt with for a state the peer no longer has.
- Cluster.ReturnedApplyLetsWorkerFinish: one direction, because a worker may also finish when another writer has raised the row.
- Recovery.NoBytesLost: for runs without local commits and without ordinary newer states of a name that holds the bytes, because those replace them on purpose.
- Recovery.IndexingNeverBlocked: for files whose size fits an int64, as the operating system guarantees.
- Node.InspectsKeeps: damaged bytes are refused; their quarantine and the repair they are queued for are not modelled.
- Operations.Volume.InspectFile: the same; a refusal is an error without a quarantine record.
- Operations.Volume.Commit: succeeds without faults for files whose size fits an int64, as the operating system guarantees.
- Operations.Volume.Apply: success without faults is promised if the files that have to make way can be kept as copies, because a copy's name that holds something else is refused. A change of time and its row are separate effects, but setting the time of a published file and syncing it are one.
- Conflicts.CopyNameOutsideTree: the copy's name is built from an injective spelling of the original name in place of its digest, so collisions of that digest and the bounded length of the name are not considered.
- Trees.ValidateReplacementTree: objects other than files, directories and links do not occur.
- Replacement.ValidateReplacement: the same.
- Replacement.Volume.RecoverAll: journals over separate trees, because one over another's trees may find them changed by its recovery; files among the journals that are not journals are not modelled.
- Replacement.Volume.ReplaceThroughCuts: the caller's copy routine is one effect with a chosen result.
- Partial.Downloads.Load: a record whose path leads out of the volume is not considered, because no modelled write makes one.
- Partial.Downloads.Run: one transfer at a time, scratch names are never used twice, and removals are not undone by a power cut.
- Fence.NoBytesWhileQuarantined: except while the reader's own Close is under way, because it is false there (`Fence.ClosingReaderIsMissed`). It is about taking bytes from the file: `ReadAt` takes them in pieces under separate locks and hands out those it has with the error, so that a call may return them after the quarantine did; this is not modelled.
- Budget.RunEvents: for a clock that does not go back and one limit; a limit of 0, which means none, is not modelled; the deletions of a group are dated to the moment its publishing ends.
- Chunked.ReadThrough: the verdict is the one for a transport that reports the end of the body in one of the two ways, because it depends on it (`Chunked.TransportDecides`).
- NameFence.QuarantinedObjectIsRefused: for a quarantined name that still names the object, because a cached index may be up to a second behind replacements made outside.
- Listing.FollowTokens: over a bucket that does not change meanwhile.
- Resolve.EvalDeepestAncestor: for rooted clean paths, and disks where nothing exists below a regular file.
