# Verified model of the canvas and its runtime

This project models the parts of the system in which correctness depends on a whole run or on a
whole data structure, and proves what they promise. `dafny verify dfyconfig.toml` checks all of it.

**From a Turn to the Presentation.** A Turn is addressed, persisted, put into a trie and put into a
persistent, content-addressed treap.

- `Address.dfy` – addresses as dotted text of decimal and bijective base-26 numerals: round trips,
  the exact overflow guards, and the presentation order.
- `Trie.dfy` – the index-based trie as a refinement of a map from key sequences to values.
- `TurnHash.dfy`, `TurnTrie.dfy`, `TurnTree.dfy` – Merkle hashes that are maintained along one path,
  the wrap-around allocators in which zero means exhausted, and rebuild; `TurnIntegrity.dfy` – what a
  root hash pins down.
- `CanvasTurns.dfy` – the Turn table together with the trie that is updated or rebuilt from it.
- `Treap.dfy` – treaps over any address order and any rank: uniqueness, insertion, refusal.
- `Hashing.dfy`, `Tables.dfy`, `PresentationNodes.dfy`, `PresentationTree.dfy` – nodes in a table,
  what "this hash denotes this tree" means, and the node-by-node insertion that computes it.
- `PresentationHistory.dfy` – the ledger of commits and the tree behind each of its rows.
- `Orchestration.dfy` – the commit and recovery protocol as a state machine with crashes anywhere,
  any number of runs and other processes; `OrchestrationProgress.dfy` – every run left alone commits;
  `RecoveryProgress.dfy` – every start-up left alone comes to serve;
  `Orchestrator.dfy` – the same operations as written.

**Concurrent scheduling.** `Topology.dfy` and `DependencyGraph.dfy` (layered validation),
`ExecutionPlan.dfy` (one run of a plan, interleaved at lock sections, over a pool that accepts or
rejects each job), `TurnPipeline.dfy` (any number of runs behind `active_runs`).

**Lifecycle and delivery.** `Lifecycle.dfy`, `LifecycleTopology.dfy` and `AppState.dfy` (hooks that
fail in any pattern), `Channel.dfy` (a bounded queue with one delivery token).

**Wire formats.** `Integers.dfy`, `Wire.dfy` (the IPC envelope), `Utf8.dfy` (sections 3 and 4 of
RFC 3629) and `Terminal.dfy` (terminal input events).

## Modelling decisions

- SHA-256 is a parameter. A 32-byte digest cannot be injective on all strings, so the Presentation
  theorems assume only that the strings one history really hashes do not collide and do not hash to
  zero (`Hashing.CollisionFree`); where new hashes are computed, that these strings include the nodes
  of the trees over the Turns in question (`Orchestrator.TurnsCovered`). Of the Turn trie only
  `TurnIntegrity` assumes as much, together with an injective serializer.
- What the schema does not check about stored rows (`PresentationDatastore.Health`) is arbitrary for
  the store operations; the tree and the orchestration work on intact rows.
- Which database statements fail is an arbitrary script, indexed by statement
  (`PresentationDatastore.Datastore.faults`), so that a database error can be traced to a failed one.
- A database transaction is one atomic step that may also fail and change nothing. In the protocol
  every lock section is one atomic step, and the process may be lost between any two.
- `TurnAddress::parse` accepts one dot after the last component, so `1` and `1.` are one address
  under two texts. Nothing in the code prevents both from being stored. What goes wrong then, and
  exactly when, is stated by `PresentationHistory.TwinTextSlipsPast` and `RefusalOfAnyText`, and by
  `TurnStore.TwinTextsBlockRebuild`, `RebuildsIffOneText` and `PersistKeepsOneText`. The protocol
  theorems of `Orchestration` and `Orchestrator` are about texts that `string()` prints.
- `is_prefix_of` is strict in the code although its comment speaks of prefixes in general; the model
  follows the code.
- The root hash of a Turn tree is zero until the first Turn is applied, as in the code.
- Integers are unbounded where the code cannot overflow, and every 16-, 32- and 64-bit limit that
  the code tests or relies on is written out.
- A lifecycle hook answers from an arbitrary script, indexed by call; an exception is one of its
  failures. The transitional states exist only while the lifecycle mutex is held, so no other call
  sees them, and the branches for a missing entry are unreachable.
- A delivery job accepted by the pool may be lost, as a shutdown of the pool does; the safety
  results hold all the same, and only `Channel.DetachedDrains` excludes it.

## Model

| member | source | states |
|---|---|---|
| `Address.PrintedAddressParses` | canvas/turn/address.cpp:67-120 | parsing a printed address, with or without one trailing dot, returns it, for every ordinal from 1 to 2^64-1 in both numeral systems |
| `Address.ParsedAddressPrints` | canvas/turn/address.cpp:67-88 | accepted text is the printed form of its address, optionally followed by exactly one dot |
| `Address.CanonicalIffNoTrailingDot` | canvas/turn/address.cpp:73-86 | an accepted text is its own printed form exactly when it does not end in a dot |
| `Address.PrintInjective` | canvas/turn/address.cpp:109-120 | different addresses print different texts |
| `Address.ReadComponent` | canvas/turn/address.cpp:19-52 | the loop with its multiplication guard accepts exactly the canonical numerals whose value fits 64 bits |
| `Address.FromChars` | canvas/turn/address.cpp:24-36 | digit conversion fails exactly on a non-digit or a value above 2^64-1 |
| `Address.RenderLetters` | canvas/turn/address.cpp:54-63 | the remainder loop prints bijective base 26 |
| `Address.ReadAddress` | canvas/turn/address.cpp:67-88 | the scanning loop computes the parse that the round trips are about |
| `Address.Render` | canvas/turn/address.cpp:109-120 | the joining loop computes the printed form |
| `Address.AddressOrder` | canvas/turn/address.cpp:128-133 | the presentation order on addresses is strict and total |
| `Address.AncestorComesFirst` | canvas/turn/address.cpp:122-133 | every strict ancestor comes before its descendants |
| `Address.DescendantsAreContiguous` | canvas/turn/address.cpp:122-133 | whatever lies between an address and one of its descendants descends from it too |
| `Address.NumericBranchesFirst` | canvas/turn/address.hpp:29-39 | below one parent every numeric branch comes before every alphabetic one |
| `Address.SiblingsByOrdinal` | canvas/turn/address.hpp:29-39 | below one parent branches of one kind, with all their descendants, follow their ordinals upward |
| `Address.OrderMeans` | canvas/turn/address.cpp:128-133 | one address precedes another exactly when it is a strict ancestor or the first different component is numeric before alphabetic, or of one kind with the smaller ordinal |
| `Treap.SplitTreap` | canvas/presentation/presentation_tree.cpp:142-179 | splitting a treap gives two treaps, below and not below the key, that list the old keys in the old order |
| `Treap.InsertFresh` | canvas/presentation/presentation_tree.cpp:88-140 | insertion at a free position succeeds and gives a treap over exactly one more key |
| `Treap.InsertMember` | canvas/presentation/presentation_tree.cpp:88-140 | insertion of a key that is in the treap is refused even though promotion may end the search early |
| `Treap.RefusedExactly` | canvas/presentation/presentation_tree.cpp:88-140 | insertion is refused exactly when a key at the same position is present and the new key outranks none of that key's ancestors |
| `Treap.TreapUnique` | canvas/presentation/presentation_tree.cpp:88-179 | a search-ordered and heap-ordered tree is determined by its key set |
| `Treap.InsertRefinesSortedInsertion` | canvas/presentation/presentation_tree.cpp:88-140 | the in-order listing after insertion is sorted insertion into the listing before |
| `Treap.ListingSorted` | canvas/presentation/presentation_tree.cpp:208-230 | the in-order listing of a treap is strictly sorted |
| `Treap.InsertAllKeys` | canvas/presentation/presentation_tree.cpp:88-140 | inserting pairwise different new keys always succeeds and adds exactly them |
| `Treap.HistoryIndependence` | canvas/presentation/presentation_tree.cpp:88-179 | every order of inserting the same keys builds the same tree |
| `PresentationNodes.AboveStrictTotal` | canvas/presentation/presentation_tree.cpp:38-45 | the rank by priority and then by text is a strict total order on the Turns of one canvas |
| `PresentationNodes.AboveByBytes` | canvas/presentation/presentation_tree.cpp:26-45 | a Turn outranks another exactly when the first eight digest bytes of canvas, NUL and text, or at equal bytes its text, compare lower byte by byte |
| `PresentationNodes.OrderLawful` | canvas/presentation/presentation_tree.cpp:38-45 | address order and rank together satisfy everything the treap theory asks of them |
| `PresentationNodes.CanonicalBytesInjective` | canvas/presentation/presentation_tree.cpp:47-64 | different nodes have different canonical encodings |
| `PresentationNodes.CanonicalLayout` | canvas/presentation/presentation_tree.cpp:47-64 | where format name, canvas, text and the two child fields lie in the hashed bytes |
| `PresentationNodes.StoredStable` | canvas/presentation/presentation_tree.cpp:181-206 | a root keeps denoting its tree however the node table grows |
| `PresentationNodes.DenotationUnique` | canvas/presentation/presentation_tree.cpp:181-206 | one root hash denotes at most one tree in a node table |
| `PresentationNodes.NodesMerge` | canvas/protos/datastore/presentation_datastore.cpp:205-227 | ignoring rows that exist already keeps every node of a batch and of the table, and keeps the table honest |
| `PresentationNodes.SameTurnsSameRoot` | canvas/presentation/presentation_tree.cpp:47-64 | inserting the same Turns into the empty tree in any two orders gives the same root hash |
| `PresentationDatastore.Datastore.LoadRoot` | canvas/protos/datastore/presentation_datastore.cpp:67-94 | answers SQL_ERROR exactly when its statement failed, and else the durable root or which of a short identifier, a missing row and a root of wrong size stood in the way |
| `PresentationDatastore.Datastore.LoadNode` | canvas/protos/datastore/presentation_datastore.cpp:96-138 | answers SQL_ERROR exactly when its statement failed, and else the stored node or which of a bad argument, a missing row and a column of wrong size stood in the way |
| `PresentationDatastore.Datastore.LoadCommittedTurnAddresses` | canvas/protos/datastore/presentation_datastore.cpp:140-167 | answers the Turn texts of the ledger rows, each once and in any order, unless a statement failed or the identifier is short |
| `PresentationDatastore.Datastore.Commit` | canvas/protos/datastore/presentation_datastore.cpp:169-256 | when no statement fails the transaction gives exactly its own answer: arguments and row checked, root compared, nodes inserted, one ledger row appended; when one fails it answers a database error and changes nothing |
| `PresentationTree.PresentationTree.Load` | canvas/presentation/presentation_tree.cpp:181-199 | loading a stored root gives the node its tree has there, and fails with SQL_ERROR exactly when a statement failed |
| `PresentationTree.PresentationTree.Retain` | canvas/presentation/presentation_tree.cpp:201-206 | retaining a node appends it under its own digest |
| `PresentationTree.PresentationTree.Split` | canvas/presentation/presentation_tree.cpp:142-179 | the node-by-node split stores exactly the two trees of the treap split, appending only genuine nodes |
| `PresentationTree.PresentationTree.Promote` | canvas/presentation/presentation_tree.cpp:108-121 | promotion stores the new Turn above the two halves |
| `PresentationTree.PresentationTree.Insert` | canvas/presentation/presentation_tree.cpp:88-140 | unless a statement fails, the recursive insertion stores exactly the treap insertion, or reports ALREADY_EXISTS exactly when that refuses |
| `PresentationTree.PresentationTree.PrepareInsert` | canvas/presentation/presentation_tree.cpp:68-80 | a preparation holds the old root, the new root and enough nodes to store the new tree; a failure leaves nothing |
| `PresentationTree.PresentationTree.Commit` | canvas/presentation/presentation_tree.cpp:82-86 | the in-memory root advances only from the root that was prepared against |
| `PresentationTree.PresentationTree.Collect` | canvas/presentation/presentation_tree.cpp:208-230 | unless a statement fails, collection lists the Turns of the denoted tree in order |
| `PresentationHistory.RefusedIffMember` | canvas/presentation/presentation_tree.cpp:88-140 | on addresses in printed form a Turn is refused exactly when it is in the tree |
| `PresentationHistory.TwinTextSlipsPast` | canvas/presentation/presentation_tree.cpp:88-140 | with the text `1.` the refusal can be missed: a tree holding `1` accepts it |
| `PresentationHistory.RefusalOfAnyText` | canvas/presentation/presentation_tree.cpp:88-140 | for any text: a Turn is refused exactly when a Turn at its address is present and it outranks none of that Turn's ancestors |
| `PresentationHistory.PreparedStable` | canvas/session/orchestration_subsystem.cpp:55-128 | a preparation made against an older root stays meaningful while nodes are only added |
| `PresentationHistory.CommitExtendsHistory` | canvas/protos/datastore/presentation_datastore.cpp:169-256 | committing a preparation made against the current root succeeds and appends exactly its Turn to the history |
| `PresentationHistory.StaleCommitRefused` | canvas/protos/datastore/presentation_datastore.cpp:200-203 | committing a preparation made against an older root is refused and changes nothing |
| `PresentationHistory.KeysAreLedger` | canvas/protos/datastore/presentation_datastore.cpp:169-256 | at every point of the history the Turns of the tree are those of the ledger so far |
| `PresentationHistory.RootsDistinct` | canvas/protos/datastore/presentation_datastore.cpp:169-256 | no two points of the history have the same root |
| `PresentationHistory.SiblingsListedByOrdinal` | canvas/presentation/presentation_tree.cpp:208-230 | in the listing a sibling with the smaller ordinal, with all its descendants, comes first |
| `PresentationHistory.SameLedgerSameRoot` | canvas/protos/datastore/presentation_datastore.cpp:169-256 | two durable histories that committed the same Turns, in whatever order, have the same durable root |
| `PresentationHistory.CurrentListing` | canvas/presentation/presentation_tree.cpp:208-230 | the durable root lists exactly the ledger's Turns, sorted by address |
| `Orchestration.NextInv` | canvas/session/orchestration_subsystem.cpp:55-201 | every step of submission, persistence, preparation, commit, retry, crash, restart, recovery or another process keeps the protocol invariant |
| `Orchestration.CrashSafety` | canvas/session/orchestration_subsystem.cpp:55-201 | at every point of every run, crashes and half-done recoveries included, the durable root denotes a tree over exactly the ledger's Turns, all durable, in strict address order |
| `Orchestration.MemoryIsCommitted` | canvas/session/orchestration_subsystem.cpp:70-128 | the in-memory root is always empty or a durably committed root |
| `Orchestration.StepCommitsAtMostOne` | canvas/session/orchestration_subsystem.cpp:70-128 | a step changes the durable rows only by one commit that adds exactly its own new Turn and keeps every older root's tree |
| `Orchestration.LedgerGrows` | canvas/protos/datastore/presentation_datastore.cpp:182-256 | the ledger only grows, and the rows change only when it does |
| `Orchestration.NoRootRecurs` | canvas/protos/datastore/presentation_datastore.cpp:182-256 | seeing the same durable root twice means nothing was committed in between |
| `Orchestration.SameTurnsSameDurableRoot` | canvas/session/orchestration_subsystem.cpp:55-201 | wherever two runs of the system, however scheduled, crashed and recovered, have committed the same Turns, their durable roots are equal |
| `Orchestration.SuccessIsDurable` | canvas/session/orchestration_subsystem.cpp:70-128 | the Turn of a run that reported success is in the ledger then and ever after |
| `Orchestration.RecoveryBounds` | canvas/session/orchestration_subsystem.cpp:131-201 | when the process begins to serve, whatever others did meanwhile, the durable listing holds at least every Turn that start-up loaded and at most the durable Turns, strictly sorted |
| `Orchestration.LoadedAreDurable` | canvas/canvas_subsystem.cpp:335-347 | what start-up loaded are exactly the Turns that were durable when it read them |
| `Orchestration.RecoveryIsComplete` | canvas/session/orchestration_subsystem.cpp:131-201 | if no Turn was persisted since start-up read them, the durable listing is then exactly all durable Turns, sorted by address |
| `Orchestration.RecoveryStepSucceeds` | canvas/session/orchestration_subsystem.cpp:131-201 | recovery cannot get stuck on its own data: the next missing Turn is accepted by the tree and by the transaction |
| `RecoveryProgress.StartUpStepExists` | canvas/session/orchestration_subsystem.cpp:131-201 | until a process left alone with its database serves, a step of its start-up is enabled |
| `RecoveryProgress.StartUpAdvances` | canvas/session/orchestration_subsystem.cpp:131-201 | every step of start-up leaves strictly fewer to do |
| `RecoveryProgress.UndisturbedRecoveryServes` | canvas/session/orchestration_subsystem.cpp:131-201 | every sequence of start-up steps is bounded by the number of durable Turns, and every one that cannot be extended ends serving with the durable listing exactly all durable Turns in address order |
| `RecoveryProgress.FreshTurnGetsOnItsWay` | canvas/canvas_subsystem.cpp:244-293 | a fresh Turn in printed form can always be submitted, persisted and indexed, from where a run left alone commits it |
| `OrchestrationProgress.PreparationFrom` | canvas/presentation/presentation_tree.cpp:68-80 | a Turn that is not committed can be prepared from every root of the history |
| `OrchestrationProgress.OwnStepAdvances` | canvas/session/orchestration_subsystem.cpp:55-128 | every own step of a run keeps it on its way and leaves it strictly fewer steps |
| `OrchestrationProgress.OwnStepExists` | canvas/session/orchestration_subsystem.cpp:55-128 | until a run on its way is done, one of its own steps is enabled |
| `OrchestrationProgress.RetryCommits` | canvas/session/orchestration_subsystem.cpp:92-110 | a commit that finds a moved root takes exactly four own steps: reload, prepare again from the durable root, commit, advance |
| `OrchestrationProgress.UndisturbedRunCommits` | canvas/session/orchestration_subsystem.cpp:55-128 | every sequence of a run's own steps has at most six, and every one that cannot be extended ends with success and the Turn in the ledger, however stale the preparation was |
| `OrchestrationProgress.RunCanFinish` | canvas/session/orchestration_subsystem.cpp:55-128 | from every point of its way such a finishing sequence of own steps exists |
| `OrchestrationProgress.UndisturbedRunCatchesUp` | canvas/session/orchestration_subsystem.cpp:70-128 | left alone from its preparation on, a finished run leaves the in-memory root at the durable root |
| `Orchestrator.Orchestrator.PrepareAndCommit` | canvas/session/orchestration_subsystem.cpp:93-110 | preparing against the durable root and committing adds exactly the Turn or leaves the history as it was; a database error is answered exactly when a statement failed |
| `Orchestrator.Orchestrator.CommitTurn` | canvas/session/orchestration_subsystem.cpp:70-128 | commit with its re-preparation and its one retry adds exactly the Turn to the durable key set; it fails only because the Turn is committed already or, exactly then, because a statement failed, and changes nothing then |
| `Orchestrator.SortByAddress` | canvas/session/orchestration_subsystem.cpp:160-163 | sorting gives the same Turns in strict address order |
| `Orchestrator.Orchestrator.CommitOrRetry` | canvas/session/orchestration_subsystem.cpp:89-110 | the first transaction commits a current preparation; a stale one is retried once from the durable root |
| `Orchestrator.Orchestrator.CommitAll` | canvas/session/orchestration_subsystem.cpp:165-181 | the recovery loop commits all the sorted Turns unless a statement fails |
| `Orchestrator.Orchestrator.Reconcile` | canvas/session/orchestration_subsystem.cpp:131-201 | when no statement fails the answer is CORRUPT_DATA exactly for a foreign or unparsable row, changing nothing, and else OK with the durable key set equal to the stored Turns; a database error is answered exactly when a statement failed |
| `Trie.PathUnique` | utils/containers/trie.hpp:142-151 | two key sequences never lead to the same node |
| `Trie.InsertRefinesUpdate` | utils/containers/trie.hpp:218-239 | insertion is map update; existing indexes keep their sequences and only prefixes of the new sequence appear |
| `Trie.EraseRefinesRemoval` | utils/containers/trie.hpp:251-259 | erasure is map removal and keeps every node |
| `Trie.FindChild` | utils/containers/trie.hpp:182-205 | the linear scan and the bisection find the same child, because child lists stay strictly sorted |
| `Trie.FindNode` | utils/containers/trie.hpp:142-151 | the walk stops exactly where the sequence leads nowhere |
| `Trie.InsertSequence` | utils/containers/trie.hpp:218-239 | the appending loop computes the map update |
| `Trie.EraseSequence` | utils/containers/trie.hpp:251-259 | erasure answers whether a value was stored and removes exactly that one |
| `Trie.Trie.Insert` | utils/containers/trie.hpp:218-239 | the container after insertion is the old map updated at one sequence, with stable indexes |
| `Trie.Trie.Erase` | utils/containers/trie.hpp:251-259 | the container after erasure is the old map without one sequence; no node is lost and every index keeps its sequence |
| `Trie.CollectFinds` | utils/containers/trie.hpp:303-314 | the traversal reaches exactly the stored extensions of its prefix |
| `Trie.CollectSorted` | utils/containers/trie.hpp:303-314 | the traversal lists them in strict lexicographic order |
| `Trie.SiblingsCollectedByOrdinal` | utils/containers/trie.hpp:303-314 | in the traversal a sibling with the smaller ordinal, with all its descendants, comes first |
| `Trie.Completions` | utils/containers/trie.hpp:288-299 | completions are exactly the stored sequences behind the prefix, in strict lexicographic order |
| `TurnHash.HashNodeIsFull` | canvas/turn/turn_tree.cpp:241-265 | over correct child hashes, hashing one node is hashing its whole subtree |
| `TurnHash.UntouchedHash` | canvas/turn/turn_tree.cpp:169-178 | a subtree in which nothing a hash sees has changed keeps its hash |
| `TurnHash.SameTurnsSameHash` | canvas/turn/turn_tree.cpp:241-265 | tries that hold the same Turns have the same hashes at every address, however their arrays grew |
| `TurnTrie.ApplyAddsTurn` | canvas/turn/turn_tree.cpp:121-180 | a successful apply adds exactly its Turn, and every old index keeps its address |
| `TurnTrie.ApplyExplicit` | canvas/turn/turn_tree.cpp:162-167 | apply appends one node and rewrites only its parent |
| `TurnTrie.ApplyInv` | canvas/turn/turn_tree.cpp:121-180 | apply keeps the trie well formed, fully reachable and holding each Turn at its own address |
| `TurnTrie.ApplyAlloc` | canvas/turn/turn_tree.cpp:165-167 | apply reserves exactly its address and releases none |
| `TurnTrie.BumpInv` | canvas/turn/turn_tree.cpp:26-34 | moving one allocator past a component reserves that address, keeps all reservations and wastes no ordinal |
| `TurnTrie.OffPathCorrect` | canvas/turn/turn_tree.cpp:169-178 | every hash off the new path is still a from-scratch hash |
| `TurnTrie.CollectPath` | canvas/turn/turn_tree.cpp:169-174 | the path holds the node of every prefix of the address |
| `TurnTrie.RehashPath` | canvas/turn/turn_tree.cpp:175-178 | rehashing that path from leaf to root makes every stored hash a from-scratch hash |
| `TurnTree.RootOfTurns` | canvas/turn/turn_tree.cpp:121-210 | the root hash depends only on the set of Turns: any two valid trees over the same Turns agree, incremental or rebuilt |
| `TurnIntegrity.RootPinsTurns` | canvas/turn/turn_tree.cpp:241-265 | two valid trees that hold Turns at the same addresses and have the same root hash hold the same Turns, body and all |
| `TurnIntegrity.ChildKeysPinned` | canvas/turn/turn_tree.cpp:252-262 | nodes with equal heads and different child keys have different hashes |
| `TurnIntegrity.NodeLayout` | canvas/turn/turn_tree.cpp:241-265 | where format name, Turn flag, payload, child keys and child hashes lie in the hashed bytes |
| `TurnTree.NextIsFree` | canvas/turn/turn_tree.cpp:94-108 | the ordinal an allocator hands out next is neither taken nor materialized, and fits 32 bits |
| `TurnTree.NextApplies` | canvas/turn/turn_tree.cpp:192-206 | in address order every Turn of a rebuildable input is applicable when its turn comes |
| `TurnTree.AppliedExtends` | canvas/turn/turn_tree.cpp:200-206 | every Turn that applies keeps the input so far rebuildable |
| `TurnTree.CheckApply` | canvas/turn/turn_tree.cpp:121-158 | apply answers by the documented checks in order |
| `TurnTree.CheckAnswers` | canvas/turn/turn_tree.cpp:121-152 | a Turn passes the checks exactly when its address is one 32-bit component longer than that of its parent on the same canvas, and is exhausted exactly when that component is too large |
| `TurnTree.ApplyMeans` | canvas/turn/turn_tree.cpp:121-158 | a valid Turn is refused exactly when no held Turn has its parent's address or one has its own |
| `TurnTree.AllocateMeans` | canvas/turn/turn_tree.cpp:63-105 | an allocation is refused exactly for bad arguments, a parent no held Turn has, or a taken ordinal 2^32-1 |
| `TurnTree.SortTurns` | canvas/turn/turn_tree.cpp:192-199 | sorting permutes the input into address order, equal addresses in any order |
| `TurnTree.PreserveReservations` | canvas/turn/turn_tree.cpp:212-234 | every node shared by both trees ends with the later of its two watermarks, zero being the latest; all others are untouched |
| `TurnTree.PreserveInv` | canvas/turn/turn_tree.cpp:207-234 | after a rebuild no address below a surviving parent has been released, and none was reserved for nothing |
| `TurnTree.TurnTree.Find` | canvas/turn/turn_tree.cpp:236-239 | finds the Turn at an address exactly when the tree holds one |
| `TurnTree.TurnTree.Apply` | canvas/turn/turn_tree.cpp:121-180 | apply adds its Turn and reserves its address, or changes nothing and names the refusal in terms of the Turns held; all stored hashes stay from-scratch hashes |
| `TurnTree.TurnTree.AllocateChild` | canvas/turn/turn_tree.cpp:63-119 | an allocated address lies below its parent with the ordinal right after all taken ones of its kind, was never taken before, is now, and its shell can be applied at once; exhaustion is reported exactly when ordinal 2^32-1 is taken |
| `TurnTree.TurnTree.Rebuild` | canvas/turn/turn_tree.cpp:182-210 | rebuild succeeds exactly when all Turns are valid, have different addresses and have their parents; then the tree holds exactly them and keeps all reservations below surviving parents; otherwise nothing changes |
| `TurnStore.AcceptableIffValid` | canvas/protos/datastore/turn_datastore.cpp:55-100 | persist and apply agree on which Turns are well formed |
| `TurnStore.TurnDatastore.Persist` | canvas/protos/datastore/turn_datastore.cpp:77-163 | persist refuses exactly malformed Turns, Turns whose parent's text no row carries and texts that a row carries, answers faults in order, and keeps one row per key and a row for every parent |
| `TurnStore.TurnDatastore.LoadAll` | canvas/protos/datastore/turn_datastore.cpp:165-194 | loads every Turn of the canvas exactly once, or reports a bad identifier, a query fault or an unparsable payload |
| `TurnStore.RebuildsIffOneText` | canvas/protos/datastore/turn_datastore.cpp:96-163 | the stored Turns of a canvas can be rebuilt exactly when no address is stored under two texts |
| `TurnStore.TwinTextsBlockRebuild` | canvas/protos/datastore/turn_datastore.cpp:77-163 | `1` and `1.` are both accepted, and then no rebuild of that canvas succeeds |
| `TurnStore.PersistKeepsOneText` | canvas/protos/datastore/turn_datastore.cpp:77-163 | persisting keeps one text per address exactly when the parsed address is new |
| `TurnStore.PrintedTextsSuffice` | canvas/protos/datastore/turn_datastore.cpp:77-163 | a store that holds only printed texts has one text per address |
| `CanvasTurns.CoveredKeepsTaken` | canvas/turn/turn_tree.cpp:207-234 | a rebuild that includes every materialized Turn releases no address |
| `CanvasTurns.Canvas.Allocate` | canvas/turn/turn_tree.cpp:47-119 | over the life of the process no address is handed out twice, and none that is materialized |
| `CanvasTurns.Canvas.PersistTurn` | canvas/canvas_subsystem.cpp:244-246 | a persisted Turn joins the durable set and nothing else does |
| `CanvasTurns.Canvas.UpdateTrie` | canvas/canvas_subsystem.cpp:249-293 | for a persisted Turn corruption is reported exactly when the increment does not apply and loading failed or an address has two texts; otherwise the tree holds the Turn, all it held and nothing outside the store |
| `CanvasTurns.Canvas.Restore` | canvas/canvas_subsystem.cpp:335-367 | start-up succeeds exactly on a readable store with one text per address, and then the tree is exactly the durable Turns |
| `Layers.SettlesIffNoCycle` | utils/execution_graph/dependency_graph.hpp:173-213 | rounds of settling reach every node exactly when there is no directed cycle |
| `Layers.LayersPartition` | utils/execution_graph/dependency_graph.hpp:129-145 | every node is in exactly one layer |
| `Layers.EdgesGoForward` | utils/execution_graph/dependency_graph.hpp:129-145 | every edge leads to a strictly later layer |
| `Layers.LayerIsLongestChain` | utils/execution_graph/dependency_graph.hpp:173-213 | a node's layer index is the length of its longest prerequisite chain |
| `Layers.LayersUnique` | utils/execution_graph/dependency_graph.hpp:173-213 | the layers are determined by the graph, so a cached computation equals a fresh one |
| `Layers.LayersGiveLayering` | utils/execution_graph/dependency_graph.hpp:173-213 | validated layers are the acyclicity that plan execution relies on |
| `DependencyGraph.KahnLayers` | utils/execution_graph/dependency_graph.hpp:173-213 | the layered loop visits every node exactly when the graph is acyclic, and then its layers are the layers |
| `DependencyGraph.DependencyGraph.AddNode` | utils/execution_graph/dependency_graph.hpp:70-82 | adds an isolated node or reports a duplicate; the cache is never stale |
| `DependencyGraph.DependencyGraph.AddDependency` | utils/execution_graph/dependency_graph.hpp:85-106 | adds exactly one edge, or reports an unknown node or a duplicate edge and changes nothing |
| `DependencyGraph.DependencyGraph.Validate` | utils/execution_graph/dependency_graph.hpp:173-213 | validation fails exactly on a cycle, and a valid cache equals a fresh computation |
| `DependencyGraph.DependencyGraph.ForwardLayers` | utils/execution_graph/dependency_graph.hpp:129-145 | prerequisites-first layers by node |
| `DependencyGraph.DependencyGraph.ReverseLayers` | utils/execution_graph/dependency_graph.hpp:148-157 | the same layers with dependents first |
| `Topology.ReleaseSpec` | utils/execution_graph/dependency_graph.hpp:195-203 | the decrement loop lowers each dependent once and reports exactly those that reach zero |
| `ExecutionPlan.NextInv` | utils/execution_graph/execution_plan.hpp:152-233 | every lock section and pool decision keeps the run's invariant |
| `ExecutionPlan.OrderingSafety` | utils/execution_graph/execution_plan.hpp:152-233 | in every interleaving each job starts at most once and only after all its prerequisites returned; once the callback is taken nothing of the run is queued, running or to come |
| `ExecutionPlan.CallbackMeaning` | utils/execution_graph/execution_plan.hpp:168-233 | the callback says OK only when every job returned, and failure only after a rejected submission |
| `ExecutionPlan.Progress` | utils/execution_graph/execution_plan.hpp:168-222 | an unfinished run of a validated plan always has a thread or wrapper that can step |
| `ExecutionPlan.StepsDecrease` | utils/execution_graph/execution_plan.hpp:168-222 | every step lowers a measure |
| `ExecutionPlan.EveryRunCompletes` | utils/execution_graph/execution_plan.hpp:152-233 | no run steps forever, and where it can go no further its callback has been taken exactly once |
| `TurnPipeline.NextInv` | canvas/session/turn_pipeline.cpp:116-170 | the pipeline invariant over any number of concurrent runs |
| `TurnPipeline.AdmissionFollowsAttachment` | canvas/session/turn_pipeline.cpp:154-170 | attaching admits every submission while a plan is published; once detach has begun none is admitted |
| `TurnPipeline.ActiveNeverUnderflows` | canvas/session/turn_pipeline.cpp:116-122 | `active_runs` is positive whenever it is decremented |
| `TurnPipeline.DetachIsQuiescent` | canvas/session/turn_pipeline.cpp:165-170 | detach returns only when every accepted run has given its callback, the callback has returned and nothing is queued or running, and leaves no executor |
| `TurnPipeline.DrainMakesProgress` | canvas/session/turn_pipeline.cpp:237-285 | every outstanding run has a step of its own enabled, and that step lowers the work left |
| `TurnPipeline.OwnStepLowersWork` | canvas/session/turn_pipeline.cpp:237-285 | each step of any run, from admission to the return of its callback, strictly lowers the work summed over all runs |
| `TurnPipeline.OtherStepsKeepRuns` | canvas/session/turn_pipeline.cpp:154-170 | while nothing is admitted, every other step leaves runs and counter alone |
| `TurnPipeline.DrainIsBounded` | canvas/session/turn_pipeline.cpp:165-170 | once detach has begun, at most as many steps of runs follow as the work at that moment, in every interleaving |
| `TurnPipeline.DrainedMayReturn` | canvas/session/turn_pipeline.cpp:165-170 | where no outstanding run can step any more the counter is zero and detach can return |
| `Lifecycle.StartedMeansUp` | state/state.cpp:105-244 | the started flag means exactly: started, and neither stopped nor terminated since |
| `Lifecycle.DependencyIsUp` | state/state.cpp:157-196 | in every history, whatever fails, a start hook finds every dependency up |
| `Lifecycle.DependentIsDown` | state/state.cpp:318-344 | a stop hook finds no dependent up, except in terminate where stopping that dependent has already failed |
| `Lifecycle.UpIsClosed` | state/state.cpp:157-216 | before any terminate, what is up at a hook boundary is closed under dependencies |
| `LifecycleTopology.BuildLayers` | state/state.cpp:266-310 | layers exist exactly for dependencies that are registered, not doubled and not cyclic, and a failure names which of these was met; the layers rank every subsystem above its dependencies |
| `LifecycleTopology.CyclesAgree` | state/state.cpp:276-290 | the graph has a cycle exactly when the declarations have one |
| `AppLifecycle.AppState.Register` | state/state.cpp:66-92 | registration answers by its checks in order and adds exactly one subsystem |
| `AppLifecycle.AppState.Initialize` | state/state.cpp:105-155 | the hooks called are initialize hooks in layer order up to the first failure, whose status is the answer, then terminate hooks on exactly those that succeeded, in reverse, up to the first failure; everything is undone exactly when none of these failed; a bad topology runs no hook and is named |
| `AppLifecycle.AppState.Start` | state/state.cpp:157-196 | the hooks called are start hooks in layer order up to the first failure, whose status is the answer, then stop hooks on exactly those that succeeded, in reverse, up to the first failure; the previous state returns exactly when none of these failed |
| `AppLifecycle.AppState.Stop` | state/state.cpp:198-216 | the hooks called are stop hooks on the started subsystems from the top layer down, through all layers or through the first that sees a failure; STOPPED means everything initialized and nothing started |
| `AppLifecycle.AppState.Terminate` | state/state.cpp:218-244 | the hooks called are one stop hook on everything started and then one terminate hook on everything initialized, each from the top layer down; TERMINATED is reached exactly when none failed and means nothing is initialized or started |
| `AppLifecycle.TeardownIsComplete` | state/state.cpp:239-244 | such a teardown stops every started and terminates every initialized subsystem, none twice, nothing else, and all stops come first |
| `AppLifecycle.AppState.StopStarted` | state/state.cpp:318-344 | one stop hook on every started subsystem from the top layer down; without best effort the layer that sees the first failure is the last; OK means nothing is started |
| `AppLifecycle.AppState.TerminateInitialized` | state/state.cpp:346-367 | one terminate hook on every initialized subsystem from the top layer down; OK means nothing is initialized |
| `AppLifecycle.AppState.RollbackStarted` | state/state.cpp:369-387 | stop hooks in exactly the reverse order of the start, up to the first failure; nothing stays started exactly when none failed |
| `AppLifecycle.AppState.RollbackInitialized` | state/state.cpp:389-408 | terminate hooks in exactly the reverse order of the initialization, up to the first failure; nothing stays initialized exactly when none failed |
| `Channel.StepInv` | utils/ipc/channel.cpp:133-273 | every lock section and pool decision keeps token, queue, order and count invariants |
| `Channel.RunInv` | utils/ipc/channel.cpp:133-273 | those invariants hold at every point of every run |
| `Channel.SingleToken` | utils/ipc/channel.cpp:150-234 | at any moment at most one delivery exists: one accepted job or one thread |
| `Channel.DeliveryInOrder` | utils/ipc/channel.cpp:150-234 | retained messages are the newest pushed ones, at most `depth`; callbacks get a subsequence in push order; pushed equals delivered, in flight, dropped, discarded and retained together |
| `Channel.EnqueueRetains` | utils/ipc/channel.cpp:150-189 | while attached every message is taken in, the newest `depth` stay retained and a delivery is scheduled; otherwise nothing changes |
| `Channel.CallbackGetsOldest` | utils/ipc/channel.cpp:192-206 | a callback is handed the oldest retained message |
| `Channel.BeginDelivers` | utils/ipc/channel.cpp:192-216 | a delivery job that finds a retained message hands it to the callback, whose return is recorded |
| `Channel.AttachOpensDetachCloses` | utils/ipc/channel.cpp:133-147 | attaching opens the channel unless it is being destroyed; detaching and destroying close it, discard what is retained and wait unless called from the callback |
| `Channel.DestroyedForGood` | utils/ipc/channel.cpp:252-266 | once destruction has begun nothing is ever attached, taken in or retained again |
| `Channel.NothingStranded` | utils/ipc/channel.cpp:150-234 | while a message is retained and no job was lost, a job or a thread is on its way to deliver it |
| `Channel.DetachIsQuiet` | utils/ipc/channel.cpp:237-249 | a detach not called from a callback returns only with no callback running and none scheduled |
| `Channel.DetachedDrains` | utils/ipc/channel.cpp:192-273 | unless the pool lost the job, the token of a detached channel can step and each step ends the wait or leaves less to do |
| `Wire.EnvelopeRoundTrip` | utils/ipc/msg.cpp:72-278 | decoding an encoding followed by any tail returns the message and consumes exactly the encoding |
| `Wire.PrefixIsTruncated` | utils/ipc/msg.cpp:150-278 | every strict prefix of an encoding yields TRUNCATED_MESSAGE |
| `Wire.AcceptedIsCanonical` | utils/ipc/msg.cpp:72-278 | re-encoding what was accepted reproduces exactly the consumed bytes |
| `Wire.StreamRoundTrip` | utils/ipc/msg.cpp:72-278 | a stream of encodings splits back into exactly its messages |
| `Wire.StreamCanonical` | utils/ipc/msg.cpp:72-278 | a stream that decodes at all is the encoding of what it decodes to |
| `Wire.EnvelopeLayout` | utils/ipc/msg.cpp:119-147 | where magic, version, sizes, identifiers, sections, payload and checksum lie in an encoding |
| `Wire.FlagLayout` | utils/ipc/msg.cpp:110-115 | each flag bit says whether its section is present, and no other bit is set |
| `Wire.OptionLayout` | utils/ipc/msg.cpp:127-142 | where session, timestamp, part counts and extension lie in the optional sections |
| `Wire.OptionsRoundTrip` | utils/ipc/msg.cpp:93-139 | the optional sections read back under their own flags |
| `Wire.OptionsCanonical` | utils/ipc/msg.cpp:199-246 | accepted optional sections are the one encoding of what they mean, flags included |
| `Wire.SerializeMessage` | utils/ipc/msg.cpp:72-148 | the appending encoder computes the encoding, or refuses with the first failing check |
| `Wire.DeserializeMessage` | utils/ipc/msg.cpp:150-278 | the cursor decoder computes the decoding, error by error |
| `Integers.AppendInteger` | utils/ipc/msg.cpp:36-42 | appends the big-endian bytes of a value |
| `Integers.ReadInteger` | utils/ipc/msg.cpp:45-53 | the fold computes the big-endian value |
| `Utf8.IsValid` | utils/utf8/utf8.cpp:14-60 | accepts exactly the encodings of sequences of Unicode scalar values by section 3 of RFC 3629 |
| `Utf8.StepReads` | utils/utf8/utf8.cpp:14-60 | the encoding of a scalar value is read as that value |
| `Utf8.StepCanonical` | utils/utf8/utf8.cpp:14-60 | only that encoding is: overlong forms, surrogates and values above 10FFFF are refused |
| `Utf8.TextUnique` | utils/utf8/utf8.cpp:14-60 | bytes have at most one reading as scalar values |
| `Terminal.EventRoundTrip` | msgs/terminal_msgs.cpp:105-373 | decoding the encoding of an encodable event returns the event |
| `Terminal.AcceptedPayload` | msgs/terminal_msgs.cpp:216-373 | every accepted payload is the one encoding of an encodable event |
| `Terminal.EncodePayload` | msgs/terminal_msgs.cpp:105-214 | the appending encoder refuses exactly the events that are not encodable, and its bytes decode to the event |
| `Terminal.DecodePayload` | msgs/terminal_msgs.cpp:216-373 | the decoder answers the one encodable event that encodes to the payload, or nothing exactly when there is none |
| `Terminal.ReadString` | msgs/terminal_msgs.cpp:79-92 | a string is read at the moving offset, and ends the payload exactly when the offset reaches its end |
| `Terminal.TagLayout` | msgs/terminal_msgs.cpp:23-34 | the tag byte of each kind of event |
| `Terminal.KeyLayout` | msgs/terminal_msgs.cpp:110-132 | where the fields of a key event lie |
| `Terminal.NumberLayout` | msgs/terminal_msgs.cpp:141-195 | where the fields of mouse, scroll, focus and command events lie, deltas in two's complement |
| `Terminal.TextLayout` | msgs/terminal_msgs.cpp:133-210 | where number, value, length and bytes of the string events lie |
| `Terminal.CheckKey` | msgs/terminal_msgs.cpp:94-101 | a key event is accepted exactly when its scalars, action, modifiers and text are valid |

## Left out

- SQLite, protobuf, SHA-256 and TOML internals: transactions, plain records and a digest parameter stand for them.
- Sockets, FIFOs, framed I/O, poller, signals, logger, metronome and the threads and clocks of the job queue: only the answers that the modelled code sees are modelled.
- Memory lifetime and memory ordering: a lock section or a compare-exchange is one step; the retry loops around compare-exchange are therefore single steps.
- `ExecutionPlan`, `TurnPipeline`, `Channel` and the protocol in `Orchestration` are state records with steps instead of objects, because their point is interleaving; update in place is not captured there.
- Registration and unregistration of pipeline nodes by name, which recompile the plan: the pipeline starts from compiled plans.
- `ExecutionGraph`: the scheduling argument of `ExecutionPlan` with a generation counter.
- The generic key type of the trie: it is modelled at the address components that the Turn tree uses.
- The foreign keys on the `canvases` and `presentations` rows.
- `Orchestrator.Orchestrator.Reconcile`: is about snapshots whose parsable texts are in printed form; the materialized Presentation message it publishes is not modelled.
- `Wire.EnvelopeRoundTrip`: assumes that the bytes fit in a 64-bit address space, as any buffer does.
- Serialization failure of a Turn above the protobuf size limit, which would store a zero hash.
- The list of Turns and actors kept for display by the canvas subsystem, IPC announcements, queries and broadcasts, and UUID generation: best-effort output and randomness.
- Subscriptions of a channel: a callback is one step from begin to return, whatever its subscribers do.
- TUI frames, themes, cell buffers and command mode; properties, configuration, directory, command dispatch, and the screen and command-frame codecs: easier members of the same kinds.
