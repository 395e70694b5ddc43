/**
 Presentation orchestration as a protocol: pipeline runs that prepare and commit, another
 process on the same database, crashes, and recovery
 (canvas/session/orchestration_subsystem.cpp, canvas/canvas_subsystem.cpp).

 One step is one lock section or one database transaction. Preparing reads only immutable
 nodes below a fixed root, so it may be placed at any single point of its lock section.
 */
module Orchestration {
  import opened Basics
  import opened Hashing
  import opened PresentationNodes
  import opened PresentationDatastore
  import opened PresentationTree
  import opened PresentationHistory
  import opened Tables
  import opened Treap
  import Address

  /** Progress of one accepted Turn through persist, trie, linearize and commit. */
  datatype Stage =
    | Submitted
    | Persisted
    | Indexed
    | Linearized(pending: Pending)
    | Committing(pending: Pending)  // holds the mutex, first commit not issued
    | Reloading(pending: Pending)   // holds the mutex, first commit answered INVALID_STATE
    | Retrying(pending: Pending)    // holds the mutex, prepared again from the durable root
    | Advancing(pending: Pending)   // holds the mutex, durable but not yet the in-memory root
    | Done
    | Failed

  datatype Run = Run(text: Bytes, stage: Stage)

  datatype Mode =
    | Down
    | TurnsLoaded                     // the canvas has its Turns
    | RootLoaded                      // the Presentation root has been read as well
    | Reconciling(todo: seq<Bytes>)   // and the ledger
    | Serving

  /**
   `turns` and `store` are durable, the rest is lost in a crash. `trees` is the auxiliary
   history behind `store`; `restored` remembers the durable Turns found by the last restore.
   */
  datatype System = System(
    turns: set<Bytes>,
    store: Presentation,
    trees: seq<Tree<Bytes>>,
    mode: Mode,
    memory: Hash,
    restored: set<Bytes>,
    runs: map<nat, Run>,
    lock: Option<nat>
  )

  predicate Locked(stage: Stage) {
    stage.Committing? || stage.Reloading? || stage.Retrying? || stage.Advancing?
  }

  function SetStage(s: System, r: nat, stage: Stage): System
    requires r in s.runs
  {
    s.(runs := s.runs[r := Run(s.runs[r].text, stage)],
       lock := if Locked(stage) then Some(r) else if s.lock == Some(r) then None else s.lock)
  }

  /** The auxiliary history after committing `text`. */
  function NextTree(sha: Bytes -> Hash, canvas: Bytes, t: Tree<Bytes>, text: Bytes): Tree<Bytes> {
    match Insert(PresentationOrder(sha, canvas), t, text)
    case None => t
    case Some(t') => t'
  }

  // -------------------------------------------------------------------- steps

  ghost predicate Init(s: System) {
    && s.turns == {} && s.store == EMPTY && s.trees == [Leaf]
    && s.mode == Down && s.memory == ZERO_HASH && s.restored == {} && s.runs == map[] && s.lock == None
  }

  /** `prepare_insert` from the root `from` answered OK with `p`. */
  ghost predicate Prepares(d: Digest, canvas: Bytes, s: System, from: Hash, text: Bytes, p: Pending) {
    exists t :: Denotes(d, canvas, s.store.nodes, from, t) && Prepared(d, canvas, s.store.nodes, t, text, p)
  }

  /** A Turn enters the pipeline; its text is one that `string()` printed. */
  ghost predicate Submit(s: System, s': System, r: nat, text: Bytes) {
    && s.mode == Serving && r !in s.runs && Address.Canonical(text)
    && s' == s.(runs := s.runs[r := Run(text, Submitted)])
  }

  /** `persist_turn`: the Turn table's primary key refuses a text it already holds. */
  ghost predicate Persist(s: System, s': System, r: nat) {
    && r in s.runs && s.runs[r].stage == Submitted && s.runs[r].text !in s.turns
    && s' == SetStage(s.(turns := s.turns + {s.runs[r].text}), r, Persisted)
  }

  ghost predicate UpdateTrie(s: System, s': System, r: nat) {
    && r in s.runs && s.runs[r].stage == Persisted
    && s' == SetStage(s, r, Indexed)
  }

  /** `linearize`: prepare against the in-memory root, then release the mutex. */
  ghost predicate Linearize(d: Digest, canvas: Bytes, s: System, s': System, r: nat, p: Pending) {
    && r in s.runs && s.runs[r].stage == Indexed && s.lock == None
    && Prepares(d, canvas, s, s.memory, s.runs[r].text, p)
    && s' == SetStage(s, r, Linearized(p))
  }

  /** `commit`, up to its first transaction: prepare again if the in-memory root moved. */
  ghost predicate BeginCommit(d: Digest, canvas: Bytes, s: System, s': System, r: nat, p: Pending) {
    && r in s.runs && s.runs[r].stage.Linearized? && s.lock == None
    && (if s.runs[r].stage.pending.previous == s.memory then p == s.runs[r].stage.pending
        else Prepares(d, canvas, s, s.memory, s.runs[r].text, p))
    && s' == SetStage(s, r, Committing(p))
  }

  /** One successful commit transaction and its effect on the auxiliary history. */
  ghost predicate CommitOk(d: Digest, canvas: Bytes, s: System, s': System, text: Bytes, p: Pending) {
    && CommitTx(s.store, p.previous, p.root, text, p.nodes).0 == Ok
    && |s.trees| > 0
    && s' == s.(store := CommitTx(s.store, p.previous, p.root, text, p.nodes).1,
                trees := s.trees + [NextTree(d.sha, canvas, Last(s.trees), text)])
  }

  ghost predicate CommitDurably(d: Digest, canvas: Bytes, s: System, s': System, r: nat, mid: System) {
    && r in s.runs && (s.runs[r].stage.Committing? || s.runs[r].stage.Retrying?)
    && CommitOk(d, canvas, s, mid, s.runs[r].text, s.runs[r].stage.pending)
    && s' == SetStage(mid, r, Advancing(s.runs[r].stage.pending))
  }

  /** The first transaction found another root. */
  ghost predicate FindMovedRoot(s: System, s': System, r: nat) {
    && r in s.runs && s.runs[r].stage.Committing?
    && (var p := s.runs[r].stage.pending;
        CommitTx(s.store, p.previous, p.root, s.runs[r].text, p.nodes).0 == InvalidState)
    && s' == SetStage(s, r, Reloading(s.runs[r].stage.pending))
  }

  /** `load_root`, `reset`, and a second preparation. */
  ghost predicate ReloadRoot(d: Digest, canvas: Bytes, s: System, s': System, r: nat, p: Pending) {
    && r in s.runs && s.runs[r].stage.Reloading?
    && Prepares(d, canvas, s, s.store.root, s.runs[r].text, p)
    && s' == SetStage(s.(memory := s.store.root), r, Retrying(p))
  }

  /** As `ReloadRoot`, but the second preparation fails after the reset. */
  ghost predicate ReloadAndFail(s: System, s': System, r: nat) {
    && r in s.runs && s.runs[r].stage.Reloading?
    && s' == SetStage(s.(memory := s.store.root), r, Failed)
  }

  /** `PresentationTree::commit`, then the mutex is released. */
  ghost predicate AdvanceMemory(s: System, s': System, r: nat) {
    && r in s.runs && s.runs[r].stage.Advancing?
    && (var p := s.runs[r].stage.pending;
        s' == SetStage(s.(memory := if s.memory == p.previous then p.root else s.memory), r, Done))
  }

  /** Any refusal or database fault before the durable commit ends the run and changes nothing else. */
  ghost predicate FailRun(s: System, s': System, r: nat) {
    && r in s.runs && !s.runs[r].stage.Advancing? && !s.runs[r].stage.Done?
    && s' == SetStage(s, r, Failed)
  }

  /** Another process persists a Turn or commits one. */
  ghost predicate OutsidePersist(s: System, s': System, text: Bytes) {
    && Address.Canonical(text)
    && s' == s.(turns := s.turns + {text})
  }

  ghost predicate OutsideCommit(d: Digest, canvas: Bytes, s: System, s': System, text: Bytes, p: Pending, from: Hash) {
    && text in s.turns
    && Prepares(d, canvas, s, from, text, p)
    && CommitOk(d, canvas, s, s', text, p)
  }

  /** Losing the process, at any point. */
  ghost predicate Crash(s: System, s': System) {
    s' == s.(mode := Down, memory := ZERO_HASH, restored := {}, runs := map[], lock := None)
  }

  /** Start-up reads the Turns, then the root, then the ledger, each in its own transaction. */
  ghost predicate LoadTurns(s: System, s': System) {
    s.mode == Down && s' == s.(mode := TurnsLoaded, restored := s.turns)
  }

  ghost predicate LoadRoot(s: System, s': System) {
    s.mode == TurnsLoaded && s' == s.(mode := RootLoaded, memory := s.store.root)
  }

  /** The ledger decides which of the loaded Turns are missing; they are sorted by address. */
  ghost predicate LoadLedger(s: System, s': System, todo: seq<Bytes>) {
    && s.mode == RootLoaded
    && (forall x :: x in todo <==> x in s.restored && x !in LedgerTexts(s.store.commits))
    && (forall i, j :: 0 <= i < j < |todo| ==> todo[i] != todo[j] && !Before(todo[j], todo[i]))
    && s' == s.(mode := Reconciling(todo))
  }

  /** One iteration of the `reconcile` loop. */
  ghost predicate ReconcileOne(d: Digest, canvas: Bytes, s: System, s': System, p: Pending, mid: System) {
    && s.mode.Reconciling? && s.mode.todo != []
    && Prepares(d, canvas, s, s.memory, s.mode.todo[0], p)
    && CommitOk(d, canvas, s, mid, s.mode.todo[0], p)
    && s' == mid.(mode := Reconciling(s.mode.todo[1..]), memory := p.root)
  }

  /** `reconcile` returned OK. */
  ghost predicate Serve(s: System, s': System) {
    && s.mode == Reconciling([])
    && s' == s.(mode := Serving)
  }

  ghost predicate Next(d: Digest, canvas: Bytes, s: System, s': System) {
    || (exists r, text :: Submit(s, s', r, text))
    || (exists r :: Persist(s, s', r))
    || (exists r :: UpdateTrie(s, s', r))
    || (exists r, p :: Linearize(d, canvas, s, s', r, p))
    || (exists r, p :: BeginCommit(d, canvas, s, s', r, p))
    || (exists r, mid :: CommitDurably(d, canvas, s, s', r, mid))
    || (exists r :: FindMovedRoot(s, s', r))
    || (exists r, p :: ReloadRoot(d, canvas, s, s', r, p))
    || (exists r :: ReloadAndFail(s, s', r))
    || (exists r :: AdvanceMemory(s, s', r))
    || (exists r :: FailRun(s, s', r))
    || (exists text :: OutsidePersist(s, s', text))
    || (exists text, p, from :: OutsideCommit(d, canvas, s, s', text, p, from))
    || Crash(s, s')
    || LoadTurns(s, s') || LoadRoot(s, s')
    || (exists todo :: LoadLedger(s, s', todo))
    || (exists p, mid :: ReconcileOne(d, canvas, s, s', p, mid))
    || Serve(s, s')
  }

  // ---------------------------------------------------------------- invariant

  /** `p` was prepared for `text` from some point of the history. */
  ghost predicate PreparedFrom(d: Digest, canvas: Bytes, nodes: map<Hash, StoredNode>, trees: seq<Tree<Bytes>>,
                               text: Bytes, p: Pending) {
    exists i :: 0 <= i < |trees| && Prepared(d, canvas, nodes, trees[i], text, p)
  }

  /** `h` is the root of some point of the history. */
  ghost predicate PastRoot(d: Digest, canvas: Bytes, trees: seq<Tree<Bytes>>, h: Hash) {
    exists i :: 0 <= i < |trees| && h == MerkleHash(d.sha, canvas, trees[i])
  }

  ghost predicate RunInv(d: Digest, canvas: Bytes, turns: set<Bytes>, nodes: map<Hash, StoredNode>,
                         trees: seq<Tree<Bytes>>, run: Run) {
    && Address.Canonical(run.text)
    && match run.stage
       case Submitted => true
       case Persisted => run.text in turns
       case Indexed => run.text in turns
       case Linearized(p) => run.text in turns && PreparedFrom(d, canvas, nodes, trees, run.text, p)
       case Committing(p) => run.text in turns && PreparedFrom(d, canvas, nodes, trees, run.text, p)
       case Reloading(p) => run.text in turns && PreparedFrom(d, canvas, nodes, trees, run.text, p)
       case Retrying(p) => run.text in turns && PreparedFrom(d, canvas, nodes, trees, run.text, p)
       case Advancing(p) =>
         |trees| > 0 && run.text in Keys(Last(trees)) && PastRoot(d, canvas, trees, p.root)
       case Done => |trees| > 0 && run.text in Keys(Last(trees))
       case Failed => true
  }

  /** While reconciling: what is left to do is missing from the in-memory tree. */
  ghost predicate TodoInv(d: Digest, canvas: Bytes, s: System, todo: seq<Bytes>) {
    && (forall x :: x in todo ==> x in s.turns)
    && (forall i, j :: 0 <= i < j < |todo| ==> todo[i] != todo[j])
    && exists k :: && 0 <= k < |s.trees| && s.memory == MerkleHash(d.sha, canvas, s.trees[k])
                   && forall x :: x in todo ==> x !in Keys(s.trees[k])
  }

  ghost predicate ModeInv(d: Digest, canvas: Bytes, s: System)
    requires |s.trees| > 0
  {
    match s.mode
    case Down => s.runs == map[]
    case TurnsLoaded => s.runs == map[] && s.restored <= s.turns
    case RootLoaded => s.runs == map[] && s.restored <= s.turns
    case Reconciling(todo) =>
      && s.runs == map[] && TodoInv(d, canvas, s, todo)
      && (forall x :: x in s.restored ==> x in Keys(Last(s.trees)) || x in todo)
    case Serving => s.restored <= Keys(Last(s.trees))
  }

  ghost predicate LockInv(s: System) {
    && (s.lock.Some? ==> s.lock.value in s.runs)
    && forall r :: r in s.runs ==> (Locked(s.runs[r].stage) <==> s.lock == Some(r))
  }

  ghost predicate DurableInv(d: Digest, canvas: Bytes, s: System) {
    && Records(d, canvas, s.store, s.trees)
    && Keys(Last(s.trees)) <= s.turns
    && (forall x :: x in s.turns ==> Address.Canonical(x))
  }

  ghost predicate RunsInv(d: Digest, canvas: Bytes, s: System) {
    forall r :: r in s.runs ==> RunInv(d, canvas, s.turns, s.store.nodes, s.trees, s.runs[r])
  }

  ghost predicate Inv(d: Digest, canvas: Bytes, s: System) {
    && DurableInv(d, canvas, s)
    && PastRoot(d, canvas, s.trees, s.memory)
    && RunsInv(d, canvas, s)
    && LockInv(s) && ModeInv(d, canvas, s)
  }

  lemma InitInv(d: Digest, canvas: Bytes, s: System)
    requires Init(s)
    ensures Inv(d, canvas, s)
  {
    EmptyRecords(d, canvas);
    assert MerkleHash(d.sha, canvas, s.trees[0]) == s.memory;
  }

  // ------------------------------------------------------------------- proofs

  /** A preparation always starts from a point of the history. */
  lemma PreparesFromHistory(d: Digest, canvas: Bytes, s: System, from: Hash, text: Bytes, p: Pending)
    requires DurableInv(d, canvas, s) && PastRoot(d, canvas, s.trees, from)
    requires Prepares(d, canvas, s, from, text, p)
    ensures PreparedFrom(d, canvas, s.store.nodes, s.trees, text, p)
  {
    hide Prepared, Consistent, IsTreap, CanonicalKeys, Stored, Link;
    var t :| Denotes(d, canvas, s.store.nodes, from, t) && Prepared(d, canvas, s.store.nodes, t, text, p);
    var i :| 0 <= i < |s.trees| && from == MerkleHash(d.sha, canvas, s.trees[i]);
    assert GoodTree(d, canvas, s.store.nodes, s.trees[i]);
    DenotationUnique(d, canvas, s.store.nodes, from, t, s.trees[i]);
  }

  lemma RunInvStable(d: Digest, canvas: Bytes, s: System, s': System, run: Run)
    requires CollisionFree(d) && DurableInv(d, canvas, s) && DurableInv(d, canvas, s')
    requires s.turns <= s'.turns && Extends(s.store.nodes, s'.store.nodes) && s.trees <= s'.trees
    requires Keys(Last(s.trees)) <= Keys(Last(s'.trees))
    requires RunInv(d, canvas, s.turns, s.store.nodes, s.trees, run)
    ensures RunInv(d, canvas, s'.turns, s'.store.nodes, s'.trees, run)
  {
    hide Prepared, Consistent, GoodTree, Link, CollisionFree, Address.Canonical;
    if run.stage.Linearized? || run.stage.Committing? || run.stage.Reloading? || run.stage.Retrying? {
      var p := run.stage.pending;
      var i :| 0 <= i < |s.trees| && Prepared(d, canvas, s.store.nodes, s.trees[i], run.text, p);
      PreparedStable(d, canvas, s.store.nodes, s'.store.nodes, s.trees[i], run.text, p);
      assert s'.trees[i] == s.trees[i];
    } else if run.stage.Advancing? {
      PastRootStable(d, canvas, s.trees, s'.trees, run.stage.pending.root);
    }
  }

  lemma PastRootStable(d: Digest, canvas: Bytes, trees: seq<Tree<Bytes>>, trees': seq<Tree<Bytes>>, h: Hash)
    requires trees <= trees' && PastRoot(d, canvas, trees, h)
    ensures PastRoot(d, canvas, trees', h)
  {
    var i :| 0 <= i < |trees| && h == MerkleHash(d.sha, canvas, trees[i]);
    assert trees'[i] == trees[i];
  }

  /** Whoever commits a preparation for a durable Turn extends the history by exactly that Turn. */
  lemma CommitOkInv(d: Digest, canvas: Bytes, s: System, s': System, text: Bytes, p: Pending)
    requires CollisionFree(d) && DurableInv(d, canvas, s) && text in s.turns
    requires PreparedFrom(d, canvas, s.store.nodes, s.trees, text, p)
    requires CommitOk(d, canvas, s, s', text, p)
    ensures DurableInv(d, canvas, s')
    ensures Extends(s.store.nodes, s'.store.nodes) && s.trees <= s'.trees
    ensures text !in Keys(Last(s.trees)) && Keys(Last(s'.trees)) == Keys(Last(s.trees)) + {text}
    ensures p.previous == MerkleHash(d.sha, canvas, Last(s.trees))
    ensures s'.store.root == p.root == MerkleHash(d.sha, canvas, Last(s'.trees))
    ensures forall r :: r in s.runs ==>
              RunInv(d, canvas, s.turns, s.store.nodes, s.trees, s.runs[r]) ==>
              RunInv(d, canvas, s'.turns, s'.store.nodes, s'.trees, s.runs[r])
  {
    hide Consistent, GoodTree, CollisionFree, Address.Canonical, RunInv, GenuineEntries, Denotes, PresentationOrder, Merge;
    var i :| 0 <= i < |s.trees| && Prepared(d, canvas, s.store.nodes, s.trees[i], text, p);
    if i < |s.trees| - 1 {
      StaleCommitRefused(d, canvas, s.store, s.trees, i, text, p);
    }
    CommitExtendsHistory(d, canvas, s.store, s.trees, text, p);
    assert Last(s.trees) == s.trees[|s.store.commits|];
    assert Link(d, canvas, s'.trees[|s.store.commits|], Last(s'.store.commits), s'.trees[|s.store.commits| + 1]);
    forall r | r in s.runs && RunInv(d, canvas, s.turns, s.store.nodes, s.trees, s.runs[r])
      ensures RunInv(d, canvas, s'.turns, s'.store.nodes, s'.trees, s.runs[r])
    {
      RunInvStable(d, canvas, s, s', s.runs[r]);
    }
  }

  /** A step of one run that leaves the Presentation rows alone. */
  lemma RunStepInv(d: Digest, canvas: Bytes, s: System, s': System, r: nat, turns: set<Bytes>, memory: Hash, stage: Stage)
    requires CollisionFree(d) && Inv(d, canvas, s) && r in s.runs
    requires s.turns <= turns && forall x :: x in turns ==> Address.Canonical(x)
    requires PastRoot(d, canvas, s.trees, memory)
    requires Locked(stage) ==> s.lock == None || s.lock == Some(r)
    requires RunInv(d, canvas, turns, s.store.nodes, s.trees, Run(s.runs[r].text, stage))
    requires s' == SetStage(s.(turns := turns, memory := memory), r, stage)
    ensures Inv(d, canvas, s')
  {
    hide Consistent, CollisionFree, Records, Address.Canonical, PastRoot, TodoInv, RunInv;
    assert s.mode == Serving;
    forall q | q in s'.runs ensures RunInv(d, canvas, s'.turns, s'.store.nodes, s'.trees, s'.runs[q]) {
      if q != r {
        assert DurableInv(d, canvas, s');
        SelfExtends(s.store.nodes);
        RunInvStable(d, canvas, s, s', s.runs[q]);
      }
    }
  }

  lemma SelfExtends(nodes: map<Hash, StoredNode>)
    ensures Extends(nodes, nodes)
  {
  }

  lemma PreparationInv(d: Digest, canvas: Bytes, s: System, s': System)
    requires CollisionFree(d) && Inv(d, canvas, s)
    requires || (exists r, p :: Linearize(d, canvas, s, s', r, p))
             || (exists r, p :: BeginCommit(d, canvas, s, s', r, p))
             || (exists r, p :: ReloadRoot(d, canvas, s, s', r, p))
    ensures Inv(d, canvas, s')
  {
    hide Consistent, CollisionFree, Records, Address.Canonical, TodoInv, Prepares, PreparedFrom, MerkleHash;
    assert PastRoot(d, canvas, s.trees, s.store.root) by { DurableRootIsPast(d, canvas, s); }
    if r, p :| Linearize(d, canvas, s, s', r, p) {
      PreparesFromHistory(d, canvas, s, s.memory, s.runs[r].text, p);
      RunStepInv(d, canvas, s, s', r, s.turns, s.memory, Linearized(p));
    } else if r, p :| BeginCommit(d, canvas, s, s', r, p) {
      if s.runs[r].stage.pending.previous != s.memory {
        PreparesFromHistory(d, canvas, s, s.memory, s.runs[r].text, p);
      }
      RunStepInv(d, canvas, s, s', r, s.turns, s.memory, Committing(p));
    } else {
      var r, p :| ReloadRoot(d, canvas, s, s', r, p);
      PreparesFromHistory(d, canvas, s, s.store.root, s.runs[r].text, p);
      RunStepInv(d, canvas, s, s', r, s.turns, s.store.root, Retrying(p));
    }
  }

  lemma DurableRootIsPast(d: Digest, canvas: Bytes, s: System)
    requires DurableInv(d, canvas, s)
    ensures PastRoot(d, canvas, s.trees, s.store.root)
  {
    hide Consistent, GoodTree, Link, MerkleHash;
    assert s.store.root == MerkleHash(d.sha, canvas, s.trees[|s.store.commits|]);
  }

  lemma LocalStepInv(d: Digest, canvas: Bytes, s: System, s': System)
    requires CollisionFree(d) && Inv(d, canvas, s)
    requires || (exists r :: Persist(s, s', r))
             || (exists r :: UpdateTrie(s, s', r))
             || (exists r :: FindMovedRoot(s, s', r))
             || (exists r :: ReloadAndFail(s, s', r))
             || (exists r :: AdvanceMemory(s, s', r))
             || (exists r :: FailRun(s, s', r))
    ensures Inv(d, canvas, s')
  {
    hide Consistent, CollisionFree, Records, Address.Canonical, TodoInv, PreparedFrom, PastRoot, CommitTx;
    if r :| Persist(s, s', r) {
      assert RunInv(d, canvas, s.turns, s.store.nodes, s.trees, s.runs[r]);
      RunStepInv(d, canvas, s, s', r, s.turns + {s.runs[r].text}, s.memory, Persisted);
    } else if r :| UpdateTrie(s, s', r) {
      RunStepInv(d, canvas, s, s', r, s.turns, s.memory, Indexed);
    } else if r :| FindMovedRoot(s, s', r) {
      RunStepInv(d, canvas, s, s', r, s.turns, s.memory, Reloading(s.runs[r].stage.pending));
    } else if r :| ReloadAndFail(s, s', r) {
      DurableRootIsPast(d, canvas, s);
      RunStepInv(d, canvas, s, s', r, s.turns, s.store.root, Failed);
    } else if r :| AdvanceMemory(s, s', r) {
      RunStepInv(d, canvas, s, s', r, s.turns, s'.memory, Done);
    } else {
      var r :| FailRun(s, s', r);
      RunStepInv(d, canvas, s, s', r, s.turns, s.memory, Failed);
    }
  }

  lemma SubmitInv(d: Digest, canvas: Bytes, s: System, s': System, r: nat, text: Bytes)
    requires Inv(d, canvas, s) && Submit(s, s', r, text)
    ensures Inv(d, canvas, s')
  {
    hide Consistent, Records, Address.Canonical, TodoInv, PreparedFrom, PastRoot;
  }

  /** A run's own durable commit. */
  lemma CommitDurablyInv(d: Digest, canvas: Bytes, s: System, s': System, r: nat, mid: System)
    requires CollisionFree(d) && Inv(d, canvas, s)
    requires CommitDurably(d, canvas, s, s', r, mid)
    ensures Inv(d, canvas, s')
  {
    hide Consistent, CollisionFree, Records, Address.Canonical, TodoInv, PreparedFrom, MerkleHash, CommitTx, NextTree;
    var text, p := s.runs[r].text, s.runs[r].stage.pending;
    assert RunInv(d, canvas, s.turns, s.store.nodes, s.trees, s.runs[r]);
    CommitOkInv(d, canvas, s, mid, text, p);
    PastRootStable(d, canvas, s.trees, mid.trees, s.memory);
    assert s.mode == Serving;
    assert p.root == MerkleHash(d.sha, canvas, mid.trees[|mid.trees| - 1]);
    assert PastRoot(d, canvas, s'.trees, p.root);
    assert RunInv(d, canvas, s'.turns, s'.store.nodes, s'.trees, Run(text, Advancing(p)));
  }

  /** Another process's commit. */
  lemma OutsideCommitInv(d: Digest, canvas: Bytes, s: System, s': System, text: Bytes, p: Pending, from: Hash)
    requires CollisionFree(d) && Inv(d, canvas, s)
    requires OutsideCommit(d, canvas, s, s', text, p, from)
    ensures Inv(d, canvas, s')
  {
    hide Consistent, CollisionFree, Address.Canonical, PreparedFrom, RunInv, NextTree, GoodTree, Link, Prepared, Merge;
    CurrentPreparation(d, canvas, s, s', text, p, from);
    CommitOkInv(d, canvas, s, s', text, p);
    PastRootStable(d, canvas, s.trees, s'.trees, s.memory);
    if s.mode.Reconciling? {
      TodoStable(d, canvas, s, s', s.mode.todo);
    }
  }

  /** A preparation that the transaction accepts was made from the current tree. */
  lemma CurrentPreparation(d: Digest, canvas: Bytes, s: System, s': System, text: Bytes, p: Pending, from: Hash)
    requires DurableInv(d, canvas, s)
    requires Prepares(d, canvas, s, from, text, p) && CommitOk(d, canvas, s, s', text, p)
    ensures PreparedFrom(d, canvas, s.store.nodes, s.trees, text, p)
  {
    hide Consistent, IsTreap, CanonicalKeys, Stored, Link, Merge, GenuineEntries, PresentationOrder, Insert, Recorded;
    var t :| Denotes(d, canvas, s.store.nodes, from, t) && Prepared(d, canvas, s.store.nodes, t, text, p);
    assert s.store.root == p.previous;
    var last := s.trees[|s.store.commits|];
    assert GoodTree(d, canvas, s.store.nodes, last);
    DenotationUnique(d, canvas, s.store.nodes, from, t, last);
  }

  lemma TodoStable(d: Digest, canvas: Bytes, s: System, s': System, todo: seq<Bytes>)
    requires TodoInv(d, canvas, s, todo)
    requires s.turns <= s'.turns && s.trees <= s'.trees && s.memory == s'.memory
    ensures TodoInv(d, canvas, s', todo)
  {
    var k :| && 0 <= k < |s.trees| && s.memory == MerkleHash(d.sha, canvas, s.trees[k])
             && forall x :: x in todo ==> x !in Keys(s.trees[k]);
    assert s'.trees[k] == s.trees[k];
  }

  lemma OutsidePersistInv(d: Digest, canvas: Bytes, s: System, s': System, text: Bytes)
    requires CollisionFree(d) && Inv(d, canvas, s) && OutsidePersist(s, s', text)
    ensures Inv(d, canvas, s')
  {
    hide Consistent, CollisionFree, Records, Address.Canonical, RunInv, PastRoot;
    assert DurableInv(d, canvas, s');
    SelfExtends(s.store.nodes);
    forall r | r in s.runs ensures RunInv(d, canvas, s'.turns, s'.store.nodes, s'.trees, s.runs[r]) {
      RunInvStable(d, canvas, s, s', s.runs[r]);
    }
    if s.mode.Reconciling? {
      TodoStable(d, canvas, s, s', s.mode.todo);
    }
  }

  lemma CrashInv(d: Digest, canvas: Bytes, s: System, s': System)
    requires Inv(d, canvas, s) && Crash(s, s')
    ensures Inv(d, canvas, s')
  {
    hide Consistent, GoodTree, Link, Address.Canonical;
    assert MerkleHash(d.sha, canvas, s.trees[0]) == ZERO_HASH;
  }

  lemma LoadInv(d: Digest, canvas: Bytes, s: System, s': System)
    requires Inv(d, canvas, s) && (LoadTurns(s, s') || LoadRoot(s, s'))
    ensures Inv(d, canvas, s')
  {
    hide Records, Address.Canonical, PastRoot;
    DurableRootIsPast(d, canvas, s);
  }

  /** Whatever was committed since the root was read is not on the list of missing Turns either. */
  lemma LoadLedgerInv(d: Digest, canvas: Bytes, s: System, s': System, todo: seq<Bytes>)
    requires Inv(d, canvas, s) && LoadLedger(s, s', todo)
    ensures Inv(d, canvas, s')
  {
    hide Consistent, GoodTree, Link, Address.Canonical, MerkleHash, LedgerTexts, Before;
    var n := |s.store.commits|;
    KeysAreLedger(d, canvas, s.store, s.trees, n);
    assert s.store.commits[..n] == s.store.commits;
    var k :| 0 <= k < |s.trees| && s.memory == MerkleHash(d.sha, canvas, s.trees[k]);
    KeysGrow(d, canvas, s.store, s.trees, k, n);
    assert forall x :: x in todo ==> x !in Keys(s'.trees[k]);
    assert TodoInv(d, canvas, s', todo);
  }

  lemma ReconcileOneInv(d: Digest, canvas: Bytes, s: System, s': System, p: Pending, mid: System)
    requires CollisionFree(d) && Inv(d, canvas, s)
    requires ReconcileOne(d, canvas, s, s', p, mid)
    ensures Inv(d, canvas, s')
  {
    hide Consistent, CollisionFree, Address.Canonical, PreparedFrom, RunInv, NextTree, GoodTree, Link, MerkleHash, CommitTx;
    var todo := s.mode.todo;
    var rest := todo[1..];
    PreparesFromHistory(d, canvas, s, s.memory, todo[0], p);
    CommitOkInv(d, canvas, s, mid, todo[0], p);
    RestNotCommitted(d, canvas, s, todo);
    assert todo == [todo[0]] + rest;
    assert s'.memory == MerkleHash(d.sha, canvas, s'.trees[|s'.trees| - 1]);
    RestOfTodo(d, canvas, s', todo, |s'.trees| - 1);
  }

  /** The rest of a list of missing Turns is one for the tree that took its first. */
  lemma RestOfTodo(d: Digest, canvas: Bytes, s: System, todo: seq<Bytes>, k: nat)
    requires todo != [] && (forall x :: x in todo ==> x in s.turns)
    requires forall i, j :: 0 <= i < j < |todo| ==> todo[i] != todo[j]
    requires k < |s.trees| && s.memory == MerkleHash(d.sha, canvas, s.trees[k])
    requires forall x :: x in todo && x != todo[0] ==> x !in Keys(s.trees[k])
    ensures TodoInv(d, canvas, s, todo[1..])
  {
    hide MerkleHash;
    var rest := todo[1..];
    forall x | x in rest ensures x in todo && x != todo[0] {
      var i :| 0 <= i < |rest| && rest[i] == x;
      assert todo[i + 1] == x;
    }
    assert s.memory == MerkleHash(d.sha, canvas, s.trees[k]) && forall x :: x in rest ==> x !in Keys(s.trees[k]);
  }

  /** The commit went through, so memory was the durable root and nothing on the list is in its tree. */
  lemma RestNotCommitted(d: Digest, canvas: Bytes, s: System, todo: seq<Bytes>)
    requires DurableInv(d, canvas, s) && TodoInv(d, canvas, s, todo)
    requires s.memory == MerkleHash(d.sha, canvas, Last(s.trees))
    ensures forall x :: x in todo ==> x !in Keys(Last(s.trees))
  {
    hide Consistent, GoodTree, Link, MerkleHash, Address.Canonical;
    var k :| && 0 <= k < |s.trees| && s.memory == MerkleHash(d.sha, canvas, s.trees[k])
             && forall x :: x in todo ==> x !in Keys(s.trees[k]);
    if k < |s.trees| - 1 {
      RootsDistinct(d, canvas, s.store, s.trees, k, |s.trees| - 1);
    }
  }

  lemma ServeInv(d: Digest, canvas: Bytes, s: System, s': System)
    requires Inv(d, canvas, s) && Serve(s, s')
    ensures Inv(d, canvas, s')
  {
    hide Consistent, Records, Address.Canonical, PastRoot;
  }

  /** Every step of every process keeps the invariant. */
  lemma NextInv(d: Digest, canvas: Bytes, s: System, s': System)
    requires CollisionFree(d) && Inv(d, canvas, s) && Next(d, canvas, s, s')
    ensures Inv(d, canvas, s')
  {
    hide Inv, CollisionFree, Submit, Persist, UpdateTrie, Linearize, BeginCommit, CommitDurably, FindMovedRoot;
    hide ReloadRoot, ReloadAndFail, AdvanceMemory, FailRun, OutsidePersist, OutsideCommit, Crash, LoadTurns, LoadRoot, LoadLedger;
    hide ReconcileOne, Serve;
    if r, text :| Submit(s, s', r, text) {
      SubmitInv(d, canvas, s, s', r, text);
    } else if r, mid :| CommitDurably(d, canvas, s, s', r, mid) {
      CommitDurablyInv(d, canvas, s, s', r, mid);
    } else if text :| OutsidePersist(s, s', text) {
      OutsidePersistInv(d, canvas, s, s', text);
    } else if text, p, from :| OutsideCommit(d, canvas, s, s', text, p, from) {
      OutsideCommitInv(d, canvas, s, s', text, p, from);
    } else if Crash(s, s') {
      CrashInv(d, canvas, s, s');
    } else if LoadTurns(s, s') || LoadRoot(s, s') {
      LoadInv(d, canvas, s, s');
    } else if todo :| LoadLedger(s, s', todo) {
      LoadLedgerInv(d, canvas, s, s', todo);
    } else if p, mid :| ReconcileOne(d, canvas, s, s', p, mid) {
      ReconcileOneInv(d, canvas, s, s', p, mid);
    } else if Serve(s, s') {
      ServeInv(d, canvas, s, s');
    } else if || (exists r, p :: Linearize(d, canvas, s, s', r, p))
              || (exists r, p :: BeginCommit(d, canvas, s, s', r, p))
              || (exists r, p :: ReloadRoot(d, canvas, s, s', r, p)) {
      PreparationInv(d, canvas, s, s');
    } else {
      LocalStepInv(d, canvas, s, s');
    }
  }

  // -------------------------------------------------------- whole behaviours

  ghost predicate Behavior(d: Digest, canvas: Bytes, b: seq<System>) {
    && |b| > 0 && Init(b[0])
    && forall i :: 0 <= i < |b| - 1 ==> Next(d, canvas, b[i], b[i + 1])
  }

  lemma {:induction false} BehaviorInv(d: Digest, canvas: Bytes, b: seq<System>, i: nat)
    requires CollisionFree(d) && Behavior(d, canvas, b) && i < |b|
    ensures Inv(d, canvas, b[i])
    decreases i
  {
    hide Inv, CollisionFree, Next, Init;
    if i == 0 {
      InitInv(d, canvas, b[0]);
    } else {
      BehaviorInv(d, canvas, b, i - 1);
      assert Next(d, canvas, b[i - 1], b[i - 1 + 1]);
      NextInv(d, canvas, b[i - 1], b[i]);
    }
  }

  /**
   Crash safety. At every point of every behaviour, crashes and half-done recoveries included,
   the durable root denotes a tree whose Turns are exactly the commit ledger, all of them
   durable, listed strictly in address order.
   */
  lemma CrashSafety(d: Digest, canvas: Bytes, b: seq<System>, i: nat)
    requires CollisionFree(d) && Behavior(d, canvas, b) && i < |b|
    ensures exists t :: Denotes(d, canvas, b[i].store.nodes, b[i].store.root, t)
                        && Keys(t) == LedgerTexts(b[i].store.commits) && Keys(t) <= b[i].turns
                        && StrictlySorted(PresentationOrder(d.sha, canvas), InOrder(t))
  {
    hide Behavior, CollisionFree, Denotes, LedgerTexts, PresentationOrder, Address.Canonical;
    BehaviorInv(d, canvas, b, i);
    PresentTree(d, canvas, b[i]);
  }

  lemma PresentTree(d: Digest, canvas: Bytes, s: System)
    requires DurableInv(d, canvas, s)
    ensures Denotes(d, canvas, s.store.nodes, s.store.root, Last(s.trees))
    ensures Keys(Last(s.trees)) == LedgerTexts(s.store.commits)
    ensures StrictlySorted(PresentationOrder(d.sha, canvas), InOrder(Last(s.trees)))
  {
    hide Consistent, Heap, CanonicalKeys, Link, Address.Canonical, LedgerTexts;
    var n := |s.store.commits|;
    assert GoodTree(d, canvas, s.store.nodes, s.trees[n]);
    KeysAreLedger(d, canvas, s.store, s.trees, n);
    assert s.store.commits[..n] == s.store.commits;
    OrderLawful(d.sha, canvas);
    ListingSorted(PresentationOrder(d.sha, canvas), s.trees[n]);
  }

  /** The in-memory root is empty or some durably committed root. */
  lemma MemoryIsCommitted(d: Digest, canvas: Bytes, b: seq<System>, i: nat)
    requires CollisionFree(d) && Behavior(d, canvas, b) && i < |b|
    ensures b[i].memory == ZERO_HASH
            || exists k :: 0 <= k < |b[i].store.commits| && b[i].store.commits[k].root == b[i].memory
  {
    hide Behavior, CollisionFree, Consistent, GoodTree, Address.Canonical;
    BehaviorInv(d, canvas, b, i);
    var s := b[i];
    var k :| 0 <= k < |s.trees| && s.memory == MerkleHash(d.sha, canvas, s.trees[k]);
    if k > 0 {
      assert Link(d, canvas, s.trees[k - 1], s.store.commits[k - 1], s.trees[k - 1 + 1]);
    }
  }

  /** One step leaves the Presentation rows alone or appends one ledger row. */
  ghost predicate OneCommit(d: Digest, canvas: Bytes, s: System, s': System, text: Bytes) {
    && text in s.turns && text !in LedgerTexts(s.store.commits)
    && |s'.store.commits| == |s.store.commits| + 1
    && s.store.commits <= s'.store.commits && Last(s'.store.commits).text == text
    && s'.store.root == Last(s'.store.commits).root && s.store.root == Last(s'.store.commits).previous
    && (forall h, t :: Denotes(d, canvas, s.store.nodes, h, t) ==> Denotes(d, canvas, s'.store.nodes, h, t))
  }

  /**
   Every successful commit, by a run, by recovery or by another process, extends the current
   durable key set by exactly its own Turn; every older root keeps its tree. A run that turns
   durable does so with its own Turn.
   */
  lemma StepCommitsAtMostOne(d: Digest, canvas: Bytes, s: System, s': System)
    requires CollisionFree(d) && Inv(d, canvas, s) && Next(d, canvas, s, s')
    ensures s'.store == s.store || exists text :: OneCommit(d, canvas, s, s', text)
    ensures forall r :: r in s.runs && r in s'.runs && s'.runs[r].stage.Advancing? && !s.runs[r].stage.Advancing? ==>
              OneCommit(d, canvas, s, s', s.runs[r].text)
  {
    hide CollisionFree, Denotes, LedgerTexts, OneCommit, CommitOk, Prepares, PreparedFrom, RunInv, DurableInv;
    if r, mid :| CommitDurably(d, canvas, s, s', r, mid) {
      RunPreparation(d, canvas, s, r);
      CommitOkIsOne(d, canvas, s, mid, s.runs[r].text, s.runs[r].stage.pending);
      OneCommitSameStore(d, canvas, s, mid, s', s.runs[r].text);
      assert mid.runs == s.runs by { CommitOkKeepsRuns(d, canvas, s, mid, s.runs[r].text, s.runs[r].stage.pending); }
    } else if text, p, from :| OutsideCommit(d, canvas, s, s', text, p, from) {
      CurrentPreparation(d, canvas, s, s', text, p, from);
      CommitOkIsOne(d, canvas, s, s', text, p);
      CommitOkKeepsRuns(d, canvas, s, s', text, p);
    } else if p, mid :| ReconcileOne(d, canvas, s, s', p, mid) {
      PreparesFromHistory(d, canvas, s, s.memory, s.mode.todo[0], p);
      CommitOkIsOne(d, canvas, s, mid, s.mode.todo[0], p);
      OneCommitSameStore(d, canvas, s, mid, s', s.mode.todo[0]);
    } else {
      OtherStepsKeepStore(d, canvas, s, s');
    }
  }

  lemma RunPreparation(d: Digest, canvas: Bytes, s: System, r: nat)
    requires Inv(d, canvas, s) && r in s.runs && (s.runs[r].stage.Committing? || s.runs[r].stage.Retrying?)
    ensures s.runs[r].text in s.turns
    ensures PreparedFrom(d, canvas, s.store.nodes, s.trees, s.runs[r].text, s.runs[r].stage.pending)
  {
    hide DurableInv, PreparedFrom, Address.Canonical, PastRoot, TodoInv;
  }

  lemma CommitOkKeepsRuns(d: Digest, canvas: Bytes, s: System, s': System, text: Bytes, p: Pending)
    requires CommitOk(d, canvas, s, s', text, p)
    ensures s'.runs == s.runs
  {
    hide CommitTx, NextTree;
  }

  lemma OneCommitSameStore(d: Digest, canvas: Bytes, s: System, mid: System, s': System, text: Bytes)
    requires OneCommit(d, canvas, s, mid, text) && s'.store == mid.store
    ensures OneCommit(d, canvas, s, s', text)
  {
    hide Denotes, LedgerTexts;
  }

  lemma CommitOkIsOne(d: Digest, canvas: Bytes, s: System, s': System, text: Bytes, p: Pending)
    requires CollisionFree(d) && DurableInv(d, canvas, s) && text in s.turns
    requires PreparedFrom(d, canvas, s.store.nodes, s.trees, text, p)
    requires CommitOk(d, canvas, s, s', text, p)
    ensures OneCommit(d, canvas, s, s', text)
  {
    hide CollisionFree, Consistent, PreparedFrom, Records, RunInv, NextTree, Merge, Address.Canonical, Recorded;
    CommitOkInv(d, canvas, s, s', text, p);
    PresentTree(d, canvas, s);
    forall h, t | Denotes(d, canvas, s.store.nodes, h, t) ensures Denotes(d, canvas, s'.store.nodes, h, t) {
      StoredStable(d, canvas, s.store.nodes, s'.store.nodes, t);
    }
  }

  lemma OtherStepsKeepStore(d: Digest, canvas: Bytes, s: System, s': System)
    requires Next(d, canvas, s, s')
    requires !exists r, mid :: CommitDurably(d, canvas, s, s', r, mid)
    requires !exists text, p, from :: OutsideCommit(d, canvas, s, s', text, p, from)
    requires !exists p, mid :: ReconcileOne(d, canvas, s, s', p, mid)
    ensures s'.store == s.store
    ensures forall r :: r in s.runs && r in s'.runs && s'.runs[r].stage.Advancing? ==> s.runs[r].stage.Advancing?
  {
    hide CommitDurably, OutsideCommit, ReconcileOne, Prepares, CommitTx, Address.Canonical, LedgerTexts, Before;
  }

  lemma {:induction false} LedgerGrows(d: Digest, canvas: Bytes, b: seq<System>, i: nat, j: nat)
    requires CollisionFree(d) && Behavior(d, canvas, b) && i <= j < |b|
    ensures b[i].store.commits <= b[j].store.commits
    ensures |b[i].store.commits| == |b[j].store.commits| ==> b[i].store == b[j].store
    decreases j
  {
    hide CollisionFree, Next, Inv, Init, Denotes, LedgerTexts;
    if i < j {
      LedgerGrows(d, canvas, b, i, j - 1);
      BehaviorInv(d, canvas, b, j - 1);
      assert Next(d, canvas, b[j - 1], b[j - 1 + 1]);
      StepCommitsAtMostOne(d, canvas, b[j - 1], b[j]);
    }
  }

  /** No durable root ever recurs: seeing one root twice means nothing was committed in between. */
  lemma NoRootRecurs(d: Digest, canvas: Bytes, b: seq<System>, i: nat, j: nat)
    requires CollisionFree(d) && Behavior(d, canvas, b) && i <= j < |b|
    requires b[i].store.root == b[j].store.root
    ensures b[i].store == b[j].store
  {
    hide CollisionFree, Behavior, Consistent, GoodTree, Address.Canonical;
    LedgerGrows(d, canvas, b, i, j);
    BehaviorInv(d, canvas, b, i);
    BehaviorInv(d, canvas, b, j);
    var m, n := |b[i].store.commits|, |b[j].store.commits|;
    if m < n {
      assert b[i].store.root == MerkleHash(d.sha, canvas, b[j].trees[m]) by {
        RootFromLedger(d, canvas, b[i], m);
        RootFromLedger(d, canvas, b[j], m);
        assert m > 0 ==> b[j].store.commits[m - 1] == b[i].store.commits[m - 1];
      }
      RootsDistinct(d, canvas, b[j].store, b[j].trees, m, n);
    }
  }

  lemma RootFromLedger(d: Digest, canvas: Bytes, s: System, k: nat)
    requires DurableInv(d, canvas, s) && k <= |s.store.commits|
    ensures MerkleHash(d.sha, canvas, s.trees[k]) == if k == 0 then ZERO_HASH else s.store.commits[k - 1].root
  {
    hide Consistent, GoodTree, Address.Canonical;
    if k > 0 {
      assert Link(d, canvas, s.trees[k - 1], s.store.commits[k - 1], s.trees[k - 1 + 1]);
    }
  }

  /**
   History independence through the whole protocol: wherever two runs of the system, however
   scheduled, crashed and recovered, have committed the same Turns, they have the same durable root.
   */
  lemma SameTurnsSameDurableRoot(d: Digest, canvas: Bytes, b: seq<System>, i: nat, c: seq<System>, j: nat)
    requires CollisionFree(d) && Behavior(d, canvas, b) && i < |b| && Behavior(d, canvas, c) && j < |c|
    requires LedgerTexts(b[i].store.commits) == LedgerTexts(c[j].store.commits)
    ensures b[i].store.root == c[j].store.root
  {
    hide CollisionFree, Behavior, Records, LedgerTexts, Address.Canonical, RunsInv, ModeInv, PastRoot;
    BehaviorInv(d, canvas, b, i);
    BehaviorInv(d, canvas, c, j);
    SameLedgerSameRoot(d, canvas, b[i].store, b[i].trees, c[j].store, c[j].trees);
  }

  /** A run that reported success has its Turn in the ledger, and the ledger never forgets it. */
  lemma SuccessIsDurable(d: Digest, canvas: Bytes, b: seq<System>, i: nat, j: nat, r: nat)
    requires CollisionFree(d) && Behavior(d, canvas, b) && i <= j < |b|
    requires r in b[i].runs && b[i].runs[r].stage == Done
    ensures b[i].runs[r].text in LedgerTexts(b[j].store.commits)
  {
    hide CollisionFree, Behavior, DurableInv, Address.Canonical, TodoInv, PastRoot;
    BehaviorInv(d, canvas, b, i);
    PresentTree(d, canvas, b[i]);
    LedgerGrows(d, canvas, b, i, j);
    var text := b[i].runs[r].text;
    assert RunInv(d, canvas, b[i].turns, b[i].store.nodes, b[i].trees, b[i].runs[r]);
    var k :| 0 <= k < |b[i].store.commits| && b[i].store.commits[k].text == text;
    assert b[j].store.commits[k] == b[i].store.commits[k];
  }

  /**
   Recovery. When `reconcile` finishes and no Turn was persisted since the restore, the durable
   Presentation lists exactly the durable Turns, strictly in address order.
   */
  lemma RecoveryIsComplete(d: Digest, canvas: Bytes, s: System, s': System)
    requires Inv(d, canvas, s) && Serve(s, s') && s.turns == s.restored
    ensures exists t :: && Denotes(d, canvas, s'.store.nodes, s'.store.root, t)
                        && (forall x :: x in InOrder(t) <==> x in s'.turns)
                        && StrictlySorted(PresentationOrder(d.sha, canvas), InOrder(t))
  {
    hide Records, Denotes, PresentationOrder, Address.Canonical, PastRoot, RunInv, LedgerTexts;
    PresentTree(d, canvas, s);
    ListingHoldsKeys(Last(s.trees));
    assert Keys(Last(s.trees)) == s.turns;
  }

  /**
   Recovery, whatever other processes did meanwhile: when the process begins to serve, the durable
   Presentation lists at least every Turn that start-up loaded and at most the durable Turns,
   strictly in address order.
   */
  lemma RecoveryBounds(d: Digest, canvas: Bytes, b: seq<System>, i: nat)
    requires CollisionFree(d) && Behavior(d, canvas, b) && i + 1 < |b| && Serve(b[i], b[i + 1])
    ensures exists t :: && Denotes(d, canvas, b[i + 1].store.nodes, b[i + 1].store.root, t)
                        && (forall x :: x in b[i].restored ==> x in InOrder(t))
                        && (forall x :: x in InOrder(t) ==> x in b[i + 1].turns)
                        && StrictlySorted(PresentationOrder(d.sha, canvas), InOrder(t))
  {
    hide Behavior, CollisionFree, Records, Denotes, PresentationOrder, Address.Canonical, PastRoot, RunInv, LedgerTexts;
    BehaviorInv(d, canvas, b, i);
    var s := b[i];
    PresentTree(d, canvas, s);
    ListingHoldsKeys(Last(s.trees));
  }

  /** What start-up loaded is everything that was durable when it read the Turns. */
  lemma {:induction false} LoadedAreDurable(d: Digest, canvas: Bytes, b: seq<System>, i: nat, j: nat)
    requires Behavior(d, canvas, b) && i < j < |b| && LoadTurns(b[i], b[i + 1])
    requires forall k :: i < k < j ==> !Crash(b[k], b[k + 1]) && !LoadTurns(b[k], b[k + 1])
    ensures b[j].restored == b[i].turns
    decreases j
  {
    hide Next, Init, Crash, LoadTurns;
    if j == i + 1 {
      assert b[j].restored == b[i].turns by {
        LoadedTurns(b[i], b[j]);
      }
    } else {
      LoadedAreDurable(d, canvas, b, i, j - 1);
      assert Next(d, canvas, b[j - 1], b[j - 1 + 1]);
      RestoredStays(d, canvas, b[j - 1], b[j]);
    }
  }

  lemma LoadedTurns(s: System, s': System)
    requires LoadTurns(s, s')
    ensures s'.restored == s.turns
  {
  }

  lemma RestoredStays(d: Digest, canvas: Bytes, s: System, s': System)
    requires Next(d, canvas, s, s') && !Crash(s, s') && !LoadTurns(s, s')
    ensures s'.restored == s.restored
  {
    hide Prepares, CommitTx, Address.Canonical, LedgerTexts, Before;
  }

  /**
   Recovery cannot get stuck on its own data: while the durable root is the one it loaded, the
   next missing Turn is accepted by the tree, and any preparation for it is accepted by the
   transaction, so only a database fault or another process can stop the loop.
   */
  lemma RecoveryStepSucceeds(d: Digest, canvas: Bytes, s: System)
    requires CollisionFree(d) && Inv(d, canvas, s)
    requires s.mode.Reconciling? && s.mode.todo != [] && s.memory == s.store.root
    ensures Insert(PresentationOrder(d.sha, canvas), Last(s.trees), s.mode.todo[0]).Some?
    ensures forall p :: Prepares(d, canvas, s, s.memory, s.mode.todo[0], p) ==>
              CommitTx(s.store, p.previous, p.root, s.mode.todo[0], p.nodes).0 == Ok
  {
    hide CollisionFree, Consistent, Address.Canonical, IsTreap, Stored, CanonicalKeys, Link, CommitTx, Insert, PresentationOrder;
    var text, n := s.mode.todo[0], |s.store.commits|;
    var last := s.trees[n];
    assert GoodTree(d, canvas, s.store.nodes, last);
    RestNotCommitted(d, canvas, s, s.mode.todo);
    assert text in s.mode.todo;
    RefusedIffMember(d, canvas, last, text);
    forall p | Prepares(d, canvas, s, s.memory, text, p)
      ensures CommitTx(s.store, p.previous, p.root, text, p.nodes).0 == Ok
    {
      var t :| Denotes(d, canvas, s.store.nodes, s.memory, t) && Prepared(d, canvas, s.store.nodes, t, text, p);
      DenotationUnique(d, canvas, s.store.nodes, s.memory, t, last);
      CommitExtendsHistory(d, canvas, s.store, s.trees, text, p);
    }
  }
}
