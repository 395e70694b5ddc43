/**
 Progress of the commit protocol: a run that is left alone commits its Turn, however stale its
 preparation is (canvas/session/orchestration_subsystem.cpp:55-128).
 */
module OrchestrationProgress {
  import opened Basics
  import opened Hashing
  import opened PresentationNodes
  import opened PresentationDatastore
  import opened PresentationTree
  import opened PresentationHistory
  import opened Orchestration
  import opened Tables
  import opened Treap
  import Orchestrator
  import Address

  // ------------------------------------------------- a preparation always exists

  /** Every node of a tree under its hash. */
  function Entries(sha: Bytes -> Hash, canvas: Bytes, t: Tree<Bytes>): seq<Entry> {
    match t
    case Leaf => []
    case Node(l, _, r) => Entries(sha, canvas, l) + Entries(sha, canvas, r) + [(MerkleHash(sha, canvas, t), NodeOf(sha, canvas, t))]
  }

  lemma {:induction false} EntriesGenuine(d: Digest, canvas: Bytes, t: Tree<Bytes>)
    requires Covered(d, canvas, t)
    ensures GenuineEntries(d, Entries(d.sha, canvas, t))
  {
    hide Genuine;
    if t.Node? {
      EntriesGenuine(d, canvas, t.left);
      EntriesGenuine(d, canvas, t.right);
    }
  }

  lemma {:induction false} EntriesStore(d: Digest, canvas: Bytes, nodes: map<Hash, StoredNode>, t: Tree<Bytes>)
    requires CollisionFree(d) && Covered(d, canvas, t)
    requires forall e :: e in Entries(d.sha, canvas, t) ==> Contains(nodes, e)
    ensures Stored(d, canvas, nodes, t)
  {
    hide CollisionFree, Genuine;
    if t.Node? {
      var own := (MerkleHash(d.sha, canvas, t), NodeOf(d.sha, canvas, t));
      assert own in Entries(d.sha, canvas, t);
      assert Contains(nodes, own);
      GenuineUnique(d, own.0, own.1, own.1);
      EntriesStore(d, canvas, nodes, t.left);
      EntriesStore(d, canvas, nodes, t.right);
    }
  }

  lemma PreparationExists(d: Digest, canvas: Bytes, nodes: map<Hash, StoredNode>, t: Tree<Bytes>, text: Bytes) returns (p: Pending)
    requires CollisionFree(d) && Consistent(d, nodes) && InsertCovered(d, canvas, t, text)
    requires Insert(PresentationOrder(d.sha, canvas), t, text).Some?
    requires Insert(PresentationOrder(d.sha, canvas), t, text).value.Node?
    ensures Prepared(d, canvas, nodes, t, text, p)
  {
    hide CollisionFree, Consistent, Covered, Insert, PresentationOrder, Stored, GenuineEntries, Merge, MerkleHash;
    var t' := Insert(PresentationOrder(d.sha, canvas), t, text).value;
    var entries := Entries(d.sha, canvas, t');
    EntriesGenuine(d, canvas, t');
    NodesMerge(d, nodes, entries);
    EntriesStore(d, canvas, Merge(nodes, entries), t');
    p := Pending(MerkleHash(d.sha, canvas, t), MerkleHash(d.sha, canvas, t'), TurnId(canvas, text), entries);
  }

  /** From any point of the history, a Turn that is not committed can be prepared. */
  lemma PreparationFrom(d: Digest, canvas: Bytes, s: System, k: nat, text: Bytes) returns (p: Pending)
    requires CollisionFree(d) && DurableInv(d, canvas, s) && Orchestrator.TurnsCovered(d, canvas, s.turns)
    requires k < |s.trees| && text in s.turns && text !in Keys(Last(s.trees))
    ensures Prepared(d, canvas, s.store.nodes, s.trees[k], text, p)
    ensures Prepares(d, canvas, s, MerkleHash(d.sha, canvas, s.trees[k]), text, p)
  {
    hide CollisionFree, Consistent, Covered, Insert, PresentationOrder, Stored, Prepared, MerkleHash, IsTreap, Link, Address.Canonical,
         Orchestrator.TurnsCovered;
    var t := s.trees[k];
    assert GoodTree(d, canvas, s.store.nodes, t);
    KeysGrow(d, canvas, s.store, s.trees, k, |s.trees| - 1);
    RefusedIffMember(d, canvas, t, text);
    Orchestrator.CoveredInsertion(d, canvas, s.turns, t, text);
    NotLeaf(Insert(PresentationOrder(d.sha, canvas), t, text).value, text);
    p := PreparationExists(d, canvas, s.store.nodes, t, text);
    assert Denotes(d, canvas, s.store.nodes, MerkleHash(d.sha, canvas, t), t);
  }

  lemma NotLeaf(t: Tree<Bytes>, text: Bytes)
    requires text in Keys(t)
    ensures t.Node?
  {
  }

  // -------------------------------------------------------------- a run's own steps

  /** The steps a run takes by itself, with a database that does not fail. */
  ghost predicate OwnStep(d: Digest, canvas: Bytes, s: System, s': System, r: nat) {
    || (exists p :: Linearize(d, canvas, s, s', r, p))
    || (exists p :: BeginCommit(d, canvas, s, s', r, p))
    || FindMovedRoot(s, s', r)
    || (exists p :: ReloadRoot(d, canvas, s, s', r, p))
    || (exists mid :: CommitDurably(d, canvas, s, s', r, mid))
    || AdvanceMemory(s, s', r)
  }

  lemma OwnStepIsStep(d: Digest, canvas: Bytes, s: System, s': System, r: nat)
    requires OwnStep(d, canvas, s, s', r)
    ensures Next(d, canvas, s, s')
  {
    hide Linearize, BeginCommit, FindMovedRoot, ReloadRoot, CommitDurably, AdvanceMemory;
    if p :| Linearize(d, canvas, s, s', r, p) {
    } else if p :| BeginCommit(d, canvas, s, s', r, p) {
    } else if p :| ReloadRoot(d, canvas, s, s', r, p) {
    } else if mid :| CommitDurably(d, canvas, s, s', r, mid) {
    }
  }

  /** How many own steps a run has left at most. */
  function StepsLeft(stage: Stage): nat {
    match stage
    case Indexed => 6
    case Linearized(_) => 5
    case Committing(_) => 4
    case Reloading(_) => 3
    case Retrying(_) => 2
    case Advancing(_) => 1
    case _ => 0
  }

  /** A run between the trie and its end whose Turn is not committed yet, or is by itself. */
  ghost predicate OnItsWay(d: Digest, canvas: Bytes, s: System, r: nat) {
    && Inv(d, canvas, s) && Orchestrator.TurnsCovered(d, canvas, s.turns) && r in s.runs
    && match s.runs[r].stage
       case Indexed => s.lock == None && Uncommitted(s, r)
       case Linearized(_) => s.lock == None && Uncommitted(s, r)
       case Committing(_) => Uncommitted(s, r)
       case Reloading(_) => Uncommitted(s, r)
       case Retrying(p) => Uncommitted(s, r) && |s.trees| > 0 && Prepared(d, canvas, s.store.nodes, Last(s.trees), s.runs[r].text, p)
       case Advancing(_) => true
       case Done => true
       case _ => false
  }

  predicate Uncommitted(s: System, r: nat)
    requires r in s.runs
  {
    |s.trees| > 0 && s.runs[r].text !in Keys(Last(s.trees))
  }

  /** The run has reported success and its Turn is in the ledger. */
  predicate Succeeded(s: System, r: nat, text: Bytes) {
    r in s.runs && s.runs[r] == Run(text, Done) && text in LedgerTexts(s.store.commits)
  }

  // ------------------------------------------------------ own steps stay on the way

  /** Every own step keeps the run on its way and leaves it fewer steps. */
  lemma OwnStepAdvances(d: Digest, canvas: Bytes, s: System, s': System, r: nat)
    requires CollisionFree(d) && OnItsWay(d, canvas, s, r) && OwnStep(d, canvas, s, s', r)
    ensures OnItsWay(d, canvas, s', r) && s'.runs[r].text == s.runs[r].text
    ensures StepsLeft(s'.runs[r].stage) < StepsLeft(s.runs[r].stage)
  {
    hide CollisionFree, Inv, Prepared, Prepares, CommitTx, Orchestrator.TurnsCovered, NextTree, MerkleHash, Next;
    OwnStepIsStep(d, canvas, s, s', r);
    NextInv(d, canvas, s, s');
    if p :| ReloadRoot(d, canvas, s, s', r, p) {
      ReloadedFromLast(d, canvas, s, s.runs[r].text, p);
    }
  }

  /** A preparation from the durable root is one from the last tree of the history. */
  lemma ReloadedFromLast(d: Digest, canvas: Bytes, s: System, text: Bytes, p: Pending)
    requires Inv(d, canvas, s) && Prepares(d, canvas, s, s.store.root, text, p)
    ensures |s.trees| > 0 && Prepared(d, canvas, s.store.nodes, Last(s.trees), text, p)
  {
    hide Consistent, IsTreap, CanonicalKeys, Link, Prepared, RunsInv, ModeInv, PastRoot, Address.Canonical;
    var t :| Denotes(d, canvas, s.store.nodes, s.store.root, t) && Prepared(d, canvas, s.store.nodes, t, text, p);
    var last := s.trees[|s.store.commits|];
    assert GoodTree(d, canvas, s.store.nodes, last);
    DenotationUnique(d, canvas, s.store.nodes, s.store.root, t, last);
  }

  // ---------------------------------------------------- an own step is always enabled

  /** As long as a run on its way is not done, one of its own steps is enabled. */
  lemma OwnStepExists(d: Digest, canvas: Bytes, s: System, r: nat) returns (s': System)
    requires CollisionFree(d) && OnItsWay(d, canvas, s, r) && !s.runs[r].stage.Done?
    ensures OwnStep(d, canvas, s, s', r)
  {
    hide CollisionFree, Prepared, Prepares, CommitTx, Orchestrator.TurnsCovered, NextTree, MerkleHash, Address.Canonical, Records, TodoInv,
         PastRoot, OwnStep, PreparedFrom;
    var text := s.runs[r].text;
    assert RunInv(d, canvas, s.turns, s.store.nodes, s.trees, s.runs[r]);
    match s.runs[r].stage
    case Indexed =>
      var i := MemoryTree(d, canvas, s);
      var p := PreparationFrom(d, canvas, s, i, text);
      s' := SetStage(s, r, Linearized(p));
      LinearizeOwn(d, canvas, s, s', r, p);
    case Linearized(q) =>
      var i, p := CurrentOrAgain(d, canvas, s, text, q);
      s' := SetStage(s, r, Committing(p));
      BeginOwn(d, canvas, s, s', r, p);
    case Committing(p) =>
      s' := FirstCommit(d, canvas, s, r, p);
    case Reloading(_) =>
      var p := PreparationFrom(d, canvas, s, |s.trees| - 1, text);
      DurableRoot(d, canvas, s);
      s' := SetStage(s.(memory := s.store.root), r, Retrying(p));
      ReloadOwn(d, canvas, s, s', r, p);
    case Retrying(p) =>
      s' := CommitNow(d, canvas, s, r, p);
    case Advancing(p) =>
      s' := SetStage(s.(memory := if s.memory == p.previous then p.root else s.memory), r, Done);
      AdvanceOwn(d, canvas, s, s', r);
  }

  lemma LinearizeOwn(d: Digest, canvas: Bytes, s: System, s': System, r: nat, p: Pending)
    requires Linearize(d, canvas, s, s', r, p)
    ensures OwnStep(d, canvas, s, s', r)
  {
  }

  lemma BeginOwn(d: Digest, canvas: Bytes, s: System, s': System, r: nat, p: Pending)
    requires BeginCommit(d, canvas, s, s', r, p)
    ensures OwnStep(d, canvas, s, s', r)
  {
  }

  lemma ReloadOwn(d: Digest, canvas: Bytes, s: System, s': System, r: nat, p: Pending)
    requires ReloadRoot(d, canvas, s, s', r, p)
    ensures OwnStep(d, canvas, s, s', r)
  {
  }

  lemma AdvanceOwn(d: Digest, canvas: Bytes, s: System, s': System, r: nat)
    requires AdvanceMemory(s, s', r)
    ensures OwnStep(d, canvas, s, s', r)
  {
  }

  lemma DurableRoot(d: Digest, canvas: Bytes, s: System)
    requires DurableInv(d, canvas, s)
    ensures |s.trees| > 0 && s.store.root == MerkleHash(d.sha, canvas, s.trees[|s.trees| - 1])
  {
  }

  /** A preparation from the current tree commits. */
  lemma CommitNow(d: Digest, canvas: Bytes, s: System, r: nat, p: Pending) returns (s': System)
    requires CollisionFree(d) && DurableInv(d, canvas, s)
    requires r in s.runs && (s.runs[r].stage == Committing(p) || s.runs[r].stage == Retrying(p)) && s.runs[r].text in s.turns
    requires Prepared(d, canvas, s.store.nodes, Last(s.trees), s.runs[r].text, p)
    ensures OwnStep(d, canvas, s, s', r)
  {
    hide CollisionFree, Consistent, Insert, PresentationOrder, Prepared, Address.Canonical, GoodTree, Link, Recorded, Merge;
    var text := s.runs[r].text;
    CommitExtendsHistory(d, canvas, s.store, s.trees, text, p);
    var store := CommitTx(s.store, p.previous, p.root, text, p.nodes).1;
    var mid := s.(store := store, trees := s.trees + [NextTree(d.sha, canvas, Last(s.trees), text)]);
    s' := SetStage(mid, r, Advancing(p));
    assert CommitDurably(d, canvas, s, s', r, mid);
  }

  /** The first transaction commits, or finds a moved root. */
  lemma FirstCommit(d: Digest, canvas: Bytes, s: System, r: nat, p: Pending) returns (s': System)
    requires CollisionFree(d) && DurableInv(d, canvas, s)
    requires r in s.runs && s.runs[r].stage == Committing(p) && s.runs[r].text in s.turns
    requires PreparedFrom(d, canvas, s.store.nodes, s.trees, s.runs[r].text, p)
    ensures OwnStep(d, canvas, s, s', r)
  {
    hide CollisionFree, Consistent, Prepared, Address.Canonical, GoodTree, Link, CommitTx, MerkleHash;
    var text := s.runs[r].text;
    var i :| 0 <= i < |s.trees| && Prepared(d, canvas, s.store.nodes, s.trees[i], text, p);
    if i == |s.trees| - 1 {
      s' := CommitNow(d, canvas, s, r, p);
    } else {
      StaleCommitRefused(d, canvas, s.store, s.trees, i, text, p);
      s' := SetStage(s, r, Reloading(p));
      assert FindMovedRoot(s, s', r);
    }
  }

  /** The index of the in-memory root in the history. */
  lemma MemoryTree(d: Digest, canvas: Bytes, s: System) returns (k: nat)
    requires PastRoot(d, canvas, s.trees, s.memory)
    ensures k < |s.trees| && s.memory == MerkleHash(d.sha, canvas, s.trees[k])
  {
    k :| 0 <= k < |s.trees| && s.memory == MerkleHash(d.sha, canvas, s.trees[k]);
  }

  /** What `commit` starts from: the old preparation if the in-memory root has not moved, else a new one. */
  lemma CurrentOrAgain(d: Digest, canvas: Bytes, s: System, text: Bytes, q: Pending) returns (i: nat, p: Pending)
    requires CollisionFree(d) && DurableInv(d, canvas, s) && Orchestrator.TurnsCovered(d, canvas, s.turns)
    requires PastRoot(d, canvas, s.trees, s.memory) && PreparedFrom(d, canvas, s.store.nodes, s.trees, text, q)
    requires text in s.turns && text !in Keys(Last(s.trees))
    ensures i < |s.trees| && Prepared(d, canvas, s.store.nodes, s.trees[i], text, p)
    ensures if q.previous == s.memory then p == q else Prepares(d, canvas, s, s.memory, text, p)
  {
    hide CollisionFree, Consistent, Prepared, Address.Canonical, GoodTree, Link, Prepares, MerkleHash, Orchestrator.TurnsCovered, DurableInv;
    if q.previous == s.memory {
      p := q;
      i :| 0 <= i < |s.trees| && Prepared(d, canvas, s.store.nodes, s.trees[i], text, q);
    } else {
      i := MemoryTree(d, canvas, s);
      p := PreparationFrom(d, canvas, s, i, text);
    }
  }

  // ---------------------------------------------------------------- whole sequences

  /** A run left alone: every step is one of its own. */
  ghost predicate LeftAlone(d: Digest, canvas: Bytes, b: seq<System>, r: nat) {
    |b| > 0 && forall i :: 0 <= i < |b| - 1 ==> OwnStep(d, canvas, b[i], b[i + 1], r)
  }

  /** No own step is enabled. */
  ghost predicate AtRest(d: Digest, canvas: Bytes, s: System, r: nat) {
    forall s' :: !OwnStep(d, canvas, s, s', r)
  }

  lemma {:induction false} StaysOnItsWay(d: Digest, canvas: Bytes, b: seq<System>, r: nat, n: nat)
    requires CollisionFree(d) && LeftAlone(d, canvas, b, r) && OnItsWay(d, canvas, b[0], r) && n < |b|
    ensures OnItsWay(d, canvas, b[n], r) && b[n].runs[r].text == b[0].runs[r].text
    ensures n + StepsLeft(b[n].runs[r].stage) <= StepsLeft(b[0].runs[r].stage)
    decreases n
  {
    hide CollisionFree, OnItsWay, OwnStep;
    if n > 0 {
      StaysOnItsWay(d, canvas, b, r, n - 1);
      assert OwnStep(d, canvas, b[n - 1], b[n - 1 + 1], r);
      OwnStepAdvances(d, canvas, b[n - 1], b[n], r);
    } else {
      RunIsThere(d, canvas, b[0], r);
    }
  }

  lemma RunIsThere(d: Digest, canvas: Bytes, s: System, r: nat)
    requires OnItsWay(d, canvas, s, r)
    ensures r in s.runs
  {
  }

  /**
   A run left alone commits. However stale its preparation is and wherever on its way it stands,
   every sequence of its own steps is at most as long as the steps it has left, and one that cannot
   be extended ends with success reported and the Turn in the ledger.
   */
  lemma UndisturbedRunCommits(d: Digest, canvas: Bytes, b: seq<System>, r: nat)
    requires CollisionFree(d) && LeftAlone(d, canvas, b, r) && OnItsWay(d, canvas, b[0], r)
    ensures r in b[0].runs && |b| - 1 <= StepsLeft(b[0].runs[r].stage) <= 6
    ensures AtRest(d, canvas, Last(b), r) ==> Succeeded(Last(b), r, b[0].runs[r].text)
  {
    hide CollisionFree, OwnStep, OnItsWay, LedgerTexts;
    var n := |b| - 1;
    StaysOnItsWay(d, canvas, b, r, n);
    RunIsThere(d, canvas, b[0], r);
    if AtRest(d, canvas, b[n], r) {
      RestIsDone(d, canvas, b[n], r);
    }
  }

  /** The in-memory root keeps pace with the run. */
  ghost predicate InStep(s: System, r: nat) {
    r in s.runs ==>
      match s.runs[r].stage
      case Committing(p) => s.memory == p.previous
      case Retrying(p) => s.memory == p.previous
      case Advancing(p) => s.memory == p.previous && s.store.root == p.root
      case Done => s.memory == s.store.root
      case _ => true
  }

  lemma OwnStepInStep(d: Digest, canvas: Bytes, s: System, s': System, r: nat)
    requires OwnStep(d, canvas, s, s', r) && InStep(s, r)
    ensures InStep(s', r)
  {
    hide Merge, Recorded, NextTree, Denotes, Insert, PresentationOrder, GenuineEntries, MerkleHash;
    if p :| BeginCommit(d, canvas, s, s', r, p) && s.runs[r].stage.pending.previous != s.memory {
      PreparedAgainst(d, canvas, s, s.memory, s.runs[r].text, p);
    } else if p :| ReloadRoot(d, canvas, s, s', r, p) {
      PreparedAgainst(d, canvas, s, s.store.root, s.runs[r].text, p);
    }
  }

  lemma PreparedAgainst(d: Digest, canvas: Bytes, s: System, from: Hash, text: Bytes, p: Pending)
    requires Prepares(d, canvas, s, from, text, p)
    ensures p.previous == from
  {
  }

  lemma {:induction false} StaysInStep(d: Digest, canvas: Bytes, b: seq<System>, r: nat, n: nat)
    requires LeftAlone(d, canvas, b, r) && InStep(b[0], r) && n < |b|
    ensures InStep(b[n], r)
    decreases n
  {
    hide OwnStep, InStep;
    if n > 0 {
      StaysInStep(d, canvas, b, r, n - 1);
      assert OwnStep(d, canvas, b[n - 1], b[n - 1 + 1], r);
      OwnStepInStep(d, canvas, b[n - 1], b[n], r);
    }
  }

  /** A run that is left alone from its preparation on leaves the in-memory root at the durable root. */
  lemma UndisturbedRunCatchesUp(d: Digest, canvas: Bytes, b: seq<System>, r: nat)
    requires CollisionFree(d) && LeftAlone(d, canvas, b, r) && OnItsWay(d, canvas, b[0], r)
    requires b[0].runs[r].stage.Indexed? || b[0].runs[r].stage.Linearized?
    requires AtRest(d, canvas, Last(b), r)
    ensures Last(b).memory == Last(b).store.root
  {
    hide CollisionFree, OwnStep, OnItsWay, LedgerTexts, LeftAlone, AtRest;
    assert |b| > 0 by {
      AtLeastOne(d, canvas, b, r);
    }
    UndisturbedRunCommits(d, canvas, b, r);
    StaysInStep(d, canvas, b, r, |b| - 1);
  }

  lemma AtLeastOne(d: Digest, canvas: Bytes, b: seq<System>, r: nat)
    requires LeftAlone(d, canvas, b, r)
    ensures |b| > 0
  {
  }

  lemma RestIsDone(d: Digest, canvas: Bytes, s: System, r: nat)
    requires CollisionFree(d) && OnItsWay(d, canvas, s, r) && AtRest(d, canvas, s, r)
    ensures Succeeded(s, r, s.runs[r].text)
  {
    hide CollisionFree, OwnStep, Inv, LedgerTexts, Prepared, Orchestrator.TurnsCovered;
    if !s.runs[r].stage.Done? {
      var s' := OwnStepExists(d, canvas, s, r);
      assert false;
    }
    DoneIsSuccess(d, canvas, s, r);
  }

  lemma DoneIsSuccess(d: Digest, canvas: Bytes, s: System, r: nat)
    requires Inv(d, canvas, s) && r in s.runs && s.runs[r].stage.Done?
    ensures Succeeded(s, r, s.runs[r].text)
  {
    hide DurableInv, PastRoot, LedgerTexts, TodoInv, Address.Canonical, PreparedFrom;
    assert RunInv(d, canvas, s.turns, s.store.nodes, s.trees, s.runs[r]);
    PresentTree(d, canvas, s);
  }

  /** And such a sequence exists from every point of the way. */
  lemma {:induction false} RunCanFinish(d: Digest, canvas: Bytes, s: System, r: nat) returns (b: seq<System>)
    requires CollisionFree(d) && OnItsWay(d, canvas, s, r)
    ensures LeftAlone(d, canvas, b, r) && b[0] == s && Succeeded(Last(b), r, s.runs[r].text)
    decreases StepsLeft(s.runs[r].stage)
  {
    hide CollisionFree, OwnStep, Inv, LedgerTexts, Prepared, Orchestrator.TurnsCovered, Succeeded;
    if s.runs[r].stage.Done? {
      DoneIsSuccess(d, canvas, s, r);
      b := [s];
    } else {
      var s' := OwnStepExists(d, canvas, s, r);
      OwnStepAdvances(d, canvas, s, s', r);
      var rest := RunCanFinish(d, canvas, s', r);
      b := [s] + rest;
      forall i | 0 <= i < |b| - 1 ensures OwnStep(d, canvas, b[i], b[i + 1], r) {
        if i > 0 {
          assert OwnStep(d, canvas, rest[i - 1], rest[i - 1 + 1], r);
        }
      }
    }
  }

  /** A commit that finds a moved root reloads, prepares again and commits, in exactly four own steps. */
  lemma RetryCommits(d: Digest, canvas: Bytes, b: seq<System>, r: nat, p: Pending)
    requires CollisionFree(d) && LeftAlone(d, canvas, b, r) && OnItsWay(d, canvas, b[0], r)
    requires b[0].runs[r].stage == Committing(p) && p.previous != b[0].store.root
    requires AtRest(d, canvas, Last(b), r)
    ensures |b| == 5 && Succeeded(b[4], r, b[0].runs[r].text)
    ensures r in b[1].runs && b[1].runs[r].stage.Reloading?
    ensures r in b[2].runs && b[2].runs[r].stage.Retrying?
    ensures r in b[3].runs && b[3].runs[r].stage.Advancing?
    ensures b[2].memory == b[0].store.root
  {
    assert |b| > 0;
    hide CollisionFree, OnItsWay, OwnStep, Succeeded, LeftAlone, AtRest;
    UndisturbedRunCommits(d, canvas, b, r);
    NextOwn(d, canvas, b, r, 0);
    MovedRootReloads(d, canvas, b[0], b[1], r, p);
    NextOwn(d, canvas, b, r, 1);
    ReloadingRetries(d, canvas, b[1], b[2], r);
    NextOwn(d, canvas, b, r, 2);
    RetryingAdvances(d, canvas, b[2], b[3], r);
    NextOwn(d, canvas, b, r, 3);
  }

  /** A sequence that ends at rest goes on as long as the run is not done. */
  lemma NextOwn(d: Digest, canvas: Bytes, b: seq<System>, r: nat, n: nat)
    requires CollisionFree(d) && LeftAlone(d, canvas, b, r) && OnItsWay(d, canvas, b[0], r) && n < |b|
    requires AtRest(d, canvas, Last(b), r) && r in b[n].runs && !b[n].runs[r].stage.Done?
    ensures n + 1 < |b| && OwnStep(d, canvas, b[n], b[n + 1], r)
  {
    hide CollisionFree, OnItsWay, OwnStep, LedgerTexts;
    if n + 1 == |b| {
      UndisturbedRunCommits(d, canvas, b, r);
    }
  }

  lemma MovedRootReloads(d: Digest, canvas: Bytes, s: System, s': System, r: nat, p: Pending)
    requires OwnStep(d, canvas, s, s', r) && r in s.runs && s.runs[r].stage == Committing(p) && p.previous != s.store.root
    ensures r in s'.runs && s'.runs[r].stage == Reloading(p) && s'.store == s.store
  {
    hide Prepares, Merge, Recorded, NextTree;
  }

  lemma ReloadingRetries(d: Digest, canvas: Bytes, s: System, s': System, r: nat)
    requires OwnStep(d, canvas, s, s', r) && r in s.runs && s.runs[r].stage.Reloading?
    ensures r in s'.runs && s'.runs[r].stage.Retrying? && s'.memory == s.store.root
  {
    hide Prepares, CommitTx, NextTree;
  }

  lemma RetryingAdvances(d: Digest, canvas: Bytes, s: System, s': System, r: nat)
    requires OwnStep(d, canvas, s, s', r) && r in s.runs && s.runs[r].stage.Retrying?
    ensures r in s'.runs && s'.runs[r].stage.Advancing?
  {
    hide Prepares, CommitTx, NextTree;
  }
}
