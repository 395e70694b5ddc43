/**
 Progress of start-up and submission: a process left alone with its database always comes to serve,
 with every durable Turn listed, and a fresh Turn always gets on its way
 (canvas/canvas_subsystem.cpp:244-293, 335-347, canvas/session/orchestration_subsystem.cpp:131-201).
 */
module RecoveryProgress {
  import opened Basics
  import opened Hashing
  import opened PresentationNodes
  import opened PresentationDatastore
  import opened PresentationTree
  import opened PresentationHistory
  import opened Orchestration
  import opened OrchestrationProgress
  import opened Tables
  import opened Treap
  import Orchestrator
  import Address

  /** The steps of start-up, with a database that does not fail. */
  ghost predicate StartUpStep(d: Digest, canvas: Bytes, s: System, s': System) {
    || LoadTurns(s, s') || LoadRoot(s, s') || Serve(s, s')
    || (exists todo :: LoadLedger(s, s', todo))
    || (exists p, mid :: ReconcileOne(d, canvas, s, s', p, mid))
  }

  lemma StartUpIsStep(d: Digest, canvas: Bytes, s: System, s': System)
    requires StartUpStep(d, canvas, s, s')
    ensures Next(d, canvas, s, s')
  {
    hide LoadTurns, LoadRoot, LoadLedger, ReconcileOne, Serve;
    if todo :| LoadLedger(s, s', todo) {
    } else if p, mid :| ReconcileOne(d, canvas, s, s', p, mid) {
    }
  }

  /** A process that has been alone with its database since it read the Turns. */
  ghost predicate StartingAlone(d: Digest, canvas: Bytes, s: System) {
    && Inv(d, canvas, s) && Orchestrator.TurnsCovered(d, canvas, s.turns)
    && match s.mode
       case Down => true
       case TurnsLoaded => s.restored == s.turns
       case RootLoaded => s.restored == s.turns && s.memory == s.store.root
       case Reconciling(_) => s.restored == s.turns && s.memory == s.store.root
       case Serving => s.restored == s.turns && s.memory == s.store.root
  }

  /** How many steps of start-up are left at most. */
  function StepsToServe(s: System): nat {
    match s.mode
    case Down => |s.turns| + 4
    case TurnsLoaded => |s.turns| + 3
    case RootLoaded => |s.turns| + 2
    case Reconciling(todo) => |todo| + 1
    case Serving => 0
  }

  lemma {:induction false} FitsIn(todo: seq<Bytes>, s: set<Bytes>)
    requires (forall i, j :: 0 <= i < j < |todo| ==> todo[i] != todo[j]) && forall x :: x in todo ==> x in s
    ensures |todo| <= |s|
  {
    if todo != [] {
      var last, init := todo[|todo| - 1], todo[..|todo| - 1];
      forall x | x in init ensures x in s - {last} {
        var i :| 0 <= i < |init| && init[i] == x;
        assert todo[i] == x;
      }
      FitsIn(init, s - {last});
      assert last in s;
    }
  }

  /** Every step of start-up leaves fewer and keeps the process alone. */
  lemma StartUpAdvances(d: Digest, canvas: Bytes, s: System, s': System)
    requires CollisionFree(d) && StartingAlone(d, canvas, s) && StartUpStep(d, canvas, s, s')
    ensures StartingAlone(d, canvas, s') && StepsToServe(s') < StepsToServe(s) && s'.turns == s.turns
  {
    hide CollisionFree, Inv, Prepares, Orchestrator.TurnsCovered, NextTree, LedgerTexts, Before, Merge, Recorded, Next;
    StartUpIsStep(d, canvas, s, s');
    NextInv(d, canvas, s, s');
    if todo :| LoadLedger(s, s', todo) {
      FitsIn(todo, s.turns);
    }
  }

  /** Until the process serves, a step of start-up is enabled. */
  lemma StartUpStepExists(d: Digest, canvas: Bytes, s: System) returns (s': System)
    requires CollisionFree(d) && StartingAlone(d, canvas, s) && s.mode != Serving
    ensures StartUpStep(d, canvas, s, s')
  {
    hide CollisionFree, Orchestrator.TurnsCovered, Records, Address.Canonical, RunInv, PastRoot, LedgerTexts, Before, StartUpStep, TodoInv;
    match s.mode
    case Down =>
      s' := s.(mode := TurnsLoaded, restored := s.turns);
      ReadTurns(d, canvas, s, s');
    case TurnsLoaded =>
      s' := s.(mode := RootLoaded, memory := s.store.root);
      ReadRoot(d, canvas, s, s');
    case RootLoaded =>
      var todo := SortedListing(d, canvas, s.restored - LedgerTexts(s.store.commits));
      s' := s.(mode := Reconciling(todo));
      ReadLedger(d, canvas, s, s', todo);
    case Reconciling(todo) =>
      if todo == [] {
        s' := s.(mode := Serving);
        BeginServing(d, canvas, s, s');
      } else {
        s' := CommitMissing(d, canvas, s);
      }
  }

  lemma ReadTurns(d: Digest, canvas: Bytes, s: System, s': System)
    requires LoadTurns(s, s')
    ensures StartUpStep(d, canvas, s, s')
  {
  }

  lemma ReadRoot(d: Digest, canvas: Bytes, s: System, s': System)
    requires LoadRoot(s, s')
    ensures StartUpStep(d, canvas, s, s')
  {
  }

  lemma ReadLedger(d: Digest, canvas: Bytes, s: System, s': System, todo: seq<Bytes>)
    requires LoadLedger(s, s', todo)
    ensures StartUpStep(d, canvas, s, s')
  {
  }

  lemma BeginServing(d: Digest, canvas: Bytes, s: System, s': System)
    requires Serve(s, s')
    ensures StartUpStep(d, canvas, s, s')
  {
  }

  /** Texts in printed form can be listed in address order. */
  lemma {:induction false} SortedListing(d: Digest, canvas: Bytes, texts: set<Bytes>) returns (todo: seq<Bytes>)
    requires forall x :: x in texts ==> Address.Canonical(x)
    ensures (forall x :: x in todo <==> x in texts) && StrictlySorted(PresentationOrder(d.sha, canvas), todo)
    ensures forall i, j :: 0 <= i < j < |todo| ==> todo[i] != todo[j] && !Before(todo[j], todo[i])
    decreases |texts|
  {
    hide Address.Canonical, Lawful, PresentationOrder, Before;
    var o := PresentationOrder(d.sha, canvas);
    OrderLawful(d.sha, canvas);
    if texts == {} {
      todo := [];
    } else {
      var x :| x in texts;
      var rest := SortedListing(d, canvas, texts - {x});
      forall y | y in rest ensures !Same(o, x, y) {
        if Same(o, x, y) {
          CanonicalSame(d.sha, canvas, x, y);
        }
      }
      InsertSortedKeeps(o, rest, x);
      todo := InsertSorted(o, rest, x);
      SortedIsOrdered(d, canvas, todo);
    }
  }

  lemma SortedIsOrdered(d: Digest, canvas: Bytes, todo: seq<Bytes>)
    requires StrictlySorted(PresentationOrder(d.sha, canvas), todo)
    ensures forall i, j :: 0 <= i < j < |todo| ==> todo[i] != todo[j] && !Before(todo[j], todo[i])
  {
    hide Address.Less, AddressOf;
    Address.AddressOrder();
  }

  /** The first missing Turn can be prepared and committed. */
  lemma CommitMissing(d: Digest, canvas: Bytes, s: System) returns (s': System)
    requires CollisionFree(d) && StartingAlone(d, canvas, s) && s.mode.Reconciling? && s.mode.todo != []
    ensures StartUpStep(d, canvas, s, s')
  {
    hide CollisionFree, Orchestrator.TurnsCovered, Address.Canonical, RunInv, LedgerTexts, Before, Prepares, Prepared, CommitTx, MerkleHash, NextTree,
         Insert, PresentationOrder, Records;
    var text := s.mode.todo[0];
    DurableRoot(d, canvas, s);
    RestNotCommitted(d, canvas, s, s.mode.todo);
    assert text in s.mode.todo;
    RecoveryStepSucceeds(d, canvas, s);
    var p := PreparationFrom(d, canvas, s, |s.trees| - 1, text);
    var store := CommitTx(s.store, p.previous, p.root, text, p.nodes).1;
    var mid := s.(store := store, trees := s.trees + [NextTree(d.sha, canvas, Last(s.trees), text)]);
    s' := mid.(mode := Reconciling(s.mode.todo[1..]), memory := p.root);
    assert ReconcileOne(d, canvas, s, s', p, mid);
  }

  // ------------------------------------------------------------------ whole sequences

  ghost predicate StartUp(d: Digest, canvas: Bytes, b: seq<System>) {
    |b| > 0 && forall i :: 0 <= i < |b| - 1 ==> StartUpStep(d, canvas, b[i], b[i + 1])
  }

  ghost predicate Blocked(d: Digest, canvas: Bytes, s: System) {
    forall s' :: !StartUpStep(d, canvas, s, s')
  }

  lemma {:induction false} StaysAlone(d: Digest, canvas: Bytes, b: seq<System>, n: nat)
    requires CollisionFree(d) && StartUp(d, canvas, b) && StartingAlone(d, canvas, b[0]) && n < |b|
    ensures StartingAlone(d, canvas, b[n]) && n + StepsToServe(b[n]) <= StepsToServe(b[0]) && b[n].turns == b[0].turns
    decreases n
  {
    hide CollisionFree, StartingAlone, StartUpStep;
    if n > 0 {
      StaysAlone(d, canvas, b, n - 1);
      assert StartUpStep(d, canvas, b[n - 1], b[n - 1 + 1]);
      StartUpAdvances(d, canvas, b[n - 1], b[n]);
    }
  }

  /**
   Recovery left alone succeeds. From a process that is down, every sequence of start-up steps has at
   most four more than there are durable Turns, and one that cannot be extended ends serving, with the
   durable Presentation listing exactly the durable Turns, strictly in address order.
   */
  lemma UndisturbedRecoveryServes(d: Digest, canvas: Bytes, b: seq<System>)
    requires CollisionFree(d) && StartUp(d, canvas, b) && StartingAlone(d, canvas, b[0]) && b[0].mode == Down
    ensures |b| - 1 <= |b[0].turns| + 4
    ensures Blocked(d, canvas, Last(b)) ==>
              && Last(b).mode == Serving && Last(b).memory == Last(b).store.root
              && LedgerTexts(Last(b).store.commits) == b[0].turns
              && exists t :: && Denotes(d, canvas, Last(b).store.nodes, Last(b).store.root, t)
                             && (forall x :: x in InOrder(t) <==> x in b[0].turns)
                             && StrictlySorted(PresentationOrder(d.sha, canvas), InOrder(t))
  {
    hide CollisionFree, StartUpStep, Denotes, PresentationOrder, LedgerTexts, Inv, Orchestrator.TurnsCovered;
    StaysAlone(d, canvas, b, |b| - 1);
    var s := Last(b);
    if Blocked(d, canvas, s) {
      if s.mode != Serving {
        var s' := StartUpStepExists(d, canvas, s);
        assert false;
      }
      ServedListing(d, canvas, s);
    }
  }

  lemma ServedListing(d: Digest, canvas: Bytes, s: System)
    requires Inv(d, canvas, s) && s.mode == Serving && s.restored == s.turns
    ensures LedgerTexts(s.store.commits) == s.turns
    ensures exists t :: && Denotes(d, canvas, s.store.nodes, s.store.root, t)
                        && (forall x :: x in InOrder(t) <==> x in s.turns)
                        && StrictlySorted(PresentationOrder(d.sha, canvas), InOrder(t))
  {
    hide Records, Denotes, PresentationOrder, Address.Canonical, PastRoot, RunInv, LedgerTexts;
    DurableRoot(d, canvas, s);
    PresentTree(d, canvas, s);
    ListingHoldsKeys(Last(s.trees));
    assert Keys(Last(s.trees)) == s.turns;
  }

  // ------------------------------------------------------------------- submission

  /** A fresh Turn in printed form can be submitted, persisted and indexed, and is then on its way. */
  lemma FreshTurnGetsOnItsWay(d: Digest, canvas: Bytes, s: System, r: nat, text: Bytes) returns (b: seq<System>)
    requires CollisionFree(d) && Inv(d, canvas, s) && s.mode == Serving && s.lock == None && r !in s.runs
    requires Address.Canonical(text) && text !in s.turns && Orchestrator.TurnsCovered(d, canvas, s.turns + {text})
    ensures |b| == 4 && b[0] == s && forall i :: 0 <= i < 3 ==> Next(d, canvas, b[i], b[i + 1])
    ensures OnItsWay(d, canvas, b[3], r) && b[3].runs[r] == Run(text, Indexed) && b[3].turns == s.turns + {text}
  {
    hide CollisionFree, Inv, Address.Canonical, Orchestrator.TurnsCovered, Next;
    var s1 := s.(runs := s.runs[r := Run(text, Submitted)]);
    SubmitStep(d, canvas, s, s1, r, text);
    NextInv(d, canvas, s, s1);
    var s2 := SetStage(s1.(turns := s1.turns + {text}), r, Persisted);
    PersistStep(d, canvas, s1, s2, r);
    NextInv(d, canvas, s1, s2);
    var s3 := SetStage(s2, r, Indexed);
    IndexStep(d, canvas, s2, s3, r);
    NextInv(d, canvas, s2, s3);
    NotInTree(d, canvas, s, text);
    b := [s, s1, s2, s3];
  }

  lemma SubmitStep(d: Digest, canvas: Bytes, s: System, s': System, r: nat, text: Bytes)
    requires Submit(s, s', r, text)
    ensures Next(d, canvas, s, s')
  {
    hide Submit;
  }

  lemma PersistStep(d: Digest, canvas: Bytes, s: System, s': System, r: nat)
    requires Persist(s, s', r)
    ensures Next(d, canvas, s, s')
  {
    hide Persist;
  }

  lemma IndexStep(d: Digest, canvas: Bytes, s: System, s': System, r: nat)
    requires UpdateTrie(s, s', r)
    ensures Next(d, canvas, s, s')
  {
    hide UpdateTrie;
  }

  lemma NotInTree(d: Digest, canvas: Bytes, s: System, text: Bytes)
    requires Inv(d, canvas, s) && text !in s.turns
    ensures |s.trees| > 0 && text !in Keys(Last(s.trees))
  {
    hide GoodTree, Consistent, Link, MerkleHash, Address.Canonical, RunsInv, ModeInv, PastRoot;
  }
}
