/**
 One run of an execution plan, as the interleaving of its lock sections
 (utils/execution_graph/execution_plan.hpp:100-256).

 Workers accept or reject a submission nondeterministically and run accepted wrappers at any
 time. The thread inside `start()` and every thread inside `complete()` is an actor with a
 list of nodes it still has to schedule; actor `n` is the starter.
 */
module ExecutionPlan {
  import opened Basics
  import opened Topology

  datatype Status = Ok | WorkerSubmissionFailed

  datatype Phase =
    | Idle                // not ready yet
    | Waiting(actor: nat)    // on the schedule list of an actor
    | Claimed(actor: nat)    // counted in running_jobs_, submission in flight
    | Refused(actor: nat)    // submission rejected, not yet recorded
    | Queued              // wrapper accepted by the pool
    | Executing           // inside the caller's job
    | Executed            // job returned, first section of complete() not entered
    | Releasing           // scheduling the successors it made ready
    | Exited              // complete() returned
    | Dropped             // never submitted: the run had already failed or finished

  datatype Event =
    | Started(node: nat)
    | Finished(node: nat)
    | Rejected(node: nat)
    | Callback(status: Status)

  /** Fields of `Run`, the per-actor schedule lists, and auxiliary history (`counted`, `log`). */
  datatype State = State(
    remaining: seq<int>,
    left: int,
    running: int,
    status: Status,
    finished: bool,
    phase: seq<Phase>,
    lists: seq<seq<nat>>,
    counted: set<nat>,
    log: seq<Event>
  )

  predicate Active(p: Phase) {
    p.Claimed? || p.Refused? || p.Queued? || p.Executing? || p.Executed?
  }

  predicate Passed(p: Phase) {
    p.Releasing? || p.Exited?
  }

  predicate Listed(p: Phase, a: nat) {
    (p.Waiting? || p.Claimed? || p.Refused?) && p.actor == a
  }

  function ActiveNodes(phase: seq<Phase>): set<nat> {
    set v | 0 <= v < |phase| && Active(phase[v])
  }

  // -------------------------------------------------------------------- steps

  function Roots(g: Graph): (r: seq<nat>) {
    RootsFrom(g, |g.dependents|)
  }

  function RootsFrom(g: Graph, k: nat): (r: seq<nat>)
    ensures forall v: nat :: v in r <==> v < k && Prerequisites(g, v) == {}
    ensures Distinct(r)
  {
    if k == 0 then []
    else if Prerequisites(g, k - 1) == {} then RootsFrom(g, k - 1) + [k - 1]
    else RootsFrom(g, k - 1)
  }

  function Start(g: Graph): State {
    var n := |g.dependents|;
    State(
      seq(n, v requires 0 <= v < n => |Prerequisites(g, v)|), n, 0, Ok, false,
      seq(n, v requires 0 <= v < n => if v in Roots(g) then Waiting(n) else Idle),
      seq(n + 1, a requires 0 <= a < n + 1 => if a == n then Roots(g) else []),
      {}, [])
  }

  /** `take_completion_locked`. */
  function Take(s: State): State {
    if s.finished || s.running != 0 || (s.status == Ok && s.left != 0) then s
    else s.(finished := true, log := s.log + [Callback(s.status)])
  }

  predicate Shape(g: Graph, s: State) {
    |s.remaining| == |g.dependents| && |s.phase| == |g.dependents| && |s.lists| == |g.dependents| + 1
  }

  /** The node an actor is about to schedule. */
  predicate Head(g: Graph, s: State, a: nat, v: nat) {
    Shape(g, s) && a < |s.lists| && s.lists[a] != [] && s.lists[a][0] == v && v < |s.phase|
  }

  function Advance(s: State, a: nat, v: nat, p: Phase): State
    requires a < |s.lists| && s.lists[a] != [] && v < |s.phase|
  {
    s.(phase := s.phase[v := p], lists := s.lists[a := s.lists[a][1..]])
  }

  /** First section of `schedule`. */
  ghost predicate Check(g: Graph, s: State, s': State, a: nat, v: nat) {
    && Head(g, s, a, v) && s.phase[v] == Waiting(a)
    && s' == if s.finished || s.status != Ok then Advance(s, a, v, Dropped)
             else s.(running := s.running + 1, phase := s.phase[v := Claimed(a)])
  }

  ghost predicate Accept(g: Graph, s: State, s': State, a: nat, v: nat) {
    && Head(g, s, a, v) && s.phase[v] == Claimed(a)
    && s' == Advance(s, a, v, Queued)
  }

  ghost predicate Reject(g: Graph, s: State, s': State, a: nat, v: nat) {
    && Head(g, s, a, v) && s.phase[v] == Claimed(a)
    && s' == s.(phase := s.phase[v := Refused(a)], log := s.log + [Rejected(v)])
  }

  /** Second section of `schedule`, after a rejection. */
  ghost predicate Fail(g: Graph, s: State, s': State, a: nat, v: nat) {
    && Head(g, s, a, v) && s.phase[v] == Refused(a)
    && s' == Take(Advance(s, a, v, Dropped).(running := s.running - 1, status := WorkerSubmissionFailed))
  }

  ghost predicate Begin(g: Graph, s: State, s': State, v: nat) {
    && Shape(g, s) && v < |s.phase| && s.phase[v] == Queued
    && s' == s.(phase := s.phase[v := Executing], log := s.log + [Started(v)])
  }

  ghost predicate Finish(g: Graph, s: State, s': State, v: nat) {
    && Shape(g, s) && v < |s.phase| && s.phase[v] == Executing
    && s' == s.(phase := s.phase[v := Executed], log := s.log + [Finished(v)])
  }

  function MarkReady(phase: seq<Phase>, ready: seq<nat>, a: nat): seq<Phase> {
    seq(|phase|, v requires 0 <= v < |phase| => if v in ready then Waiting(a) else phase[v])
  }

  /** First section of `complete`. */
  ghost predicate Complete(g: Graph, s: State, s': State, v: nat) {
    && Shape(g, s) && WellFormed(g) && v < |s.phase| && s.phase[v] == Executed
    && s' == if s.status != Ok then s.(running := s.running - 1, phase := s.phase[v := Releasing])
             else
               var (remaining, ready) := Release(s.remaining, g.dependents[v]);
               s.(running := s.running - 1, left := s.left - 1, remaining := remaining,
                  phase := MarkReady(s.phase[v := Releasing], ready, v),
                  lists := s.lists[v := ready], counted := s.counted + {v})
  }

  /** Last section of `complete`. */
  ghost predicate Exit(g: Graph, s: State, s': State, v: nat) {
    && Shape(g, s) && v < |s.phase| && s.phase[v] == Releasing && s.lists[v] == []
    && s' == Take(s.(phase := s.phase[v := Exited]))
  }

  ghost predicate Next(g: Graph, s: State, s': State) {
    || (exists a, v :: Check(g, s, s', a, v))
    || (exists a, v :: Accept(g, s, s', a, v))
    || (exists a, v :: Reject(g, s, s', a, v))
    || (exists a, v :: Fail(g, s, s', a, v))
    || (exists v :: Begin(g, s, s', v))
    || (exists v :: Finish(g, s, s', v))
    || (exists v :: Complete(g, s, s', v))
    || (exists v :: Exit(g, s, s', v))
  }

  // ---------------------------------------------------------------- invariant

  /** Each listed node is on exactly one list, once; only a head may be in flight. */
  ghost predicate ListsInv(g: Graph, s: State) {
    && Shape(g, s)
    && (forall a :: 0 <= a < |s.lists| ==> Distinct(s.lists[a]))
    && (forall a, v {:trigger v in s.lists[a]} :: 0 <= a < |s.lists| && v in s.lists[a] ==> v < |s.phase| && Listed(s.phase[v], a))
    && (forall v :: 0 <= v < |s.phase| && (s.phase[v].Waiting? || s.phase[v].Claimed? || s.phase[v].Refused?) ==>
          s.phase[v].actor < |s.lists| && v in s.lists[s.phase[v].actor])
    && (forall a, i :: 0 <= a < |s.lists| && 0 < i < |s.lists[a]| ==>
          s.lists[a][i] < |s.phase| && s.phase[s.lists[a][i]].Waiting?)
    && (forall v :: 0 <= v < |s.phase| && s.lists[v] != [] ==> s.phase[v].Releasing?)
  }

  /** The counters mean what they say. */
  ghost predicate CountInv(g: Graph, s: State) {
    && Shape(g, s)
    && (forall v :: 0 <= v < |s.remaining| ==> s.remaining[v] == |Prerequisites(g, v) - s.counted|)
    && s.left == |g.dependents| - |s.counted|
    && s.running == |ActiveNodes(s.phase)|
    && (forall v :: v in s.counted ==> v < |s.phase| && Passed(s.phase[v]))
  }

  /** Readiness: issued nodes have all prerequisites counted, and while the run is OK conversely. */
  ghost predicate ReadyInv(g: Graph, s: State) {
    && Shape(g, s)
    && (forall v :: 0 <= v < |s.phase| && !s.phase[v].Idle? ==> Prerequisites(g, v) <= s.counted)
    && (s.status == Ok ==>
          && (forall v :: 0 <= v < |s.phase| && s.phase[v].Idle? ==> !(Prerequisites(g, v) <= s.counted))
          && (forall v :: 0 <= v < |s.phase| ==> !s.phase[v].Dropped? && (Passed(s.phase[v]) ==> v in s.counted)))
  }

  /** Completion: taken only in quiescence, and never forgotten. */
  ghost predicate DoneInv(g: Graph, s: State) {
    && Shape(g, s)
    && (s.finished ==> ActiveNodes(s.phase) == {} && (s.status == Ok ==> forall v :: 0 <= v < |s.phase| ==> v in s.counted))
    && (!s.finished && ActiveNodes(s.phase) == {} && (s.status != Ok || s.left == 0) ==>
          exists v :: 0 <= v < |s.phase| && s.phase[v].Releasing?)
  }

  predicate HasStarted(p: Phase) { p.Executing? || HasFinished(p) }

  predicate HasFinished(p: Phase) { p.Executed? || Passed(p) }

  /** The log agrees with the phases and is well ordered. */
  ghost predicate LogInv(g: Graph, s: State) {
    && Shape(g, s)
    && (forall v :: 0 <= v < |s.phase| ==> (Started(v) in s.log <==> HasStarted(s.phase[v])))
    && (forall v :: 0 <= v < |s.phase| ==> (Finished(v) in s.log <==> HasFinished(s.phase[v])))
    && (s.finished <==> exists st :: Callback(st) in s.log)
    && (forall st :: Callback(st) in s.log ==> st == s.status)
    && (s.status != Ok ==> exists v :: Rejected(v) in s.log)
    && (forall v :: 0 <= v < |s.phase| && s.phase[v].Refused? ==> Rejected(v) in s.log)
    && (forall v: nat :: Rejected(v) in s.log ==> v < |s.phase| && (s.phase[v].Refused? || s.phase[v].Dropped?))
    && Ordered(g, s.log)
  }

  /** No event twice; a job starts after its prerequisites finished; nothing follows the callback. */
  ghost predicate Ordered(g: Graph, log: seq<Event>) {
    && (forall i, j :: 0 <= i < j < |log| ==> log[i] != log[j])
    && (forall i, u :: 0 <= i < |log| && log[i].Started? && u in Prerequisites(g, log[i].node) ==>
          Finished(u) in log[..i])
    && (forall i :: 0 <= i < |log| && log[i].Finished? ==> Started(log[i].node) in log[..i])
    && (forall i :: 0 <= i < |log| - 1 ==> !log[i].Callback?)
  }

  ghost predicate Inv(g: Graph, s: State) {
    WellFormed(g) && ListsInv(g, s) && CountInv(g, s) && ReadyInv(g, s) && DoneInv(g, s) && LogInv(g, s)
  }

  // ------------------------------------------------------------------- proofs

  lemma ActiveUpdate(phase: seq<Phase>, v: nat, p: Phase)
    requires v < |phase|
    ensures ActiveNodes(phase[v := p]) == if Active(p) then ActiveNodes(phase) + {v} else ActiveNodes(phase) - {v}
  {
  }

  predicate OnList(p: Phase) { p.Waiting? || p.Claimed? || p.Refused? }

  lemma StartLists(g: Graph)
    requires WellFormed(g)
    ensures ListsInv(g, Start(g))
  {
    var s, n := Start(g), |g.dependents|;
    forall i | 0 <= i < |s.lists[n]| ensures s.lists[n][i] < n && s.phase[s.lists[n][i]] == Waiting(n) {
      assert s.lists[n][i] in Roots(g);
    }
  }

  lemma StartInv(g: Graph)
    requires WellFormed(g) && |g.dependents| > 0
    ensures Inv(g, Start(g))
  {
    hide ListsInv, WellFormed, Roots, LogInv, DoneInv, ReadyInv;
    var s := Start(g);
    StartLists(g);
    assert ActiveNodes(s.phase) == {};
    forall v | 0 <= v < |s.remaining| ensures s.remaining[v] == |Prerequisites(g, v) - s.counted| {
      assert Prerequisites(g, v) - {} == Prerequisites(g, v);
    }
    assert CountInv(g, s);
    StartReady(g);
    StartLog(g);
  }

  lemma StartLog(g: Graph)
    requires |g.dependents| > 0
    ensures DoneInv(g, Start(g)) && LogInv(g, Start(g))
  {
    hide Prerequisites, Roots;
    var s := Start(g);
    assert ActiveNodes(s.phase) == {};
  }

  lemma StartReady(g: Graph)
    ensures ReadyInv(g, Start(g))
  {
    hide Prerequisites;
    var s := Start(g);
    forall v | 0 <= v < |s.phase|
      ensures s.phase[v].Idle? <==> !(Prerequisites(g, v) <= s.counted)
      ensures s.phase[v].Idle? || s.phase[v].Waiting?
    {
      assert v in Roots(g) <==> Prerequisites(g, v) == {};
    }
  }

  // Lists: the three ways a step moves one node.

  /** The head of a list changes phase but stays listed. */
  lemma ListsKeepHead(g: Graph, s: State, s': State, a: nat, v: nat)
    requires ListsInv(g, s) && Head(g, s, a, v) && Shape(g, s')
    requires s'.lists == s.lists && |s'.phase| == |s.phase| && s'.phase == s.phase[v := s'.phase[v]]
    requires Listed(s'.phase[v], a)
    ensures ListsInv(g, s')
  {
    assert v in s.lists[a];
    assert Listed(s.phase[v], a);
    forall b, w | 0 <= b < |s'.lists| && w in s'.lists[b] ensures w < |s'.phase| && Listed(s'.phase[w], b) {
      assert w < |s.phase|;
      assert Listed(s.phase[w], b);
    }
    forall b, i | 0 <= b < |s'.lists| && 0 < i < |s'.lists[b]|
      ensures s'.lists[b][i] < |s'.phase| && s'.phase[s'.lists[b][i]].Waiting?
    {
      assert s.lists[b][i] in s.lists[b];
      assert Listed(s.phase[s.lists[b][i]], b);
      assert s.lists[b][i] != v;
    }
  }

  /** The head of a list leaves it. */
  lemma ListsPopHead(g: Graph, s: State, s': State, a: nat, v: nat)
    requires ListsInv(g, s) && Head(g, s, a, v) && Shape(g, s')
    requires s'.lists == s.lists[a := s.lists[a][1..]] && s'.phase == s.phase[v := s'.phase[v]]
    requires !OnList(s'.phase[v])
    ensures ListsInv(g, s')
  {
    var tail := s.lists[a][1..];
    assert s.lists[a] == [v] + tail;
    assert v in s.lists[a];
    assert Listed(s.phase[v], a);
    forall b | 0 <= b < |s'.lists| ensures Distinct(s'.lists[b]) {
      assert Distinct(s.lists[b]);
    }
    assert v !in tail;
    forall b, w | 0 <= b < |s'.lists| && w in s'.lists[b] ensures w < |s'.phase| && Listed(s'.phase[w], b) {
      assert w in s.lists[b];
      assert w < |s.phase|;
      assert Listed(s.phase[w], b);
      assert w != v;
    }
    forall b, i | 0 <= b < |s'.lists| && 0 < i < |s'.lists[b]|
      ensures s'.lists[b][i] < |s'.phase| && s'.phase[s'.lists[b][i]].Waiting?
    {
      var k := if b == a then i + 1 else i;
      assert s'.lists[b][i] == s.lists[b][k];
      assert s.lists[b][k] in s.lists[b];
      assert s'.lists[b][i] in s'.lists[b];
    }
  }

  /** An unlisted node with an empty list of its own changes phase. */
  lemma ListsMove(g: Graph, s: State, s': State, v: nat)
    requires ListsInv(g, s) && Shape(g, s') && v < |s.phase|
    requires s'.lists == s.lists && s'.phase == s.phase[v := s'.phase[v]]
    requires !OnList(s.phase[v]) && !OnList(s'.phase[v]) && s.lists[v] == []
    ensures ListsInv(g, s')
  {
    forall b, w | 0 <= b < |s'.lists| && w in s'.lists[b] ensures w < |s'.phase| && Listed(s'.phase[w], b) {
      assert w in s.lists[b];
      assert w < |s.phase|;
      assert Listed(s.phase[w], b);
      assert w != v;
    }
    forall b, i | 0 <= b < |s'.lists| && 0 < i < |s'.lists[b]|
      ensures s'.lists[b][i] < |s'.phase| && s'.phase[s'.lists[b][i]].Waiting?
    {
      assert s.lists[b][i] in s.lists[b];
    }
  }

  lemma CompleteLists(g: Graph, s: State, s': State, v: nat, ready: seq<nat>)
    requires ListsInv(g, s) && Shape(g, s') && v < |s.phase| && s.phase[v] == Executed
    requires Distinct(ready) && forall w :: w in ready ==> w < |s.phase| && s.phase[w].Idle?
    requires s'.phase == MarkReady(s.phase[v := Releasing], ready, v) && s'.lists == s.lists[v := ready]
    ensures ListsInv(g, s')
  {
    assert s.lists[v] == [];
    forall b, w | 0 <= b < |s'.lists| && w in s'.lists[b] ensures w < |s'.phase| && Listed(s'.phase[w], b) {
      if b != v {
        assert w in s.lists[b];
        assert Listed(s.phase[w], b);
      }
    }
    forall w | 0 <= w < |s'.phase| && OnList(s'.phase[w])
      ensures s'.phase[w].actor < |s'.lists| && w in s'.lists[s'.phase[w].actor]
    {
      if w !in ready {
        assert s'.phase[w] == s.phase[w];
        assert w in s.lists[s.phase[w].actor];
      }
    }
    forall b, i | 0 <= b < |s'.lists| && 0 < i < |s'.lists[b]|
      ensures s'.lists[b][i] < |s'.phase| && s'.phase[s'.lists[b][i]].Waiting?
    {
      assert s'.lists[b][i] in s'.lists[b];
      if b != v {
        assert s.lists[b][i] in s.lists[b];
        assert Listed(s.phase[s.lists[b][i]], b);
      }
    }
  }

  // Counters

  lemma CountMove(g: Graph, s: State, s': State, v: nat)
    requires CountInv(g, s) && Shape(g, s') && v < |s.phase| && s'.phase == s.phase[v := s'.phase[v]]
    requires s'.remaining == s.remaining && s'.left == s.left && s'.counted == s.counted
    requires v in s.counted ==> Passed(s'.phase[v])
    requires s'.running == s.running + (if Active(s'.phase[v]) then 1 else 0) - (if Active(s.phase[v]) then 1 else 0)
    ensures CountInv(g, s')
  {
    hide Prerequisites;
    ActiveUpdate(s.phase, v, s'.phase[v]);
  }

  lemma CompleteCount(g: Graph, s: State, s': State, v: nat, ready: seq<nat>)
    requires WellFormed(g) && CountInv(g, s) && Shape(g, s') && v < |s.phase| && s.phase[v] == Executed
    requires forall w :: w in ready ==> w < |s.phase| && s.phase[w].Idle?
    requires s'.phase == MarkReady(s.phase[v := Releasing], ready, v)
    requires forall w :: 0 <= w < |s.remaining| ==>
               s'.remaining[w] == if w in g.dependents[v] then s.remaining[w] - 1 else s.remaining[w]
    requires s'.left == s.left - 1 && s'.running == s.running - 1 && s'.counted == s.counted + {v}
    ensures CountInv(g, s')
  {
    hide WellFormed, Prerequisites, ActiveNodes, MarkReady;
    NotYetCounted(g, s, v);
    CompletePhases(s.phase, s'.phase, v, ready);
    CompleteRemaining(g, s, s', v);
    hide Passed;
  }

  lemma CompleteRemaining(g: Graph, s: State, s': State, v: nat)
    requires CountInv(g, s) && Shape(g, s') && v < |s.phase| && v !in s.counted && s'.counted == s.counted + {v}
    requires forall w :: 0 <= w < |s.remaining| ==>
               s'.remaining[w] == if w in g.dependents[v] then s.remaining[w] - 1 else s.remaining[w]
    ensures forall w :: 0 <= w < |s'.remaining| ==> s'.remaining[w] == |Prerequisites(g, w) - s'.counted|
  {
    hide Prerequisites, ActiveNodes, Passed;
    forall w | 0 <= w < |s'.remaining| ensures s'.remaining[w] == |Prerequisites(g, w) - s'.counted| {
      PrerequisiteDone(g, s.counted, v, w);
    }
  }

  lemma CompletePhases(phase: seq<Phase>, phase': seq<Phase>, v: nat, ready: seq<nat>)
    requires v < |phase| && phase[v] == Executed && phase' == MarkReady(phase[v := Releasing], ready, v)
    requires forall w :: w in ready ==> w < |phase| && phase[w].Idle?
    ensures ActiveNodes(phase') == ActiveNodes(phase) - {v} && v in ActiveNodes(phase)
    ensures forall w :: 0 <= w < |phase| && (w == v || Passed(phase[w])) ==> Passed(phase'[w])
  {
  }

  // Readiness

  lemma ReadyMove(g: Graph, s: State, s': State, v: nat)
    requires ReadyInv(g, s) && Shape(g, s') && v < |s.phase| && s'.phase == s.phase[v := s'.phase[v]]
    requires s'.counted == s.counted && (s'.status == Ok ==> s.status == Ok)
    requires !s.phase[v].Idle? && !s'.phase[v].Idle?
    requires s'.status == Ok ==> !s'.phase[v].Dropped? && (Passed(s'.phase[v]) ==> v in s.counted)
    ensures ReadyInv(g, s')
  {
    hide Prerequisites;
  }

  /** Nodes that reach zero were idle: an issued node has all its prerequisites counted already. */
  lemma NewlyReadyWereIdle(g: Graph, s: State, v: nat, w: nat)
    requires WellFormed(g) && CountInv(g, s) && ReadyInv(g, s)
    requires v < |s.phase| && s.phase[v] == Executed && w in g.dependents[v]
    ensures w < |s.phase| && s.phase[w].Idle?
  {
    assert v in Prerequisites(g, w);
    assert v !in s.counted;
  }

  lemma CompleteReady(g: Graph, s: State, s': State, v: nat, ready: seq<nat>)
    requires WellFormed(g) && CountInv(g, s) && ReadyInv(g, s) && s.status == Ok && CountInv(g, s')
    requires v < |s.phase| && s.phase[v] == Executed && s'.counted == s.counted + {v} && s'.status == Ok
    requires s'.phase == MarkReady(s.phase[v := Releasing], ready, v)
    requires forall w :: 0 <= w < |s.remaining| ==>
               s'.remaining[w] == if w in g.dependents[v] then s.remaining[w] - 1 else s.remaining[w]
    requires forall w :: w in ready <==> w in g.dependents[v] && w < |s.remaining| && s.remaining[w] == 1
    ensures ReadyInv(g, s')
  {
    hide WellFormed, MarkReady, Prerequisites, CountInv;
    assert Shape(g, s) && Shape(g, s') by { CountShape(g, s); CountShape(g, s'); }
    forall w | 0 <= w < |s'.phase|
      ensures s'.phase[w].Idle? <==> !(Prerequisites(g, w) <= s'.counted)
      ensures !s'.phase[w].Dropped? && (Passed(s'.phase[w]) ==> w in s'.counted)
    {
      ReadyNode(g, s, s', v, w, ready);
    }
  }

  lemma CountShape(g: Graph, s: State)
    requires CountInv(g, s)
    ensures Shape(g, s)
  {
    hide Prerequisites;
  }

  lemma ReadyNode(g: Graph, s: State, s': State, v: nat, w: nat, ready: seq<nat>)
    requires CountInv(g, s) && ReadyInv(g, s) && s.status == Ok && CountInv(g, s')
    requires v < |s.phase| && s.phase[v] == Executed && s'.counted == s.counted + {v}
    requires s'.phase == MarkReady(s.phase[v := Releasing], ready, v) && w < |s.phase|
    requires w in ready <==> w in g.dependents[v] && s.remaining[w] == 1
    requires s'.remaining[w] == if w in g.dependents[v] then s.remaining[w] - 1 else s.remaining[w]
    ensures s'.phase[w].Idle? <==> !(Prerequisites(g, w) <= s'.counted)
    ensures !s'.phase[w].Dropped? && (Passed(s'.phase[w]) ==> w in s'.counted)
  {
    hide Prerequisites, MarkReady, ActiveNodes;
    var p := Prerequisites(g, w);
    EmptyDifference(p, s.counted);
    EmptyDifference(p, s'.counted);
    Marked(s.phase[v := Releasing], ready, v, w);
    PrerequisiteDone(g, s.counted, v, w);
    NotYetCounted(g, s, v);
  }

  lemma NotYetCounted(g: Graph, s: State, v: nat)
    requires CountInv(g, s) && v < |s.phase| && s.phase[v] == Executed
    ensures v !in s.counted
  {
  }

  lemma Marked(phase: seq<Phase>, ready: seq<nat>, a: nat, w: nat)
    requires w < |phase|
    ensures |MarkReady(phase, ready, a)| == |phase|
    ensures MarkReady(phase, ready, a)[w] == if w in ready then Waiting(a) else phase[w]
  {
  }

  // Completion

  /** `Take` never leaves a quiescent run without its callback, and takes it only in quiescence. */
  lemma TakeDone(g: Graph, s: State)
    requires CountInv(g, s)
    requires s.finished ==> ActiveNodes(s.phase) == {} && (s.status == Ok ==> forall v :: 0 <= v < |s.phase| ==> v in s.counted)
    ensures DoneInv(g, Take(s))
  {
    hide Prerequisites;
    FullSet(|s.phase|, s.counted);
  }

  /** While a node is in flight nothing is taken; when it stops, its thread is still to exit. */
  lemma DoneInFlight(g: Graph, s: State, s': State, v: nat)
    requires DoneInv(g, s) && Shape(g, s') && v < |s.phase| && s'.finished == s.finished
    requires Active(s.phase[v]) || !s.finished
    requires Active(s'.phase[v]) || s'.phase[v].Releasing?
    ensures DoneInv(g, s')
  {
    assert Active(s.phase[v]) ==> v in ActiveNodes(s.phase);
    assert Active(s'.phase[v]) ==> v in ActiveNodes(s'.phase);
  }

  lemma DoneDrop(g: Graph, s: State, s': State, v: nat)
    requires DoneInv(g, s) && Shape(g, s') && v < |s.phase| && s.phase[v].Waiting?
    requires s'.phase == s.phase[v := Dropped] && s'.finished == s.finished && s'.status == s.status
    requires s'.left == s.left && s'.counted == s.counted
    ensures DoneInv(g, s')
  {
    ActiveUpdate(s.phase, v, Dropped);
    assert ActiveNodes(s'.phase) == ActiveNodes(s.phase);
    if !s'.finished && ActiveNodes(s'.phase) == {} && (s'.status != Ok || s'.left == 0) {
      var w :| 0 <= w < |s.phase| && s.phase[w].Releasing?;
      assert s'.phase[w].Releasing?;
    }
  }

  // Log

  lemma OrderedAppend(g: Graph, log: seq<Event>, e: Event)
    requires Ordered(g, log) && e !in log
    requires forall st :: Callback(st) !in log
    requires e.Started? ==> forall u :: u in Prerequisites(g, e.node) ==> Finished(u) in log
    requires e.Finished? ==> Started(e.node) in log
    ensures Ordered(g, log + [e])
  {
    hide Prerequisites;
    var l := log + [e];
    forall i | 0 <= i < |l| - 1 ensures !l[i].Callback? {
      assert l[i] in log;
    }
    forall i, u | 0 <= i < |l| && l[i].Started? && u in Prerequisites(g, l[i].node) ensures Finished(u) in l[..i] {
      PrefixOfAppend(log, e, i);
    }
    forall i | 0 <= i < |l| && l[i].Finished? ensures Started(l[i].node) in l[..i] {
      PrefixOfAppend(log, e, i);
    }
  }

  lemma PrefixOfAppend(log: seq<Event>, e: Event, i: nat)
    requires i <= |log|
    ensures (log + [e])[..i] == log[..i] && log[..|log|] == log
  {
  }

  predicate Spoiled(p: Phase) { p.Refused? || p.Dropped? }

  /** A step that logs nothing. */
  lemma LogSame(g: Graph, s: State, s': State)
    requires LogInv(g, s) && Shape(g, s') && s'.log == s.log && s'.finished == s.finished
    requires s'.status == s.status || (!s.finished && exists v :: Rejected(v) in s.log)
    requires forall w :: 0 <= w < |s.phase| ==>
               && (HasStarted(s'.phase[w]) <==> HasStarted(s.phase[w]))
               && (HasFinished(s'.phase[w]) <==> HasFinished(s.phase[w]))
               && (Spoiled(s.phase[w]) ==> Spoiled(s'.phase[w]))
               && (s'.phase[w].Refused? ==> s.phase[w].Refused?)
    ensures LogInv(g, s')
  {
    hide Ordered, HasStarted, HasFinished;
    forall v: nat | Rejected(v) in s'.log ensures v < |s'.phase| && Spoiled(s'.phase[v]) {
      assert v < |s.phase| && Spoiled(s.phase[v]);
    }
  }

  lemma LogTake(g: Graph, s: State)
    requires LogInv(g, s)
    ensures LogInv(g, Take(s))
  {
    hide HasStarted, HasFinished;
    if Take(s) != s {
      hide Ordered;
      var e := Callback(s.status);
      assert forall st :: Callback(st) !in s.log;
      OrderedAppend(g, s.log, e);
      assert e in Take(s).log;
      forall x: Event | x.Started? || x.Finished? || x.Rejected? ensures x in Take(s).log <==> x in s.log {
      }
    }
  }

  /** A node in flight starts, finishes or is rejected. */
  lemma LogEvent(g: Graph, s: State, s': State, v: nat, e: Event)
    requires LogInv(g, s) && DoneInv(g, s) && v < |s.phase| && Active(s.phase[v]) && !e.Callback? && e.node == v
    requires Shape(g, s') && s'.phase == s.phase[v := s'.phase[v]] && s'.log == s.log + [e]
    requires s'.finished == s.finished && s'.status == s.status
    requires e.Started? ==> s.phase[v].Queued? && s'.phase[v].Executing?
                            && forall u :: u in Prerequisites(g, v) ==> Finished(u) in s.log
    requires e.Finished? ==> s.phase[v].Executing? && s'.phase[v].Executed?
    requires e.Rejected? ==> s.phase[v].Claimed? && s'.phase[v].Refused?
    ensures LogInv(g, s')
  {
    hide Ordered, Prerequisites;
    assert v in ActiveNodes(s.phase);
    assert !s.finished;
    assert forall st :: Callback(st) !in s.log;
    OrderedAppend(g, s.log, e);
    assert e in s'.log;
    forall x | x != e ensures x in s'.log <==> x in s.log {
    }
  }

  // One lemma per step

  lemma TakeKeeps(g: Graph, s: State)
    requires ListsInv(g, s) && CountInv(g, s) && ReadyInv(g, s)
    ensures ListsInv(g, Take(s)) && CountInv(g, Take(s)) && ReadyInv(g, Take(s))
  {
    hide Prerequisites, ActiveNodes;
  }

  lemma ScheduleInv(g: Graph, s: State, s': State, a: nat, v: nat)
    requires Inv(g, s)
    requires Check(g, s, s', a, v) || Accept(g, s, s', a, v) || Reject(g, s, s', a, v)
    ensures Inv(g, s')
  {
    hide WellFormed, ListsInv, CountInv, ReadyInv, DoneInv, LogInv;
    if Accept(g, s, s', a, v) {
      ListsPopHead(g, s, s', a, v);
    } else if s'.lists == s.lists {
      ListsKeepHead(g, s, s', a, v);
    } else {
      ListsPopHead(g, s, s', a, v);
    }
    NotCounted(g, s, v);
    CountMove(g, s, s', v);
    SuccessLeavesNothing(g, s, v);
    ReadyMove(g, s, s', v);
    if s'.phase[v].Dropped? {
      DoneDrop(g, s, s', v);
    } else {
      DoneInFlight(g, s, s', v);
    }
    if Reject(g, s, s', a, v) {
      LogEvent(g, s, s', v, Rejected(v));
    } else {
      LogSame(g, s, s');
    }
  }

  /** A run that finished OK has no node left to schedule. */
  lemma SuccessLeavesNothing(g: Graph, s: State, v: nat)
    requires DoneInv(g, s) && v < |s.phase| && v !in s.counted
    ensures !(s.finished && s.status == Ok)
  {
  }

  lemma NotCounted(g: Graph, s: State, v: nat)
    requires CountInv(g, s) && v < |s.phase| && !Passed(s.phase[v])
    ensures v !in s.counted
  {
    hide Prerequisites, ActiveNodes;
  }

  lemma FailInv(g: Graph, s: State, s': State, a: nat, v: nat)
    requires Inv(g, s) && Fail(g, s, s', a, v)
    ensures Inv(g, s')
  {
    hide WellFormed, ListsInv, CountInv, ReadyInv, DoneInv, LogInv, Take;
    var m := Advance(s, a, v, Dropped).(running := s.running - 1, status := WorkerSubmissionFailed);
    ListsPopHead(g, s, m, a, v);
    NotCounted(g, s, v);
    CountMove(g, s, m, v);
    ReadyMove(g, s, m, v);
    TakeKeeps(g, m);
    NotFinished(g, s, v);
    TakeDone(g, m);
    RefusedIsLogged(g, s, v);
    LogSame(g, s, m);
    LogTake(g, m);
  }

  lemma RefusedIsLogged(g: Graph, s: State, v: nat)
    requires LogInv(g, s) && v < |s.phase| && s.phase[v].Refused?
    ensures Rejected(v) in s.log
  {
  }

  lemma NotFinished(g: Graph, s: State, v: nat)
    requires DoneInv(g, s) && v < |s.phase| && Active(s.phase[v])
    ensures !s.finished
  {
    assert v in ActiveNodes(s.phase);
  }

  lemma RunJobInv(g: Graph, s: State, s': State, v: nat)
    requires Inv(g, s) && (Begin(g, s, s', v) || Finish(g, s, s', v))
    ensures Inv(g, s')
  {
    hide WellFormed, ListsInv, CountInv, ReadyInv, DoneInv, LogInv;
    OwnListEmpty(g, s, v);
    ListsMove(g, s, s', v);
    NotCounted(g, s, v);
    CountMove(g, s, s', v);
    ReadyMove(g, s, s', v);
    DoneInFlight(g, s, s', v);
    if Begin(g, s, s', v) {
      PrerequisitesFinished(g, s, v);
      LogEvent(g, s, s', v, Started(v));
    } else {
      LogEvent(g, s, s', v, Finished(v));
    }
  }

  lemma OwnListEmpty(g: Graph, s: State, v: nat)
    requires ListsInv(g, s) && v < |s.phase| && !s.phase[v].Releasing?
    ensures s.lists[v] == []
  {
  }

  /** Every node that left `Idle` has its prerequisites' jobs in the log as finished. */
  lemma PrerequisitesFinished(g: Graph, s: State, v: nat)
    requires CountInv(g, s) && ReadyInv(g, s) && LogInv(g, s) && v < |s.phase| && !s.phase[v].Idle?
    ensures forall u :: u in Prerequisites(g, v) ==> Finished(u) in s.log
  {
    hide Ordered, ActiveNodes;
    forall u | u in Prerequisites(g, v) ensures Finished(u) in s.log {
      assert u in s.counted;
      assert Passed(s.phase[u]);
    }
  }

  lemma CompleteInv(g: Graph, s: State, s': State, v: nat)
    requires Inv(g, s) && Complete(g, s, s', v)
    ensures Inv(g, s')
  {
    if s.status != Ok {
      CompleteFailedInv(g, s, s', v);
    } else {
      hide ListsInv, CountInv, ReadyInv, DoneInv, LogInv, MarkReady, Release;
      var ready := Release(s.remaining, g.dependents[v]).1;
      ReleaseSpec(s.remaining, g.dependents[v]);
      forall w | w in ready ensures w < |s.phase| && s.phase[w].Idle? {
        NewlyReadyWereIdle(g, s, v, w);
      }
      CompleteLists(g, s, s', v, ready);
      CompleteCount(g, s, s', v, ready);
      CompleteReady(g, s, s', v, ready);
      CompleteLog(g, s, s', v, ready);
      assert s'.phase[v].Releasing? by { MarkReadyKeeps(s.phase[v := Releasing], ready, v, v); }
      DoneInFlight(g, s, s', v);
    }
  }

  lemma MarkReadyKeeps(phase: seq<Phase>, ready: seq<nat>, a: nat, w: nat)
    requires w < |phase| && w !in ready
    ensures MarkReady(phase, ready, a)[w] == phase[w]
  {
  }

  lemma CompleteFailedInv(g: Graph, s: State, s': State, v: nat)
    requires Inv(g, s) && Complete(g, s, s', v) && s.status != Ok
    ensures Inv(g, s')
  {
    hide WellFormed, ListsInv, CountInv, ReadyInv, DoneInv, LogInv, Release, MarkReady;
    OwnListEmpty(g, s, v);
    ListsMove(g, s, s', v);
    NotCounted(g, s, v);
    CountMove(g, s, s', v);
    ReadyMove(g, s, s', v);
    DoneInFlight(g, s, s', v);
    LogSame(g, s, s');
  }

  lemma CompleteLog(g: Graph, s: State, s': State, v: nat, ready: seq<nat>)
    requires LogInv(g, s) && Shape(g, s') && v < |s.phase| && s.phase[v] == Executed
    requires forall w :: w in ready ==> w < |s.phase| && s.phase[w].Idle?
    requires s'.phase == MarkReady(s.phase[v := Releasing], ready, v)
    requires s'.log == s.log && s'.finished == s.finished && s'.status == s.status
    ensures LogInv(g, s')
  {
    hide LogInv;
    LogSame(g, s, s');
  }

  lemma ExitInv(g: Graph, s: State, s': State, v: nat)
    requires Inv(g, s) && Exit(g, s, s', v)
    ensures Inv(g, s')
  {
    hide WellFormed, ListsInv, CountInv, ReadyInv, DoneInv, LogInv, Take;
    var m := s.(phase := s.phase[v := Exited]);
    ListsMove(g, s, m, v);
    CountMove(g, s, m, v);
    if s.status == Ok {
      PassedIsCounted(g, s, v);
    }
    ReadyMove(g, s, m, v);
    TakeKeeps(g, m);
    FinishedStays(g, s, m, v);
    TakeDone(g, m);
    LogSame(g, s, m);
    LogTake(g, m);
  }

  lemma PassedIsCounted(g: Graph, s: State, v: nat)
    requires ReadyInv(g, s) && v < |s.phase| && s.status == Ok && Passed(s.phase[v])
    ensures v in s.counted
  {
    hide Prerequisites;
  }

  lemma FinishedStays(g: Graph, s: State, m: State, v: nat)
    requires DoneInv(g, s) && v < |s.phase| && s.phase[v].Releasing? && m == s.(phase := s.phase[v := Exited])
    ensures m.finished ==> ActiveNodes(m.phase) == {} && (m.status == Ok ==> forall w :: 0 <= w < |m.phase| ==> w in m.counted)
  {
    ActiveUpdate(s.phase, v, Exited);
  }

  lemma NextInv(g: Graph, s: State, s': State)
    requires Inv(g, s) && Next(g, s, s')
    ensures Inv(g, s')
  {
    hide Inv, Check, Accept, Reject, Fail, Begin, Finish, Complete, Exit;
    if a, v :| Check(g, s, s', a, v) {
      ScheduleInv(g, s, s', a, v);
    } else if a, v :| Accept(g, s, s', a, v) {
      ScheduleInv(g, s, s', a, v);
    } else if a, v :| Reject(g, s, s', a, v) {
      ScheduleInv(g, s, s', a, v);
    } else if a, v :| Fail(g, s, s', a, v) {
      FailInv(g, s, s', a, v);
    } else if v :| Begin(g, s, s', v) {
      RunJobInv(g, s, s', v);
    } else if v :| Finish(g, s, s', v) {
      RunJobInv(g, s, s', v);
    } else if v :| Complete(g, s, s', v) {
      CompleteInv(g, s, s', v);
    } else {
      var v :| Exit(g, s, s', v);
      ExitInv(g, s, s', v);
    }
  }

  // --------------------------------------------------------------- theorems

  ghost predicate Behavior(g: Graph, b: seq<State>) {
    && |b| > 0 && b[0] == Start(g)
    && forall i :: 0 <= i < |b| - 1 ==> Next(g, b[i], b[i + 1])
  }

  lemma {:induction false} BehaviorInv(g: Graph, b: seq<State>, i: nat)
    requires WellFormed(g) && |g.dependents| > 0 && Behavior(g, b) && i < |b|
    ensures Inv(g, b[i])
    decreases i
  {
    hide Inv, Next, Start, WellFormed;
    if i == 0 {
      StartInv(g);
    } else {
      BehaviorInv(g, b, i - 1);
      assert Next(g, b[i - 1], b[i - 1 + 1]);
      NextInv(g, b[i - 1], b[i]);
    }
  }

  /**
   Ordering safety: in every interleaving each job starts at most once, only after the jobs of
   all its prerequisites returned; and once the callback is taken no job of the run is queued
   or running and none ever starts.
   */
  lemma OrderingSafety(g: Graph, b: seq<State>, i: nat)
    requires WellFormed(g) && |g.dependents| > 0 && Behavior(g, b) && i < |b|
    ensures forall j, k :: 0 <= j < k < |b[i].log| ==> b[i].log[j] != b[i].log[k]
    ensures forall j, u :: 0 <= j < |b[i].log| && b[i].log[j].Started? && u in Prerequisites(g, b[i].log[j].node) ==>
              Finished(u) in b[i].log[..j]
    ensures b[i].finished ==> ActiveNodes(b[i].phase) == {} && b[i].log != [] && b[i].log[|b[i].log| - 1].Callback?
  {
    hide Behavior, ListsInv, CountInv, ReadyInv, WellFormed, Prerequisites, ActiveNodes;
    BehaviorInv(g, b, i);
    var log := b[i].log;
    if b[i].finished {
      var st :| Callback(st) in log;
      var k :| 0 <= k < |log| && log[k] == Callback(st);
      assert k == |log| - 1;
    }
  }

  /**
   What the callback's status means: OK exactly when every job returned, failure only after the
   pool rejected a submission.
   */
  lemma CallbackMeaning(g: Graph, b: seq<State>, i: nat, st: Status)
    requires WellFormed(g) && |g.dependents| > 0 && Behavior(g, b) && i < |b|
    requires Callback(st) in b[i].log
    ensures st == Ok ==> forall v :: 0 <= v < |g.dependents| ==> Finished(v) in b[i].log
    ensures st != Ok ==> exists v :: Rejected(v) in b[i].log
  {
    hide Behavior, ListsInv, WellFormed, Prerequisites, ActiveNodes, Ordered;
    BehaviorInv(g, b, i);
    var s := b[i];
    if st == Ok {
      forall v | 0 <= v < |g.dependents| ensures Finished(v) in s.log {
        assert v in s.counted;
        assert Passed(s.phase[v]);
      }
    }
  }

  /** Some thread or wrapper of an unfinished run of a validated DAG can always take a step. */
  lemma Progress(g: Graph, s: State)
    requires Inv(g, s) && Acyclic(g) && !s.finished
    ensures exists s' :: Next(g, s, s')
  {
    hide CountInv, ReadyInv, DoneInv, LogInv, WellFormed, Acyclic;
    if a :| 0 <= a < |s.lists| && s.lists[a] != [] {
      HeadCanStep(g, s, a, s.lists[a][0]);
    } else if v :| 0 <= v < |s.phase| && (s.phase[v].Queued? || s.phase[v].Executing? || s.phase[v].Executed?) {
      NodeCanStep(g, s, v);
    } else if v :| 0 <= v < |s.phase| && s.phase[v].Releasing? {
      var s' := Take(s.(phase := s.phase[v := Exited]));
      assert s.lists[v] == [];
      assert Exit(g, s, s', v);
      assert Next(g, s, s');
    } else {
      NothingPending(g, s);
      assert false;
    }
  }

  lemma HeadCanStep(g: Graph, s: State, a: nat, v: nat)
    requires ListsInv(g, s) && a < |s.lists| && s.lists[a] != [] && s.lists[a][0] == v
    ensures exists s' :: Next(g, s, s')
  {
    assert v in s.lists[a];
    assert Head(g, s, a, v);
    if s.phase[v].Waiting? {
      var s' := if s.finished || s.status != Ok then Advance(s, a, v, Dropped)
                else s.(running := s.running + 1, phase := s.phase[v := Claimed(a)]);
      assert Check(g, s, s', a, v);
      assert Next(g, s, s');
    } else if s.phase[v].Claimed? {
      var s' := Advance(s, a, v, Queued);
      assert Accept(g, s, s', a, v);
      assert Next(g, s, s');
    } else {
      var s' := Take(Advance(s, a, v, Dropped).(running := s.running - 1, status := WorkerSubmissionFailed));
      assert Fail(g, s, s', a, v);
      assert Next(g, s, s');
    }
  }

  lemma NodeCanStep(g: Graph, s: State, v: nat)
    requires WellFormed(g) && Shape(g, s) && v < |s.phase|
    requires s.phase[v].Queued? || s.phase[v].Executing? || s.phase[v].Executed?
    ensures exists s' :: Next(g, s, s')
  {
    if s.phase[v].Queued? {
      var s' := s.(phase := s.phase[v := Executing], log := s.log + [Started(v)]);
      assert Begin(g, s, s', v);
      assert Next(g, s, s');
    } else if s.phase[v].Executing? {
      var s' := s.(phase := s.phase[v := Executed], log := s.log + [Finished(v)]);
      assert Finish(g, s, s', v);
      assert Next(g, s, s');
    } else {
      var s' := if s.status != Ok then s.(running := s.running - 1, phase := s.phase[v := Releasing])
                else
                  var (remaining, ready) := Release(s.remaining, g.dependents[v]);
                  s.(running := s.running - 1, left := s.left - 1, remaining := remaining,
                     phase := MarkReady(s.phase[v := Releasing], ready, v),
                     lists := s.lists[v := ready], counted := s.counted + {v});
      assert Complete(g, s, s', v);
      assert Next(g, s, s');
    }
  }

  /** With every thread gone, an acyclic run must have finished. */
  lemma NothingPending(g: Graph, s: State)
    requires ListsInv(g, s) && CountInv(g, s) && ReadyInv(g, s) && DoneInv(g, s) && Acyclic(g)
    requires forall a :: 0 <= a < |s.lists| ==> s.lists[a] == []
    requires forall v :: 0 <= v < |s.phase| ==> s.phase[v].Idle? || s.phase[v].Dropped? || s.phase[v].Exited? || OnList(s.phase[v])
    ensures s.finished
  {
    hide Prerequisites, Acyclic;
    forall v | 0 <= v < |s.phase| ensures !OnList(s.phase[v]) {
      ListedHasList(g, s, v);
    }
    assert ActiveNodes(s.phase) == {};
    if s.status == Ok && s.left != 0 {
      EverythingCounted(g, s);
    }
  }

  lemma ListedHasList(g: Graph, s: State, v: nat)
    requires ListsInv(g, s) && v < |s.phase|
    ensures OnList(s.phase[v]) ==> exists a :: 0 <= a < |s.lists| && s.lists[a] != []
  {
    if OnList(s.phase[v]) {
      assert v in s.lists[s.phase[v].actor];
    }
  }

  /** If every idle node waits for an uncounted one, acyclicity leaves no uncounted node. */
  lemma EverythingCounted(g: Graph, s: State)
    requires CountInv(g, s) && ReadyInv(g, s) && Acyclic(g) && s.status == Ok
    requires forall v :: 0 <= v < |s.phase| ==> s.phase[v].Idle? || s.phase[v].Exited?
    ensures s.left == 0
  {
    var level :| Layering(g, level);
    hide Acyclic, ActiveNodes, Layering;
    forall v | 0 <= v < |s.phase| ensures v in s.counted {
      CountedByLevel(g, s, level, v);
    }
    CountAll(|s.phase|, s.counted);
  }

  lemma {:induction false} CountedByLevel(g: Graph, s: State, level: seq<nat>, v: nat)
    requires ReadyInv(g, s) && s.status == Ok && Layering(g, level) && v < |s.phase|
    requires forall w :: 0 <= w < |s.phase| ==> s.phase[w].Idle? || s.phase[w].Exited?
    ensures v in s.counted
    decreases level[v]
  {
    if v !in s.counted {
      assert s.phase[v].Idle?;
      var u :| u in Prerequisites(g, v) && u !in s.counted;
      assert Edge(g, u, v);
      CountedByLevel(g, s, level, u);
    }
  }

  // A measure that every step lowers.

  function Weight(p: Phase): nat {
    match p
    case Idle => 8
    case Waiting(_) => 7
    case Claimed(_) => 6
    case Refused(_) => 5
    case Queued => 4
    case Executing => 3
    case Executed => 2
    case Releasing => 1
    case Exited => 0
    case Dropped => 0
  }

  function Measure(phase: seq<Phase>): nat {
    if phase == [] then 0 else Weight(phase[0]) + Measure(phase[1..])
  }

  lemma {:induction false} MeasureLess(p: seq<Phase>, q: seq<Phase>, v: nat)
    requires |p| == |q| && v < |p| && Weight(q[v]) < Weight(p[v])
    requires forall w :: 0 <= w < |p| ==> Weight(q[w]) <= Weight(p[w])
    ensures Measure(q) < Measure(p)
  {
    if v == 0 {
      MeasureLeq(p[1..], q[1..]);
    } else {
      MeasureLess(p[1..], q[1..], v - 1);
    }
  }

  lemma {:induction false} MeasureLeq(p: seq<Phase>, q: seq<Phase>)
    requires |p| == |q| && forall w :: 0 <= w < |p| ==> Weight(q[w]) <= Weight(p[w])
    ensures Measure(q) <= Measure(p)
  {
    if p != [] {
      MeasureLeq(p[1..], q[1..]);
    }
  }

  /** Every step of every thread brings the run closer to its end. */
  lemma StepsDecrease(g: Graph, s: State, s': State)
    requires Inv(g, s) && Next(g, s, s')
    ensures Measure(s'.phase) < Measure(s.phase)
  {
    hide Inv, Measure, Check, Accept, Reject, Fail, Begin, Finish, Complete, Exit;
    if v :| Complete(g, s, s', v) {
      CompleteDecreases(g, s, s', v);
    } else if v :| Begin(g, s, s', v) {
      NodeDecreases(g, s, s', v);
    } else if v :| Finish(g, s, s', v) {
      NodeDecreases(g, s, s', v);
    } else if v :| Exit(g, s, s', v) {
      NodeDecreases(g, s, s', v);
    } else if a, v :| Check(g, s, s', a, v) {
      HeadDecreases(g, s, s', a, v);
    } else if a, v :| Accept(g, s, s', a, v) {
      HeadDecreases(g, s, s', a, v);
    } else if a, v :| Reject(g, s, s', a, v) {
      HeadDecreases(g, s, s', a, v);
    } else {
      var a, v :| Fail(g, s, s', a, v);
      HeadDecreases(g, s, s', a, v);
    }
  }

  lemma NodeDecreases(g: Graph, s: State, s': State, v: nat)
    requires Begin(g, s, s', v) || Finish(g, s, s', v) || Exit(g, s, s', v)
    ensures Measure(s'.phase) < Measure(s.phase)
  {
    hide Measure;
    MeasureLess(s.phase, s'.phase, v);
  }

  lemma HeadDecreases(g: Graph, s: State, s': State, a: nat, v: nat)
    requires Check(g, s, s', a, v) || Accept(g, s, s', a, v) || Reject(g, s, s', a, v) || Fail(g, s, s', a, v)
    ensures Measure(s'.phase) < Measure(s.phase)
  {
    hide Measure;
    MeasureLess(s.phase, s'.phase, v);
  }

  lemma CompleteDecreases(g: Graph, s: State, s': State, v: nat)
    requires Inv(g, s) && Complete(g, s, s', v)
    ensures Measure(s'.phase) < Measure(s.phase)
  {
    hide ListsInv, CountInv, ReadyInv, DoneInv, LogInv, Release, Measure;
    if s.status == Ok {
      var ready := Release(s.remaining, g.dependents[v]).1;
      ReleaseSpec(s.remaining, g.dependents[v]);
      forall w | w in ready ensures w < |s.phase| && s.phase[w].Idle? {
        NewlyReadyWereIdle(g, s, v, w);
      }
    }
    MeasureLess(s.phase, s'.phase, v);
  }

  lemma {:induction false} BoundedLength(g: Graph, b: seq<State>, i: nat)
    requires WellFormed(g) && |g.dependents| > 0 && Behavior(g, b) && i < |b|
    ensures Measure(b[i].phase) + i <= Measure(b[0].phase)
    decreases i
  {
    hide Inv, Next, Start, WellFormed, Measure;
    if i > 0 {
      BoundedLength(g, b, i - 1);
      BehaviorInv(g, b, i - 1);
      assert Next(g, b[i - 1], b[i - 1 + 1]);
      StepsDecrease(g, b[i - 1], b[i]);
    }
  }

  ghost predicate Stuck(g: Graph, s: State) {
    forall s' :: !Next(g, s, s')
  }

  /** Exactly one event of the log is the callback. */
  ghost predicate CalledOnce(log: seq<Event>) {
    exists k :: 0 <= k < |log| && log[k].Callback? && forall j :: 0 <= j < |log| && log[j].Callback? ==> j == k
  }

  /**
   Completion. An accepted run of a validated DAG cannot run forever, and wherever it can go no
   further its callback has been taken, exactly once.
   */
  lemma EveryRunCompletes(g: Graph, b: seq<State>)
    requires WellFormed(g) && |g.dependents| > 0 && Acyclic(g) && Behavior(g, b)
    ensures |b| <= Measure(Start(g).phase) + 1
    ensures Stuck(g, b[|b| - 1]) ==> b[|b| - 1].finished && CalledOnce(b[|b| - 1].log)
  {
    hide Next, Start, WellFormed, Acyclic, Measure, Inv;
    var s := b[|b| - 1];
    BoundedLength(g, b, |b| - 1);
    BehaviorInv(g, b, |b| - 1);
    if Stuck(g, s) {
      if !s.finished {
        Progress(g, s);
      }
      FinishedOnce(g, s);
    }
  }

  lemma FinishedOnce(g: Graph, s: State)
    requires Inv(g, s) && s.finished
    ensures CalledOnce(s.log)
  {
    hide WellFormed, ListsInv, CountInv, ReadyInv, DoneInv, Ordered;
    var st :| Callback(st) in s.log;
    CallbackIsLast(g, s.log, st);
  }

  lemma CallbackIsLast(g: Graph, log: seq<Event>, st: Status)
    requires Ordered(g, log) && Callback(st) in log
    ensures CalledOnce(log)
  {
    hide Prerequisites;
    var k :| 0 <= k < |log| && log[k] == Callback(st);
    assert forall j :: 0 <= j < |log| && log[j].Callback? ==> j == |log| - 1;
  }
}
