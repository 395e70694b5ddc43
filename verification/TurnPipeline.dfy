/**
 Run accounting of the Turn pipeline over concurrent plan runs
 (canvas/session/turn_pipeline.cpp:116-170, 237-285).
 */
module TurnPipeline {
  import opened Basics
  import opened ExecutionPlan
  import opened Topology

  /** One call of `submit` that passed the admission check. */
  datatype Entry =
    | Reserved(plan: Graph)                             // counted, plan not submitted yet
    | Live(plan: Graph, run: State, returned: bool)     // accepted; `returned`: complete_run was called
    | Aborted                                           // the plan refused the submission

  datatype Pipeline = Pipeline(
    workers: bool,
    accepting: bool,
    draining: bool,
    active: int,
    plan: Option<Graph>,
    runs: map<nat, Entry>
  )

  ghost predicate Compiled(g: Graph) {
    WellFormed(g) && Acyclic(g) && |g.dependents| > 0
  }

  ghost predicate Init(p: Pipeline) {
    p == Pipeline(false, false, false, 0, None, map[])
  }

  ghost predicate Attach(p: Pipeline, p': Pipeline) {
    p' == p.(workers := true, accepting := true)
  }

  /** `register_node` and `unregister_node` publish a freshly compiled plan, or none. */
  ghost predicate Publish(p: Pipeline, p': Pipeline, plan: Option<Graph>) {
    (plan.Some? ==> Compiled(plan.value)) && p' == p.(plan := plan)
  }

  ghost predicate Reserve(p: Pipeline, p': Pipeline, id: nat) {
    && id !in p.runs && p.accepting && p.workers && p.plan.Some?
    && p' == p.(active := p.active + 1, runs := p.runs[id := Reserved(p.plan.value)])
  }

  ghost predicate Launch(p: Pipeline, p': Pipeline, id: nat) {
    && id in p.runs && p.runs[id].Reserved?
    && p' == p.(runs := p.runs[id := Live(p.runs[id].plan, Start(p.runs[id].plan), false)])
  }

  ghost predicate Abort(p: Pipeline, p': Pipeline, id: nat) {
    && id in p.runs && p.runs[id].Reserved?
    && p' == p.(active := p.active - 1, runs := p.runs[id := Aborted])
  }

  /** Any thread of any accepted run. */
  ghost predicate RunStep(p: Pipeline, p': Pipeline, id: nat, run': State) {
    && id in p.runs && p.runs[id].Live? && ExecutionPlan.Next(p.runs[id].plan, p.runs[id].run, run')
    && p' == p.(runs := p.runs[id := Live(p.runs[id].plan, run', p.runs[id].returned)])
  }

  /** The completion callback ends in `complete_run`. */
  ghost predicate Return(p: Pipeline, p': Pipeline, id: nat) {
    && id in p.runs && p.runs[id].Live? && p.runs[id].run.finished && !p.runs[id].returned
    && p' == p.(active := p.active - 1, runs := p.runs[id := Live(p.runs[id].plan, p.runs[id].run, true)])
  }

  ghost predicate BeginDetach(p: Pipeline, p': Pipeline) {
    p' == p.(accepting := false, draining := true)
  }

  /** `detach` returns: its wait condition is that no run is counted. */
  ghost predicate EndDetach(p: Pipeline, p': Pipeline) {
    p.draining && p.active == 0 && p' == p.(draining := false, workers := false)
  }

  ghost predicate Next(p: Pipeline, p': Pipeline) {
    || Attach(p, p')
    || (exists plan :: Publish(p, p', plan))
    || (exists id :: Reserve(p, p', id))
    || (exists id :: Launch(p, p', id))
    || (exists id :: Abort(p, p', id))
    || (exists id, run' :: RunStep(p, p', id, run'))
    || (exists id :: Return(p, p', id))
    || BeginDetach(p, p')
    || EndDetach(p, p')
  }

  predicate Outstanding(e: Entry) {
    e.Reserved? || (e.Live? && !e.returned)
  }

  function OutstandingRuns(runs: map<nat, Entry>): set<nat> {
    set id | id in runs && Outstanding(runs[id])
  }

  ghost predicate EntryInv(e: Entry) {
    match e
    case Reserved(g) => Compiled(g)
    case Live(g, s, returned) => Compiled(g) && ExecutionPlan.Inv(g, s) && (returned ==> s.finished)
    case Aborted => true
  }

  ghost predicate Inv(p: Pipeline) {
    && p.active == |OutstandingRuns(p.runs)|
    && (p.plan.Some? ==> Compiled(p.plan.value))
    && (forall id :: id in p.runs ==> EntryInv(p.runs[id]))
  }

  lemma OutstandingUpdate(runs: map<nat, Entry>, id: nat, e: Entry)
    ensures OutstandingRuns(runs[id := e]) ==
            if Outstanding(e) then OutstandingRuns(runs) + {id} else OutstandingRuns(runs) - {id}
  {
  }

  /** One entry changes; the count follows. */
  lemma EntryStep(p: Pipeline, p': Pipeline, id: nat, e: Entry)
    requires Inv(p) && EntryInv(e) && p'.runs == p.runs[id := e] && p'.plan == p.plan
    requires p'.active == p.active + (if Outstanding(e) then 1 else 0)
                                   - (if id in p.runs && Outstanding(p.runs[id]) then 1 else 0)
    ensures Inv(p')
  {
    hide EntryInv, Compiled;
    OutstandingUpdate(p.runs, id, e);
  }

  /** Every step keeps `active_runs` equal to the number of accepted runs not yet completed. */
  lemma NextInv(p: Pipeline, p': Pipeline)
    requires Inv(p) && Next(p, p')
    ensures Inv(p')
  {
    hide ExecutionPlan.Inv, Compiled, ExecutionPlan.Next, OutstandingRuns, Start;
    if id :| Reserve(p, p', id) {
      EntryStep(p, p', id, Reserved(p.plan.value));
    } else if id :| Launch(p, p', id) {
      LaunchedEntry(p.runs[id].plan);
      EntryStep(p, p', id, p'.runs[id]);
    } else if id :| Abort(p, p', id) {
      EntryStep(p, p', id, Aborted);
    } else if id, run' :| RunStep(p, p', id, run') {
      SteppedEntry(p.runs[id], run');
      EntryStep(p, p', id, p'.runs[id]);
    } else if id :| Return(p, p', id) {
      EntryStep(p, p', id, p'.runs[id]);
    }
  }

  lemma LaunchedEntry(g: Graph)
    requires Compiled(g)
    ensures EntryInv(Live(g, Start(g), false))
  {
    hide ExecutionPlan.Inv, Start, WellFormed, Acyclic;
    StartInv(g);
  }

  lemma SteppedEntry(e: Entry, run': State)
    requires EntryInv(e) && e.Live? && ExecutionPlan.Next(e.plan, e.run, run')
    ensures EntryInv(Live(e.plan, run', e.returned))
  {
    hide ExecutionPlan.Inv, ExecutionPlan.Next, Compiled;
    ExecutionPlan.NextInv(e.plan, e.run, run');
    FinishedForever(e.plan, e.run, run');
  }

  lemma FinishedForever(g: Graph, s: State, s': State)
    requires ExecutionPlan.Next(g, s, s')
    ensures s.finished ==> s'.finished
  {
    hide Release, MarkReady, WellFormed;
  }

  ghost predicate Behavior(b: seq<Pipeline>) {
    && |b| > 0 && Init(b[0])
    && forall i :: 0 <= i < |b| - 1 ==> Next(b[i], b[i + 1])
  }

  lemma {:induction false} BehaviorInv(b: seq<Pipeline>, i: nat)
    requires Behavior(b) && i < |b|
    ensures Inv(b[i])
    decreases i
  {
    hide Inv, Next, Init;
    if i == 0 {
      InitInv(b[0]);
    } else {
      BehaviorInv(b, i - 1);
      assert Next(b[i - 1], b[i - 1 + 1]);
      NextInv(b[i - 1], b[i]);
    }
  }

  lemma InitInv(p: Pipeline)
    requires Init(p)
    ensures Inv(p)
  {
    assert OutstandingRuns(p.runs) == {};
  }

  /** `active_runs` never underflows: whoever decrements it finds it positive. */
  lemma ActiveNeverUnderflows(b: seq<Pipeline>, i: nat)
    requires Behavior(b) && i + 1 < |b|
    ensures b[i].active >= 0
    ensures b[i + 1].active < b[i].active ==> b[i].active > 0
  {
    hide Next, EntryInv, Behavior;
    BehaviorInv(b, i);
    BehaviorInv(b, i + 1);
  }

  /**
   `detach` returns only when no accepted run is live: every plan has handed out its callback,
   the callback has returned, and no job of any run is queued or running.
   */
  lemma DetachIsQuiescent(b: seq<Pipeline>, i: nat, id: nat)
    requires Behavior(b) && i + 1 < |b| && EndDetach(b[i], b[i + 1]) && id in b[i + 1].runs
    ensures var e := b[i + 1].runs[id];
            e.Aborted? || (e.Live? && e.returned && e.run.finished && ActiveNodes(e.run.phase) == {})
    ensures !b[i + 1].workers && b[i + 1].active == 0 && b[i + 1].runs == b[i].runs
  {
    hide Behavior, Next, Compiled, ListsInv, CountInv, ReadyInv, LogInv;
    BehaviorInv(b, i);
    var p := b[i];
    assert OutstandingRuns(p.runs) == {};
    assert id !in OutstandingRuns(p.runs);
    assert EntryInv(p.runs[id]);
    var e := p.runs[id];
    if e.Live? {
      assert ExecutionPlan.Inv(e.plan, e.run);
      assert DoneInv(e.plan, e.run);
      FinishedIsQuiet(e.plan, e.run);
    }
  }

  lemma FinishedIsQuiet(g: Graph, s: State)
    requires DoneInv(g, s) && s.finished
    ensures ActiveNodes(s.phase) == {}
  {
  }

  /** Attaching admits every submission while a plan is published; once detach has begun none is admitted. */
  lemma AdmissionFollowsAttachment(p: Pipeline, p': Pipeline, id: nat)
    requires id !in p.runs
    ensures Attach(p, p') && p.plan.Some? ==>
              exists q :: Reserve(p', q, id) && q.active == p.active + 1 && id in q.runs && q.runs[id] == Reserved(p.plan.value)
    ensures BeginDetach(p, p') ==> p'.runs == p.runs && p'.active == p.active && forall q :: !Reserve(p', q, id)
  {
    if Attach(p, p') && p.plan.Some? {
      var q := p'.(active := p'.active + 1, runs := p'.runs[id := Reserved(p.plan.value)]);
      assert Reserve(p', q, id);
    }
  }

  // ---------------------------------------------------------------- draining

  /** A step of one run: its submitter, one of its threads, or its callback. */
  ghost predicate OwnStep(p: Pipeline, p': Pipeline, id: nat) {
    Launch(p, p', id) || Abort(p, p', id) || Return(p, p', id) || exists run' :: RunStep(p, p', id, run')
  }

  ghost predicate SomeRunSteps(p: Pipeline, p': Pipeline) {
    exists id :: OwnStep(p, p', id)
  }

  /** What one accepted run may still do. */
  function EntryWork(e: Entry): nat {
    match e
    case Reserved(g) => Measure(Start(g).phase) + 2
    case Live(_, s, returned) => Measure(s.phase) + (if returned then 0 else 1)
    case Aborted => 0
  }

  /** What all runs together may still do. */
  ghost function Work(runs: map<nat, Entry>): nat {
    if runs == map[] then 0
    else
      var id :| id in runs;
      EntryWork(runs[id]) + Work(runs - {id})
  }

  /** The sum does not depend on the order in which runs are taken. */
  lemma {:induction false} WorkSplits(runs: map<nat, Entry>, id: nat)
    requires id in runs
    ensures Work(runs) == EntryWork(runs[id]) + Work(runs - {id})
    decreases |runs|
  {
    hide EntryWork;
    var first :| first in runs && Work(runs) == EntryWork(runs[first]) + Work(runs - {first});
    if first != id {
      WorkSplits(runs - {first}, id);
      WorkSplits(runs - {id}, first);
      assert runs - {first} - {id} == runs - {id} - {first};
    }
  }

  lemma WorkUpdate(runs: map<nat, Entry>, id: nat, e: Entry)
    requires id in runs
    ensures Work(runs[id := e]) + EntryWork(runs[id]) == Work(runs) + EntryWork(e)
  {
    hide EntryWork;
    WorkSplits(runs, id);
    WorkSplits(runs[id := e], id);
    assert runs[id := e] - {id} == runs - {id};
  }

  /** Every step of a run lowers the work. */
  lemma OwnStepLowersWork(p: Pipeline, p': Pipeline, id: nat)
    requires Inv(p) && OwnStep(p, p', id)
    ensures Work(p'.runs) < Work(p.runs)
  {
    hide ExecutionPlan.Inv, ExecutionPlan.Next, Compiled, Start, Measure, Work, OutstandingRuns;
    var e := p.runs[id];
    assert EntryInv(e);
    if run' :| RunStep(p, p', id, run') {
      StepsDecrease(e.plan, e.run, run');
    }
    WorkUpdate(p.runs, id, p'.runs[id]);
  }

  /** Steps that are not a run's own leave the runs alone, unless they admit a new one. */
  lemma OtherStepsKeepRuns(p: Pipeline, p': Pipeline)
    requires Next(p, p') && !p.accepting && !SomeRunSteps(p, p')
    ensures p'.runs == p.runs && p'.active == p.active
  {
    hide ExecutionPlan.Next, Start;
    forall id ensures !Launch(p, p', id) && !Abort(p, p', id) && !Return(p, p', id) {
      assert !OwnStep(p, p', id);
    }
    forall id, run' ensures !RunStep(p, p', id, run') {
      assert !OwnStep(p, p', id);
    }
  }

  /** Every outstanding run has a step of its own, and that step lowers the work. */
  lemma DrainMakesProgress(p: Pipeline, id: nat)
    requires Inv(p) && id in OutstandingRuns(p.runs)
    ensures exists p' :: OwnStep(p, p', id) && Next(p, p') && Work(p'.runs) < Work(p.runs) && p'.accepting == p.accepting
  {
    hide ExecutionPlan.Inv, ExecutionPlan.Next, Start, WellFormed, Acyclic, Work, Inv;
    var e := p.runs[id];
    assert EntryInv(e) by {
      EntryOf(p, id);
    }
    var p';
    if e.Reserved? {
      p' := p.(runs := p.runs[id := Live(e.plan, Start(e.plan), false)]);
      assert Launch(p, p', id);
    } else if e.run.finished {
      p' := p.(active := p.active - 1, runs := p.runs[id := Live(e.plan, e.run, true)]);
      assert Return(p, p', id);
    } else {
      Progress(e.plan, e.run);
      var run' :| ExecutionPlan.Next(e.plan, e.run, run');
      p' := p.(runs := p.runs[id := Live(e.plan, run', e.returned)]);
      assert RunStep(p, p', id, run');
    }
    assert OwnStep(p, p', id);
    OwnStepLowersWork(p, p', id);
  }

  lemma EntryOf(p: Pipeline, id: nat)
    requires Inv(p) && id in p.runs
    ensures EntryInv(p.runs[id])
  {
  }

  /** From `from` on the pipeline admits nothing: detach has begun and no attach followed. */
  ghost predicate Draining(b: seq<Pipeline>, from: nat) {
    forall i :: from <= i < |b| ==> !b[i].accepting
  }

  /** How many steps of runs the part of a behaviour from `from` up to `n` contains. */
  ghost function RunSteps(b: seq<Pipeline>, from: nat, n: nat): nat
    requires from <= n < |b|
    decreases n
  {
    if n == from then 0
    else RunSteps(b, from, n - 1) + (if SomeRunSteps(b[n - 1], b[n]) then 1 else 0)
  }

  /**
   Draining ends. Once detach has begun, at most as many steps of runs are left as the work at
   that moment, whatever else happens in between; while a run is outstanding each outstanding run
   can take one; and when none is outstanding detach can return.
   */
  lemma {:induction false} DrainIsBounded(b: seq<Pipeline>, from: nat, n: nat)
    requires Behavior(b) && from <= n < |b| && Draining(b, from)
    ensures RunSteps(b, from, n) + Work(b[n].runs) <= Work(b[from].runs)
    decreases n
  {
    hide Inv, Next, Init, Work, OwnStep;
    if from < n {
      DrainIsBounded(b, from, n - 1);
      BehaviorInv(b, n - 1);
      assert Next(b[n - 1], b[n - 1 + 1]);
      if SomeRunSteps(b[n - 1], b[n]) {
        var p, p' := b[n - 1], b[n];
        var id :| OwnStep(p, p', id);
        OwnStepLowersWork(p, p', id);
      } else {
        OtherStepsKeepRuns(b[n - 1], b[n]);
      }
    }
  }

  /** A drained behaviour that no run can continue is one in which detach may return. */
  lemma DrainedMayReturn(b: seq<Pipeline>, n: nat)
    requires Behavior(b) && n < |b| && b[n].draining
    requires forall id, p' :: id in b[n].runs && Outstanding(b[n].runs[id]) ==> !OwnStep(b[n], p', id)
    ensures b[n].active == 0 && exists p' :: EndDetach(b[n], p')
  {
    hide Behavior, Next, EntryInv, OwnStep, Compiled;
    BehaviorInv(b, n);
    var p := b[n];
    if id :| id in OutstandingRuns(p.runs) {
      DrainMakesProgress(p, id);
      assert false;
    }
    assert OutstandingRuns(p.runs) == {};
    assert EndDetach(p, p.(draining := false, workers := false));
  }
}
