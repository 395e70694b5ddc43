/**
 Bounded asynchronous delivery of one channel: producers, one delivery job, detachers and a worker
 pool that may refuse or lose jobs, interleaved at lock sections (utils/ipc/channel.cpp:133-273).
 */
module Channel {
  import opened Basics

  type Thread = nat

  /** Where a thread stands between two lock sections of this channel. */
  datatype Phase =
    | Idle
    | MustSchedule
    | Failing
    | Invoking(index: nat)
    | Returned
    | Rescheduling
    | Waiting

  datatype Chan<M> = Chan(
    // the object's fields
    depth: nat, attached: bool, workers: bool, destroying: bool, scheduled: bool, pending: seq<M>, dropped: nat,
    // threads inside its operations, and delivery jobs accepted by the pool
    phases: map<Thread, Phase>, queued: nat,
    // history: messages taken in, positions delivered, positions in a callback, messages cleared
    pushed: seq<M>, delivered: seq<nat>, inflight: set<nat>, discarded: nat, lost: bool)

  datatype Step<M> =
    | Attach
    | Enqueue(t: Thread, m: M)
    | Submit(t: Thread, accepted: bool)
    | Fail(t: Thread)
    | Begin(t: Thread)
    | Return(t: Thread)
    | Finish(t: Thread)
    | Detach(t: Thread)
    | Destroy(t: Thread)
    | DetachReturn(t: Thread)
    | LoseJob

  function At<M>(s: Chan<M>, t: Thread): Phase {
    if t in s.phases then s.phases[t] else Idle
  }

  function Move<M>(s: Chan<M>, t: Thread, p: Phase): Chan<M> {
    s.(phases := s.phases[t := p])
  }

  /** This thread is responsible for the one delivery. */
  predicate Holds(p: Phase) {
    p.MustSchedule? || p.Failing? || p.Invoking? || p.Returned? || p.Rescheduling?
  }

  /** A thread in a callback may call back into the channel. */
  predicate MayCall(p: Phase) {
    p.Idle? || p.Invoking?
  }

  /** `pending.clear()`. */
  function Clear<M>(s: Chan<M>): Chan<M> {
    s.(pending := [], discarded := s.discarded + |s.pending|)
  }

  /** The retaining part of `enqueue`: evict the oldest at the limit, then append. */
  function Push<M>(s: Chan<M>, m: M): Chan<M>
    requires s.depth > 0
  {
    var kept := if |s.pending| == s.depth then s.(pending := s.pending[1..], dropped := s.dropped + 1) else s;
    kept.(pending := kept.pending + [m], pushed := kept.pushed + [m])
  }

  predicate Enabled<M>(s: Chan<M>, step: Step<M>) {
    match step
    case Attach => true
    case Enqueue(t, _) => MayCall(At(s, t))
    case Submit(t, _) => At(s, t).MustSchedule? || At(s, t).Rescheduling?
    case Fail(t) => At(s, t).Failing?
    case Begin(t) => s.queued > 0 && At(s, t).Idle?
    case Return(t) => At(s, t).Invoking?
    case Finish(t) => At(s, t).Returned?
    case Detach(t) => MayCall(At(s, t))
    case Destroy(t) => MayCall(At(s, t))
    case DetachReturn(t) => At(s, t).Waiting? && !s.scheduled
    case LoseJob => s.queued > 0
  }

  /** One lock section, or one step of the pool. */
  function Apply<M>(s: Chan<M>, step: Step<M>): Chan<M>
    requires Enabled(s, step) && s.depth > 0 && |s.pending| <= |s.pushed|
  {
    match step
    case Attach =>
      if s.destroying || s.attached then s else s.(attached := true, workers := true)
    case Enqueue(t, m) =>
      if s.destroying || !s.attached then s
      else
        var kept := Push(s, m);
        if kept.scheduled then kept
        else if !kept.workers then Clear(kept)
        else Move(kept.(scheduled := true), t, MustSchedule)
    case Submit(t, accepted) =>
      if accepted then Move(s, t, Idle).(queued := s.queued + 1) else Move(s, t, Failing)
    case Fail(t) => Move(Clear(s).(scheduled := false), t, Idle)
    case Begin(t) =>
      var taken := s.(queued := s.queued - 1);
      if s.destroying || !s.attached || s.pending == [] then taken.(scheduled := false)
      else
        var index := |s.pushed| - |s.pending|;
        Move(taken.(pending := s.pending[1..], inflight := s.inflight + {index}), t, Invoking(index))
    case Return(t) =>
      var index := At(s, t).index;
      Move(s.(delivered := s.delivered + [index], inflight := s.inflight - {index}), t, Returned)
    case Finish(t) =>
      if s.destroying || !s.attached || s.pending == [] then Move(s.(scheduled := false), t, Idle)
      else if !s.workers then Move(Clear(s).(scheduled := false), t, Idle)
      else Move(s, t, Rescheduling)
    case Detach(t) =>
      var cleared := Clear(s).(attached := false, workers := false);
      if At(s, t).Invoking? then cleared else Move(cleared, t, Waiting)
    case Destroy(t) =>
      var cleared := Clear(s).(destroying := true, attached := false, workers := false);
      if At(s, t).Invoking? then cleared else Move(cleared, t, Waiting)
    case DetachReturn(t) => Move(s, t, Idle)
    case LoseJob => s.(queued := s.queued - 1, lost := true)
  }

  ghost predicate Init<M>(s: Chan<M>) {
    && s.depth > 0 && !s.attached && !s.workers && !s.destroying && !s.scheduled && s.pending == [] && s.dropped == 0
    && s.phases == map[] && s.queued == 0
    && s.pushed == [] && s.delivered == [] && s.inflight == {} && s.discarded == 0 && !s.lost
  }

  // -------------------------------------------------------------- invariants

  /** At most one delivery token, and whoever has it is announced by `delivery_scheduled`. */
  ghost predicate TokenInv<M>(s: Chan<M>) {
    && s.queued <= 1 && (s.queued == 1 ==> s.scheduled)
    && (forall t :: Holds(At(s, t)) ==> s.scheduled && s.queued == 0)
    && (forall t, u :: Holds(At(s, t)) && Holds(At(s, u)) ==> t == u)
    && (s.scheduled && !s.lost ==> s.queued == 1 || exists t :: Holds(At(s, t)))
  }

  /** `pending` is the newest part of what was pushed, within the depth. */
  ghost predicate QueueInv<M>(s: Chan<M>) {
    && 0 < s.depth && |s.pending| <= s.depth && |s.pending| <= |s.pushed|
    && s.pending == s.pushed[|s.pushed| - |s.pending|..]
    && (s.attached ==> s.workers && !s.destroying) && (!s.attached ==> s.pending == [])
  }

  predicate Increasing(s: seq<nat>) {
    forall i, j :: 0 <= i < j < |s| ==> s[i] < s[j]
  }

  /** Callbacks see messages in push order, one at a time. */
  ghost predicate OrderInv<M>(s: Chan<M>) {
    && Increasing(s.delivered) && |s.inflight| <= 1 && |s.pending| <= |s.pushed|
    && (forall i :: 0 <= i < |s.delivered| ==> s.delivered[i] < |s.pushed| - |s.pending|)
    && (forall x :: x in s.inflight ==> x < |s.pushed| - |s.pending|)
    && (forall x, i :: x in s.inflight && 0 <= i < |s.delivered| ==> s.delivered[i] < x)
    && (forall t {:trigger At(s, t)} :: At(s, t).Invoking? ==> s.inflight == {At(s, t).index})
    && (s.inflight != {} ==> exists t :: At(s, t).Invoking?)
  }

  /** Every message taken in is in exactly one place. */
  ghost predicate Conserved<M>(s: Chan<M>) {
    |s.pushed| == |s.delivered| + |s.inflight| + s.dropped + s.discarded + |s.pending|
  }

  /** Nothing is retained without a delivery being scheduled. */
  ghost predicate Announced<M>(s: Chan<M>) {
    s.pending != [] ==> s.scheduled
  }

  ghost predicate Inv<M>(s: Chan<M>) {
    TokenInv(s) && QueueInv(s) && OrderInv(s) && Conserved(s) && Announced(s)
  }

  lemma InitInv<M>(s: Chan<M>)
    requires Init(s)
    ensures Inv(s)
  {
  }

  lemma TokenStep<M>(s: Chan<M>, step: Step<M>)
    requires Inv(s) && Enabled(s, step)
    ensures TokenInv(Apply(s, step))
  {
    hide OrderInv, Conserved, QueueInv, TokenInv, Apply, Enabled;
    SizesOf(s);
    match step
    case Enqueue(t, m) => TokenEnqueue(s, t, m);
    case Begin(t) => TokenBegin(s, t);
    case Finish(t) => TokenFinish(s, t);
    case Submit(t, accepted) => TokenSubmit(s, t, accepted);
    case Return(t) => TokenReturn(s, t);
    case Fail(t) => TokenFail(s, t);
    case Detach(t) => TokenDetach(s, t, false);
    case Destroy(t) => TokenDetach(s, t, true);
    case _ => TokenPassive(s, step);
  }

  lemma TokenSubmit<M>(s: Chan<M>, t: Thread, accepted: bool)
    requires Inv(s) && Enabled(s, Submit(t, accepted))
    ensures TokenInv(Apply(s, Submit(t, accepted)))
  {
    hide OrderInv, Conserved;
    var s' := Apply(s, Submit(t, accepted));
    assert Holds(At(s, t));
    assert forall u :: At(s', u) == if u == t then (if accepted then Idle else Failing) else At(s, u);
    assert accepted || Holds(At(s', t));
  }

  lemma TokenReturn<M>(s: Chan<M>, t: Thread)
    requires Inv(s) && Enabled(s, Return(t))
    ensures TokenInv(Apply(s, Return(t)))
  {
    hide OrderInv, Conserved;
    var s' := Apply(s, Return(t));
    assert Holds(At(s, t));
    assert forall u :: At(s', u) == if u == t then Returned else At(s, u);
    assert Holds(At(s', t));
  }

  lemma TokenFail<M>(s: Chan<M>, t: Thread)
    requires Inv(s) && Enabled(s, Fail(t))
    ensures TokenInv(Apply(s, Fail(t)))
  {
    hide OrderInv, Conserved;
    var s' := Apply(s, Fail(t));
    assert Holds(At(s, t));
    assert forall u :: At(s', u) == if u == t then Idle else At(s, u);
  }

  lemma TokenPassive<M>(s: Chan<M>, step: Step<M>)
    requires Inv(s) && Enabled(s, step) && (step.Attach? || step.LoseJob? || step.DetachReturn?)
    ensures TokenInv(Apply(s, step))
  {
    hide OrderInv, Conserved;
    var s' := Apply(s, step);
    forall u ensures Holds(At(s', u)) <==> Holds(At(s, u)) {
    }
    if h :| Holds(At(s, h)) {
      assert Holds(At(s', h));
    }
  }

  lemma TokenEnqueue<M>(s: Chan<M>, t: Thread, m: M)
    requires Inv(s) && Enabled(s, Enqueue(t, m))
    ensures TokenInv(Apply(s, Enqueue(t, m)))
  {
    hide OrderInv, Conserved;
    var s' := Apply(s, Enqueue(t, m));
    if s.destroying || !s.attached || s.scheduled {
      assert forall u :: At(s', u) == At(s, u);
    } else {
      assert forall u :: At(s', u) == if u == t then MustSchedule else At(s, u);
      assert Holds(At(s', t));
    }
  }

  lemma TokenBegin<M>(s: Chan<M>, t: Thread)
    requires Inv(s) && Enabled(s, Begin(t))
    ensures TokenInv(Apply(s, Begin(t)))
  {
    hide OrderInv, Conserved;
    var s' := Apply(s, Begin(t));
    if s.destroying || !s.attached || s.pending == [] {
      assert forall u :: At(s', u) == At(s, u);
    } else {
      assert forall u :: u != t ==> At(s', u) == At(s, u);
      assert Holds(At(s', t));
    }
  }

  lemma TokenFinish<M>(s: Chan<M>, t: Thread)
    requires Inv(s) && Enabled(s, Finish(t))
    ensures TokenInv(Apply(s, Finish(t)))
  {
    hide OrderInv, Conserved;
    var s' := Apply(s, Finish(t));
    assert Holds(At(s, t));
    if s.destroying || !s.attached || s.pending == [] {
      assert forall u :: At(s', u) == if u == t then Idle else At(s, u);
    } else {
      assert forall u :: At(s', u) == if u == t then Rescheduling else At(s, u);
      assert Holds(At(s', t));
    }
  }

  /** Detaching leaves the token where it is. */
  lemma TokenDetach<M>(s: Chan<M>, t: Thread, destroy: bool)
    requires Inv(s) && Enabled(s, if destroy then Destroy(t) else Detach(t))
    ensures TokenInv(Apply(s, if destroy then Destroy(t) else Detach(t)))
  {
    hide OrderInv, Conserved;
    var s' := Apply(s, if destroy then Destroy(t) else Detach(t));
    forall u ensures Holds(At(s', u)) <==> Holds(At(s, u)) {
    }
    if h :| Holds(At(s, h)) {
      assert Holds(At(s', h));
    }
  }

  lemma QueueStep<M>(s: Chan<M>, step: Step<M>)
    requires QueueInv(s) && Enabled(s, step)
    ensures QueueInv(Apply(s, step))
  {
    hide QueueInv, Apply, Enabled;
    SizesOf(s);
    match step
    case Enqueue(t, m) => QueueEnqueue(s, t, m);
    case Begin(t) => QueueBegin(s, t);
    case Attach => QueueAttach(s);
    case Submit(t, accepted) => QueueSubmit(s, t, accepted);
    case Fail(t) => QueueClears(s, step, t);
    case Return(t) => QueueKeeps(s, step, t);
    case Finish(t) => QueueClears(s, step, t);
    case Detach(t) => QueueDetach(s, step, t);
    case Destroy(t) => QueueDetach(s, step, t);
    case DetachReturn(t) => QueueKeeps(s, step, t);
    case LoseJob => QueueKeeps(s, step, 0);
  }

  lemma QueueSubmit<M>(s: Chan<M>, t: Thread, accepted: bool)
    requires QueueInv(s) && Enabled(s, Submit(t, accepted))
    ensures QueueInv(Apply(s, Submit(t, accepted)))
  {
    hide QueueInv;
    SizesOf(s);
    QueueQuiet(s, Apply(s, Submit(t, accepted)));
  }

  lemma QueueKeeps<M>(s: Chan<M>, step: Step<M>, t: Thread)
    requires QueueInv(s) && Enabled(s, step) && (step == Return(t) || step == DetachReturn(t) || step == LoseJob)
    ensures QueueInv(Apply(s, step))
  {
    hide QueueInv;
    SizesOf(s);
    QueueQuiet(s, Apply(s, step));
  }

  lemma QueueClears<M>(s: Chan<M>, step: Step<M>, t: Thread)
    requires QueueInv(s) && Enabled(s, step) && (step == Fail(t) || step == Finish(t))
    ensures QueueInv(Apply(s, step))
  {
    hide QueueInv;
    SizesOf(s);
    QueueQuiet(s, Apply(s, step));
  }

  lemma QueueDetach<M>(s: Chan<M>, step: Step<M>, t: Thread)
    requires QueueInv(s) && Enabled(s, step) && (step == Detach(t) || step == Destroy(t))
    ensures QueueInv(Apply(s, step))
  {
    hide QueueInv;
    SizesOf(s);
    QueueQuiet(s, Apply(s, step));
  }

  /** Steps that keep the retained messages or clear them. */
  lemma QueueQuiet<M>(s: Chan<M>, s': Chan<M>)
    requires QueueInv(s) && s'.depth == s.depth && s'.pushed == s.pushed
    requires s'.pending == s.pending || s'.pending == []
    requires (s'.attached == s.attached && s'.workers == s.workers && s'.destroying == s.destroying)
             || (!s'.attached && s'.pending == [])
    ensures QueueInv(s')
  {
    assert s.pushed[|s.pushed|..] == [];
  }

  lemma QueueAttach<M>(s: Chan<M>)
    requires QueueInv(s)
    ensures QueueInv(Apply(s, Attach))
  {
  }

  lemma QueueEnqueue<M>(s: Chan<M>, t: Thread, m: M)
    requires QueueInv(s) && Enabled(s, Enqueue(t, m))
    ensures QueueInv(Apply(s, Enqueue(t, m)))
  {
    hide Push;
    PushKeepsNewest(s, m);
  }

  lemma QueueBegin<M>(s: Chan<M>, t: Thread)
    requires QueueInv(s) && Enabled(s, Begin(t))
    ensures QueueInv(Apply(s, Begin(t)))
  {
    var s' := Apply(s, Begin(t));
    if s.pending != [] {
      assert s.pending[1..] == s.pushed[|s.pushed| - |s.pending| + 1..];
    }
  }

  lemma PushKeepsNewest<M>(s: Chan<M>, m: M)
    requires QueueInv(s)
    ensures var k := Push(s, m);
            && k == s.(pending := k.pending, pushed := k.pushed, dropped := k.dropped)
            && |k.pending| <= k.depth && |k.pending| <= |k.pushed| && k.pending == k.pushed[|k.pushed| - |k.pending|..]
            && |k.pushed| - |k.pending| >= |s.pushed| - |s.pending|
            && |k.pushed| - k.dropped - |k.pending| == |s.pushed| - s.dropped - |s.pending|
  {
    var kept := if |s.pending| == s.depth then s.pending[1..] else s.pending;
    assert kept == s.pushed[|s.pushed| - |kept|..];
    assert (s.pushed + [m])[|s.pushed| - |kept|..] == kept + [m];
  }

  lemma OrderStep<M>(s: Chan<M>, step: Step<M>)
    requires Inv(s) && Enabled(s, step)
    ensures OrderInv(Apply(s, step)) && Conserved(Apply(s, step))
  {
    hide OrderInv, TokenInv, QueueInv, Conserved, Apply, Enabled;
    SizesOf(s);
    match step
    case Enqueue(t, m) => OrderEnqueue(s, t, m);
    case Begin(t) => OrderBegin(s, t);
    case Return(t) => OrderReturn(s, t);
    case Fail(t) => OrderPassive(s, step, t);
    case Submit(t, accepted) => OrderPassive(s, step, t);
    case Finish(t) => OrderPassive(s, step, t);
    case Detach(t) => OrderDetach(s, step, t);
    case Destroy(t) => OrderDetach(s, step, t);
    case DetachReturn(t) => OrderPassive(s, step, t);
    case Attach => OrderPassive(s, step, 0);
    case LoseJob => OrderPassive(s, step, 0);
  }

  lemma OrderPassive<M>(s: Chan<M>, step: Step<M>, t: Thread)
    requires Inv(s) && Enabled(s, step)
    requires step in {Submit(t, true), Submit(t, false), Fail(t), Finish(t), DetachReturn(t), Attach, LoseJob}
    ensures OrderInv(Apply(s, step)) && Conserved(Apply(s, step))
  {
    hide OrderInv, TokenInv, QueueInv;
    SizesOf(s);
    SameCallbacks(s, Apply(s, step), t);
  }

  lemma OrderDetach<M>(s: Chan<M>, step: Step<M>, t: Thread)
    requires Inv(s) && Enabled(s, step) && (step == Detach(t) || step == Destroy(t))
    ensures OrderInv(Apply(s, step)) && Conserved(Apply(s, step))
  {
    hide OrderInv, TokenInv, QueueInv;
    SizesOf(s);
    SameCallbacks(s, Apply(s, step), t);
  }

  /** Steps that neither enter nor leave a callback. */
  lemma SameCallbacks<M>(s: Chan<M>, s': Chan<M>, t: Thread)
    requires OrderInv(s) && Conserved(s) && s'.delivered == s.delivered && s'.inflight == s.inflight
    requires |s'.pending| <= |s'.pushed| && |s.pushed| - |s.pending| <= |s'.pushed| - |s'.pending|
    requires |s'.pushed| - s'.dropped - s'.discarded - |s'.pending| == |s.pushed| - s.dropped - s.discarded - |s.pending|
    requires s'.phases == s.phases || (s'.phases == s.phases[t := At(s', t)] && !At(s, t).Invoking? && !At(s', t).Invoking?)
    ensures OrderInv(s') && Conserved(s')
  {
    assert forall u :: At(s, u).Invoking? || At(s', u).Invoking? ==> At(s', u) == At(s, u);
    if s.inflight != {} {
      var u :| At(s, u).Invoking?;
      assert At(s', u).Invoking?;
    }
  }

  lemma OrderEnqueue<M>(s: Chan<M>, t: Thread, m: M)
    requires Inv(s) && Enabled(s, Enqueue(t, m))
    ensures OrderInv(Apply(s, Enqueue(t, m))) && Conserved(Apply(s, Enqueue(t, m)))
  {
    hide OrderInv, Push;
    var s' := Apply(s, Enqueue(t, m));
    PushKeepsNewest(s, m);
    assert Holds(At(s, t)) ==> s.scheduled;
    SameCallbacks(s, s', t);
  }

  /** A callback gets the oldest retained message, younger than everything delivered. */
  lemma OrderBegin<M>(s: Chan<M>, t: Thread)
    requires Inv(s) && Enabled(s, Begin(t))
    ensures OrderInv(Apply(s, Begin(t))) && Conserved(Apply(s, Begin(t)))
  {
    var s' := Apply(s, Begin(t));
    if s.destroying || !s.attached || s.pending == [] {
      SameCallbacks(s, s', t);
    } else {
      NobodyInvoking(s);
      assert forall u :: u != t ==> At(s', u) == At(s, u);
      assert At(s', t).Invoking?;
    }
  }

  lemma NobodyInvoking<M>(s: Chan<M>)
    requires TokenInv(s) && OrderInv(s) && s.queued > 0
    ensures s.inflight == {} && forall t :: !At(s, t).Invoking?
  {
    forall t ensures !At(s, t).Invoking? {
      assert !Holds(At(s, t));
    }
  }

  lemma OrderReturn<M>(s: Chan<M>, t: Thread)
    requires Inv(s) && Enabled(s, Return(t))
    ensures OrderInv(Apply(s, Return(t))) && Conserved(Apply(s, Return(t)))
  {
    var s' := Apply(s, Return(t));
    assert s.inflight == {At(s, t).index} && s'.inflight == {};
    forall u ensures !At(s', u).Invoking? {
      assert u != t ==> At(s', u) == At(s, u);
      assert Holds(At(s, t)) && (At(s, u).Invoking? ==> Holds(At(s, u)));
    }
  }

  lemma AnnouncedStep<M>(s: Chan<M>, step: Step<M>)
    requires QueueInv(s) && Announced(s) && Enabled(s, step)
    ensures Announced(Apply(s, step))
  {
    hide Push;
    if step.Enqueue? {
      PushedIsScheduled(s, step.t, step.m);
    }
  }

  lemma PushedIsScheduled<M>(s: Chan<M>, t: Thread, m: M)
    requires QueueInv(s) && Enabled(s, Enqueue(t, m)) && Announced(s)
    ensures Announced(Apply(s, Enqueue(t, m)))
  {
  }

  /** Every step keeps every invariant. */
  lemma StepInv<M>(s: Chan<M>, step: Step<M>)
    requires Inv(s) && Enabled(s, step)
    ensures Inv(Apply(s, step))
  {
    hide TokenInv, QueueInv, OrderInv, Conserved, Announced, Apply, Enabled;
    assert s.depth > 0 && |s.pending| <= |s.pushed| by {
      SizesOf(s);
    }
    AnnouncedStep(s, step);
    TokenStep(s, step);
    QueueStep(s, step);
    OrderStep(s, step);
  }

  lemma SizesOf<M>(s: Chan<M>)
    requires QueueInv(s)
    ensures s.depth > 0 && |s.pending| <= |s.pushed|
  {
  }

  // ------------------------------------------------------------------- runs

  /** A run of the channel from creation, with the steps between its states. */
  ghost predicate Run<M>(states: seq<Chan<M>>, steps: seq<Step<M>>) {
    && |states| == |steps| + 1 && Init(states[0])
    && forall i :: 0 <= i < |steps| ==> Happens(states[i], steps[i], states[i + 1])
  }

  ghost predicate Happens<M>(s: Chan<M>, step: Step<M>, s': Chan<M>) {
    s.depth > 0 && |s.pending| <= |s.pushed| && Enabled(s, step) && s' == Apply(s, step)
  }

  lemma {:induction false} RunInv<M>(states: seq<Chan<M>>, steps: seq<Step<M>>, n: nat)
    requires Run(states, steps) && n < |states|
    ensures Inv(states[n])
  {
    hide Inv, Apply, Enabled, Init;
    if n == 0 {
      InitInv(states[0]);
    } else {
      RunInv(states, steps, n - 1);
      assert Happens(states[n - 1], steps[n - 1], states[n - 1 + 1]);
      StepInv(states[n - 1], steps[n - 1]);
    }
  }

  lemma StepGrows<M>(s: Chan<M>, step: Step<M>)
    requires s.depth > 0 && |s.pending| <= |s.pushed| && Enabled(s, step)
    ensures s.pushed <= Apply(s, step).pushed && s.delivered <= Apply(s, step).delivered
  {
    hide Push;
    if step.Enqueue? {
      PushGrows(s, step.m);
    }
  }

  lemma PushGrows<M>(s: Chan<M>, m: M)
    requires s.depth > 0
    ensures s.pushed <= Push(s, m).pushed && s.delivered == Push(s, m).delivered
  {
  }

  /** Histories only grow. */
  lemma {:induction false} HistoryGrows<M>(states: seq<Chan<M>>, steps: seq<Step<M>>, m: nat, n: nat)
    requires Run(states, steps) && m <= n < |states|
    ensures states[m].pushed <= states[n].pushed && states[m].delivered <= states[n].delivered
    decreases n
  {
    hide Apply, Enabled, Init;
    if m < n {
      HistoryGrows(states, steps, m, n - 1);
      assert Happens(states[n - 1], steps[n - 1], states[n - 1 + 1]);
      StepGrows(states[n - 1], steps[n - 1]);
    }
  }

  /** At most one delivery exists at any moment of any run: one accepted job, or one thread. */
  lemma SingleToken<M>(states: seq<Chan<M>>, steps: seq<Step<M>>, n: nat, t: Thread, u: Thread)
    requires Run(states, steps) && n < |states| && Holds(At(states[n], t))
    ensures states[n].queued == 0 && states[n].scheduled && (Holds(At(states[n], u)) ==> t == u)
  {
    hide Run;
    RunInv(states, steps, n);
  }

  /**
   At any moment of any run: retained messages are the newest pushed ones, at most `depth`;
   callbacks received a subsequence of the pushed messages in push order, and what is being
   delivered comes after; and nothing is lost or counted twice.
   */
  lemma DeliveryInOrder<M>(states: seq<Chan<M>>, steps: seq<Step<M>>, n: nat)
    requires Run(states, steps) && n < |states|
    ensures var s := states[n];
            && |s.pending| <= s.depth && |s.pending| <= |s.pushed| && s.pending == s.pushed[|s.pushed| - |s.pending|..]
            && Increasing(s.delivered) && (forall i :: 0 <= i < |s.delivered| ==> s.delivered[i] < |s.pushed| - |s.pending|)
            && (forall x, i :: x in s.inflight && 0 <= i < |s.delivered| ==> s.delivered[i] < x < |s.pushed| - |s.pending|)
            && |s.pushed| == |s.delivered| + |s.inflight| + s.dropped + s.discarded + |s.pending|
  {
    hide Run;
    RunInv(states, steps, n);
  }

  /** A callback is handed the message at its position, and the one it was handed is recorded when it returns. */
  lemma CallbackGetsOldest<M>(states: seq<Chan<M>>, steps: seq<Step<M>>, n: nat, t: Thread)
    requires Run(states, steps) && n + 1 < |states| && steps[n] == Begin(t) && At(states[n + 1], t).Invoking?
    ensures states[n].pending != [] && At(states[n + 1], t).index < |states[n].pushed|
    ensures states[n].pushed[At(states[n + 1], t).index] == states[n].pending[0]
  {
    RunInv(states, steps, n);
    assert Happens(states[n], steps[n], states[n + 1]);
  }

  /** The newest `n` of a sequence, or all of it. */
  function Newest<M>(s: seq<M>, n: nat): seq<M> {
    if |s| <= n then s else s[|s| - n..]
  }

  /** While attached, every message is taken in, the newest `depth` retained ones stay, and a delivery is scheduled. */
  lemma EnqueueRetains<M>(states: seq<Chan<M>>, steps: seq<Step<M>>, n: nat, t: Thread, m: M)
    requires Run(states, steps) && n + 1 < |states| && steps[n] == Enqueue(t, m)
    ensures var s, s' := states[n], states[n + 1];
            if s.attached && !s.destroying then
              && s'.pushed == s.pushed + [m] && s'.pending == Newest(s.pending + [m], s.depth) && s'.scheduled
              && s'.dropped == s.dropped + (if |s.pending| == s.depth then 1 else 0)
              && (s.scheduled ==> At(s', t) == At(s, t)) && (!s.scheduled ==> At(s', t).MustSchedule?)
            else s' == s
  {
    RunInv(states, steps, n);
    assert Happens(states[n], steps[n], states[n + 1]);
    hide Run, TokenInv, OrderInv, Conserved;
  }

  /** A delivery job that finds a retained message on an attached channel hands it to the callback; the callback's return is recorded. */
  lemma BeginDelivers<M>(states: seq<Chan<M>>, steps: seq<Step<M>>, n: nat, t: Thread)
    requires Run(states, steps) && n + 1 < |states|
    ensures steps[n] == Begin(t) && states[n].pending != [] ==>
              At(states[n + 1], t) == Invoking(|states[n].pushed| - |states[n].pending|)
              && states[n + 1].pending == states[n].pending[1..]
    ensures steps[n] == Return(t) ==>
              At(states[n], t).Invoking? && states[n + 1].delivered == states[n].delivered + [At(states[n], t).index]
  {
    RunInv(states, steps, n);
    assert Happens(states[n], steps[n], states[n + 1]);
    hide Run, TokenInv, OrderInv, Conserved;
  }

  /** No message is stranded: while one is retained and no job was lost, a job or a thread is on its way to deliver it. */
  lemma NothingStranded<M>(states: seq<Chan<M>>, steps: seq<Step<M>>, n: nat)
    requires Run(states, steps) && n < |states| && states[n].pending != [] && !states[n].lost
    ensures states[n].attached && (states[n].queued == 1 || exists t :: Holds(At(states[n], t)))
  {
    hide Run, OrderInv, Conserved;
    RunInv(states, steps, n);
  }

  /** Attaching opens the channel unless it is being destroyed; detaching and destroying close it and discard what is retained. */
  lemma AttachOpensDetachCloses<M>(states: seq<Chan<M>>, steps: seq<Step<M>>, n: nat)
    requires Run(states, steps) && n + 1 < |states|
    ensures steps[n].Attach? ==> states[n + 1].attached == !states[n].destroying && states[n + 1].pending == states[n].pending
    ensures steps[n].Detach? || steps[n].Destroy? ==>
              && !states[n + 1].attached && states[n + 1].pending == []
              && states[n + 1].discarded == states[n].discarded + |states[n].pending|
              && (At(states[n], steps[n].t).Invoking? || At(states[n + 1], steps[n].t).Waiting?)
    ensures steps[n].Destroy? ==> states[n + 1].destroying
  {
    RunInv(states, steps, n);
    assert Happens(states[n], steps[n], states[n + 1]);
    hide Run, TokenInv, OrderInv, Conserved;
  }

  /** Once destruction has begun nothing is ever attached, taken in or retained again. */
  lemma {:induction false} DestroyedForGood<M>(states: seq<Chan<M>>, steps: seq<Step<M>>, m: nat, n: nat)
    requires Run(states, steps) && m <= n < |states| && states[m].destroying
    ensures states[n].destroying && !states[n].attached && states[n].pending == [] && states[n].pushed == states[m].pushed
    decreases n
  {
    hide Apply, Enabled, Init, TokenInv, OrderInv, Conserved;
    RunInv(states, steps, n);
    if m < n {
      DestroyedForGood(states, steps, m, n - 1);
      assert Happens(states[n - 1], steps[n - 1], states[n - 1 + 1]);
      StaysDestroyed(states[n - 1], steps[n - 1]);
    }
  }

  lemma StaysDestroyed<M>(s: Chan<M>, step: Step<M>)
    requires s.depth > 0 && |s.pending| <= |s.pushed| && s.destroying && Enabled(s, step)
    ensures Apply(s, step).destroying && Apply(s, step).pushed == s.pushed
  {
    hide Push;
  }

  /** A detach that is not called from the callback returns only when no callback is running and none can begin. */
  lemma DetachIsQuiet<M>(states: seq<Chan<M>>, steps: seq<Step<M>>, n: nat, t: Thread, u: Thread)
    requires Run(states, steps) && n + 1 < |states| && steps[n] == DetachReturn(t)
    ensures !Holds(At(states[n], u)) && !At(states[n + 1], u).Invoking?
    ensures states[n + 1].queued == 0 && states[n + 1].inflight == {}
  {
    RunInv(states, steps, n);
    RunInv(states, steps, n + 1);
    assert Happens(states[n], steps[n], states[n + 1]);
    var s, s' := states[n], states[n + 1];
    assert !Holds(At(s, u));
    assert At(s', u) == if u == t then Idle else At(s, u);
    forall h ensures !At(s', h).Invoking? {
      assert !Holds(At(s', h));
    }
  }

  // ---------------------------------------------------------------- draining

  /** Steps left to the token of a detached channel. */
  ghost function Work<M>(s: Chan<M>, h: Option<Thread>): nat {
    match h
    case None => 1
    case Some(t) => match At(s, t)
                    case MustSchedule => 2
                    case Rescheduling => 2
                    case Invoking(_) => 2
                    case Returned => 1
                    case Failing => 1
                    case _ => 0
  }

  /** The step the token takes next; the pool accepts, which is the longer way. */
  ghost function TokenStepOf<M>(s: Chan<M>, h: Option<Thread>, worker: Thread, accepted: bool): Step<M> {
    match h
    case None => Begin(worker)
    case Some(t) => match At(s, t)
                    case Invoking(_) => Return(t)
                    case Returned => Finish(t)
                    case Failing => Fail(t)
                    case _ => Submit(t, accepted)
  }

  /** Who has the token: a thread, or the pool. */
  ghost predicate Token<M>(s: Chan<M>, h: Option<Thread>) {
    match h case None => s.queued == 1 case Some(t) => Holds(At(s, t))
  }

  /**
   While a detached channel still waits and no job was lost, its token can step, and every token
   step either ends the wait or leaves less to do: a detach cannot wait forever.
   */
  lemma DetachedDrains<M>(s: Chan<M>, worker: Thread, accepted: bool)
    requires Inv(s) && !s.attached && s.scheduled && !s.lost && At(s, worker).Idle?
    ensures exists h :: Token(s, h) && DrainsBy(s, h, worker, accepted)
  {
    hide OrderInv, Conserved;
    if s.queued == 1 {
      assert Token(s, None);
      assert DrainsBy(s, None, worker, accepted);
    } else {
      var t :| Holds(At(s, t));
      assert Token(s, Some(t));
      ThreadDrains(s, t, worker, accepted);
    }
  }

  ghost predicate DrainsBy<M>(s: Chan<M>, h: Option<Thread>, worker: Thread, accepted: bool)
    requires s.depth > 0 && |s.pending| <= |s.pushed|
  {
    var step := TokenStepOf(s, h, worker, accepted);
    && Enabled(s, step)
    && var s' := Apply(s, step);
       !s'.scheduled || exists h' :: Token(s', h') && Work(s', h') < Work(s, h)
  }

  lemma ThreadDrains<M>(s: Chan<M>, t: Thread, worker: Thread, accepted: bool)
    requires Inv(s) && !s.attached && Holds(At(s, t))
    ensures DrainsBy(s, Some(t), worker, accepted)
  {
    hide OrderInv, Conserved;
    var step := TokenStepOf(s, Some(t), worker, accepted);
    var s' := Apply(s, step);
    assert s.queued == 0;
    if s'.scheduled {
      if s'.queued == 1 {
        assert Token(s', None) && Work(s', None) < Work(s, Some(t));
      } else {
        assert Token(s', Some(t)) && Work(s', Some(t)) < Work(s, Some(t));
      }
    }
  }
}
