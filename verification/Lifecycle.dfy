/**
 The subsystem lifecycle: what every hook may rely on, whatever hooks fail
 (state/state.cpp:66-244, 266-408).
 */
module Lifecycle {
  import opened Basics

  type Id = nat

  datatype State = Uninitialized | Initialized | Running | Stopped | Terminated | Crashed

  datatype Status =
    | Ok | InvalidArgument | DuplicateSubsystem | DuplicateSubsystemName | MissingDependency | DuplicateDependency
    | DependencyCycle | RegistrationFrozen | InvalidTransition | SubsystemFailure | InternalError

  datatype Hook = OnInitialize | OnStart | OnStop | OnTerminate

  /** One hook call with the flags it found; `bestEffort` marks the calls of `terminate`. */
  datatype Event = Event(hook: Hook, id: Id, status: Status, bestEffort: bool, initialized: set<Id>, started: set<Id>)

  type Dependencies = map<Id, seq<Id>>

  /** Every dependency of a member is a member. */
  ghost predicate Closed(deps: Dependencies, s: set<Id>) {
    forall v, u {:trigger u in deps[v]} :: v in s && v in deps && u in deps[v] ==> u in s
  }

  ghost predicate FailedBefore(trace: seq<Event>, hook: Hook, v: Id) {
    exists y :: 0 <= y < |trace| && trace[y].hook == hook && trace[y].id == v && trace[y].status != Ok
  }

  /** No call of `terminate` has begun. */
  ghost predicate Orderly(trace: seq<Event>) {
    forall y :: 0 <= y < |trace| ==> !trace[y].bestEffort
  }

  /** A dependent in `s` is there only because teardown already failed on it. */
  ghost predicate OnlyFailedDependents(deps: Dependencies, s: set<Id>, before: seq<Event>, e: Event) {
    forall v :: v in deps && e.id in deps[v] && v in s ==> e.bestEffort && FailedBefore(before, e.hook, v)
  }

  /** The flags that a history of hooks leaves: a hook counts when it succeeded. */
  function Flags(trace: seq<Event>): (set<Id>, set<Id>) {
    if trace == [] then ({}, {})
    else
      var (i, s) := Flags(trace[..|trace| - 1]);
      var e := trace[|trace| - 1];
      if e.status != Ok then (i, s)
      else match e.hook
           case OnInitialize => (i + {e.id}, s)
           case OnStart => (i, s + {e.id})
           case OnStop => (i, s - {e.id})
           case OnTerminate => (i - {e.id}, s - {e.id})
  }

  lemma FlagsSnoc(trace: seq<Event>, e: Event)
    ensures Flags(trace + [e]) ==
            var (i, s) := Flags(trace);
            if e.status != Ok then (i, s)
            else match e.hook
                 case OnInitialize => (i + {e.id}, s)
                 case OnStart => (i, s + {e.id})
                 case OnStop => (i, s - {e.id})
                 case OnTerminate => (i - {e.id}, s - {e.id})
  {
    assert (trace + [e])[..|trace|] == trace;
  }

  /** What a hook may rely on when it runs. */
  ghost predicate SafeNext(deps: Dependencies, before: seq<Event>, e: Event) {
    && e.id in deps && (e.initialized, e.started) == Flags(before)
    && (Orderly(before) && !e.bestEffort ==> Closed(deps, e.started))
    && match e.hook
       case OnInitialize => e.id !in e.initialized && (forall u :: u in deps[e.id] ==> u in e.initialized)
       case OnStart => e.id in e.initialized && e.id !in e.started && (forall u :: u in deps[e.id] ==> u in e.started)
       case OnStop => e.id in e.started && OnlyFailedDependents(deps, e.started, before, e)
       case OnTerminate => e.id in e.initialized && OnlyFailedDependents(deps, e.initialized, before, e)
  }

  ghost predicate TraceSafe(deps: Dependencies, trace: seq<Event>) {
    forall x :: 0 <= x < |trace| ==> SafeNext(deps, trace[..x], trace[x])
  }

  lemma TraceSnoc(deps: Dependencies, trace: seq<Event>, e: Event)
    requires TraceSafe(deps, trace) && SafeNext(deps, trace, e)
    ensures TraceSafe(deps, trace + [e])
  {
    hide SafeNext;
    var longer := trace + [e];
    forall x | 0 <= x < |longer| ensures SafeNext(deps, longer[..x], longer[x]) {
      if x < |trace| {
        assert longer[..x] == trace[..x];
      } else {
        assert longer[..x] == trace;
      }
    }
  }

  lemma FailedStays(trace: seq<Event>, more: seq<Event>, hook: Hook, v: Id)
    requires FailedBefore(trace, hook, v)
    ensures FailedBefore(trace + more, hook, v)
  {
    var y :| 0 <= y < |trace| && trace[y].hook == hook && trace[y].id == v && trace[y].status != Ok;
    assert (trace + more)[y] == trace[y];
  }

  /** The layers hold every subsystem once, each above all its dependencies. */
  ghost predicate Ranked(deps: Dependencies, layers: seq<seq<Id>>, level: map<Id, nat>) {
    && level.Keys == deps.Keys
    && (forall k, i :: 0 <= k < |layers| && 0 <= i < |layers[k]| ==> layers[k][i] in level && level[layers[k][i]] == k)
    && (forall v :: v in level ==> level[v] < |layers| && v in layers[level[v]])
    && (forall v, u {:trigger u in deps[v]} :: v in deps && u in deps[v] ==> u in level && level[u] < level[v])
    && (forall k, i, j :: 0 <= k < |layers| && 0 <= i < j < |layers[k]| ==> layers[k][i] != layers[k][j])
  }

  /** `record_failure` folded over a run of hooks: the first status that is not OK. */
  function FirstFailure(trace: seq<Event>): Status {
    if trace == [] then Ok else if trace[0].status != Ok then trace[0].status else FirstFailure(trace[1..])
  }

  function Record(candidate: Status, first: Status): Status {
    if first == Ok then candidate else first
  }

  lemma {:induction false} FirstFailureConcat(t: seq<Event>, u: seq<Event>)
    ensures FirstFailure(t + u) == Record(FirstFailure(u), FirstFailure(t))
  {
    if t == [] {
      assert t + u == u;
    } else {
      FirstFailureConcat(t[1..], u);
      assert (t + u)[1..] == t[1..] + u;
    }
  }

  /** The events since a mark. */
  function Since(trace: seq<Event>, mark: nat): seq<Event>
    requires mark <= |trace|
  {
    trace[mark..]
  }

  lemma SinceConcat(trace: seq<Event>, mark: nat, more: seq<Event>)
    requires mark <= |trace|
    ensures Since(trace + more, mark) == Since(trace, mark) + more
    ensures FirstFailure(Since(trace + more, mark)) == Record(FirstFailure(more), FirstFailure(Since(trace, mark)))
  {
    assert Since(trace + more, mark) == Since(trace, mark) + more;
    FirstFailureConcat(Since(trace, mark), more);
  }

  lemma SinceSnoc(trace: seq<Event>, mark: nat, e: Event)
    requires mark <= |trace|
    ensures FirstFailure(Since(trace + [e], mark)) == Record(e.status, FirstFailure(Since(trace, mark)))
  {
    SinceConcat(trace, mark, [e]);
  }

  // ------------------------------------------------------- which hooks were called

  /** These hooks, on these subsystems in this order, all of them successful. */
  ghost predicate Done(es: seq<Event>, hook: Hook, ids: seq<Id>) {
    |es| == |ids| && forall x :: 0 <= x < |es| ==> Succeeds(es[x], hook, ids[x])
  }

  /** These hooks on these subsystems in this order, up to and including the first failure. */
  ghost predicate RunOf(es: seq<Event>, hook: Hook, ids: seq<Id>) {
    || Done(es, hook, ids)
    || (&& 0 < |es| <= |ids| && Done(es[..|es| - 1], hook, ids[..|es| - 1])
        && es[|es| - 1].hook == hook && es[|es| - 1].id == ids[|es| - 1] && es[|es| - 1].status != Ok)
  }

  predicate Succeeds(e: Event, hook: Hook, v: Id) {
    e.hook == hook && e.id == v && e.status == Ok
  }

  lemma {:induction false} DoneHasNoFailure(es: seq<Event>, hook: Hook, ids: seq<Id>)
    requires Done(es, hook, ids)
    ensures FirstFailure(es) == Ok
  {
    if es != [] {
      assert Succeeds(es[0], hook, ids[0]);
      forall x | 0 <= x < |es[1..]| ensures Succeeds(es[1..][x], hook, ids[1..][x]) {
        assert Succeeds(es[x + 1], hook, ids[x + 1]);
      }
      DoneHasNoFailure(es[1..], hook, ids[1..]);
    }
  }

  lemma DoneSnoc(es: seq<Event>, hook: Hook, ids: seq<Id>, e: Event)
    requires Done(es, hook, ids) && e.hook == hook && e.status == Ok
    ensures Done(es + [e], hook, ids + [e.id])
  {
  }

  /** A failing hook ends a run over any longer list. */
  lemma FailSnoc(es: seq<Event>, hook: Hook, ids: seq<Id>, e: Event, all: seq<Id>)
    requires Done(es, hook, ids) && e.hook == hook && e.status != Ok && ids + [e.id] <= all
    ensures RunOf(es + [e], hook, all) && FirstFailure(es + [e]) == e.status
  {
    var longer := es + [e];
    assert longer[..|longer| - 1] == es;
    assert all[..|es|] == (ids + [e.id])[..|es|] == ids && all[|es|] == e.id;
    DoneHasNoFailure(es, hook, ids);
    FirstFailureConcat(es, [e]);
  }

  function Reverse(s: seq<Id>): (r: seq<Id>)
    ensures |r| == |s| && forall i :: 0 <= i < |s| ==> r[i] == s[|s| - 1 - i]
  {
    seq(|s|, i requires 0 <= i < |s| => s[|s| - 1 - i])
  }

  /** All layers one behind the other. */
  function Flat(layers: seq<seq<Id>>): seq<Id> {
    if layers == [] then [] else Flat(layers[..|layers| - 1]) + layers[|layers| - 1]
  }

  lemma FlatSnoc(layers: seq<seq<Id>>, k: nat)
    requires k < |layers|
    ensures Flat(layers[..k + 1]) == Flat(layers[..k]) + layers[k]
  {
    assert layers[..k + 1][..k] == layers[..k];
  }

  lemma {:induction false} FlatPrefix(layers: seq<seq<Id>>, k: nat)
    requires k <= |layers|
    ensures Flat(layers[..k]) <= Flat(layers)
    decreases |layers| - k
  {
    if k == |layers| {
      assert layers[..k] == layers;
    } else {
      FlatPrefix(layers, k + 1);
      FlatSnoc(layers, k);
    }
  }

  /** The members of a set, in the order of a list. */
  function Filter(ids: seq<Id>, s: set<Id>): (r: seq<Id>)
    ensures forall v :: v in r <==> v in ids && v in s
  {
    if ids == [] then []
    else
      assert ids == ids[..|ids| - 1] + [ids[|ids| - 1]];
      Filter(ids[..|ids| - 1], s) + (if ids[|ids| - 1] in s then [ids[|ids| - 1]] else [])
  }

  lemma {:induction false} FilterConcat(a: seq<Id>, b: seq<Id>, s: set<Id>)
    ensures Filter(a + b, s) == Filter(a, s) + Filter(b, s)
    decreases |b|
  {
    if b == [] {
      assert a + b == a;
    } else {
      var init := b[..|b| - 1];
      FilterConcat(a, init, s);
      assert (a + b)[..|a + b| - 1] == a + init;
    }
  }

  predicate NoRepeats(s: seq<Id>) {
    forall i, j :: 0 <= i < j < |s| ==> s[i] != s[j]
  }

  lemma {:induction false} FilterNoRepeats(ids: seq<Id>, s: set<Id>)
    requires NoRepeats(ids)
    ensures NoRepeats(Filter(ids, s))
  {
    if ids != [] {
      var init, last := ids[..|ids| - 1], ids[|ids| - 1];
      FilterNoRepeats(init, s);
      assert last !in init;
      assert last !in Filter(init, s);
    }
  }

  /** One hook on each of these subsystems in this order, whatever it answered. */
  ghost predicate Calls(es: seq<Event>, hook: Hook, ids: seq<Id>) {
    |es| == |ids| && forall x :: 0 <= x < |es| ==> es[x].hook == hook && es[x].id == ids[x]
  }

  lemma CallsConcat(a: seq<Event>, b: seq<Event>, hook: Hook, p: seq<Id>, q: seq<Id>)
    requires Calls(a, hook, p) && Calls(b, hook, q)
    ensures Calls(a + b, hook, p + q)
  {
  }

  /** Teardown has passed every layer above `k`: what is left there failed. */
  ghost predicate PassedAbove(level: map<Id, nat>, flags: set<Id>, trace: seq<Event>, hook: Hook, k: int, bestEffort: bool) {
    forall v :: v in flags && v in level && level[v] > k ==> bestEffort && FailedBefore(trace, hook, v)
  }

  /** Teardown has passed the first `i` members of a layer: what is left there failed. */
  ghost predicate PassedIn(layer: seq<Id>, i: nat, flags: set<Id>, trace: seq<Event>, hook: Hook) {
    forall j :: 0 <= j < i && j < |layer| && layer[j] in flags ==> FailedBefore(trace, hook, layer[j])
  }

  lemma PassedStays(level: map<Id, nat>, flags: set<Id>, flags': set<Id>, trace: seq<Event>, e: Event, hook: Hook, k: int,
                    bestEffort: bool, layer: seq<Id>, i: nat)
    requires flags' <= flags
    requires PassedAbove(level, flags, trace, hook, k, bestEffort) && PassedIn(layer, i, flags, trace, hook)
    ensures PassedAbove(level, flags', trace + [e], hook, k, bestEffort) && PassedIn(layer, i, flags', trace + [e], hook)
  {
    forall v | v in flags' && v in level && level[v] > k ensures bestEffort && FailedBefore(trace + [e], hook, v) {
      FailedStays(trace, [e], hook, v);
    }
    forall j | 0 <= j < i && j < |layer| && layer[j] in flags' ensures FailedBefore(trace + [e], hook, layer[j]) {
      FailedStays(trace, [e], hook, layer[j]);
    }
  }

  /** Dependents sit in higher layers, so a teardown hook there is safe. */
  lemma TeardownSafe(deps: Dependencies, layers: seq<seq<Id>>, level: map<Id, nat>, flags: set<Id>, trace: seq<Event>, e: Event, k: nat)
    requires Ranked(deps, layers, level) && k < |layers| && e.id in layers[k]
    requires (e.hook.OnStop? || e.hook.OnTerminate?) && (e.initialized, e.started) == Flags(trace)
    requires flags == (if e.hook.OnStop? then e.started else e.initialized) && e.id in flags
    requires PassedAbove(level, flags, trace, e.hook, k, e.bestEffort)
    requires Orderly(trace) && !e.bestEffort ==> Closed(deps, e.started)
    ensures SafeNext(deps, trace, e)
  {
    forall v | v in deps && e.id in deps[v] && v in flags ensures e.bestEffort && FailedBefore(trace, e.hook, v) {
      assert level[e.id] < level[v];
    }
  }

  /** Removing a member that no member depends on keeps a set closed. */
  lemma ClosedWithout(deps: Dependencies, s: set<Id>, id: Id)
    requires Closed(deps, s) && forall v :: v in deps && id in deps[v] ==> v !in s
    ensures Closed(deps, s - {id})
  {
  }

  lemma ClosedWith(deps: Dependencies, s: set<Id>, id: Id)
    requires Closed(deps, s) && id in deps && forall u :: u in deps[id] ==> u in s
    ensures Closed(deps, s + {id})
  {
  }

  ghost predicate IsReverse(forward: seq<seq<Id>>, reverse: seq<seq<Id>>) {
    |reverse| == |forward| && forall j :: 0 <= j < |reverse| ==> reverse[j] == forward[|forward| - 1 - j]
  }

  /** Layers from the top down list every subsystem exactly once. */
  lemma ReverseListsAll(deps: Dependencies, forward: seq<seq<Id>>, reverse: seq<seq<Id>>, level: map<Id, nat>)
    requires Ranked(deps, forward, level) && IsReverse(forward, reverse)
    ensures NoRepeats(Flat(reverse)) && forall v :: v in Flat(reverse) <==> v in deps
  {
    hide Ranked;
    FlatTop(deps, forward, reverse, level, |reverse|);
    assert reverse[..|reverse|] == reverse;
    LevelsInRange(deps, forward, level);
  }

  lemma LevelsInRange(deps: Dependencies, layers: seq<seq<Id>>, level: map<Id, nat>)
    requires Ranked(deps, layers, level)
    ensures level.Keys == deps.Keys && forall v :: v in level ==> level[v] < |layers|
  {
  }

  lemma {:induction false} FlatTop(deps: Dependencies, forward: seq<seq<Id>>, reverse: seq<seq<Id>>, level: map<Id, nat>, r: nat)
    requires Ranked(deps, forward, level) && IsReverse(forward, reverse) && r <= |reverse|
    ensures NoRepeats(Flat(reverse[..r])) && forall v :: v in Flat(reverse[..r]) <==> v in level && level[v] >= |reverse| - r
    decreases r
  {
    if r > 0 {
      FlatTop(deps, forward, reverse, level, r - 1);
      FlatSnoc(reverse, r - 1);
      var before, layer := Flat(reverse[..r - 1]), reverse[r - 1];
      assert layer == forward[|reverse| - r];
      forall v ensures v in layer <==> v in level && level[v] == |reverse| - r {
        LayerMembers(deps, forward, level, |reverse| - r, v);
      }
      hide Ranked;
      assert NoRepeats(layer) by {
        LayerNoRepeats(deps, forward, level, |reverse| - r);
      }
      assert Flat(reverse[..r]) == before + layer;
    }
  }

  lemma LayerMembers(deps: Dependencies, layers: seq<seq<Id>>, level: map<Id, nat>, k: nat, v: Id)
    requires Ranked(deps, layers, level) && k < |layers|
    ensures v in layers[k] <==> v in level && level[v] == k
  {
  }

  lemma LayerNoRepeats(deps: Dependencies, layers: seq<seq<Id>>, level: map<Id, nat>, k: nat)
    requires Ranked(deps, layers, level) && k < |layers|
    ensures NoRepeats(layers[k])
  {
  }

  // ------------------------------------------------------- whole histories

  /** This event leaves `v` not started. */
  predicate Ends(e: Event, v: Id) {
    Succeeds(e, OnStop, v) || Succeeds(e, OnTerminate, v)
  }

  /** A start of `v` at `y` that nothing up to `x` has undone. */
  ghost predicate UpSince(trace: seq<Event>, v: Id, y: nat, x: nat) {
    y < x <= |trace| && Succeeds(trace[y], OnStart, v) && forall z :: y < z < x ==> !Ends(trace[z], v)
  }

  /** The started flag means exactly: started, and not stopped or terminated since. */
  lemma {:induction false} StartedMeansUp(trace: seq<Event>, v: Id, x: nat)
    requires x <= |trace|
    ensures v in Flags(trace[..x]).1 <==> exists y :: UpSince(trace, v, y, x)
    decreases x
  {
    if x > 0 {
      var e := trace[x - 1];
      StartedMeansUp(trace, v, x - 1);
      assert trace[..x] == trace[..x - 1] + [e];
      FlagsSnoc(trace[..x - 1], e);
      if v in Flags(trace[..x]).1 {
        if v in Flags(trace[..x - 1]).1 {
          var y :| UpSince(trace, v, y, x - 1);
          assert UpSince(trace, v, y, x);
        } else {
          assert UpSince(trace, v, x - 1, x);
        }
      }
      if y: nat :| UpSince(trace, v, y, x) {
        if y < x - 1 {
          assert UpSince(trace, v, y, x - 1);
        }
        assert !Ends(e, v) || y == x - 1;
      }
    }
  }

  /** In every history, whatever fails: a subsystem's start finds each dependency up. */
  lemma DependencyIsUp(deps: Dependencies, trace: seq<Event>, x: nat, u: Id)
    requires TraceSafe(deps, trace) && x < |trace| && trace[x].hook == OnStart
    requires trace[x].id in deps && u in deps[trace[x].id]
    ensures exists y :: UpSince(trace, u, y, x)
  {
    assert SafeNext(deps, trace[..x], trace[x]);
    StartedMeansUp(trace, u, x);
  }

  /** A subsystem's stop finds no dependent up, except where teardown already failed to stop it. */
  lemma DependentIsDown(deps: Dependencies, trace: seq<Event>, x: nat, v: Id)
    requires TraceSafe(deps, trace) && x < |trace| && trace[x].hook == OnStop
    requires v in deps && trace[x].id in deps[v]
    ensures (forall y :: !UpSince(trace, v, y, x)) || (trace[x].bestEffort && FailedBefore(trace[..x], OnStop, v))
  {
    assert SafeNext(deps, trace[..x], trace[x]);
    StartedMeansUp(trace, v, x);
  }

  /** Before any `terminate`, what is up at a hook boundary is closed under dependencies. */
  lemma UpIsClosed(deps: Dependencies, trace: seq<Event>, x: nat, v: Id, u: Id)
    requires TraceSafe(deps, trace) && x < |trace| && Orderly(trace[..x + 1])
    requires v in deps && u in deps[v] && exists y :: UpSince(trace, v, y, x)
    ensures exists y :: UpSince(trace, u, y, x)
  {
    assert SafeNext(deps, trace[..x], trace[x]);
    assert trace[..x + 1][x] == trace[x];
    assert Orderly(trace[..x]) by {
      forall y | 0 <= y < x ensures !trace[..x][y].bestEffort {
        assert trace[..x + 1][y] == trace[y];
      }
    }
    StartedMeansUp(trace, v, x);
    StartedMeansUp(trace, u, x);
  }
}
