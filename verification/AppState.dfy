/** The application's lifecycle object (state/state.cpp:64-244, 318-408). */
module AppLifecycle {
  import opened Basics
  import opened Lifecycle
  import opened LifecycleTopology

  class AppState {
    /** The outcome of the n-th hook call; exceptions count as SUBSYSTEM_FAILURE. */
    const script: nat -> Status
    var names: set<Bytes>
    var order: seq<Id>
    var deps: Dependencies
    var state: State
    var initialized: set<Id>
    var started: set<Id>
    var forward: seq<seq<Id>>
    var reverse: seq<seq<Id>>
    /** Every hook call so far. */
    var trace: seq<Event>
    /** Layer of each subsystem, once the topology is built. */
    ghost var level: map<Id, nat>

    ghost predicate Built()
      reads this
    {
      Ranked(deps, forward, level) && IsReverse(forward, reverse)
    }

    /** The layers exist, or initialization never got that far. */
    ghost predicate Prepared()
      reads this
    {
      Built() || (initialized == {} && forward == [] && reverse == [])
    }

    /** Holds inside every operation, at each hook boundary. */
    ghost predicate Sound()
      reads this
    {
      && started <= initialized <= deps.Keys && TraceSafe(deps, trace) && (initialized, started) == Flags(trace)
      && (Orderly(trace) ==> Closed(deps, started))
    }

    ghost predicate Valid()
      reads this
    {
      && Sound()
      && Registered(order, deps)
      && Prepared()
      && match state
         case Uninitialized => initialized == {} && trace == [] && forward == [] && reverse == []
         case Initialized => Built() && initialized == deps.Keys && started == {} && Orderly(trace)
         case Stopped => Built() && initialized == deps.Keys && started == {} && Orderly(trace)
         case Running => Built() && initialized == deps.Keys && started == deps.Keys && Orderly(trace)
         case Terminated => initialized == {} && started == {}
         case Crashed => true
    }

    constructor (script: nat -> Status)
      ensures Valid() && this.script == script && state == Uninitialized && deps == map[] && trace == []
    {
      this.script, names, order, deps, state := script, {}, [], map[], Uninitialized;
      initialized, started, forward, reverse, trace, level := {}, {}, [], [], [], map[];
    }

    /** `stop_started` on one layer. */
    method StopLayer(ghost k: nat, layer: seq<Id>, bestEffort: bool) returns (failure: Status)
      requires Sound() && Built() && k < |forward| && layer == forward[k]
      requires PassedAbove(level, started, trace, OnStop, k, bestEffort)
      modifies this`started, this`trace
      ensures Sound() && started <= old(started) && old(trace) <= trace
      ensures PassedAbove(level, started, trace, OnStop, k, bestEffort) && PassedIn(layer, |layer|, started, trace, OnStop)
      ensures failure == FirstFailure(Since(trace, |old(trace)|))
      ensures failure == Ok ==> forall v :: v in layer ==> v !in started
      ensures !bestEffort && Orderly(old(trace)) ==> Orderly(trace)
      ensures Calls(Since(trace, |old(trace)|), OnStop, Filter(layer, old(started)))
      ensures forall v :: v !in layer ==> (v in started <==> v in old(started))
    {
      hide Flags, TraceSafe, Ranked, Closed, SafeNext, FirstFailure, PassedAbove, PassedIn, Filter, Calls, Since;
      failure := Ok;
      NothingYet(layer, started, trace, OnStop);
      LayerNoRepeats(deps, forward, level, k);
      NoneOfLayer(layer);
      for i := 0 to |layer|
        invariant Sound() && Built() && started <= old(started) && old(trace) <= trace
        invariant Calls(Since(trace, |old(trace)|), OnStop, Filter(layer[..i], old(started)))
        invariant forall v :: v !in layer[..i] ==> (v in started <==> v in old(started))
        invariant PassedAbove(level, started, trace, OnStop, k, bestEffort) && PassedIn(layer, i, started, trace, OnStop)
        invariant failure == FirstFailure(Since(trace, |old(trace)|))
        invariant failure == Ok ==> forall j :: 0 <= j < i ==> layer[j] !in started
        invariant !bestEffort && Orderly(old(trace)) ==> Orderly(trace)
      {
        var id := layer[i];
        assert id !in layer[..i] && layer[..i + 1] == layer[..i] + [id];
        FilterSnoc(layer, i, old(started));
        if id !in started {
          PassedMore(layer, i, started, trace, OnStop);
          continue;
        }
        var status := script(|trace|);
        var e := Event(OnStop, id, status, bestEffort, initialized, started);
        TeardownSafe(deps, forward, level, started, trace, e, k);
        TraceSnoc(deps, trace, e);
        FlagsSnoc(trace, e);
        SinceSnoc(trace, |old(trace)|, e);
        StoppedClosed(deps, trace, e);
        CallsSnoc(trace, |old(trace)|, e, Filter(layer[..i], old(started)));
        ghost var before, flags := trace, started;
        trace := trace + [e];
        failure := Record(status, failure);
        if status == Ok {
          started := started - {id};
        }
        PassedStays(level, flags, started, before, e, OnStop, k, bestEffort, layer, i);
        PassedOne(layer, i, started, before, e);
      }
      assert layer[..|layer|] == layer;
    }

    /**
     `stop_started`: one stop hook on every started subsystem, dependent-first; without best effort
     the layer that sees the first failure is the last.
     */
    method StopStarted(bestEffort: bool) returns (failure: Status)
      requires Sound() && Prepared()
      modifies this`started, this`trace
      ensures Sound() && started <= old(started) && old(trace) <= trace
      ensures failure == FirstFailure(Since(trace, |old(trace)|))
      ensures failure == Ok ==> started == {}
      ensures !bestEffort && Orderly(old(trace)) ==> Orderly(trace)
      ensures bestEffort || failure == Ok ==> StoppedThrough(Since(trace, |old(trace)|), reverse, old(started), |reverse|)
      ensures !bestEffort && failure != Ok ==> exists r :: StoppedAt(Since(trace, |old(trace)|), reverse, old(started), r)
    {
      hide Flags, TraceSafe, Closed, SafeNext, FirstFailure, PassedAbove, PassedIn, Ranked, Filter, Calls, Since, Flat, StoppedThrough,
           StoppedAt;
      failure := Ok;
      NothingYet([], started, trace, OnStop);
      StartOfPass(deps, forward, level, started, trace, OnStop, bestEffort);
      NoneStopped(reverse, started);
      for r := 0 to |reverse|
        invariant Sound() && Prepared() && started <= old(started) && old(trace) <= trace
        invariant PassedAbove(level, started, trace, OnStop, |reverse| - 1 - r, bestEffort)
        invariant failure == FirstFailure(Since(trace, |old(trace)|)) && (bestEffort || failure == Ok)
        invariant failure == Ok ==> EmptyAbove(level, started, |reverse| - 1 - r)
        invariant !bestEffort && Orderly(old(trace)) ==> Orderly(trace)
        invariant StoppedThrough(Since(trace, |old(trace)|), reverse, old(started), r)
        invariant SameBelow(level, started, old(started), |reverse| - r)
      {
        ghost var k := |reverse| - 1 - r;
        ghost var before, flags := trace, started;
        var layerFailure := StopLayer(k, reverse[r], bestEffort);
        FailuresAdd(old(trace), before, trace);
        StoppedMore(deps, forward, reverse, level, old(trace), before, trace, old(started), flags, r);
        StillSame(deps, forward, level, k, old(started), flags, started);
        failure := Record(layerFailure, failure);
        if failure == Ok {
          EmptyLower(deps, forward, level, flags, started, k);
        }
        if !bestEffort && layerFailure != Ok {
          StoppedHere(old(trace), before, trace, reverse, old(started), r);
          return;
        }
        NextLayer(deps, forward, level, started, trace, OnStop, k, bestEffort, layerFailure);
      }
      if failure == Ok {
        AllLevelsEmpty(deps, forward, level, started);
      }
    }

    /** `terminate_initialized` on one layer. */
    method TerminateLayer(ghost k: nat, layer: seq<Id>) returns (failure: Status)
      requires Sound() && Built() && k < |forward| && layer == forward[k]
      requires PassedAbove(level, initialized, trace, OnTerminate, k, true)
      modifies this`started, this`initialized, this`trace
      ensures Sound() && initialized <= old(initialized) && old(trace) <= trace
      ensures PassedAbove(level, initialized, trace, OnTerminate, k, true)
      ensures PassedIn(layer, |layer|, initialized, trace, OnTerminate)
      ensures failure == FirstFailure(Since(trace, |old(trace)|))
      ensures failure == Ok ==> forall v :: v in layer ==> v !in initialized
      ensures Calls(Since(trace, |old(trace)|), OnTerminate, Filter(layer, old(initialized)))
      ensures forall v :: v !in layer ==> (v in initialized <==> v in old(initialized))
    {
      hide Flags, TraceSafe, Ranked, Closed, SafeNext, FirstFailure, PassedAbove, PassedIn, Filter, Calls, Since;
      failure := Ok;
      NothingYet(layer, initialized, trace, OnTerminate);
      LayerNoRepeats(deps, forward, level, k);
      NoneOfLayer(layer);
      for i := 0 to |layer|
        invariant Sound() && Built() && initialized <= old(initialized) && old(trace) <= trace
        invariant Calls(Since(trace, |old(trace)|), OnTerminate, Filter(layer[..i], old(initialized)))
        invariant forall v :: v !in layer[..i] ==> (v in initialized <==> v in old(initialized))
        invariant PassedAbove(level, initialized, trace, OnTerminate, k, true)
        invariant PassedIn(layer, i, initialized, trace, OnTerminate)
        invariant failure == FirstFailure(Since(trace, |old(trace)|))
        invariant failure == Ok ==> forall j :: 0 <= j < i ==> layer[j] !in initialized
      {
        var id := layer[i];
        assert id !in layer[..i] && layer[..i + 1] == layer[..i] + [id];
        FilterSnoc(layer, i, old(initialized));
        if id !in initialized {
          PassedMore(layer, i, initialized, trace, OnTerminate);
          continue;
        }
        var status := script(|trace|);
        var e := Event(OnTerminate, id, status, true, initialized, started);
        TeardownSafe(deps, forward, level, initialized, trace, e, k);
        TraceSnoc(deps, trace, e);
        FlagsSnoc(trace, e);
        SinceSnoc(trace, |old(trace)|, e);
        CallsSnoc(trace, |old(trace)|, e, Filter(layer[..i], old(initialized)));
        assert (trace + [e])[|trace|].bestEffort;
        ghost var before, flags := trace, initialized;
        trace := trace + [e];
        failure := Record(status, failure);
        if status == Ok {
          started := started - {id};
          initialized := initialized - {id};
        }
        PassedStays(level, flags, initialized, before, e, OnTerminate, k, true, layer, i);
        PassedOne(layer, i, initialized, before, e);
      }
      assert layer[..|layer|] == layer;
    }

    /** `terminate_initialized`: one hook on every initialized subsystem, dependent-first. */
    method TerminateInitialized() returns (failure: Status)
      requires Sound() && Prepared()
      modifies this`started, this`initialized, this`trace
      ensures Sound() && initialized <= old(initialized) && old(trace) <= trace
      ensures failure == FirstFailure(Since(trace, |old(trace)|))
      ensures failure == Ok ==> initialized == {}
      ensures Calls(Since(trace, |old(trace)|), OnTerminate, Filter(Flat(reverse), old(initialized)))
    {
      hide Flags, TraceSafe, Closed, SafeNext, FirstFailure, PassedAbove, PassedIn, Ranked, Filter, Calls, Since, Flat;
      failure := Ok;
      NothingYet([], initialized, trace, OnTerminate);
      StartOfPass(deps, forward, level, initialized, trace, OnTerminate, true);
      NoneCalled(reverse, initialized, OnTerminate);
      for r := 0 to |reverse|
        invariant Sound() && Prepared() && initialized <= old(initialized) && old(trace) <= trace
        invariant PassedAbove(level, initialized, trace, OnTerminate, |reverse| - 1 - r, true)
        invariant failure == FirstFailure(Since(trace, |old(trace)|))
        invariant failure == Ok ==> EmptyAbove(level, initialized, |reverse| - 1 - r)
        invariant Calls(Since(trace, |old(trace)|), OnTerminate, Filter(Flat(reverse[..r]), old(initialized)))
        invariant SameBelow(level, initialized, old(initialized), |reverse| - r)
      {
        ghost var k := |reverse| - 1 - r;
        ghost var before, flags := trace, initialized;
        var layerFailure := TerminateLayer(k, reverse[r]);
        FailuresAdd(old(trace), before, trace);
        CallsMore(deps, forward, reverse, level, old(trace), before, trace, OnTerminate, old(initialized), flags, r);
        StillSame(deps, forward, level, k, old(initialized), flags, initialized);
        failure := Record(layerFailure, failure);
        if failure == Ok {
          EmptyLower(deps, forward, level, flags, initialized, k);
        }
        NextLayer(deps, forward, level, initialized, trace, OnTerminate, k, true, layerFailure);
      }
      assert reverse[..|reverse|] == reverse;
      if failure == Ok {
        AllLevelsEmpty(deps, forward, level, initialized);
      }
    }

    /** `rollback_started`: undo this start in reverse order, up to the first failing stop. */
    method RollbackStarted(list: seq<Id>) returns (failure: Status)
      requires Sound() && Orderly(trace) && Stacked(deps, list) && started == Members(list)
      modifies this`started, this`trace
      ensures Sound() && Orderly(trace) && old(trace) <= trace && started <= old(started)
      ensures failure == FirstFailure(Since(trace, |old(trace)|))
      ensures failure == Ok <==> started == {}
      ensures RunOf(Since(trace, |old(trace)|), OnStop, Reverse(list))
    {
      hide Flags, TraceSafe, Closed, SafeNext, FirstFailure, Stacked, Since, Done, RunOf, Reverse;
      failure := Ok;
      NothingYet([], started, trace, OnStop);
      NothingDone(list);
      assert list[..|list|] == list;
      for n := |list| downto 0
        invariant Sound() && Orderly(trace) && old(trace) <= trace && started <= old(started)
        invariant |Reverse(list)| == |list| && Done(Since(trace, |old(trace)|), OnStop, Reverse(list)[..|list| - n])
        invariant started == Members(list[..n])
        invariant failure == Ok == FirstFailure(Since(trace, |old(trace)|))
      {
        var id := list[n];
        TopIsMember(list, n);
        var status := script(|trace|);
        var e := Event(OnStop, id, status, false, initialized, started);
        TopIsSafe(deps, list, n, trace, e);
        TraceSnoc(deps, trace, e);
        FlagsSnoc(trace, e);
        SinceSnoc(trace, |old(trace)|, e);
        StoppedClosed(deps, trace, e);
        NextDone(trace, |old(trace)|, e, list, n);
        trace := trace + [e];
        failure := Record(status, failure);
        if status != Ok {
          return;
        }
        WithoutTop(deps, list, n);
        started := started - {id};
      }
      AllDone(Since(trace, |old(trace)|), OnStop, list);
    }

    /** `rollback_initialized`: undo this initialization in reverse order, up to the first failure. */
    method RollbackInitialized(list: seq<Id>) returns (failure: Status)
      requires Sound() && Orderly(trace) && started == {} && Stacked(deps, list) && initialized == Members(list)
      modifies this`initialized, this`started, this`trace
      ensures Sound() && Orderly(trace) && old(trace) <= trace && initialized <= old(initialized) && started == {}
      ensures failure == FirstFailure(Since(trace, |old(trace)|))
      ensures failure == Ok <==> initialized == {}
      ensures RunOf(Since(trace, |old(trace)|), OnTerminate, Reverse(list))
    {
      hide Flags, TraceSafe, Closed, SafeNext, FirstFailure, Stacked, Since, Done, RunOf, Reverse;
      failure := Ok;
      NothingYet([], initialized, trace, OnTerminate);
      NothingDone(list);
      assert list[..|list|] == list;
      for n := |list| downto 0
        invariant Sound() && Orderly(trace) && old(trace) <= trace && initialized <= old(initialized) && started == {}
        invariant |Reverse(list)| == |list| && Done(Since(trace, |old(trace)|), OnTerminate, Reverse(list)[..|list| - n])
        invariant initialized == Members(list[..n])
        invariant failure == Ok == FirstFailure(Since(trace, |old(trace)|))
      {
        var id := list[n];
        TopIsMember(list, n);
        var status := script(|trace|);
        var e := Event(OnTerminate, id, status, false, initialized, started);
        TopIsSafe(deps, list, n, trace, e);
        TraceSnoc(deps, trace, e);
        FlagsSnoc(trace, e);
        SinceSnoc(trace, |old(trace)|, e);
        NextDone(trace, |old(trace)|, e, list, n);
        trace := trace + [e];
        failure := Record(status, failure);
        if status != Ok {
          return;
        }
        WithoutTop(deps, list, n);
        assert started - {id} == {};
        started := started - {id};
        initialized := initialized - {id};
      }
      AllDone(Since(trace, |old(trace)|), OnTerminate, list);
    }

    /** One layer of `start`; `list` collects what this call has started. */
    method StartLayer(ghost k: nat, layer: seq<Id>, list: seq<Id>, ghost mark: nat) returns (status: Status, list': seq<Id>)
      requires Sound() && Built() && Orderly(trace) && initialized == deps.Keys && k < |forward| && layer == forward[k]
      requires Stacked(deps, list) && started == Members(list) && Below(level, started, k)
      requires mark <= |trace| && Done(Since(trace, mark), OnStart, list)
      modifies this`started, this`trace
      ensures Sound() && Orderly(trace) && old(trace) <= trace
      ensures Stacked(deps, list') && started == Members(list')
      ensures status == Ok ==> list' == list + layer && Done(Since(trace, mark), OnStart, list')
      ensures status != Ok ==> FailedBehind(Since(trace, mark), OnStart, list', list + layer, status)
      ensures status == Ok ==> Below(level, started, k + 1)
    {
      hide Flags, TraceSafe, Ranked, Closed, SafeNext, FirstFailure, Stacked, Below, Since, Done, FailedBehind;
      list', status := list, Ok;
      assert layer[..0] == [] && list + [] == list;
      StartOfLayer(level, started, layer, k);
      for i := 0 to |layer|
        invariant Sound() && Orderly(trace) && old(trace) <= trace
        invariant Stacked(deps, list') && started == Members(list')
        invariant Partly(level, started, layer, k, i)
        invariant status == Ok && list' == list + layer[..i] && Done(Since(trace, mark), OnStart, list')
      {
        var id := layer[i];
        Ready(deps, forward, level, started, k, i);
        status := script(|trace|);
        var e := Event(OnStart, id, status, false, initialized, started);
        StartIsSafe(deps, trace, e);
        TraceSnoc(deps, trace, e);
        FlagsSnoc(trace, e);
        OneMoreDone(trace, mark, e, list, layer, i);
        trace := trace + [e];
        if status != Ok {
          return;
        }
        StackGrows(deps, list', id);
        ClosedWith(deps, started, id);
        PartlyGrows(deps, forward, level, started, k, i);
        started := started + {id};
        list' := list' + [id];
      }
      assert layer[..|layer|] == layer;
      EndOfLayer(deps, forward, level, started, k);
    }

    /** One layer of `initialize`. */
    method InitializeLayer(ghost k: nat, layer: seq<Id>, list: seq<Id>, ghost mark: nat) returns (status: Status, list': seq<Id>)
      requires Sound() && Built() && Orderly(trace) && started == {} && k < |forward| && layer == forward[k]
      requires Stacked(deps, list) && initialized == Members(list) && Below(level, initialized, k)
      requires mark <= |trace| && Done(Since(trace, mark), OnInitialize, list)
      modifies this`initialized, this`trace
      ensures Sound() && Orderly(trace) && old(trace) <= trace
      ensures Stacked(deps, list') && initialized == Members(list')
      ensures status == Ok ==> list' == list + layer && Done(Since(trace, mark), OnInitialize, list')
      ensures status != Ok ==> FailedBehind(Since(trace, mark), OnInitialize, list', list + layer, status)
      ensures status == Ok ==> Below(level, initialized, k + 1)
    {
      hide Flags, TraceSafe, Ranked, Closed, SafeNext, FirstFailure, Stacked, Below, Since, Done, FailedBehind;
      list', status := list, Ok;
      assert layer[..0] == [] && list + [] == list;
      StartOfLayer(level, initialized, layer, k);
      for i := 0 to |layer|
        invariant Sound() && Orderly(trace) && old(trace) <= trace
        invariant Stacked(deps, list') && initialized == Members(list')
        invariant Partly(level, initialized, layer, k, i)
        invariant status == Ok && list' == list + layer[..i] && Done(Since(trace, mark), OnInitialize, list')
      {
        var id := layer[i];
        Ready(deps, forward, level, initialized, k, i);
        status := script(|trace|);
        var e := Event(OnInitialize, id, status, false, initialized, started);
        StartIsSafe(deps, trace, e);
        TraceSnoc(deps, trace, e);
        FlagsSnoc(trace, e);
        OneMoreDone(trace, mark, e, list, layer, i);
        trace := trace + [e];
        if status != Ok {
          return;
        }
        StackGrows(deps, list', id);
        PartlyGrows(deps, forward, level, initialized, k, i);
        initialized := initialized + {id};
        list' := list' + [id];
      }
      assert layer[..|layer|] == layer;
      EndOfLayer(deps, forward, level, initialized, k);
    }

    /** `register_subsystem_erased`. */
    method Register(id: Id, name: Bytes, dependencies: seq<Id>) returns (status: Status)
      requires Valid()
      modifies this
      ensures Valid()
      ensures status == (if name == [] then InvalidArgument else if old(state) != Uninitialized then RegistrationFrozen
                         else if id in old(deps) then DuplicateSubsystem
                         else if name in old(names) then DuplicateSubsystemName else Ok)
      ensures state == old(state) && trace == old(trace) && initialized == old(initialized) && started == old(started)
      ensures deps == if status == Ok then old(deps)[id := dependencies] else old(deps)
    {
      if name == [] {
        return InvalidArgument;
      }
      if state != Uninitialized {
        return RegistrationFrozen;
      }
      if id in deps {
        return DuplicateSubsystem;
      }
      if name in names {
        return DuplicateSubsystemName;
      }
      names := names + {name};
      deps := deps[id := dependencies];
      order := order + [id];
      status := Ok;
    }

    /** `initialize`: all subsystems, dependency-first, or a rollback and CRASHED. */
    method Initialize(validMode: bool) returns (status: Status)
      requires Valid()
      modifies this
      ensures Valid() && deps == old(deps) && old(trace) <= trace && started == old(started)
      ensures old(state) != Uninitialized ==> status == InvalidTransition && state == old(state) && trace == old(trace)
      ensures old(state) == Uninitialized && !validMode ==> status == InvalidArgument && state == Uninitialized
      ensures old(state) == Uninitialized && validMode ==> state == if status == Ok then Initialized else Crashed
      ensures old(state) == Uninitialized && validMode && !Buildable(deps) ==>
                && trace == old(trace) && status in {MissingDependency, DuplicateDependency, DependencyCycle}
                && (status == MissingDependency ==> Missing(deps)) && (status == DuplicateDependency ==> Doubled(deps))
                && (status == DependencyCycle ==> Cyclic(deps) && !Missing(deps) && !Doubled(deps))
      ensures status == Ok ==> Buildable(deps) && initialized == deps.Keys
      ensures old(state) == Uninitialized && validMode && Buildable(deps) ==>
                AllOrNothing(Since(trace, |old(trace)|), OnInitialize, OnTerminate, Flat(forward), status, initialized == {})
    {
      hide Flags, TraceSafe, Closed, SafeNext, FirstFailure, Stacked, Below, Ranked, Buildable, Missing, Doubled, Cyclic, Since, Done, FailedBehind, RunOf, Reverse,
           Flat, AllOrNothing;
      if state != Uninitialized {
        return InvalidTransition;
      }
      if !validMode {
        return InvalidArgument;
      }
      var built, upwards, downwards;
      ghost var ranks;
      built, upwards, downwards, ranks := BuildLayers(order, deps);
      if built != Ok {
        state := Crashed;
        return built;
      }
      forward, reverse, level := upwards, downwards, ranks;
      status := InitializeAll();
      state := if status == Ok then Initialized else Crashed;
    }

    /** The layer loop of `initialize`. */
    method InitializeAll() returns (status: Status)
      requires Sound() && Built() && Orderly(trace) && started == {} && initialized == {}
      modifies this`initialized, this`started, this`trace
      ensures Sound() && Orderly(trace) && started == {} && old(trace) <= trace
      ensures status == Ok ==> initialized == deps.Keys
      ensures AllOrNothing(Since(trace, |old(trace)|), OnInitialize, OnTerminate, Flat(forward), status, initialized == {})
    {
      hide Flags, TraceSafe, Closed, SafeNext, FirstFailure, Stacked, Below, Ranked, Since, Done, FailedBehind, RunOf, Reverse, Flat,
           AllOrNothing;
      var list: seq<Id> := [];
      NothingStacked(deps, level);
      NothingRun(trace, forward);
      var layers := forward;
      status := Ok;
      for k := 0 to |layers|
        invariant forward == layers && Sound() && Built() && Orderly(trace) && started == {}
        invariant Stacked(deps, list) && initialized == Members(list) && Below(level, initialized, k)
        invariant old(trace) <= trace && list == Flat(layers[..k]) && Done(Since(trace, |old(trace)|), OnInitialize, list)
        invariant status == Ok
      {
        FlatSnoc(layers, k);
        FlatPrefix(layers, k + 1);
        status, list := InitializeLayer(k, layers[k], list, |old(trace)|);
        if status != Ok {
          ghost var middle := trace;
          var _ := RollbackInitialized(list);
          WasUndone(old(trace), middle, trace, OnInitialize, OnTerminate, list, Flat(layers[..k + 1]), Flat(layers), status, initialized == {});
          return;
        }
      }
      AllBelow(deps, forward, level, initialized);
      assert layers[..|layers|] == layers;
      NotUndone(Since(trace, |old(trace)|), OnInitialize, OnTerminate, Flat(forward));
    }

    /** `start`: all subsystems, dependency-first, or a rollback to the previous state. */
    method Start() returns (status: Status)
      requires Valid()
      modifies this
      ensures Valid() && deps == old(deps) && old(trace) <= trace
      ensures old(state) !in {Initialized, Stopped} ==>
                status == InvalidTransition && state == old(state) && trace == old(trace) && started == old(started)
      ensures old(state) in {Initialized, Stopped} && status == Ok ==> state == Running
      ensures old(state) in {Initialized, Stopped} && status != Ok ==> state in {old(state), Crashed}
      ensures initialized == old(initialized) && forward == old(forward)
      ensures old(state) in {Initialized, Stopped} ==>
                AllOrNothing(Since(trace, |old(trace)|), OnStart, OnStop, Flat(forward), status, state == old(state))
    {
      hide Flags, TraceSafe, Closed, SafeNext, FirstFailure, Stacked, Below, Ranked, Since, Done, FailedBehind, RunOf, Reverse, Flat, AllOrNothing;
      if state != Initialized && state != Stopped {
        return InvalidTransition;
      }
      var list: seq<Id> := [];
      NothingStacked(deps, level);
      NothingRun(trace, forward);
      var layers := forward;
      status := Ok;
      for k := 0 to |layers|
        invariant forward == layers && Sound() && Built() && Orderly(trace) && initialized == deps.Keys && deps == old(deps) && Registered(order, deps)
        invariant initialized == old(initialized)
        invariant Stacked(deps, list) && started == Members(list) && Below(level, started, k)
        invariant old(trace) <= trace && list == Flat(layers[..k]) && Done(Since(trace, |old(trace)|), OnStart, list)
        invariant status == Ok && state == old(state)
      {
        FlatSnoc(layers, k);
        FlatPrefix(layers, k + 1);
        status, list := StartLayer(k, layers[k], list, |old(trace)|);
        if status != Ok {
          ghost var middle := trace;
          var rollback := RollbackStarted(list);
          WasUndone(old(trace), middle, trace, OnStart, OnStop, list, Flat(layers[..k + 1]), Flat(layers), status, rollback == Ok);
          if rollback != Ok {
            state := Crashed;
          }
          return;
        }
      }
      AllBelow(deps, forward, level, started);
      assert layers[..|layers|] == layers;
      NotUndone(Since(trace, |old(trace)|), OnStart, OnStop, Flat(forward));
      state := Running;
    }

    /** `stop`: OK from RUNNING means everything stopped and still initialized. */
    method Stop() returns (status: Status)
      requires Valid()
      modifies this
      ensures Valid() && deps == old(deps) && old(trace) <= trace && started <= old(started) && initialized == old(initialized)
      ensures old(state) in {Uninitialized, Initialized, Stopped, Terminated} ==>
                status == Ok && state == old(state) && trace == old(trace)
      ensures old(state) == Running ==> state == if status == Ok then Stopped else Crashed
      ensures old(state) == Crashed ==> state == Crashed && (status == Ok ==> started == {})
      ensures status == FirstFailure(Since(trace, |old(trace)|)) && reverse == old(reverse)
      ensures old(state) in {Running, Crashed} ==>
                if status == Ok then StoppedThrough(Since(trace, |old(trace)|), reverse, old(started), |reverse|)
                else exists r :: StoppedAt(Since(trace, |old(trace)|), reverse, old(started), r)
    {
      hide Flags, TraceSafe, Closed, SafeNext, Ranked, StoppedThrough, StoppedAt;
      if state in {Uninitialized, Initialized, Stopped, Terminated} {
        return Ok;
      }
      status := StopStarted(false);
      state := if status == Ok && state == Running then Stopped else Crashed;
    }

    /**
     `terminate`: one stop hook on everything started, then one terminate hook on everything
     initialized, dependents first; TERMINATED only when every hook succeeded.
     */
    method Terminate() returns (status: Status)
      requires Valid()
      modifies this
      ensures Valid() && deps == old(deps) && old(trace) <= trace && initialized <= old(initialized)
      ensures state == if status == Ok then Terminated else Crashed
      ensures status == FirstFailure(Since(trace, |old(trace)|))
      ensures reverse == old(reverse)
      ensures exists n :: Teardown(Since(trace, |old(trace)|), n, reverse, old(started), old(initialized))
    {
      hide Flags, TraceSafe, Closed, SafeNext, Ranked, FirstFailure, Filter, Calls, Flat, Since, StoppedThrough, Teardown;
      if state == Terminated || state == Uninitialized {
        NothingYet([], started, trace, OnStop);
        NoTeardown(reverse);
        state := Terminated;
        return Ok;
      }
      status := StopStarted(true);
      ghost var middle := trace;
      var terminated := TerminateInitialized();
      FailuresAdd(old(trace), middle, trace);
      TornDown(old(trace), middle, trace, reverse, old(started), old(initialized));
      status := Record(terminated, status);
      state := if status == Ok then Terminated else Crashed;
    }
  }

  // ------------------------------------------------------------ which hooks were called

  /** Stop hooks on the started subsystems of the first `r` layers from the top, in that order. */
  ghost predicate StoppedThrough(es: seq<Event>, reverse: seq<seq<Id>>, s: set<Id>, r: nat) {
    r <= |reverse| && Calls(es, OnStop, Filter(Flat(reverse[..r]), s))
  }

  /** The first `r` layers were stopped, and the first failure was met in the last of them. */
  ghost predicate StoppedAt(es: seq<Event>, reverse: seq<seq<Id>>, s: set<Id>, r: nat) {
    && 0 < r && StoppedThrough(es, reverse, s, r)
    && var clean := |Filter(Flat(reverse[..r - 1]), s)|;
       clean <= |es| && FirstFailure(es[..clean]) == Ok && FirstFailure(es[clean..]) != Ok
  }

  /** Both sets agree below layer `k`. */
  ghost predicate SameBelow(level: map<Id, nat>, flags: set<Id>, before: set<Id>, k: int) {
    forall v :: v in level && level[v] < k ==> (v in flags <==> v in before)
  }

  lemma FilterSnoc(ids: seq<Id>, i: nat, s: set<Id>)
    requires i < |ids|
    ensures Filter(ids[..i + 1], s) == if ids[i] in s then Filter(ids[..i], s) + [ids[i]] else Filter(ids[..i], s)
  {
    assert ids[..i + 1][..i] == ids[..i];
  }

  lemma {:induction false} FilterSame(ids: seq<Id>, s: set<Id>, t: set<Id>)
    requires forall v :: v in ids ==> (v in s <==> v in t)
    ensures Filter(ids, s) == Filter(ids, t)
  {
    if ids != [] {
      FilterSame(ids[..|ids| - 1], s, t);
      assert ids[|ids| - 1] in ids;
    }
  }

  lemma CallsSnoc(trace: seq<Event>, mark: nat, e: Event, ids: seq<Id>)
    requires mark <= |trace| && Calls(Since(trace, mark), e.hook, ids)
    ensures Calls(Since(trace + [e], mark), e.hook, ids + [e.id])
  {
    SinceConcat(trace, mark, [e]);
  }

  lemma NoneOfLayer(layer: seq<Id>)
    ensures forall hook, s :: Calls([], hook, Filter(layer[..0], s))
  {
  }

  lemma NoneCalled(reverse: seq<seq<Id>>, s: set<Id>, hook: Hook)
    ensures Calls([], hook, Filter(Flat(reverse[..0]), s))
  {
  }

  lemma NoneStopped(reverse: seq<seq<Id>>, s: set<Id>)
    ensures StoppedThrough([], reverse, s, 0)
  {
  }

  /** One more layer joins the calls. */
  lemma CallsMore(deps: Dependencies, forward: seq<seq<Id>>, reverse: seq<seq<Id>>, level: map<Id, nat>,
                  start: seq<Event>, middle: seq<Event>, end: seq<Event>, hook: Hook, s: set<Id>, flags: set<Id>, r: nat)
    requires Ranked(deps, forward, level) && IsReverse(forward, reverse) && r < |reverse| && start <= middle <= end
    requires SameBelow(level, flags, s, |reverse| - r)
    requires Calls(Since(middle, |start|), hook, Filter(Flat(reverse[..r]), s))
    requires Calls(Since(end, |middle|), hook, Filter(reverse[r], flags))
    ensures Calls(Since(end, |start|), hook, Filter(Flat(reverse[..r + 1]), s))
  {
    hide Ranked, Filter, Calls, Flat;
    forall v | v in reverse[r] ensures v in flags <==> v in s {
      LayerMembers(deps, forward, level, |reverse| - 1 - r, v);
    }
    FilterSame(reverse[r], flags, s);
    FlatSnoc(reverse, r);
    FilterConcat(Flat(reverse[..r]), reverse[r], s);
    assert Since(end, |start|) == Since(middle, |start|) + Since(end, |middle|);
    CallsConcat(Since(middle, |start|), Since(end, |middle|), hook, Filter(Flat(reverse[..r]), s), Filter(reverse[r], s));
  }

  lemma StoppedMore(deps: Dependencies, forward: seq<seq<Id>>, reverse: seq<seq<Id>>, level: map<Id, nat>,
                    start: seq<Event>, middle: seq<Event>, end: seq<Event>, s: set<Id>, flags: set<Id>, r: nat)
    requires Ranked(deps, forward, level) && IsReverse(forward, reverse) && r < |reverse| && start <= middle <= end
    requires SameBelow(level, flags, s, |reverse| - r)
    requires StoppedThrough(Since(middle, |start|), reverse, s, r)
    requires Calls(Since(end, |middle|), OnStop, Filter(reverse[r], flags))
    ensures StoppedThrough(Since(end, |start|), reverse, s, r + 1)
  {
    hide Ranked, Filter, Calls, Flat, Since;
    CallsMore(deps, forward, reverse, level, start, middle, end, OnStop, s, flags, r);
  }

  lemma StoppedHere(start: seq<Event>, middle: seq<Event>, end: seq<Event>, reverse: seq<seq<Id>>, s: set<Id>, r: nat)
    requires start <= middle <= end && r < |reverse|
    requires StoppedThrough(Since(middle, |start|), reverse, s, r) && StoppedThrough(Since(end, |start|), reverse, s, r + 1)
    requires FirstFailure(Since(middle, |start|)) == Ok && FirstFailure(Since(end, |middle|)) != Ok
    ensures StoppedAt(Since(end, |start|), reverse, s, r + 1)
  {
    hide Filter, Flat, FirstFailure;
    var es := Since(end, |start|);
    var clean := |Filter(Flat(reverse[..r]), s)|;
    assert clean == |Since(middle, |start|)|;
    assert es[..clean] == Since(middle, |start|) && es[clean..] == Since(end, |middle|);
  }

  /** First the stop hooks, then the terminate hooks, each on its whole set from the top layer down. */
  ghost predicate Teardown(es: seq<Event>, n: nat, reverse: seq<seq<Id>>, s: set<Id>, i: set<Id>) {
    n <= |es| && Calls(es[..n], OnStop, Filter(Flat(reverse), s)) && Calls(es[n..], OnTerminate, Filter(Flat(reverse), i))
  }

  lemma NoTeardown(reverse: seq<seq<Id>>)
    ensures Teardown([], 0, reverse, {}, {})
  {
    FilterNone(Flat(reverse));
  }

  lemma {:induction false} FilterNone(ids: seq<Id>)
    ensures Filter(ids, {}) == []
  {
    if ids != [] {
      FilterNone(ids[..|ids| - 1]);
    }
  }

  lemma TornDown(start: seq<Event>, middle: seq<Event>, end: seq<Event>, reverse: seq<seq<Id>>, s: set<Id>, i: set<Id>)
    requires start <= middle <= end && StoppedThrough(Since(middle, |start|), reverse, s, |reverse|)
    requires Calls(Since(end, |middle|), OnTerminate, Filter(Flat(reverse), i))
    ensures Teardown(Since(end, |start|), |middle| - |start|, reverse, s, i)
  {
    hide Filter, Flat, Calls;
    var es, n := Since(end, |start|), |middle| - |start|;
    assert reverse[..|reverse|] == reverse;
    assert es[..n] == Since(middle, |start|) && es[n..] == Since(end, |middle|);
  }

  /**
   What a teardown did: a stop hook on every started and a terminate hook on every initialized
   subsystem, on nothing else, none twice, and all stop hooks first.
   */
  lemma TeardownIsComplete(deps: Dependencies, forward: seq<seq<Id>>, reverse: seq<seq<Id>>, level: map<Id, nat>,
                           es: seq<Event>, n: nat, s: set<Id>, i: set<Id>)
    requires Ranked(deps, forward, level) && IsReverse(forward, reverse) && s <= deps.Keys && i <= deps.Keys
    requires Teardown(es, n, reverse, s, i)
    ensures forall v :: v in s <==> exists x :: 0 <= x < |es| && es[x].hook == OnStop && es[x].id == v
    ensures forall v :: v in i <==> exists x :: 0 <= x < |es| && es[x].hook == OnTerminate && es[x].id == v
    ensures forall x, y :: 0 <= x < y < |es| && es[x].hook == es[y].hook ==> es[x].id != es[y].id
    ensures forall x, y :: 0 <= x < |es| && 0 <= y < |es| && es[x].hook == OnStop && es[y].hook == OnTerminate ==> x < y
    ensures forall x :: 0 <= x < |es| ==> es[x].hook == OnStop || es[x].hook == OnTerminate
  {
    hide Ranked, Flat, Filter;
    ReverseListsAll(deps, forward, reverse, level);
    var all := Flat(reverse);
    FilterNoRepeats(all, s);
    FilterNoRepeats(all, i);
    FilterMembers(all, s);
    FilterMembers(all, i);
    CalledMeans(es[..n], OnStop, Filter(all, s));
    CalledMeans(es[n..], OnTerminate, Filter(all, i));
    forall x | 0 <= x < |es| ensures es[x] == if x < n then es[..n][x] else es[n..][x - n] {
    }
    forall v ensures v in s <==> exists x :: 0 <= x < |es| && es[x].hook == OnStop && es[x].id == v {
      if v in s {
        var x :| 0 <= x < n && es[..n][x].id == v;
        assert es[x].hook == OnStop && es[x].id == v;
      }
      if x :| 0 <= x < |es| && es[x].hook == OnStop && es[x].id == v {
        assert es[..n][x].id == v;
      }
    }
    forall v ensures v in i <==> exists x :: 0 <= x < |es| && es[x].hook == OnTerminate && es[x].id == v {
      if v in i {
        var x :| 0 <= x < |es| - n && es[n..][x].id == v;
        assert es[n + x].hook == OnTerminate && es[n + x].id == v;
      }
      if x :| 0 <= x < |es| && es[x].hook == OnTerminate && es[x].id == v {
        assert es[n..][x - n].id == v;
      }
    }
  }

  lemma FilterMembers(ids: seq<Id>, s: set<Id>)
    ensures forall v :: v in Filter(ids, s) <==> v in ids && v in s
  {
  }

  lemma CalledMeans(es: seq<Event>, hook: Hook, ids: seq<Id>)
    requires Calls(es, hook, ids) && NoRepeats(ids)
    ensures |es| == |ids| && forall x :: 0 <= x < |es| ==> es[x].hook == hook && es[x].id == ids[x]
    ensures forall v :: v in ids <==> exists x :: 0 <= x < |es| && es[x].id == v
    ensures forall x, y :: 0 <= x < y < |es| ==> es[x].id != es[y].id
  {
    forall v | v in ids ensures exists x :: 0 <= x < |es| && es[x].id == v {
      var x :| 0 <= x < |ids| && ids[x] == v;
      assert es[x].id == v;
    }
  }

  /** All of `done` succeeded and the next of `all` failed with `status`. */
  ghost predicate FailedBehind(es: seq<Event>, hook: Hook, done: seq<Id>, all: seq<Id>, status: Status) {
    && |es| == |done| + 1 && |done| < |all| && done == all[..|done|]
    && Done(es[..|done|], hook, done)
    && es[|done|].hook == hook && es[|done|].id == all[|done|] && es[|done|].status == status != Ok
  }

  /**
   A run of `up` hooks over `order` that ends in the first failure, and if there was one, a run of
   `down` hooks over exactly those that succeeded, in reverse, that ends in its own first failure.
   */
  ghost predicate Undone(es: seq<Event>, n: nat, up: Hook, down: Hook, order: seq<Id>, status: Status) {
    && n <= |es| && RunOf(es[..n], up, order) && status == FirstFailure(es[..n])
    && if status == Ok then n == |es| else 0 < n <= |order| && RunOf(es[n..], down, Reverse(order[..n - 1]))
  }

  /** As `Undone`; after a failure everything is undone exactly when no `down` hook failed. */
  ghost predicate RolledBack(es: seq<Event>, n: nat, up: Hook, down: Hook, order: seq<Id>, status: Status, clean: bool) {
    Undone(es, n, up, down, order, status) && (status != Ok ==> (clean <==> FirstFailure(es[n..]) == Ok))
  }

  ghost predicate AllOrNothing(es: seq<Event>, up: Hook, down: Hook, order: seq<Id>, status: Status, clean: bool) {
    exists n :: RolledBack(es, n, up, down, order, status, clean)
  }

  lemma TopIsMember(list: seq<Id>, n: nat)
    requires n < |list|
    ensures list[n] in Members(list[..n + 1])
  {
    assert list[..n + 1][n] == list[n];
  }

  lemma NothingDone(list: seq<Id>)
    ensures |Reverse(list)| == |list| && forall hook :: Done([], hook, Reverse(list)[..0])
  {
  }

  lemma NothingRun(trace: seq<Event>, layers: seq<seq<Id>>)
    ensures Flat(layers[..0]) == [] && forall hook :: Done(Since(trace, |trace|), hook, [])
  {
  }

  /** One more hook of a rollback. */
  lemma NextDone(trace: seq<Event>, mark: nat, e: Event, list: seq<Id>, n: nat)
    requires mark <= |trace| && n < |list| && e.id == list[n] && |Reverse(list)| == |list|
    requires Done(Since(trace, mark), e.hook, Reverse(list)[..|list| - n - 1])
    ensures e.status == Ok ==> Done(Since(trace + [e], mark), e.hook, Reverse(list)[..|list| - n])
    ensures e.status != Ok ==> RunOf(Since(trace + [e], mark), e.hook, Reverse(list))
  {
    hide Done, RunOf;
    var r, m := Reverse(list), |list| - n - 1;
    SinceConcat(trace, mark, [e]);
    assert r[..m + 1] == r[..m] + [e.id];
    if e.status == Ok {
      DoneSnoc(Since(trace, mark), e.hook, r[..m], e);
    } else {
      FailSnoc(Since(trace, mark), e.hook, r[..m], e, r);
    }
  }

  lemma AllDone(es: seq<Event>, hook: Hook, list: seq<Id>)
    requires |Reverse(list)| == |list| && Done(es, hook, Reverse(list)[..|list|])
    ensures RunOf(es, hook, Reverse(list))
  {
    assert Reverse(list)[..|list|] == Reverse(list);
  }

  /** One more hook of a layer. */
  lemma OneMoreDone(trace: seq<Event>, mark: nat, e: Event, list: seq<Id>, layer: seq<Id>, i: nat)
    requires mark <= |trace| && i < |layer| && e.id == layer[i]
    requires Done(Since(trace, mark), e.hook, list + layer[..i])
    ensures list + layer[..i] + [e.id] == list + layer[..i + 1]
    ensures e.status == Ok ==> Done(Since(trace + [e], mark), e.hook, list + layer[..i + 1])
    ensures e.status != Ok ==> FailedBehind(Since(trace + [e], mark), e.hook, list + layer[..i], list + layer, e.status)
  {
    SinceConcat(trace, mark, [e]);
    var es, done := Since(trace, mark), list + layer[..i];
    assert layer[..i + 1] == layer[..i] + [layer[i]];
    assert (es + [e])[..|done|] == es;
    assert (list + layer)[..|done|] == done && (list + layer)[|done|] == layer[i];
    if e.status == Ok {
      DoneSnoc(es, e.hook, done, e);
      assert done + [e.id] == list + layer[..i + 1];
    }
  }

  /** The events of a failed start or initialization and of its rollback. */
  lemma WasUndone(start: seq<Event>, middle: seq<Event>, end: seq<Event>, up: Hook, down: Hook,
                  done: seq<Id>, some: seq<Id>, order: seq<Id>, status: Status, clean: bool)
    requires start <= middle <= end && some <= order && FailedBehind(Since(middle, |start|), up, done, some, status)
    requires RunOf(Since(end, |middle|), down, Reverse(done)) && (clean <==> FirstFailure(Since(end, |middle|)) == Ok)
    ensures AllOrNothing(Since(end, |start|), up, down, order, status, clean)
  {
    hide RunOf, Done, Reverse;
    var es, n := Since(end, |start|), |middle| - |start|;
    var first := Since(middle, |start|);
    assert es[..n] == first && es[n..] == Since(end, |middle|);
    assert order[..n - 1] == some[..n - 1] == done;
    assert done + [first[n - 1].id] <= order by {
      assert order[..n] == some[..n] == done + [some[n - 1]];
    }
    assert first == first[..n - 1] + [first[n - 1]];
    FailSnoc(first[..n - 1], up, done, first[n - 1], order);
    assert RolledBack(es, n, up, down, order, status, clean);
  }

  lemma NotUndone(es: seq<Event>, up: Hook, down: Hook, order: seq<Id>)
    requires Done(es, up, order)
    ensures forall clean :: AllOrNothing(es, up, down, order, Ok, clean)
  {
    hide Done;
    assert es[..|es|] == es;
    DoneHasNoFailure(es, up, order);
    forall clean ensures AllOrNothing(es, up, down, order, Ok, clean) {
      assert RolledBack(es, |es|, up, down, order, Ok, clean);
    }
  }

  lemma StillSame(deps: Dependencies, layers: seq<seq<Id>>, level: map<Id, nat>, k: nat, s: set<Id>, flags: set<Id>, flags': set<Id>)
    requires Ranked(deps, layers, level) && k < |layers| && SameBelow(level, flags, s, k + 1)
    requires forall v :: v !in layers[k] ==> (v in flags' <==> v in flags)
    ensures SameBelow(level, flags', s, k)
  {
    hide Ranked;
    forall v | v in level && level[v] < k ensures v in flags' <==> v in s {
      LayerMembers(deps, layers, level, k, v);
    }
  }

  lemma NothingStacked(deps: Dependencies, level: map<Id, nat>)
    ensures Stacked(deps, []) && Members([]) == {} && Below(level, {}, 0)
  {
  }

  lemma AllBelow(deps: Dependencies, layers: seq<seq<Id>>, level: map<Id, nat>, flags: set<Id>)
    requires Ranked(deps, layers, level) && Below(level, flags, |layers|)
    ensures flags == deps.Keys
  {
  }

  /** Exactly the subsystems below layer `k`. */
  ghost predicate Below(level: map<Id, nat>, flags: set<Id>, k: nat) {
    forall v :: v in flags <==> v in level && level[v] < k
  }

  /** Exactly the subsystems below layer `k` and the first `i` of it. */
  ghost predicate Partly(level: map<Id, nat>, flags: set<Id>, layer: seq<Id>, k: nat, i: nat) {
    i <= |layer| && forall v :: v in flags <==> (v in level && level[v] < k) || v in layer[..i]
  }

  lemma StartOfLayer(level: map<Id, nat>, flags: set<Id>, layer: seq<Id>, k: nat)
    requires Below(level, flags, k)
    ensures Partly(level, flags, layer, k, 0)
  {
  }

  lemma EndOfLayer(deps: Dependencies, layers: seq<seq<Id>>, level: map<Id, nat>, flags: set<Id>, k: nat)
    requires Ranked(deps, layers, level) && k < |layers| && Partly(level, flags, layers[k], k, |layers[k]|)
    ensures Below(level, flags, k + 1)
  {
    assert layers[k][..|layers[k]|] == layers[k];
    forall v ensures v in layers[k] <==> v in level && level[v] == k {
    }
  }

  lemma PartlyGrows(deps: Dependencies, layers: seq<seq<Id>>, level: map<Id, nat>, flags: set<Id>, k: nat, i: nat)
    requires Ranked(deps, layers, level) && k < |layers| && i < |layers[k]| && Partly(level, flags, layers[k], k, i)
    ensures Partly(level, flags + {layers[k][i]}, layers[k], k, i + 1)
  {
    hide Ranked;
    assert layers[k][..i + 1] == layers[k][..i] + [layers[k][i]];
  }

  /** The next subsystem of a layer is new and all its dependencies are there. */
  lemma Ready(deps: Dependencies, layers: seq<seq<Id>>, level: map<Id, nat>, flags: set<Id>, k: nat, i: nat)
    requires Ranked(deps, layers, level) && k < |layers| && i < |layers[k]| && Partly(level, flags, layers[k], k, i)
    ensures layers[k][i] in deps && layers[k][i] !in flags && forall u :: u in deps[layers[k][i]] ==> u in flags
  {
    var id := layers[k][i];
    assert level[id] == k;
    assert id !in layers[k][..i];
  }

  lemma StartIsSafe(deps: Dependencies, trace: seq<Event>, e: Event)
    requires e.id in deps && (e.initialized, e.started) == Flags(trace) && (Orderly(trace) ==> Closed(deps, e.started))
    requires e.hook.OnStart? ==> e.id in e.initialized && e.id !in e.started && forall u :: u in deps[e.id] ==> u in e.started
    requires e.hook.OnInitialize? ==> e.id !in e.initialized && forall u :: u in deps[e.id] ==> u in e.initialized
    requires e.hook.OnStart? || e.hook.OnInitialize?
    ensures SafeNext(deps, trace, e)
  {
    hide Closed;
  }

  lemma StackGrows(deps: Dependencies, list: seq<Id>, id: Id)
    requires Stacked(deps, list) && id in deps && id !in Members(list) && forall u :: u in deps[id] ==> u in Members(list)
    ensures Stacked(deps, list + [id]) && Members(list + [id]) == Members(list) + {id}
  {
    var longer := list + [id];
    forall i, u | 0 <= i < |longer| && u in deps[longer[i]] ensures u in longer[..i] {
      assert i < |list| ==> longer[..i] == list[..i];
      assert i == |list| ==> longer[..i] == list;
    }
  }

  function Members(list: seq<Id>): set<Id> {
    set v | v in list
  }

  /** Each entry once, after all its dependencies. */
  ghost predicate Stacked(deps: Dependencies, list: seq<Id>) {
    && (forall i, j :: 0 <= i < j < |list| ==> list[i] != list[j])
    && (forall i :: 0 <= i < |list| ==> list[i] in deps)
    && (forall i, u :: 0 <= i < |list| && u in deps[list[i]] ==> u in list[..i])
  }

  /** Nothing below the top of a stack depends on the top. */
  lemma TopUndepended(deps: Dependencies, list: seq<Id>, n: nat, v: Id)
    requires Stacked(deps, list) && n < |list| && v in list[..n + 1] && v in deps
    ensures list[n] !in deps[v]
  {
    var i :| 0 <= i <= n && list[i] == v;
  }

  lemma TopIsSafe(deps: Dependencies, list: seq<Id>, n: nat, trace: seq<Event>, e: Event)
    requires Stacked(deps, list) && n < |list| && e.id == list[n] && (e.initialized, e.started) == Flags(trace)
    requires (e.hook.OnStop? && e.started == Members(list[..n + 1])) || (e.hook.OnTerminate? && e.initialized == Members(list[..n + 1]))
    requires Orderly(trace) ==> Closed(deps, e.started)
    ensures SafeNext(deps, trace, e)
  {
    hide FailedBefore, Closed;
    var flags := if e.hook.OnStop? then e.started else e.initialized;
    assert list[..n + 1][n] == e.id;
    forall v | v in deps && v in flags ensures e.id !in deps[v] {
      TopUndepended(deps, list, n, v);
    }
  }

  lemma WithoutTop(deps: Dependencies, list: seq<Id>, n: nat)
    requires Stacked(deps, list) && n < |list|
    ensures Members(list[..n + 1]) - {list[n]} == Members(list[..n])
  {
    assert list[..n + 1] == list[..n] + [list[n]];
  }

  /** No member above layer `k`. */
  ghost predicate EmptyAbove(level: map<Id, nat>, flags: set<Id>, k: int) {
    forall v :: v in flags && v in level ==> level[v] <= k
  }

  lemma StartOfPass(deps: Dependencies, layers: seq<seq<Id>>, level: map<Id, nat>, flags: set<Id>, trace: seq<Event>,
                    hook: Hook, bestEffort: bool)
    requires Ranked(deps, layers, level) || flags == {}
    ensures PassedAbove(level, flags, trace, hook, |layers| - 1, bestEffort)
    ensures EmptyAbove(level, flags, |layers| - 1)
  {
  }

  lemma FailuresAdd(start: seq<Event>, middle: seq<Event>, end: seq<Event>)
    requires start <= middle <= end
    ensures FirstFailure(Since(end, |start|)) == Record(FirstFailure(Since(end, |middle|)), FirstFailure(Since(middle, |start|)))
  {
    assert end == middle + end[|middle|..];
    SinceConcat(middle, |start|, end[|middle|..]);
  }

  lemma EmptyLower(deps: Dependencies, layers: seq<seq<Id>>, level: map<Id, nat>, flags: set<Id>, flags': set<Id>, k: nat)
    requires Ranked(deps, layers, level) && k < |layers| && EmptyAbove(level, flags, k) && flags' <= flags
    requires forall v :: v in layers[k] ==> v !in flags'
    ensures EmptyAbove(level, flags', k - 1)
  {
    forall v | v in flags' && v in level ensures level[v] <= k - 1 {
      assert v in layers[level[v]];
    }
  }

  /** A finished layer joins the layers above it. */
  lemma NextLayer(deps: Dependencies, layers: seq<seq<Id>>, level: map<Id, nat>, flags: set<Id>, trace: seq<Event>,
                  hook: Hook, k: nat, bestEffort: bool, failure: Status)
    requires Ranked(deps, layers, level) && k < |layers|
    requires PassedAbove(level, flags, trace, hook, k, bestEffort) && PassedIn(layers[k], |layers[k]|, flags, trace, hook)
    requires failure == Ok ==> forall v :: v in layers[k] ==> v !in flags
    requires bestEffort || failure == Ok
    ensures PassedAbove(level, flags, trace, hook, k - 1, bestEffort)
  {
    hide FailedBefore;
    forall v | v in flags && v in level && level[v] > k - 1 ensures bestEffort && FailedBefore(trace, hook, v) {
      if level[v] == k {
        var j :| 0 <= j < |layers[k]| && layers[k][j] == v;
      }
    }
  }

  lemma AllLevelsEmpty(deps: Dependencies, layers: seq<seq<Id>>, level: map<Id, nat>, flags: set<Id>)
    requires Ranked(deps, layers, level) || flags == {}
    requires EmptyAbove(level, flags, -1) && flags <= deps.Keys
    ensures flags == {}
  {
    assert forall v :: v in flags ==> v in level;
  }

  lemma NothingYet(layer: seq<Id>, flags: set<Id>, trace: seq<Event>, hook: Hook)
    ensures PassedIn(layer, 0, flags, trace, hook) && Since(trace, |trace|) == [] && FirstFailure([]) == Ok
  {
  }

  lemma PassedMore(layer: seq<Id>, i: nat, flags: set<Id>, trace: seq<Event>, hook: Hook)
    requires PassedIn(layer, i, flags, trace, hook) && i < |layer| && layer[i] !in flags
    ensures PassedIn(layer, i + 1, flags, trace, hook)
  {
  }

  lemma PassedOne(layer: seq<Id>, i: nat, flags: set<Id>, before: seq<Event>, e: Event)
    requires PassedIn(layer, i, flags, before + [e], e.hook) && i < |layer| && layer[i] == e.id
    requires e.status == Ok ==> e.id !in flags
    ensures PassedIn(layer, i + 1, flags, before + [e], e.hook)
  {
    assert (before + [e])[|before|] == e;
  }

  /** After an orderly stop hook the started set is still closed. */
  lemma StoppedClosed(deps: Dependencies, trace: seq<Event>, e: Event)
    requires SafeNext(deps, trace, e) && e.hook.OnStop? && (Orderly(trace) ==> Closed(deps, e.started))
    ensures Orderly(trace + [e]) ==> Closed(deps, e.started) && Closed(deps, e.started - {e.id})
    ensures Orderly(trace) && !e.bestEffort ==> Orderly(trace + [e])
  {
    if Orderly(trace + [e]) {
      assert (trace + [e])[|trace|] == e && !e.bestEffort;
      forall y | 0 <= y < |trace| ensures !trace[y].bestEffort {
        assert (trace + [e])[y] == trace[y];
      }
      ClosedWithout(deps, e.started, e.id);
    }
  }
}
