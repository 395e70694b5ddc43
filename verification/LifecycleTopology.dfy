/** From declared dependencies to layers: `build_topology` (state/state.cpp:266-310). */
module LifecycleTopology {
  import opened Basics
  import opened Lifecycle
  import Topology
  import Layers
  import DG = DependencyGraph

  /** Some chain of declared dependencies returns to where it began. */
  ghost predicate Cyclic(deps: Dependencies) {
    exists p: seq<Id> :: DependencyLoop(deps, p)
  }

  ghost predicate DependencyLoop(deps: Dependencies, p: seq<Id>) {
    && |p| > 1 && p[0] == p[|p| - 1]
    && (forall i :: 0 <= i < |p| ==> p[i] in deps)
    && (forall i :: 0 <= i < |p| - 1 ==> p[i] in deps[p[i + 1]])
  }

  /** Some declared dependency was never registered. */
  ghost predicate Missing(deps: Dependencies) {
    exists v, u {:trigger u in deps[v]} :: v in deps && u in deps[v] && u !in deps
  }

  /** Some dependency was declared twice. */
  ghost predicate Doubled(deps: Dependencies) {
    exists v :: v in deps && !Topology.Distinct(deps[v])
  }

  /** What `build_topology` accepts. */
  ghost predicate Buildable(deps: Dependencies) {
    && (forall v, u {:trigger u in deps[v]} :: v in deps && u in deps[v] ==> u in deps)
    && (forall v :: v in deps ==> Topology.Distinct(deps[v]))
    && !Cyclic(deps)
  }

  ghost predicate Registered(order: seq<Id>, deps: Dependencies) {
    && Topology.Distinct(order)
    && (forall i :: 0 <= i < |order| ==> order[i] in deps)
    && (forall v :: v in deps ==> v in order)
  }

  /** Edges of the first `e` subsystems and of `d` dependencies of the next one. */
  ghost predicate EdgesAre(dependents: seq<seq<nat>>, order: seq<Id>, deps: Dependencies, e: nat, d: nat)
    requires forall i :: 0 <= i < |order| ==> order[i] in deps
  {
    && |dependents| == |order|
    && forall u, v {:trigger v in dependents[u]} :: 0 <= u < |order| && 0 <= v < |order| ==>
         (v in dependents[u] <==> (v < e && order[u] in deps[order[v]])
                                  || (v == e && d <= |deps[order[e]]| && order[u] in deps[order[e]][..d]))
  }

  lemma NextSubsystem(dependents: seq<seq<nat>>, order: seq<Id>, deps: Dependencies, e: nat)
    requires (forall i :: 0 <= i < |order| ==> order[i] in deps) && e < |order|
    requires EdgesAre(dependents, order, deps, e, |deps[order[e]]|)
    ensures EdgesAre(dependents, order, deps, e + 1, 0)
  {
    var all := deps[order[e]];
    assert all[..|all|] == all;
  }

  lemma NextDependency(before: seq<seq<nat>>, after: seq<seq<nat>>, order: seq<Id>, deps: Dependencies, e: nat, d: nat, u: nat)
    requires Topology.Distinct(order) && (forall i :: 0 <= i < |order| ==> order[i] in deps)
    requires e < |order| && u < |order| && d < |deps[order[e]]| && order[u] == deps[order[e]][d]
    requires EdgesAre(before, order, deps, e, d) && after == before[u := before[u] + [e]]
    ensures EdgesAre(after, order, deps, e, d + 1)
  {
    var all := deps[order[e]];
    assert all[..d + 1] == all[..d] + [all[d]];
  }

  /** Dependencies of one subsystem, as edges; a failure names the first bad declaration. */
  method AddEdges(topology: DG.DependencyGraph<Id>, order: seq<Id>, deps: Dependencies, e: nat) returns (status: Status)
    requires topology.Valid() && topology.nodes == order && Registered(order, deps) && e < |order|
    requires EdgesAre(topology.dependents, order, deps, e, 0)
    modifies topology
    ensures topology.Valid() && topology.nodes == order
    ensures status == Ok ==> EdgesAre(topology.dependents, order, deps, e + 1, 0)
    ensures status == Ok <==> (forall u :: u in deps[order[e]] ==> u in deps) && Topology.Distinct(deps[order[e]])
    ensures status in {Ok, MissingDependency, DuplicateDependency}
    ensures status == MissingDependency ==> exists u :: u in deps[order[e]] && u !in deps
    ensures status == DuplicateDependency ==> !Topology.Distinct(deps[order[e]])
  {
    hide EdgesAre, DG.DependencyGraph.Valid;
    var all := deps[order[e]];
    for d := 0 to |all|
      invariant topology.Valid() && topology.nodes == order
      invariant EdgesAre(topology.dependents, order, deps, e, d)
      invariant forall i :: 0 <= i < d ==> all[i] in deps
      invariant Topology.Distinct(all[..d])
    {
      if all[d] !in deps {
        return MissingDependency;
      }
      status := AddEdge(topology, order, deps, e, d);
      if status != Ok {
        return;
      }
    }
    assert all[..|all|] == all;
    NextSubsystem(topology.dependents, order, deps, e);
    status := Ok;
  }

  /** One dependency as an edge; it fails exactly when it was declared before. */
  method AddEdge(topology: DG.DependencyGraph<Id>, order: seq<Id>, deps: Dependencies, e: nat, d: nat) returns (status: Status)
    requires topology.Valid() && topology.nodes == order && Registered(order, deps) && e < |order| && d < |deps[order[e]]|
    requires EdgesAre(topology.dependents, order, deps, e, d) && deps[order[e]][d] in deps && Topology.Distinct(deps[order[e]][..d])
    modifies topology
    ensures topology.Valid() && topology.nodes == order
    ensures status == Ok ==> EdgesAre(topology.dependents, order, deps, e, d + 1) && Topology.Distinct(deps[order[e]][..d + 1])
    ensures status != Ok ==> status == DuplicateDependency && !Topology.Distinct(deps[order[e]])
  {
    hide EdgesAre, Topology.WellFormed, Layers.Counts, Layers.AreLayers;
    var all := deps[order[e]];
    assert all[d] in order && order[e] in order;
    ghost var before := topology.dependents;
    var added := topology.AddDependency(all[d], order[e]);
    ghost var u: nat :| u < |order| && order[u] == all[d];
    AddedMeans(before, order, deps, e, d, u);
    if added != DG.Ok {
      return DuplicateDependency;
    }
    NextDependency(before, topology.dependents, order, deps, e, d, u);
    return Ok;
  }

  /** An edge is already there exactly when the dependency was declared before. */
  lemma AddedMeans(before: seq<seq<nat>>, order: seq<Id>, deps: Dependencies, e: nat, d: nat, u: nat)
    requires Topology.Distinct(order) && (forall i :: 0 <= i < |order| ==> order[i] in deps)
    requires e < |order| && u < |order| && d < |deps[order[e]]| && order[u] == deps[order[e]][d]
    requires EdgesAre(before, order, deps, e, d) && Topology.Distinct(deps[order[e]][..d])
    ensures |before| == |order|
    ensures e in before[u] <==> !Topology.Distinct(deps[order[e]][..d + 1])
    ensures e in before[u] ==> !Topology.Distinct(deps[order[e]])
  {
    var all := deps[order[e]];
    assert all[..d + 1] == all[..d] + [all[d]];
    if e in before[u] {
      var i :| 0 <= i < d && all[..d][i] == all[d];
      assert all[i] == all[d] && all[..d + 1][i] == all[..d + 1][d];
    }
  }

  /** The graph's edges are the declared dependencies. */
  ghost predicate Matches(g: Topology.Graph, order: seq<Id>, deps: Dependencies) {
    && Registered(order, deps) && |g.dependents| == |order|
    && (forall v, u {:trigger u in deps[v]} :: v in deps && u in deps[v] ==> u in deps)
    && forall u, v {:trigger v in g.dependents[u]} :: 0 <= u < |order| && 0 <= v < |order| ==>
         (v in g.dependents[u] <==> order[u] in deps[order[v]])
  }

  lemma EdgeIff(g: Topology.Graph, order: seq<Id>, deps: Dependencies, u: nat, v: nat)
    requires Matches(g, order, deps) && u < |order| && v < |order|
    ensures order[v] in deps && (u in Topology.Prerequisites(g, v) <==> order[u] in deps[order[v]])
  {
  }

  /** A cycle of indexes is a cycle of declarations. */
  lemma CyclesAgree(g: Topology.Graph, order: seq<Id>, deps: Dependencies)
    requires Matches(g, order, deps)
    ensures Layers.HasCycle(g) <==> Cyclic(deps)
  {
    hide Matches, Topology.Prerequisites;
    MatchesSize(g, order, deps);
    if Layers.HasCycle(g) {
      var p :| Layers.Chain(g, p) && |p| > 1 && p[0] == p[|p| - 1];
      var q := seq(|p|, i requires 0 <= i < |p| => order[p[i]]);
      forall i {:trigger q[i]} | 0 <= i < |p| - 1 ensures q[i + 1] in deps && q[i] in deps[q[i + 1]] {
        EdgeIff(g, order, deps, p[i], p[i + 1]);
      }
      assert DependencyLoop(deps, q);
    }
    if Cyclic(deps) {
      var q :| DependencyLoop(deps, q);
      LoopIsChain(g, order, deps, q);
    }
  }

  lemma MatchesSize(g: Topology.Graph, order: seq<Id>, deps: Dependencies)
    requires Matches(g, order, deps)
    ensures |g.dependents| == |order| && Registered(order, deps)
  {
  }

  lemma LoopIsChain(g: Topology.Graph, order: seq<Id>, deps: Dependencies, q: seq<Id>)
    requires Matches(g, order, deps) && DependencyLoop(deps, q)
    ensures Layers.HasCycle(g)
  {
    hide Matches, Topology.Prerequisites;
    MatchesSize(g, order, deps);
    var p := seq(|q|, i requires 0 <= i < |q| => IndexOf(order, q[i]));
    forall i | 0 <= i < |p| ensures p[i] < |order| && order[p[i]] == q[i] {
      InOrder(order, q[i]);
    }
    forall i | 0 <= i < |p| - 1 ensures p[i] in Topology.Prerequisites(g, p[i + 1]) {
      EdgeIff(g, order, deps, p[i], p[i + 1]);
    }
    assert Layers.Chain(g, p);
  }

  lemma InOrder(order: seq<Id>, v: Id)
    requires v in order
    ensures IndexOf(order, v) < |order| && order[IndexOf(order, v)] == v
  {
    assert order[..|order|] == order;
  }

  /** The layer that lists a subsystem. */
  ghost function LevelIn(layers: seq<seq<Id>>, v: Id): (k: nat)
    ensures (exists j :: 0 <= j < |layers| && v in layers[j]) ==> k < |layers| && v in layers[k]
  {
    if layers == [] then 0
    else if v in layers[|layers| - 1] then |layers| - 1
    else LevelIn(layers[..|layers| - 1], v)
  }

  ghost function Levels(deps: Dependencies, layers: seq<seq<Id>>): map<Id, nat> {
    map v | v in deps :: LevelIn(layers, v)
  }

  /** Layers of a matching graph rank the subsystems. */
  lemma RankedByLayers(g: Topology.Graph, order: seq<Id>, deps: Dependencies, indexes: seq<seq<nat>>, layers: seq<seq<Id>>)
    requires Matches(g, order, deps) && Topology.WellFormed(g) && Layers.AreLayers(g, indexes) && DG.Names(order, indexes, layers)
    ensures Ranked(deps, layers, Levels(deps, layers))
  {
    hide Topology.WellFormed, Layers.AreLayers, Topology.Prerequisites, Matches, LevelIn, DG.Names;
    MatchesSize(g, order, deps);
    var level := Levels(deps, layers);
    LayersSize(g, indexes, order, layers);
    forall v | v in deps ensures LevelIn(layers, v) < |layers| && v in layers[LevelIn(layers, v)] {
      PlaceOf(g, order, deps, indexes, layers, v);
    }
    forall k, i | 0 <= k < |layers| && 0 <= i < |layers[k]| ensures layers[k][i] in level && level[layers[k][i]] == k {
      MemberPlace(g, order, deps, indexes, layers, k, i);
      OnePlace(g, order, deps, indexes, layers, layers[k][i], k, LevelIn(layers, layers[k][i]));
    }
    forall v, u | v in deps && u in deps[v] ensures u in level && level[u] < level[v] {
      DependencyLower(g, order, deps, indexes, layers, u, v);
    }
    forall k, i, j | 0 <= k < |layers| && 0 <= i < j < |layers[k]| ensures layers[k][i] != layers[k][j] {
      LayerDistinct(g, order, deps, indexes, layers, k, i, j);
    }
  }

  lemma LayersSize(g: Topology.Graph, indexes: seq<seq<nat>>, order: seq<Id>, layers: seq<seq<Id>>)
    requires DG.Names(order, indexes, layers)
    ensures |layers| == |indexes| && forall k :: 0 <= k < |layers| ==> |layers[k]| == |indexes[k]|
  {
  }

  lemma MemberPlace(g: Topology.Graph, order: seq<Id>, deps: Dependencies, indexes: seq<seq<nat>>, layers: seq<seq<Id>>, k: nat, i: nat)
    requires Matches(g, order, deps) && Layers.AreLayers(g, indexes) && DG.Names(order, indexes, layers)
    requires k < |layers| && i < |layers[k]|
    ensures k < |indexes| && i < |indexes[k]| && indexes[k][i] < |order| && layers[k][i] == order[indexes[k][i]]
    ensures layers[k][i] in deps && Layers.InLayer(g, indexes, indexes[k][i], k)
  {
    assert DG.NamesLayer(order, indexes[k], layers[k]);
  }

  lemma PlaceOf(g: Topology.Graph, order: seq<Id>, deps: Dependencies, indexes: seq<seq<nat>>, layers: seq<seq<Id>>, v: Id)
    requires Matches(g, order, deps) && Layers.AreLayers(g, indexes) && DG.Names(order, indexes, layers) && v in deps
    ensures LevelIn(layers, v) < |layers| && v in layers[LevelIn(layers, v)]
  {
    hide Layers.AreLayers, Topology.Prerequisites;
    InOrder(order, v);
    var x := IndexOf(order, v);
    Layers.LayersPartition(g, indexes, x);
    var k: nat :| Layers.InLayer(g, indexes, x, k);
    var i :| 0 <= i < |indexes[k]| && indexes[k][i] == x;
    assert DG.NamesLayer(order, indexes[k], layers[k]);
    assert layers[k][i] == v;
  }

  lemma OnePlace(g: Topology.Graph, order: seq<Id>, deps: Dependencies, indexes: seq<seq<nat>>, layers: seq<seq<Id>>, v: Id, j: nat, k: nat)
    requires Matches(g, order, deps) && Layers.AreLayers(g, indexes) && DG.Names(order, indexes, layers)
    requires j < |layers| && k < |layers| && v in layers[j] && v in layers[k]
    ensures j == k
  {
    hide Layers.AreLayers, Topology.Prerequisites, DG.Names, Matches;
    MatchesSize(g, order, deps);
    var a :| 0 <= a < |layers[j]| && layers[j][a] == v;
    var b :| 0 <= b < |layers[k]| && layers[k][b] == v;
    MemberPlace(g, order, deps, indexes, layers, j, a);
    MemberPlace(g, order, deps, indexes, layers, k, b);
    Layers.LayersPartition(g, indexes, indexes[j][a]);
  }

  lemma DependencyLower(g: Topology.Graph, order: seq<Id>, deps: Dependencies, indexes: seq<seq<nat>>, layers: seq<seq<Id>>, u: Id, v: Id)
    requires Matches(g, order, deps) && Topology.WellFormed(g) && Layers.AreLayers(g, indexes) && DG.Names(order, indexes, layers)
    requires v in deps && u in deps[v]
    ensures u in deps && LevelIn(layers, u) < LevelIn(layers, v)
  {
    hide Layers.AreLayers, DG.Names, Topology.WellFormed, LevelIn, Topology.Prerequisites;
    assert u in deps;
    PlaceOf(g, order, deps, indexes, layers, u);
    PlaceOf(g, order, deps, indexes, layers, v);
    var j, k := LevelIn(layers, u), LevelIn(layers, v);
    var a :| 0 <= a < |layers[j]| && layers[j][a] == u;
    var b :| 0 <= b < |layers[k]| && layers[k][b] == v;
    MemberPlace(g, order, deps, indexes, layers, j, a);
    MemberPlace(g, order, deps, indexes, layers, k, b);
    var x, y := indexes[j][a], indexes[k][b];
    assert y in g.dependents[x];
    Layers.EdgesGoForward(g, indexes, x, y, j, k);
  }

  lemma LayerDistinct(g: Topology.Graph, order: seq<Id>, deps: Dependencies, indexes: seq<seq<nat>>, layers: seq<seq<Id>>, k: nat, i: nat, j: nat)
    requires Matches(g, order, deps) && Layers.AreLayers(g, indexes) && DG.Names(order, indexes, layers)
    requires k < |layers| && i < j < |layers[k]|
    ensures layers[k][i] != layers[k][j]
  {
    assert DG.NamesLayer(order, indexes[k], layers[k]);
    assert Layers.Ascending(indexes[k]);
  }

  /** The two declaration loops of `build_topology`. */
  method Declare(order: seq<Id>, deps: Dependencies) returns (status: Status, topology: DG.DependencyGraph<Id>)
    requires Registered(order, deps)
    ensures fresh(topology) && topology.Valid() && topology.nodes == order
    ensures status == Ok ==> Matches(topology.G(), order, deps)
    ensures status == Ok <==>
            && (forall v, u {:trigger u in deps[v]} :: v in deps && u in deps[v] ==> u in deps)
            && (forall v :: v in deps ==> Topology.Distinct(deps[v]))
    ensures status in {Ok, MissingDependency, DuplicateDependency}
    ensures status == MissingDependency ==> Missing(deps)
    ensures status == DuplicateDependency ==> Doubled(deps)
  {
    hide EdgesAre, Topology.WellFormed, Layers.Counts, Layers.AreLayers;
    topology := AddNodes(order);
    NoEdges(topology.dependents, order, deps);
    for e := 0 to |order|
      invariant fresh(topology) && topology.Valid() && topology.nodes == order
      invariant EdgesAre(topology.dependents, order, deps, e, 0)
      invariant forall i :: 0 <= i < e ==> (forall u :: u in deps[order[i]] ==> u in deps) && Topology.Distinct(deps[order[i]])
    {
      status := AddEdges(topology, order, deps, e);
      if status != Ok {
        return;
      }
    }
    AllDeclared(order, deps);
    AllEdges(topology.dependents, order, deps);
    status := Ok;
  }

  method AddNodes(order: seq<Id>) returns (topology: DG.DependencyGraph<Id>)
    requires Topology.Distinct(order)
    ensures fresh(topology) && topology.Valid() && topology.nodes == order
    ensures |topology.dependents| == |order| && forall u :: 0 <= u < |order| ==> topology.dependents[u] == []
  {
    hide Topology.WellFormed, Layers.Counts, Layers.AreLayers;
    topology := new DG.DependencyGraph<Id>();
    for e := 0 to |order|
      invariant fresh(topology) && topology.Valid() && topology.nodes == order[..e]
      invariant |topology.dependents| == e && forall u :: 0 <= u < e ==> topology.dependents[u] == []
    {
      assert order[e] !in order[..e];
      var _ := topology.AddNode(order[e]);
      assert order[..e + 1] == order[..e] + [order[e]];
    }
    assert order[..|order|] == order;
  }

  /** `build_topology`: layers exist exactly for registered, undoubled, acyclic dependencies. */
  method BuildLayers(order: seq<Id>, deps: Dependencies)
    returns (status: Status, forward: seq<seq<Id>>, reverse: seq<seq<Id>>, ghost level: map<Id, nat>)
    requires Registered(order, deps)
    ensures status == Ok <==> Buildable(deps)
    ensures status in {Ok, MissingDependency, DuplicateDependency, DependencyCycle}
    ensures status == MissingDependency ==> Missing(deps)
    ensures status == DuplicateDependency ==> Doubled(deps)
    ensures status == DependencyCycle ==> Cyclic(deps) && !Missing(deps) && !Doubled(deps)
    ensures status == Ok ==> Ranked(deps, forward, level) && IsReverse(forward, reverse)
  {
    hide EdgesAre, Ranked, Cyclic, Layers.HasCycle, Layers.AreLayers, DG.Names, Layers.Counts, Matches, Topology.Distinct;
    forward, reverse, level := [], [], map[];
    var topology;
    status, topology := Declare(order, deps);
    if status != Ok {
      return;
    }
    CyclesAgree(topology.G(), order, deps);
    var layered;
    layered, forward := topology.ForwardLayers();
    if layered != DG.Ok {
      return DependencyCycle, [], [], map[];
    }
    RankedByLayers(topology.G(), order, deps, topology.layerIndexes, forward);
    level := Levels(deps, forward);
    reverse := DG.Reversed(forward);
    status := Ok;
  }

  lemma NoEdges(dependents: seq<seq<nat>>, order: seq<Id>, deps: Dependencies)
    requires Registered(order, deps) && |dependents| == |order| && forall u :: 0 <= u < |dependents| ==> dependents[u] == []
    ensures EdgesAre(dependents, order, deps, 0, 0)
  {
  }

  lemma AllDeclared(order: seq<Id>, deps: Dependencies)
    requires Registered(order, deps)
    requires forall i :: 0 <= i < |order| ==> (forall u :: u in deps[order[i]] ==> u in deps) && Topology.Distinct(deps[order[i]])
    ensures forall v, u {:trigger u in deps[v]} :: v in deps && u in deps[v] ==> u in deps
    ensures forall v :: v in deps ==> Topology.Distinct(deps[v])
  {
    forall v | v in deps ensures Topology.Distinct(deps[v]) && forall u :: u in deps[v] ==> u in deps {
      var i :| 0 <= i < |order| && order[i] == v;
    }
  }

  lemma AllEdges(dependents: seq<seq<nat>>, order: seq<Id>, deps: Dependencies)
    requires Registered(order, deps) && EdgesAre(dependents, order, deps, |order|, 0)
    requires forall v, u {:trigger u in deps[v]} :: v in deps && u in deps[v] ==> u in deps
    ensures Matches(Topology.Graph(dependents), order, deps)
  {
  }
}
