/**
 Layers of a topology, defined without the algorithm: a node is settled after `k` rounds when
 all its prerequisites were settled before.
 */
module Layers {
  import opened Basics
  import opened Topology

  function ReadySet(g: Graph, c: set<nat>): set<nat> {
    set v | 0 <= v < |g.dependents| && Prerequisites(g, v) <= c
  }

  /** Nodes whose longest prerequisite chain has fewer than `k` edges. */
  function Settled(g: Graph, k: nat): set<nat> {
    if k == 0 then {} else ReadySet(g, Settled(g, k - 1))
  }

  /** Layer `k` of the topology. */
  function LayerSet(g: Graph, k: nat): set<nat> {
    Settled(g, k + 1) - Settled(g, k)
  }

  predicate Ascending(s: seq<nat>) {
    forall i, j :: 0 <= i < j < |s| ==> s[i] < s[j]
  }

  function Elements(s: seq<nat>): set<nat> {
    set x | x in s
  }

  /** `layers` lists the layers in order, each ascending, and leaves no node out. */
  ghost predicate AreLayers(g: Graph, layers: seq<seq<nat>>) {
    && (forall k :: 0 <= k < |layers| ==>
          layers[k] != [] && Ascending(layers[k]) && Elements(layers[k]) == LayerSet(g, k))
    && (forall v :: 0 <= v < |g.dependents| ==> v in Settled(g, |layers|))
  }

  lemma {:induction false} SettledGrows(g: Graph, j: nat, k: nat)
    requires j <= k
    ensures Settled(g, j) <= Settled(g, k)
    decreases k
  {
    if 0 < j {
      SettledGrows(g, j - 1, k - 1);
    }
  }

  lemma {:induction false} SettledAreNodes(g: Graph, k: nat, v: nat)
    requires v in Settled(g, k)
    ensures v < |g.dependents|
  {
  }

  /** Once a round settles nothing new, no later round does. */
  lemma {:induction false} Fixpoint(g: Graph, k: nat, j: nat)
    requires Settled(g, k + 1) == Settled(g, k) && k <= j
    ensures Settled(g, j) == Settled(g, k)
    decreases j
  {
    if k < j {
      Fixpoint(g, k, j - 1);
    }
  }

  // ----------------------------------------------------- chains and cycles

  /** Consecutive nodes are joined by edges. */
  ghost predicate Chain(g: Graph, p: seq<nat>) {
    && |p| > 0
    && (forall i :: 0 <= i < |p| ==> p[i] < |g.dependents|)
    && (forall i :: 0 <= i < |p| - 1 ==> p[i] in Prerequisites(g, p[i + 1]))
  }

  ghost predicate HasCycle(g: Graph) {
    exists p :: Chain(g, p) && |p| > 1 && p[0] == p[|p| - 1]
  }

  /** A settled node bounds every chain that ends in it. */
  lemma {:induction false} ChainBound(g: Graph, p: seq<nat>, k: nat)
    requires Chain(g, p) && p[|p| - 1] in Settled(g, k)
    ensures |p| <= k
    decreases k
  {
    if |p| > 1 {
      var q := p[..|p| - 1];
      assert p[|p| - 2] in Prerequisites(g, p[|p| - 2 + 1]);
      forall i | 0 <= i < |q| - 1 ensures q[i] in Prerequisites(g, q[i + 1]) {
        assert p[i] in Prerequisites(g, p[i + 1]);
      }
      ChainBound(g, q, k - 1);
    }
  }

  lemma ChainSnoc(g: Graph, q: seq<nat>, v: nat)
    requires Chain(g, q) && v < |g.dependents| && q[|q| - 1] in Prerequisites(g, v)
    ensures Chain(g, q + [v])
  {
    var p := q + [v];
    forall i | 0 <= i < |p| - 1 ensures p[i] in Prerequisites(g, p[i + 1]) {
      assert i < |q| - 1 ==> q[i] in Prerequisites(g, q[i + 1]);
    }
  }

  lemma UnsettledPrerequisite(g: Graph, k: nat, v: nat) returns (u: nat)
    requires Settled(g, k + 1) == Settled(g, k) && v < |g.dependents| && v !in Settled(g, k)
    ensures u in Prerequisites(g, v) && u !in Settled(g, k) && u < |g.dependents|
  {
    assert v !in Settled(g, k + 1);
    u :| u in Prerequisites(g, v) && u !in Settled(g, k);
  }

  /** A node of layer `k` ends a chain of `k` edges: its layer is its longest prerequisite chain. */
  lemma {:induction false} ChainOfLayer(g: Graph, v: nat, k: nat) returns (p: seq<nat>)
    requires v in LayerSet(g, k)
    ensures Chain(g, p) && p[|p| - 1] == v && |p| == k + 1
    decreases k
  {
    if k == 0 {
      p := [v];
    } else {
      var u :| u in Prerequisites(g, v) && u !in Settled(g, k - 1);
      assert u in Settled(g, k);
      var q := ChainOfLayer(g, u, k - 1);
      ChainSnoc(g, q, v);
      p := q + [v];
    }
  }

  /** Unsettled nodes at a fixpoint can be walked backwards forever. */
  lemma {:induction false} BackwardWalk(g: Graph, k: nat, v: nat, n: nat) returns (p: seq<nat>)
    requires Settled(g, k + 1) == Settled(g, k) && v < |g.dependents| && v !in Settled(g, k)
    ensures Chain(g, p) && |p| == n + 1 && p[|p| - 1] == v
    decreases n
  {
    if n == 0 {
      p := [v];
    } else {
      hide Settled, Prerequisites, Chain;
      var u := UnsettledPrerequisite(g, k, v);
      var q := BackwardWalk(g, k, u, n - 1);
      ChainSnoc(g, q, v);
      p := q + [v];
    }
  }

  lemma {:induction false} DistinctIsShort(s: seq<nat>, n: nat)
    requires Distinct(s) && forall i :: 0 <= i < |s| ==> s[i] < n
    ensures |s| <= n
  {
    SizeOfDistinct(s);
    FullSet(n, Elements(s));
  }

  lemma {:induction false} SizeOfDistinct(s: seq<nat>)
    requires Distinct(s)
    ensures |Elements(s)| == |s|
  {
    if s == [] {
      assert Elements(s) == {};
    } else {
      var init, x := s[..|s| - 1], s[|s| - 1];
      SizeOfDistinct(init);
      assert s == init + [x];
      assert Elements(s) == Elements(init) + {x};
      assert x !in init;
    }
  }

  /** A longer walk than there are nodes visits one twice: a cycle. */
  lemma LongChainHasCycle(g: Graph, p: seq<nat>)
    requires Chain(g, p) && |p| > |g.dependents|
    ensures HasCycle(g)
  {
    if Distinct(p) {
      DistinctIsShort(p, |g.dependents|);
    }
    var i, j :| 0 <= i < j < |p| && p[i] == p[j];
    var c := p[i..j + 1];
    forall m | 0 <= m < |c| - 1 ensures c[m] in Prerequisites(g, c[m + 1]) {
      assert p[i + m] in Prerequisites(g, p[i + m + 1]);
    }
    assert Chain(g, c);
  }

  /** Going round a cycle makes chains of any length, so no node on it settles. */
  lemma {:induction false} CycleRepeats(g: Graph, p: seq<nat>, n: nat) returns (q: seq<nat>)
    requires Chain(g, p) && |p| > 1 && p[0] == p[|p| - 1]
    ensures Chain(g, q) && |q| > n && q[|q| - 1] == p[0]
  {
    if n == 0 {
      q := p;
    } else {
      var r := CycleRepeats(g, p, n - 1);
      q := r + p[1..];
      forall i | 0 <= i < |q| - 1 ensures q[i] in Prerequisites(g, q[i + 1]) {
        if i < |r| - 1 {
          assert r[i] in Prerequisites(g, r[i + 1]);
        } else {
          assert q[i] == p[i - (|r| - 1)];
          assert p[i - (|r| - 1)] in Prerequisites(g, p[i - (|r| - 1) + 1]);
        }
      }
    }
  }

  /** Rounds settle every node exactly when no directed cycle exists. */
  lemma SettlesIffNoCycle(g: Graph, k: nat)
    requires Settled(g, k + 1) == Settled(g, k)
    ensures (forall v :: 0 <= v < |g.dependents| ==> v in Settled(g, k)) <==> !HasCycle(g)
  {
    if HasCycle(g) {
      var p :| Chain(g, p) && |p| > 1 && p[0] == p[|p| - 1];
      if p[0] in Settled(g, k) {
        var q := CycleRepeats(g, p, k);
        ChainBound(g, q, k);
      }
    }
    if v :| 0 <= v < |g.dependents| && v !in Settled(g, k) {
      var p := BackwardWalk(g, k, v, |g.dependents|);
      LongChainHasCycle(g, p);
    }
  }

  // ------------------------------------------------ what the layers promise

  /** The layer that holds a node. */
  ghost predicate InLayer(g: Graph, layers: seq<seq<nat>>, v: nat, k: nat) {
    k < |layers| && v in layers[k]
  }

  /** Every node is in exactly one layer. */
  lemma {:induction false} LayersPartition(g: Graph, layers: seq<seq<nat>>, v: nat)
    requires AreLayers(g, layers) && v < |g.dependents|
    ensures exists k :: InLayer(g, layers, v, k)
    ensures forall j, k :: InLayer(g, layers, v, j) && InLayer(g, layers, v, k) ==> j == k
  {
    var k := FirstRound(g, v, |layers|);
    assert v in Elements(layers[k]);
    assert InLayer(g, layers, v, k);
    forall i: nat, j: nat | InLayer(g, layers, v, i) && InLayer(g, layers, v, j) ensures i == j {
      assert v in Elements(layers[i]) && v in Elements(layers[j]);
      if i < j {
        SettledGrows(g, i + 1, j);
      } else if j < i {
        SettledGrows(g, j + 1, i);
      }
    }
  }

  lemma {:induction false} FirstRound(g: Graph, v: nat, n: nat) returns (k: nat)
    requires v in Settled(g, n)
    ensures k < n && v in LayerSet(g, k)
  {
    if v in Settled(g, n - 1) {
      k := FirstRound(g, v, n - 1);
    } else {
      k := n - 1;
    }
  }

  /** Every edge goes to a strictly later layer. */
  lemma EdgesGoForward(g: Graph, layers: seq<seq<nat>>, u: nat, v: nat, j: nat, k: nat)
    requires WellFormed(g) && AreLayers(g, layers) && Edge(g, u, v) && InLayer(g, layers, u, j) && InLayer(g, layers, v, k)
    ensures j < k
  {
    assert v in Elements(layers[k]) && u in Elements(layers[j]);
    assert u in Prerequisites(g, v);
    assert u in Settled(g, k);
    if k <= j {
      SettledGrows(g, k, j);
    }
  }

  /** A node's layer index is the length of its longest prerequisite chain. */
  lemma LayerIsLongestChain(g: Graph, layers: seq<seq<nat>>, v: nat, k: nat)
    requires AreLayers(g, layers) && InLayer(g, layers, v, k)
    ensures exists p :: Chain(g, p) && p[|p| - 1] == v && |p| == k + 1
    ensures forall p :: Chain(g, p) && p[|p| - 1] == v ==> |p| <= k + 1
  {
    assert v in Elements(layers[k]);
    var p := ChainOfLayer(g, v, k);
    forall q | Chain(g, q) && q[|q| - 1] == v ensures |q| <= k + 1 {
      ChainBound(g, q, k + 1);
    }
  }

  /** The layer lists are determined by the topology. */
  lemma LayersUnique(g: Graph, a: seq<seq<nat>>, b: seq<seq<nat>>)
    requires AreLayers(g, a) && AreLayers(g, b)
    ensures a == b
  {
    NotLonger(g, a, b);
    NotLonger(g, b, a);
    forall k | 0 <= k < |a| ensures a[k] == b[k] {
      AscendingUnique(a[k], b[k]);
    }
  }

  lemma NotLonger(g: Graph, a: seq<seq<nat>>, b: seq<seq<nat>>)
    requires AreLayers(g, a) && AreLayers(g, b)
    ensures |a| <= |b|
  {
    if |b| < |a| {
      LayerHasUnsettled(g, a, |b|);
    }
  }

  lemma LayerHasUnsettled(g: Graph, a: seq<seq<nat>>, k: nat)
    requires AreLayers(g, a) && k < |a|
    ensures exists v :: 0 <= v < |g.dependents| && v !in Settled(g, k)
  {
    var v := a[k][0];
    assert v in Elements(a[k]);
    SettledAreNodes(g, k + 1, v);
  }

  lemma {:induction false} AscendingUnique(a: seq<nat>, b: seq<nat>)
    requires Ascending(a) && Ascending(b) && Elements(a) == Elements(b)
    ensures a == b
    decreases |a|
  {
    assert |b| > 0 ==> b[0] in Elements(b);
    assert |a| > 0 ==> a[0] in Elements(a);
    if a != [] {
      forall x ensures x in Elements(a[1..]) <==> x in Elements(a) && x != a[0] {
        HeadApart(a, x);
      }
      forall x ensures x in Elements(b[1..]) <==> x in Elements(b) && x != b[0] {
        HeadApart(b, x);
      }
      AscendingUnique(a[1..], b[1..]);
      assert a == [a[0]] + a[1..] && b == [b[0]] + b[1..];
    }
  }

  lemma HeadApart(a: seq<nat>, x: nat)
    requires Ascending(a) && a != []
    ensures x in Elements(a[1..]) <==> x in Elements(a) && x != a[0]
  {
    assert a == [a[0]] + a[1..];
    if x in a[1..] {
      var i :| 0 <= i < |a| - 1 && a[1..][i] == x;
      assert a[i + 1] == x;
    }
  }

  /** Validated layers witness acyclicity in the form plan execution relies on. */
  lemma LayersGiveLayering(g: Graph, layers: seq<seq<nat>>)
    requires WellFormed(g) && AreLayers(g, layers)
    ensures Acyclic(g)
  {
    var level := seq(|g.dependents|, v requires 0 <= v < |g.dependents| => Round(g, v, |layers|));
    forall u: nat, v: nat | Edge(g, u, v) && v < |level| ensures level[u] < level[v] {
      RoundIsLayer(g, u, |layers|);
      RoundIsLayer(g, v, |layers|);
      assert u in Prerequisites(g, v);
      if level[v] <= level[u] {
        SettledGrows(g, level[v], level[u]);
      }
    }
    assert Layering(g, level);
  }

  function Round(g: Graph, v: nat, n: nat): nat {
    if n == 0 || v !in Settled(g, n - 1) then if n == 0 then 0 else n - 1 else Round(g, v, n - 1)
  }

  lemma {:induction false} RoundIsLayer(g: Graph, v: nat, n: nat)
    requires v in Settled(g, n)
    ensures v in LayerSet(g, Round(g, v, n))
  {
    if v in Settled(g, n - 1) {
      RoundIsLayer(g, v, n - 1);
    }
  }

  // --------------------------------------------------- one round of Kahn's loop

  /** Counters against a set of finished nodes. */
  ghost predicate Counts(g: Graph, remaining: seq<int>, c: set<nat>) {
    && |remaining| == |g.dependents|
    && forall v :: 0 <= v < |remaining| ==> remaining[v] == |Prerequisites(g, v) - c|
  }

  lemma DependentsCounted(g: Graph, remaining: seq<int>, u: nat)
    requires WellFormed(g) && |remaining| == |g.dependents| && u < |g.dependents|
    ensures forall j :: 0 <= j < |g.dependents[u]| ==> g.dependents[u][j] < |remaining|
    ensures Distinct(g.dependents[u])
  {
  }

  /** Finishing one node updates the counters and reports exactly the nodes it makes ready. */
  lemma ReleaseReady(g: Graph, remaining: seq<int>, c: set<nat>, u: nat)
    requires WellFormed(g) && Counts(g, remaining, c) && u < |g.dependents| && u !in c
    ensures |remaining| == |g.dependents|
    ensures forall j :: 0 <= j < |g.dependents[u]| ==> g.dependents[u][j] < |remaining|
    ensures var (after, ready) := Release(remaining, g.dependents[u]);
            && Counts(g, after, c + {u}) && Distinct(ready)
            && Elements(ready) == ReadySet(g, c + {u}) - ReadySet(g, c)
  {
    hide WellFormed, Release, Prerequisites, Distinct, Elements, ReadySet;
    DependentsCounted(g, remaining, u);
    ReleaseSpec(remaining, g.dependents[u]);
    var (after, ready) := Release(remaining, g.dependents[u]);
    forall v | 0 <= v < |after|
      ensures after[v] == |Prerequisites(g, v) - (c + {u})|
      ensures v in ready <==> Prerequisites(g, v) <= c + {u} && !(Prerequisites(g, v) <= c)
    {
      ReleasedNode(g, remaining, c, u, v);
    }
    NewlyReady(g, c, c + {u}, ready);
  }

  lemma NewlyReady(g: Graph, c: set<nat>, d: set<nat>, ready: seq<nat>)
    requires forall v :: v in ready ==> v < |g.dependents|
    requires forall v :: 0 <= v < |g.dependents| ==>
               (v in ready <==> Prerequisites(g, v) <= d && !(Prerequisites(g, v) <= c))
    ensures Elements(ready) == ReadySet(g, d) - ReadySet(g, c)
  {
    hide Prerequisites;
  }

  lemma ReleasedNode(g: Graph, remaining: seq<int>, c: set<nat>, u: nat, v: nat)
    requires Counts(g, remaining, c) && u < |g.dependents| && u !in c && v < |remaining|
    ensures (if v in g.dependents[u] then remaining[v] - 1 else remaining[v]) == |Prerequisites(g, v) - (c + {u})|
    ensures v in g.dependents[u] && remaining[v] == 1 <==>
            Prerequisites(g, v) <= c + {u} && !(Prerequisites(g, v) <= c)
  {
    hide Prerequisites;
    PrerequisiteDone(g, c, u, v);
    EmptyDifference(Prerequisites(g, v), c + {u});
    EmptyDifference(Prerequisites(g, v), c);
  }

  lemma ReadySetGrows(g: Graph, c: set<nat>, d: set<nat>)
    requires c <= d
    ensures ReadySet(g, c) <= ReadySet(g, d)
  {
  }
}

/** The dependency graph object (utils/execution_graph/dependency_graph.hpp:56-228). */
module DependencyGraph {
  import opened Basics
  import opened Topology
  import opened Layers

  datatype Status = Ok | DuplicateNode | NodeNotFound | DuplicateDependency | DependencyCycle

  /** `std::sort` on distinct indexes. */
  method SortIndexes(s: seq<nat>) returns (r: seq<nat>)
    requires Distinct(s)
    ensures Ascending(r) && Elements(r) == Elements(s)
  {
    r := [];
    for k := 0 to |s|
      invariant Ascending(r) && Elements(r) == Elements(s[..k])
    {
      assert s[..k + 1] == s[..k] + [s[k]];
      assert s[k] !in Elements(s[..k]);
      var i := 0;
      while i < |r| && r[i] < s[k]
        invariant 0 <= i <= |r|
        invariant forall j :: 0 <= j < i ==> r[j] < s[k]
      {
        i := i + 1;
      }
      ghost var before := r;
      assert i < |r| ==> r[i] in Elements(r);
      r := r[..i] + [s[k]] + r[i..];
      assert Elements(r) == Elements(before) + {s[k]};
    }
    assert s[..|s|] == s;
  }

  class DependencyGraph<T(==)> {
    var nodes: seq<T>
    var indices: map<T, nat>
    var dependents: seq<seq<nat>>
    var counts: seq<int>
    var edges: nat
    var topologyValid: bool
    var layerIndexes: seq<seq<nat>>

    ghost function G(): Graph
      reads this
    {
      Graph(dependents)
    }

    /** Lookup, adjacency and counters agree; a cache marked valid equals a fresh computation. */
    ghost predicate Valid()
      reads this
    {
      && |nodes| == |dependents| == |counts|
      && (forall i :: 0 <= i < |nodes| ==> nodes[i] in indices && indices[nodes[i]] == i)
      && (forall x :: x in indices ==> indices[x] < |nodes| && nodes[indices[x]] == x)
      && WellFormed(G()) && Counts(G(), counts, {})
      && (topologyValid ==> AreLayers(G(), layerIndexes))
    }

    constructor ()
      ensures Valid() && nodes == [] && dependents == []
    {
      nodes, indices, dependents, counts, edges := [], map[], [], [], 0;
      topologyValid, layerIndexes := false, [];
    }

    method AddNode(node: T) returns (status: Status)
      requires Valid()
      modifies this
      ensures Valid()
      ensures status == if node in old(nodes) then DuplicateNode else Ok
      ensures status != Ok ==> nodes == old(nodes) && dependents == old(dependents)
      ensures status == Ok ==> nodes == old(nodes) + [node] && dependents == old(dependents) + [[]]
    {
      if node in indices {
        return DuplicateNode;
      }
      assert node !in nodes;
      ghost var before := G();
      ghost var oldCounts := counts;
      indices := indices[node := |nodes|];
      nodes := nodes + [node];
      dependents := dependents + [[]];
      counts := counts + [0];
      topologyValid := false;
      IsolatedNode(before, oldCounts);
      return Ok;
    }

    method AddDependency(prerequisite: T, dependent: T) returns (status: Status)
      requires Valid()
      modifies this
      ensures Valid() && nodes == old(nodes)
      ensures status == NodeNotFound <==> prerequisite !in nodes || dependent !in nodes
      ensures status == DuplicateDependency <==>
                exists u, v :: && 0 <= u < |nodes| && 0 <= v < |nodes| && nodes[u] == prerequisite && nodes[v] == dependent
                               && v in old(dependents)[u]
      ensures status in {Ok, NodeNotFound, DuplicateDependency}
      ensures status != Ok ==> dependents == old(dependents)
      ensures status == Ok ==>
                exists u, v :: && 0 <= u < |nodes| && 0 <= v < |nodes| && nodes[u] == prerequisite && nodes[v] == dependent
                               && dependents == old(dependents)[u := old(dependents)[u] + [v]]
    {
      if prerequisite !in indices || dependent !in indices {
        return NodeNotFound;
      }
      var u, v := indices[prerequisite], indices[dependent];
      assert nodes[u] == prerequisite && nodes[v] == dependent;
      if v in dependents[u] {
        return DuplicateDependency;
      }
      NewEdge(G(), counts, u, v);
      dependents := dependents[u := dependents[u] + [v]];
      counts := counts[v := counts[v] + 1];
      edges := edges + 1;
      topologyValid := false;
      return Ok;
    }

    /**
     `validate_locked`: Kahn's algorithm by layers, cached. It succeeds exactly when the graph has
     no directed cycle, and then the cache holds the layers.
     */
    method Validate() returns (status: Status)
      requires Valid()
      modifies this`topologyValid, this`layerIndexes
      ensures Valid()
      ensures status == if HasCycle(G()) then DependencyCycle else Ok
      ensures status == Ok ==> AreLayers(G(), layerIndexes)
    {
      hide WellFormed, Counts, HasCycle, AreLayers;
      if topologyValid {
        LayersNoCycle(G(), layerIndexes);
        return Ok;
      }
      var layers, visited := KahnLayers(dependents, counts);
      if visited != |nodes| {
        layerIndexes := [];
        return DependencyCycle;
      }
      layerIndexes := layers;
      topologyValid := true;
      return Ok;
    }

    /** Dependency-first layers of nodes. */
    method ForwardLayers() returns (status: Status, output: seq<seq<T>>)
      requires Valid()
      modifies this`topologyValid, this`layerIndexes
      ensures Valid()
      ensures status == if HasCycle(G()) then DependencyCycle else Ok
      ensures status != Ok ==> output == []
      ensures status == Ok ==> AreLayers(G(), layerIndexes) && Names(nodes, layerIndexes, output)
    {
      output := [];
      status := Validate();
      if status != Ok {
        return;
      }
      LayersInRange(G(), layerIndexes);
      output := NameLayers(nodes, layerIndexes);
    }

    /** Dependent-first layers: the forward layers in reverse. */
    method ReverseLayers() returns (status: Status, output: seq<seq<T>>)
      requires Valid()
      modifies this`topologyValid, this`layerIndexes
      ensures Valid()
      ensures status == if HasCycle(G()) then DependencyCycle else Ok
      ensures status != Ok ==> output == []
      ensures status == Ok ==> AreLayers(G(), layerIndexes) && |output| == |layerIndexes|
      ensures status == Ok ==> forall j :: 0 <= j < |output| ==>
                NamesLayer(nodes, layerIndexes[|output| - 1 - j], output[j])
    {
      var forward;
      status, forward := ForwardLayers();
      output := [];
      if status != Ok {
        return;
      }
      output := Reversed(forward);
    }
  }

  method NameLayers<T(==)>(nodes: seq<T>, indexes: seq<seq<nat>>) returns (output: seq<seq<T>>)
    requires forall k, i :: 0 <= k < |indexes| && 0 <= i < |indexes[k]| ==> indexes[k][i] < |nodes|
    ensures Names(nodes, indexes, output)
  {
    output := [];
    for k := 0 to |indexes|
      invariant |output| == k
      invariant forall j :: 0 <= j < k ==> NamesLayer(nodes, indexes[j], output[j])
    {
      var layer: seq<T> := [];
      for i := 0 to |indexes[k]|
        invariant |layer| == i
        invariant forall j :: 0 <= j < i ==> layer[j] == nodes[indexes[k][j]]
      {
        layer := layer + [nodes[indexes[k][i]]];
      }
      output := output + [layer];
    }
  }

  method Reversed<T>(forward: seq<T>) returns (output: seq<T>)
    ensures |output| == |forward|
    ensures forall j :: 0 <= j < |output| ==> output[j] == forward[|forward| - 1 - j]
  {
    output := [];
    for i := 0 to |forward|
      invariant |output| == i
      invariant forall j :: 0 <= j < i ==> output[j] == forward[|forward| - 1 - j]
    {
      output := output + [forward[|forward| - 1 - i]];
    }
  }

  predicate NamesLayer<T(==)>(nodes: seq<T>, indexes: seq<nat>, layer: seq<T>) {
    |layer| == |indexes| && forall j :: 0 <= j < |layer| ==> indexes[j] < |nodes| && layer[j] == nodes[indexes[j]]
  }

  predicate Names<T(==)>(nodes: seq<T>, indexes: seq<seq<nat>>, layers: seq<seq<T>>) {
    |layers| == |indexes| && forall k :: 0 <= k < |layers| ==> NamesLayer(nodes, indexes[k], layers[k])
  }

  lemma LayersInRange(g: Graph, layers: seq<seq<nat>>)
    requires AreLayers(g, layers)
    ensures forall k, i :: 0 <= k < |layers| && 0 <= i < |layers[k]| ==> layers[k][i] < |g.dependents|
  {
    forall k, i | 0 <= k < |layers| && 0 <= i < |layers[k]| ensures layers[k][i] < |g.dependents| {
      assert layers[k][i] in Elements(layers[k]);
      SettledAreNodes(g, k + 1, layers[k][i]);
    }
  }

  /** Indexes whose counter is zero, ascending. */
  method InitialReady(dependents: seq<seq<nat>>, counts: seq<int>) returns (ready: seq<nat>)
    requires Counts(Graph(dependents), counts, {})
    ensures Distinct(ready) && Elements(ready) == LayerSet(Graph(dependents), 0)
  {
    ghost var g := Graph(dependents);
    ready := [];
    for i := 0 to |counts|
      invariant Distinct(ready)
      invariant forall v :: v in ready <==> 0 <= v < i && counts[v] == 0
    {
      if counts[i] == 0 {
        ready := ready + [i];
      }
    }
    assert Settled(g, 0) == {} && LayerSet(g, 0) == Settled(g, 1) == ReadySet(g, {});
    forall v | 0 <= v < |counts| ensures counts[v] == 0 <==> v in ReadySet(g, {}) {
      EmptyDifference(Prerequisites(g, v), {});
    }
  }

  /** The layer loop of `validate_locked`: the layers, and how many nodes they hold. */
  method KahnLayers(dependents: seq<seq<nat>>, counts: seq<int>) returns (layers: seq<seq<nat>>, visited: nat)
    requires WellFormed(Graph(dependents)) && Counts(Graph(dependents), counts, {})
    ensures visited == |dependents| <==> !HasCycle(Graph(dependents))
    ensures visited == |dependents| ==> AreLayers(Graph(dependents), layers)
  {
    hide WellFormed, ReadySet, HasCycle, Counts, LayerSet, Settled, Elements;
    ghost var g := Graph(dependents);
    var remaining := counts;
    var ready := InitialReady(dependents, counts);
    layers, visited := [], 0;
    NothingSettled(g);
    while ready != []
      invariant Counts(g, remaining, Settled(g, |layers|))
      invariant Distinct(ready) && Elements(ready) == LayerSet(g, |layers|)
      invariant visited == |Settled(g, |layers|)|
      invariant visited <= |dependents|
      invariant forall j :: 0 <= j < |layers| ==>
                  layers[j] != [] && Ascending(layers[j]) && Elements(layers[j]) == LayerSet(g, j)
      decreases |dependents| - visited
    {
      var sorted := SortIndexes(ready);
      ghost var k := |layers|;
      RoundGrows(g, k, ready, sorted);
      layers := layers + [sorted];
      visited := visited + |ready|;
      remaining, ready := FinishLayer(dependents, remaining, sorted, Settled(g, k));
      NextRound(g, k, sorted, ready);
    }
    EmptyRound(g, |layers|);
    SettlesIffNoCycle(g, |layers|);
    SettledCount(g, |layers|);
  }

  lemma NothingSettled(g: Graph)
    ensures Settled(g, 0) == {}
  {
  }

  /** The two inner loops of one round: every node of the layer releases its dependents. */
  method FinishLayer(dependents: seq<seq<nat>>, counters: seq<int>, layer: seq<nat>, ghost c: set<nat>)
    returns (remaining: seq<int>, next: seq<nat>)
    requires WellFormed(Graph(dependents)) && Counts(Graph(dependents), counters, c)
    requires Ascending(layer) && forall i :: 0 <= i < |layer| ==> layer[i] < |dependents| && layer[i] !in c
    ensures Counts(Graph(dependents), remaining, c + Elements(layer))
    ensures Distinct(next)
    ensures Elements(next) == ReadySet(Graph(dependents), c + Elements(layer)) - ReadySet(Graph(dependents), c)
  {
    ghost var g := Graph(dependents);
    remaining, next := counters, [];
    assert |counters| == |dependents|;
    hide ReadySet, Counts, Release;
    assert c + Elements([]) == c;
    for i := 0 to |layer|
      invariant Counts(g, remaining, c + Elements(layer[..i]))
      invariant |remaining| == |dependents| && Distinct(next)
      invariant Elements(next) == ReadySet(g, c + Elements(layer[..i])) - ReadySet(g, c)
    {
      LayerStep(g, remaining, c, layer, i, next);
      var ready;
      remaining, ready := ReleaseDependents(remaining, dependents[layer[i]]);
      next := next + ready;
    }
    assert layer[..|layer|] == layer;
  }

  lemma LayerStep(g: Graph, remaining: seq<int>, c: set<nat>, layer: seq<nat>, i: nat, next: seq<nat>)
    requires WellFormed(g) && Ascending(layer) && i < |layer| && layer[i] < |g.dependents| && layer[i] !in c
    requires Counts(g, remaining, c + Elements(layer[..i]))
    requires Distinct(next) && Elements(next) == ReadySet(g, c + Elements(layer[..i])) - ReadySet(g, c)
    ensures forall j :: 0 <= j < |g.dependents[layer[i]]| ==> g.dependents[layer[i]][j] < |remaining|
    ensures var (after, ready) := Release(remaining, g.dependents[layer[i]]);
            && Counts(g, after, c + Elements(layer[..i + 1])) && |after| == |g.dependents|
            && Distinct(next + ready)
            && Elements(next + ready) == ReadySet(g, c + Elements(layer[..i + 1])) - ReadySet(g, c)
  {
    hide ReadySet, Release, Counts, WellFormed, Distinct;
    var u := layer[i];
    var done := c + Elements(layer[..i]);
    PrefixDone(c, layer, i);
    ReleaseReady(g, remaining, done, u);
    ReadySetGrows(g, c, done);
    ReadySetGrows(g, done, done + {u});
    DistinctConcat(next, Release(remaining, g.dependents[u]).1);
  }

  lemma PrefixDone(c: set<nat>, layer: seq<nat>, i: nat)
    requires Ascending(layer) && i < |layer| && layer[i] !in c
    ensures layer[i] !in c + Elements(layer[..i])
    ensures c + Elements(layer[..i + 1]) == c + Elements(layer[..i]) + {layer[i]}
  {
    assert layer[..i + 1] == layer[..i] + [layer[i]];
  }

  lemma DistinctConcat(a: seq<nat>, b: seq<nat>)
    requires Distinct(a) && Distinct(b) && Elements(a) !! Elements(b)
    ensures Distinct(a + b) && Elements(a + b) == Elements(a) + Elements(b)
  {
    forall i, j | 0 <= i < j < |a + b| ensures (a + b)[i] != (a + b)[j] {
      if i < |a| <= j {
        assert a[i] in Elements(a) && b[j - |a|] in Elements(b);
      }
    }
  }

  /** The innermost loop: decrement each dependent and collect those that reach zero. */
  method ReleaseDependents(counters: seq<int>, dependents: seq<nat>) returns (remaining: seq<int>, ready: seq<nat>)
    requires forall i :: 0 <= i < |dependents| ==> dependents[i] < |counters|
    ensures (remaining, ready) == Release(counters, dependents)
  {
    remaining, ready := counters, [];
    for i := 0 to |dependents|
      invariant (remaining, ready) == Release(counters, dependents[..i])
    {
      assert dependents[..i + 1][..i] == dependents[..i];
      var w := dependents[i];
      remaining := remaining[w := remaining[w] - 1];
      if remaining[w] == 0 {
        ready := ready + [w];
      }
    }
    assert dependents[..|dependents|] == dependents;
  }

  /** A nonempty round settles exactly its layer. */
  lemma RoundGrows(g: Graph, k: nat, ready: seq<nat>, sorted: seq<nat>)
    requires Distinct(ready) && ready != [] && Elements(ready) == LayerSet(g, k)
    requires Ascending(sorted) && Elements(sorted) == Elements(ready)
    ensures sorted != []
    ensures Settled(g, k) + Elements(sorted) == Settled(g, k + 1)
    ensures |Settled(g, k + 1)| == |Settled(g, k)| + |ready| <= |g.dependents|
    ensures forall i :: 0 <= i < |sorted| ==> sorted[i] < |g.dependents| && sorted[i] !in Settled(g, k)
  {
    hide Settled, Prerequisites, Distinct, Ascending;
    assert ready[0] in Elements(sorted);
    SettledGrows(g, k, k + 1);
    SizeOfDistinct(ready);
    assert Settled(g, k + 1) == Settled(g, k) + LayerSet(g, k);
    var settled := Settled(g, k + 1);
    forall v | v in settled ensures v < |g.dependents| {
      SettledAreNodes(g, k + 1, v);
    }
    FullSet(|g.dependents|, settled);
    forall i | 0 <= i < |sorted| ensures sorted[i] < |g.dependents| && sorted[i] !in Settled(g, k) {
      assert sorted[i] in Elements(sorted);
    }
  }

  lemma NextRound(g: Graph, k: nat, sorted: seq<nat>, next: seq<nat>)
    requires Settled(g, k) + Elements(sorted) == Settled(g, k + 1)
    requires Elements(next) == ReadySet(g, Settled(g, k) + Elements(sorted)) - ReadySet(g, Settled(g, k))
    ensures Elements(next) == LayerSet(g, k + 1)
  {
    hide ReadySet, Elements;
    assert Settled(g, k + 2) == ReadySet(g, Settled(g, k + 1));
    assert Settled(g, k + 1) == ReadySet(g, Settled(g, k));
  }

  lemma EmptyRound(g: Graph, k: nat)
    requires LayerSet(g, k) == Elements([])
    ensures Settled(g, k + 1) == Settled(g, k)
  {
    hide Settled;
    SettledGrows(g, k, k + 1);
    assert LayerSet(g, k) == {};
    forall v | v in Settled(g, k + 1) ensures v in Settled(g, k) {
      assert v !in LayerSet(g, k);
    }
  }

  lemma SettledCount(g: Graph, k: nat)
    ensures |Settled(g, k)| == |g.dependents| <==> forall v :: 0 <= v < |g.dependents| ==> v in Settled(g, k)
  {
    forall v | v in Settled(g, k) ensures v < |g.dependents| {
      SettledAreNodes(g, k, v);
    }
    hide Settled;
    FullSet(|g.dependents|, Settled(g, k));
    if forall v :: 0 <= v < |g.dependents| ==> v in Settled(g, k) {
      CountAll(|g.dependents|, Settled(g, k));
    }
  }

  lemma LayersNoCycle(g: Graph, layers: seq<seq<nat>>)
    requires AreLayers(g, layers)
    ensures !HasCycle(g)
  {
    var k := |layers|;
    SettledGrows(g, k, k + 1);
    forall v | v in Settled(g, k + 1) ensures v in Settled(g, k) {
      SettledAreNodes(g, k + 1, v);
    }
    SettlesIffNoCycle(g, k);
  }

  lemma IsolatedNode(g: Graph, counts: seq<int>)
    requires WellFormed(g) && Counts(g, counts, {})
    ensures WellFormed(Graph(g.dependents + [[]])) && Counts(Graph(g.dependents + [[]]), counts + [0], {})
  {
    var h := Graph(g.dependents + [[]]);
    forall v | 0 <= v < |h.dependents| ensures (counts + [0])[v] == |Prerequisites(h, v) - {}| {
      if v < |g.dependents| {
        assert Prerequisites(h, v) == Prerequisites(g, v);
      } else {
        assert Prerequisites(h, v) - {} == {};
      }
    }
  }

  lemma NewEdge(g: Graph, counts: seq<int>, u: nat, v: nat)
    requires WellFormed(g) && Counts(g, counts, {}) && u < |g.dependents| && v < |g.dependents| && v !in g.dependents[u]
    ensures var h := Graph(g.dependents[u := g.dependents[u] + [v]]);
            WellFormed(h) && Counts(h, counts[v := counts[v] + 1], {})
  {
    var h := Graph(g.dependents[u := g.dependents[u] + [v]]);
    EdgeWellFormed(g, u, v);
    hide WellFormed;
    forall w | 0 <= w < |counts| ensures counts[v := counts[v] + 1][w] == |Prerequisites(h, w) - {}| {
      EdgePrerequisites(g, u, v, w);
      assert Prerequisites(g, w) - {} == Prerequisites(g, w) && Prerequisites(h, w) - {} == Prerequisites(h, w);
    }
  }

  lemma EdgeWellFormed(g: Graph, u: nat, v: nat)
    requires WellFormed(g) && u < |g.dependents| && v < |g.dependents| && v !in g.dependents[u]
    ensures WellFormed(Graph(g.dependents[u := g.dependents[u] + [v]]))
  {
  }

  lemma EdgePrerequisites(g: Graph, u: nat, v: nat, w: nat)
    requires u < |g.dependents| && v !in g.dependents[u]
    ensures var h := Graph(g.dependents[u := g.dependents[u] + [v]]);
            && Prerequisites(h, w) == (if w == v then Prerequisites(g, w) + {u} else Prerequisites(g, w))
            && (w == v ==> u !in Prerequisites(g, w))
  {
  }
}
