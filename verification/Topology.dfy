/**
 Dense dependency topologies and the counting argument shared by validation and execution
 (utils/execution_graph/dependency_graph.hpp, utils/execution_graph/execution_plan.hpp).
 */
module Topology {
  import opened Basics

  /** Dense topology: `dependents[u]` lists the nodes that wait for `u`. */
  datatype Graph = Graph(dependents: seq<seq<nat>>)

  ghost predicate WellFormed(g: Graph) {
    && (forall u, i :: 0 <= u < |g.dependents| && 0 <= i < |g.dependents[u]| ==> g.dependents[u][i] < |g.dependents|)
    && (forall u :: 0 <= u < |g.dependents| ==> Distinct(g.dependents[u]))
  }

  predicate Distinct(s: seq<nat>) {
    forall i, j :: 0 <= i < j < |s| ==> s[i] != s[j]
  }

  /** Some assignment of layers puts every node after its prerequisites. */
  ghost predicate Acyclic(g: Graph) {
    exists level: seq<nat> :: Layering(g, level)
  }

  ghost predicate Layering(g: Graph, level: seq<nat>) {
    && |level| == |g.dependents|
    && forall u: nat, v: nat :: Edge(g, u, v) && v < |level| ==> level[u] < level[v]
  }

  predicate Edge(g: Graph, u: nat, v: nat) {
    u < |g.dependents| && v in g.dependents[u]
  }

  function Prerequisites(g: Graph, v: nat): set<nat> {
    set u | 0 <= u < |g.dependents| && v in g.dependents[u]
  }

  /** One decrement loop over a node's dependents: new counters and the nodes that reached zero, in order. */
  function Release(remaining: seq<int>, dependents: seq<nat>): (r: (seq<int>, seq<nat>))
    requires forall i :: 0 <= i < |dependents| ==> dependents[i] < |remaining|
    ensures |r.0| == |remaining|
  {
    if dependents == [] then (remaining, [])
    else
      var (before, ready) := Release(remaining, dependents[..|dependents| - 1]);
      var w := dependents[|dependents| - 1];
      var after := before[w := before[w] - 1];
      (after, if after[w] == 0 then ready + [w] else ready)
  }

  /** The decrement loop touches each dependent once and reports those that reach zero. */
  lemma {:induction false} ReleaseSpec(remaining: seq<int>, dependents: seq<nat>)
    requires forall i :: 0 <= i < |dependents| ==> dependents[i] < |remaining|
    requires Distinct(dependents)
    ensures var (after, ready) := Release(remaining, dependents);
            && (forall w :: 0 <= w < |remaining| ==>
                  after[w] == if w in dependents then remaining[w] - 1 else remaining[w])
            && (forall w :: w in ready <==> w in dependents && remaining[w] == 1)
            && Distinct(ready)
  {
    if dependents != [] {
      var init, w := dependents[..|dependents| - 1], dependents[|dependents| - 1];
      ReleaseSpec(remaining, init);
      assert dependents == init + [w];
      assert w !in init;
    }
  }

  lemma PrerequisiteDone(g: Graph, counted: set<nat>, v: nat, w: nat)
    requires v < |g.dependents| && v !in counted
    ensures |Prerequisites(g, w) - (counted + {v})| ==
            |Prerequisites(g, w) - counted| - (if w in g.dependents[v] then 1 else 0)
  {
    var p := Prerequisites(g, w) - counted;
    assert Prerequisites(g, w) - (counted + {v}) == p - {v};
    assert v in p <==> w in g.dependents[v];
  }

  lemma EmptyDifference(p: set<nat>, c: set<nat>)
    ensures |p - c| == 0 <==> p <= c
  {
    if |p - c| == 0 {
      assert p - c == {};
      forall x | x in p ensures x in c {
        assert x !in p - c;
      }
    }
    if p <= c {
      assert p - c == {};
    }
  }

  lemma {:induction false} FullSet(n: nat, c: set<nat>)
    requires forall v :: v in c ==> v < n
    ensures |c| <= n
    ensures |c| == n ==> forall v :: 0 <= v < n ==> v in c
  {
    if n > 0 {
      var d := c - {n - 1};
      FullSet(n - 1, d);
      if |c| == n {
        assert n - 1 in c;
        forall v | 0 <= v < n ensures v in c {
          assert v < n - 1 ==> v in d;
        }
      }
    } else {
      assert c == {};
    }
  }

  lemma {:induction false} CountAll(n: nat, c: set<nat>)
    requires forall v :: v in c <==> 0 <= v < n
    ensures |c| == n
  {
    if n == 0 {
      assert c == {};
    } else {
      CountAll(n - 1, c - {n - 1});
    }
  }
}
