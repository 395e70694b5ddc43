/**
 The contiguous trie: nodes in one append-only array, children as sorted index lists
 (utils/containers/trie.hpp).
 */
module Trie {
  import opened Basics
  import opened Address

  datatype Node<V> = Node(key: Component, children: seq<nat>, end: bool, value: V)

  const ROOT_KEY := Component(Numeric, 0)
  const LINEAR_SEARCH_MAXIMUM_CHILDREN: nat := 8

  /** Children exist, point forward, are strictly sorted by key, and have one parent. */
  ghost predicate WellFormed<V(!new)>(ns: seq<Node<V>>) {
    && |ns| > 0
    && (forall i, c {:trigger c in ns[i].children} :: 0 <= i < |ns| && c in ns[i].children ==> i < c < |ns|)
    && (forall i :: 0 <= i < |ns| ==> SortedKids(ns, ns[i].children))
    && (forall i, j, c {:trigger c in ns[i].children, c in ns[j].children} ::
          0 <= i < |ns| && 0 <= j < |ns| && c in ns[i].children && c in ns[j].children ==> i == j)
  }

  ghost predicate SortedKids<V>(ns: seq<Node<V>>, cs: seq<nat>) {
    && (forall a :: 0 <= a < |cs| ==> cs[a] < |ns|)
    && (forall a, b :: 0 <= a < b < |cs| ==> ComponentLess(ns[cs[a]].key, ns[cs[b]].key))
  }

  predicate InRange<V>(ns: seq<Node<V>>, cs: seq<nat>) {
    forall a :: 0 <= a < |cs| ==> cs[a] < |ns|
  }

  // ------------------------------------------------------------------ lookup

  /** Linear scan of a child list. */
  function Scan<V>(ns: seq<Node<V>>, cs: seq<nat>, key: Component): (r: Option<nat>)
    requires InRange(ns, cs)
    ensures r.Some? ==> r.value in cs && r.value < |ns| && ns[r.value].key == key
    ensures r.None? ==> forall c :: c in cs ==> ns[c].key != key
  {
    if cs == [] then None
    else if ns[cs[0]].key == key then Some(cs[0])
    else
      assert cs == [cs[0]] + cs[1..];
      Scan(ns, cs[1..], key)
  }

  function Child<V(!new)>(ns: seq<Node<V>>, i: nat, key: Component): (r: Option<nat>)
    requires WellFormed(ns)
    ensures r.Some? ==> i < |ns| && r.value in ns[i].children && i < r.value < |ns| && ns[r.value].key == key
    ensures r.None? ==> i < |ns| ==> forall c :: c in ns[i].children ==> c < |ns| && ns[c].key != key
  {
    if i < |ns| then Scan(ns, ns[i].children, key) else None
  }

  /** The node reached from `i` along a key sequence. */
  function Walk<V(!new)>(ns: seq<Node<V>>, i: nat, path: seq<Component>): (r: Option<nat>)
    requires WellFormed(ns) && i < |ns|
    ensures r.Some? ==> i <= r.value < |ns|
    ensures r.Some? && path != [] ==> i < r.value
    decreases |path|
  {
    if path == [] then Some(i)
    else match Walk(ns, i, path[..|path| - 1])
         case None => None
         case Some(j) => Child(ns, j, path[|path| - 1])
  }

  /** The value stored at an exact key sequence: the map that the node array refines. */
  function Lookup<V(!new)>(ns: seq<Node<V>>, path: seq<Component>): Option<V>
    requires WellFormed(ns)
  {
    match Walk(ns, 0, path)
    case None => None
    case Some(i) => if ns[i].end then Some(ns[i].value) else None
  }

  lemma ChildIsUnique<V(!new)>(ns: seq<Node<V>>, i: nat, c: nat)
    requires WellFormed(ns) && i < |ns| && c in ns[i].children
    ensures c < |ns| && Child(ns, i, ns[c].key) == Some(c)
  {
    var cs := ns[i].children;
    var a :| 0 <= a < |cs| && cs[a] == c;
    var d := Child(ns, i, ns[c].key).value;
    var b :| 0 <= b < |cs| && cs[b] == d;
    assert SortedKids(ns, cs);
  }

  /** Two key sequences never meet in one node. */
  lemma {:induction false} PathUnique<V(!new)>(ns: seq<Node<V>>, p: seq<Component>, q: seq<Component>)
    requires WellFormed(ns)
    requires Walk(ns, 0, p).Some? && Walk(ns, 0, p) == Walk(ns, 0, q)
    ensures p == q
    decreases |p|
  {
    if p != [] && q != [] {
      var a, b := p[..|p| - 1], q[..|q| - 1];
      var i, j := Walk(ns, 0, a).value, Walk(ns, 0, b).value;
      var c := Walk(ns, 0, p).value;
      assert c in ns[i].children && c in ns[j].children;
      PathUnique(ns, a, b);
      assert p == a + [ns[c].key] && q == b + [ns[c].key];
    }
  }

  lemma WalkSnoc<V(!new)>(ns: seq<Node<V>>, i: nat, p: seq<Component>, k: Component)
    requires WellFormed(ns) && i < |ns|
    ensures Walk(ns, i, p + [k]) == match Walk(ns, i, p) case None => None case Some(j) => Child(ns, j, k)
  {
    assert (p + [k])[..|p|] == p;
  }

  lemma {:induction false} WalkConcat<V(!new)>(ns: seq<Node<V>>, i: nat, p: seq<Component>, q: seq<Component>)
    requires WellFormed(ns) && i < |ns|
    ensures Walk(ns, i, p + q) == match Walk(ns, i, p) case None => None case Some(j) => Walk(ns, j, q)
    decreases |q|
  {
    if q == [] {
      assert p + q == p;
    } else {
      var init, k := q[..|q| - 1], q[|q| - 1];
      WalkConcat(ns, i, p, init);
      assert p + q == (p + init) + [k];
      WalkSnoc(ns, i, p + init, k);
    }
  }

  // ------------------------------------------------------------- modification

  /** `std::lower_bound` on a child list. */
  function LowerBound<V>(ns: seq<Node<V>>, cs: seq<nat>, key: Component): (r: nat)
    requires InRange(ns, cs)
    ensures r <= |cs|
    ensures forall a :: 0 <= a < r ==> ComponentLess(ns[cs[a]].key, key)
    ensures r < |cs| ==> !ComponentLess(ns[cs[r]].key, key)
  {
    if cs == [] || !ComponentLess(ns[cs[0]].key, key) then 0 else 1 + LowerBound(ns, cs[1..], key)
  }

  function InsertAt<T>(cs: seq<T>, at: nat, c: T): (ds: seq<T>)
    requires at <= |cs|
    ensures |ds| == |cs| + 1
    ensures forall a :: 0 <= a < |ds| ==> ds[a] == if a < at then cs[a] else if a == at then c else cs[a - 1]
  {
    cs[..at] + [c] + cs[at..]
  }

  /** Append a node and put its index into its parent's sorted child list. */
  function AddChild<V>(ns: seq<Node<V>>, i: nat, key: Component, value: V): seq<Node<V>>
    requires i < |ns| && InRange(ns, ns[i].children)
  {
    var cs := ns[i].children;
    ns[i := ns[i].(children := InsertAt(cs, LowerBound(ns, cs, key), |ns|))] + [Node(key, [], false, value)]
  }

  lemma AddChildWellFormed<V(!new)>(ns: seq<Node<V>>, i: nat, key: Component, value: V)
    requires WellFormed(ns) && i < |ns| && InRange(ns, ns[i].children) && Child(ns, i, key).None?
    ensures WellFormed(AddChild(ns, i, key, value))
  {
    hide ComponentLess, LowerBound, SortedKids;
    BoundInRange(ns, ns[i].children, key);
    var cs := ns[i].children;
    var at := LowerBound(ns, cs, key);
    var ds := InsertAt(cs, at, |ns|);
    var ns' := AddChild(ns, i, key, value);
    assert SortedKids(ns, cs);
    forall c ensures c in ds <==> c in cs || c == |ns| {
    }
    forall j, c | 0 <= j < |ns'| && c in ns'[j].children
      ensures j < c < |ns'|
      ensures c == |ns| ==> j == i
      ensures c != |ns| ==> j < |ns| && c in ns[j].children
    {
      if j < |ns| && c != |ns| {
        assert c in ns[j].children;
      }
    }
    forall j | 0 <= j < |ns'| ensures SortedKids(ns', ns'[j].children) {
      if j == i {
        InsertedSorted(ns, ns', cs, at, key);
      } else if j < |ns| {
        StillSorted(ns, ns', ns[j].children);
      } else {
        NoKidsSorted(ns');
      }
    }
  }

  lemma NoKidsSorted<V>(ns: seq<Node<V>>)
    ensures SortedKids(ns, [])
  {
  }

  lemma StillSorted<V(!new)>(ns: seq<Node<V>>, ns': seq<Node<V>>, cs: seq<nat>)
    requires SortedKids(ns, cs) && |ns| <= |ns'| && forall j :: 0 <= j < |ns| ==> ns'[j].key == ns[j].key
    ensures SortedKids(ns', cs)
  {
    hide ComponentLess;
  }

  lemma BoundInRange<V>(ns: seq<Node<V>>, cs: seq<nat>, key: Component)
    requires InRange(ns, cs)
    ensures LowerBound(ns, cs, key) <= |cs|
  {
  }

  lemma InsertedSorted<V(!new)>(ns: seq<Node<V>>, ns': seq<Node<V>>, cs: seq<nat>, at: nat, key: Component)
    requires SortedKids(ns, cs) && at == LowerBound(ns, cs, key)
    requires forall c :: c in cs ==> c < |ns| && ns[c].key != key
    requires |ns'| == |ns| + 1 && ns'[|ns|].key == key && forall j :: 0 <= j < |ns| ==> ns'[j].key == ns[j].key
    ensures SortedKids(ns', InsertAt(cs, at, |ns|))
  {
    hide ComponentLess, LowerBound;
    var ks := KeysOf(ns, cs);
    LowerBoundKeys(ns, cs, key);
    SortedInsert(ks, at, key);
    SortedByKeys(ns', InsertAt<nat>(cs, at, |ns|), InsertAt(ks, at, key), ns, cs, at, key);
  }

  lemma LowerBoundKeys<V(!new)>(ns: seq<Node<V>>, cs: seq<nat>, key: Component)
    requires SortedKids(ns, cs) && forall c :: c in cs ==> c < |ns| && ns[c].key != key
    ensures var at, ks := LowerBound(ns, cs, key), KeysOf(ns, cs);
            && at <= |cs| && SortedKeys(ks)
            && (forall a :: 0 <= a < at ==> ComponentLess(ks[a], key))
            && (forall a :: at <= a < |ks| ==> ComponentLess(key, ks[a]))
  {
    hide ComponentLess;
    var at, ks := LowerBound(ns, cs, key), KeysOf(ns, cs);
    forall a | at <= a < |cs| ensures ComponentLess(key, ks[a]) {
      AboveLowerBound(ns, cs, key, a);
    }
  }

  lemma SortedByKeys<V(!new)>(ns': seq<Node<V>>, ds: seq<nat>, ls: seq<Component>, ns: seq<Node<V>>, cs: seq<nat>, at: nat, key: Component)
    requires InRange(ns, cs) && at <= |cs| && ds == InsertAt(cs, at, |ns|) && ls == InsertAt(KeysOf(ns, cs), at, key) && SortedKeys(ls)
    requires |ns'| == |ns| + 1 && ns'[|ns|].key == key && forall j :: 0 <= j < |ns| ==> ns'[j].key == ns[j].key
    ensures SortedKids(ns', ds)
  {
    hide ComponentLess;
    forall a | 0 <= a < |ds| ensures ds[a] < |ns'| && ns'[ds[a]].key == ls[a] {
    }
  }

  /** From the lower bound on, strictly sorted keys that differ from `key` are above it. */
  lemma AboveLowerBound<V(!new)>(ns: seq<Node<V>>, cs: seq<nat>, key: Component, a: nat)
    requires SortedKids(ns, cs) && LowerBound(ns, cs, key) <= a < |cs|
    requires forall c :: c in cs ==> c < |ns| && ns[c].key != key
    ensures ComponentLess(key, ns[cs[a]].key)
  {
    var at := LowerBound(ns, cs, key);
    assert cs[a] in cs && cs[at] in cs;
    assert at < a ==> ComponentLess(ns[cs[at]].key, ns[cs[a]].key);
  }

  function KeysOf<V>(ns: seq<Node<V>>, cs: seq<nat>): (ks: seq<Component>)
    requires InRange(ns, cs)
    ensures |ks| == |cs| && forall a :: 0 <= a < |cs| ==> ks[a] == ns[cs[a]].key
  {
    seq(|cs|, a requires 0 <= a < |cs| => ns[cs[a]].key)
  }

  ghost predicate SortedKeys(ks: seq<Component>) {
    forall a, b :: 0 <= a < b < |ks| ==> ComponentLess(ks[a], ks[b])
  }

  lemma SortedInsert(ks: seq<Component>, at: nat, key: Component)
    requires SortedKeys(ks) && at <= |ks|
    requires forall a :: 0 <= a < at ==> ComponentLess(ks[a], key)
    requires forall a :: at <= a < |ks| ==> ComponentLess(key, ks[a])
    ensures SortedKeys(InsertAt(ks, at, key))
  {
  }

  /** A new edge adds exactly one walk; every old index keeps its path. */
  lemma {:induction false} AddChildWalk<V(!new)>(ns: seq<Node<V>>, at: nat, key: Component, value: V, i: nat, p: seq<Component>)
    requires WellFormed(ns) && at < |ns| && i < |ns| && InRange(ns, ns[at].children) && Child(ns, at, key).None?
    requires WellFormed(AddChild(ns, at, key, value))
    ensures Walk(AddChild(ns, at, key, value), i, p) ==
            if p != [] && Walk(ns, i, p[..|p| - 1]) == Some(at) && p[|p| - 1] == key then Some(|ns|)
            else Walk(ns, i, p)
    decreases |p|
  {
    hide WellFormed;
    if p != [] {
      var q, k := p[..|p| - 1], p[|p| - 1];
      AddChildWalk(ns, at, key, value, i, q);
      var ns' := AddChild(ns, at, key, value);
      if Walk(ns', i, q).Some? {
        AddChildStep(ns, at, key, value, Walk(ns', i, q).value, k);
      }
    }
  }

  lemma AddChildStep<V(!new)>(ns: seq<Node<V>>, at: nat, key: Component, value: V, j: nat, k: Component)
    requires WellFormed(ns) && at < |ns| && j <= |ns| && InRange(ns, ns[at].children) && Child(ns, at, key).None?
    requires WellFormed(AddChild(ns, at, key, value))
    ensures Child(AddChild(ns, at, key, value), j, k) ==
            if j == |ns| then None else if j == at && k == key then Some(|ns|) else Child(ns, j, k)
  {
    var ns' := AddChild(ns, at, key, value);
    if j < |ns| {
      var cs, ds := ns[j].children, ns'[j].children;
      forall c ensures c in ds <==> c in cs || (j == at && c == |ns|) {
      }
      if j == at && k == key {
        assert |ns| in ds;
        ChildIsUnique(ns', j, |ns|);
      } else if Child(ns, j, k).Some? {
        var c := Child(ns, j, k).value;
        assert c in ds;
        ChildIsUnique(ns', j, c);
      }
    }
  }

  /** Two arrays that differ only in what is stored at the nodes. */
  ghost predicate SameShape<V(!new)>(ns: seq<Node<V>>, ns': seq<Node<V>>) {
    && |ns| == |ns'|
    && forall i :: 0 <= i < |ns| ==> ns'[i].key == ns[i].key && ns'[i].children == ns[i].children
  }

  lemma SameShapeWellFormed<V(!new)>(ns: seq<Node<V>>, ns': seq<Node<V>>)
    requires WellFormed(ns) && SameShape(ns, ns')
    ensures WellFormed(ns')
  {
    forall i, c | 0 <= i < |ns'| && c in ns'[i].children ensures i < c < |ns'| {
      assert c in ns[i].children;
    }
    forall i | 0 <= i < |ns'| ensures SortedKids(ns', ns'[i].children) {
      assert SortedKids(ns, ns[i].children);
    }
    forall i, j, c | 0 <= i < |ns'| && 0 <= j < |ns'| && c in ns'[i].children && c in ns'[j].children ensures i == j {
      assert c in ns[i].children && c in ns[j].children;
    }
  }

  lemma {:induction false} SameShapeWalk<V(!new)>(ns: seq<Node<V>>, ns': seq<Node<V>>, i: nat, p: seq<Component>)
    requires WellFormed(ns) && WellFormed(ns') && SameShape(ns, ns') && i < |ns|
    ensures Walk(ns', i, p) == Walk(ns, i, p)
    decreases |p|
  {
    hide WellFormed;
    if p != [] {
      SameShapeWalk(ns, ns', i, p[..|p| - 1]);
      if Walk(ns, i, p[..|p| - 1]).Some? {
        SameShapeChild(ns, ns', Walk(ns, i, p[..|p| - 1]).value, p[|p| - 1]);
      }
    }
  }

  lemma SameShapeChild<V(!new)>(ns: seq<Node<V>>, ns': seq<Node<V>>, j: nat, k: Component)
    requires WellFormed(ns) && WellFormed(ns') && SameShape(ns, ns') && j < |ns|
    ensures Child(ns', j, k) == Child(ns, j, k)
  {
    SameShapeScan(ns, ns', ns[j].children, k);
  }

  lemma {:induction false} SameShapeScan<V(!new)>(ns: seq<Node<V>>, ns': seq<Node<V>>, cs: seq<nat>, k: Component)
    requires SameShape(ns, ns') && InRange(ns, cs)
    ensures Scan(ns', cs, k) == Scan(ns, cs, k)
  {
    if cs != [] {
      SameShapeScan(ns, ns', cs[1..], k);
    }
  }

  function Store<V>(ns: seq<Node<V>>, i: nat, end: bool, value: V): seq<Node<V>>
    requires i < |ns|
  {
    ns[i := ns[i].(end := end, value := value)]
  }

  /** Storing at the node of one sequence changes the map at that sequence only. */
  lemma StoreLookup<V(!new)>(ns: seq<Node<V>>, path: seq<Component>, end: bool, value: V, p: seq<Component>)
    requires WellFormed(ns) && Walk(ns, 0, path).Some?
    ensures var ns' := Store(ns, Walk(ns, 0, path).value, end, value);
            && WellFormed(ns') && Walk(ns', 0, p) == Walk(ns, 0, p)
            && Lookup(ns', p) == if p == path then (if end then Some(value) else None) else Lookup(ns, p)
  {
    hide WellFormed;
    var i := Walk(ns, 0, path).value;
    var ns' := Store(ns, i, end, value);
    SameShapeWellFormed(ns, ns');
    NonEmpty(ns);
    SameShapeWalk(ns, ns', 0, p);
    if Walk(ns, 0, p) == Some(i) {
      PathUnique(ns, p, path);
    }
  }

  lemma NonEmpty<V(!new)>(ns: seq<Node<V>>)
    requires WellFormed(ns)
    ensures |ns| > 0
  {
  }

  lemma ChildrenInRange<V(!new)>(ns: seq<Node<V>>, i: nat)
    requires WellFormed(ns) && i < |ns|
    ensures InRange(ns, ns[i].children)
  {
    assert SortedKids(ns, ns[i].children);
  }

  /** Make every node along a path exist. */
  function EnsurePath<V(!new)>(ns: seq<Node<V>>, path: seq<Component>, blank: V): (ns': seq<Node<V>>)
    requires WellFormed(ns)
    ensures WellFormed(ns') && |ns'| >= |ns| && Walk(ns', 0, path).Some?
    decreases |path|
  {
    if path == [] then ns
    else
      var before := EnsurePath(ns, path[..|path| - 1], blank);
      var i := Walk(before, 0, path[..|path| - 1]).value;
      var k := path[|path| - 1];
      if Child(before, i, k).Some? then before
      else
        ChildrenInRange(before, i);
        AddChildWellFormed(before, i, k, blank);
        AddChildWalk(before, i, k, blank, 0, path);
        AddChild(before, i, k, blank)
  }

  /** Making a path keeps every old index on its path, stores nothing, and adds only prefixes of it. */
  lemma {:induction false} EnsurePathKeeps<V(!new)>(ns: seq<Node<V>>, path: seq<Component>, blank: V, p: seq<Component>)
    requires WellFormed(ns)
    ensures var ns' := EnsurePath(ns, path, blank);
            && (Walk(ns, 0, p).Some? ==> Walk(ns', 0, p) == Walk(ns, 0, p))
            && (Walk(ns, 0, p).None? && Walk(ns', 0, p).Some? ==> p <= path)
            && Lookup(ns', p) == Lookup(ns, p)
    decreases |path|
  {
    hide WellFormed;
    if path != [] {
      var init, k := path[..|path| - 1], path[|path| - 1];
      EnsurePathKeeps(ns, init, blank, p);
      var before := EnsurePath(ns, init, blank);
      var i := Walk(before, 0, init).value;
      if Child(before, i, k).None? {
        hide AddChild, Walk, EnsurePath;
        AddChildKeeps(before, init, k, blank, p);
      }
      assert path == init + [k];
    }
  }

  lemma AddChildKeeps<V(!new)>(ns: seq<Node<V>>, path: seq<Component>, k: Component, blank: V, p: seq<Component>)
    requires WellFormed(ns) && Walk(ns, 0, path).Some? && Child(ns, Walk(ns, 0, path).value, k).None?
    ensures InRange(ns, ns[Walk(ns, 0, path).value].children)
    ensures var ns' := AddChild(ns, Walk(ns, 0, path).value, k, blank);
            && WellFormed(ns')
            && Walk(ns', 0, p) == (if p == path + [k] then Some(|ns|) else Walk(ns, 0, p))
            && Lookup(ns', p) == Lookup(ns, p)
            && Walk(ns, 0, path + [k]).None?
  {
    hide WellFormed, Walk, Child, AddChild, InRange;
    AddChildPaths(ns, path, k, blank, p);
    NonEmpty(ns);
    AddedNotStored(ns, Walk(ns, 0, path).value, k, blank);
  }

  lemma AddChildPaths<V(!new)>(ns: seq<Node<V>>, path: seq<Component>, k: Component, blank: V, p: seq<Component>)
    requires WellFormed(ns) && Walk(ns, 0, path).Some? && Child(ns, Walk(ns, 0, path).value, k).None?
    ensures InRange(ns, ns[Walk(ns, 0, path).value].children)
    ensures var ns' := AddChild(ns, Walk(ns, 0, path).value, k, blank);
            && WellFormed(ns')
            && Walk(ns', 0, p) == (if p == path + [k] then Some(|ns|) else Walk(ns, 0, p))
            && Walk(ns, 0, path + [k]).None?
  {
    hide WellFormed, AddChild, Child, Walk;
    var i := Walk(ns, 0, path).value;
    NonEmpty(ns);
    ChildrenInRange(ns, i);
    AddChildWellFormed(ns, i, k, blank);
    AddChildWalk(ns, i, k, blank, 0, p);
    WalkSnoc(ns, 0, path, k);
    if p != [] {
      var q, l := p[..|p| - 1], p[|p| - 1];
      assert p == q + [l];
      assert p == path + [k] ==> q == path;
      if Walk(ns, 0, q) == Some(i) {
        PathUnique(ns, q, path);
      }
    }
  }

  /** A new edge stores nothing and leaves the stored values alone. */
  lemma AddedNotStored<V>(ns: seq<Node<V>>, i: nat, k: Component, blank: V)
    requires i < |ns| && InRange(ns, ns[i].children)
    ensures var ns' := AddChild(ns, i, k, blank);
            && |ns'| == |ns| + 1 && !ns'[|ns|].end
            && forall j :: 0 <= j < |ns| ==> ns'[j].end == ns[j].end && ns'[j].value == ns[j].value
  {
  }

  function Insert<V(!new)>(ns: seq<Node<V>>, path: seq<Component>, value: V, blank: V): seq<Node<V>>
    requires WellFormed(ns)
  {
    var made := EnsurePath(ns, path, blank);
    Store(made, Walk(made, 0, path).value, true, value)
  }

  lemma {:induction false} EnsureExisting<V(!new)>(ns: seq<Node<V>>, path: seq<Component>, blank: V)
    requires WellFormed(ns) && Walk(ns, 0, path).Some?
    ensures EnsurePath(ns, path, blank) == ns
    decreases |path|
  {
    hide WellFormed;
    if path != [] {
      EnsureExisting(ns, path[..|path| - 1], blank);
    }
  }

  /** Append a terminal node and put its index into its parent's sorted child list. */
  function AddLeaf<V>(ns: seq<Node<V>>, i: nat, key: Component, value: V): seq<Node<V>>
    requires i < |ns| && InRange(ns, ns[i].children)
  {
    var cs := ns[i].children;
    ns[i := ns[i].(children := InsertAt(cs, LowerBound(ns, cs, key), |ns|))] + [Node(key, [], true, value)]
  }

  /** Inserting one component below an existing node appends one node and rewrites that one. */
  lemma InsertLeaf<V(!new)>(ns: seq<Node<V>>, path: seq<Component>, k: Component, value: V, blank: V)
    requires WellFormed(ns) && Walk(ns, 0, path).Some? && Child(ns, Walk(ns, 0, path).value, k).None?
    ensures InRange(ns, ns[Walk(ns, 0, path).value].children)
    ensures Insert(ns, path + [k], value, blank) == AddLeaf(ns, Walk(ns, 0, path).value, k, value)
  {
    hide WellFormed, Child, EnsurePath, LowerBound, InsertAt, AddChild, AddLeaf, Store, InRange;
    AddChildKeeps(ns, path, k, blank, path + [k]);
    EnsureLeaf(ns, path, k, blank);
    StoreAdded(ns, Walk(ns, 0, path).value, k, value, blank);
  }

  lemma StoreAdded<V>(ns: seq<Node<V>>, i: nat, k: Component, value: V, blank: V)
    requires i < |ns| && InRange(ns, ns[i].children)
    ensures |AddChild(ns, i, k, blank)| == |ns| + 1
    ensures Store(AddChild(ns, i, k, blank), |ns|, true, value) == AddLeaf(ns, i, k, value)
  {
    hide LowerBound, InsertAt;
  }

  lemma EnsureLeaf<V(!new)>(ns: seq<Node<V>>, path: seq<Component>, k: Component, blank: V)
    requires WellFormed(ns) && Walk(ns, 0, path).Some? && Child(ns, Walk(ns, 0, path).value, k).None?
    ensures InRange(ns, ns[Walk(ns, 0, path).value].children)
    ensures EnsurePath(ns, path + [k], blank) == AddChild(ns, Walk(ns, 0, path).value, k, blank)
  {
    hide WellFormed, Child, AddChild, InRange;
    EnsureExisting(ns, path, blank);
    ChildrenInRange(ns, Walk(ns, 0, path).value);
    assert (path + [k])[..|path|] == path;
  }

  /** Insertion refines map update, and existing indexes keep their paths. */
  lemma InsertRefinesUpdate<V(!new)>(ns: seq<Node<V>>, path: seq<Component>, value: V, blank: V, p: seq<Component>)
    requires WellFormed(ns)
    ensures var ns' := Insert(ns, path, value, blank);
            && WellFormed(ns')
            && Lookup(ns', p) == (if p == path then Some(value) else Lookup(ns, p))
            && (Walk(ns, 0, p).Some? ==> Walk(ns', 0, p) == Walk(ns, 0, p))
            && (Walk(ns, 0, p).None? && Walk(ns', 0, p).Some? ==> p <= path)
  {
    hide WellFormed;
    var made := EnsurePath(ns, path, blank);
    EnsurePathKeeps(ns, path, blank, p);
    StoreLookup(made, path, true, value, p);
  }

  /** Erasure refines map removal; nodes and indexes stay. */
  lemma EraseRefinesRemoval<V(!new)>(ns: seq<Node<V>>, path: seq<Component>, blank: V, p: seq<Component>)
    requires WellFormed(ns) && Walk(ns, 0, path).Some?
    ensures var ns' := Store(ns, Walk(ns, 0, path).value, false, blank);
            && WellFormed(ns')
            && Lookup(ns', p) == (if p == path then None else Lookup(ns, p))
            && Walk(ns', 0, p) == Walk(ns, 0, p)
  {
    hide WellFormed;
    StoreLookup(ns, path, false, blank, p);
  }

  // -------------------------------------------------------------- completions

  /** Stored sequences at and below a node, each behind `prefix`, in traversal order. */
  function Collect<V(!new)>(ns: seq<Node<V>>, i: nat, prefix: seq<Component>): seq<seq<Component>>
    requires WellFormed(ns) && i < |ns|
    decreases |ns| - i, 1, 0
  {
    ChildrenForward(ns, i);
    (if ns[i].end then [prefix] else []) + CollectKids(ns, i, ns[i].children, prefix)
  }

  function CollectKids<V(!new)>(ns: seq<Node<V>>, i: nat, cs: seq<nat>, prefix: seq<Component>): seq<seq<Component>>
    requires WellFormed(ns) && i < |ns| && forall a :: 0 <= a < |cs| ==> i < cs[a] < |ns|
    decreases |ns| - i, 0, |cs|
  {
    if cs == [] then []
    else Collect(ns, cs[0], prefix + [ns[cs[0]].key]) + CollectKids(ns, i, cs[1..], prefix)
  }

  lemma ChildrenForward<V(!new)>(ns: seq<Node<V>>, i: nat)
    requires WellFormed(ns) && i < |ns|
    ensures forall a :: 0 <= a < |ns[i].children| ==> i < ns[i].children[a] < |ns|
  {
    forall a | 0 <= a < |ns[i].children| ensures i < ns[i].children[a] < |ns| {
      assert ns[i].children[a] in ns[i].children;
    }
  }

  /** A sequence is stored below node `i`. */
  predicate StoredBelow<V(!new)>(ns: seq<Node<V>>, i: nat, s: seq<Component>)
    requires WellFormed(ns) && i < |ns|
  {
    Walk(ns, i, s).Some? && ns[Walk(ns, i, s).value].end
  }

  /** One of the listed children leads on to `p`. */
  ghost predicate ViaKid<V(!new)>(ns: seq<Node<V>>, cs: seq<nat>, prefix: seq<Component>, p: seq<Component>)
    requires WellFormed(ns) && InRange(ns, cs)
  {
    && prefix < p
    && Scan(ns, cs, p[|prefix|]).Some?
    && StoredBelow(ns, Scan(ns, cs, p[|prefix|]).value, p[|prefix| + 1..])
  }

  lemma StoredBelowCons<V(!new)>(ns: seq<Node<V>>, i: nat, s: seq<Component>)
    requires WellFormed(ns) && i < |ns| && s != []
    ensures StoredBelow(ns, i, s) <==> Child(ns, i, s[0]).Some? && StoredBelow(ns, Child(ns, i, s[0]).value, s[1..])
  {
    hide WellFormed;
    assert s == [s[0]] + s[1..];
    WalkConcat(ns, i, [s[0]], s[1..]);
    WalkSnoc(ns, i, [], s[0]);
    assert [] + [s[0]] == [s[0]];
  }

  /** Traversal finds exactly the stored extensions. */
  lemma {:induction false} CollectFinds<V(!new)>(ns: seq<Node<V>>, i: nat, prefix: seq<Component>, p: seq<Component>)
    requires WellFormed(ns) && i < |ns|
    ensures p in Collect(ns, i, prefix) <==> prefix <= p && StoredBelow(ns, i, p[|prefix|..])
    decreases |ns| - i, 1, 0
  {
    hide WellFormed;
    ChildrenForward(ns, i);
    ChildrenInRange(ns, i);
    KidsSorted(ns, i);
    CollectKidsFinds(ns, i, ns[i].children, prefix, p);
    if prefix < p {
      StoredBelowCons(ns, i, p[|prefix|..]);
      assert p[|prefix|..][1..] == p[|prefix| + 1..];
    } else if prefix == p {
      assert p[|prefix|..] == [];
    }
  }

  lemma {:induction false} CollectKidsFinds<V(!new)>(ns: seq<Node<V>>, i: nat, cs: seq<nat>, prefix: seq<Component>, p: seq<Component>)
    requires WellFormed(ns) && i < |ns| && SortedKids(ns, cs) && forall a :: 0 <= a < |cs| ==> i < cs[a] < |ns|
    ensures p in CollectKids(ns, i, cs, prefix) <==> ViaKid(ns, cs, prefix, p)
    decreases |ns| - i, 0, |cs|
  {
    hide WellFormed, Walk, StoredBelow, Collect, ViaKid;
    if cs == [] {
      NoKidsNoWay(ns, prefix, p);
    } else {
      var k := ns[cs[0]].key;
      CollectFinds(ns, cs[0], prefix + [k], p);
      CollectKidsFinds(ns, i, cs[1..], prefix, p);
      ViaFirstOrRest(ns, cs, prefix, p);
    }
  }

  lemma NoKidsNoWay<V(!new)>(ns: seq<Node<V>>, prefix: seq<Component>, p: seq<Component>)
    requires WellFormed(ns)
    ensures !ViaKid(ns, [], prefix, p)
  {
  }

  /** The way leads through the first child or through a later one, never both. */
  lemma ViaFirstOrRest<V(!new)>(ns: seq<Node<V>>, cs: seq<nat>, prefix: seq<Component>, p: seq<Component>)
    requires WellFormed(ns) && SortedKids(ns, cs) && cs != []
    ensures ViaKid(ns, cs, prefix, p) <==>
            || (prefix + [ns[cs[0]].key] <= p && StoredBelow(ns, cs[0], p[|prefix| + 1..]))
            || ViaKid(ns, cs[1..], prefix, p)
  {
    hide WellFormed, Walk, StoredBelow, ComponentLess;
    var k := ns[cs[0]].key;
    assert prefix + [k] <= p <==> prefix < p && p[|prefix|] == k;
    forall c | c in cs[1..] ensures c < |ns| && ns[c].key != k {
      var a :| 0 <= a < |cs| - 1 && cs[1..][a] == c;
      assert cs[a + 1] == c;
      KeysDiffer(ns, cs, a + 1);
    }
  }

  lemma KeysDiffer<V(!new)>(ns: seq<Node<V>>, cs: seq<nat>, a: nat)
    requires SortedKids(ns, cs) && 0 < a < |cs|
    ensures ns[cs[a]].key != ns[cs[0]].key
  {
  }

  predicate LexSorted(s: seq<seq<Component>>) {
    forall a, b :: 0 <= a < b < |s| ==> Less(s[a], s[b])
  }

  lemma SortedConcat(s: seq<seq<Component>>, t: seq<seq<Component>>)
    requires LexSorted(s) && LexSorted(t) && forall x, y :: x in s && y in t ==> Less(x, y)
    ensures LexSorted(s + t)
  {
    var u := s + t;
    forall a, b | 0 <= a < b < |u| ensures Less(u[a], u[b]) {
      if a < |s| <= b {
        assert s[a] in s && t[b - |s|] in t;
      }
    }
  }

  /** Traversal lists them in strict lexicographic order. */
  lemma {:induction false} CollectSorted<V(!new)>(ns: seq<Node<V>>, i: nat, prefix: seq<Component>)
    requires WellFormed(ns) && i < |ns|
    ensures LexSorted(Collect(ns, i, prefix))
    decreases |ns| - i, 1, 0
  {
    hide WellFormed, Less;
    ChildrenForward(ns, i);
    ChildrenInRange(ns, i);
    KidsSorted(ns, i);
    CollectKidsSorted(ns, i, ns[i].children, prefix);
    var own := if ns[i].end then [prefix] else [];
    var kids := CollectKids(ns, i, ns[i].children, prefix);
    forall x, y | x in own && y in kids ensures Less(x, y) {
      CollectKidsFinds(ns, i, ns[i].children, prefix, y);
      AncestorComesFirst(prefix, y);
    }
    SortedConcat(own, kids);
  }

  /** In the traversal a sibling with the smaller ordinal, with all its descendants, comes first. */
  lemma SiblingsCollectedByOrdinal<V(!new)>(ns: seq<Node<V>>, i: nat, prefix: seq<Component>, a: nat, b: nat,
                                            parent: seq<Component>, kind: Kind, m: nat, n: nat,
                                            s: seq<Component>, t: seq<Component>)
    requires WellFormed(ns) && i < |ns| && a < |Collect(ns, i, prefix)| && b < |Collect(ns, i, prefix)| && m < n
    requires Collect(ns, i, prefix)[a] == parent + ([Component(kind, m)] + s)
    requires Collect(ns, i, prefix)[b] == parent + ([Component(kind, n)] + t)
    ensures a < b
  {
    hide WellFormed, Less, Collect;
    CollectSorted(ns, i, prefix);
    SiblingsByOrdinal(parent, kind, m, n, s, t);
    AddressOrder();
  }

  lemma KidsSorted<V(!new)>(ns: seq<Node<V>>, i: nat)
    requires WellFormed(ns) && i < |ns|
    ensures SortedKids(ns, ns[i].children)
  {
  }

  lemma {:induction false} CollectKidsSorted<V(!new)>(ns: seq<Node<V>>, i: nat, cs: seq<nat>, prefix: seq<Component>)
    requires WellFormed(ns) && i < |ns| && SortedKids(ns, cs) && forall a :: 0 <= a < |cs| ==> i < cs[a] < |ns|
    ensures LexSorted(CollectKids(ns, i, cs, prefix))
    decreases |ns| - i, 0, |cs|
  {
    hide WellFormed, Less, LexSorted;
    if cs == [] {
      EmptySorted();
    } else {
      var k := ns[cs[0]].key;
      CollectSorted(ns, cs[0], prefix + [k]);
      CollectKidsSorted(ns, i, cs[1..], prefix);
      var first, rest := Collect(ns, cs[0], prefix + [k]), CollectKids(ns, i, cs[1..], prefix);
      forall x, y | x in first && y in rest ensures Less(x, y) {
        CollectFinds(ns, cs[0], prefix + [k], x);
        CollectKidsFinds(ns, i, cs[1..], prefix, y);
        var c := Scan(ns, cs[1..], y[|prefix|]).value;
        var a :| 0 <= a < |cs| - 1 && cs[1..][a] == c;
        assert cs[a + 1] == c;
        assert ComponentLess(k, y[|prefix|]);
        BranchOrder(prefix, x, y);
      }
      SortedConcat(first, rest);
    }
  }

  lemma EmptySorted()
    ensures LexSorted([])
  {
  }

  lemma BranchOrder(prefix: seq<Component>, x: seq<Component>, y: seq<Component>)
    requires prefix < x && prefix < y && ComponentLess(x[|prefix|], y[|prefix|])
    ensures Less(x, y)
  {
    ComponentOrder();
    var s, t := x[|prefix|..], y[|prefix|..];
    assert x == prefix + s && y == prefix + t;
    LexCommonPrefix(ComponentLess, prefix, s, t);
  }

  // ------------------------------------------------------------------ methods

  /** `std::lower_bound` by bisection. */
  method Bisect<V(!new)>(ns: seq<Node<V>>, cs: seq<nat>, key: Component) returns (r: nat)
    requires SortedKids(ns, cs)
    ensures r <= |cs| && r == LowerBound(ns, cs, key)
  {
    ghost var bound := LowerBound(ns, cs, key);
    var lo, hi := 0, |cs|;
    while lo < hi
      invariant 0 <= lo <= hi <= |cs|
      invariant forall a :: 0 <= a < lo ==> ComponentLess(ns[cs[a]].key, key)
      invariant forall a :: hi <= a < |cs| ==> !ComponentLess(ns[cs[a]].key, key)
      invariant lo <= bound <= hi
    {
      var mid := (lo + hi) / 2;
      if ComponentLess(ns[cs[mid]].key, key) {
        lo := mid + 1;
      } else {
        hi := mid;
      }
    }
    r := lo;
  }

  /** `find_child`: short lists are scanned, long ones bisected; both find the same child. */
  method FindChild<V(!new)>(ns: seq<Node<V>>, i: nat, key: Component) returns (r: Option<nat>)
    requires WellFormed(ns)
    ensures r == Child(ns, i, key)
  {
    if i >= |ns| {
      return None;
    }
    var cs := ns[i].children;
    KidsSorted(ns, i);
    if |cs| <= LINEAR_SEARCH_MAXIMUM_CHILDREN {
      for a := 0 to |cs|
        invariant forall b :: 0 <= b < a ==> ns[cs[b]].key != key
      {
        if ns[cs[a]].key == key {
          ChildIsUnique(ns, i, cs[a]);
          return Some(cs[a]);
        }
      }
      return None;
    }
    var at := Bisect(ns, cs, key);
    if at < |cs| && ns[cs[at]].key == key {
      ChildIsUnique(ns, i, cs[at]);
      return Some(cs[at]);
    }
    NotBeyondLowerBound(ns, cs, key);
    return None;
  }

  /** In a strictly sorted list only the lower bound can hold the key. */
  lemma NotBeyondLowerBound<V(!new)>(ns: seq<Node<V>>, cs: seq<nat>, key: Component)
    requires SortedKids(ns, cs)
    requires var at := LowerBound(ns, cs, key); at < |cs| ==> ns[cs[at]].key != key
    ensures Scan(ns, cs, key) == None
  {
    var at := LowerBound(ns, cs, key);
    forall c | c in cs ensures ns[c].key != key {
      var a :| 0 <= a < |cs| && cs[a] == c;
      if at < a {
        assert ComponentLess(ns[cs[at]].key, ns[cs[a]].key);
      }
    }
  }

  method FindNode<V(!new)>(ns: seq<Node<V>>, path: seq<Component>) returns (r: Option<nat>)
    requires WellFormed(ns)
    ensures r == Walk(ns, 0, path)
  {
    hide WellFormed;
    NonEmpty(ns);
    var current := 0;
    for k := 0 to |path|
      invariant current < |ns| && Walk(ns, 0, path[..k]) == Some(current)
    {
      assert path[..k + 1][..k] == path[..k];
      var next := FindChild(ns, current, path[k]);
      if next.None? {
        WalkStops(ns, path, k + 1);
        return None;
      }
      current := next.value;
    }
    assert path[..|path|] == path;
    return Some(current);
  }

  /** Once a prefix leads nowhere, so does every longer sequence. */
  lemma {:induction false} WalkStops<V(!new)>(ns: seq<Node<V>>, path: seq<Component>, k: nat)
    requires WellFormed(ns) && k <= |path| && Walk(ns, 0, path[..k]).None?
    ensures Walk(ns, 0, path).None?
    decreases |path|
  {
    hide WellFormed;
    if k == |path| {
      assert path[..k] == path;
    } else {
      var init := path[..|path| - 1];
      assert init[..k] == path[..k];
      WalkStops(ns, init, k);
    }
  }

  /** Append one node under `i` at its sorted position. */
  method AppendChild<V(!new)>(ns: seq<Node<V>>, i: nat, key: Component, blank: V) returns (ns': seq<Node<V>>)
    requires WellFormed(ns) && i < |ns|
    ensures InRange(ns, ns[i].children) && ns' == AddChild(ns, i, key, blank)
  {
    KidsSorted(ns, i);
    var at := Bisect(ns, ns[i].children, key);
    ns' := ns + [Node(key, [], false, blank)];
    ns' := ns'[i := ns'[i].(children := InsertAt(ns'[i].children, at, |ns|))];
  }

  /** `insert` as written: walk, appending missing nodes, then store. */
  method InsertSequence<V(!new)>(ns: seq<Node<V>>, path: seq<Component>, value: V, blank: V)
    returns (ns': seq<Node<V>>, terminal: nat)
    requires WellFormed(ns)
    ensures ns' == Insert(ns, path, value, blank)
    ensures WellFormed(ns') && Walk(ns', 0, path) == Some(terminal)
  {
    hide WellFormed;
    NonEmpty(ns);
    ns' := ns;
    var current := 0;
    for k := 0 to |path|
      invariant WellFormed(ns') && ns' == EnsurePath(ns, path[..k], blank)
      invariant Walk(ns', 0, path[..k]) == Some(current)
    {
      assert path[..k + 1][..k] == path[..k];
      var child := FindChild(ns', current, path[k]);
      if child.None? {
        hide AddChild, Child;
        AddChildKeeps(ns', path[..k], path[k], blank, path[..k + 1]);
        assert path[..k] + [path[k]] == path[..k + 1];
        child := Some(|ns'|);
        ns' := AppendChild(ns', current, path[k], blank);
      }
      current := child.value;
    }
    assert path[..|path|] == path;
    StoreLookup(ns', path, true, value, path);
    ns' := Store(ns', current, true, value);
    terminal := current;
  }

  /** `erase` as written. */
  method EraseSequence<V(!new)>(ns: seq<Node<V>>, path: seq<Component>, blank: V)
    returns (ns': seq<Node<V>>, erased: bool)
    requires WellFormed(ns)
    ensures WellFormed(ns') && |ns'| == |ns|
    ensures erased <==> Lookup(ns, path).Some?
    ensures !erased ==> ns' == ns
    ensures forall p :: Lookup(ns', p) == if p == path then None else Lookup(ns, p)
    ensures forall p :: Walk(ns', 0, p) == Walk(ns, 0, p)
  {
    hide WellFormed;
    NonEmpty(ns);
    var found := FindNode(ns, path);
    if found.None? || !ns[found.value].end {
      return ns, false;
    }
    EraseRefinesRemoval(ns, path, blank, path);
    var stored := Store(ns, found.value, false, blank);
    NonEmpty(stored);
    forall p ensures Lookup(stored, p) == (if p == path then None else Lookup(ns, p)) && Walk(stored, 0, p) == Walk(ns, 0, p) {
      EraseRefinesRemoval(ns, path, blank, p);
    }
    return stored, true;
  }

  /** `collect_completions`. */
  method CollectCompletions<V(!new)>(ns: seq<Node<V>>, i: nat, prefix: seq<Component>) returns (r: seq<seq<Component>>)
    requires WellFormed(ns) && i < |ns|
    ensures r == Collect(ns, i, prefix)
    decreases |ns| - i
  {
    hide WellFormed;
    ChildrenForward(ns, i);
    r := if ns[i].end then [prefix] else [];
    var cs := ns[i].children;
    for a := 0 to |cs|
      invariant r + CollectKids(ns, i, cs[a..], prefix) == Collect(ns, i, prefix)
    {
      var below := CollectCompletions(ns, cs[a], prefix + [ns[cs[a]].key]);
      assert cs[a..][1..] == cs[a + 1..];
      r := r + below;
    }
  }

  /** `completions`: exactly the stored extensions of the prefix, in strict lexicographic order. */
  method Completions<V(!new)>(ns: seq<Node<V>>, prefix: seq<Component>) returns (r: seq<seq<Component>>)
    requires WellFormed(ns)
    ensures forall p :: p in r <==> prefix <= p && Lookup(ns, p).Some?
    ensures LexSorted(r)
  {
    hide WellFormed, LexSorted;
    EmptySorted();
    var start := FindNode(ns, prefix);
    NonEmpty(ns);
    if start.None? {
      forall p | prefix <= p ensures Lookup(ns, p).None? {
        assert p[..|prefix|] == prefix;
        WalkStops(ns, p, |prefix|);
      }
      return [];
    }
    r := CollectCompletions(ns, start.value, prefix);
    CollectSorted(ns, start.value, prefix);
    forall p ensures p in r <==> prefix <= p && Lookup(ns, p).Some? {
      CollectFinds(ns, start.value, prefix, p);
      if prefix <= p {
        assert p == prefix + p[|prefix|..];
        WalkConcat(ns, 0, prefix, p[|prefix|..]);
      }
    }
  }

  /** The container: one node array that insertions and erasures update. */
  class Trie<V(!new)> {
    const blank: V
    var nodes: seq<Node<V>>

    ghost predicate Valid()
      reads this
    {
      WellFormed(nodes)
    }

    constructor (blank: V)
      ensures Valid() && this.blank == blank && forall p :: Lookup(nodes, p).None?
    {
      this.blank := blank;
      nodes := [Node(ROOT_KEY, [], false, blank)];
      new;
      forall p ensures Lookup(nodes, p).None? {
        if p != [] && Walk(nodes, 0, p[..|p| - 1]).Some? {
          assert Walk(nodes, 0, p[..|p| - 1]).value == 0;
        }
      }
    }

    /** `insert`: map update, and every existing index keeps its sequence. */
    method Insert(path: seq<Component>, value: V) returns (terminal: nat)
      requires Valid()
      modifies this
      ensures Valid() && Walk(nodes, 0, path) == Some(terminal)
      ensures forall p :: Lookup(nodes, p) == if p == path then Some(value) else Lookup(old(nodes), p)
      ensures forall p :: Walk(old(nodes), 0, p).Some? ==> Walk(nodes, 0, p) == Walk(old(nodes), 0, p)
    {
      hide WellFormed, Walk, Lookup;
      ghost var before := nodes;
      nodes, terminal := InsertSequence(nodes, path, value, blank);
      NonEmpty(before);
      NonEmpty(nodes);
      forall p ensures Lookup(nodes, p) == if p == path then Some(value) else Lookup(before, p)
               ensures Walk(before, 0, p).Some? ==> Walk(nodes, 0, p) == Walk(before, 0, p)
      {
        InsertRefinesUpdate(before, path, value, blank, p);
      }
    }

    /** `erase`: map removal; no node and no index disappears. */
    method Erase(path: seq<Component>) returns (erased: bool)
      requires Valid()
      modifies this
      ensures Valid() && |nodes| == |old(nodes)|
      ensures erased <==> Lookup(old(nodes), path).Some?
      ensures forall p :: Lookup(nodes, p) == if p == path then None else Lookup(old(nodes), p)
      ensures forall p :: Walk(nodes, 0, p) == Walk(old(nodes), 0, p)
    {
      hide WellFormed, Walk, Lookup;
      nodes, erased := EraseSequence(nodes, path, blank);
    }
  }
}
