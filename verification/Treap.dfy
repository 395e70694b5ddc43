/**
 The search tree behind a Presentation, as a value: ordered by key, heap-ordered by rank
 (canvas/presentation/presentation_tree.cpp, `insert` and `split`).

 The two orders are parameters. `less` may identify keys (two texts of one address);
 `above` never does.
 */
module Treap {
  import opened Basics

  datatype Tree<+K> = Leaf | Node(left: Tree<K>, key: K, right: Tree<K>)

  datatype Order<!K> = Order(less: (K, K) -> bool, above: (K, K) -> bool)

  ghost predicate Lawful<K(!new)>(o: Order<K>) {
    && (forall a :: !o.less(a, a))
    && (forall a, b, c :: o.less(a, b) && o.less(b, c) ==> o.less(a, c))
    && (forall a, b, c :: o.less(a, c) ==> o.less(a, b) || o.less(b, c))
    && StrictTotal(o.above)
  }

  /** Same search position: neither key precedes the other. */
  predicate Same<K>(o: Order<K>, a: K, b: K) {
    !o.less(a, b) && !o.less(b, a)
  }

  function Keys<K>(t: Tree<K>): set<K> {
    match t
    case Leaf => {}
    case Node(l, k, r) => Keys(l) + {k} + Keys(r)
  }

  function InOrder<K>(t: Tree<K>): seq<K> {
    match t
    case Leaf => []
    case Node(l, k, r) => InOrder(l) + [k] + InOrder(r)
  }

  ghost predicate Search<K(!new)>(o: Order<K>, t: Tree<K>) {
    match t
    case Leaf => true
    case Node(l, k, r) =>
      && Search(o, l) && Search(o, r)
      && (forall x :: x in Keys(l) ==> o.less(x, k))
      && (forall x :: x in Keys(r) ==> o.less(k, x))
  }

  ghost predicate Heap<K(!new)>(o: Order<K>, t: Tree<K>) {
    match t
    case Leaf => true
    case Node(l, k, r) =>
      && Heap(o, l) && Heap(o, r)
      && (forall x :: x in Keys(l) || x in Keys(r) ==> o.above(k, x))
  }

  ghost predicate IsTreap<K(!new)>(o: Order<K>, t: Tree<K>) {
    Search(o, t) && Heap(o, t)
  }

  /** Some key of the tree has the search position of `x`. */
  ghost predicate Present<K(!new)>(o: Order<K>, t: Tree<K>, x: K) {
    exists y :: y in Keys(t) && Same(o, x, y)
  }

  // -------------------------------------------------------------- operations

  /** Keys below `k` to the left, all others to the right. */
  function Split<K>(o: Order<K>, t: Tree<K>, k: K): (Tree<K>, Tree<K>) {
    match t
    case Leaf => (Leaf, Leaf)
    case Node(l, c, r) =>
      if o.less(c, k) then
        var (middle, right) := Split(o, r, k);
        (Node(l, c, middle), right)
      else
        var (left, middle) := Split(o, l, k);
        (left, Node(middle, c, r))
  }

  /** `None` stands for ALREADY_EXISTS. A key that outranks a subtree splits it and stops searching. */
  function Insert<K>(o: Order<K>, t: Tree<K>, x: K): Option<Tree<K>> {
    match t
    case Leaf => Some(Node(Leaf, x, Leaf))
    case Node(l, c, r) =>
      if Same(o, c, x) then None
      else if o.above(x, c) then
        var (left, right) := Split(o, t, x);
        Some(Node(left, x, right))
      else if o.less(x, c) then
        match Insert(o, l, x)
        case None => None
        case Some(l') => Some(Node(l', c, r))
      else
        match Insert(o, r, x)
        case None => None
        case Some(r') => Some(Node(l, c, r'))
  }

  // -------------------------------------------------------------- properties

  lemma SplitTreap<K(!new)>(o: Order<K>, t: Tree<K>, k: K)
    requires Lawful(o) && IsTreap(o, t)
    ensures var (l, r) := Split(o, t, k);
            && IsTreap(o, l) && IsTreap(o, r)
            && Keys(l) + Keys(r) == Keys(t)
            && InOrder(l) + InOrder(r) == InOrder(t)
            && (forall y :: y in Keys(l) ==> o.less(y, k))
            && (forall y :: y in Keys(r) ==> !o.less(y, k))
  {
    hide Lawful, IsTreap, Split, Keys, InOrder;
    SplitKeys(o, t, k);
    SplitListing(o, t, k);
  }

  lemma {:induction false} SplitKeys<K(!new)>(o: Order<K>, t: Tree<K>, k: K)
    requires Lawful(o) && IsTreap(o, t)
    ensures var (l, r) := Split(o, t, k);
            && IsTreap(o, l) && IsTreap(o, r)
            && Keys(l) + Keys(r) == Keys(t)
            && (forall y :: y in Keys(l) ==> o.less(y, k))
            && (forall y :: y in Keys(r) ==> !o.less(y, k))
  {
    match t
    case Leaf =>
    case Node(l, c, r) =>
      if o.less(c, k) {
        SplitKeys(o, r, k);
      } else {
        SplitKeys(o, l, k);
      }
  }

  lemma {:induction false} SplitListing<K(!new)>(o: Order<K>, t: Tree<K>, k: K)
    ensures var (l, r) := Split(o, t, k); InOrder(l) + InOrder(r) == InOrder(t)
  {
    match t
    case Leaf =>
    case Node(l, c, r) =>
      if o.less(c, k) {
        SplitListing(o, r, k);
        var (m, right) := Split(o, r, k);
        assert InOrder(l) + [c] + (InOrder(m) + InOrder(right)) == InOrder(l) + [c] + InOrder(m) + InOrder(right);
      } else {
        SplitListing(o, l, k);
        var (left, m) := Split(o, l, k);
        assert InOrder(left) + InOrder(m) + [c] + InOrder(r) == InOrder(left) + (InOrder(m) + [c] + InOrder(r));
      }
  }

  /** Insertion of a key whose position is free: the result is a treap over one more key. */
  lemma {:induction false} InsertFresh<K(!new)>(o: Order<K>, t: Tree<K>, x: K)
    requires Lawful(o) && IsTreap(o, t) && !Present(o, t, x)
    ensures Insert(o, t, x).Some?
    ensures IsTreap(o, Insert(o, t, x).value)
    ensures Keys(Insert(o, t, x).value) == Keys(t) + {x}
  {
    match t
    case Leaf =>
    case Node(l, c, r) =>
      assert c in Keys(t);
      assert !Same(o, x, c);
      if o.above(x, c) {
        SplitTreap(o, t, x);
        forall y | y in Keys(t) ensures o.above(x, y) {
        }
        forall y | y in Keys(t) && !o.less(y, x) ensures o.less(x, y) {
          assert !Same(o, x, y);
        }
      } else if o.less(x, c) {
        assert !Present(o, l, x);
        InsertFresh(o, l, x);
      } else {
        assert !Present(o, r, x);
        InsertFresh(o, r, x);
      }
  }

  /** A key that is itself in the treap is found although promotion may stop the search early. */
  lemma {:induction false} InsertMember<K(!new)>(o: Order<K>, t: Tree<K>, x: K)
    requires Lawful(o) && IsTreap(o, t) && x in Keys(t)
    ensures Insert(o, t, x).None?
  {
    match t
    case Node(l, c, r) =>
      if x == c {
      } else if x in Keys(l) {
        InsertMember(o, l, x);
      } else {
        InsertMember(o, r, x);
      }
  }

  /** `c` is a proper ancestor of the node holding `y`. */
  ghost predicate AncestorOf<K(!new)>(t: Tree<K>, c: K, y: K) {
    match t
    case Leaf => false
    case Node(l, k, r) =>
      (c == k && y in Keys(l) + Keys(r)) || AncestorOf(l, c, y) || AncestorOf(r, c, y)
  }

  lemma {:induction false} AncestorKeys<K(!new)>(t: Tree<K>, c: K, y: K)
    requires AncestorOf(t, c, y)
    ensures c in Keys(t) && y in Keys(t)
  {
    match t
    case Node(l, k, r) =>
      if AncestorOf(l, c, y) {
        AncestorKeys(l, c, y);
      } else if AncestorOf(r, c, y) {
        AncestorKeys(r, c, y);
      }
  }

  /**
   Exactly when an insertion is refused: a key of the same position is present and the new
   key outranks none of that key's ancestors. For a key already in the tree this is always
   so; for another text of a present address it is not.
   */
  lemma {:induction false} RefusedExactly<K(!new)>(o: Order<K>, t: Tree<K>, x: K)
    requires Lawful(o) && IsTreap(o, t)
    ensures Insert(o, t, x).None? <==>
            exists y :: y in Keys(t) && Same(o, x, y) && forall c :: AncestorOf(t, c, y) ==> !o.above(x, c)
  {
    match t
    case Leaf =>
    case Node(l, c, r) =>
      if Same(o, x, c) {
        forall a ensures !AncestorOf(t, a, c) {
          OwnKeyHasNoAncestor(o, t, a);
        }
        assert c in Keys(t);
      } else if o.above(x, c) {
        forall y | y in Keys(t) && Same(o, x, y) ensures AncestorOf(t, c, y) && o.above(x, c) {
          assert y != c;
        }
      } else if o.less(x, c) {
        RefusedExactly(o, l, x);
        forall y | y in Keys(t) && Same(o, x, y)
          ensures y in Keys(l) && forall a :: AncestorOf(t, a, y) <==> a == c || AncestorOf(l, a, y)
        {
          assert y in Keys(l);
          DisjointAncestors(o, t, y);
        }
      } else {
        RefusedExactly(o, r, x);
        forall y | y in Keys(t) && Same(o, x, y)
          ensures y in Keys(r) && forall a :: AncestorOf(t, a, y) <==> a == c || AncestorOf(r, a, y)
        {
          assert y in Keys(r);
          DisjointAncestors(o, t, y);
        }
      }
  }

  lemma OwnKeyHasNoAncestor<K(!new)>(o: Order<K>, t: Tree<K>, a: K)
    requires Lawful(o) && Search(o, t) && t.Node?
    ensures !AncestorOf(t, a, t.key)
  {
    if AncestorOf(t.left, a, t.key) {
      AncestorKeys(t.left, a, t.key);
    }
    if AncestorOf(t.right, a, t.key) {
      AncestorKeys(t.right, a, t.key);
    }
  }

  lemma DisjointAncestors<K(!new)>(o: Order<K>, t: Tree<K>, y: K)
    requires Lawful(o) && Search(o, t) && t.Node?
    ensures y in Keys(t.left) ==> forall a :: !AncestorOf(t.right, a, y)
    ensures y in Keys(t.right) ==> forall a :: !AncestorOf(t.left, a, y)
  {
    forall a | AncestorOf(t.right, a, y) ensures y !in Keys(t.left) {
      AncestorKeys(t.right, a, y);
    }
    forall a | AncestorOf(t.left, a, y) ensures y !in Keys(t.right) {
      AncestorKeys(t.left, a, y);
    }
  }

  /** Search order and heap order leave one tree per key set. */
  lemma {:induction false} TreapUnique<K(!new)>(o: Order<K>, s: Tree<K>, t: Tree<K>)
    requires Lawful(o) && IsTreap(o, s) && IsTreap(o, t)
    requires Keys(s) == Keys(t)
    ensures s == t
  {
    match s
    case Leaf =>
      OnlyLeafIsEmpty(t);
    case Node(l, k, r) =>
      assert k in Keys(s);
      assert t.Node?;
      assert t.key in Keys(t);
      assert k == t.key;
      assert Keys(l) == Keys(t.left) by {
        forall x ensures x in Keys(l) <==> x in Keys(t.left) {
          SideOfKey(o, s, x);
          SideOfKey(o, t, x);
        }
      }
      assert Keys(r) == Keys(t.right) by {
        forall x ensures x in Keys(r) <==> x in Keys(t.right) {
          SideOfKey(o, s, x);
          SideOfKey(o, t, x);
        }
      }
      TreapUnique(o, l, t.left);
      TreapUnique(o, r, t.right);
  }

  lemma OnlyLeafIsEmpty<K>(t: Tree<K>)
    ensures Keys(t) == {} <==> t.Leaf?
  {
    if t.Node? {
      assert t.key in Keys(t);
    }
  }

  lemma SideOfKey<K(!new)>(o: Order<K>, t: Tree<K>, x: K)
    requires Lawful(o) && Search(o, t) && t.Node?
    ensures x in Keys(t.left) <==> x in Keys(t) && o.less(x, t.key)
    ensures x in Keys(t.right) <==> x in Keys(t) && o.less(t.key, x)
  {
  }

  // ----------------------------------------------------------------- listing

  ghost predicate StrictlySorted<K(!new)>(o: Order<K>, s: seq<K>) {
    forall i, j :: 0 <= i < j < |s| ==> o.less(s[i], s[j])
  }

  lemma {:induction false} ListingHoldsKeys<K>(t: Tree<K>)
    ensures forall x :: x in InOrder(t) <==> x in Keys(t)
  {
    match t
    case Leaf =>
    case Node(l, k, r) =>
      ListingHoldsKeys(l);
      ListingHoldsKeys(r);
  }

  lemma {:induction false} ListingSorted<K(!new)>(o: Order<K>, t: Tree<K>)
    requires Lawful(o) && Search(o, t)
    ensures StrictlySorted(o, InOrder(t))
  {
    match t
    case Leaf =>
    case Node(l, k, r) =>
      ListingSorted(o, l);
      ListingSorted(o, r);
      ListingHoldsKeys(l);
      ListingHoldsKeys(r);
      var a, b := InOrder(l), InOrder(r);
      var s := a + [k] + b;
      forall i, j | 0 <= i < j < |s| ensures o.less(s[i], s[j]) {
        assert i < |a| ==> s[i] == a[i] && a[i] in Keys(l);
        assert j > |a| ==> s[j] == b[j - |a| - 1] && b[j - |a| - 1] in Keys(r);
      }
  }

  /** A strictly sorted listing is determined by its elements. */
  lemma {:induction false} SortedUnique<K(!new)>(o: Order<K>, a: seq<K>, b: seq<K>)
    requires Lawful(o) && StrictlySorted(o, a) && StrictlySorted(o, b)
    requires forall x :: x in a <==> x in b
    ensures a == b
  {
    assert |a| > 0 ==> a[0] in b;
    assert |b| > 0 ==> b[0] in a;
    if a != [] {
      assert a[0] == b[0];
      forall x ensures x in a[1..] <==> x in b[1..] {
        TailMembership(o, a, x);
        TailMembership(o, b, x);
      }
      SortedUnique(o, a[1..], b[1..]);
      assert a == [a[0]] + a[1..] && b == [b[0]] + b[1..];
    }
  }

  lemma TailMembership<K(!new)>(o: Order<K>, s: seq<K>, x: K)
    requires Lawful(o) && StrictlySorted(o, s) && s != []
    ensures x in s[1..] <==> x in s && x != s[0]
  {
    if x in s[1..] {
      var i :| 0 <= i < |s[1..]| && s[1..][i] == x;
      assert s[i + 1] == x;
    }
  }

  /** Sorted-set insertion on listings. */
  function InsertSorted<K>(o: Order<K>, s: seq<K>, x: K): seq<K> {
    if s == [] || o.less(x, s[0]) then [x] + s else [s[0]] + InsertSorted(o, s[1..], x)
  }

  lemma {:induction false} InsertSortedKeeps<K(!new)>(o: Order<K>, s: seq<K>, x: K)
    requires Lawful(o) && StrictlySorted(o, s)
    requires forall y :: y in s ==> !Same(o, x, y)
    ensures StrictlySorted(o, InsertSorted(o, s, x))
    ensures forall y :: y in InsertSorted(o, s, x) <==> y == x || y in s
  {
    if s == [] {
    } else if o.less(x, s[0]) {
    } else {
      assert s[0] in s;
      assert !Same(o, x, s[0]);
      InsertSortedKeeps(o, s[1..], x);
      var r := InsertSorted(o, s[1..], x);
      forall y | y in r ensures o.less(s[0], y) {
      }
      assert s == [s[0]] + s[1..];
    }
  }

  /** Treap insertion refines sorted-set insertion: the listing gains exactly the new key. */
  lemma InsertRefinesSortedInsertion<K(!new)>(o: Order<K>, t: Tree<K>, x: K)
    requires Lawful(o) && IsTreap(o, t) && !Present(o, t, x)
    ensures Insert(o, t, x).Some?
    ensures InOrder(Insert(o, t, x).value) == InsertSorted(o, InOrder(t), x)
    ensures StrictlySorted(o, InOrder(Insert(o, t, x).value))
  {
    InsertFresh(o, t, x);
    var t' := Insert(o, t, x).value;
    ListingSorted(o, t);
    ListingSorted(o, t');
    ListingHoldsKeys(t);
    ListingHoldsKeys(t');
    InsertSortedKeeps(o, InOrder(t), x);
    SortedUnique(o, InOrder(t'), InsertSorted(o, InOrder(t), x));
  }

  // ------------------------------------------------------- history independence

  /** Insert every key of `s` in order; `None` as soon as one is refused. */
  function InsertAll<K>(o: Order<K>, t: Tree<K>, s: seq<K>): Option<Tree<K>>
    decreases |s|
  {
    if s == [] then Some(t)
    else match Insert(o, t, s[0])
         case None => None
         case Some(t') => InsertAll(o, t', s[1..])
  }

  lemma {:induction false} InsertAllKeys<K(!new)>(o: Order<K>, t: Tree<K>, s: seq<K>)
    requires Lawful(o) && IsTreap(o, t)
    requires forall i :: 0 <= i < |s| ==> !Present(o, t, s[i])
    requires forall i, j :: 0 <= i < j < |s| ==> !Same(o, s[i], s[j])
    ensures InsertAll(o, t, s).Some?
    ensures IsTreap(o, InsertAll(o, t, s).value)
    ensures Keys(InsertAll(o, t, s).value) == Keys(t) + set x | x in s
    decreases |s|
  {
    if s != [] {
      InsertFresh(o, t, s[0]);
      var t' := Insert(o, t, s[0]).value;
      var rest := s[1..];
      forall i | 0 <= i < |rest| ensures !Present(o, t', rest[i]) {
        assert !Present(o, t, s[i + 1]) && !Same(o, s[0], s[i + 1]);
      }
      InsertAllKeys(o, t', rest);
      assert s == [s[0]] + rest;
    }
  }

  /** Any two orders of the same pairwise different keys build the same tree. */
  lemma HistoryIndependence<K(!new)>(o: Order<K>, s1: seq<K>, s2: seq<K>)
    requires Lawful(o)
    requires forall i, j :: 0 <= i < j < |s1| ==> !Same(o, s1[i], s1[j])
    requires forall i, j :: 0 <= i < j < |s2| ==> !Same(o, s2[i], s2[j])
    requires (set x | x in s1) == (set x | x in s2)
    ensures InsertAll(o, Leaf, s1).Some?
    ensures InsertAll(o, Leaf, s1) == InsertAll(o, Leaf, s2)
  {
    InsertAllKeys(o, Leaf, s1);
    InsertAllKeys(o, Leaf, s2);
    TreapUnique(o, InsertAll(o, Leaf, s1).value, InsertAll(o, Leaf, s2).value);
  }
}
