/**
 Merkle hashing of the Turn trie (canvas/turn/turn_tree.cpp:121-180, 241-265): what a stored
 hash should be, and why rehashing one root-to-leaf path is enough.
 */
module TurnHash {
  import opened Basics
  import opened Address
  import opened Integers
  import opened Hashing
  import opened Trie

  /** `proto::TurnId` with explicit field presence. */
  datatype Ident = Ident(canvas: Option<Bytes>, text: Option<Bytes>)

  /** `proto::Turn`; `body` stands for the fields the tree does not look at. */
  datatype Turn = Turn(id: Option<Ident>, parent: Option<Ident>, body: Bytes)

  /** A Turn and its two child allocators; zero means exhausted. */
  datatype TurnNode = TurnNode(turn: Option<Turn>, nextNumeric: nat, nextAlphabetic: nat)

  const BLANK := TurnNode(None, 1, 1)

  type Nodes = seq<Node<TurnNode>>

  /** The digest function and the protobuf serializer. */
  datatype Codec = Codec(sha: Bytes -> Hash, serialize: Option<Turn> -> Bytes)

  const TRIE_PREFIX: Bytes := [80, 85, 67, 45, 84, 85, 82, 78, 45, 84, 82, 73, 69, 45, 86, 49]

  function EdgeBytes(k: Component): Bytes {
    [if k.kind.Numeric? then 0 else 1] + ToBytes(k.ordinal, 8)
  }

  function HeadBytes(cd: Codec, n: Node<TurnNode>): Bytes {
    TRIE_PREFIX + (if n.end then [1] + cd.serialize(n.value.turn) else [0])
  }

  /** Child keys followed by their stored hashes. */
  function KidBytes(ns: Nodes, cs: seq<nat>, hashes: seq<Hash>): Bytes
    requires InRange(ns, cs) && |hashes| == |ns|
  {
    if cs == [] then []
    else EdgeBytes(ns[cs[0]].key) + hashes[cs[0]] + KidBytes(ns, cs[1..], hashes)
  }

  /** `hash_node`: one node from its Turn and the stored child hashes. */
  function HashNode(cd: Codec, ns: Nodes, hashes: seq<Hash>, i: nat): Hash
    requires i < |ns| && InRange(ns, ns[i].children) && |hashes| == |ns|
  {
    cd.sha(HeadBytes(cd, ns[i]) + KidBytes(ns, ns[i].children, hashes))
  }

  /** The hash of a subtree computed from scratch. */
  function FullHash(cd: Codec, ns: Nodes, i: nat): Hash
    requires WellFormed(ns) && i < |ns|
    decreases |ns| - i, 1, 0
  {
    ChildrenForward(ns, i);
    cd.sha(HeadBytes(cd, ns[i]) + FullKids(cd, ns, i, ns[i].children))
  }

  function FullKids(cd: Codec, ns: Nodes, i: nat, cs: seq<nat>): Bytes
    requires WellFormed(ns) && i < |ns| && forall a :: 0 <= a < |cs| ==> i < cs[a] < |ns|
    decreases |ns| - i, 0, |cs|
  {
    if cs == [] then []
    else EdgeBytes(ns[cs[0]].key) + FullHash(cd, ns, cs[0]) + FullKids(cd, ns, i, cs[1..])
  }

  ghost predicate Correct(cd: Codec, ns: Nodes, hashes: seq<Hash>, i: nat)
    requires WellFormed(ns) && i < |ns| && |hashes| == |ns|
  {
    hashes[i] == FullHash(cd, ns, i)
  }

  /** Every stored hash equals a from-scratch hash. */
  ghost predicate AllCorrect(cd: Codec, ns: Nodes, hashes: seq<Hash>)
    requires WellFormed(ns)
  {
    |hashes| == |ns| && forall i :: 0 <= i < |ns| ==> Correct(cd, ns, hashes, i)
  }

  /** With correct children, hashing one node is hashing its subtree. */
  lemma HashNodeIsFull(cd: Codec, ns: Nodes, hashes: seq<Hash>, i: nat)
    requires WellFormed(ns) && i < |ns| && |hashes| == |ns| && InRange(ns, ns[i].children)
    requires forall c :: c in ns[i].children ==> c < |ns| && Correct(cd, ns, hashes, c)
    ensures HashNode(cd, ns, hashes, i) == FullHash(cd, ns, i)
  {
    hide WellFormed;
    ChildrenForward(ns, i);
    KidBytesAreFull(cd, ns, hashes, i, ns[i].children);
  }

  lemma {:induction false} KidBytesAreFull(cd: Codec, ns: Nodes, hashes: seq<Hash>, i: nat, cs: seq<nat>)
    requires WellFormed(ns) && i < |ns| && |hashes| == |ns| && forall a :: 0 <= a < |cs| ==> i < cs[a] < |ns|
    requires forall c :: c in cs ==> c < |ns| && Correct(cd, ns, hashes, c)
    ensures KidBytes(ns, cs, hashes) == FullKids(cd, ns, i, cs)
  {
    hide WellFormed;
    if cs != [] {
      KidBytesAreFull(cd, ns, hashes, i, cs[1..]);
      assert cs[0] in cs;
    }
  }

  // ------------------------------------------------------- untouched subtrees

  /** What a hash sees of a node. */
  ghost predicate SameNode(m: Node<TurnNode>, n: Node<TurnNode>) {
    m.key == n.key && m.children == n.children && m.end == n.end && m.value.turn == n.value.turn
  }

  /** `keep` is a set of nodes closed under children on which both arrays agree. */
  ghost predicate Untouched(ns: Nodes, ns': Nodes, keep: set<nat>) {
    forall i :: i in keep ==>
      && i < |ns| && i < |ns'| && SameNode(ns[i], ns'[i])
      && forall c :: c in ns[i].children ==> c in keep
  }

  lemma {:induction false} UntouchedHash(cd: Codec, ns: Nodes, ns': Nodes, keep: set<nat>, i: nat)
    requires WellFormed(ns) && WellFormed(ns') && Untouched(ns, ns', keep) && i in keep
    ensures i < |ns| && i < |ns'| && FullHash(cd, ns', i) == FullHash(cd, ns, i)
    decreases |ns| - i, 1, 0
  {
    hide WellFormed;
    assert SameNode(ns[i], ns'[i]);
    ChildrenForward(ns, i);
    ChildrenForward(ns', i);
    UntouchedKids(cd, ns, ns', keep, i, ns[i].children);
  }

  lemma {:induction false} UntouchedKids(cd: Codec, ns: Nodes, ns': Nodes, keep: set<nat>, i: nat, cs: seq<nat>)
    requires WellFormed(ns) && WellFormed(ns') && Untouched(ns, ns', keep) && i < |ns| && i < |ns'|
    requires forall a :: 0 <= a < |cs| ==> i < cs[a] < |ns| && cs[a] < |ns'| && cs[a] in keep
    ensures FullKids(cd, ns', i, cs) == FullKids(cd, ns, i, cs)
    decreases |ns| - i, 0, |cs|
  {
    hide WellFormed;
    if cs != [] {
      UntouchedHash(cd, ns, ns', keep, cs[0]);
      UntouchedKids(cd, ns, ns', keep, i, cs[1..]);
      assert SameNode(ns[cs[0]], ns'[cs[0]]);
    }
  }

  // --------------------------------------------- the root depends on the Turns

  /** Every node but the root holds a Turn. */
  ghost predicate AllTerminal(ns: Nodes) {
    forall i :: 0 < i < |ns| ==> ns[i].end
  }

  function TurnAt(ns: Nodes, p: seq<Component>): Option<Option<Turn>>
    requires WellFormed(ns)
  {
    match Lookup(ns, p) case None => None case Some(v) => Some(v.turn)
  }

  ghost predicate SameTurns(ns: Nodes, ns': Nodes)
    requires WellFormed(ns) && WellFormed(ns')
  {
    forall p :: TurnAt(ns, p) == TurnAt(ns', p)
  }

  /** Where all nodes hold Turns, a node's child keys are read off the stored addresses. */
  lemma ChildKeys(ns: Nodes, p: seq<Component>, i: nat, k: Component)
    requires WellFormed(ns) && AllTerminal(ns) && Walk(ns, 0, p) == Some(i)
    ensures Child(ns, i, k).Some? <==> Lookup(ns, p + [k]).Some?
    ensures Child(ns, i, k).Some? ==> Walk(ns, 0, p + [k]) == Child(ns, i, k)
  {
    hide WellFormed;
    WalkSnoc(ns, 0, p, k);
  }

  /** Subtrees at one address over the same Turns have the same hash, however the arrays grew. */
  lemma {:induction false} SameTurnsSameHash(cd: Codec, ns: Nodes, ns': Nodes, p: seq<Component>, i: nat, j: nat)
    requires WellFormed(ns) && WellFormed(ns') && AllTerminal(ns) && AllTerminal(ns') && SameTurns(ns, ns')
    requires Walk(ns, 0, p) == Some(i) && Walk(ns', 0, p) == Some(j)
    requires p == [] ==> !ns[0].end && !ns'[0].end
    ensures FullHash(cd, ns, i) == FullHash(cd, ns', j)
    decreases |ns| - i, 1, 0
  {
    hide WellFormed, SameTurns;
    ChildrenForward(ns, i);
    ChildrenForward(ns', j);
    ChildrenInRange(ns, i);
    ChildrenInRange(ns', j);
    SameHead(ns, ns', p, i, j);
    SameChildKeys(ns, ns', p, i, j);
    SameKids(cd, ns, ns', p, i, j, ns[i].children, ns'[j].children);
  }

  lemma SameHead(ns: Nodes, ns': Nodes, p: seq<Component>, i: nat, j: nat)
    requires WellFormed(ns) && WellFormed(ns') && AllTerminal(ns) && AllTerminal(ns') && SameTurns(ns, ns')
    requires Walk(ns, 0, p) == Some(i) && Walk(ns', 0, p) == Some(j)
    requires p == [] ==> !ns[0].end && !ns'[0].end
    ensures ns[i].end == ns'[j].end && (ns[i].end ==> ns[i].value.turn == ns'[j].value.turn)
  {
    hide WellFormed;
    assert TurnAt(ns, p) == TurnAt(ns', p);
  }

  lemma SameChildKeys(ns: Nodes, ns': Nodes, p: seq<Component>, i: nat, j: nat)
    requires WellFormed(ns) && WellFormed(ns') && AllTerminal(ns) && AllTerminal(ns') && SameTurns(ns, ns')
    requires Walk(ns, 0, p) == Some(i) && Walk(ns', 0, p) == Some(j)
    ensures InRange(ns, ns[i].children) && InRange(ns', ns'[j].children)
    ensures KeysOf(ns, ns[i].children) == KeysOf(ns', ns'[j].children)
  {
    hide WellFormed, AllTerminal;
    ChildrenInRange(ns, i);
    ChildrenInRange(ns', j);
    KidsSorted(ns, i);
    KidsSorted(ns', j);
    var a, b := KeysOf(ns, ns[i].children), KeysOf(ns', ns'[j].children);
    forall k ensures k in a <==> k in b {
      ChildKeys(ns, p, i, k);
      ChildKeys(ns', p, j, k);
      assert TurnAt(ns, p + [k]) == TurnAt(ns', p + [k]);
      KeyListed(ns, i, k);
      KeyListed(ns', j, k);
    }
    SortedKeysUnique(a, b);
  }

  lemma KeyListed(ns: Nodes, i: nat, k: Component)
    requires WellFormed(ns) && i < |ns| && InRange(ns, ns[i].children)
    ensures k in KeysOf(ns, ns[i].children) <==> Child(ns, i, k).Some?
  {
    var cs := ns[i].children;
    var ks := KeysOf(ns, cs);
    if k in ks {
      var a :| 0 <= a < |ks| && ks[a] == k;
      assert cs[a] in cs;
    }
    if Child(ns, i, k).Some? {
      var c := Child(ns, i, k).value;
      var a :| 0 <= a < |cs| && cs[a] == c;
      assert ks[a] == k;
    }
  }

  lemma {:induction false} SortedKeysUnique(a: seq<Component>, b: seq<Component>)
    requires SortedKeys(a) && SortedKeys(b) && forall k :: k in a <==> k in b
    ensures a == b
  {
    assert |a| > 0 ==> a[0] in b;
    assert |b| > 0 ==> b[0] in a;
    if a != [] {
      assert a[0] == b[0];
      forall k ensures k in a[1..] <==> k in b[1..] {
        TailKeys(a, k);
        TailKeys(b, k);
      }
      SortedKeysUnique(a[1..], b[1..]);
      assert a == [a[0]] + a[1..] && b == [b[0]] + b[1..];
    }
  }

  lemma TailKeys(a: seq<Component>, k: Component)
    requires SortedKeys(a) && a != []
    ensures k in a[1..] <==> k in a && k != a[0]
  {
    if k in a[1..] {
      var x :| 0 <= x < |a| - 1 && a[1..][x] == k;
      assert a[x + 1] == k;
    }
    assert a == [a[0]] + a[1..];
  }

  lemma {:induction false} SameKids(cd: Codec, ns: Nodes, ns': Nodes, p: seq<Component>, i: nat, j: nat,
                                    cs: seq<nat>, ds: seq<nat>)
    requires WellFormed(ns) && WellFormed(ns') && AllTerminal(ns) && AllTerminal(ns') && SameTurns(ns, ns')
    requires Walk(ns, 0, p) == Some(i) && Walk(ns', 0, p) == Some(j)
    requires InRange(ns, cs) && InRange(ns', ds) && KeysOf(ns, cs) == KeysOf(ns', ds)
    requires forall a :: 0 <= a < |cs| ==> i < cs[a] < |ns| && cs[a] in ns[i].children
    requires forall a :: 0 <= a < |ds| ==> j < ds[a] < |ns'| && ds[a] in ns'[j].children
    ensures FullKids(cd, ns, i, cs) == FullKids(cd, ns', j, ds)
    decreases |ns| - i, 0, |cs|
  {
    hide WellFormed, SameTurns, AllTerminal;
    assert |KeysOf(ns, cs)| == |cs| == |ds|;
    if cs != [] {
      var k := ns[cs[0]].key;
      assert KeysOf(ns, cs)[0] == k && KeysOf(ns', ds)[0] == ns'[ds[0]].key;
      ChildIsUnique(ns, i, cs[0]);
      ChildIsUnique(ns', j, ds[0]);
      ChildKeys(ns, p, i, k);
      ChildKeys(ns', p, j, k);
      SameTurnsSameHash(cd, ns, ns', p + [k], cs[0], ds[0]);
      assert KeysOf(ns, cs[1..]) == KeysOf(ns, cs)[1..] && KeysOf(ns', ds[1..]) == KeysOf(ns', ds)[1..];
      SameKids(cd, ns, ns', p, i, j, cs[1..], ds[1..]);
    }
  }
}
