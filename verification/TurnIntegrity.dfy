/**
 What a Turn-trie root hash pins down: over one set of addresses, the Turns themselves
 (canvas/turn/turn_tree.cpp:241-265).
 */
module TurnIntegrity {
  import opened Basics
  import opened Integers
  import opened Address
  import opened Hashing
  import opened Trie
  import opened TurnHash
  import opened TurnTrie
  import opened TurnTree

  /** The bytes whose digest is a node's from-scratch hash. */
  function NodeBytes(cd: Codec, ns: Nodes, i: nat): Bytes
    requires WellFormed(ns) && i < |ns|
  {
    ChildrenForward(ns, i);
    HeadBytes(cd, ns[i]) + FullKids(cd, ns, i, ns[i].children)
  }

  lemma FullHashOfBytes(cd: Codec, ns: Nodes, i: nat)
    requires WellFormed(ns) && i < |ns|
    ensures FullHash(cd, ns, i) == cd.sha(NodeBytes(cd, ns, i))
  {
  }

  /** The digest is collision-free on everything this trie hashes. */
  ghost predicate HashedHere(d: Digest, cd: Codec, ns: Nodes)
    requires WellFormed(ns)
  {
    d.sha == cd.sha && forall i :: 0 <= i < |ns| ==> NodeBytes(cd, ns, i) in d.hashed
  }

  /** Different Turns have different serializations. */
  ghost predicate Injective(cd: Codec) {
    forall s, t :: cd.serialize(s) == cd.serialize(t) ==> s == t
  }

  // --------------------------------------------------------------- child bytes

  lemma {:induction false} KidsLength(cd: Codec, ns: Nodes, i: nat, cs: seq<nat>)
    requires WellFormed(ns) && i < |ns| && forall a :: 0 <= a < |cs| ==> i < cs[a] < |ns|
    ensures |FullKids(cd, ns, i, cs)| == 41 * |cs|
    decreases |cs|
  {
    hide WellFormed;
    if cs != [] {
      KidsLength(cd, ns, i, cs[1..]);
    }
  }

  /** Equal child bytes list equal edges with equal hashes. */
  lemma {:induction false} KidsApart(cd: Codec, ns: Nodes, i: nat, cs: seq<nat>, ns': Nodes, j: nat, ds: seq<nat>, a: nat)
    requires WellFormed(ns) && i < |ns| && forall a :: 0 <= a < |cs| ==> i < cs[a] < |ns|
    requires WellFormed(ns') && j < |ns'| && forall a :: 0 <= a < |ds| ==> j < ds[a] < |ns'|
    requires FullKids(cd, ns, i, cs) == FullKids(cd, ns', j, ds) && a < |cs|
    ensures |cs| == |ds| && EdgeBytes(ns[cs[a]].key) == EdgeBytes(ns'[ds[a]].key)
    ensures FullHash(cd, ns, cs[a]) == FullHash(cd, ns', ds[a])
    decreases |cs|
  {
    hide WellFormed, EdgeBytes, FullHash;
    KidsLength(cd, ns, i, cs);
    KidsLength(cd, ns', j, ds);
    EdgeLength(ns[cs[0]].key);
    EdgeLength(ns'[ds[0]].key);
    var e, f := EdgeBytes(ns[cs[0]].key), EdgeBytes(ns'[ds[0]].key);
    var g, h := FullHash(cd, ns, cs[0]), FullHash(cd, ns', ds[0]);
    var s, t := FullKids(cd, ns, i, cs[1..]), FullKids(cd, ns', j, ds[1..]);
    ThreeParts(e, g, s, f, h, t);
    if a > 0 {
      KidsApart(cd, ns, i, cs[1..], ns', j, ds[1..], a - 1);
    }
  }

  lemma EdgeLength(k: Component)
    ensures |EdgeBytes(k)| == 9
  {
  }

  lemma ThreeParts(e: Bytes, g: Bytes, s: Bytes, f: Bytes, h: Bytes, t: Bytes)
    requires |e| == |f| && |g| == |h| && e + g + s == f + h + t
    ensures e == f && g == h && s == t
  {
    var x, y := e + g + s, f + h + t;
    assert e == x[..|e|] && f == y[..|f|];
    assert g == x[|e|..|e| + |g|] && h == y[|f|..|f| + |h|];
    assert s == x[|e| + |g|..] && t == y[|f| + |h|..];
  }

  lemma EdgeInjective(k: Component, l: Component)
    requires k.ordinal <= U64_MAX && l.ordinal <= U64_MAX && EdgeBytes(k) == EdgeBytes(l)
    ensures k == l
  {
    hide ToBytes, BigEndian;
    Limits();
    ToBytesValue(k.ordinal, 8);
    ToBytesValue(l.ordinal, 8);
    assert EdgeBytes(k)[0] == EdgeBytes(l)[0];
    assert EdgeBytes(k)[1..] == ToBytes(k.ordinal, 8) && EdgeBytes(l)[1..] == ToBytes(l.ordinal, 8);
  }

  /** Nodes with equal heads and different child keys have different hashes. */
  lemma ChildKeysPinned(d: Digest, cd: Codec, ns: Nodes, i: nat, ns': Nodes, j: nat)
    requires CollisionFree(d) && WellFormed(ns) && i < |ns| && WellFormed(ns') && j < |ns'|
    requires HashedHere(d, cd, ns) && HashedHere(d, cd, ns') && HeadBytes(cd, ns[i]) == HeadBytes(cd, ns'[j])
    requires InRange(ns, ns[i].children) && InRange(ns', ns'[j].children)
    requires forall n :: 0 <= n < |ns| ==> ns[n].key.ordinal <= U64_MAX
    requires forall n :: 0 <= n < |ns'| ==> ns'[n].key.ordinal <= U64_MAX
    ensures FullHash(cd, ns, i) == FullHash(cd, ns', j) ==> KeysOf(ns, ns[i].children) == KeysOf(ns', ns'[j].children)
  {
    hide WellFormed, HeadBytes, EdgeBytes, FullHash, FullKids;
    if FullHash(cd, ns, i) == FullHash(cd, ns', j) {
      SameBytes(d, cd, ns, i, ns', j);
      ChildrenForward(ns, i);
      ChildrenForward(ns', j);
      var cs, ds := ns[i].children, ns'[j].children;
      var head := HeadBytes(cd, ns[i]);
      assert FullKids(cd, ns, i, cs) == NodeBytes(cd, ns, i)[|head|..];
      assert FullKids(cd, ns', j, ds) == NodeBytes(cd, ns', j)[|head|..];
      KidsLength(cd, ns, i, cs);
      KidsLength(cd, ns', j, ds);
      forall a | 0 <= a < |cs| ensures ns[cs[a]].key == ns'[ds[a]].key {
        KidsApart(cd, ns, i, cs, ns', j, ds, a);
        EdgeInjective(ns[cs[a]].key, ns'[ds[a]].key);
      }
      assert KeysOf(ns, cs) == KeysOf(ns', ds);
    }
  }

  lemma SameBytes(d: Digest, cd: Codec, ns: Nodes, i: nat, ns': Nodes, j: nat)
    requires CollisionFree(d) && WellFormed(ns) && i < |ns| && WellFormed(ns') && j < |ns'|
    requires HashedHere(d, cd, ns) && HashedHere(d, cd, ns') && FullHash(cd, ns, i) == FullHash(cd, ns', j)
    ensures NodeBytes(cd, ns, i) == NodeBytes(cd, ns', j)
  {
    hide WellFormed, NodeBytes, FullHash;
    FullHashOfBytes(cd, ns, i);
    FullHashOfBytes(cd, ns', j);
  }

  /** Where the parts of the hashed bytes lie: format name, Turn flag and payload, then 41 bytes for each child in order. */
  lemma NodeLayout(cd: Codec, ns: Nodes, i: nat, a: nat)
    requires WellFormed(ns) && i < |ns| && InRange(ns, ns[i].children)
    ensures var b := NodeBytes(cd, ns, i);
            var k := 17 + (if ns[i].end then |cd.serialize(ns[i].value.turn)| else 0);
            && |b| == k + 41 * |ns[i].children|
            && (forall x :: 0 <= x < 16 ==> b[x] == "PUC-TURN-TRIE-V1"[x] as int)
            && b[16] == (if ns[i].end then 1 else 0)
            && (ns[i].end ==> b[17..k] == cd.serialize(ns[i].value.turn))
            && (a < |ns[i].children| ==>
                  var c, at := ns[i].children[a], k + 41 * a;
                  && b[at] == (if ns[c].key.kind.Numeric? then 0 else 1)
                  && b[at + 1..at + 9] == ToBytes(ns[c].key.ordinal, 8) && b[at + 9..at + 41] == FullHash(cd, ns, c))
  {
    hide WellFormed, FullHash, ToBytes, FullKids;
    ChildrenForward(ns, i);
    var h, s := HeadBytes(cd, ns[i]), FullKids(cd, ns, i, ns[i].children);
    var b := NodeBytes(cd, ns, i);
    assert b == h + s;
    KidsLength(cd, ns, i, ns[i].children);
    assert forall x :: 0 <= x < 16 ==> b[x] == TRIE_PREFIX[x];
    if ns[i].end {
      assert b[17..|h|] == h[17..] == cd.serialize(ns[i].value.turn);
    }
    if a < |ns[i].children| {
      KidAt(cd, ns, i, ns[i].children, a);
      var k, x := |h|, 41 * a;
      assert b[k + x] == s[x] && b[k + x + 1..k + x + 9] == s[x + 1..x + 9] && b[k + x + 9..k + x + 41] == s[x + 9..x + 41];
    }
  }

  lemma {:induction false} KidAt(cd: Codec, ns: Nodes, i: nat, cs: seq<nat>, a: nat)
    requires WellFormed(ns) && i < |ns| && (forall x :: 0 <= x < |cs| ==> i < cs[x] < |ns|) && a < |cs|
    ensures var s, at := FullKids(cd, ns, i, cs), 41 * a;
            && |s| == 41 * |cs| && s[at] == (if ns[cs[a]].key.kind.Numeric? then 0 else 1)
            && s[at + 1..at + 9] == ToBytes(ns[cs[a]].key.ordinal, 8) && s[at + 9..at + 41] == FullHash(cd, ns, cs[a])
    decreases |cs|
  {
    hide WellFormed, FullHash, ToBytes;
    KidsLength(cd, ns, i, cs);
    var s, rest := FullKids(cd, ns, i, cs), FullKids(cd, ns, i, cs[1..]);
    var e, g := EdgeBytes(ns[cs[0]].key), FullHash(cd, ns, cs[0]);
    EdgeLength(ns[cs[0]].key);
    assert s == e + g + rest;
    if a == 0 {
      assert s[1..9] == e[1..] == ToBytes(ns[cs[0]].key.ordinal, 8) && s[9..41] == g;
    } else {
      KidAt(cd, ns, i, cs[1..], a - 1);
      var x := 41 * (a - 1);
      assert s[41..] == rest;
      assert s[x + 41 + 1..x + 41 + 9] == rest[x + 1..x + 9] && s[x + 41 + 9..x + 41 + 41] == rest[x + 9..x + 41];
    }
  }

  // ----------------------------------------------------------- Turns are pinned

  /** Both tries have a node at exactly the same key sequences. */
  ghost predicate SamePaths(ns: Nodes, ns': Nodes)
    requires WellFormed(ns) && WellFormed(ns')
  {
    forall p :: Walk(ns, 0, p).Some? <==> Walk(ns', 0, p).Some?
  }

  /** At one place of two tries with the same paths the children carry the same keys. */
  lemma SameKeysHere(ns: Nodes, ns': Nodes, p: seq<Component>, i: nat, j: nat)
    requires WellFormed(ns) && WellFormed(ns') && SamePaths(ns, ns')
    requires Walk(ns, 0, p) == Some(i) && Walk(ns', 0, p) == Some(j)
    ensures InRange(ns, ns[i].children) && InRange(ns', ns'[j].children)
    ensures KeysOf(ns, ns[i].children) == KeysOf(ns', ns'[j].children)
  {
    hide WellFormed, SamePaths;
    ChildrenInRange(ns, i);
    ChildrenInRange(ns', j);
    KidsSorted(ns, i);
    KidsSorted(ns', j);
    NonEmpty(ns);
    NonEmpty(ns');
    var a, b := KeysOf(ns, ns[i].children), KeysOf(ns', ns'[j].children);
    forall k ensures k in a <==> k in b {
      WalkSnoc(ns, 0, p, k);
      WalkSnoc(ns', 0, p, k);
      PathIff(ns, ns', p + [k]);
      KeyListed(ns, i, k);
      KeyListed(ns', j, k);
    }
    SortedKeysUnique(a, b);
  }

  lemma PathIff(ns: Nodes, ns': Nodes, p: seq<Component>)
    requires WellFormed(ns) && WellFormed(ns') && SamePaths(ns, ns')
    ensures Walk(ns, 0, p).Some? <==> Walk(ns', 0, p).Some?
  {
  }

  /** Equal hashes at one place: the heads agree, and so do the hashes of the children. */
  lemma EqualHere(d: Digest, cd: Codec, ns: Nodes, ns': Nodes, p: seq<Component>, i: nat, j: nat)
    requires CollisionFree(d) && WellFormed(ns) && WellFormed(ns') && SamePaths(ns, ns')
    requires HashedHere(d, cd, ns) && HashedHere(d, cd, ns')
    requires Walk(ns, 0, p) == Some(i) && Walk(ns', 0, p) == Some(j) && FullHash(cd, ns, i) == FullHash(cd, ns', j)
    ensures HeadBytes(cd, ns[i]) == HeadBytes(cd, ns'[j])
    ensures |ns[i].children| == |ns'[j].children|
    ensures forall a :: 0 <= a < |ns[i].children| ==>
              && ns[i].children[a] < |ns| && ns'[j].children[a] < |ns'|
              && ns[ns[i].children[a]].key == ns'[ns'[j].children[a]].key
              && FullHash(cd, ns, ns[i].children[a]) == FullHash(cd, ns', ns'[j].children[a])
  {
    hide WellFormed, SamePaths, HeadBytes, EdgeBytes, FullHash, FullKids, HashedHere, CollisionFree;
    SameBytes(d, cd, ns, i, ns', j);
    SameKeysHere(ns, ns', p, i, j);
    ChildrenForward(ns, i);
    ChildrenForward(ns', j);
    var cs, ds := ns[i].children, ns'[j].children;
    var ks, ls := KeysOf(ns, cs), KeysOf(ns', ds);
    assert |cs| == |ks| == |ls| == |ds|;
    KidsLength(cd, ns, i, cs);
    KidsLength(cd, ns', j, ds);
    var h, g := HeadBytes(cd, ns[i]), HeadBytes(cd, ns'[j]);
    var s, t := FullKids(cd, ns, i, cs), FullKids(cd, ns', j, ds);
    SplitAtEnd(h, s, g, t);
    forall a | 0 <= a < |cs| ensures ns[cs[a]].key == ns'[ds[a]].key && FullHash(cd, ns, cs[a]) == FullHash(cd, ns', ds[a]) {
      assert ks[a] == ls[a];
      KidsApart(cd, ns, i, cs, ns', j, ds, a);
    }
  }

  lemma SplitAtEnd(h: Bytes, s: Bytes, g: Bytes, t: Bytes)
    requires h + s == g + t && |s| == |t|
    ensures h == g && s == t
  {
    var x, y := h + s, g + t;
    assert h == x[..|h|] && g == y[..|g|] && s == x[|h|..] && t == y[|g|..];
  }

  /** Equal root hashes are equal hashes at every place. */
  lemma {:induction false} EqualEverywhere(d: Digest, cd: Codec, ns: Nodes, ns': Nodes, p: seq<Component>)
    requires CollisionFree(d) && WellFormed(ns) && WellFormed(ns') && SamePaths(ns, ns')
    requires HashedHere(d, cd, ns) && HashedHere(d, cd, ns')
    requires |ns| > 0 && |ns'| > 0 && FullHash(cd, ns, 0) == FullHash(cd, ns', 0)
    requires Walk(ns, 0, p).Some? && Walk(ns', 0, p).Some?
    ensures FullHash(cd, ns, Walk(ns, 0, p).value) == FullHash(cd, ns', Walk(ns', 0, p).value)
    decreases |p|
  {
    hide WellFormed, SamePaths, HashedHere, FullHash, CollisionFree, HeadBytes;
    if p != [] {
      var q, k := p[..|p| - 1], p[|p| - 1];
      EqualEverywhere(d, cd, ns, ns', q);
      var i, j := Walk(ns, 0, q).value, Walk(ns', 0, q).value;
      EqualHere(d, cd, ns, ns', q, i, j);
      var c, e := Walk(ns, 0, p).value, Walk(ns', 0, p).value;
      var a :| 0 <= a < |ns[i].children| && ns[i].children[a] == c;
      var f := ns'[j].children[a];
      assert ns'[f].key == k;
      ChildIsUnique(ns', j, f);
    }
  }

  /** Heads pin the Turn. */
  lemma HeadPinsTurn(cd: Codec, m: Node<TurnNode>, n: Node<TurnNode>)
    requires Injective(cd) && HeadBytes(cd, m) == HeadBytes(cd, n)
    ensures m.end == n.end && (m.end ==> m.value.turn == n.value.turn)
  {
    var x, y := HeadBytes(cd, m), HeadBytes(cd, n);
    assert x[16] == (if m.end then 1 else 0) && y[16] == (if n.end then 1 else 0);
    if m.end {
      assert x[17..] == cd.serialize(m.value.turn) && y[17..] == cd.serialize(n.value.turn);
    }
  }

  /**
   The root hash pins the Turns: two valid trees that hold Turns at the same addresses and have the
   same root hash hold the same Turns, body and all.
   */
  lemma RootPinsTurns(d: Digest, cd: Codec, turns: set<Turn>, ns: Nodes, hashes: seq<Hash>, root: Hash,
                      turns': set<Turn>, ns': Nodes, hashes': seq<Hash>, root': Hash)
    requires CollisionFree(d) && Injective(cd)
    requires TrieInv(ns, turns) && HashInv(cd, ns, hashes, root) && HashedHere(d, cd, ns)
    requires TrieInv(ns', turns') && HashInv(cd, ns', hashes', root') && HashedHere(d, cd, ns')
    requires Addresses(turns) == Addresses(turns') && root == root'
    ensures turns == turns'
  {
    hide WellFormed, HashedHere, CollisionFree, Injective, Holds, AllReached, AllTerminal, AllCorrect, FullHash, Addresses;
    if turns == {} || turns' == {} {
      NoAddresses(ns, turns);
      NoAddresses(ns', turns');
    } else {
      EmptyIffAlone(ns, turns);
      EmptyIffAlone(ns', turns');
      NonEmpty(ns);
      NonEmpty(ns');
      AddressesArePaths(ns, turns, ns', turns');
      RootIsHash(cd, ns, hashes, root);
      RootIsHash(cd, ns', hashes', root');
      TurnsCarryOver(d, cd, ns, turns, ns', turns');
      PathsSymmetric(ns, ns');
      TurnsCarryOver(d, cd, ns', turns', ns, turns);
    }
  }

  lemma RootIsHash(cd: Codec, ns: Nodes, hashes: seq<Hash>, root: Hash)
    requires WellFormed(ns) && HashInv(cd, ns, hashes, root) && |ns| > 1
    ensures root == FullHash(cd, ns, 0)
  {
    hide WellFormed;
    assert Correct(cd, ns, hashes, 0);
  }

  lemma PathsSymmetric(ns: Nodes, ns': Nodes)
    requires WellFormed(ns) && WellFormed(ns') && SamePaths(ns, ns')
    ensures SamePaths(ns', ns)
  {
  }

  lemma NoAddresses(ns: Nodes, turns: set<Turn>)
    requires WellFormed(ns) && Holds(ns, turns)
    ensures Addresses(turns) == {} <==> turns == {}
  {
    hide CheckTurn;
    if t :| t in turns {
      assert AddressOf(t) in Addresses(turns);
    }
  }

  /** In a trie of Turns the paths are the addresses, and the root. */
  lemma PathIsAddress(ns: Nodes, turns: set<Turn>, p: seq<Component>)
    requires TrieInv(ns, turns)
    ensures Walk(ns, 0, p).Some? <==> p == [] || p in Addresses(turns)
  {
    hide WellFormed, CheckTurn;
    NonEmpty(ns);
    var there := TurnAt(ns, p);
    if p != [] && Walk(ns, 0, p).Some? {
      assert AtItsAddress(there.value, p, turns);
    }
    if p in Addresses(turns) {
      var t :| t in turns && ValidTurn(t) && AddressOf(t) == p;
    }
  }

  lemma AddressesArePaths(ns: Nodes, turns: set<Turn>, ns': Nodes, turns': set<Turn>)
    requires TrieInv(ns, turns) && TrieInv(ns', turns') && Addresses(turns) == Addresses(turns')
    ensures SamePaths(ns, ns')
  {
    hide WellFormed, Holds, AllReached, AllTerminal, Addresses, Walk;
    NonEmpty(ns);
    NonEmpty(ns');
    forall p ensures Walk(ns, 0, p).Some? <==> Walk(ns', 0, p).Some? {
      PathIsAddress(ns, turns, p);
      PathIsAddress(ns', turns', p);
    }
  }

  lemma TurnsCarryOver(d: Digest, cd: Codec, ns: Nodes, turns: set<Turn>, ns': Nodes, turns': set<Turn>)
    requires CollisionFree(d) && Injective(cd) && TrieInv(ns, turns) && TrieInv(ns', turns') && SamePaths(ns, ns')
    requires HashedHere(d, cd, ns) && HashedHere(d, cd, ns')
    requires |ns| > 0 && |ns'| > 0 && FullHash(cd, ns, 0) == FullHash(cd, ns', 0)
    ensures turns <= turns'
  {
    hide WellFormed, HashedHere, CollisionFree, Injective, SamePaths, FullHash, HeadBytes, CheckTurn;
    forall t | t in turns ensures t in turns' {
      var p := AddressOf(t);
      assert TurnAt(ns, p) == Some(Some(t));
      PathIff(ns, ns', p);
      EqualEverywhere(d, cd, ns, ns', p);
      var i, j := Walk(ns, 0, p).value, Walk(ns', 0, p).value;
      EqualHere(d, cd, ns, ns', p, i, j);
      HeadPinsTurn(cd, ns[i], ns'[j]);
      assert TurnAt(ns', p) == Some(Some(t));
      assert AtItsAddress(TurnAt(ns', p).value, p, turns');
    }
  }
}
