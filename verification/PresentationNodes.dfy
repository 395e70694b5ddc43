/**
 Presentation nodes, their canonical encoding, and what a root hash denotes in a node table
 (canvas/presentation/presentation_tree.cpp, canvas/protos/datastore/presentation_datastore.cpp).
 */
module PresentationNodes {
  import opened Basics
  import opened Integers
  import opened Hashing
  import opened Tables
  import opened Treap
  import Address

  datatype TurnId = TurnId(canvas: Bytes, text: Bytes)

  datatype StoredNode = StoredNode(turn: TurnId, left: Hash, right: Hash)

  type Entry = (Hash, StoredNode)

  // --------------------------------------------------------------- the orders

  /** Parsed address of a text; the empty address stands for unparseable text. */
  function AddressOf(text: Bytes): Address.TurnAddress {
    match Address.Parse(text)
    case None => []
    case Some(a) => a
  }

  /** First eight digest bytes of the Turn identity. */
  function Priority(sha: Bytes -> Hash, id: TurnId): nat {
    BigEndian(sha(id.canvas + [0] + id.text)[..8])
  }

  predicate ByteLess(a: byte, b: byte) { a < b }

  /** Rank of two Turns: lower priority wins, text breaks ties. */
  predicate Above(sha: Bytes -> Hash, a: TurnId, b: TurnId) {
    || Priority(sha, a) < Priority(sha, b)
    || (Priority(sha, a) == Priority(sha, b) && LexLess(ByteLess, a.text, b.text))
  }

  predicate Before(a: Bytes, b: Bytes) {
    Address.Less(AddressOf(a), AddressOf(b))
  }

  /** Search and heap order of one canvas, on Turn texts. */
  function PresentationOrder(sha: Bytes -> Hash, canvas: Bytes): Order<Bytes> {
    Order(Before, (a: Bytes, b: Bytes) => Above(sha, TurnId(canvas, a), TurnId(canvas, b)))
  }

  lemma ByteOrder()
    ensures StrictTotal(ByteLess)
  {
  }

  /** `above` is a strict total order on the texts of one canvas, whatever the hash function. */
  lemma AboveStrictTotal(sha: Bytes -> Hash, canvas: Bytes)
    ensures StrictTotal(PresentationOrder(sha, canvas).above)
  {
    ByteOrder();
    var above := PresentationOrder(sha, canvas).above;
    forall a ensures !above(a, a) {
      LexIrreflexive(ByteLess, a);
    }
    forall a, b, c | above(a, b) && above(b, c) ensures above(a, c) {
      if LexLess(ByteLess, a, b) && LexLess(ByteLess, b, c) {
        LexTransitive(ByteLess, a, b, c);
      }
    }
    forall a, b ensures above(a, b) || a == b || above(b, a) {
      LexTotal(ByteLess, a, b);
    }
  }

  /** The digest bytes that rank a Turn: the first eight of its canvas, a NUL byte and its text. */
  function RankBytes(sha: Bytes -> Hash, id: TurnId): Bytes {
    sha(id.canvas + [0] + id.text)[..8]
  }

  /** A Turn outranks another exactly when its rank bytes, or at equal rank bytes its text, compare lower byte by byte. */
  lemma AboveByBytes(sha: Bytes -> Hash, a: TurnId, b: TurnId)
    ensures Above(sha, a, b) <==>
            || LexLess(ByteLess, RankBytes(sha, a), RankBytes(sha, b))
            || (RankBytes(sha, a) == RankBytes(sha, b) && LexLess(ByteLess, a.text, b.text))
  {
    ByteOrder();
    NumbersCompareAsBytes(RankBytes(sha, a), RankBytes(sha, b));
    NumbersCompareAsBytes(RankBytes(sha, b), RankBytes(sha, a));
    LexTotal(ByteLess, RankBytes(sha, a), RankBytes(sha, b));
    if RankBytes(sha, a) == RankBytes(sha, b) {
      LexIrreflexive(ByteLess, RankBytes(sha, a));
    }
  }

  /** Big-endian numbers of one width compare as their bytes do. */
  lemma {:induction false} NumbersCompareAsBytes(x: Bytes, y: Bytes)
    requires |x| == |y|
    ensures LexLess(ByteLess, x, y) ==> BigEndian(x) < BigEndian(y)
    decreases |x|
  {
    hide BigEndian, Limit;
    if LexLess(ByteLess, x, y) {
      FirstByteWeighs(x);
      FirstByteWeighs(y);
      if x[0] == y[0] {
        NumbersCompareAsBytes(x[1..], y[1..]);
      } else {
        ValueToBytes(x[1..]);
        LeadDecides(x[0], y[0], Limit(|x| - 1), BigEndian(x[1..]), BigEndian(y[1..]));
      }
    }
  }

  lemma LeadDecides(p: nat, q: nat, w: nat, u: nat, v: nat)
    requires p < q && u < w
    ensures p * w + u < q * w + v
  {
    var g := q - p;
    AtLeastOnce(g, w);
    assert q * w == (p + g) * w == p * w + g * w;
  }

  lemma {:induction false} AtLeastOnce(g: nat, w: nat)
    requires g > 0
    ensures g * w >= w
  {
    if g > 1 {
      AtLeastOnce(g - 1, w);
      assert g * w == (g - 1) * w + w;
    }
  }

  lemma {:induction false} FirstByteWeighs(x: Bytes)
    requires x != []
    ensures BigEndian(x) == x[0] * Limit(|x| - 1) + BigEndian(x[1..])
    decreases |x|
  {
    if |x| == 1 {
      assert x[..0] == [] && x[1..] == [];
      assert BigEndian(x) == BigEndian(x[..0]) * 256 + x[0];
    } else {
      var init, tail := x[..|x| - 1], x[1..];
      FirstByteWeighs(init);
      assert init[1..] == tail[..|tail| - 1] && tail[|tail| - 1] == x[|x| - 1];
      assert Limit(|x| - 1) == 256 * Limit(|x| - 2);
    }
  }

  lemma OrderLawful(sha: Bytes -> Hash, canvas: Bytes)
    ensures Lawful(PresentationOrder(sha, canvas))
  {
    AboveStrictTotal(sha, canvas);
    Address.AddressOrder();
  }

  /** Two texts share a search position exactly when they denote the same address. */
  lemma SameMeansSameAddress(sha: Bytes -> Hash, canvas: Bytes, a: Bytes, b: Bytes)
    ensures Same(PresentationOrder(sha, canvas), a, b) <==> AddressOf(a) == AddressOf(b)
  {
    Address.AddressOrder();
  }

  // --------------------------------------------------------- canonical encoding

  const NODE_PREFIX: Bytes := [80, 85, 67, 45, 80, 82, 69, 83, 69, 78, 84, 65, 84, 73, 79, 78, 45, 78, 79, 68, 69, 45, 86, 49]

  function HashField(h: Hash): Bytes {
    if h == ZERO_HASH then [0] else [1] + h
  }

  function CanonicalBytes(n: StoredNode): Bytes {
    NODE_PREFIX + (n.turn.canvas + ([0] + (n.turn.text + [0] + (HashField(n.left) + HashField(n.right)))))
  }

  predicate WellFormed(n: StoredNode) {
    |n.turn.canvas| == 16 && Address.Parse(n.turn.text).Some?
  }

  lemma SameLengthPrefixFree(a: Bytes, s: Bytes, b: Bytes, t: Bytes)
    requires |a| == |b| && a + s == b + t
    ensures a == b && s == t
  {
    assert a == (a + s)[..|a|] && b == (b + t)[..|a|];
    assert s == (a + s)[|a|..] && t == (b + t)[|a|..];
  }

  lemma HashFieldPrefixFree(a: Hash, s: Bytes, b: Hash, t: Bytes)
    requires HashField(a) + s == HashField(b) + t
    ensures a == b && s == t
  {
    assert (HashField(a) + s)[0] == (HashField(b) + t)[0];
    SameLengthPrefixFree(HashField(a), s, HashField(b), t);
    if a != ZERO_HASH {
      SameLengthPrefixFree([1], a, [1], b);
    }
  }

  lemma NulTerminatedPrefixFree(a: Bytes, s: Bytes, b: Bytes, t: Bytes)
    requires 0 !in a && 0 !in b
    requires a + [0] + s == b + [0] + t
    ensures a == b && s == t
  {
    var x := a + [0] + s;
    assert x[|a|] == 0 && x[|b|] == 0;
    assert x[..|a|] == a && x[..|b|] == b;
    assert |a| == |b|;
    assert s == x[|a| + 1..] && t == x[|a| + 1..];
  }

  /** Different well-formed nodes have different canonical bytes. */
  lemma CanonicalBytesInjective(m: StoredNode, n: StoredNode)
    requires WellFormed(m) && WellFormed(n)
    requires CanonicalBytes(m) == CanonicalBytes(n)
    ensures m == n
  {
    var f, g := HashField(m.left) + HashField(m.right), HashField(n.left) + HashField(n.right);
    var s, t := m.turn.text + [0] + f, n.turn.text + [0] + g;
    SameLengthPrefixFree(NODE_PREFIX, m.turn.canvas + ([0] + s), NODE_PREFIX, n.turn.canvas + ([0] + t));
    SameLengthPrefixFree(m.turn.canvas, [0] + s, n.turn.canvas, [0] + t);
    SameLengthPrefixFree([0], s, [0], t);
    Address.ParsedTextHasNoNul(m.turn.text);
    Address.ParsedTextHasNoNul(n.turn.text);
    NulTerminatedPrefixFree(m.turn.text, f, n.turn.text, g);
    HashFieldPrefixFree(m.left, HashField(m.right), n.left, HashField(n.right));
    assert HashField(m.right) + [] == HashField(n.right) + [];
    HashFieldPrefixFree(m.right, [], n.right, []);
  }

  /** Where the parts of the hashed bytes lie: format name, canvas, NUL, text, NUL, and both child fields. */
  lemma CanonicalLayout(n: StoredNode)
    requires WellFormed(n)
    ensures var b := CanonicalBytes(n);
            var t := 41 + |n.turn.text|;
            && t + 1 <= |b|
            && (forall i :: 0 <= i < 24 ==> b[i] == "PUC-PRESENTATION-NODE-V1"[i] as int)
            && b[24..40] == n.turn.canvas && b[40] == 0 && b[41..t] == n.turn.text && b[t] == 0
            && b[t + 1..] == (if n.left == ZERO_HASH then [0] else [1] + n.left) + (if n.right == ZERO_HASH then [0] else [1] + n.right)
  {
    hide ZERO_HASH, NODE_PREFIX, HashField, Address.Parse;
    PrefixIsName();
    var b, t := CanonicalBytes(n), 41 + |n.turn.text|;
    var tail := HashField(n.left) + HashField(n.right);
    PartsLie(NODE_PREFIX, n.turn.canvas, n.turn.text, tail, b);
    FieldLayout(n.left);
    FieldLayout(n.right);
  }

  lemma PrefixIsName()
    ensures |NODE_PREFIX| == 24 && forall i :: 0 <= i < 24 ==> NODE_PREFIX[i] == "PUC-PRESENTATION-NODE-V1"[i] as int
  {
  }

  lemma FieldLayout(h: Hash)
    ensures HashField(h) == if h == ZERO_HASH then [0] else [1] + h
  {
    hide ZERO_HASH;
  }

  lemma PartsLie(prefix: Bytes, canvas: Bytes, text: Bytes, tail: Bytes, b: Bytes)
    requires |prefix| == 24 && |canvas| == 16 && b == prefix + (canvas + ([0] + (text + [0] + tail)))
    ensures |b| == 42 + |text| + |tail| && forall i :: 0 <= i < 24 ==> b[i] == prefix[i]
    ensures b[24..40] == canvas && b[40] == 0 && b[41..41 + |text|] == text && b[41 + |text|] == 0 && b[42 + |text|..] == tail
  {
  }

  // ------------------------------------------------------------ node tables

  function NodeHash(sha: Bytes -> Hash, n: StoredNode): Hash {
    sha(CanonicalBytes(n))
  }

  /** `h` names `n`, and `n` was hashed in this history. */
  ghost predicate Genuine(d: Digest, h: Hash, n: StoredNode) {
    WellFormed(n) && CanonicalBytes(n) in d.hashed && h == NodeHash(d.sha, n)
  }

  ghost predicate Consistent(d: Digest, nodes: map<Hash, StoredNode>) {
    forall h :: h in nodes ==> Genuine(d, h, nodes[h])
  }

  ghost predicate GenuineEntries(d: Digest, entries: seq<Entry>) {
    forall i :: 0 <= i < |entries| ==> Genuine(d, entries[i].0, entries[i].1)
  }

  lemma GenuineUnique(d: Digest, h: Hash, m: StoredNode, n: StoredNode)
    requires CollisionFree(d) && Genuine(d, h, m) && Genuine(d, h, n)
    ensures m == n && h != ZERO_HASH
  {
    CanonicalBytesInjective(m, n);
  }

  lemma ZeroNotStored(d: Digest, nodes: map<Hash, StoredNode>)
    requires CollisionFree(d) && Consistent(d, nodes)
    ensures ZERO_HASH !in nodes
  {
    if ZERO_HASH in nodes {
      GenuineUnique(d, ZERO_HASH, nodes[ZERO_HASH], nodes[ZERO_HASH]);
    }
  }

  lemma GenuineAgree(d: Digest, nodes: map<Hash, StoredNode>, entries: seq<Entry>)
    requires CollisionFree(d) && Consistent(d, nodes) && GenuineEntries(d, entries)
    ensures Agree(nodes, entries)
  {
    forall i | 0 <= i < |entries| && entries[i].0 in nodes ensures nodes[entries[i].0] == entries[i].1 {
      GenuineUnique(d, entries[i].0, nodes[entries[i].0], entries[i].1);
    }
    forall i, j | 0 <= i < |entries| && 0 <= j < |entries| && entries[i].0 == entries[j].0
      ensures entries[i].1 == entries[j].1
    {
      GenuineUnique(d, entries[i].0, entries[i].1, entries[j].1);
    }
  }

  /** Ignoring a duplicate key never loses a node: the row already there is the same node. */
  lemma NodesMerge(d: Digest, nodes: map<Hash, StoredNode>, entries: seq<Entry>)
    requires CollisionFree(d) && Consistent(d, nodes) && GenuineEntries(d, entries)
    ensures Consistent(d, Merge(nodes, entries))
    ensures Extends(nodes, Merge(nodes, entries))
    ensures forall e :: e in entries ==> Contains(Merge(nodes, entries), e)
  {
    GenuineAgree(d, nodes, entries);
    MergeKeepsAll(nodes, entries);
    forall h | h in Merge(nodes, entries) ensures Genuine(d, h, Merge(nodes, entries)[h]) {
      MergeOrigin(nodes, entries, h);
    }
  }

  // --------------------------------------------------------------- denotation

  /** Root hash of a tree of one canvas. */
  function MerkleHash(sha: Bytes -> Hash, canvas: Bytes, t: Tree<Bytes>): Hash
    decreases t, 1
  {
    match t
    case Leaf => ZERO_HASH
    case Node(_, _, _) => NodeHash(sha, NodeOf(sha, canvas, t))
  }

  function NodeOf(sha: Bytes -> Hash, canvas: Bytes, t: Tree<Bytes>): StoredNode
    requires t.Node?
    decreases t, 0
  {
    StoredNode(TurnId(canvas, t.key), MerkleHash(sha, canvas, t.left), MerkleHash(sha, canvas, t.right))
  }

  /** Every node of the tree is named genuinely. */
  ghost predicate Covered(d: Digest, canvas: Bytes, t: Tree<Bytes>) {
    t.Node? ==>
      && Genuine(d, MerkleHash(d.sha, canvas, t), NodeOf(d.sha, canvas, t))
      && Covered(d, canvas, t.left) && Covered(d, canvas, t.right)
  }

  /** Every node of the tree is in the table under its own hash. */
  ghost predicate Stored(d: Digest, canvas: Bytes, nodes: map<Hash, StoredNode>, t: Tree<Bytes>) {
    t.Node? ==>
      var h := MerkleHash(d.sha, canvas, t);
      && h != ZERO_HASH && h in nodes && nodes[h] == NodeOf(d.sha, canvas, t)
      && Stored(d, canvas, nodes, t.left) && Stored(d, canvas, nodes, t.right)
  }

  /** In this table, this hash stands for this tree. */
  ghost predicate Denotes(d: Digest, canvas: Bytes, nodes: map<Hash, StoredNode>, h: Hash, t: Tree<Bytes>) {
    h == MerkleHash(d.sha, canvas, t) && Stored(d, canvas, nodes, t)
  }

  /** A growing table keeps what every older root denotes. */
  lemma {:induction false} StoredStable(d: Digest, canvas: Bytes, small: map<Hash, StoredNode>,
                                        big: map<Hash, StoredNode>, t: Tree<Bytes>)
    requires Extends(small, big) && Stored(d, canvas, small, t)
    ensures Stored(d, canvas, big, t)
  {
    if t.Node? {
      StoredStable(d, canvas, small, big, t.left);
      StoredStable(d, canvas, small, big, t.right);
    }
  }

  /** A root denotes at most one tree. */
  lemma {:induction false} DenotationUnique(d: Digest, canvas: Bytes, nodes: map<Hash, StoredNode>, h: Hash,
                                            s: Tree<Bytes>, t: Tree<Bytes>)
    requires Denotes(d, canvas, nodes, h, s) && Denotes(d, canvas, nodes, h, t)
    ensures s == t
    decreases s
  {
    if s.Node? {
      assert nodes[h] == NodeOf(d.sha, canvas, s);
      assert t.Node?;
      DenotationUnique(d, canvas, nodes, nodes[h].left, s.left, t.left);
      DenotationUnique(d, canvas, nodes, nodes[h].right, s.right, t.right);
    }
  }

  lemma {:induction false} StoredIsCovered(d: Digest, canvas: Bytes, nodes: map<Hash, StoredNode>, t: Tree<Bytes>)
    requires Consistent(d, nodes) && Stored(d, canvas, nodes, t)
    ensures Covered(d, canvas, t)
  {
    if t.Node? {
      StoredIsCovered(d, canvas, nodes, t.left);
      StoredIsCovered(d, canvas, nodes, t.right);
    }
  }

  /**
   History independence of the Presentation: any two insertion orders of the same Turns,
   pairwise at different addresses, end in the same root hash.
   */
  lemma SameTurnsSameRoot(sha: Bytes -> Hash, canvas: Bytes, s1: seq<Bytes>, s2: seq<Bytes>)
    requires forall i, j :: 0 <= i < j < |s1| ==> AddressOf(s1[i]) != AddressOf(s1[j])
    requires forall i, j :: 0 <= i < j < |s2| ==> AddressOf(s2[i]) != AddressOf(s2[j])
    requires (set x | x in s1) == (set x | x in s2)
    ensures var o := PresentationOrder(sha, canvas);
            && InsertAll(o, Leaf, s1).Some? && InsertAll(o, Leaf, s2).Some?
            && MerkleHash(sha, canvas, InsertAll(o, Leaf, s1).value)
               == MerkleHash(sha, canvas, InsertAll(o, Leaf, s2).value)
  {
    var o := PresentationOrder(sha, canvas);
    OrderLawful(sha, canvas);
    forall i, j | 0 <= i < j < |s1| ensures !Same(o, s1[i], s1[j]) {
      SameMeansSameAddress(sha, canvas, s1[i], s1[j]);
    }
    forall i, j | 0 <= i < j < |s2| ensures !Same(o, s2[i], s2[j]) {
      SameMeansSameAddress(sha, canvas, s2[i], s2[j]);
    }
    HistoryIndependence(o, s1, s2);
  }
}
