/**
 What every commit transaction keeps: the durable rows always record one growing history of
 treaps (canvas/protos/datastore/presentation_datastore.cpp:169-256).
 */
module PresentationHistory {
  import opened Basics
  import opened Integers
  import opened Hashing
  import opened PresentationNodes
  import opened PresentationDatastore
  import opened PresentationTree
  import opened Tables
  import opened Treap
  import Address

  ghost predicate CanonicalKeys(t: Tree<Bytes>) {
    forall x :: x in Keys(t) ==> Address.Canonical(x)
  }

  /** A treap of canonical texts, stored node by node. */
  ghost predicate GoodTree(d: Digest, canvas: Bytes, nodes: map<Hash, StoredNode>, t: Tree<Bytes>) {
    Stored(d, canvas, nodes, t) && IsTreap(PresentationOrder(d.sha, canvas), t) && CanonicalKeys(t)
  }

  /** One ledger row between the trees before and after it. */
  ghost predicate Link(d: Digest, canvas: Bytes, t: Tree<Bytes>, row: CommitRow, t': Tree<Bytes>) {
    && row.previous == MerkleHash(d.sha, canvas, t) && row.root == MerkleHash(d.sha, canvas, t')
    && row.text !in Keys(t) && Keys(t') == Keys(t) + {row.text}
  }

  /** `trees` is the history recorded by the durable rows: oldest first, the current tree last. */
  ghost predicate Records(d: Digest, canvas: Bytes, p: Presentation, trees: seq<Tree<Bytes>>) {
    && Consistent(d, p.nodes)
    && |trees| == |p.commits| + 1 && trees[0] == Leaf
    && p.root == MerkleHash(d.sha, canvas, trees[|p.commits|])
    && (forall i :: 0 <= i < |trees| ==> GoodTree(d, canvas, p.nodes, trees[i]))
    && (forall i :: 0 <= i < |p.commits| ==> Link(d, canvas, trees[i], p.commits[i], trees[i + 1]))
  }

  function Last<T>(s: seq<T>): T
    requires |s| > 0
  {
    s[|s| - 1]
  }

  function LedgerTexts(commits: seq<CommitRow>): set<Bytes> {
    set i | 0 <= i < |commits| :: commits[i].text
  }

  lemma EmptyRecords(d: Digest, canvas: Bytes)
    ensures Records(d, canvas, EMPTY, [Leaf])
  {
  }

  lemma {:induction false} KeysGrow(d: Digest, canvas: Bytes, p: Presentation, trees: seq<Tree<Bytes>>, i: nat, j: nat)
    requires Records(d, canvas, p, trees) && i <= j < |trees|
    ensures Keys(trees[i]) <= Keys(trees[j])
    ensures i < j ==> p.commits[i].text in Keys(trees[j])
    decreases j
  {
    hide Consistent, GoodTree;
    if i < j {
      KeysGrow(d, canvas, p, trees, i, j - 1);
      assert Link(d, canvas, trees[j - 1], p.commits[j - 1], trees[j - 1 + 1]);
    }
  }

  /** The keys of each recorded tree are exactly the Turns committed up to it. */
  lemma {:induction false} KeysAreLedger(d: Digest, canvas: Bytes, p: Presentation, trees: seq<Tree<Bytes>>, k: nat)
    requires Records(d, canvas, p, trees) && k < |trees|
    ensures Keys(trees[k]) == LedgerTexts(p.commits[..k])
    decreases k
  {
    hide Consistent, GoodTree;
    if k > 0 {
      KeysAreLedger(d, canvas, p, trees, k - 1);
      assert Link(d, canvas, trees[k - 1], p.commits[k - 1], trees[k - 1 + 1]);
      LedgerSnoc(p.commits, k - 1);
    }
  }

  lemma LedgerSnoc(commits: seq<CommitRow>, k: nat)
    requires k < |commits|
    ensures LedgerTexts(commits[..k + 1]) == LedgerTexts(commits[..k]) + {commits[k].text}
  {
    var a, b := commits[..k], commits[..k + 1];
    forall x | x in LedgerTexts(a) ensures x in LedgerTexts(b) {
      var i :| 0 <= i < |a| && a[i].text == x;
      assert b[i].text == x;
    }
    assert b[k].text == commits[k].text;
    forall x | x in LedgerTexts(b) && x != commits[k].text ensures x in LedgerTexts(a) {
      var i :| 0 <= i < |b| && b[i].text == x;
      assert a[i].text == x;
    }
  }

  /** No two points of the history share a root: a durable root never recurs. */
  lemma RootsDistinct(d: Digest, canvas: Bytes, p: Presentation, trees: seq<Tree<Bytes>>, i: nat, j: nat)
    requires Records(d, canvas, p, trees) && i < j < |trees|
    ensures MerkleHash(d.sha, canvas, trees[i]) != MerkleHash(d.sha, canvas, trees[j])
  {
    hide Consistent, Stored, IsTreap, CanonicalKeys;
    KeysGrow(d, canvas, p, trees, i + 1, j);
    assert Link(d, canvas, trees[i], p.commits[i], trees[i + 1]);
    assert p.commits[i].text in Keys(trees[j]) && p.commits[i].text !in Keys(trees[i]);
    if MerkleHash(d.sha, canvas, trees[i]) == MerkleHash(d.sha, canvas, trees[j]) {
      assert GoodTree(d, canvas, p.nodes, trees[i]) && GoodTree(d, canvas, p.nodes, trees[j]);
      DenotationUnique(d, canvas, p.nodes, MerkleHash(d.sha, canvas, trees[i]), trees[i], trees[j]);
    }
  }

  /** Canonical texts at one address are one text. */
  lemma CanonicalSame(sha: Bytes -> Hash, canvas: Bytes, a: Bytes, b: Bytes)
    requires Address.Canonical(a) && Address.Canonical(b)
    requires Same(PresentationOrder(sha, canvas), a, b)
    ensures a == b
  {
    SameMeansSameAddress(sha, canvas, a, b);
  }

  /** Over canonical texts an insertion is refused exactly for a Turn that is in the tree. */
  lemma RefusedIffMember(d: Digest, canvas: Bytes, t: Tree<Bytes>, text: Bytes)
    requires IsTreap(PresentationOrder(d.sha, canvas), t) && CanonicalKeys(t) && Address.Canonical(text)
    ensures Insert(PresentationOrder(d.sha, canvas), t, text).None? <==> text in Keys(t)
    ensures text !in Keys(t) ==>
              var t' := Insert(PresentationOrder(d.sha, canvas), t, text).value;
              && IsTreap(PresentationOrder(d.sha, canvas), t') && CanonicalKeys(t')
              && Keys(t') == Keys(t) + {text}
  {
    hide IsTreap, Insert, Address.Canonical, Lawful;
    var o := PresentationOrder(d.sha, canvas);
    OrderLawful(d.sha, canvas);
    if text in Keys(t) {
      InsertMember(o, t, text);
    } else {
      forall y | y in Keys(t) ensures !Same(o, text, y) {
        if Same(o, text, y) {
          CanonicalSame(d.sha, canvas, text, y);
        }
      }
      InsertFresh(o, t, text);
    }
  }

  /** A preparation stays one while the node table grows. */
  lemma PreparedStable(d: Digest, canvas: Bytes, small: map<Hash, StoredNode>, big: map<Hash, StoredNode>,
                       t: Tree<Bytes>, text: Bytes, p: Pending)
    requires CollisionFree(d) && Consistent(d, small) && Consistent(d, big) && Extends(small, big)
    requires Prepared(d, canvas, small, t, text, p)
    ensures Prepared(d, canvas, big, t, text, p)
  {
    hide CollisionFree, Consistent, GenuineEntries, Genuine, PresentationOrder;
    var a, b := Merge(small, p.nodes), Merge(big, p.nodes);
    NodesMerge(d, small, p.nodes);
    NodesMerge(d, big, p.nodes);
    forall h | h in a ensures h in b && b[h] == a[h] {
      MergeOrigin(small, p.nodes, h);
      if (h, a[h]) in p.nodes {
        assert Contains(b, (h, a[h]));
      }
    }
    StoredStable(d, canvas, a, b, Insert(PresentationOrder(d.sha, canvas), t, text).value);
  }

  /** What a preparation promises about the tree it would commit. */
  ghost function After(d: Digest, canvas: Bytes, t: Tree<Bytes>, text: Bytes): Tree<Bytes>
    requires Insert(PresentationOrder(d.sha, canvas), t, text).Some?
  {
    Insert(PresentationOrder(d.sha, canvas), t, text).value
  }

  lemma PreparedTree(d: Digest, canvas: Bytes, p: Presentation, t: Tree<Bytes>, text: Bytes, q: Pending)
    requires CollisionFree(d) && Consistent(d, p.nodes)
    requires GoodTree(d, canvas, p.nodes, t) && Address.Canonical(text)
    requires Prepared(d, canvas, p.nodes, t, text, q)
    ensures GoodTree(d, canvas, Merge(p.nodes, q.nodes), After(d, canvas, t, text))
    ensures Link(d, canvas, t, CommitRow(q.root, q.previous, text), After(d, canvas, t, text))
    ensures q.root != ZERO_HASH
  {
    hide CollisionFree, Consistent, IsTreap, Address.Canonical, GenuineEntries, PresentationOrder;
    RefusedIffMember(d, canvas, t, text);
    OnlyLeafIsEmpty(After(d, canvas, t, text));
  }

  /**
   The commit transaction. For a preparation made from the current tree neither uniqueness
   constraint can fire; the history gains exactly that one Turn and keeps every older root.
   */
  lemma CommitExtendsHistory(d: Digest, canvas: Bytes, p: Presentation, trees: seq<Tree<Bytes>>,
                             text: Bytes, q: Pending)
    requires CollisionFree(d) && Records(d, canvas, p, trees) && Address.Canonical(text)
    requires Prepared(d, canvas, p.nodes, Last(trees), text, q)
    ensures var (status, p') := CommitTx(p, q.previous, q.root, text, q.nodes);
            && status == Ok
            && Records(d, canvas, p', trees + [After(d, canvas, Last(trees), text)])
            && Extends(p.nodes, p'.nodes)
  {
    hide CollisionFree, Consistent, Address.Canonical, GenuineEntries, PresentationOrder, GoodTree, Link, Merge;
    var t := Last(trees);
    assert GoodTree(d, canvas, p.nodes, t);
    PreparedTree(d, canvas, p, t, text, q);
    NodesMerge(d, p.nodes, q.nodes);
    var t' := After(d, canvas, t, text);
    var p' := Presentation(q.root, Merge(p.nodes, q.nodes), p.commits + [CommitRow(q.root, q.previous, text)]);
    HistoryGrows(d, canvas, p, trees, p', t');
    NotYetRecorded(d, canvas, p, trees, p', t');
  }

  lemma HistoryGrows(d: Digest, canvas: Bytes, p: Presentation, trees: seq<Tree<Bytes>>, p': Presentation, t': Tree<Bytes>)
    requires Records(d, canvas, p, trees)
    requires Consistent(d, p'.nodes) && Extends(p.nodes, p'.nodes) && GoodTree(d, canvas, p'.nodes, t')
    requires |p'.commits| == |p.commits| + 1 && p'.commits[..|p.commits|] == p.commits
    requires Link(d, canvas, Last(trees), Last(p'.commits), t')
    requires p'.root == MerkleHash(d.sha, canvas, t')
    ensures Records(d, canvas, p', trees + [t'])
  {
    hide Consistent, Stored, IsTreap, CanonicalKeys, Extends, Link, MerkleHash;
    var grown := trees + [t'];
    forall i | 0 <= i < |grown| ensures GoodTree(d, canvas, p'.nodes, grown[i]) {
      if i < |trees| {
        assert GoodTree(d, canvas, p.nodes, trees[i]);
        StoredStable(d, canvas, p.nodes, p'.nodes, trees[i]);
      }
    }
    forall i | 0 <= i < |p'.commits| ensures Link(d, canvas, grown[i], p'.commits[i], grown[i + 1]) {
      if i < |p.commits| {
        assert p'.commits[i] == p.commits[i];
        assert Link(d, canvas, trees[i], p.commits[i], trees[i + 1]);
      }
    }
  }

  lemma NotYetRecorded(d: Digest, canvas: Bytes, p: Presentation, trees: seq<Tree<Bytes>>, p': Presentation, t': Tree<Bytes>)
    requires Records(d, canvas, p, trees) && Records(d, canvas, p', trees + [t'])
    requires p'.commits[..|p.commits|] == p.commits && |p'.commits| == |p.commits| + 1
    ensures !Recorded(p.commits, Last(p'.commits).root, Last(p'.commits).text)
  {
    hide Consistent, GoodTree, MerkleHash;
    var n, grown := |p.commits|, trees + [t'];
    assert Link(d, canvas, grown[n], p'.commits[n], grown[n + 1]);
    forall i | 0 <= i < n ensures p.commits[i].root != p'.commits[n].root && p.commits[i].text != p'.commits[n].text {
      assert p'.commits[i] == p.commits[i];
      assert Link(d, canvas, grown[i], p'.commits[i], grown[i + 1]);
      RootsDistinct(d, canvas, p', grown, i + 1, n + 1);
      KeysGrow(d, canvas, p', grown, i + 1, n);
    }
  }

  /** A commit prepared from any other root is refused and changes nothing. */
  lemma StaleCommitRefused(d: Digest, canvas: Bytes, p: Presentation, trees: seq<Tree<Bytes>>, i: nat,
                           text: Bytes, q: Pending)
    requires CollisionFree(d) && Records(d, canvas, p, trees) && i < |trees| - 1
    requires Address.Canonical(text) && Prepared(d, canvas, p.nodes, trees[i], text, q)
    ensures CommitTx(p, q.previous, q.root, text, q.nodes) == (InvalidState, p)
  {
    hide CollisionFree, Consistent, Address.Canonical, GenuineEntries, PresentationOrder, Link, Merge;
    assert GoodTree(d, canvas, p.nodes, trees[i]);
    PreparedTree(d, canvas, p, trees[i], text, q);
    RootsDistinct(d, canvas, p, trees, i, |trees| - 1);
  }

  /** In a sorted listing of Turns a sibling with the smaller ordinal, with all its descendants, comes first. */
  lemma SiblingsListedByOrdinal(d: Digest, canvas: Bytes, listing: seq<Bytes>, i: nat, j: nat,
                                parent: Address.TurnAddress, kind: Address.Kind, m: nat, n: nat,
                                s: Address.TurnAddress, t: Address.TurnAddress)
    requires StrictlySorted(PresentationOrder(d.sha, canvas), listing) && i < |listing| && j < |listing| && m < n
    requires AddressOf(listing[i]) == parent + ([Address.Component(kind, m)] + s)
    requires AddressOf(listing[j]) == parent + ([Address.Component(kind, n)] + t)
    ensures i < j
  {
    hide AddressOf, Address.Less;
    Address.SiblingsByOrdinal(parent, kind, m, n, s, t);
    Address.AddressOrder();
  }

  /** The durable root depends only on which Turns were committed, not on the order of the commits. */
  lemma SameLedgerSameRoot(d: Digest, canvas: Bytes, p: Presentation, trees: seq<Tree<Bytes>>,
                           q: Presentation, others: seq<Tree<Bytes>>)
    requires Records(d, canvas, p, trees) && Records(d, canvas, q, others)
    requires LedgerTexts(p.commits) == LedgerTexts(q.commits)
    ensures p.root == q.root
  {
    hide Consistent, Stored, CanonicalKeys, Link, IsTreap, PresentationOrder, Lawful, LedgerTexts;
    var m, n := |p.commits|, |q.commits|;
    KeysAreLedger(d, canvas, p, trees, m);
    KeysAreLedger(d, canvas, q, others, n);
    assert p.commits[..m] == p.commits && q.commits[..n] == q.commits;
    assert GoodTree(d, canvas, p.nodes, trees[m]) && GoodTree(d, canvas, q.nodes, others[n]);
    OrderLawful(d.sha, canvas);
    TreapUnique(PresentationOrder(d.sha, canvas), trees[m], others[n]);
  }

  /** The listing of the current tree: exactly the committed Turns, strictly in address order. */
  lemma CurrentListing(d: Digest, canvas: Bytes, p: Presentation, trees: seq<Tree<Bytes>>)
    requires Records(d, canvas, p, trees)
    ensures Denotes(d, canvas, p.nodes, p.root, Last(trees))
    ensures forall x :: x in InOrder(Last(trees)) <==> x in LedgerTexts(p.commits)
    ensures forall i, j :: 0 <= i < j < |InOrder(Last(trees))| ==>
              Address.Less(AddressOf(InOrder(Last(trees))[i]), AddressOf(InOrder(Last(trees))[j]))
  {
    hide Consistent, CanonicalKeys, Heap;
    var t := Last(trees);
    assert GoodTree(d, canvas, p.nodes, t);
    KeysAreLedger(d, canvas, p, trees, |p.commits|);
    assert p.commits[..|p.commits|] == p.commits;
    ListingHoldsKeys(t);
    OrderLawful(d.sha, canvas);
    ListingSorted(PresentationOrder(d.sha, canvas), t);
    var s := InOrder(t);
    forall i, j | 0 <= i < j < |s| ensures Address.Less(AddressOf(s[i]), AddressOf(s[j])) {
      assert PresentationOrder(d.sha, canvas).less(s[i], s[j]);
    }
  }

  // -------------------------------------------------- two texts of one address

  const ONE: Bytes := [49]
  const ONE_DOT: Bytes := [49, 46]
  const TWO: Bytes := [50]

  /** A digest under which the identity ending in a dot outranks `2`, which outranks `1`. */
  function SampleDigest(b: Bytes): Hash {
    var rank := if b == [] then 3 else if b[|b| - 1] == 46 then 0 else if b[|b| - 1] == 50 then 1 else 2;
    RankedDigest(rank)
  }

  function RankedDigest(rank: byte): Hash {
    ZERO_HASH[..7] + [rank] + ZERO_HASH[8..]
  }

  /**
   Presence is not always noticed. `parse` maps `1.` and `1` to one address, but the two texts
   have unrelated ranks; here `1.` is promoted above `2` before the search can meet `1`, so the
   Turn is accepted although its address is in the tree.
   */
  lemma TwinTextSlipsPast(canvas: Bytes)
    ensures var o := PresentationOrder(SampleDigest, canvas);
            var t := Node(Node(Leaf, ONE, Leaf), TWO, Leaf);
            && IsTreap(o, t) && Present(o, t, ONE_DOT)
            && Insert(o, t, ONE_DOT).Some?
            && AddressOf(ONE_DOT) == AddressOf(ONE) != []
  {
    var o := PresentationOrder(SampleDigest, canvas);
    var t := Node(Node(Leaf, ONE, Leaf), TWO, Leaf);
    hide AddressOf, Above, Before, Address.Less, SampleDigest, Split;
    SampleAddresses();
    SamplePriorities(canvas);
    OrderLawful(SampleDigest, canvas);
    assert Keys(t) == {ONE, TWO};
    SameMeansSameAddress(SampleDigest, canvas, ONE_DOT, ONE);
    SameMeansSameAddress(SampleDigest, canvas, TWO, ONE_DOT);
    assert ONE in Keys(t) && Same(o, ONE_DOT, ONE);
    var l := Node(Leaf, ONE, Leaf);
    assert Keys(l) == {ONE} && Search(o, l) && Heap(o, l);
    assert o.less(ONE, TWO) && o.above(TWO, ONE);
    assert IsTreap(o, t);
    assert !Same(o, TWO, ONE_DOT) && o.above(ONE_DOT, TWO);
    assert Insert(o, t, ONE_DOT).Some?;
  }

  lemma SampleAddresses()
    ensures AddressOf(ONE) == [Address.Component(Address.Numeric, 1)]
    ensures AddressOf(ONE_DOT) == [Address.Component(Address.Numeric, 1)]
    ensures AddressOf(TWO) == [Address.Component(Address.Numeric, 2)]
    ensures Before(ONE, TWO)
  {
    var one, two := [Address.Component(Address.Numeric, 1)], [Address.Component(Address.Numeric, 2)];
    assert Address.Print(one) == ONE && Address.Print(two) == TWO;
    Address.PrintedAddressParses(one);
    Address.PrintedAddressParses(two);
    assert ONE + [46] == ONE_DOT;
  }

  lemma SamplePriorities(canvas: Bytes)
    ensures Above(SampleDigest, TurnId(canvas, TWO), TurnId(canvas, ONE))
    ensures Above(SampleDigest, TurnId(canvas, ONE_DOT), TurnId(canvas, TWO))
  {
    hide ZERO_HASH, RankedDigest, BigEndian, LexLess;
    RankDecides(0, 1);
    RankDecides(1, 2);
    var one, dot, two := canvas + [0] + ONE, canvas + [0] + ONE_DOT, canvas + [0] + TWO;
    assert one[|one| - 1] == 49 && dot[|dot| - 1] == 46 && two[|two| - 1] == 50;
  }

  lemma RankDecides(a: byte, b: byte)
    requires a < b
    ensures BigEndian(RankedDigest(a)[..8]) < BigEndian(RankedDigest(b)[..8])
  {
    hide ZERO_HASH;
    var zeros := ZERO_HASH[..7];
    assert RankedDigest(a)[..8] == zeros + [a] && RankedDigest(b)[..8] == zeros + [b];
    assert (zeros + [a])[..7] == zeros && (zeros + [b])[..7] == zeros;
  }

  /**
   When a Turn is refused, in terms of addresses: some Turn at the same address is in the
   tree and the new Turn outranks none of that Turn's ancestors.
   */
  lemma RefusalOfAnyText(d: Digest, canvas: Bytes, t: Tree<Bytes>, text: Bytes)
    requires IsTreap(PresentationOrder(d.sha, canvas), t)
    ensures Insert(PresentationOrder(d.sha, canvas), t, text).None? <==>
            exists y :: && y in Keys(t) && AddressOf(y) == AddressOf(text)
                        && forall c :: AncestorOf(t, c, y) ==>
                             !Above(d.sha, TurnId(canvas, text), TurnId(canvas, c))
  {
    hide IsTreap, Insert, Above, AncestorOf, Lawful;
    var o := PresentationOrder(d.sha, canvas);
    OrderLawful(d.sha, canvas);
    RefusedExactly(o, t, text);
    forall y ensures Same(o, text, y) <==> AddressOf(y) == AddressOf(text) {
      SameMeansSameAddress(d.sha, canvas, text, y);
    }
    forall c ensures o.above(text, c) == Above(d.sha, TurnId(canvas, text), TurnId(canvas, c)) {
    }
  }
}
