/**
 The orchestration callbacks as written, run without interference
 (canvas/session/orchestration_subsystem.cpp:55-201). `Orchestration` treats their interleavings.
 */
module Orchestrator {
  import opened Basics
  import opened Hashing
  import opened PresentationNodes
  import opened PresentationDatastore
  import opened PresentationTree
  import opened PresentationHistory
  import opened Tables
  import opened Treap
  import Address

  /** Every treap over printed texts of these Turns is hashed in the history on which the digest is collision-free. */
  ghost predicate TurnsCovered(d: Digest, canvas: Bytes, turns: set<Bytes>) {
    forall t :: IsTreap(PresentationOrder(d.sha, canvas), t) && Keys(t) <= turns && CanonicalKeys(t) ==> Covered(d, canvas, t)
  }

  lemma CoveredInsertion(d: Digest, canvas: Bytes, turns: set<Bytes>, t: Tree<Bytes>, text: Bytes)
    requires TurnsCovered(d, canvas, turns) && Keys(t) <= turns && text in turns
    requires IsTreap(PresentationOrder(d.sha, canvas), t) && CanonicalKeys(t) && Address.Canonical(text)
    ensures InsertCovered(d, canvas, t, text)
  {
    hide IsTreap, Covered, Address.Canonical, Insert, PresentationOrder;
    RefusedIffMember(d, canvas, t, text);
  }

  /** `std::sort` by parsed address, on Turns at pairwise different addresses. */
  method SortByAddress(sha: Bytes -> Hash, canvas: Bytes, missing: seq<Bytes>) returns (sorted: seq<Bytes>)
    requires forall i, j :: 0 <= i < j < |missing| ==> !Same(PresentationOrder(sha, canvas), missing[i], missing[j])
    ensures StrictlySorted(PresentationOrder(sha, canvas), sorted)
    ensures forall x :: x in sorted <==> x in missing
  {
    hide Lawful, PresentationOrder;
    var o := PresentationOrder(sha, canvas);
    OrderLawful(sha, canvas);
    sorted := [];
    for k := 0 to |missing|
      invariant StrictlySorted(o, sorted)
      invariant forall x :: x in sorted <==> x in missing[..k]
    {
      forall y | y in sorted ensures !Same(o, missing[k], y) {
        var i :| 0 <= i < k && missing[i] == y;
      }
      InsertSortedKeeps(o, sorted, missing[k]);
      sorted := InsertSorted(o, sorted, missing[k]);
      assert missing[..k + 1] == missing[..k] + [missing[k]];
    }
    assert missing[..|missing|] == missing;
  }

  class Orchestrator {
    const canvas: Bytes
    const store: Datastore
    const tree: PresentationTree
    ghost const d: Digest
    /** The history behind the durable rows. */
    ghost var trees: seq<Tree<Bytes>>

    ghost predicate Valid()
      reads this, store, tree
    {
      && tree.store == store && tree.d == d && tree.Valid()
      && Records(d, canvas, store.tables, trees)
    }

    constructor (canvas: Bytes, store: Datastore, tree: PresentationTree, ghost trees: seq<Tree<Bytes>>)
      requires tree.store == store && tree.Valid() && Records(tree.d, canvas, store.tables, trees)
      ensures Valid() && this.canvas == canvas && this.store == store && this.tree == tree && this.trees == trees
    {
      this.canvas, this.store, this.tree, this.d, this.trees := canvas, store, tree, tree.d, trees;
    }

    /** Prepare against the durable root, commit, and advance; the common tail of commit and recovery. */
    method PrepareAndCommit(text: Bytes, ghost turns: set<Bytes>) returns (status: Status)
      requires Valid() && |canvas| == 16 && tree.root == store.tables.root
      requires TurnsCovered(d, canvas, turns) && Keys(Last(trees)) <= turns
      requires text in turns && Address.Canonical(text)
      modifies this, store, tree
      ensures Valid() && tree.root == store.tables.root
      ensures status != Ok ==> trees == old(trees) && store.tables == old(store.tables)
      ensures status == Ok ==> |trees| == |old(trees)| + 1 && old(trees) <= trees
      ensures status == Ok ==> text !in Keys(Last(old(trees))) && Keys(Last(trees)) == Keys(Last(old(trees))) + {text}
      ensures old(store.statements) <= store.statements
      ensures Fault(status) <==> !store.Quiet(old(store.statements), store.statements)
      ensures text in Keys(Last(old(trees))) ==> status == AlreadyExists || status == SqlError
      ensures text !in Keys(Last(old(trees))) ==> status == Ok || Fault(status)
    {
      hide Consistent, CollisionFree, Stored, CanonicalKeys, IsTreap, Link, Insert, PresentationOrder, GenuineEntries, Merge, TurnsCovered, Covered;
      ghost var last := Last(trees);
      assert GoodTree(d, canvas, store.tables.nodes, trees[|trees| - 1]);
      CoveredInsertion(d, canvas, turns, last, text);
      RefusedIffMember(d, canvas, last, text);
      var pending;
      status, pending := tree.PrepareInsert(TurnId(canvas, text), canvas, last);
      if status != Ok {
        return;
      }
      CommitExtendsHistory(d, canvas, store.tables, trees, text, pending);
      status := store.Commit(pending.previous, pending.root, TurnId(canvas, text), pending.nodes);
      if status != Ok {
        return;
      }
      trees := trees + [After(d, canvas, last, text)];
      tree.Commit(pending);
    }

    /** Prepare against the in-memory root, wherever in the history it stands. */
    method PrepareAgain(text: Bytes, ghost turns: set<Bytes>, ghost k: nat) returns (status: Status, pending: Pending)
      requires Valid() && |canvas| == 16 && k < |trees| && tree.root == MerkleHash(d.sha, canvas, trees[k])
      requires TurnsCovered(d, canvas, turns) && Keys(Last(trees)) <= turns
      requires text in turns && Address.Canonical(text)
      modifies store`statements
      ensures old(store.statements) <= store.statements
      ensures status == Ok ==> Prepared(d, canvas, store.tables.nodes, trees[k], text, pending)
      ensures status == SqlError <==> !store.Quiet(old(store.statements), store.statements)
      ensures status in {Ok, AlreadyExists, SqlError} && (text !in Keys(Last(trees)) ==> status != AlreadyExists)
    {
      hide Consistent, CollisionFree, Stored, CanonicalKeys, IsTreap, Link, Insert, PresentationOrder, TurnsCovered, Covered, Prepared, MerkleHash;
      assert GoodTree(d, canvas, store.tables.nodes, trees[k]);
      KeysGrow(d, canvas, store.tables, trees, k, |trees| - 1);
      CoveredInsertion(d, canvas, turns, trees[k], text);
      RefusedIffMember(d, canvas, trees[k], text);
      status, pending := tree.PrepareInsert(TurnId(canvas, text), canvas, trees[k]);
    }

    /**
     The commit callback. Its preparation may be stale and the in-memory root behind; on success
     the durable Presentation still gains exactly this Turn, on failure nothing durable changes.
     */
    method CommitTurn(text: Bytes, taken: Option<Pending>, ghost turns: set<Bytes>, ghost i: nat, ghost k: nat)
      returns (status: Status)
      requires Valid() && |canvas| == 16 && k < |trees| && tree.root == MerkleHash(d.sha, canvas, trees[k])
      requires TurnsCovered(d, canvas, turns) && Keys(Last(trees)) <= turns
      requires text in turns && Address.Canonical(text)
      requires taken.Some? ==> i < |trees| && Prepared(d, canvas, store.tables.nodes, trees[i], text, taken.value)
      modifies this, store, tree
      ensures Valid()
      ensures taken.None? ==> status == InvalidState
      ensures status != Ok ==> trees == old(trees) && store.tables == old(store.tables)
      ensures status == Ok ==> tree.root == store.tables.root
      ensures status == Ok ==> |trees| == |old(trees)| + 1 && old(trees) <= trees
      ensures status == Ok ==> text !in Keys(Last(old(trees))) && Keys(Last(trees)) == Keys(Last(old(trees))) + {text}
      ensures taken.Some? ==>
                status == Ok || Fault(status) || (status == AlreadyExists && text in Keys(Last(old(trees))))
      ensures old(store.statements) <= store.statements
      ensures Fault(status) <==> !store.Quiet(old(store.statements), store.statements)
    {
      hide Consistent, CollisionFree, Stored, CanonicalKeys, IsTreap, Link, Insert, PresentationOrder, GenuineEntries, Merge, TurnsCovered, Covered, Prepared, MerkleHash;
      if taken.None? {
        return InvalidState;
      }
      var pending := taken.value;
      ghost var from := i;
      PreparedRoots(d, canvas, store.tables, trees, i, text, pending);
      if pending.previous != tree.root {
        from := k;
        status, pending := PrepareAgain(text, turns, k);
        if status != Ok {
          return;
        }
        PreparedRoots(d, canvas, store.tables, trees, k, text, pending);
      }
      status := CommitOrRetry(text, pending, turns, from);
    }

    /** The transactions of the commit callback: the first, and on a moved root one retry from the durable root. */
    method CommitOrRetry(text: Bytes, pending: Pending, ghost turns: set<Bytes>, ghost from: nat) returns (status: Status)
      requires Valid() && |canvas| == 16 && from < |trees| && tree.root == pending.previous
      requires TurnsCovered(d, canvas, turns) && Keys(Last(trees)) <= turns
      requires text in turns && Address.Canonical(text)
      requires Prepared(d, canvas, store.tables.nodes, trees[from], text, pending)
      modifies this, store, tree
      ensures Valid()
      ensures status != Ok ==> trees == old(trees) && store.tables == old(store.tables)
      ensures status == Ok ==> tree.root == store.tables.root
      ensures status == Ok ==> |trees| == |old(trees)| + 1 && old(trees) <= trees
      ensures status == Ok ==> text !in Keys(Last(old(trees))) && Keys(Last(trees)) == Keys(Last(old(trees))) + {text}
      ensures old(store.statements) <= store.statements
      ensures Fault(status) <==> !store.Quiet(old(store.statements), store.statements)
      ensures status == Ok || status == AlreadyExists || Fault(status)
      ensures status == AlreadyExists ==> text in Keys(Last(old(trees)))
    {
      hide Consistent, CollisionFree, Stored, CanonicalKeys, IsTreap, Link, Insert, PresentationOrder, GenuineEntries, Merge, TurnsCovered, Covered, Prepared, MerkleHash;
      if from < |trees| - 1 {
        StaleCommitRefused(d, canvas, store.tables, trees, from, text, pending);
      } else {
        CommitExtendsHistory(d, canvas, store.tables, trees, text, pending);
        PreparedAddsText(d, canvas, store.tables, trees, text, pending);
      }
      ghost var last := Last(trees);
      status := store.Commit(pending.previous, pending.root, TurnId(canvas, text), pending.nodes);
      if status == InvalidState {
        var durable;
        status, durable := store.LoadRoot();
        if status != Ok {
          return;
        }
        tree.Reset(durable);
        status := PrepareAndCommit(text, turns);
        return;
      }
      if status != Ok {
        return;
      }
      trees := trees + [After(d, canvas, last, text)];
      tree.Commit(pending);
    }

    /**
     Recovery as written. When no statement fails, a row of another canvas or with an unparsable text
     is answered by CORRUPT_DATA and nothing changes, and otherwise the answer is OK and the durable
     tree holds exactly the snapshot's Turns. A database error is answered exactly when a statement
     failed, and leaves a valid, possibly longer, history.
     */
    method Reconcile(snapshot: seq<TurnId>) returns (status: Status)
      requires Valid() && |canvas| == 16 && tree.root == store.tables.root
      requires TurnsCovered(d, canvas, Texts(snapshot)) && Keys(Last(trees)) <= Texts(snapshot)
      requires forall x :: x in Texts(snapshot) && Address.Parse(x).Some? ==> Address.Canonical(x)
      requires forall i, j :: 0 <= i < j < |snapshot| ==> snapshot[i].text != snapshot[j].text
      modifies this, store, tree
      ensures Valid() && old(trees) <= trees
      ensures old(store.statements) <= store.statements
      ensures status == Ok || status == CorruptData || Fault(status)
      ensures Fault(status) <==> !store.Quiet(old(store.statements), store.statements)
      ensures store.Quiet(old(store.statements), store.statements) ==> status == if Corrupt(snapshot, canvas) then CorruptData else Ok
      ensures Corrupt(snapshot, canvas) ==> status != Ok && trees == old(trees) && store.tables == old(store.tables)
      ensures status == Ok ==> tree.root == store.tables.root && Keys(Last(trees)) == Texts(snapshot)
    {
      hide Consistent, CollisionFree, GoodTree, Link, MerkleHash, TurnsCovered, PresentationOrder, Address.Canonical, Address.Parse, LedgerTexts;
      var committed;
      status, committed := store.LoadCommittedTurnAddresses();
      if status != Ok {
        return;
      }
      ghost var start := Last(trees);
      CommittedTexts(d, canvas, store.tables, trees, committed);
      var missing: seq<Bytes> := [];
      for i := 0 to |snapshot|
        invariant forall x :: x in missing ==> Address.Canonical(x) && x !in committed
        invariant forall x :: x in missing ==> x in Texts(snapshot[..i])
        invariant forall x :: x in Texts(snapshot[..i]) ==> x in missing || x in committed
        invariant forall a, b :: 0 <= a < b < |missing| ==> missing[a] != missing[b]
        invariant Valid() && trees == old(trees) && tree.root == store.tables.root && store.tables == old(store.tables)
        invariant !Corrupt(snapshot[..i], canvas)
        invariant old(store.statements) <= store.statements && store.Quiet(old(store.statements), store.statements)
      {
        var turn := snapshot[i];
        if turn.canvas != canvas {
          return CorruptData;
        }
        var address := Address.ReadAddress(turn.text);
        if address.None? {
          return CorruptData;
        }
        TextsSnoc(snapshot, i);
        if turn.text !in committed {
          missing := missing + [turn.text];
        }
      }
      assert snapshot[..|snapshot|] == snapshot;
      forall a, b | 0 <= a < b < |missing| ensures !Same(PresentationOrder(tree.sha, canvas), missing[a], missing[b]) {
        assert missing[a] in missing && missing[b] in missing;
        if Same(PresentationOrder(tree.sha, canvas), missing[a], missing[b]) {
          CanonicalSame(tree.sha, canvas, missing[a], missing[b]);
        }
      }
      var ordered := SortByAddress(tree.sha, canvas, missing);
      status := CommitAll(ordered, Texts(snapshot));
    }

    /** The loop of `reconcile` over the sorted missing Turns. */
    method CommitAll(ordered: seq<Bytes>, ghost turns: set<Bytes>) returns (status: Status)
      requires Valid() && |canvas| == 16 && tree.root == store.tables.root
      requires TurnsCovered(d, canvas, turns) && Keys(Last(trees)) <= turns
      requires StrictlySorted(PresentationOrder(tree.sha, canvas), ordered)
      requires forall x :: x in ordered ==> x in turns && Address.Canonical(x) && x !in Keys(Last(trees))
      modifies this, store, tree
      ensures Valid() && old(trees) <= trees
      ensures old(store.statements) <= store.statements
      ensures status == Ok || Fault(status)
      ensures Fault(status) <==> !store.Quiet(old(store.statements), store.statements)
      ensures status == Ok ==> tree.root == store.tables.root
      ensures status == Ok ==> Keys(Last(trees)) == Keys(Last(old(trees))) + set x | x in ordered
    {
      hide Consistent, CollisionFree, GoodTree, Link, MerkleHash, TurnsCovered, Address.Canonical, Lawful;
      OrderLawful(tree.sha, canvas);
      for i := 0 to |ordered|
        invariant Valid() && tree.root == store.tables.root && old(trees) <= trees && |old(trees)| > 0
        invariant old(store.statements) <= store.statements && store.Quiet(old(store.statements), store.statements)
        invariant Keys(Last(trees)) == Keys(Last(old(trees))) + set x | x in ordered[..i]
        invariant Keys(Last(trees)) <= turns
      {
        NotAmongEarlier(tree.sha, canvas, ordered, i);
        assert ordered[i] in ordered;
        status := PrepareAndCommit(ordered[i], turns);
        if status != Ok {
          return;
        }
        assert ordered[..i + 1] == ordered[..i] + [ordered[i]];
      }
      assert ordered[..|ordered|] == ordered;
      return Ok;
    }
  }

  /** Some row belongs to another canvas or has a text that does not parse. */
  ghost predicate Corrupt(snapshot: seq<TurnId>, canvas: Bytes) {
    exists i :: 0 <= i < |snapshot| && CorruptRow(snapshot[i], canvas)
  }

  predicate CorruptRow(turn: TurnId, canvas: Bytes) {
    turn.canvas != canvas || Address.Parse(turn.text).None?
  }

  function Texts(snapshot: seq<TurnId>): set<Bytes> {
    set i | 0 <= i < |snapshot| :: snapshot[i].text
  }

  lemma TextsSnoc(snapshot: seq<TurnId>, i: nat)
    requires i < |snapshot|
    requires forall a, b :: 0 <= a < b < |snapshot| ==> snapshot[a].text != snapshot[b].text
    ensures Texts(snapshot[..i + 1]) == Texts(snapshot[..i]) + {snapshot[i].text}
    ensures snapshot[i].text !in Texts(snapshot[..i]) && snapshot[i].text in Texts(snapshot)
  {
    var a, b := snapshot[..i], snapshot[..i + 1];
    forall x ensures x in Texts(b) <==> x in Texts(a) || x == snapshot[i].text {
      if x in Texts(b) {
        var j :| 0 <= j < |b| && b[j].text == x;
        assert j < i ==> a[j].text == x;
      }
      if x in Texts(a) {
        var j :| 0 <= j < |a| && a[j].text == x;
        assert b[j].text == x;
      }
      assert b[i].text == snapshot[i].text;
    }
  }

  lemma NotAmongEarlier(sha: Bytes -> Hash, canvas: Bytes, ordered: seq<Bytes>, i: nat)
    requires StrictlySorted(PresentationOrder(sha, canvas), ordered) && i < |ordered|
    ensures ordered[i] !in ordered[..i]
  {
    hide Lawful, PresentationOrder;
    OrderLawful(sha, canvas);
    IrreflexiveOrder(PresentationOrder(sha, canvas), ordered[i]);
  }

  lemma IrreflexiveOrder(o: Order<Bytes>, x: Bytes)
    requires Lawful(o)
    ensures !o.less(x, x)
  {
  }

  lemma CommittedTexts(d: Digest, canvas: Bytes, p: Presentation, trees: seq<Tree<Bytes>>, committed: seq<Bytes>)
    requires Records(d, canvas, p, trees) && multiset(committed) == multiset(RowTexts(p.commits))
    ensures forall x :: x in Keys(Last(trees)) <==> x in committed
  {
    hide Consistent, GoodTree, Link, MerkleHash;
    KeysAreLedger(d, canvas, p, trees, |p.commits|);
    assert p.commits[..|p.commits|] == p.commits;
    var texts := RowTexts(p.commits);
    forall x ensures x in committed <==> x in LedgerTexts(p.commits) {
      assert x in committed <==> x in multiset(committed);
      assert x in texts <==> x in multiset(texts);
    }
  }

  lemma PreparedAddsText(d: Digest, canvas: Bytes, p: Presentation, trees: seq<Tree<Bytes>>, text: Bytes, q: Pending)
    requires CollisionFree(d) && Records(d, canvas, p, trees) && Address.Canonical(text)
    requires Prepared(d, canvas, p.nodes, Last(trees), text, q)
    ensures Insert(PresentationOrder(d.sha, canvas), Last(trees), text).Some?
    ensures text !in Keys(Last(trees)) && Keys(After(d, canvas, Last(trees), text)) == Keys(Last(trees)) + {text}
  {
    hide Consistent, GoodTree, MerkleHash, Merge, GenuineEntries, Insert, PresentationOrder, CollisionFree, Address.Canonical;
    assert GoodTree(d, canvas, p.nodes, trees[|trees| - 1]);
    PreparedTree(d, canvas, p, Last(trees), text, q);
  }

  lemma PreparedRoots(d: Digest, canvas: Bytes, p: Presentation, trees: seq<Tree<Bytes>>, i: nat, text: Bytes, q: Pending)
    requires Records(d, canvas, p, trees) && i < |trees| && Prepared(d, canvas, p.nodes, trees[i], text, q)
    ensures q.previous == MerkleHash(d.sha, canvas, trees[i])
    ensures q.previous == p.root ==> i == |trees| - 1
  {
    hide Consistent, GoodTree, Link, MerkleHash, Merge, GenuineEntries, Insert, PresentationOrder;
    if i < |trees| - 1 {
      RootsDistinct(d, canvas, p, trees, i, |trees| - 1);
    }
  }
}
