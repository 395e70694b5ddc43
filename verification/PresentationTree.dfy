/**
 Durable Presentation tables and their transactions
 (canvas/protos/datastore/presentation_datastore.cpp).
 */
module PresentationDatastore {
  import opened Basics
  import opened Hashing
  import opened PresentationNodes
  import opened Tables

  datatype Status =
    | Ok | InvalidArgument | InvalidState | NotFound | AlreadyExists | CorruptData | SqlError

  /** One row of `presentation_commits`. */
  datatype CommitRow = CommitRow(root: Hash, previous: Hash, text: Bytes)

  /** The durable rows of one Presentation: its root column, node table and commit ledger. */
  datatype Presentation = Presentation(root: Hash, nodes: map<Hash, StoredNode>, commits: seq<CommitRow>)

  const EMPTY := Presentation(ZERO_HASH, map[], [])

  /** A ledger row already holds this root (primary key) or this Turn (unique index). */
  predicate Recorded(commits: seq<CommitRow>, root: Hash, text: Bytes) {
    exists i :: 0 <= i < |commits| && (commits[i].root == root || commits[i].text == text)
  }

  /** The commit transaction when the database itself does not fail. */
  function CommitTx(p: Presentation, previous: Hash, root: Hash, text: Bytes, entries: seq<Entry>)
    : (Status, Presentation)
  {
    if root == ZERO_HASH || entries == [] then (InvalidArgument, p)
    else if p.root != previous then (InvalidState, p)
    else if Recorded(p.commits, root, text) then (SqlError, p)
    else (Ok, Presentation(root, Merge(p.nodes, entries), p.commits + [CommitRow(root, previous, text)]))
  }

  /** What the schema leaves unchecked about the rows of one Presentation. */
  datatype Health = Health(
    uuid: bool,          // the Presentation's identifier has 16 bytes
    row: bool,           // its row exists
    root: bool,          // its root column is null or has 32 bytes
    badNodes: set<Hash>  // nodes with a column of a wrong size
  )

  const INTACT := Health(true, true, true, {})

  /** What a failing database may answer in place of the transaction's own answer. */
  predicate Fault(status: Status) {
    status == SqlError || status == NotFound
  }

  function RootAnswer(h: Health): Status {
    if !h.uuid then InvalidArgument else if !h.row then NotFound else if !h.root then CorruptData else Ok
  }

  function NodeAnswer(h: Health, p: Presentation, hash: Hash): Status {
    if !h.uuid || hash == ZERO_HASH then InvalidArgument
    else if hash !in p.nodes then NotFound
    else if hash in h.badNodes then CorruptData
    else Ok
  }

  /** The commit transaction over rows of any health. */
  function CommitAnswer(h: Health, p: Presentation, previous: Hash, root: Hash, text: Bytes, entries: seq<Entry>)
    : (Status, Presentation)
  {
    if !h.uuid || root == ZERO_HASH || entries == [] then (InvalidArgument, p)
    else if !h.row then (NotFound, p)
    else if !h.root then (CorruptData, p)
    else CommitTx(p, previous, root, text, entries)
  }

  /** The Turn texts of ledger rows. */
  function RowTexts(commits: seq<CommitRow>): (texts: seq<Bytes>)
    ensures |texts| == |commits| && forall i :: 0 <= i < |commits| ==> texts[i] == commits[i].text
  {
    seq(|commits|, i requires 0 <= i < |commits| => commits[i].text)
  }

  /** Taking one row out of any place. */
  lemma TakeRow(rows: seq<CommitRow>, i: nat)
    requires i < |rows|
    ensures multiset(RowTexts(rows)) == multiset(RowTexts(rows[..i] + rows[i + 1..])) + multiset{rows[i].text}
  {
    var rest := rows[..i] + rows[i + 1..];
    assert RowTexts(rows) == RowTexts(rows[..i]) + [rows[i].text] + RowTexts(rows[i + 1..]);
    assert RowTexts(rest) == RowTexts(rows[..i]) + RowTexts(rows[i + 1..]);
  }

  class Datastore {
    const health: Health
    /** Whether the n-th statement fails. */
    const faults: nat -> bool
    var tables: Presentation
    /** How many statements have been issued. */
    var statements: nat

    constructor (initial: Presentation, health: Health, faults: nat -> bool)
      ensures tables == initial && this.health == health && this.faults == faults && statements == 0
    {
      this.health, this.faults := health, faults;
      tables, statements := initial, 0;
    }

    /** No statement of this range failed. */
    ghost predicate Quiet(from: nat, to: nat) {
      forall k :: from <= k < to ==> !faults(k)
    }

    method Issue() returns (fault: bool)
      modifies this`statements
      ensures statements == old(statements) + 1
      ensures fault <==> !Quiet(old(statements), statements)
    {
      fault := faults(statements);
      statements := statements + 1;
    }

    method LoadRoot() returns (status: Status, root: Hash)
      modifies this`statements
      ensures old(statements) <= statements
      ensures status == if health.uuid && !Quiet(old(statements), statements) then SqlError else RootAnswer(health)
      ensures root == if status == Ok then tables.root else ZERO_HASH
    {
      root := ZERO_HASH;
      if !health.uuid {
        return InvalidArgument, root;
      }
      var fault := Issue();
      if fault {
        return SqlError, root;
      }
      if !health.row {
        return NotFound, root;
      }
      if !health.root {
        return CorruptData, root;
      }
      return Ok, tables.root;
    }

    method LoadNode(hash: Hash) returns (status: Status, node: Option<StoredNode>)
      modifies this`statements
      ensures old(statements) <= statements
      ensures status == if health.uuid && hash != ZERO_HASH && !Quiet(old(statements), statements) then SqlError
                        else NodeAnswer(health, tables, hash)
      ensures status == Ok ==> hash in tables.nodes && node == Some(tables.nodes[hash])
      ensures status != Ok ==> node.None?
    {
      if !health.uuid || hash == ZERO_HASH {
        return InvalidArgument, None;
      }
      var fault := Issue();
      if fault {
        return SqlError, None;
      }
      if hash !in tables.nodes {
        return NotFound, None;
      }
      if hash in health.badNodes {
        return CorruptData, None;
      }
      return Ok, Some(tables.nodes[hash]);
    }

    /** The ledger's Turn texts, each once, in whatever order the database yields the rows. */
    method LoadCommittedTurnAddresses() returns (status: Status, texts: seq<Bytes>)
      modifies this`statements
      ensures old(statements) <= statements
      ensures status == if !health.uuid then InvalidArgument else if Quiet(old(statements), statements) then Ok else SqlError
      ensures status == Ok ==> multiset(texts) == multiset(RowTexts(tables.commits))
      ensures status != Ok ==> texts == []
    {
      texts := [];
      if !health.uuid {
        return InvalidArgument, [];
      }
      var rows := tables.commits;
      while rows != []
        invariant multiset(texts) + multiset(RowTexts(rows)) == multiset(RowTexts(tables.commits))
        invariant old(statements) <= statements && Quiet(old(statements), statements)
        decreases |rows|
      {
        var fault := Issue();
        if fault {
          return SqlError, [];
        }
        var i: nat :| i < |rows|;
        TakeRow(rows, i);
        texts := texts + [rows[i].text];
        rows := rows[..i] + rows[i + 1..];
      }
      assert RowTexts(rows) == [];
      return Ok, texts;
    }

    /**
     One atomic transaction: its own answer when no statement failed, and else a database error that
     changes nothing.
     */
    method Commit(previous: Hash, root: Hash, turn: TurnId, entries: seq<Entry>) returns (status: Status)
      modifies this
      ensures old(statements) <= statements
      ensures Quiet(old(statements), statements) ==>
                (status, tables) == CommitAnswer(health, old(tables), previous, root, turn.text, entries)
      ensures !Quiet(old(statements), statements) ==> Fault(status) && tables == old(tables)
    {
      if !health.uuid || root == ZERO_HASH || entries == [] {
        return InvalidArgument;
      }
      var fault := Issue();
      if fault {
        return SqlError;
      }
      fault := Issue();
      if fault || !health.row {
        return NotFound;
      }
      if !health.root {
        return CorruptData;
      }
      if tables.root != previous {
        return InvalidState;
      }
      var nodes := tables.nodes;
      for i := 0 to |entries|
        invariant tables == old(tables) && old(statements) <= statements && Quiet(old(statements), statements)
        invariant nodes == Merge(tables.nodes, entries[..i])
      {
        fault := Issue();
        if fault {
          return SqlError;
        }
        MergeSnoc(tables.nodes, entries[..i], entries[i]);
        assert entries[..i] + [entries[i]] == entries[..i + 1];
        nodes := InsertOrIgnore(nodes, entries[i]);
      }
      assert entries[..|entries|] == entries;
      fault := Issue();
      if fault || Recorded(tables.commits, root, turn.text) {
        return SqlError;
      }
      tables := Presentation(root, nodes, tables.commits + [CommitRow(root, previous, turn.text)]);
      return Ok;
    }
  }
}

/** The persistent treap over those tables (canvas/presentation/presentation_tree.cpp). */
module PresentationTree {
  import opened Basics
  import opened Hashing
  import opened PresentationNodes
  import opened PresentationDatastore
  import opened Tables
  import opened Treap
  import Address

  datatype Pending = Pending(previous: Hash, root: Hash, inserted: TurnId, nodes: seq<Entry>)

  const NO_TURN := TurnId([], [])

  /** What retaining the topmost node of a tree adds to the pending list. */
  lemma RetainStores(d: Digest, canvas: Bytes, nodes: map<Hash, StoredNode>, pending: seq<Entry>, t: Tree<Bytes>)
    requires CollisionFree(d) && Consistent(d, nodes) && GenuineEntries(d, pending)
    requires t.Node? && Genuine(d, MerkleHash(d.sha, canvas, t), NodeOf(d.sha, canvas, t))
    requires Stored(d, canvas, Merge(nodes, pending), t.left) && Stored(d, canvas, Merge(nodes, pending), t.right)
    ensures var e := (MerkleHash(d.sha, canvas, t), NodeOf(d.sha, canvas, t));
            && GenuineEntries(d, pending + [e])
            && Extends(Merge(nodes, pending), Merge(nodes, pending + [e]))
            && Stored(d, canvas, Merge(nodes, pending + [e]), t)
  {
    var e := (MerkleHash(d.sha, canvas, t), NodeOf(d.sha, canvas, t));
    NodesMerge(d, nodes, pending);
    NodesMerge(d, nodes, pending + [e]);
    MergeSnoc(nodes, pending, e);
    assert e in pending + [e];
    assert Contains(Merge(nodes, pending + [e]), e);
    StoredStable(d, canvas, Merge(nodes, pending), Merge(nodes, pending + [e]), t.left);
    StoredStable(d, canvas, Merge(nodes, pending), Merge(nodes, pending + [e]), t.right);
    GenuineUnique(d, e.0, e.1, e.1);
  }

  function Ids(canvas: Bytes, texts: seq<Bytes>): seq<TurnId> {
    seq(|texts|, i requires 0 <= i < |texts| => TurnId(canvas, texts[i]))
  }

  /** The hashes an insertion computes belong to the history on which the digest is collision-free. */
  ghost predicate InsertCovered(d: Digest, canvas: Bytes, t: Tree<Bytes>, text: Bytes) {
    var t' := Treap.Insert(PresentationOrder(d.sha, canvas), t, text);
    t'.Some? ==> Covered(d, canvas, t'.value)
  }

  /** `p` prepares the insertion of `text` into the tree `t` over this node table. */
  ghost predicate Prepared(d: Digest, canvas: Bytes, nodes: map<Hash, StoredNode>, t: Tree<Bytes>,
                           text: Bytes, p: Pending) {
    var t' := Treap.Insert(PresentationOrder(d.sha, canvas), t, text);
    && t'.Some?
    && p.inserted == TurnId(canvas, text)
    && p.previous == MerkleHash(d.sha, canvas, t)
    && p.nodes != [] && GenuineEntries(d, p.nodes)
    && Denotes(d, canvas, Merge(nodes, p.nodes), p.root, t'.value)
  }

  function Promoted(sha: Bytes -> Hash, canvas: Bytes, t: Tree<Bytes>, text: Bytes): (r: Tree<Bytes>)
    ensures r.Node?
  {
    var (l, r) := Treap.Split(PresentationOrder(sha, canvas), t, text);
    Node(l, text, r)
  }

  lemma StoredNodeParses(d: Digest, canvas: Bytes, nodes: map<Hash, StoredNode>, t: Tree<Bytes>)
    requires Consistent(d, nodes) && Stored(d, canvas, nodes, t) && t.Node?
    ensures Address.Parse(t.key).Some? && |canvas| == 16
  {
  }

  class PresentationTree {
    const store: Datastore
    const sha: Bytes -> Hash
    ghost const d: Digest
    var root: Hash

    /** The digest is collision-free on this history, and the rows are intact and name nodes genuinely. */
    ghost predicate Valid()
      reads this, store
    {
      d.sha == sha && CollisionFree(d) && Consistent(d, store.tables.nodes) && store.health == INTACT
    }

    /** The node table as seen through nodes that are pending but not yet durable. */
    ghost function View(pending: seq<Entry>): map<Hash, StoredNode>
      reads this, store
    {
      Merge(store.tables.nodes, pending)
    }

    constructor (store: Datastore, root: Hash, sha: Bytes -> Hash, ghost d: Digest)
      requires d.sha == sha && CollisionFree(d) && Consistent(d, store.tables.nodes) && store.health == INTACT
      ensures Valid() && this.store == store && this.sha == sha && this.d == d && this.root == root
    {
      this.store, this.root, this.sha, this.d := store, root, sha, d;
    }

    /** Advance only from the root that the preparation replaces. */
    method Commit(pending: Pending)
      modifies this
      ensures root == if old(root) == pending.previous then pending.root else old(root)
    {
      if root == pending.previous {
        root := pending.root;
      }
    }

    method Reset(newRoot: Hash)
      modifies this
      ensures root == newRoot
    {
      root := newRoot;
    }

    /** Pending nodes first, newest first, then the durable table. */
    method Load(hash: Hash, pending: seq<Entry>) returns (status: Status, node: Option<StoredNode>)
      requires Valid() && GenuineEntries(d, pending)
      modifies store`statements
      ensures old(store.statements) <= store.statements
      ensures status == Ok ==> hash in View(pending) && node == Some(View(pending)[hash])
      ensures hash in View(pending) ==> status == Ok || status == SqlError
      ensures status == SqlError <==> !store.Quiet(old(store.statements), store.statements)
    {
      hide Consistent, CollisionFree, GenuineEntries, Genuine;
      NodesMerge(d, store.tables.nodes, pending);
      ZeroNotStored(d, View(pending));
      if hash == ZERO_HASH {
        return NotFound, None;
      }
      for i := |pending| downto 0
        invariant forall j :: i <= j < |pending| ==> pending[j].0 != hash
      {
        if pending[i].0 == hash {
          assert pending[i] in pending;
          assert Contains(View(pending), pending[i]);
          return Ok, Some(pending[i].1);
        }
      }
      if hash in View(pending) {
        MergeOrigin(store.tables.nodes, pending, hash);
      }
      status, node := store.LoadNode(hash);
      if status == Ok {
        assert Contains(View(pending), (hash, node.value));
      }
    }

    /** Hash one newly materialized node and append it to the pending list. */
    method Retain(node: StoredNode, pending: seq<Entry>, ghost canvas: Bytes, ghost t: Tree<Bytes>)
      returns (hash: Hash, nodes: seq<Entry>)
      requires Valid() && GenuineEntries(d, pending)
      requires t.Node? && node == NodeOf(sha, canvas, t) && Covered(d, canvas, t)
      requires Stored(d, canvas, View(pending), t.left) && Stored(d, canvas, View(pending), t.right)
      ensures nodes == pending + [(hash, node)] && GenuineEntries(d, nodes)
      ensures Extends(View(pending), View(nodes))
      ensures Denotes(d, canvas, View(nodes), hash, t)
    {
      hide Consistent, CollisionFree, GenuineEntries, Genuine;
      RetainStores(d, canvas, store.tables.nodes, pending, t);
      hash := NodeHash(sha, node);
      nodes := pending + [(hash, node)];
    }

    /** `split` on hashes computes `Treap.Split` on the trees they denote. */
    method Split(hash: Hash, key: Bytes, pending: seq<Entry>, ghost canvas: Bytes, ghost t: Tree<Bytes>)
      returns (status: Status, left: Hash, right: Hash, nodes: seq<Entry>)
      requires Valid() && GenuineEntries(d, pending)
      requires Denotes(d, canvas, View(pending), hash, t)
      requires var (l, r) := Treap.Split(PresentationOrder(sha, canvas), t, key);
               Covered(d, canvas, l) && Covered(d, canvas, r)
      modifies store`statements
      ensures old(store.statements) <= store.statements
      ensures status == if !store.Quiet(old(store.statements), store.statements) then SqlError else Ok
      ensures status == SqlError ==> nodes == pending
      ensures status == Ok ==>
                var (l, r) := Treap.Split(PresentationOrder(sha, canvas), t, key);
                && pending <= nodes && GenuineEntries(d, nodes)
                && Extends(View(pending), View(nodes))
                && Denotes(d, canvas, View(nodes), left, l)
                && Denotes(d, canvas, View(nodes), right, r)
      decreases t
    {
      hide Consistent, CollisionFree, GenuineEntries, Genuine;
      NodesMerge(d, store.tables.nodes, pending);
      left, right, nodes := ZERO_HASH, ZERO_HASH, pending;
      if hash == ZERO_HASH {
        return Ok, left, right, nodes;
      }
      var loaded, found := Load(hash, pending);
      if loaded != Ok {
        return loaded, left, right, nodes;
      }
      var current := found.value;
      assert current == NodeOf(sha, canvas, t);
      if Before(current.turn.text, key) {
        var middle;
        status, middle, right, nodes := Split(current.right, key, pending, canvas, t.right);
        if status != Ok {
          return;
        }
        ghost var (m, r) := Treap.Split(PresentationOrder(sha, canvas), t.right, key);
        ghost var l := Node(t.left, t.key, m);
        current := current.(right := middle);
        assert current == NodeOf(sha, canvas, l);
        StoredStable(d, canvas, View(pending), View(nodes), t.left);
        ghost var kept := nodes;
        left, nodes := Retain(current, nodes, canvas, l);
        StoredStable(d, canvas, View(kept), View(nodes), r);
      } else {
        var middle;
        status, left, middle, nodes := Split(current.left, key, pending, canvas, t.left);
        if status != Ok {
          return;
        }
        ghost var (l, m) := Treap.Split(PresentationOrder(sha, canvas), t.left, key);
        ghost var r := Node(m, t.key, t.right);
        current := current.(left := middle);
        assert current == NodeOf(sha, canvas, r);
        StoredStable(d, canvas, View(pending), View(nodes), t.right);
        ghost var kept := nodes;
        right, nodes := Retain(current, nodes, canvas, r);
        StoredStable(d, canvas, View(kept), View(nodes), l);
      }
    }

    /** The new Turn outranks a subtree: split it and put the Turn on top. */
    method Promote(hash: Hash, inserted: TurnId, pending: seq<Entry>, ghost canvas: Bytes, ghost t: Tree<Bytes>)
      returns (status: Status, output: Hash, nodes: seq<Entry>)
      requires Valid() && GenuineEntries(d, pending)
      requires Denotes(d, canvas, View(pending), hash, t) && canvas == inserted.canvas
      requires Covered(d, canvas, Promoted(sha, canvas, t, inserted.text))
      modifies store`statements
      ensures old(store.statements) <= store.statements
      ensures status == if !store.Quiet(old(store.statements), store.statements) then SqlError else Ok
      ensures status == SqlError ==> nodes == pending
      ensures status == Ok ==>
                && pending < nodes && GenuineEntries(d, nodes)
                && Extends(View(pending), View(nodes))
                && Denotes(d, canvas, View(nodes), output, Promoted(sha, canvas, t, inserted.text))
    {
      hide Consistent, CollisionFree, GenuineEntries, Genuine;
      output := ZERO_HASH;
      var left, right;
      status, left, right, nodes := Split(hash, inserted.text, pending, canvas, t);
      if status != Ok {
        return;
      }
      var promoted := StoredNode(inserted, left, right);
      output, nodes := Retain(promoted, nodes, canvas, Promoted(sha, canvas, t, inserted.text));
    }

    /** `insert` on hashes computes `Treap.Insert` on the tree they denote. */
    method Insert(hash: Hash, inserted: TurnId, pending: seq<Entry>, ghost canvas: Bytes, ghost t: Tree<Bytes>)
      returns (status: Status, output: Hash, nodes: seq<Entry>)
      requires Valid() && GenuineEntries(d, pending)
      requires Denotes(d, canvas, View(pending), hash, t)
      requires |inserted.canvas| == 16 && Address.Parse(inserted.text).Some?
      requires t.Leaf? ==> canvas == inserted.canvas
      requires canvas == inserted.canvas ==> InsertCovered(d, canvas, t, inserted.text)
      modifies store`statements
      ensures old(store.statements) <= store.statements
      ensures status == SqlError <==> !store.Quiet(old(store.statements), store.statements)
      ensures status == CorruptData <==> canvas != inserted.canvas && status != SqlError
      ensures status in {Ok, AlreadyExists, CorruptData, SqlError}
      ensures status != Ok ==> nodes == pending
      ensures status == AlreadyExists ==> Treap.Insert(PresentationOrder(sha, canvas), t, inserted.text).None?
      ensures status == Ok ==>
                && Treap.Insert(PresentationOrder(sha, canvas), t, inserted.text).Some?
                && pending < nodes && GenuineEntries(d, nodes)
                && Extends(View(pending), View(nodes))
                && Denotes(d, canvas, View(nodes), output,
                           Treap.Insert(PresentationOrder(sha, canvas), t, inserted.text).value)
      decreases t
    {
      hide Consistent, CollisionFree, GenuineEntries, Genuine;
      NodesMerge(d, store.tables.nodes, pending);
      output, nodes := ZERO_HASH, pending;
      ghost var o := PresentationOrder(sha, canvas);
      if hash == ZERO_HASH {
        var node := StoredNode(inserted, ZERO_HASH, ZERO_HASH);
        ghost var single := Node(Leaf, inserted.text, Leaf);
        output, nodes := Retain(node, pending, canvas, single);
        return Ok, output, nodes;
      }
      var loaded, found := Load(hash, pending);
      if loaded != Ok {
        return loaded, output, nodes;
      }
      var current := found.value;
      assert current == NodeOf(sha, canvas, t);
      StoredNodeParses(d, canvas, View(pending), t);
      var currentAddress := Address.ReadAddress(current.turn.text);
      var insertedAddress := Address.ReadAddress(inserted.text);
      if currentAddress.None? || insertedAddress.None? || current.turn.canvas != inserted.canvas {
        return CorruptData, output, nodes;
      }
      SameMeansSameAddress(sha, canvas, t.key, inserted.text);
      if currentAddress.value == insertedAddress.value {
        return AlreadyExists, output, nodes;
      }
      if Above(sha, inserted, current.turn) {
        status, output, nodes := Promote(hash, inserted, pending, canvas, t);
        return;
      }
      if Address.Less(insertedAddress.value, currentAddress.value) {
        var child;
        status, child, nodes := Insert(current.left, inserted, pending, canvas, t.left);
        if status != Ok {
          return;
        }
        ghost var t' := Node(Treap.Insert(o, t.left, inserted.text).value, t.key, t.right);
        current := current.(left := child);
        assert current == NodeOf(sha, canvas, t');
        StoredStable(d, canvas, View(pending), View(nodes), t.right);
        output, nodes := Retain(current, nodes, canvas, t');
      } else {
        var child;
        status, child, nodes := Insert(current.right, inserted, pending, canvas, t.right);
        if status != Ok {
          return;
        }
        ghost var t' := Node(t.left, t.key, Treap.Insert(o, t.right, inserted.text).value);
        current := current.(right := child);
        assert current == NodeOf(sha, canvas, t');
        StoredStable(d, canvas, View(pending), View(nodes), t.left);
        output, nodes := Retain(current, nodes, canvas, t');
      }
    }

    /**
     Prepare one insertion without advancing the root. Success is exactly a preparation for
     the tree the root denotes; every failure leaves no pending nodes.
     */
    method PrepareInsert(turn: TurnId, ghost canvas: Bytes, ghost t: Tree<Bytes>)
      returns (status: Status, pending: Pending)
      requires Valid() && Denotes(d, canvas, store.tables.nodes, root, t)
      requires t.Leaf? ==> canvas == turn.canvas
      requires canvas == turn.canvas ==> InsertCovered(d, canvas, t, turn.text)
      modifies store`statements
      ensures old(store.statements) <= store.statements
      ensures status == SqlError <==> !store.Quiet(old(store.statements), store.statements)
      ensures status == InvalidArgument <==> |turn.canvas| != 16 || Address.Parse(turn.text).None?
      ensures status == CorruptData ==> canvas != turn.canvas
      ensures status == AlreadyExists ==> Treap.Insert(PresentationOrder(sha, canvas), t, turn.text).None?
      ensures status == Ok ==> canvas == turn.canvas && Prepared(d, canvas, store.tables.nodes, t, turn.text, pending)
      ensures status in {Ok, InvalidArgument, AlreadyExists, CorruptData, SqlError}
      ensures status != Ok ==> pending.nodes == []
    {
      hide Consistent, CollisionFree, Genuine;
      pending := Pending(ZERO_HASH, ZERO_HASH, NO_TURN, []);
      var parsed := Address.ReadAddress(turn.text);
      if parsed.None? || |turn.canvas| != 16 {
        return InvalidArgument, pending;
      }
      var output, nodes;
      status, output, nodes := Insert(root, turn, [], canvas, t);
      pending := Pending(root, output, turn, nodes);
    }

    /** In-order traversal: the listing of the denoted tree. */
    method Collect(hash: Hash, ghost canvas: Bytes, ghost t: Tree<Bytes>)
      returns (status: Status, turns: seq<TurnId>)
      requires Valid() && Denotes(d, canvas, store.tables.nodes, hash, t)
      modifies store`statements
      ensures old(store.statements) <= store.statements
      ensures status == if !store.Quiet(old(store.statements), store.statements) then SqlError else Ok
      ensures status == Ok ==> turns == Ids(canvas, InOrder(t))
      decreases t
    {
      hide Consistent, CollisionFree, Genuine;
      turns := [];
      if hash == ZERO_HASH {
        return Ok, turns;
      }
      var node;
      status, node := Load(hash, []);
      if status != Ok {
        return;
      }
      assert node.value == NodeOf(sha, canvas, t);
      var before, after;
      status, before := Collect(node.value.left, canvas, t.left);
      if status != Ok {
        return status, before;
      }
      turns := before + [node.value.turn];
      status, after := Collect(node.value.right, canvas, t.right);
      turns := turns + after;
    }
  }
}
