/**
 Durable Turns and their trie: what the store accepts is what the trie can rebuild
 (canvas/protos/datastore/turn_datastore.cpp:55-194).
 */
module TurnStore {
  import opened Basics
  import opened Address
  import opened TurnHash
  import opened TurnTrie
  import opened TurnTree

  datatype StoreStatus = Done | InvalidArgument | NotFound | Exists | SqlError | SerializationError | CorruptPayload

  /** Where serialization or the database may fail during one operation. */
  datatype Fault = NoFault | Serialize | Begin | ParentQuery | Insert | Commit | Query | Payload

  /** Primary key of the `turns` table: canvas and address text. */
  type Key = (Bytes, Bytes)
  type Rows = map<Key, Turn>

  /** `valid_address`: the address extends its parent by one component. */
  predicate ValidPlace(turn: Turn, a: TurnAddress)
    requires |a| > 0
  {
    if turn.parent.None? then |a| == 1 && a[0].kind.Numeric?
    else IdentAddress(turn.parent.value) == Some(Init(a))
  }

  /** The argument checks of `persist`; `acceptable` stands for those on actor and payload. */
  predicate Acceptable(acceptable: Bytes -> bool, canvas: Bytes, turn: Turn) {
    && |canvas| == 16 && turn.id.Some? && turn.id.value.canvas == Some(canvas) && turn.id.value.text.Some?
    && acceptable(turn.body)
    && (turn.parent.Some? ==> turn.parent.value.canvas == Some(canvas) && turn.parent.value.text.Some?)
    && var a := IdentAddress(turn.id.value);
       a.Some? && ValidPlace(turn, a.value) && Last(a.value).ordinal <= U32_MAX
  }

  /** The store and the tree agree on which Turns are well formed. */
  lemma AcceptableIffValid(acceptable: Bytes -> bool, canvas: Bytes, turn: Turn)
    ensures Acceptable(acceptable, canvas, turn) <==>
            ValidTurn(turn) && turn.id.value.canvas == Some(canvas) && acceptable(turn.body)
  {
    hide Parse;
  }

  function KeyOf(turn: Turn): Key
    requires ValidTurn(turn)
  {
    (turn.id.value.canvas.value, turn.id.value.text.value)
  }

  function ParentKey(turn: Turn): Key
    requires ValidTurn(turn) && turn.parent.Some?
  {
    (turn.parent.value.canvas.value, turn.parent.value.text.value)
  }

  /** Rows hold valid Turns under their own key, and every parent has a row. */
  ghost predicate StoreInv(rows: Rows) {
    && (forall k :: k in rows ==> ValidTurn(rows[k]) && KeyOf(rows[k]) == k)
    && (forall k :: k in rows && rows[k].parent.Some? ==> ParentKey(rows[k]) in rows)
  }

  /** The transaction of `persist`. */
  function PersistStatus(acceptable: Bytes -> bool, rows: Rows, canvas: Bytes, turn: Turn, fault: Fault): StoreStatus {
    if !Acceptable(acceptable, canvas, turn) then InvalidArgument
    else if fault == Serialize then SerializationError
    else if fault == Begin then SqlError
    else if turn.parent.Some? && (fault == ParentQuery || (canvas, turn.parent.value.text.value) !in rows) then NotFound
    else if fault == Insert then SqlError
    else if (canvas, turn.id.value.text.value) in rows then Exists
    else if fault == Commit then SqlError
    else Done
  }

  /** Different texts never name one address of this canvas. */
  ghost predicate OneTextPerAddress(rows: Rows, canvas: Bytes) {
    forall k, l :: k in rows && l in rows && k.0 == canvas && l.0 == canvas && Parse(k.1) == Parse(l.1) ==> k == l
  }

  /** The Turns of one canvas. */
  ghost function TurnsOf(rows: Rows, canvas: Bytes): set<Turn> {
    set k | k in rows && k.0 == canvas :: rows[k]
  }

  ghost function Values(rows: Rows, keys: set<Key>): set<Turn>
    requires keys <= rows.Keys
  {
    set k | k in keys :: rows[k]
  }

  /** Rows under different keys are different Turns. */
  lemma OneMoreRow(rows: Rows, keys: set<Key>, k: Key)
    requires StoreInv(rows) && keys <= rows.Keys && k in rows && k !in keys
    ensures multiset(Values(rows, keys + {k})) == multiset(Values(rows, keys)) + multiset{rows[k]}
  {
    hide CheckTurn;
    assert Values(rows, keys + {k}) == Values(rows, keys) + {rows[k]};
    assert rows[k] !in Values(rows, keys);
  }

  /** An unparsable payload can only be met where there is a row. */
  ghost function LoadStatus(rows: Rows, canvas: Bytes, fault: Fault): StoreStatus {
    if |canvas| != 16 then InvalidArgument
    else if fault == Query then SqlError
    else if fault == Payload && TurnsOf(rows, canvas) != {} then CorruptPayload
    else Done
  }

  lemma RowsOfCanvas(rows: Rows, canvas: Bytes)
    ensures (set k | k in rows && k.0 == canvas) == {} <==> TurnsOf(rows, canvas) == {}
  {
    var keys := set k | k in rows && k.0 == canvas;
    if k :| k in keys {
      assert rows[k] in TurnsOf(rows, canvas);
    }
    if t :| t in TurnsOf(rows, canvas) {
      var k :| k in rows && k.0 == canvas && rows[k] == t;
      assert k in keys;
    }
  }

  /** Some Turn of the set carries this text. */
  ghost predicate HasText(turns: set<Turn>, text: Bytes) {
    exists t :: t in turns && t.id.Some? && t.id.value.text == Some(text)
  }

  lemma RowMeansText(rows: Rows, canvas: Bytes, text: Bytes)
    requires StoreInv(rows)
    ensures (canvas, text) in rows <==> HasText(TurnsOf(rows, canvas), text)
  {
    hide Parse;
    if (canvas, text) in rows {
      assert rows[(canvas, text)] in TurnsOf(rows, canvas);
    }
    if HasText(TurnsOf(rows, canvas), text) {
      var t :| t in TurnsOf(rows, canvas) && t.id.Some? && t.id.value.text == Some(text);
      var k :| k in rows && k.0 == canvas && rows[k] == t;
      assert KeyOf(rows[k]) == k;
    }
  }

  class TurnDatastore {
    const acceptable: Bytes -> bool
    var rows: Rows

    constructor (acceptable: Bytes -> bool)
      ensures this.acceptable == acceptable && rows == map[]
    {
      this.acceptable, rows := acceptable, map[];
    }

    /** `persist`: one row per key, and never a row without its parent. */
    method Persist(canvas: Bytes, turn: Turn, fault: Fault) returns (status: StoreStatus)
      requires StoreInv(rows)
      modifies this
      ensures StoreInv(rows)
      ensures status == PersistStatus(acceptable, old(rows), canvas, turn, fault)
      ensures status == InvalidArgument <==> !(ValidTurn(turn) && turn.id.value.canvas == Some(canvas) && acceptable(turn.body))
      ensures status != InvalidArgument && fault == NoFault ==>
                status == if turn.parent.Some? && !HasText(TurnsOf(old(rows), canvas), turn.parent.value.text.value) then NotFound
                          else if HasText(TurnsOf(old(rows), canvas), turn.id.value.text.value) then Exists
                          else Done
      ensures status != Done ==> rows == old(rows)
      ensures status == Done ==> ValidTurn(turn) && KeyOf(turn) !in old(rows) && rows == old(rows)[KeyOf(turn) := turn]
    {
      hide ValidTurn, HasText, TurnsOf;
      AcceptableIffValid(acceptable, canvas, turn);
      if !Acceptable(acceptable, canvas, turn) {
        return InvalidArgument;
      }
      RowMeansText(rows, canvas, turn.id.value.text.value);
      if turn.parent.Some? {
        RowMeansText(rows, canvas, turn.parent.value.text.value);
      }
      if fault == Serialize {
        return SerializationError;
      }
      if fault == Begin {
        return SqlError;
      }
      if turn.parent.Some? {
        if fault == ParentQuery || (canvas, turn.parent.value.text.value) !in rows {
          return NotFound;
        }
      }
      if fault == Insert {
        return SqlError;
      }
      var key := (canvas, turn.id.value.text.value);
      if key in rows {
        return Exists;
      }
      if fault == Commit {
        return SqlError;
      }
      rows := rows[key := turn];
      status := Done;
    }

    /** `load_all`: every Turn of the canvas once, in any order. */
    method LoadAll(canvas: Bytes, fault: Fault) returns (status: StoreStatus, turns: seq<Turn>)
      requires StoreInv(rows)
      ensures status == LoadStatus(rows, canvas, fault)
      ensures status == Done ==> multiset(turns) == multiset(TurnsOf(rows, canvas))
      ensures status == CorruptPayload ==> turns == []
    {
      hide StoreInv;
      turns := [];
      if |canvas| != 16 {
        return InvalidArgument, turns;
      }
      var pending := set k | k in rows && k.0 == canvas;
      ghost var all := pending;
      RowsOfCanvas(rows, canvas);
      while pending != {}
        invariant pending <= all
        invariant multiset(turns) == multiset(Values(rows, all - pending))
        invariant pending != all ==> fault != Query && fault != Payload
      {
        if fault == Query {
          return SqlError, turns;
        }
        if fault == Payload {
          return CorruptPayload, [];
        }
        var k :| k in pending;
        OneMoreRow(rows, all - pending, k);
        pending := pending - {k};
        assert all - pending == all - (pending + {k}) + {k};
        turns := turns + [rows[k]];
      }
      if fault == Query {
        return SqlError, turns;
      }
      status := Done;
    }
  }

  // -------------------------------------------------------------- rebuildable

  /** What `persist` keeps makes a rebuild succeed exactly when no address has two texts. */
  lemma RebuildsIffOneText(rows: Rows, canvas: Bytes)
    requires StoreInv(rows)
    ensures Rebuildable(multiset(TurnsOf(rows, canvas))) <==> OneTextPerAddress(rows, canvas)
  {
    hide CheckTurn, Parse, Rebuildable;
    if OneTextPerAddress(rows, canvas) {
      OneTextRebuilds(rows, canvas);
    } else {
      var k, l :| k in rows && l in rows && k.0 == canvas && l.0 == canvas && Parse(k.1) == Parse(l.1) && k != l;
      TwoTextsFail(rows, canvas, k, l);
    }
  }

  lemma RowAddress(rows: Rows, k: Key)
    requires StoreInv(rows) && k in rows
    ensures Parse(k.1) == Some(AddressOf(rows[k])) && rows[k].id.value.canvas == Some(k.0)
  {
    hide Parse;
  }

  lemma TwoTextsFail(rows: Rows, canvas: Bytes, k: Key, l: Key)
    requires StoreInv(rows) && k in rows && l in rows && k.0 == canvas && l.0 == canvas
    requires Parse(k.1) == Parse(l.1) && k != l
    ensures !Rebuildable(multiset(TurnsOf(rows, canvas)))
  {
    hide CheckTurn, Parse;
    RowAddress(rows, k);
    RowAddress(rows, l);
    assert rows[k] in TurnsOf(rows, canvas) && rows[l] in TurnsOf(rows, canvas);
  }

  lemma OneTextRebuilds(rows: Rows, canvas: Bytes)
    requires StoreInv(rows) && OneTextPerAddress(rows, canvas)
    ensures Rebuildable(multiset(TurnsOf(rows, canvas)))
  {
    hide CheckTurn, Parse, StoreInv;
    var m := multiset(TurnsOf(rows, canvas));
    forall t | t in m ensures ValidTurn(t) && m[t] == 1 {
      var k := RowOf(rows, canvas, t);
    }
    forall t, u | t in m && u in m && AddressOf(t) == AddressOf(u) ensures t == u {
      var k := RowOf(rows, canvas, t);
      var l := RowOf(rows, canvas, u);
    }
    forall t | t in m ensures Init(AddressOf(t)) == [] || HasAddress(m, Init(AddressOf(t))) {
      ParentHasRow(rows, canvas, t);
    }
  }

  lemma RowOf(rows: Rows, canvas: Bytes, t: Turn) returns (k: Key)
    requires StoreInv(rows) && t in TurnsOf(rows, canvas)
    ensures k in rows && rows[k] == t && k.0 == canvas && ValidTurn(t) && Parse(k.1) == Some(AddressOf(t))
  {
    hide CheckTurn, Parse;
    k :| k in rows && k.0 == canvas && rows[k] == t;
    RowAddress(rows, k);
  }

  lemma ParentHasRow(rows: Rows, canvas: Bytes, t: Turn)
    requires StoreInv(rows) && t in TurnsOf(rows, canvas)
    ensures ValidTurn(t)
    ensures Init(AddressOf(t)) == [] || HasAddress(multiset(TurnsOf(rows, canvas)), Init(AddressOf(t)))
  {
    hide CheckTurn, Parse;
    var k := RowOf(rows, canvas, t);
    ParentIsInit(t);
    if t.parent.Some? {
      var l := ParentKey(t);
      SameCanvas(t);
      RowAddress(rows, l);
      assert rows[l] in TurnsOf(rows, canvas);
      assert rows[l] in multiset(TurnsOf(rows, canvas));
    }
  }

  lemma SameCanvas(t: Turn)
    requires ValidTurn(t) && t.parent.Some?
    ensures t.parent.value.canvas == t.id.value.canvas && IdentAddress(t.parent.value) == Parse(t.parent.value.text.value)
  {
    hide Parse;
  }

  /** Persisting keeps one text per address exactly when the parsed address is new. */
  lemma PersistKeepsOneText(rows: Rows, turn: Turn)
    requires StoreInv(rows) && ValidTurn(turn) && KeyOf(turn) !in rows && OneTextPerAddress(rows, KeyOf(turn).0)
    ensures OneTextPerAddress(rows[KeyOf(turn) := turn], KeyOf(turn).0) <==>
            forall k :: k in rows && k.0 == KeyOf(turn).0 ==> Parse(k.1) != Some(AddressOf(turn))
  {
    hide CheckTurn, Parse;
    KeyParses(turn);
    var rows' := rows[KeyOf(turn) := turn];
    if k :| k in rows && k.0 == KeyOf(turn).0 && Parse(k.1) == Some(AddressOf(turn)) {
      assert k in rows' && KeyOf(turn) in rows';
    }
  }

  lemma KeyParses(turn: Turn)
    requires ValidTurn(turn)
    ensures Parse(KeyOf(turn).1) == Some(AddressOf(turn))
  {
    hide Parse;
  }

  /** A store of texts in printed form has one text per address. */
  lemma PrintedTextsSuffice(rows: Rows, canvas: Bytes)
    requires forall k :: k in rows && k.0 == canvas ==> Canonical(k.1)
    ensures OneTextPerAddress(rows, canvas)
  {
    hide Parse, Print;
  }

  const SAMPLE_CANVAS: Bytes := [0, 0, 0, 0, 0, 0, 0, 0, 0, 0, 0, 0, 0, 0, 0, 0]

  /** `1` and `1.` are both accepted, and then no rebuild of the canvas succeeds. */
  lemma TwinTextsBlockRebuild(acceptable: Bytes -> bool, body: Bytes)
    requires acceptable(body)
    ensures var one := Turn(Some(Ident(Some(SAMPLE_CANVAS), Some([49]))), None, body);
            var twin := Turn(Some(Ident(Some(SAMPLE_CANVAS), Some([49, 46]))), None, body);
            var rows := map[(SAMPLE_CANVAS, [49]) := one];
            && PersistStatus(acceptable, map[], SAMPLE_CANVAS, one, NoFault) == Done
            && PersistStatus(acceptable, rows, SAMPLE_CANVAS, twin, NoFault) == Done
            && !Rebuildable(multiset(TurnsOf(rows[(SAMPLE_CANVAS, [49, 46]) := twin], SAMPLE_CANVAS)))
  {
    hide Rebuildable, Parse;
    var a := [Component(Numeric, 1)];
    OnePrints();
    PrintedAddressParses(a);
    var one := Turn(Some(Ident(Some(SAMPLE_CANVAS), Some([49]))), None, body);
    var twin := Turn(Some(Ident(Some(SAMPLE_CANVAS), Some([49, 46]))), None, body);
    var rows := map[(SAMPLE_CANVAS, [49]) := one, (SAMPLE_CANVAS, [49, 46]) := twin];
    assert map[(SAMPLE_CANVAS, [49]) := one][(SAMPLE_CANVAS, [49, 46]) := twin] == rows;
    assert ValidTurn(one) && ValidTurn(twin);
    TwoTextsFail(rows, SAMPLE_CANVAS, (SAMPLE_CANVAS, [49]), (SAMPLE_CANVAS, [49, 46]));
  }

  lemma OnePrints()
    ensures Print([Component(Numeric, 1)]) == [49] && [49] + [DOT] == [49, 46]
  {
    assert Decimal(1) == [49];
  }
}

/**
 The canvas subsystem's use of store and tree: persist, then update the trie, rebuilding from
 the store when the increment does not apply (canvas/canvas_subsystem.cpp:244-293, 335-367).
 */
module CanvasTurns {
  import opened Basics
  import opened Address
  import opened Hashing
  import opened Trie
  import opened TurnHash
  import opened TurnTrie
  import opened TurnTree
  import opened TurnStore

  datatype Outcome = Updated | CorruptData | UpdateFailed

  ghost predicate NoRepeats(s: seq<TurnAddress>) {
    forall i, j :: 0 <= i < j < |s| ==> s[i] != s[j]
  }

  /** A rebuild that includes every materialized Turn releases no address. */
  lemma CoveredKeepsTaken(ns: Nodes, turns: set<Turn>, taken: set<TurnAddress>, ns': Nodes, turns': set<Turn>)
    requires TrieInv(ns, turns) && AllocInv(ns, taken) && TrieInv(ns', turns') && turns <= turns'
    ensures Kept(taken, ns') == taken
  {
    hide WellFormed, Walk, CheckTurn;
    NonEmpty(ns');
    forall a | a in taken ensures |a| > 0 && Walk(ns', 0, Init(a)).Some? {
      assert Guarded(ns, a);
      var p := Init(a);
      if p == [] {
        RootShared(ns', ns');
      } else {
        StoredAt(ns, turns, p);
        var t := TurnAt(ns, p).value.value;
        assert TurnAt(ns', AddressOf(t)).Some?;
      }
    }
  }

  lemma StoredAt(ns: Nodes, turns: set<Turn>, p: seq<Component>)
    requires TrieInv(ns, turns) && Walk(ns, 0, p).Some? && p != []
    ensures TurnAt(ns, p).Some? && AtItsAddress(TurnAt(ns, p).value, p, turns)
  {
    hide WellFormed, CheckTurn;
    var there := TurnAt(ns, p);
    NonEmpty(ns);
  }

  class Canvas {
    const canvas: Bytes
    const store: TurnDatastore
    const tree: TurnTree
    /** The durable Turn-trie root. */
    var trieRoot: Hash
    /** Every address handed out by this process, in order. */
    ghost var handed: seq<TurnAddress>

    ghost predicate Valid()
      reads this, store, tree
    {
      && |canvas| == 16 && tree.Valid() && StoreInv(store.rows)
      && tree.turns <= TurnsOf(store.rows, canvas)
      && NoRepeats(handed) && forall i :: 0 <= i < |handed| ==> handed[i] in tree.taken
    }

    constructor (canvas: Bytes, store: TurnDatastore, tree: TurnTree, trieRoot: Hash)
      requires |canvas| == 16 && tree.Valid() && StoreInv(store.rows) && tree.turns == {} && tree.taken == {}
      ensures Valid() && this.canvas == canvas && this.store == store && this.tree == tree && handed == []
      ensures this.trieRoot == trieRoot
    {
      this.canvas, this.store, this.tree, this.trieRoot, handed := canvas, store, tree, trieRoot, [];
    }

    /** `reply_to` and `append_part`: no address is ever handed out twice, nor one already materialized. */
    method Allocate(parent: Option<Ident>, kind: Kind) returns (status: Status, started: Turn)
      requires Valid()
      modifies this, tree
      ensures Valid() && trieRoot == old(trieRoot)
      ensures tree.turns == old(tree.turns) && tree.root == old(tree.root)
      ensures status == AllocateStatus(old(tree.nodes), canvas, parent, kind)
      ensures status != Ok ==> handed == old(handed)
      ensures status == Ok ==> GoodRequest(canvas, parent, kind)
      ensures status == Ok ==>
                && ValidTurn(started) && handed == old(handed) + [AddressOf(started)]
                && started.parent == parent && Init(AddressOf(started)) == ParentPath(parent) && Last(AddressOf(started)).kind == kind
                && AddressOf(started) !in old(handed) && AddressOf(started) !in Addresses(tree.turns)
    {
      hide WellFormed, Holds, AllReached, AllTerminal, HashInv, AllocInv, ApplyStatus, AllocateStatus, StoreInv, CheckTurn, Owned;
      status, started := tree.AllocateChild(canvas, parent, kind);
      if status == Ok {
        ApplicableIsValid(tree.nodes, started);
        OwnedNotFree(tree.turns, old(tree.taken), AddressOf(started));
        handed := handed + [AddressOf(started)];
      }
    }

    /** `persist_turn`. */
    method PersistTurn(turn: Turn, fault: Fault) returns (status: StoreStatus)
      requires Valid()
      modifies store
      ensures Valid()
      ensures status == PersistStatus(store.acceptable, old(store.rows), canvas, turn, fault)
      ensures status != Done ==> store.rows == old(store.rows)
      ensures status == Done ==> TurnsOf(store.rows, canvas) == TurnsOf(old(store.rows), canvas) + {turn}
    {
      hide TrieInv, HashInv, AllocInv, StoreInv, CheckTurn, PersistStatus;
      status := store.Persist(canvas, turn, fault);
      if status == Done {
        PersistedCanvas(store.acceptable, old(store.rows), canvas, turn, fault);
        NewRow(old(store.rows), canvas, turn);
      }
    }

    /**
     `update_trie` for a persisted Turn. Tree logic reports corruption exactly when two texts name one
     address; otherwise the tree holds its Turn, nothing outside the store, and all it held before.
     */
    method UpdateTrie(turn: Turn, load: Fault, updates: bool) returns (outcome: Outcome)
      requires Valid() && turn in TurnsOf(store.rows, canvas)
      modifies this, tree
      ensures Valid() && handed == old(handed) && old(tree.taken) <= tree.taken && old(tree.turns) <= tree.turns
      ensures outcome == CorruptData <==>
              ApplyStatus(old(tree.nodes), turn) != Ok
              && (LoadStatus(store.rows, canvas, load) != Done || !OneTextPerAddress(store.rows, canvas))
      ensures outcome == CorruptData ==> tree.turns == old(tree.turns) && tree.root == old(tree.root)
      ensures outcome != CorruptData ==> turn in tree.turns
      ensures outcome == Updated <==> outcome != CorruptData && updates
      ensures trieRoot == if outcome == Updated then tree.root else old(trieRoot)
    {
      hide TrieInv, HashInv, AllocInv, StoreInv, CheckTurn, Owned, ApplyStatus, OneTextPerAddress, Rebuildable, TurnsOf;
      var status := tree.Apply(turn);
      if status != Ok {
        var loaded, stored := store.LoadAll(canvas, load);
        if loaded != Done {
          return CorruptData;
        }
        RebuildsIffOneText(store.rows, canvas);
        status := RebuildFrom(stored);
        if status != Ok {
          return CorruptData;
        }
      }
      if !updates {
        return UpdateFailed;
      }
      trieRoot := tree.root;
      outcome := Updated;
    }

    /** A rebuild from everything in the store. */
    method RebuildFrom(stored: seq<Turn>) returns (status: Status)
      requires Valid() && multiset(stored) == multiset(TurnsOf(store.rows, canvas))
      modifies tree
      ensures Valid() && old(tree.taken) <= tree.taken && old(tree.turns) <= tree.turns
      ensures status == Ok <==> Rebuildable(multiset(stored))
      ensures status == Ok ==> tree.turns == TurnsOf(store.rows, canvas)
      ensures status != Ok ==> tree.turns == old(tree.turns) && tree.taken == old(tree.taken) && tree.root == old(tree.root)
    {
      hide TrieInv, HashInv, AllocInv, StoreInv, CheckTurn, Owned, Rebuildable, TurnsOf, Kept;
      ghost var ns, turns, taken := tree.nodes, tree.turns, tree.taken;
      status := tree.Rebuild(stored);
      if status == Ok {
        SameMembers(stored, TurnsOf(store.rows, canvas));
        CoveredKeepsTaken(ns, turns, taken, tree.nodes, tree.turns);
      }
    }

    /** The restore part of `initialize`: the tree becomes exactly the durable Turns. */
    method Restore(load: Fault, updates: bool) returns (ok: bool)
      requires Valid()
      modifies this, tree
      ensures Valid() && handed == old(handed)
      ensures ok <==> LoadStatus(store.rows, canvas, load) == Done && OneTextPerAddress(store.rows, canvas) && (TurnsOf(store.rows, canvas) == {} || updates)
      ensures ok ==> tree.turns == TurnsOf(store.rows, canvas)
      ensures ok && tree.turns != {} ==> trieRoot == tree.root
    {
      hide TrieInv, HashInv, AllocInv, StoreInv, CheckTurn, Owned, OneTextPerAddress, Rebuildable, TurnsOf;
      var loaded, stored := store.LoadAll(canvas, load);
      if loaded != Done {
        return false;
      }
      RebuildsIffOneText(store.rows, canvas);
      var status := RebuildFrom(stored);
      if status != Ok {
        return false;
      }
      SameMembers(stored, TurnsOf(store.rows, canvas));
      if |stored| > 0 {
        assert stored[0] in TurnsOf(store.rows, canvas);
        if !updates {
          return false;
        }
        trieRoot := tree.root;
      }
      ok := true;
    }
  }

  lemma SameMembers(s: seq<Turn>, ts: set<Turn>)
    requires multiset(s) == multiset(ts)
    ensures (set t | t in s) == ts && (s == [] <==> ts == {})
    ensures forall t :: t in s <==> t in ts
  {
    forall t ensures t in s <==> t in ts {
      assert t in s <==> t in multiset(s);
      assert t in ts <==> t in multiset(ts);
    }
    if s != [] {
      assert s[0] in ts;
    }
  }

  lemma ApplicableIsValid(ns: Nodes, t: Turn)
    requires WellFormed(ns) && ApplyStatus(ns, t) == Ok
    ensures ValidTurn(t)
  {
  }

  lemma OwnedNotFree(turns: set<Turn>, taken: set<TurnAddress>, a: TurnAddress)
    requires Owned(turns, taken) && a !in taken
    ensures a !in Addresses(turns)
  {
    hide CheckTurn;
  }

  lemma PersistedCanvas(acceptable: Bytes -> bool, rows: Rows, canvas: Bytes, turn: Turn, fault: Fault)
    requires PersistStatus(acceptable, rows, canvas, turn, fault) == Done
    ensures ValidTurn(turn) && KeyOf(turn).0 == canvas
  {
    AcceptableIffValid(acceptable, canvas, turn);
  }

  lemma NewRow(rows: Rows, canvas: Bytes, turn: Turn)
    requires ValidTurn(turn) && KeyOf(turn) !in rows && KeyOf(turn).0 == canvas
    ensures TurnsOf(rows[KeyOf(turn) := turn], canvas) == TurnsOf(rows, canvas) + {turn}
  {
    hide CheckTurn;
    var rows' := rows[KeyOf(turn) := turn];
    forall t | t in TurnsOf(rows, canvas) + {turn} ensures t in TurnsOf(rows', canvas) {
      if t in TurnsOf(rows, canvas) {
        var k :| k in rows && k.0 == canvas && rows[k] == t;
        assert k in rows' && rows'[k] == t;
      } else {
        assert rows'[KeyOf(turn)] == t;
      }
    }
  }
}
