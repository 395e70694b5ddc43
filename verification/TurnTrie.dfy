/**
 The Turn trie as values: validation, materialization and child allocators
 (canvas/turn/turn_tree.cpp:16-45, 121-180).
 */
module TurnTrie {
  import opened Basics
  import opened Address
  import opened Hashing
  import opened Trie
  import opened TurnHash

  datatype Status = Ok | InvalidTurn | ParentNotFound | AlreadyExists | AddressExhausted

  // -------------------------------------------------------------- validation

  function Init<T>(s: seq<T>): seq<T>
    requires |s| > 0
  {
    s[..|s| - 1]
  }

  function Last<T>(s: seq<T>): T
    requires |s| > 0
  {
    s[|s| - 1]
  }

  function IdentAddress(id: Ident): Option<TurnAddress> {
    match id.text case None => None case Some(text) => Parse(text)
  }

  /** The checks of `apply` that do not look at the tree. */
  function CheckTurn(turn: Turn): Status {
    if turn.id.None? || turn.id.value.text.None? || turn.id.value.canvas.None? then InvalidTurn
    else
      var address := IdentAddress(turn.id.value);
      if address.None? || |turn.id.value.canvas.value| != 16 then InvalidTurn
      else if Last(address.value).ordinal > U32_MAX then AddressExhausted
      else if turn.parent.None? then
        if |address.value| == 1 && address.value[0].kind.Numeric? then Ok else InvalidTurn
      else if turn.parent.value.canvas != turn.id.value.canvas || IdentAddress(turn.parent.value).None? then InvalidTurn
      else if IdentAddress(turn.parent.value).value != Init(address.value) then InvalidTurn
      else Ok
  }

  predicate ValidTurn(turn: Turn) {
    CheckTurn(turn) == Ok
  }

  function AddressOf(turn: Turn): (a: TurnAddress)
    requires ValidTurn(turn)
    ensures |a| > 0
  {
    IdentAddress(turn.id.value).value
  }

  /** A root Turn needs no parent; a reply needs the Turn one component up. */
  lemma ParentIsInit(turn: Turn)
    requires ValidTurn(turn)
    ensures turn.parent.None? <==> Init(AddressOf(turn)) == []
    ensures turn.parent.Some? ==> IdentAddress(turn.parent.value) == Some(Init(AddressOf(turn)))
    ensures 1 <= Last(AddressOf(turn)).ordinal <= U32_MAX
  {
    ParsedAddressPrints(turn.id.value.text.value);
    if turn.parent.Some? {
      ParsedAddressPrints(turn.parent.value.text.value);
    }
  }

  /** The outcome of `apply` on a tree. */
  function ApplyStatus(ns: Nodes, turn: Turn): Status
    requires WellFormed(ns)
  {
    if CheckTurn(turn) != Ok then CheckTurn(turn)
    else if turn.parent.Some? && Lookup(ns, Init(AddressOf(turn))).None? then ParentNotFound
    else if Lookup(ns, AddressOf(turn)).Some? then AlreadyExists
    else Ok
  }

  // --------------------------------------------------------------- allocators

  /** `advance_past`: zero absorbs everything, and the last ordinal leads to zero. */
  function AdvancePast(next: nat, ordinal: nat): nat {
    var desired := if ordinal == U32_MAX then 0 else ordinal + 1;
    if next != 0 && (desired == 0 || next < desired) then desired else next
  }

  /** `preserve_watermark`. */
  function Watermark(current: nat, rebuilt: nat): nat {
    if current == 0 || rebuilt == 0 then 0 else if current > rebuilt then current else rebuilt
  }

  /** This allocator will never hand out `ordinal` again. */
  predicate Beyond(next: nat, ordinal: nat) {
    next == 0 || ordinal < next
  }

  function Next(v: TurnNode, kind: Kind): nat {
    if kind.Numeric? then v.nextNumeric else v.nextAlphabetic
  }

  function SetNext(v: TurnNode, kind: Kind, next: nat): TurnNode {
    if kind.Numeric? then v.(nextNumeric := next) else v.(nextAlphabetic := next)
  }

  /** Replace the value of a node without touching its place or its Turn. */
  function SetValue(ns: Nodes, i: nat, v: TurnNode): Nodes
    requires i < |ns|
  {
    ns[i := ns[i].(value := v)]
  }

  // -------------------------------------------------------------- materialize

  /** The parent of an applicable Turn is a node already. */
  lemma ParentExists(ns: Nodes, turn: Turn)
    requires WellFormed(ns) && ApplyStatus(ns, turn) == Ok
    ensures Walk(ns, 0, Init(AddressOf(turn))).Some?
  {
    hide WellFormed;
    ParentIsInit(turn);
  }

  /** `insert` with the new Turn's node. */
  function Inserted(ns: Nodes, turn: Turn): (made: Nodes)
    requires WellFormed(ns) && ApplyStatus(ns, turn) == Ok
    ensures WellFormed(made) && Walk(made, 0, Init(AddressOf(turn))).Some?
    ensures Walk(made, 0, Init(AddressOf(turn))) == Walk(ns, 0, Init(AddressOf(turn)))
  {
    ParentExists(ns, turn);
    InsertRefinesUpdate(ns, AddressOf(turn), TurnNode(Some(turn), 1, 1), BLANK, Init(AddressOf(turn)));
    Insert(ns, AddressOf(turn), TurnNode(Some(turn), 1, 1), BLANK)
  }

  /** The trie after a successful `apply`. */
  function ApplyNodes(ns: Nodes, turn: Turn): Nodes
    requires WellFormed(ns) && ApplyStatus(ns, turn) == Ok
  {
    var a := AddressOf(turn);
    var made := Inserted(ns, turn);
    var i := Walk(made, 0, Init(a)).value;
    var v := made[i].value;
    SetValue(made, i, SetNext(v, Last(a).kind, AdvancePast(Next(v, Last(a).kind), Last(a).ordinal)))
  }

  lemma SetValueKeeps(ns: Nodes, i: nat, v: TurnNode, p: seq<Component>)
    requires WellFormed(ns) && i < |ns| && v.turn == ns[i].value.turn
    ensures WellFormed(SetValue(ns, i, v))
    ensures Walk(SetValue(ns, i, v), 0, p) == Walk(ns, 0, p)
    ensures TurnAt(SetValue(ns, i, v), p) == TurnAt(ns, p)
    ensures Lookup(SetValue(ns, i, v), p).Some? <==> Lookup(ns, p).Some?
  {
    hide WellFormed;
    var ns' := SetValue(ns, i, v);
    SameShapeWellFormed(ns, ns');
    NonEmpty(ns);
    SameShapeWalk(ns, ns', 0, p);
  }

  /** Applying a Turn adds exactly that Turn, and every old index keeps its address. */
  lemma ApplyAddsTurn(ns: Nodes, turn: Turn, p: seq<Component>)
    requires WellFormed(ns) && ApplyStatus(ns, turn) == Ok
    ensures var ns' := ApplyNodes(ns, turn);
            && WellFormed(ns')
            && TurnAt(ns', p) == (if p == AddressOf(turn) then Some(Some(turn)) else TurnAt(ns, p))
            && (Lookup(ns', p).Some? <==> p == AddressOf(turn) || Lookup(ns, p).Some?)
            && (Walk(ns, 0, p).Some? ==> Walk(ns', 0, p) == Walk(ns, 0, p))
            && (Walk(ns, 0, p).None? && Walk(ns', 0, p).Some? ==> p == AddressOf(turn))
  {
    hide WellFormed, Insert, CheckTurn;
    var a := AddressOf(turn);
    ParentExists(ns, turn);
    InsertRefinesUpdate(ns, a, TurnNode(Some(turn), 1, 1), BLANK, p);
    var made := Inserted(ns, turn);
    var i := Walk(made, 0, Init(a)).value;
    var v := made[i].value;
    SetValueKeeps(made, i, SetNext(v, Last(a).kind, AdvancePast(Next(v, Last(a).kind), Last(a).ordinal)), p);
    if Walk(ns, 0, p).None? && p <= a && p != a {
      NotBeyondParent(ns, a, p);
    }
  }

  lemma NotBeyondParent(ns: Nodes, a: TurnAddress, p: seq<Component>)
    requires WellFormed(ns) && |a| > 0 && p <= a && p != a && Walk(ns, 0, Init(a)).Some?
    ensures Walk(ns, 0, p).Some?
  {
    hide WellFormed;
    if Walk(ns, 0, p).None? {
      assert Init(a)[..|p|] == p;
      WalkStops(ns, Init(a), |p|);
    }
  }

  // ---------------------------------------------------- what apply leaves alone

  /** Index of the parent of an applicable Turn. */
  function ParentIndex(ns: Nodes, turn: Turn): (i: nat)
    requires WellFormed(ns) && ApplyStatus(ns, turn) == Ok
    ensures Walk(ns, 0, Init(AddressOf(turn))) == Some(i) && i < |ns|
  {
    ParentExists(ns, turn);
    Walk(ns, 0, Init(AddressOf(turn))).value
  }

  /** The new node that `apply` appends. */
  function NewNode(turn: Turn): Node<TurnNode>
    requires ValidTurn(turn)
  {
    Node(Last(AddressOf(turn)), [], true, TurnNode(Some(turn), 1, 1))
  }

  /** The parent after `apply`: one more child, one allocator advanced. */
  function NewParent(ns: Nodes, turn: Turn): Node<TurnNode>
    requires WellFormed(ns) && ApplyStatus(ns, turn) == Ok
    requires InRange(ns, ns[ParentIndex(ns, turn)].children)
  {
    var n, k := ns[ParentIndex(ns, turn)], Last(AddressOf(turn));
    n.(children := InsertAt(n.children, LowerBound(ns, n.children, k), |ns|),
       value := SetNext(n.value, k.kind, AdvancePast(Next(n.value, k.kind), k.ordinal)))
  }

  /** `apply` appends one node and rewrites its parent; every other node is left alone. */
  lemma ApplyExplicit(ns: Nodes, turn: Turn)
    requires WellFormed(ns) && AllTerminal(ns) && ApplyStatus(ns, turn) == Ok
    ensures InRange(ns, ns[ParentIndex(ns, turn)].children)
    ensures Child(ns, ParentIndex(ns, turn), Last(AddressOf(turn))).None?
    ensures ApplyNodes(ns, turn) == ns[ParentIndex(ns, turn) := NewParent(ns, turn)] + [NewNode(turn)]
  {
    hide WellFormed, CheckTurn, Insert;
    var a, i := AddressOf(turn), ParentIndex(ns, turn);
    ParentExists(ns, turn);
    NoSuchChild(ns, turn);
    InsertLeaf(ns, Init(a), Last(a), TurnNode(Some(turn), 1, 1), BLANK);
    assert a == Init(a) + [Last(a)];
  }

  /** Every node holds a Turn, so an absent address has no node. */
  lemma NoSuchChild(ns: Nodes, turn: Turn)
    requires WellFormed(ns) && AllTerminal(ns) && ApplyStatus(ns, turn) == Ok
    ensures Child(ns, ParentIndex(ns, turn), Last(AddressOf(turn))).None?
  {
    hide WellFormed, CheckTurn;
    var a := AddressOf(turn);
    assert a == Init(a) + [Last(a)];
    NonEmpty(ns);
    WalkSnoc(ns, 0, Init(a), Last(a));
  }

  // ------------------------------------------------- what every apply preserves

  /** `v` never hands out the child component `k`. */
  predicate Reserved(v: TurnNode, k: Component) {
    Beyond(Next(v, k.kind), k.ordinal)
  }

  /** The ordinal before `next` in hand-out order; zero comes after the last one. */
  function Before(next: nat): nat {
    if next == 0 then U32_MAX else next - 1
  }

  /** An allocator has moved exactly past some taken address. */
  predicate Tight(v: TurnNode, kind: Kind, p: seq<Component>, taken: set<TurnAddress>) {
    Next(v, kind) <= U32_MAX && (Next(v, kind) == 1 || p + [Component(kind, Before(Next(v, kind)))] in taken)
  }

  /** An address lies below a node whose allocator is beyond it. */
  ghost predicate Guarded(ns: Nodes, a: TurnAddress)
    requires WellFormed(ns)
  {
    |a| > 0 && Walk(ns, 0, Init(a)).Some? && Reserved(ns[Walk(ns, 0, Init(a)).value].value, Last(a))
  }

  /** `taken` are the addresses handed out or materialized; allocators are beyond them and no further. */
  ghost predicate AllocInv(ns: Nodes, taken: set<TurnAddress>)
    requires WellFormed(ns)
  {
    && (forall a :: a in taken ==> Guarded(ns, a))
    && (forall p, kind :: Walk(ns, 0, p).Some? ==> Tight(ns[Walk(ns, 0, p).value].value, kind, p, taken))
  }

  ghost predicate Reached(ns: Nodes, i: nat)
    requires WellFormed(ns)
  {
    exists p :: Walk(ns, 0, p) == Some(i)
  }

  ghost predicate AllReached(ns: Nodes)
    requires WellFormed(ns)
  {
    forall i :: 0 <= i < |ns| ==> Reached(ns, i)
  }

  /** The trie holds exactly these Turns, each at its own address. */
  ghost predicate Holds(ns: Nodes, turns: set<Turn>)
    requires WellFormed(ns)
  {
    && (forall t :: t in turns ==> ValidTurn(t) && TurnAt(ns, AddressOf(t)) == Some(Some(t)))
    && (forall p {:trigger TurnAt(ns, p)} :: TurnAt(ns, p).Some? ==> AtItsAddress(TurnAt(ns, p).value, p, turns))
  }

  predicate AtItsAddress(v: Option<Turn>, p: seq<Component>, turns: set<Turn>) {
    v.Some? && v.value in turns && ValidTurn(v.value) && AddressOf(v.value) == p
  }

  ghost predicate TrieInv(ns: Nodes, turns: set<Turn>) {
    && WellFormed(ns) && AllTerminal(ns) && !ns[0].end
    && AllReached(ns) && Holds(ns, turns)
  }

  /** The empty trie. */
  const FRESH: Nodes := [Node(ROOT_KEY, [], false, BLANK)]

  lemma FreshInv()
    ensures TrieInv(FRESH, {}) && AllocInv(FRESH, {})
  {
    assert WellFormed(FRESH);
    assert Walk(FRESH, 0, []) == Some(0);
    forall p ensures TurnAt(FRESH, p).None? {
      if p != [] {
        var i := Walk(FRESH, 0, p[..|p| - 1]);
        assert i.Some? ==> i.value == 0;
      }
    }
  }

  /** A successful apply keeps every trie invariant and adds exactly its Turn. */
  lemma ApplyInv(ns: Nodes, turns: set<Turn>, turn: Turn)
    requires TrieInv(ns, turns) && ApplyStatus(ns, turn) == Ok
    ensures TrieInv(ApplyNodes(ns, turn), turns + {turn})
  {
    hide WellFormed, Insert, CheckTurn, ApplyNodes, NewParent, Holds, AllReached;
    ApplyAddsTurn(ns, turn, []);
    ApplyExplicit(ns, turn);
    NonEmpty(ns);
    ApplyHolds(ns, turns, turn);
    ApplyReached(ns, turn);
    ApplyTerminal(ns, turn);
  }

  lemma ApplyTerminal(ns: Nodes, turn: Turn)
    requires WellFormed(ns) && AllTerminal(ns) && ApplyStatus(ns, turn) == Ok && !ns[0].end
    requires InRange(ns, ns[ParentIndex(ns, turn)].children)
    ensures var ns' := ns[ParentIndex(ns, turn) := NewParent(ns, turn)] + [NewNode(turn)];
            AllTerminal(ns') && !ns'[0].end
  {
    hide WellFormed, CheckTurn;
    NonEmpty(ns);
  }

  lemma ApplyHolds(ns: Nodes, turns: set<Turn>, turn: Turn)
    requires WellFormed(ns) && Holds(ns, turns) && ApplyStatus(ns, turn) == Ok
    requires WellFormed(ApplyNodes(ns, turn))
    ensures Holds(ApplyNodes(ns, turn), turns + {turn})
  {
    hide WellFormed, Insert, CheckTurn, ApplyNodes, TurnAt;
    var ns' := ApplyNodes(ns, turn);
    assert TurnAt(ns, AddressOf(turn)).None? by {
      NoTurnThere(ns, AddressOf(turn));
    }
    forall t | t in turns + {turn} ensures ValidTurn(t) && TurnAt(ns', AddressOf(t)) == Some(Some(t)) {
      ApplyAddsTurn(ns, turn, AddressOf(t));
    }
    forall p | TurnAt(ns', p).Some? ensures AtItsAddress(TurnAt(ns', p).value, p, turns + {turn}) {
      ApplyAddsTurn(ns, turn, p);
    }
  }

  lemma NoTurnThere(ns: Nodes, p: seq<Component>)
    requires WellFormed(ns) && Lookup(ns, p).None?
    ensures TurnAt(ns, p).None?
  {
  }

  lemma ApplyReached(ns: Nodes, turn: Turn)
    requires WellFormed(ns) && AllTerminal(ns) && AllReached(ns) && ApplyStatus(ns, turn) == Ok
    requires WellFormed(ApplyNodes(ns, turn)) && |ApplyNodes(ns, turn)| == |ns| + 1
    ensures AllReached(ApplyNodes(ns, turn))
  {
    hide WellFormed, Insert, CheckTurn, ApplyNodes, AllTerminal;
    var ns' := ApplyNodes(ns, turn);
    NonEmpty(ns);
    NonEmpty(ns');
    forall i | 0 <= i < |ns'| ensures Reached(ns', i) {
      if i < |ns| {
        assert Reached(ns, i);
        var p :| Walk(ns, 0, p) == Some(i);
        ApplyAddsTurn(ns, turn, p);
      } else {
        ApplyIndex(ns, turn);
      }
    }
  }

  /** The new Turn sits in the appended node. */
  lemma ApplyIndex(ns: Nodes, turn: Turn)
    requires WellFormed(ns) && AllTerminal(ns) && ApplyStatus(ns, turn) == Ok
    requires WellFormed(ApplyNodes(ns, turn))
    ensures Walk(ApplyNodes(ns, turn), 0, AddressOf(turn)) == Some(|ns|)
  {
    hide WellFormed, Insert, CheckTurn, ApplyNodes, AllTerminal;
    var a, ns', i := AddressOf(turn), ApplyNodes(ns, turn), ParentIndex(ns, turn);
    NonEmpty(ns);
    NonEmpty(ns');
    ApplyExplicit(ns, turn);
    ApplyAddsTurn(ns, turn, Init(a));
    assert |ns| in ns'[i].children by {
      assert ns'[i].children[LowerBound(ns, ns[i].children, Last(a))] == |ns|;
    }
    ChildIsUnique(ns', i, |ns|);
    WalkSnoc(ns', 0, Init(a), Last(a));
    assert a == Init(a) + [Last(a)];
  }

  // --------------------------------------------------------------- allocation

  /** The component an allocator hands out next, and the allocator afterwards. */
  function Bumped(v: TurnNode, k: Component): TurnNode {
    SetNext(v, k.kind, AdvancePast(Next(v, k.kind), k.ordinal))
  }

  /** Advancing past `k` reserves `k` and releases nothing. */
  lemma BumpReserves(v: TurnNode, k: Component, other: Component)
    requires k.ordinal <= U32_MAX
    ensures Reserved(Bumped(v, k), k) && (Reserved(v, other) ==> Reserved(Bumped(v, k), other))
  {
  }

  lemma BumpTight(v: TurnNode, k: Component, kind: Kind, p: seq<Component>, taken: set<TurnAddress>)
    requires 1 <= k.ordinal <= U32_MAX && Tight(v, kind, p, taken)
    ensures Tight(Bumped(v, k), kind, p, taken + {p + [k]})
  {
  }

  /** Rewriting the parent's allocator past a component takes exactly that address. */
  lemma BumpInv(ns: Nodes, ns': Nodes, taken: set<TurnAddress>, p: seq<Component>, k: Component)
    requires WellFormed(ns) && WellFormed(ns') && AllocInv(ns, taken)
    requires Walk(ns, 0, p).Some? && 1 <= k.ordinal <= U32_MAX
    requires forall q :: Walk(ns, 0, q).Some? ==> Walk(ns', 0, q) == Walk(ns, 0, q)
    requires |ns| <= |ns'|
    requires forall i :: 0 <= i < |ns| ==>
               ns'[i].value == if Walk(ns, 0, p) == Some(i) then Bumped(ns[i].value, k) else ns[i].value
    requires forall q :: Walk(ns, 0, q).None? && Walk(ns', 0, q).Some? ==>
               var v := ns'[Walk(ns', 0, q).value].value; v.nextNumeric == 1 && v.nextAlphabetic == 1
    ensures AllocInv(ns', taken + {p + [k]})
  {
    hide WellFormed, Walk, Bumped, Tight, Reserved;
    var taken' := taken + {p + [k]};
    NonEmpty(ns);
    forall a | a in taken' ensures Guarded(ns', a) {
      if a in taken {
        assert Guarded(ns, a);
        var i := Walk(ns, 0, Init(a)).value;
        BumpReserves(ns[i].value, k, Last(a));
      } else {
        assert Init(a) == p && Last(a) == k;
        BumpReserves(ns[Walk(ns, 0, p).value].value, k, k);
      }
    }
    forall q, kind | Walk(ns', 0, q).Some? ensures Tight(ns'[Walk(ns', 0, q).value].value, kind, q, taken') {
      if Walk(ns, 0, q).Some? {
        var i := Walk(ns, 0, q).value;
        assert Tight(ns[i].value, kind, q, taken);
        if Walk(ns, 0, p) == Some(i) {
          PathUnique(ns, p, q);
          BumpTight(ns[i].value, k, kind, p, taken);
        } else {
          TightGrows(ns[i].value, kind, q, taken, taken');
        }
      } else {
        FreshTight(ns'[Walk(ns', 0, q).value].value, kind, q, taken');
      }
    }
  }

  lemma TightGrows(v: TurnNode, kind: Kind, p: seq<Component>, taken: set<TurnAddress>, taken': set<TurnAddress>)
    requires Tight(v, kind, p, taken) && taken <= taken'
    ensures Tight(v, kind, p, taken')
  {
  }

  lemma FreshTight(v: TurnNode, kind: Kind, p: seq<Component>, taken: set<TurnAddress>)
    requires v.nextNumeric == 1 && v.nextAlphabetic == 1
    ensures Tight(v, kind, p, taken)
  {
  }

  /** A successful apply takes exactly the address of its Turn. */
  lemma ApplyAlloc(ns: Nodes, taken: set<TurnAddress>, turn: Turn)
    requires WellFormed(ns) && AllTerminal(ns) && AllocInv(ns, taken) && ApplyStatus(ns, turn) == Ok
    requires WellFormed(ApplyNodes(ns, turn))
    ensures AllocInv(ApplyNodes(ns, turn), taken + {AddressOf(turn)})
  {
    hide WellFormed, Insert, CheckTurn, ApplyNodes, Walk, AllTerminal, AllocInv, Bumped;
    var a, ns' := AddressOf(turn), ApplyNodes(ns, turn);
    ParentIsInit(turn);
    ApplyExplicit(ns, turn);
    ApplyIndex(ns, turn);
    NonEmpty(ns);
    NonEmpty(ns');
    forall q ensures Walk(ns, 0, q).Some? ==> Walk(ns', 0, q) == Walk(ns, 0, q)
             ensures Walk(ns, 0, q).None? && Walk(ns', 0, q).Some? ==> q == a
    {
      ApplyAddsTurn(ns, turn, q);
    }
    forall i | 0 <= i < |ns| ensures ns'[i].value ==
      if Walk(ns, 0, Init(a)) == Some(i) then Bumped(ns[i].value, Last(a)) else ns[i].value
    {
      ParentValue(ns, turn);
    }
    BumpInv(ns, ns', taken, Init(a), Last(a));
    assert a == Init(a) + [Last(a)];
  }

  lemma ParentValue(ns: Nodes, turn: Turn)
    requires WellFormed(ns) && ApplyStatus(ns, turn) == Ok
    requires InRange(ns, ns[ParentIndex(ns, turn)].children)
    ensures NewParent(ns, turn).value == Bumped(ns[ParentIndex(ns, turn)].value, Last(AddressOf(turn)))
  {
    hide WellFormed, CheckTurn;
  }

  // --------------------------------------------------------- rehashing a path

  /** The node indexes from the root down to an address. */
  ghost predicate IsPath(ns: Nodes, a: seq<Component>, path: seq<nat>)
    requires WellFormed(ns)
  {
    |path| == |a| + 1 && forall k :: 0 <= k <= |a| ==> Walk(ns, 0, a[..k]) == Some(path[k])
  }

  lemma PathStep(ns: Nodes, a: seq<Component>, path: seq<nat>, k: nat)
    requires WellFormed(ns) && IsPath(ns, a, path) && k < |a|
    ensures path[k] < |ns| && Child(ns, path[k], a[k]) == Some(path[k + 1])
    ensures path[k] < path[k + 1] < |ns| && path[k + 1] in ns[path[k]].children
  {
    hide WellFormed;
    NonEmpty(ns);
    assert Walk(ns, 0, a[..k]) == Some(path[k]) && Walk(ns, 0, a[..k + 1]) == Some(path[k + 1]);
    assert a[..k + 1] == a[..k] + [a[k]];
    WalkSnoc(ns, 0, a[..k], a[k]);
  }

  lemma {:induction false} PathGrows(ns: Nodes, a: seq<Component>, path: seq<nat>, i: nat, j: nat)
    requires WellFormed(ns) && IsPath(ns, a, path) && i <= j <= |a|
    ensures path[i] <= path[j] < |ns|
    decreases j - i
  {
    hide WellFormed, IsPath;
    if i < j {
      PathGrows(ns, a, path, i, j - 1);
      PathStep(ns, a, path, j - 1);
    } else {
      PathNode(ns, a, path, i);
    }
  }

  lemma PathNode(ns: Nodes, a: seq<Component>, path: seq<nat>, i: nat)
    requires WellFormed(ns) && IsPath(ns, a, path) && i <= |a|
    ensures path[i] < |ns|
  {
    hide WellFormed;
    NonEmpty(ns);
    assert Walk(ns, 0, a[..i]) == Some(path[i]);
  }

  /** A child on the path has its parent on the path. */
  lemma ParentOnPath(ns: Nodes, a: seq<Component>, path: seq<nat>, i: nat, c: nat)
    requires WellFormed(ns) && IsPath(ns, a, path) && i < |ns| && c in ns[i].children && c in path
    ensures i in path
  {
    hide IsPath;
    PathSize(ns, a, path);
    var k :| 0 <= k < |path| && path[k] == c;
    if k == 0 {
      RootOfPath(ns, a, path);
    } else {
      PathStep(ns, a, path, k - 1);
      assert c in ns[path[k - 1]].children;
    }
  }

  lemma RootOfPath(ns: Nodes, a: seq<Component>, path: seq<nat>)
    requires WellFormed(ns) && IsPath(ns, a, path)
    ensures |path| > 0 && path[0] == 0
  {
    assert Walk(ns, 0, a[..0]) == Some(path[0]);
  }

  /** Off the path of the new Turn nothing that a hash sees has changed. */
  lemma OffPathUntouched(ns: Nodes, turn: Turn, path: seq<nat>)
    requires WellFormed(ns) && AllTerminal(ns) && ApplyStatus(ns, turn) == Ok
    requires WellFormed(ApplyNodes(ns, turn)) && IsPath(ApplyNodes(ns, turn), AddressOf(turn), path)
    ensures Untouched(ns, ApplyNodes(ns, turn), set i | 0 <= i < |ns| && i !in path)
    ensures |ApplyNodes(ns, turn)| == |ns| + 1 && |ns| in path
  {
    hide WellFormed, Insert, CheckTurn, ApplyNodes, IsPath;
    var ns', a := ApplyNodes(ns, turn), AddressOf(turn);
    var keep := set i | 0 <= i < |ns| && i !in path;
    ApplyExplicit(ns, turn);
    PathEnds(ns, turn, path);
    forall i | i in keep
      ensures i < |ns| && i < |ns'| && SameNode(ns[i], ns'[i]) && forall c :: c in ns[i].children ==> c in keep
    {
      ChildrenForward(ns, i);
      forall c | c in ns[i].children ensures c in keep {
        if c in path {
          ParentOnPath(ns', a, path, i, c);
        }
      }
    }
  }

  lemma PathEnds(ns: Nodes, turn: Turn, path: seq<nat>)
    requires WellFormed(ns) && AllTerminal(ns) && ApplyStatus(ns, turn) == Ok
    requires WellFormed(ApplyNodes(ns, turn)) && IsPath(ApplyNodes(ns, turn), AddressOf(turn), path)
    ensures |ns| in path && ParentIndex(ns, turn) in path
  {
    hide WellFormed, Insert, CheckTurn, ApplyNodes;
    var ns', a := ApplyNodes(ns, turn), AddressOf(turn);
    NonEmpty(ns');
    ApplyIndex(ns, turn);
    ApplyAddsTurn(ns, turn, Init(a));
    assert a[..|a|] == a && a[..|a| - 1] == Init(a);
    assert path[|a|] == |ns| && path[|a| - 1] == ParentIndex(ns, turn);
  }

  /** Every hash off the new path is still a from-scratch hash. */
  lemma OffPathCorrect(cd: Codec, ns: Nodes, hashes: seq<Hash>, turn: Turn, path: seq<nat>, i: nat)
    requires WellFormed(ns) && AllTerminal(ns) && ApplyStatus(ns, turn) == Ok && |hashes| == |ns|
    requires forall j :: 0 < j < |ns| ==> Correct(cd, ns, hashes, j)
    requires WellFormed(ApplyNodes(ns, turn)) && IsPath(ApplyNodes(ns, turn), AddressOf(turn), path)
    requires i < |ApplyNodes(ns, turn)| && i !in path
    ensures |ApplyNodes(ns, turn)| == |ns| + 1
    ensures Correct(cd, ApplyNodes(ns, turn), hashes + [ZERO_HASH], i)
  {
    hide WellFormed, Insert, CheckTurn, ApplyNodes, IsPath, FullHash;
    RootOfPath(ApplyNodes(ns, turn), AddressOf(turn), path);
    OffPathUntouched(ns, turn, path);
    UntouchedHash(cd, ns, ApplyNodes(ns, turn), (set j | 0 <= j < |ns| && j !in path), i);
    assert Correct(cd, ns, hashes, i);
  }

  /** Collect the path, as `apply` does before rehashing. */
  method CollectPath(ns: Nodes, a: seq<Component>) returns (path: seq<nat>)
    requires WellFormed(ns) && Walk(ns, 0, a).Some?
    ensures IsPath(ns, a, path)
  {
    hide WellFormed;
    NonEmpty(ns);
    path := [0];
    var current := 0;
    for k := 0 to |a|
      invariant |path| == k + 1 && path[k] == current
      invariant forall j :: 0 <= j <= k ==> Walk(ns, 0, a[..j]) == Some(path[j])
    {
      assert a[..k + 1] == a[..k] + [a[k]];
      assert Walk(ns, 0, a[..k]) == Some(current);
      WalkSnoc(ns, 0, a[..k], a[k]);
      if Walk(ns, 0, a[..k + 1]).None? {
        WalkStops(ns, a, k + 1);
      }
      var next := FindChild(ns, current, a[k]);
      current := next.value;
      path := path + [current];
    }
  }

  /** Rehash a path from leaf to root; afterwards every stored hash is a from-scratch hash. */
  method RehashPath(cd: Codec, ns: Nodes, before: seq<Hash>, a: seq<Component>, path: seq<nat>) returns (hashes: seq<Hash>)
    requires WellFormed(ns) && IsPath(ns, a, path) && |before| == |ns|
    requires forall i :: 0 <= i < |ns| && i !in path ==> Correct(cd, ns, before, i)
    ensures AllCorrect(cd, ns, hashes)
  {
    hide WellFormed, IsPath, FullHash;
    hashes := before;
    PathSize(ns, a, path);
    assert path[..|path|] == path;
    for k := |path| downto 0
      invariant |hashes| == |ns|
      invariant forall i :: 0 <= i < |ns| && i !in path[..k] ==> Correct(cd, ns, hashes, i)
    {
      PathNode(ns, a, path, k);
      ChildrenForward(ns, path[k]);
      ChildrenInRange(ns, path[k]);
      BelowPath(ns, a, path, k);
      HashNodeIsFull(cd, ns, hashes, path[k]);
      ghost var old_hashes := hashes;
      hashes := hashes[path[k] := HashNode(cd, ns, hashes, path[k])];
      forall i | 0 <= i < |ns| && i !in path[..k] ensures Correct(cd, ns, hashes, i) {
        if i != path[k] {
          assert path[..k + 1] == path[..k] + [path[k]];
          assert Correct(cd, ns, old_hashes, i);
        }
      }
    }
  }

  lemma PathSize(ns: Nodes, a: seq<Component>, path: seq<nat>)
    requires WellFormed(ns) && IsPath(ns, a, path)
    ensures |path| == |a| + 1
  {
  }

  /** The children of a path node lie off the path above it. */
  lemma BelowPath(ns: Nodes, a: seq<Component>, path: seq<nat>, k: nat)
    requires WellFormed(ns) && IsPath(ns, a, path) && k <= |a|
    ensures path[k] < |ns| && forall c :: c in ns[path[k]].children ==> c < |ns| && c !in path[..k + 1]
  {
    hide WellFormed, IsPath;
    PathSize(ns, a, path);
    PathNode(ns, a, path, k);
    ChildrenForward(ns, path[k]);
    forall c | c in ns[path[k]].children ensures c < |ns| && c !in path[..k + 1] {
      if c in path[..k + 1] {
        var j :| 0 <= j < k + 1 && path[j] == c;
        PathGrows(ns, a, path, j, k);
      }
    }
  }
}
