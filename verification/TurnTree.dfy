/** The Turn tree object: apply, allocate and rebuild (canvas/turn/turn_tree.cpp:47-234). */
module TurnTree {
  import opened Basics
  import opened Address
  import opened Hashing
  import opened Trie
  import opened TurnHash
  import opened TurnTrie

  // ------------------------------------------------------------------- hashes

  /** Stored hashes are from-scratch hashes; the root hash is zero until the first Turn. */
  ghost predicate HashInv(cd: Codec, ns: Nodes, hashes: seq<Hash>, root: Hash)
    requires WellFormed(ns)
  {
    && |hashes| == |ns|
    && if |ns| == 1 then root == ZERO_HASH else AllCorrect(cd, ns, hashes) && root == hashes[0]
  }

  lemma HoldSame(ns: Nodes, ns': Nodes, turns: set<Turn>)
    requires WellFormed(ns) && WellFormed(ns') && Holds(ns, turns) && Holds(ns', turns)
    ensures SameTurns(ns, ns')
  {
    hide WellFormed, TurnAt, ValidTurn;
    forall p ensures TurnAt(ns, p) == TurnAt(ns', p) {
      if TurnAt(ns, p).Some? {
        assert AtItsAddress(TurnAt(ns, p).value, p, turns);
      }
      if TurnAt(ns', p).Some? {
        assert AtItsAddress(TurnAt(ns', p).value, p, turns);
      }
    }
  }

  /** Only the fresh trie holds no Turns. */
  lemma EmptyIffAlone(ns: Nodes, turns: set<Turn>)
    requires TrieInv(ns, turns)
    ensures |ns| == 1 <==> turns == {}
  {
    hide WellFormed;
    NonEmpty(ns);
    if |ns| > 1 {
      assert Reached(ns, 1);
      var p :| Walk(ns, 0, p) == Some(1);
      assert TurnAt(ns, p).Some?;
    }
  }

  /** The root hash is a function of the set of Turns, however they arrived. */
  lemma RootOfTurns(cd: Codec, turns: set<Turn>, ns: Nodes, hashes: seq<Hash>, root: Hash,
                    ns': Nodes, hashes': seq<Hash>, root': Hash)
    requires TrieInv(ns, turns) && HashInv(cd, ns, hashes, root)
    requires TrieInv(ns', turns) && HashInv(cd, ns', hashes', root')
    ensures root == root'
  {
    hide WellFormed, AllTerminal, AllReached, Holds, SameTurns, FullHash;
    EmptyIffAlone(ns, turns);
    EmptyIffAlone(ns', turns);
    NonEmpty(ns);
    NonEmpty(ns');
    if |ns| > 1 {
      HoldSame(ns, ns', turns);
      SameTurnsSameHash(cd, ns, ns', [], 0, 0);
      assert Correct(cd, ns, hashes, 0) && Correct(cd, ns', hashes', 0);
    }
  }

  // --------------------------------------------------------------- allocation

  /** The outcome of `allocate_child`. */
  function AllocateStatus(ns: Nodes, canvas: Bytes, parent: Option<Ident>, kind: Kind): Status
    requires WellFormed(ns)
  {
    if |canvas| != 16 || (kind.Alphabetic? && parent.None?) then InvalidTurn
    else if parent.None? then
      if Next(ns[0].value, kind) == 0 then AddressExhausted else Ok
    else if parent.value.canvas != Some(canvas) || IdentAddress(parent.value).None? then InvalidTurn
    else
      var p := IdentAddress(parent.value).value;
      if Lookup(ns, p).None? then ParentNotFound
      else if Next(Lookup(ns, p).value, kind) == 0 then AddressExhausted
      else Ok
  }

  function ParentPath(parent: Option<Ident>): (p: seq<Component>)
    requires parent.Some? ==> IdentAddress(parent.value).Some?
  {
    if parent.None? then [] else IdentAddress(parent.value).value
  }

  /** A Turn shell for an address below a parent is a valid Turn at that address. */
  lemma ShellIsValid(canvas: Bytes, parent: Option<Ident>, k: Component)
    requires |canvas| == 16 && 1 <= k.ordinal <= U32_MAX
    requires parent.None? ==> k.kind.Numeric?
    requires parent.Some? ==> parent.value.canvas == Some(canvas) && IdentAddress(parent.value).Some?
    ensures var a := ParentPath(parent) + [k];
            var t := Turn(Some(Ident(Some(canvas), Some(Print(a)))), parent, []);
            ValidTurn(t) && AddressOf(t) == a
  {
    hide Parse;
    var p := ParentPath(parent);
    if parent.Some? {
      ParsedAddressPrints(parent.value.text.value);
    }
    PrintedAddressParses(p + [k]);
    assert Init(p + [k]) == p && Last(p + [k]) == k;
  }

  /** Only allocators differ. */
  ghost predicate Revalued(ns: Nodes, ns': Nodes) {
    |ns| == |ns'| && forall i :: 0 <= i < |ns| ==> SameNode(ns[i], ns'[i])
  }

  lemma RevaluedWalk(ns: Nodes, ns': Nodes)
    requires WellFormed(ns) && Revalued(ns, ns')
    ensures WellFormed(ns') && forall p :: Walk(ns', 0, p) == Walk(ns, 0, p)
    ensures forall p :: TurnAt(ns', p) == TurnAt(ns, p)
  {
    hide WellFormed;
    assert SameShape(ns, ns');
    SameShapeWellFormed(ns, ns');
    NonEmpty(ns);
    forall p ensures Walk(ns', 0, p) == Walk(ns, 0, p) && TurnAt(ns', p) == TurnAt(ns, p) {
      SameShapeWalk(ns, ns', 0, p);
    }
  }

  lemma RevaluedInv(ns: Nodes, ns': Nodes, turns: set<Turn>)
    requires TrieInv(ns, turns) && Revalued(ns, ns')
    ensures TrieInv(ns', turns)
  {
    hide WellFormed, TurnAt, Walk, ValidTurn;
    RevaluedWalk(ns, ns');
    NonEmpty(ns);
    forall i | 0 <= i < |ns'| ensures Reached(ns', i) {
      assert Reached(ns, i);
    }
  }

  lemma RevaluedHash(cd: Codec, ns: Nodes, ns': Nodes, hashes: seq<Hash>, root: Hash)
    requires WellFormed(ns) && WellFormed(ns') && Revalued(ns, ns') && HashInv(cd, ns, hashes, root)
    ensures HashInv(cd, ns', hashes, root)
  {
    hide WellFormed, FullHash;
    var keep := set i | 0 <= i < |ns| && SameNode(ns[i], ns'[i]);
    forall i | 0 <= i < |ns| ensures forall c :: c in ns[i].children ==> c in keep {
      ChildrenForward(ns, i);
    }
    if |ns| > 1 {
      forall i | 0 <= i < |ns| ensures Correct(cd, ns', hashes, i) {
        assert Correct(cd, ns, hashes, i);
        UntouchedHash(cd, ns, ns', keep, i);
      }
    }
  }

  /** Every materialized address is taken. */
  ghost predicate Owned(turns: set<Turn>, taken: set<TurnAddress>) {
    forall t :: t in turns ==> ValidTurn(t) && AddressOf(t) in taken
  }

  /** The next address of an allocator is neither taken nor materialized. */
  lemma NextIsFree(ns: Nodes, turns: set<Turn>, taken: set<TurnAddress>, p: seq<Component>, i: nat, k: Component)
    requires TrieInv(ns, turns) && AllocInv(ns, taken) && Owned(turns, taken) && Walk(ns, 0, p) == Some(i)
    requires Next(ns[i].value, k.kind) == k.ordinal && 1 <= k.ordinal
    ensures p + [k] !in taken && Lookup(ns, p + [k]).None?
    ensures k.ordinal <= U32_MAX
  {
    hide WellFormed, Walk, ValidTurn;
    assert Init(p + [k]) == p && Last(p + [k]) == k;
    var there := TurnAt(ns, p + [k]);
    assert Tight(ns[i].value, k.kind, p, taken);
  }

  /** A shell at the next address can be applied at once. */
  lemma ShellApplies(ns: Nodes, ns': Nodes, canvas: Bytes, parent: Option<Ident>, k: Component)
    requires WellFormed(ns) && WellFormed(ns') && Revalued(ns, ns')
    requires |canvas| == 16 && 1 <= k.ordinal <= U32_MAX
    requires parent.None? ==> k.kind.Numeric?
    requires parent.Some? ==> parent.value.canvas == Some(canvas) && IdentAddress(parent.value).Some?
    requires parent.Some? ==> Lookup(ns, ParentPath(parent)).Some?
    requires Lookup(ns, ParentPath(parent) + [k]).None?
    ensures var a := ParentPath(parent) + [k];
            var t := Turn(Some(Ident(Some(canvas), Some(Print(a)))), parent, []);
            ApplyStatus(ns', t) == Ok && AddressOf(t) == a
  {
    hide WellFormed, CheckTurn, Walk, Print;
    var a := ParentPath(parent) + [k];
    ShellIsValid(canvas, parent, k);
    RevaluedWalk(ns, ns');
    assert Init(a) == ParentPath(parent);
    var there, parents := TurnAt(ns', a), TurnAt(ns', Init(a));
  }

  /** Moving one allocator on takes its address and changes nothing else. */
  lemma AllocateInv(ns: Nodes, turns: set<Turn>, taken: set<TurnAddress>, p: seq<Component>, i: nat, k: Component)
    requires TrieInv(ns, turns) && AllocInv(ns, taken) && Walk(ns, 0, p) == Some(i)
    requires 1 <= k.ordinal <= U32_MAX
    ensures var ns' := SetValue(ns, i, Bumped(ns[i].value, k));
            Revalued(ns, ns') && TrieInv(ns', turns) && AllocInv(ns', taken + {p + [k]})
  {
    hide WellFormed, AllTerminal, Holds, AllReached, AllocInv, Walk;
    var ns' := SetValue(ns, i, Bumped(ns[i].value, k));
    NonEmpty(ns);
    RevaluedInv(ns, ns', turns);
    RevaluedWalk(ns, ns');
    BumpInv(ns, ns', taken, p, k);
  }

  // -------------------------------------------------------------------- apply

  /** The checks of `apply`, in order. */
  method CheckApply(ns: Nodes, turn: Turn) returns (status: Status)
    requires WellFormed(ns)
    ensures status == ApplyStatus(ns, turn)
  {
    hide WellFormed, CheckTurn;
    status := CheckTurn(turn);
    if status != Ok {
      return;
    }
    var a := AddressOf(turn);
    if turn.parent.Some? {
      var parent := FindNode(ns, Init(a));
      if parent.None? || !ns[parent.value].end {
        return ParentNotFound;
      }
    }
    var existing := FindNode(ns, a);
    if existing.Some? && ns[existing.value].end {
      return AlreadyExists;
    }
  }

  /** Insert the node and advance the parent's allocator past it. */
  method Materialize(ns: Nodes, turn: Turn) returns (made: Nodes)
    requires WellFormed(ns) && ApplyStatus(ns, turn) == Ok
    ensures made == ApplyNodes(ns, turn)
  {
    hide WellFormed, CheckTurn, Insert, Walk;
    var a := AddressOf(turn);
    ParentExists(ns, turn);
    assert Walk(Inserted(ns, turn), 0, Init(a)).Some?;
    var terminal;
    made, terminal := InsertSequence(ns, a, TurnNode(Some(turn), 1, 1), BLANK);
    var parent := FindNode(made, Init(a));
    var i, child := parent.value, Last(a);
    NonEmpty(made);
    var v := made[i].value;
    made := SetValue(made, i, SetNext(v, child.kind, AdvancePast(Next(v, child.kind), child.ordinal)));
  }

  /** Grow the hash array and rehash the path of the new Turn. */
  method Rehash(cd: Codec, ns: Nodes, hashes: seq<Hash>, turn: Turn, made: Nodes) returns (hashes': seq<Hash>)
    requires WellFormed(ns) && AllTerminal(ns) && ApplyStatus(ns, turn) == Ok && |hashes| == |ns|
    requires forall j :: 0 < j < |ns| ==> Correct(cd, ns, hashes, j)
    requires made == ApplyNodes(ns, turn) && WellFormed(made)
    ensures AllCorrect(cd, made, hashes')
  {
    hide WellFormed, CheckTurn, Insert, Walk, ApplyNodes, FullHash, IsPath, Correct, AllTerminal;
    var a := AddressOf(turn);
    ApplyIndex(ns, turn);
    var path := CollectPath(made, a);
    OffPathUntouched(ns, turn, path);
    forall i | 0 <= i < |made| && i !in path ensures Correct(cd, made, hashes + [ZERO_HASH], i) {
      OffPathCorrect(cd, ns, hashes, turn, path, i);
    }
    hashes' := RehashPath(cd, made, hashes + [ZERO_HASH], a, path);
  }

  lemma BelowRootCorrect(cd: Codec, ns: Nodes, hashes: seq<Hash>, root: Hash)
    requires WellFormed(ns) && HashInv(cd, ns, hashes, root)
    ensures |hashes| == |ns| && forall j :: 0 < j < |ns| ==> Correct(cd, ns, hashes, j)
  {
  }

  // ----------------------------------------------------------------- allocate

  /** The part of `allocate_child` before the allocator: whose child is wanted. */
  method FindParent(ns: Nodes, canvas: Bytes, parent: Option<Ident>, kind: Kind) returns (status: Status, i: nat)
    requires WellFormed(ns)
    ensures status != Ok ==> status == AllocateStatus(ns, canvas, parent, kind) && status != AddressExhausted
    ensures status == Ok ==>
              && |canvas| == 16 && (parent.None? ==> kind.Numeric?)
              && (parent.Some? ==> parent.value.canvas == Some(canvas) && IdentAddress(parent.value).Some?)
              && (parent.Some? ==> Lookup(ns, ParentPath(parent)).Some?)
              && i < |ns| && Walk(ns, 0, ParentPath(parent)) == Some(i)
              && AllocateStatus(ns, canvas, parent, kind) == if Next(ns[i].value, kind) == 0 then AddressExhausted else Ok
  {
    hide WellFormed, Parse;
    NonEmpty(ns);
    if |canvas| != 16 || (kind.Alphabetic? && parent.None?) {
      return InvalidTurn, 0;
    }
    if parent.None? {
      return Ok, 0;
    }
    if parent.value.canvas != Some(canvas) || IdentAddress(parent.value).None? {
      return InvalidTurn, 0;
    }
    var found := FindNode(ns, IdentAddress(parent.value).value);
    if found.None? || !ns[found.value].end {
      return ParentNotFound, 0;
    }
    return Ok, found.value;
  }

  lemma TightAt(ns: Nodes, taken: set<TurnAddress>, p: seq<Component>, i: nat, kind: Kind)
    requires WellFormed(ns) && AllocInv(ns, taken) && Walk(ns, 0, p) == Some(i)
    ensures Tight(ns[i].value, kind, p, taken)
  {
    hide WellFormed, Walk;
  }

  // ------------------------------------------------------------------ rebuild

  /** The input of a rebuild as a bag: valid Turns, one per address, each with its parent. */
  ghost predicate Rebuildable(input: multiset<Turn>) {
    && (forall t :: t in input ==> ValidTurn(t) && input[t] == 1)
    && (forall t, u :: t in input && u in input && AddressOf(t) == AddressOf(u) ==> t == u)
    && (forall t :: t in input ==> Init(AddressOf(t)) == [] || HasAddress(input, Init(AddressOf(t))))
  }

  ghost predicate HasAddress(input: multiset<Turn>, a: TurnAddress) {
    exists t :: t in input && ValidTurn(t) && AddressOf(t) == a
  }

  /** The parsed address that `rebuild` sorts by. */
  function SortKey(t: Turn): Option<TurnAddress> {
    if t.id.None? then None else IdentAddress(t.id.value)
  }

  ghost predicate SortedTurns(s: seq<Turn>) {
    && (forall i :: 0 <= i < |s| ==> SortKey(s[i]).Some?)
    && (forall i, j :: 0 <= i < j < |s| ==> !Less(SortKey(s[j]).value, SortKey(s[i]).value))
  }

  /** The comparison sort of `rebuild`; equal addresses may come in any order. */
  method SortTurns(input: seq<Turn>) returns (ordered: seq<Turn>)
    requires forall t :: t in input ==> SortKey(t).Some?
    ensures multiset(ordered) == multiset(input) && SortedTurns(ordered)
  {
    hide SortKey;
    ordered := [];
    for k := 0 to |input|
      invariant multiset(ordered) == multiset(input[..k]) && SortedTurns(ordered)
    {
      var t := input[k];
      assert t in input;
      var at := 0;
      while at < |ordered| && !Less(SortKey(t).value, SortKey(ordered[at]).value)
        invariant at <= |ordered|
        invariant forall j :: 0 <= j < at ==> !Less(SortKey(t).value, SortKey(ordered[j]).value)
      {
        at := at + 1;
      }
      SortedInsertion(ordered, t, at);
      assert input[..k + 1] == input[..k] + [t];
      assert ordered == ordered[..at] + ordered[at..];
      ordered := ordered[..at] + [t] + ordered[at..];
    }
    assert input[..|input|] == input;
  }

  lemma SortedInsertion(s: seq<Turn>, t: Turn, at: nat)
    requires SortedTurns(s) && SortKey(t).Some? && at <= |s|
    requires forall j :: 0 <= j < at ==> !Less(SortKey(t).value, SortKey(s[j]).value)
    requires at < |s| ==> Less(SortKey(t).value, SortKey(s[at]).value)
    ensures SortedTurns(s[..at] + [t] + s[at..])
  {
    hide SortKey, Less;
    AddressOrder();
    var r := s[..at] + [t] + s[at..];
    forall j | at <= j < |s| ensures !Less(SortKey(s[j]).value, SortKey(t).value) {
      assert at < j ==> !Less(SortKey(s[j]).value, SortKey(s[at]).value);
    }
    forall i, j | 0 <= i < j < |r| ensures !Less(SortKey(r[j]).value, SortKey(r[i]).value) {
      var x, y := if i <= at then i else i - 1, if j <= at then j else j - 1;
    }
  }

  /** In address order a rebuildable input offers every parent before its children. */
  lemma NextApplies(ns: Nodes, ordered: seq<Turn>, k: nat)
    requires Rebuildable(multiset(ordered)) && SortedTurns(ordered) && k < |ordered|
    requires WellFormed(ns) && Holds(ns, set t | t in ordered[..k])
    ensures ApplyStatus(ns, ordered[k]) == Ok
  {
    hide WellFormed, Walk, CheckTurn, SortKey, Less;
    var t := ordered[k];
    assert t in multiset(ordered);
    var a := AddressOf(t);
    if Lookup(ns, a).Some? {
      SameAddressTwice(ns, ordered, k);
    }
    if t.parent.Some? {
      ParentIsInit(t);
      var u :| u in multiset(ordered) && ValidTurn(u) && AddressOf(u) == Init(a);
      ParentEarlier(ordered, k, u);
      assert TurnAt(ns, AddressOf(u)).Some?;
    }
  }

  lemma SameAddressTwice(ns: Nodes, ordered: seq<Turn>, k: nat)
    requires Rebuildable(multiset(ordered)) && k < |ordered|
    requires WellFormed(ns) && Holds(ns, set t | t in ordered[..k])
    ensures ordered[k] in multiset(ordered) && Lookup(ns, AddressOf(ordered[k])).None?
  {
    hide WellFormed, Walk, CheckTurn;
    var t := ordered[k];
    assert t in multiset(ordered);
    var here := TurnAt(ns, AddressOf(t));
    if here.Some? {
      var u := here.value.value;
      assert u in ordered[..k];
      assert u in multiset(ordered);
      OnlyOnce(ordered, k);
    }
  }

  lemma OnlyOnce(ordered: seq<Turn>, k: nat)
    requires k < |ordered| && multiset(ordered)[ordered[k]] == 1
    ensures ordered[k] !in ordered[..k]
  {
    assert ordered == ordered[..k] + [ordered[k]] + ordered[k + 1..];
    assert multiset(ordered) == multiset(ordered[..k]) + multiset{ordered[k]} + multiset(ordered[k + 1..]);
  }

  lemma KeyIsAddress(t: Turn)
    requires ValidTurn(t)
    ensures SortKey(t) == Some(AddressOf(t))
  {
  }

  lemma ParentEarlier(ordered: seq<Turn>, k: nat, u: Turn)
    requires SortedTurns(ordered) && k < |ordered| && u in multiset(ordered)
    requires ValidTurn(ordered[k]) && ValidTurn(u) && AddressOf(u) == Init(AddressOf(ordered[k]))
    ensures u in ordered[..k]
  {
    hide CheckTurn, SortKey, Less;
    var a := AddressOf(ordered[k]);
    AncestorComesFirst(AddressOf(u), a);
    KeyIsAddress(ordered[k]);
    KeyIsAddress(u);
    AddressOrder();
    var j :| 0 <= j < |ordered| && ordered[j] == u;
    assert !(k < j) && j != k;
    assert ordered[..k][j] == u;
  }

  /** A successful apply extends a rebuildable bag. */
  lemma AppliedExtends(ns: Nodes, ordered: seq<Turn>, k: nat)
    requires k < |ordered| && Rebuildable(multiset(ordered[..k]))
    requires WellFormed(ns) && Holds(ns, set t | t in ordered[..k])
    requires ApplyStatus(ns, ordered[k]) == Ok
    ensures Rebuildable(multiset(ordered[..k + 1]))
  {
    hide WellFormed, Walk, CheckTurn, Rebuildable, HasAddress;
    var t, m := ordered[k], multiset(ordered[..k]);
    assert ordered[..k + 1] == ordered[..k] + [t];
    assert multiset(ordered[..k + 1]) == m + multiset{t};
    var here := TurnAt(ns, AddressOf(t));
    forall u | u in m ensures ValidTurn(u) && AddressOf(u) != AddressOf(t) {
      assert u in ordered[..k];
      assert TurnAt(ns, AddressOf(u)) == Some(Some(u));
    }
    ParentIsInit(t);
    if t.parent.Some? {
      ParentHeld(ns, ordered[..k], Init(AddressOf(t)));
    }
    RebuildableSnoc(m, t);
  }

  /** One more Turn at a new address below a present parent. */
  lemma RebuildableSnoc(m: multiset<Turn>, t: Turn)
    requires Rebuildable(m) && ValidTurn(t) && forall u :: u in m ==> ValidTurn(u) && AddressOf(u) != AddressOf(t)
    requires Init(AddressOf(t)) == [] || HasAddress(m, Init(AddressOf(t)))
    ensures Rebuildable(m + multiset{t})
  {
    hide CheckTurn, HasAddress;
    var m' := m + multiset{t};
    assert t !in m;
    forall u | u in m' ensures Init(AddressOf(u)) == [] || HasAddress(m', Init(AddressOf(u))) {
      if HasAddress(m, Init(AddressOf(u))) {
        HasAddressGrows(m, t, Init(AddressOf(u)));
      }
    }
  }

  lemma HasAddressGrows(m: multiset<Turn>, t: Turn, a: TurnAddress)
    requires HasAddress(m, a)
    ensures HasAddress(m + multiset{t}, a)
  {
    var w :| w in m && ValidTurn(w) && AddressOf(w) == a;
    assert w in m + multiset{t};
  }

  lemma ParentHeld(ns: Nodes, s: seq<Turn>, p: seq<Component>)
    requires WellFormed(ns) && Holds(ns, set t | t in s) && Lookup(ns, p).Some?
    ensures HasAddress(multiset(s), p)
  {
    hide WellFormed, Walk, CheckTurn;
    assert AtItsAddress(TurnAt(ns, p).value, p, set t | t in s);
    var u := TurnAt(ns, p).value.value;
    assert u in multiset(s);
  }

  // ------------------------------------------------------------- reservations

  /** Both allocators of one node, merged with those it replaces. */
  function Preserve(current: TurnNode, rebuilt: TurnNode): TurnNode {
    rebuilt.(nextNumeric := Watermark(current.nextNumeric, rebuilt.nextNumeric),
             nextAlphabetic := Watermark(current.nextAlphabetic, rebuilt.nextAlphabetic))
  }

  /** A place whose reservations survive: the root, or a Turn of both tries. */
  predicate Shared(ns: Nodes, ns': Nodes, p: seq<Component>)
    requires WellFormed(ns) && WellFormed(ns')
  {
    Walk(ns, 0, p).Some? && Walk(ns', 0, p).Some? && (p == [] || (Lookup(ns, p).Some? && Lookup(ns', p).Some?))
  }

  /** `merged` is `rebuilt` with the allocators of shared places in `done` merged in. */
  ghost predicate MergedFor(ns: Nodes, rebuilt: Nodes, merged: Nodes, done: set<seq<Component>>)
    requires WellFormed(ns) && WellFormed(rebuilt)
  {
    && Revalued(rebuilt, merged)
    && (forall p :: p in done && Shared(ns, rebuilt, p) ==>
          merged[Walk(rebuilt, 0, p).value].value
          == Preserve(ns[Walk(ns, 0, p).value].value, rebuilt[Walk(rebuilt, 0, p).value].value))
    && (forall p :: Walk(rebuilt, 0, p).Some? && !(p in done && Shared(ns, rebuilt, p)) ==>
          merged[Walk(rebuilt, 0, p).value].value == rebuilt[Walk(rebuilt, 0, p).value].value)
  }

  /** `preserve_node` on one shared place. */
  lemma MergeOne(ns: Nodes, rebuilt: Nodes, merged: Nodes, done: set<seq<Component>>, p: seq<Component>)
    requires WellFormed(ns) && WellFormed(rebuilt) && MergedFor(ns, rebuilt, merged, done) && Shared(ns, rebuilt, p)
    ensures var i, j := Walk(ns, 0, p).value, Walk(rebuilt, 0, p).value;
            j < |merged| && MergedFor(ns, rebuilt, SetValue(merged, j, Preserve(ns[i].value, merged[j].value)), done + {p})
  {
    hide WellFormed, Walk, Shared, Preserve;
    var i, j := SharedAt(ns, rebuilt, p);
    PreserveTwice(ns[i].value, rebuilt[j].value);
    var merged' := SetValue(merged, j, Preserve(ns[i].value, merged[j].value));
    assert Revalued(rebuilt, merged');
    forall q | q in done + {p} && Shared(ns, rebuilt, q)
      ensures Walk(ns, 0, q).Some? && Walk(rebuilt, 0, q).Some? &&
              merged'[Walk(rebuilt, 0, q).value].value
              == Preserve(ns[Walk(ns, 0, q).value].value, rebuilt[Walk(rebuilt, 0, q).value].value)
    {
      var x, y := SharedAt(ns, rebuilt, q);
      if y == j {
        PathUnique(rebuilt, p, q);
      }
    }
    forall q | Walk(rebuilt, 0, q).Some? && !(q in done + {p} && Shared(ns, rebuilt, q))
      ensures merged'[Walk(rebuilt, 0, q).value].value == rebuilt[Walk(rebuilt, 0, q).value].value
    {
      if Walk(rebuilt, 0, q) == Some(j) {
        PathUnique(rebuilt, p, q);
      }
    }
  }

  lemma SharedAt(ns: Nodes, rebuilt: Nodes, p: seq<Component>) returns (i: nat, j: nat)
    requires WellFormed(ns) && WellFormed(rebuilt) && Shared(ns, rebuilt, p)
    ensures |ns| > 0 && |rebuilt| > 0
    ensures Walk(ns, 0, p) == Some(i) && i < |ns| && Walk(rebuilt, 0, p) == Some(j) && j < |rebuilt|
  {
    i, j := Walk(ns, 0, p).value, Walk(rebuilt, 0, p).value;
  }

  lemma SkipOne(ns: Nodes, rebuilt: Nodes, merged: Nodes, done: set<seq<Component>>, p: seq<Component>)
    requires WellFormed(ns) && WellFormed(rebuilt) && MergedFor(ns, rebuilt, merged, done)
    requires p in done || !Shared(ns, rebuilt, p)
    ensures MergedFor(ns, rebuilt, merged, done + {p})
  {
    hide WellFormed, Walk, Shared, Preserve;
  }

  lemma RootShared(ns: Nodes, rebuilt: Nodes)
    requires WellFormed(ns) && WellFormed(rebuilt)
    ensures Shared(ns, rebuilt, []) && Walk(ns, 0, []) == Some(0) && Walk(rebuilt, 0, []) == Some(0)
  {
  }

  lemma PreserveTwice(current: TurnNode, rebuilt: TurnNode)
    ensures Preserve(current, Preserve(current, rebuilt)) == Preserve(current, rebuilt)
    ensures Preserve(current, rebuilt).turn == rebuilt.turn
  {
  }

  /** `preserve_reservations`: the root, then every stored address found in both tries. */
  method PreserveReservations(ns: Nodes, rebuilt: Nodes) returns (merged: Nodes)
    requires WellFormed(ns) && WellFormed(rebuilt)
    ensures Revalued(rebuilt, merged)
    ensures forall p :: Shared(ns, rebuilt, p) ==>
              merged[Walk(rebuilt, 0, p).value].value
              == Preserve(ns[Walk(ns, 0, p).value].value, rebuilt[Walk(rebuilt, 0, p).value].value)
    ensures forall p :: Walk(rebuilt, 0, p).Some? && !Shared(ns, rebuilt, p) ==>
              merged[Walk(rebuilt, 0, p).value].value == rebuilt[Walk(rebuilt, 0, p).value].value
  {
    hide WellFormed, Walk, Preserve;
    ghost var done: set<seq<Component>> := {};
    NonEmpty(ns);
    NonEmpty(rebuilt);
    RootShared(ns, rebuilt);
    assert MergedFor(ns, rebuilt, rebuilt, done);
    MergeOne(ns, rebuilt, rebuilt, done, []);
    merged := SetValue(rebuilt, 0, Preserve(ns[0].value, rebuilt[0].value));
    done := done + {[]};
    var addresses := Completions(ns, []);
    for k := 0 to |addresses|
      invariant MergedFor(ns, rebuilt, merged, done)
      invariant [] in done && forall x :: 0 <= x < k ==> addresses[x] in done
    {
      var p := addresses[k];
      var current := FindNode(ns, p);
      var candidate := FindNode(rebuilt, p);
      ghost var before := done;
      done := done + {p};
      if current.None? || candidate.None? || !ns[current.value].end || !rebuilt[candidate.value].end {
        SkipOne(ns, rebuilt, merged, before, p);
      } else {
        MergeOne(ns, rebuilt, merged, before, p);
        merged := SetValue(merged, candidate.value, Preserve(ns[current.value].value, merged[candidate.value].value));
      }
    }
    forall p | Shared(ns, rebuilt, p) ensures p in done {
      if p != [] {
        assert [] <= p;
        assert p in addresses;
      }
    }
  }

  /** The addresses of `taken` whose parent the trie still has. */
  ghost function Kept(taken: set<TurnAddress>, ns: Nodes): set<TurnAddress>
    requires WellFormed(ns)
  {
    set a | a in taken && |a| > 0 && Walk(ns, 0, Init(a)).Some?
  }

  lemma PreserveReserves(current: TurnNode, rebuilt: TurnNode, k: Component)
    requires Reserved(current, k) || Reserved(rebuilt, k)
    ensures Reserved(Preserve(current, rebuilt), k)
  {
  }

  lemma PreserveTight(current: TurnNode, rebuilt: TurnNode, kind: Kind, p: seq<Component>,
                      taken: set<TurnAddress>, taken': set<TurnAddress>, all: set<TurnAddress>)
    requires Tight(current, kind, p, taken) && Tight(rebuilt, kind, p, taken')
    requires taken' <= all && forall k :: p + [k] in taken ==> p + [k] in all
    ensures Tight(Preserve(current, rebuilt), kind, p, all)
  {
  }

  /** After a rebuild no reservation below a surviving parent has been released. */
  lemma PreserveInv(ns: Nodes, taken: set<TurnAddress>, rebuilt: Nodes, taken': set<TurnAddress>, merged: Nodes)
    requires WellFormed(ns) && AllTerminal(ns) && AllocInv(ns, taken)
    requires WellFormed(rebuilt) && AllTerminal(rebuilt) && AllocInv(rebuilt, taken')
    requires WellFormed(merged) && Revalued(rebuilt, merged)
    requires forall p :: Shared(ns, rebuilt, p) ==>
               merged[Walk(rebuilt, 0, p).value].value
               == Preserve(ns[Walk(ns, 0, p).value].value, rebuilt[Walk(rebuilt, 0, p).value].value)
    requires forall p :: Walk(rebuilt, 0, p).Some? && !Shared(ns, rebuilt, p) ==>
               merged[Walk(rebuilt, 0, p).value].value == rebuilt[Walk(rebuilt, 0, p).value].value
    ensures AllocInv(merged, taken' + Kept(taken, merged))
  {
    hide WellFormed, Walk, Preserve, Tight, Reserved, AllTerminal, Shared;
    RevaluedWalk(rebuilt, merged);
    NonEmpty(merged);
    var all := taken' + Kept(taken, merged);
    forall a | a in all ensures Guarded(merged, a) {
      var p := Init(a);
      if a in taken' {
        assert Guarded(rebuilt, a);
      } else {
        assert Guarded(ns, a);
        BothShared(ns, rebuilt, p);
      }
      if Shared(ns, rebuilt, p) {
        var i, j := SharedAt(ns, rebuilt, p);
        PreserveReserves(ns[i].value, rebuilt[j].value, Last(a));
      }
    }
    forall p, kind | Walk(merged, 0, p).Some? ensures Tight(merged[Walk(merged, 0, p).value].value, kind, p, all) {
      var j := Walk(rebuilt, 0, p).value;
      assert Tight(rebuilt[j].value, kind, p, taken');
      if Shared(ns, rebuilt, p) {
        var i, _ := SharedAt(ns, rebuilt, p);
        forall k | p + [k] in taken ensures p + [k] in all {
          assert Init(p + [k]) == p;
        }
        PreserveTight(ns[i].value, rebuilt[j].value, kind, p, taken, taken', all);
      } else {
        TightGrows(rebuilt[j].value, kind, p, taken', all);
      }
    }
  }

  lemma BothShared(ns: Nodes, rebuilt: Nodes, p: seq<Component>)
    requires WellFormed(ns) && AllTerminal(ns) && WellFormed(rebuilt) && AllTerminal(rebuilt)
    requires Walk(ns, 0, p).Some? && Walk(rebuilt, 0, p).Some?
    ensures Shared(ns, rebuilt, p)
  {
  }

  ghost function Addresses(turns: set<Turn>): set<TurnAddress> {
    set t | t in turns && ValidTurn(t) :: AddressOf(t)
  }

  /** `n` comes right after the taken ordinals of one kind below one parent. */
  ghost predicate NextAfter(taken: set<TurnAddress>, p: seq<Component>, kind: Kind, n: nat) {
    && n > 0 && (forall m: nat :: p + [Component(kind, m)] in taken ==> m < n)
    && (n == 1 || p + [Component(kind, n - 1)] in taken)
  }

  /** An allocator that is not exhausted stands right after what was taken. */
  lemma NextComesAfter(ns: Nodes, taken: set<TurnAddress>, p: seq<Component>, i: nat, kind: Kind)
    requires WellFormed(ns) && AllocInv(ns, taken) && Walk(ns, 0, p) == Some(i) && Next(ns[i].value, kind) != 0
    ensures NextAfter(taken, p, kind, Next(ns[i].value, kind))
  {
    hide WellFormed, Walk;
    assert Tight(ns[i].value, kind, p, taken);
    forall m: nat | p + [Component(kind, m)] in taken ensures m < Next(ns[i].value, kind) {
      var a := p + [Component(kind, m)];
      assert Init(a) == p && Last(a) == Component(kind, m);
      assert Guarded(ns, a);
    }
  }

  // ----------------------------------------------------------- what refusals mean

  /** Some Turn of the set has this address. */
  ghost predicate HasTurn(turns: set<Turn>, a: seq<Component>) {
    exists t :: t in turns && ValidTurn(t) && AddressOf(t) == a
  }

  lemma StoredMeansTurn(ns: Nodes, turns: set<Turn>, p: seq<Component>)
    requires TrieInv(ns, turns)
    ensures Lookup(ns, p).Some? <==> HasTurn(turns, p)
  {
    hide WellFormed, CheckTurn, Walk;
    var there := TurnAt(ns, p);
    if there.Some? {
      assert AtItsAddress(there.value, p, turns);
    }
  }

  /** `apply` in terms of the Turns it holds: a valid Turn needs its parent and a free address. */
  lemma ApplyMeans(ns: Nodes, turns: set<Turn>, turn: Turn)
    requires TrieInv(ns, turns)
    ensures ApplyStatus(ns, turn) in {InvalidTurn, AddressExhausted} <==> !ValidTurn(turn)
    ensures ValidTurn(turn) ==>
              ApplyStatus(ns, turn) == if turn.parent.Some? && !HasTurn(turns, Init(AddressOf(turn))) then ParentNotFound
                                       else if HasTurn(turns, AddressOf(turn)) then AlreadyExists else Ok
  {
    CheckAnswers(turn);
    hide WellFormed, CheckTurn, Walk, HasTurn, Lookup;
    if ValidTurn(turn) {
      StoredMeansTurn(ns, turns, Init(AddressOf(turn)));
      StoredMeansTurn(ns, turns, AddressOf(turn));
    }
  }

  /** A Turn is valid exactly when its address is one 32-bit component longer than that of its parent on the same canvas. */
  lemma CheckAnswers(turn: Turn)
    ensures CheckTurn(turn) in {Ok, InvalidTurn, AddressExhausted}
    ensures CheckTurn(turn) == AddressExhausted <==>
            && turn.id.Some? && turn.id.value.canvas.Some? && |turn.id.value.canvas.value| == 16
            && IdentAddress(turn.id.value).Some? && Last(IdentAddress(turn.id.value).value).ordinal > U32_MAX
    ensures CheckTurn(turn) == Ok <==>
            && turn.id.Some? && turn.id.value.canvas.Some? && |turn.id.value.canvas.value| == 16
            && IdentAddress(turn.id.value).Some? && Last(IdentAddress(turn.id.value).value).ordinal <= U32_MAX
            && match turn.parent
               case None => |IdentAddress(turn.id.value).value| == 1 && Last(IdentAddress(turn.id.value).value).kind.Numeric?
               case Some(parent) =>
                 && parent.canvas == turn.id.value.canvas && IdentAddress(parent).Some?
                 && IdentAddress(parent).value + [Last(IdentAddress(turn.id.value).value)] == IdentAddress(turn.id.value).value
  {
    hide Parse;
    if turn.id.Some? && IdentAddress(turn.id.value).Some? {
      var a := IdentAddress(turn.id.value).value;
      assert a == Init(a) + [Last(a)];
      if turn.parent.Some? && IdentAddress(turn.parent.value).Some? {
        var p := IdentAddress(turn.parent.value).value;
        if p + [Last(a)] == a {
          assert Init(a) == p;
        }
      }
    }
  }

  /** The arguments `allocate_child` accepts. */
  predicate GoodRequest(canvas: Bytes, parent: Option<Ident>, kind: Kind) {
    && |canvas| == 16 && (kind.Alphabetic? ==> parent.Some?)
    && (parent.Some? ==> parent.value.canvas == Some(canvas) && IdentAddress(parent.value).Some?)
  }

  /** `allocate_child` in terms of Turns and taken addresses. */
  lemma AllocateMeans(ns: Nodes, turns: set<Turn>, taken: set<TurnAddress>, canvas: Bytes, parent: Option<Ident>, kind: Kind)
    requires TrieInv(ns, turns) && AllocInv(ns, taken)
    ensures AllocateStatus(ns, canvas, parent, kind) ==
              if !GoodRequest(canvas, parent, kind) then InvalidTurn
              else if parent.Some? && !HasTurn(turns, ParentPath(parent)) then ParentNotFound
              else if ParentPath(parent) + [Component(kind, U32_MAX)] in taken then AddressExhausted
              else Ok
  {
    hide WellFormed, Walk, HasTurn, AllocInv, Holds, AllReached, AllTerminal, Parse;
    NonEmpty(ns);
    if GoodRequest(canvas, parent, kind) {
      var p := ParentPath(parent);
      StoredMeansTurn(ns, turns, p);
      RootShared(ns, ns);
      if parent.None? || HasTurn(turns, p) {
        ExhaustedMeans(ns, taken, p, kind);
      }
    }
  }

  lemma ExhaustedMeans(ns: Nodes, taken: set<TurnAddress>, p: seq<Component>, kind: Kind)
    requires WellFormed(ns) && AllocInv(ns, taken) && Walk(ns, 0, p).Some?
    ensures Next(ns[Walk(ns, 0, p).value].value, kind) == 0 <==> p + [Component(kind, U32_MAX)] in taken
  {
    hide WellFormed, Walk;
    var i, last := Walk(ns, 0, p).value, p + [Component(kind, U32_MAX)];
    assert Tight(ns[i].value, kind, p, taken);
    assert Init(last) == p && Last(last) == Component(kind, U32_MAX);
    if last in taken {
      assert Guarded(ns, last);
    }
  }

  // --------------------------------------------------------------- the object

  class TurnTree {
    const cd: Codec
    var nodes: Nodes
    var hashes: seq<Hash>
    var root: Hash
    /** The Turns materialized here. */
    ghost var turns: set<Turn>
    /** The addresses handed out or materialized here. */
    ghost var taken: set<TurnAddress>

    ghost predicate Valid()
      reads this
    {
      && TrieInv(nodes, turns) && HashInv(cd, nodes, hashes, root)
      && AllocInv(nodes, taken) && Owned(turns, taken)
    }

    constructor (cd: Codec)
      ensures Valid() && this.cd == cd && turns == {} && taken == {} && nodes == FRESH && root == ZERO_HASH
    {
      this.cd, nodes, hashes, root, turns, taken := cd, FRESH, [ZERO_HASH], ZERO_HASH, {}, {};
      FreshInv();
    }

    /** Find the Turn at one address. */
    method Find(a: TurnAddress) returns (r: Option<Turn>)
      requires Valid()
      ensures r.Some? ==> ValidTurn(r.value) && r.value in turns && AddressOf(r.value) == a
      ensures r.None? ==> forall t :: t in turns ==> ValidTurn(t) && AddressOf(t) != a
    {
      hide WellFormed, HashInv, AllocInv, ValidTurn;
      var i := FindNode(nodes, a);
      if i.None? || !nodes[i.value].end {
        assert TurnAt(nodes, a).None?;
        return None;
      }
      assert TurnAt(nodes, a).Some?;
      assert AtItsAddress(TurnAt(nodes, a).value, a, turns);
      return nodes[i.value].value.turn;
    }

    /** `apply`: materialize one Turn and rehash its root-to-leaf path. */
    method Apply(turn: Turn) returns (status: Status)
      requires Valid()
      modifies this
      ensures Valid()
      ensures status == ApplyStatus(old(nodes), turn)
      ensures status in {InvalidTurn, AddressExhausted} <==> !ValidTurn(turn)
      ensures ValidTurn(turn) ==>
                status == if turn.parent.Some? && !HasTurn(old(turns), Init(AddressOf(turn))) then ParentNotFound
                          else if HasTurn(old(turns), AddressOf(turn)) then AlreadyExists else Ok
      ensures status != Ok ==> nodes == old(nodes) && hashes == old(hashes) && root == old(root)
      ensures turns == if status == Ok then old(turns) + {turn} else old(turns)
      ensures taken == if status == Ok then old(taken) + {AddressOf(turn)} else old(taken)
    {
      hide WellFormed, Insert, CheckTurn, ApplyNodes, AllTerminal, Holds, AllReached, AllocInv, Walk, NewParent, FullHash, Correct, HasTurn,
           ApplyStatus;
      ApplyMeans(nodes, turns, turn);
      status := CheckApply(nodes, turn);
      if status != Ok {
        return;
      }
      ApplyInv(nodes, turns, turn);
      ApplyAlloc(nodes, taken, turn);
      BelowRootCorrect(cd, nodes, hashes, root);
      var made := Materialize(nodes, turn);
      ApplyExplicit(nodes, turn);
      NonEmpty(nodes);
      hashes := Rehash(cd, nodes, hashes, turn, made);
      nodes := made;
      root := hashes[0];
      turns := turns + {turn};
      taken := taken + {AddressOf(turn)};
    }

    /** `allocate_child`, behind both `reply_to` and `append_part`: the shell is fresh and can be applied. */
    method AllocateChild(canvas: Bytes, parent: Option<Ident>, kind: Kind) returns (status: Status, started: Turn)
      requires Valid()
      modifies this
      ensures Valid() && hashes == old(hashes) && root == old(root) && turns == old(turns)
      ensures status == AllocateStatus(old(nodes), canvas, parent, kind)
      ensures status == if !GoodRequest(canvas, parent, kind) then InvalidTurn
                        else if parent.Some? && !HasTurn(turns, ParentPath(parent)) then ParentNotFound
                        else if ParentPath(parent) + [Component(kind, U32_MAX)] in old(taken) then AddressExhausted
                        else Ok
      ensures status != Ok ==> nodes == old(nodes) && taken == old(taken)
      ensures status == Ok ==>
                && ApplyStatus(nodes, started) == Ok && started.parent == parent
                && started.id == Some(Ident(Some(canvas), Some(Print(AddressOf(started)))))
                && Last(AddressOf(started)).kind == kind
                && AddressOf(started) !in old(taken) && taken == old(taken) + {AddressOf(started)}
                && Init(AddressOf(started)) == ParentPath(parent)
                && NextAfter(old(taken), ParentPath(parent), kind, Last(AddressOf(started)).ordinal)
    {
      hide WellFormed, Walk, Print, AllTerminal, Holds, AllReached, AllocInv, CheckTurn, AllocateStatus, IdentAddress,
           AllCorrect, AdvancePast, ParentPath, ApplyStatus, Owned, AddressOf, HasTurn, GoodRequest, NextAfter;
      AllocateMeans(nodes, turns, taken, canvas, parent, kind);
      started := Turn(None, None, []);
      var i;
      status, i := FindParent(nodes, canvas, parent, kind);
      if status != Ok {
        return;
      }
      ghost var p := ParentPath(parent);
      var ordinal := Next(nodes[i].value, kind);
      TightAt(nodes, taken, p, i, kind);
      if ordinal == 0 {
        status := AddressExhausted;
        return;
      }
      var k := Component(kind, ordinal);
      NextIsFree(nodes, turns, taken, p, i, k);
      NextComesAfter(nodes, taken, p, i, kind);
      assert Init(p + [k]) == p && Last(p + [k]) == k;
      AllocateInv(nodes, turns, taken, p, i, k);
      ghost var bumped := SetValue(nodes, i, Bumped(nodes[i].value, k));
      RevaluedHash(cd, nodes, bumped, hashes, root);
      ShellApplies(nodes, bumped, canvas, parent, k);
      OwnedGrows(turns, taken, p + [k]);
      var replacement := if ordinal == U32_MAX then 0 else ordinal + 1;
      BumpedIsNext(nodes[i].value, k);
      nodes := SetValue(nodes, i, SetNext(nodes[i].value, kind, replacement));
      started := Turn(Some(Ident(Some(canvas), Some(Print(ParentPath(parent) + [k])))), parent, []);
      taken := taken + {p + [k]};
    }

    /** `rebuild`: replace this tree by one built from scratch, keeping live allocator watermarks. */
    method Rebuild(input: seq<Turn>) returns (status: Status)
      requires Valid()
      modifies this
      ensures Valid()
      ensures status == Ok <==> Rebuildable(multiset(input))
      ensures status != Ok ==>
                && nodes == old(nodes) && hashes == old(hashes) && root == old(root)
                && turns == old(turns) && taken == old(taken)
      ensures status == Ok ==> turns == set t | t in input
      ensures status == Ok ==> taken == Addresses(turns) + Kept(old(taken), nodes)
    {
      hide WellFormed, CheckTurn, SortKey, Less, Rebuildable, Holds, AllocInv, AllTerminal, AllReached, Walk, HashInv, Shared,
           Preserve, Kept, Owned, Addresses;
      for k := 0 to |input|
        invariant forall x :: 0 <= x < k ==> SortKey(input[x]).Some?
      {
        if SortKey(input[k]).None? {
          Unsortable(input, k);
          return InvalidTurn;
        }
      }
      var ordered := SortTurns(input);
      var candidate := new TurnTree(cd);
      NothingRebuildable();
      for k := 0 to |ordered|
        invariant unchanged(this) && fresh(candidate) && candidate.Valid() && candidate.cd == cd
        invariant candidate.turns == set t | t in ordered[..k]
        invariant candidate.taken == Addresses(candidate.turns)
        invariant Rebuildable(multiset(ordered[..k]))
      {
        ghost var before := candidate.nodes;
        ghost var held := candidate.turns;
        status := candidate.Apply(ordered[k]);
        if status != Ok {
          if Rebuildable(multiset(ordered)) {
            NextApplies(before, ordered, k);
          }
          return;
        }
        AppliedExtends(before, ordered, k);
        AddressesGrow(held, ordered[k]);
        assert ordered[..k + 1] == ordered[..k] + [ordered[k]];
      }
      assert ordered[..|ordered|] == ordered;
      SameElements(input, ordered);
      var merged := PreserveReservations(nodes, candidate.nodes);
      RevaluedInv(candidate.nodes, merged, candidate.turns);
      RevaluedHash(cd, candidate.nodes, merged, candidate.hashes, candidate.root);
      PreserveInv(nodes, taken, candidate.nodes, candidate.taken, merged);
      AllValid(merged, candidate.turns);
      OwnedAddresses(candidate.turns, Kept(taken, merged));
      nodes, hashes, root := merged, candidate.hashes, candidate.root;
      turns := candidate.turns;
      taken := candidate.taken + Kept(taken, merged);
      status := Ok;
    }
  }

  lemma AllValid(ns: Nodes, turns: set<Turn>)
    requires WellFormed(ns) && Holds(ns, turns)
    ensures forall t :: t in turns ==> ValidTurn(t)
  {
  }

  lemma SameElements(s: seq<Turn>, r: seq<Turn>)
    requires multiset(s) == multiset(r)
    ensures (set t | t in s) == (set t | t in r)
  {
    forall t ensures t in s <==> t in r {
      assert t in s <==> t in multiset(s);
      assert t in r <==> t in multiset(r);
    }
  }

  lemma NothingRebuildable()
    ensures Rebuildable(multiset([])) && Addresses({}) == {}
  {
  }

  lemma Unsortable(input: seq<Turn>, k: nat)
    requires k < |input| && SortKey(input[k]).None?
    ensures !Rebuildable(multiset(input))
  {
    assert input[k] in multiset(input);
  }

  lemma AddressesGrow(turns: set<Turn>, t: Turn)
    requires ValidTurn(t)
    ensures Addresses(turns + {t}) == Addresses(turns) + {AddressOf(t)}
  {
    hide CheckTurn;
  }

  lemma OwnedAddresses(turns: set<Turn>, more: set<TurnAddress>)
    requires forall t :: t in turns ==> ValidTurn(t)
    ensures Owned(turns, Addresses(turns) + more)
  {
    hide CheckTurn;
  }

  lemma OwnedGrows(turns: set<Turn>, taken: set<TurnAddress>, a: TurnAddress)
    requires Owned(turns, taken)
    ensures Owned(turns, taken + {a})
  {
    hide ValidTurn;
  }

  lemma BumpedIsNext(v: TurnNode, k: Component)
    requires Next(v, k.kind) == k.ordinal && 1 <= k.ordinal
    ensures Bumped(v, k) == SetNext(v, k.kind, if k.ordinal == U32_MAX then 0 else k.ordinal + 1)
  {
  }
}
