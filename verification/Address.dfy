/**
 Hierarchical Turn addresses: printing, parsing and presentation order
 (canvas/turn/address.cpp, canvas/turn/address.hpp).
 */
module Address {
  import opened Basics

  datatype Kind = Numeric | Alphabetic

  datatype Component = Component(kind: Kind, ordinal: nat)

  /** Components from root to leaf. */
  type TurnAddress = seq<Component>

  const DOT: byte := 46
  const ZERO_DIGIT: byte := 48
  const LETTER_A: byte := 97

  /** Ordinals are one-based and fit a `std::uint64_t`. */
  predicate ValidComponent(c: Component) {
    1 <= c.ordinal <= U64_MAX
  }

  predicate ValidAddress(a: TurnAddress) {
    |a| > 0 && forall i :: 0 <= i < |a| ==> ValidComponent(a[i])
  }

  // ---------------------------------------------------------------- numerals

  predicate IsDigit(b: byte) { ZERO_DIGIT <= b <= 57 }

  predicate IsLetter(b: byte) { LETTER_A <= b <= 122 }

  predicate AllDigits(s: Bytes) { forall i :: 0 <= i < |s| ==> IsDigit(s[i]) }

  predicate AllLetters(s: Bytes) { forall i :: 0 <= i < |s| ==> IsLetter(s[i]) }

  /** `std::to_string` on an unsigned value. */
  function Decimal(n: nat): (s: Bytes)
    ensures |s| > 0 && AllDigits(s)
    ensures n > 0 ==> s[0] != ZERO_DIGIT
  {
    if n < 10 then [48 + n] else Decimal(n / 10) + [48 + n % 10]
  }

  function DecimalValue(s: Bytes): nat
    requires AllDigits(s)
  {
    if s == [] then 0 else DecimalValue(s[..|s| - 1]) * 10 + (s[|s| - 1] - 48)
  }

  /** Bijective base 26: `a` is 1, `z` is 26, `aa` is 27. */
  function Letters(n: nat): (s: Bytes)
    ensures AllLetters(s)
    ensures |s| == 0 <==> n == 0
  {
    if n == 0 then [] else Letters((n - 1) / 26) + [97 + (n - 1) % 26]
  }

  function LettersValue(s: Bytes): nat
    requires AllLetters(s)
  {
    if s == [] then 0 else LettersValue(s[..|s| - 1]) * 26 + (s[|s| - 1] - 96)
  }

  lemma {:induction false} DecimalRoundTrip(n: nat)
    ensures DecimalValue(Decimal(n)) == n
  {
    if n >= 10 {
      DecimalRoundTrip(n / 10);
      assert Decimal(n)[..|Decimal(n)| - 1] == Decimal(n / 10);
    }
  }

  lemma {:induction false} DecimalCanonical(s: Bytes)
    requires AllDigits(s) && |s| > 0 && s[0] != ZERO_DIGIT
    ensures DecimalValue(s) > 0
    ensures Decimal(DecimalValue(s)) == s
  {
    var init := s[..|s| - 1];
    if init == [] {
      assert DecimalValue(init) == 0;
      assert s == [s[0]];
    } else {
      DecimalCanonical(init);
      var v := DecimalValue(init);
      assert (v * 10 + (s[|s| - 1] - 48)) / 10 == v;
      assert s == init + [s[|s| - 1]];
    }
  }

  lemma {:induction false} LettersRoundTrip(n: nat)
    ensures LettersValue(Letters(n)) == n
  {
    if n > 0 {
      LettersRoundTrip((n - 1) / 26);
      assert Letters(n)[..|Letters(n)| - 1] == Letters((n - 1) / 26);
    }
  }

  lemma {:induction false} LettersCanonical(s: Bytes)
    requires AllLetters(s)
    ensures Letters(LettersValue(s)) == s
    ensures |s| > 0 ==> LettersValue(s) > 0
  {
    if s != [] {
      var init := s[..|s| - 1];
      LettersCanonical(init);
      var v := LettersValue(init);
      var d := s[|s| - 1] - 97;
      assert LettersValue(s) - 1 == v * 26 + d;
      assert (v * 26 + d) / 26 == v;
      assert s == init + [s[|s| - 1]];
    }
  }

  /** Extending a numeral never lowers its value, so an overflowing prefix dooms the whole. */
  lemma {:induction false} LettersValueGrows(s: Bytes, k: nat)
    requires AllLetters(s) && k <= |s|
    ensures LettersValue(s[..k]) <= LettersValue(s)
    decreases |s|
  {
    if k == |s| {
      assert s[..k] == s;
    } else {
      var init := s[..|s| - 1];
      LettersValueGrows(init, k);
      assert init[..k] == s[..k];
    }
  }

  lemma {:induction false} DecimalValueGrows(s: Bytes, k: nat)
    requires AllDigits(s) && k <= |s|
    ensures DecimalValue(s[..k]) <= DecimalValue(s)
    decreases |s|
  {
    if k == |s| {
      assert s[..k] == s;
    } else {
      var init := s[..|s| - 1];
      DecimalValueGrows(init, k);
      assert init[..k] == s[..k];
    }
  }

  // -------------------------------------------------------------- components

  function PrintComponent(c: Component): Bytes {
    if c.kind.Numeric? then Decimal(c.ordinal) else Letters(c.ordinal)
  }

  /** What `parse_component` accepts: a canonical numeral that fits 64 bits. */
  function ParseComponent(text: Bytes): Option<Component> {
    if text == [] then None
    else if IsDigit(text[0]) then
      if text[0] == ZERO_DIGIT || !AllDigits(text) || DecimalValue(text) > U64_MAX then None
      else Some(Component(Numeric, DecimalValue(text)))
    else
      if !AllLetters(text) || LettersValue(text) > U64_MAX then None
      else Some(Component(Alphabetic, LettersValue(text)))
  }

  lemma PrintedComponentParses(c: Component)
    requires ValidComponent(c)
    ensures ParseComponent(PrintComponent(c)) == Some(c)
    ensures PrintComponent(c) != [] && DOT !in PrintComponent(c)
  {
    DecimalRoundTrip(c.ordinal);
    LettersRoundTrip(c.ordinal);
  }

  lemma ParsedComponentPrints(text: Bytes)
    ensures var r := ParseComponent(text);
            r.Some? ==> ValidComponent(r.value) && PrintComponent(r.value) == text
  {
    if text != [] && AllDigits(text) && text[0] != ZERO_DIGIT {
      DecimalCanonical(text);
    }
    if text != [] && AllLetters(text) {
      LettersCanonical(text);
    }
  }

  /** `std::from_chars` over the whole view: digits only, and no 64-bit overflow. */
  method FromChars(text: Bytes) returns (r: Option<nat>)
    ensures r == if AllDigits(text) && DecimalValue(text) <= U64_MAX then Some(DecimalValue(text)) else None
  {
    var value := 0;
    for i := 0 to |text|
      invariant AllDigits(text[..i])
      invariant value == DecimalValue(text[..i]) <= U64_MAX
    {
      if !IsDigit(text[i]) {
        return None;
      }
      assert text[..i + 1][..i] == text[..i];
      value := value * 10 + (text[i] - 48);
      if value > U64_MAX {
        if AllDigits(text) {
          DecimalValueGrows(text, i + 1);
        }
        return None;
      }
    }
    assert text[..|text|] == text;
    return Some(value);
  }

  /** `parse_component`; its multiplication guard rejects exactly the values above 2^64-1. */
  method ReadComponent(text: Bytes) returns (r: Option<Component>)
    ensures r == ParseComponent(text)
  {
    if text == [] {
      return None;
    }
    if IsDigit(text[0]) {
      if text[0] == ZERO_DIGIT {
        return None;
      }
      var number := FromChars(text);
      if number.Some? {
        DecimalCanonical(text);
      }
      return match number case None => None case Some(value) => Some(Component(Numeric, value));
    }
    var value := 0;
    for i := 0 to |text|
      invariant AllLetters(text[..i])
      invariant value == LettersValue(text[..i]) <= U64_MAX
    {
      if !IsLetter(text[i]) {
        return None;
      }
      var digit := text[i] - 97 + 1;
      assert text[..i + 1][..i] == text[..i];
      assert LettersValue(text[..i + 1]) == value * 26 + digit;
      if value > (U64_MAX - digit) / 26 {
        if AllLetters(text) {
          LettersValueGrows(text, i + 1);
        }
        return None;
      }
      value := value * 26 + digit;
    }
    assert text[..|text|] == text;
    return Some(Component(Alphabetic, value));
  }

  /** `alphabetic`: least significant letter first, then reversed. */
  method RenderLetters(ordinal: nat) returns (text: Bytes)
    ensures text == Letters(ordinal)
  {
    var n := ordinal;
    text := [];
    while n > 0
      invariant Letters(ordinal) == Letters(n) + text
    {
      n := n - 1;
      text := [97 + n % 26] + text;
      n := n / 26;
    }
  }

  // --------------------------------------------------------------- addresses

  /** Dotted text of a nonempty address. */
  function Print(a: TurnAddress): Bytes
    requires |a| > 0
  {
    if |a| == 1 then PrintComponent(a[0])
    else PrintComponent(a[0]) + [DOT] + Print(a[1..])
  }

  function ParseComponents(text: Bytes): (r: Option<TurnAddress>)
    requires text != []
    ensures r.Some? ==> |r.value| > 0
    decreases |text|
  {
    var end := IndexOf(text, DOT);
    match ParseComponent(text[..end])
    case None => None
    case Some(c) =>
      if end + 1 >= |text| then Some([c])
      else match ParseComponents(text[end + 1..])
           case None => None
           case Some(rest) => Some([c] + rest)
  }

  /** `TurnAddress::parse`; a single dot after the last component is accepted. */
  function Parse(text: Bytes): (r: Option<TurnAddress>)
    ensures r.Some? ==> |r.value| > 0
  {
    if text == [] then None else ParseComponents(text)
  }

  lemma FirstDot(head: Bytes, tail: Bytes)
    requires DOT !in head
    ensures IndexOf(head + [DOT] + tail, DOT) == |head|
    ensures IndexOf(head, DOT) == |head|
  {
    var t := head + [DOT] + tail;
    var i := IndexOf(t, DOT);
    assert t[|head|] == DOT;
  }

  /** Parsing a printed address, with or without one trailing dot, gives it back. */
  lemma {:induction false} PrintedAddressParses(a: TurnAddress)
    requires ValidAddress(a)
    ensures Print(a) != []
    ensures Parse(Print(a)) == Some(a)
    ensures Parse(Print(a) + [DOT]) == Some(a)
    decreases |a|
  {
    hide PrintComponent, ParseComponent;
    var head := PrintComponent(a[0]);
    PrintedComponentParses(a[0]);
    if |a| == 1 {
      FirstDot(head, []);
      assert head + [DOT] + [] == head + [DOT];
      assert a == [a[0]];
      assert Print(a)[..|head|] == head && (Print(a) + [DOT])[..|head|] == head;
    } else {
      var rest := a[1..];
      PrintedAddressParses(rest);
      var t0, t1 := Print(a), Print(a) + [DOT];
      assert t0 == head + [DOT] + Print(rest);
      assert t1 == head + [DOT] + (Print(rest) + [DOT]);
      FirstDot(head, Print(rest));
      FirstDot(head, Print(rest) + [DOT]);
      assert t0[..|head|] == head && t1[..|head|] == head;
      assert t0[|head| + 1..] == Print(rest) && t1[|head| + 1..] == Print(rest) + [DOT];
      assert a == [a[0]] + rest;
    }
  }

  /** Accepted text is the printed form of its address, optionally followed by one dot. */
  lemma {:induction false} ParsedAddressPrints(text: Bytes)
    requires Parse(text).Some?
    ensures ValidAddress(Parse(text).value)
    ensures text == Print(Parse(text).value) || text == Print(Parse(text).value) + [DOT]
    decreases |text|
  {
    hide PrintComponent, ParseComponent;
    var end := IndexOf(text, DOT);
    ParsedComponentPrints(text[..end]);
    var c := ParseComponent(text[..end]).value;
    if end == |text| {
      assert text[..end] == text;
    } else if end + 1 == |text| {
      assert text == text[..end] + [DOT];
    } else {
      var tail := text[end + 1..];
      ParsedAddressPrints(tail);
      var rest := Parse(tail).value;
      PrintCons(c, rest);
      var head := text[..end];
      assert text == head + [DOT] + tail;
      assert Parse(text) == Some([c] + rest);
      if tail == Print(rest) + [DOT] {
        assert head + [DOT] + (Print(rest) + [DOT]) == head + [DOT] + Print(rest) + [DOT];
      }
    }
  }

  lemma PrintCons(c: Component, rest: TurnAddress)
    requires |rest| > 0
    ensures Print([c] + rest) == PrintComponent(c) + [DOT] + Print(rest)
  {
    assert ([c] + rest)[1..] == rest;
  }

  /** The text `TurnAddress::string` would produce for what it parses to. */
  predicate Canonical(text: Bytes) {
    Parse(text).Some? && Print(Parse(text).value) == text
  }

  /** Exactly the accepted texts that do not end in a dot are canonical. */
  lemma CanonicalIffNoTrailingDot(text: Bytes)
    requires Parse(text).Some?
    ensures Canonical(text) <==> text[|text| - 1] != DOT
  {
    ParsedAddressPrints(text);
    var a := Parse(text).value;
    PrintedEndsInNumeral(a);
    if text == Print(a) + [DOT] {
      assert |text| == |Print(a)| + 1;
    }
  }

  lemma {:induction false} PrintedEndsInNumeral(a: TurnAddress)
    requires ValidAddress(a)
    ensures Print(a) != [] && Print(a)[|Print(a)| - 1] != DOT
    decreases |a|
  {
    PrintedComponentParses(a[0]);
    if |a| > 1 {
      PrintedEndsInNumeral(a[1..]);
    }
  }

  /** Distinct addresses print distinct texts. */
  lemma PrintInjective(a: TurnAddress, b: TurnAddress)
    requires ValidAddress(a) && ValidAddress(b)
    requires Print(a) == Print(b)
    ensures a == b
  {
    PrintedAddressParses(a);
    PrintedAddressParses(b);
  }

  /** Accepted texts hold digits, letters and dots only. */
  lemma {:induction false} ParsedTextHasNoNul(text: Bytes)
    requires Parse(text).Some?
    ensures 0 !in text
    decreases |text|
  {
    var end := IndexOf(text, DOT);
    assert 0 !in text[..end];
    if end + 1 < |text| {
      ParsedTextHasNoNul(text[end + 1..]);
      assert text == text[..end] + [DOT] + text[end + 1..];
    } else if end < |text| {
      assert text == text[..end] + [DOT];
    } else {
      assert text == text[..end];
    }
  }

  /** `TurnAddress::parse` as written: one pass over the dot-separated components. */
  method ReadAddress(text: Bytes) returns (r: Option<TurnAddress>)
    ensures r == Parse(text)
  {
    if text == [] {
      return None;
    }
    hide Parse, ParseComponent, Remaining, IndexOf;
    var components: TurnAddress := [];
    var begin := 0;
    StartParsing(text);
    while begin < |text|
      invariant begin <= |text| && Parse(text) == Remaining(text, begin, components)
    {
      ghost var front := components;
      var component, end := ReadNext(text, begin, front);
      if component.None? {
        return None;
      }
      components := components + [component.value];
      if end == |text| {
        return Some(components);
      }
      begin := end + 1;
    }
    NothingRemains(text, components);
    return Some(components);
  }

  /** The component at `begin` and the position of the dot, or of the end, behind it. */
  method ReadNext(text: Bytes, begin: nat, ghost front: TurnAddress) returns (component: Option<Component>, end: nat)
    requires begin < |text|
    ensures begin <= end <= |text| && end == begin + IndexOf(text[begin..], DOT)
    ensures component == ParseComponent(text[begin..end])
    ensures Remaining(text, begin, front) ==
              if component.None? then None
              else if end == |text| then Some(front + [component.value])
              else Remaining(text, end + 1, front + [component.value])
  {
    hide ParseComponent, Remaining, IndexOf;
    ParseStep(text, begin, front);
    end := begin + IndexOf(text[begin..], DOT);
    component := ReadComponent(text[begin..end]);
  }

  /** What parsing still has to give, behind the components read so far. */
  ghost function Remaining(text: Bytes, begin: nat, front: TurnAddress): Option<TurnAddress>
    requires begin <= |text|
  {
    if begin == |text| then Some(front) else Prepend(front, ParseComponents(text[begin..]))
  }

  lemma StartParsing(text: Bytes)
    requires text != []
    ensures Parse(text) == Remaining(text, 0, [])
  {
    assert text[0..] == text;
  }

  lemma NothingRemains(text: Bytes, front: TurnAddress)
    ensures Remaining(text, |text|, front) == Some(front)
  {
  }

  /** One round of the loop: a component, then the end or the rest behind the dot. */
  lemma ParseStep(text: Bytes, begin: nat, front: TurnAddress)
    requires begin < |text|
    ensures begin + IndexOf(text[begin..], DOT) <= |text|
    ensures var end := begin + IndexOf(text[begin..], DOT);
            var c := ParseComponent(text[begin..end]);
            Remaining(text, begin, front) ==
              if c.None? then None
              else if end == |text| then Some(front + [c.value])
              else Remaining(text, end + 1, front + [c.value])
  {
    hide ParseComponent, ParseComponents;
    var rest := text[begin..];
    var k := IndexOf(rest, DOT);
    assert rest[..k] == text[begin..begin + k];
    ParseUnfolds(rest);
    if k + 1 < |rest| {
      assert rest[k + 1..] == text[begin + k + 1..];
    }
    var c := ParseComponent(rest[..k]);
    if c.Some? && k + 1 < |rest| && ParseComponents(rest[k + 1..]).Some? {
      var tail := ParseComponents(rest[k + 1..]).value;
      assert front + ([c.value] + tail) == front + [c.value] + tail;
    }
  }

  lemma ParseUnfolds(rest: Bytes)
    requires rest != []
    ensures var k := IndexOf(rest, DOT);
            var c := ParseComponent(rest[..k]);
            ParseComponents(rest) ==
              if c.None? then None
              else if k + 1 >= |rest| then Some([c.value])
              else match ParseComponents(rest[k + 1..]) case None => None case Some(tail) => Some([c.value] + tail)
  {
    hide ParseComponent;
  }

  function Prepend(front: TurnAddress, rest: Option<TurnAddress>): (r: Option<TurnAddress>)
    ensures front == [] ==> r == rest
  {
    assert rest.Some? && front == [] ==> front + rest.value == rest.value;
    match rest
    case None => None
    case Some(tail) => Some(front + tail)
  }

  /** `TurnAddress::string` as written: append each component behind a separating dot. */
  method Render(a: TurnAddress) returns (text: Bytes)
    requires ValidAddress(a)
    ensures text == Print(a)
  {
    text := [];
    for i := 0 to |a|
      invariant i == 0 ==> text == []
      invariant i > 0 ==> text == Print(a[..i]) && text != []
    {
      if text != [] {
        text := text + [DOT];
      }
      PrintedComponentParses(a[i]);
      var part: Bytes;
      if a[i].kind.Numeric? {
        part := Decimal(a[i].ordinal);
      } else {
        part := RenderLetters(a[i].ordinal);
      }
      if i == 0 {
        assert a[..1] == [a[0]];
      } else {
        PrintSnoc(a[..i], a[i]);
        assert a[..i] + [a[i]] == a[..i + 1];
      }
      text := text + part;
    }
    assert a[..|a|] == a;
  }

  lemma {:induction false} PrintSnoc(a: TurnAddress, c: Component)
    requires |a| > 0
    ensures Print(a + [c]) == Print(a) + [DOT] + PrintComponent(c)
  {
    if |a| == 1 {
      assert (a + [c])[1..] == [c];
    } else {
      PrintSnoc(a[1..], c);
      assert (a + [c])[1..] == a[1..] + [c];
    }
  }

  // ------------------------------------------------------------------- order

  /** Numeric components before alphabetic ones, then by ordinal. */
  predicate ComponentLess(a: Component, b: Component) {
    if a.kind != b.kind then a.kind.Numeric? else a.ordinal < b.ordinal
  }

  /** Presentation order. */
  predicate Less(a: TurnAddress, b: TurnAddress) {
    LexLess(ComponentLess, a, b)
  }

  lemma ComponentOrder()
    ensures StrictTotal(ComponentLess)
  {
  }

  lemma AddressOrder()
    ensures StrictTotal(Less)
  {
    ComponentOrder();
    LexStrictTotal(ComponentLess);
    var lex := (a: TurnAddress, b: TurnAddress) => LexLess(ComponentLess, a, b);
    assert forall a: TurnAddress, b: TurnAddress :: Less(a, b) == lex(a, b);
  }

  /** `is_prefix_of`: proper ancestors only, whatever its comment says. */
  predicate Ancestor(a: TurnAddress, b: TurnAddress) {
    a < b
  }

  lemma AncestorComesFirst(a: TurnAddress, b: TurnAddress)
    requires Ancestor(a, b)
    ensures Less(a, b)
  {
    ComponentOrder();
    assert b == a + b[|a|..] && a == a + [];
    LexCommonPrefix(ComponentLess, a, [], b[|a|..]);
  }

  /** Whatever lies between an address and one of its descendants is a descendant too. */
  lemma {:induction false} DescendantsAreContiguous(a: TurnAddress, x: TurnAddress, d: TurnAddress)
    requires a <= d
    requires Less(a, x) && Less(x, d)
    ensures a <= x
    decreases |a|
  {
    if a != [] {
      assert x[0] == a[0];
      DescendantsAreContiguous(a[1..], x[1..], d[1..]);
      assert x == [x[0]] + x[1..] && a == [a[0]] + a[1..];
    }
  }

  /** Under one parent every numeric branch, with all its descendants, precedes every alphabetic one. */
  lemma NumericBranchesFirst(parent: TurnAddress, n: Component, s: TurnAddress, l: Component, t: TurnAddress)
    requires n.kind.Numeric? && l.kind.Alphabetic?
    ensures Less(parent + ([n] + s), parent + ([l] + t))
  {
    ComponentOrder();
    LexCommonPrefix(ComponentLess, parent, [n] + s, [l] + t);
  }

  /** Under one parent branches of one kind, with all their descendants, follow their ordinals upward. */
  lemma SiblingsByOrdinal(parent: TurnAddress, kind: Kind, m: nat, n: nat, s: TurnAddress, t: TurnAddress)
    requires m < n
    ensures Less(parent + ([Component(kind, m)] + s), parent + ([Component(kind, n)] + t))
  {
    ComponentOrder();
    LexCommonPrefix(ComponentLess, parent, [Component(kind, m)] + s, [Component(kind, n)] + t);
  }

  /** `b` branches off behind `a` at position `k`. */
  predicate BranchesBehind(a: TurnAddress, b: TurnAddress, k: nat) {
    && k < |a| && k < |b| && a[..k] == b[..k]
    && ((a[k].kind.Numeric? && b[k].kind.Alphabetic?) || (a[k].kind == b[k].kind && a[k].ordinal < b[k].ordinal))
  }

  /** The whole order: an ancestor first, else the first difference decides. */
  lemma {:induction false} OrderMeans(a: TurnAddress, b: TurnAddress)
    ensures Less(a, b) <==> Ancestor(a, b) || exists k :: BranchesBehind(a, b, k)
    decreases |a|
  {
    if a != [] && b != [] {
      if a[0] == b[0] {
        OrderMeans(a[1..], b[1..]);
        assert a == [a[0]] + a[1..] && b == [b[0]] + b[1..];
        if k :| 0 <= k && BranchesBehind(a[1..], b[1..], k) {
          assert a[..k + 1] == [a[0]] + a[1..][..k] && b[..k + 1] == [b[0]] + b[1..][..k];
          assert BranchesBehind(a, b, k + 1);
        }
        if k :| 0 <= k && BranchesBehind(a, b, k) {
          assert a[1..][..k - 1] == a[..k][1..] && b[1..][..k - 1] == b[..k][1..];
          assert BranchesBehind(a[1..], b[1..], k - 1);
        }
      } else {
        forall k | 0 < k < |a| && k < |b| ensures a[..k] != b[..k] {
          assert a[..k][0] != b[..k][0];
        }
        if Less(a, b) {
          assert BranchesBehind(a, b, 0);
        }
      }
    }
  }
}
