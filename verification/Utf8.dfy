/** UTF-8 validation (utils/utf8/utf8.cpp), against sections 3 and 4 of RFC 3629. */
module Utf8 {
  import opened Basics

  const MAXIMUM_SCALAR: nat := 0x10FFFF

  /** A Unicode scalar value: a code point that is not a surrogate. */
  predicate Scalar(n: nat) {
    n <= MAXIMUM_SCALAR && !(0xD800 <= n <= 0xDFFF)
  }

  /** The octet sequence of one scalar value, by the table of section 3. */
  function EncodeScalar(n: nat): (b: Bytes)
    requires Scalar(n)
    ensures 1 <= |b| <= 4
  {
    if n < 0x80 then [n]
    else if n < 0x800 then [0xC0 + n / 64, 0x80 + n % 64]
    else if n < 0x10000 then [0xE0 + n / 4096, 0x80 + n / 64 % 64, 0x80 + n % 64]
    else [0xF0 + n / 262144, 0x80 + n / 4096 % 64, 0x80 + n / 64 % 64, 0x80 + n % 64]
  }

  function EncodeText(scalars: seq<nat>): Bytes
    requires forall i :: 0 <= i < |scalars| ==> Scalar(scalars[i])
  {
    if scalars == [] then [] else EncodeScalar(scalars[0]) + EncodeText(scalars[1..])
  }

  /** Some text of scalar values encodes to these bytes. */
  ghost predicate IsText(b: Bytes) {
    exists scalars: seq<nat> :: TextOf(scalars, b)
  }

  ghost predicate TextOf(scalars: seq<nat>, b: Bytes) {
    (forall i :: 0 <= i < |scalars| ==> Scalar(scalars[i])) && EncodeText(scalars) == b
  }

  // ---------------------------------------------------------- one character

  /** What the first octet announces: length, its own bits, and the least value allowed. */
  datatype Lead = Lead(length: nat, bits: nat, minimum: nat) | NoLead

  function LeadOf(first: byte): (r: Lead)
    ensures r.Lead? ==> 1 <= r.length <= 4
  {
    if first <= 0x7F then Lead(1, first, 0)
    else if 0xC2 <= first <= 0xDF then Lead(2, first - 0xC0, 0x80)
    else if 0xE0 <= first <= 0xEF then Lead(3, first - 0xE0, 0x800)
    else if 0xF0 <= first <= 0xF4 then Lead(4, first - 0xF0, 0x10000)
    else NoLead
  }

  /** Continuation octets folded behind the bits of the first. */
  function Gather(bits: nat, rest: Bytes): Option<nat> {
    if rest == [] then Some(bits)
    else if !(0x80 <= rest[|rest| - 1] < 0xC0) then None
    else match Gather(bits, rest[..|rest| - 1])
         case None => None
         case Some(high) => Some(high * 64 + (rest[|rest| - 1] - 0x80))
  }

  /** One round of the validation loop: the character at the front, if it is one. */
  function Step(b: Bytes): Option<nat>
    requires b != []
  {
    match LeadOf(b[0])
    case NoLead => None
    case Lead(length, bits, minimum) =>
      if |b| < length then None
      else match Gather(bits, b[1..length])
           case None => None
           case Some(n) => if n < minimum || !Scalar(n) then None else Some(n)
  }

  lemma GatherThree(bits: nat, rest: Bytes)
    requires |rest| <= 3
    ensures Gather(bits, rest).Some? <==> forall i :: 0 <= i < |rest| ==> 0x80 <= rest[i] < 0xC0
    ensures Gather(bits, rest).Some? && |rest| == 0 ==> Gather(bits, rest).value == bits
    ensures Gather(bits, rest).Some? && |rest| == 1 ==> Gather(bits, rest).value == bits * 64 + (rest[0] - 0x80)
    ensures Gather(bits, rest).Some? && |rest| == 2 ==>
              Gather(bits, rest).value == (bits * 64 + (rest[0] - 0x80)) * 64 + (rest[1] - 0x80)
    ensures Gather(bits, rest).Some? && |rest| == 3 ==>
              Gather(bits, rest).value == ((bits * 64 + (rest[0] - 0x80)) * 64 + (rest[1] - 0x80)) * 64 + (rest[2] - 0x80)
  {
    if |rest| > 0 {
      var a := rest[..|rest| - 1];
      if |a| > 0 {
        var c := a[..|a| - 1];
        if |c| > 0 {
          assert c[..|c| - 1] == [];
        }
      }
    }
  }

  lemma LeadRoundTrip(n: nat)
    requires Scalar(n)
    ensures var e := EncodeScalar(n);
            var l := LeadOf(e[0]);
            && l.Lead? && l.length == |e| && l.minimum <= n
            && (forall i :: 1 <= i < |e| ==> 0x80 <= e[i] < 0xC0)
            && l.bits == (if |e| == 1 then n else if |e| == 2 then n / 64 else if |e| == 3 then n / 4096 else n / 262144)
  {
  }

  /** The octets of an encoding gather to its value. */
  lemma EncodedGathers(n: nat)
    requires Scalar(n)
    ensures LeadOf(EncodeScalar(n)[0]).Lead?
    ensures Gather(LeadOf(EncodeScalar(n)[0]).bits, EncodeScalar(n)[1..]) == Some(n)
  {
    hide Gather, LeadOf;
    LeadRoundTrip(n);
    var e := EncodeScalar(n);
    GatherThree(LeadOf(e[0]).bits, e[1..]);
    assert n / 4096 == n / 64 / 64 && n / 262144 == n / 4096 / 64;
  }

  /** The encoding of a scalar value is read back as that value. */
  lemma StepReads(n: nat, rest: Bytes)
    requires Scalar(n)
    ensures Step(EncodeScalar(n) + rest) == Some(n)
    ensures LeadOf(EncodeScalar(n)[0]).Lead? && LeadOf(EncodeScalar(n)[0]).length == |EncodeScalar(n)|
  {
    hide Gather, EncodeScalar, LeadOf;
    LeadRoundTrip(n);
    EncodedGathers(n);
    EncodingSize(n);
    var e := EncodeScalar(n);
    var b := e + rest;
    assert b[1..|e|] == e[1..];
  }

  lemma EncodingSize(n: nat)
    requires Scalar(n)
    ensures 1 <= |EncodeScalar(n)| <= 4
  {
  }

  /** Only the encoding of a scalar value is read: overlong forms and surrogates are not. */
  lemma StepCanonical(b: Bytes)
    requires b != [] && Step(b).Some?
    ensures Scalar(Step(b).value) && LeadOf(b[0]).Lead? && LeadOf(b[0]).length <= |b|
    ensures EncodeScalar(Step(b).value) == b[..LeadOf(b[0]).length]
  {
    hide Gather;
    var l := LeadOf(b[0]);
    var rest := b[1..l.length];
    GatherThree(l.bits, rest);
    var n := Step(b).value;
    assert b[..l.length] == [b[0]] + rest;
    if l.length == 2 {
      TwoOctets(b[0], rest, n);
    } else if l.length == 3 {
      ThreeOctets(b[0], rest, n);
    } else if l.length == 4 {
      FourOctets(b[0], rest, n);
    }
  }

  lemma TwoOctets(first: byte, rest: Bytes, n: nat)
    requires 0xC2 <= first <= 0xDF && |rest| == 1 && 0x80 <= rest[0] < 0xC0
    requires n == (first - 0xC0) * 64 + (rest[0] - 0x80)
    ensures Scalar(n) && EncodeScalar(n) == [first] + rest
  {
  }

  lemma ThreeOctets(first: byte, rest: Bytes, n: nat)
    requires 0xE0 <= first <= 0xEF && |rest| == 2 && 0x80 <= rest[0] < 0xC0 && 0x80 <= rest[1] < 0xC0
    requires n == ((first - 0xE0) * 64 + (rest[0] - 0x80)) * 64 + (rest[1] - 0x80) && n >= 0x800 && Scalar(n)
    ensures EncodeScalar(n) == [first] + rest
  {
  }

  lemma FourOctets(first: byte, rest: Bytes, n: nat)
    requires 0xF0 <= first <= 0xF4 && |rest| == 3
    requires 0x80 <= rest[0] < 0xC0 && 0x80 <= rest[1] < 0xC0 && 0x80 <= rest[2] < 0xC0
    requires n == (((first - 0xF0) * 64 + (rest[0] - 0x80)) * 64 + (rest[1] - 0x80)) * 64 + (rest[2] - 0x80)
    requires n >= 0x10000 && Scalar(n)
    ensures EncodeScalar(n) == [first] + rest
  {
    assert n / 262144 == first - 0xF0 && n / 4096 == (first - 0xF0) * 64 + (rest[0] - 0x80);
    assert n / 64 == ((first - 0xF0) * 64 + (rest[0] - 0x80)) * 64 + (rest[1] - 0x80);
  }

  // ------------------------------------------------------------------ texts

  /** A text continues exactly behind its first character. */
  lemma TextSteps(b: Bytes)
    requires b != []
    ensures IsText(b) <==> Step(b).Some? && LeadOf(b[0]).Lead? && LeadOf(b[0]).length <= |b| && IsText(b[LeadOf(b[0]).length..])
  {
    hide Step, LeadOf, EncodeScalar;
    if IsText(b) {
      var scalars :| TextOf(scalars, b);
      var first, tail := EncodeScalar(scalars[0]), EncodeText(scalars[1..]);
      StepReads(scalars[0], tail);
      assert b == first + tail && b[0] == first[0];
      assert b[|first|..] == tail;
      assert TextOf(scalars[1..], tail);
    }
    if Step(b).Some? {
      StepCanonical(b);
      var k := LeadOf(b[0]).length;
      if IsText(b[k..]) {
        var rest :| TextOf(rest, b[k..]);
        var all := [Step(b).value] + rest;
        assert all[1..] == rest && b == b[..k] + b[k..];
        assert TextOf(all, b);
      }
    }
  }

  lemma EmptyText()
    ensures IsText([])
  {
    assert TextOf([], []);
  }

  /** Bytes have at most one reading as scalar values. */
  lemma {:induction false} TextUnique(s: seq<nat>, r: seq<nat>, b: Bytes)
    requires TextOf(s, b) && TextOf(r, b)
    ensures s == r
  {
    hide EncodeScalar, Step;
    if s != [] && r != [] {
      StepReads(s[0], EncodeText(s[1..]));
      StepReads(r[0], EncodeText(r[1..]));
      var k := |EncodeScalar(s[0])|;
      assert b[k..] == EncodeText(s[1..]) == EncodeText(r[1..]);
      TextUnique(s[1..], r[1..], b[k..]);
      assert s == [s[0]] + s[1..] && r == [r[0]] + r[1..];
    } else {
      NotEmpty(s);
      NotEmpty(r);
    }
  }

  lemma NotEmpty(s: seq<nat>)
    requires forall i :: 0 <= i < |s| ==> Scalar(s[i])
    ensures EncodeText(s) == [] <==> s == []
  {
  }

  /** `is_valid` accepts exactly the encodings of sequences of Unicode scalar values. */
  method IsValid(text: Bytes) returns (ok: bool)
    ensures ok <==> IsText(text)
  {
    hide Step, LeadOf, IsText;
    var offset := 0;
    EmptyText();
    while offset < |text|
      invariant offset <= |text|
      invariant IsText(text) <==> IsText(text[offset..])
    {
      TextSteps(text[offset..]);
      var length := CharacterAt(text, offset);
      if length == 0 {
        return false;
      }
      assert text[offset..][length..] == text[offset + length..];
      offset := offset + length;
    }
    assert text[offset..] == [];
    ok := true;
  }

  /** The body of the loop: the length of the character at `offset`, or zero. */
  method CharacterAt(text: Bytes, offset: nat) returns (length: nat)
    requires offset < |text|
    ensures length == 0 <==> Step(text[offset..]).None?
    ensures length > 0 ==> LeadOf(text[offset..][0]).Lead? && length == LeadOf(text[offset..][0]).length && offset + length <= |text|
  {
    var first := text[offset];
    ghost var b := text[offset..];
    if first <= 0x7F {
      assert b[1..1] == [];
      return 1;
    }
    var codepoint, minimum := 0, 0;
    if 0xC2 <= first <= 0xDF {
      length, codepoint, minimum := 2, first % 32, 0x80;
    } else if 0xE0 <= first <= 0xEF {
      length, codepoint, minimum := 3, first % 16, 0x800;
    } else if 0xF0 <= first <= 0xF4 {
      length, codepoint, minimum := 4, first % 8, 0x10000;
    } else {
      return 0;
    }
    ghost var lead := LeadOf(first);
    assert lead == Lead(length, codepoint, minimum);
    if |text| - offset < length {
      return 0;
    }
    for index := 1 to length
      invariant Gather(lead.bits, b[1..index]) == Some(codepoint)
    {
      var continuation := text[offset + index];
      assert b[1..index + 1][..index - 1] == b[1..index] && b[1..index + 1][index - 1] == continuation;
      if !(0x80 <= continuation < 0xC0) {
        GatherFails(lead.bits, b[1..length], index - 1);
        return 0;
      }
      codepoint := codepoint * 64 + (continuation - 0x80);
    }
    if codepoint < minimum || codepoint > MAXIMUM_SCALAR || 0xD800 <= codepoint <= 0xDFFF {
      return 0;
    }
  }

  lemma {:induction false} GatherFails(bits: nat, rest: Bytes, i: nat)
    requires i < |rest| && !(0x80 <= rest[i] < 0xC0)
    ensures Gather(bits, rest).None?
    decreases |rest|
  {
    if i < |rest| - 1 {
      GatherFails(bits, rest[..|rest| - 1], i);
    }
  }
}
