/** Terminal input events on the wire (msgs/terminal_msgs.cpp:46-373). */
module Terminal {
  import opened Basics
  import opened Integers
  import opened Utf8

  datatype Event =
    | Key(named: bool, key: nat, modifiers: nat, action: byte, shifted: Option<nat>, baseLayout: Option<nat>, text: Bytes)
    | Text(utf8: Bytes)
    | Mouse(x: nat, y: nat, button: byte, action: byte, modifiers: nat)
    | Scroll(x: nat, y: nat, deltaX: int, deltaY: int, modifiers: nat)
    | Paste(phase: byte, data: Bytes)
    | Focus(focused: bool)
    | Clipboard(selection: byte, data: Bytes)
    | Command(command: nat)
    | Response(kind: byte, value: nat, data: Bytes)
    | Unknown(reason: byte, data: Bytes)

  predicate U32(n: nat) { n <= U32_MAX }
  predicate I32(n: int) { -0x8000_0000 <= n < 0x8000_0000 }
  predicate U16(n: nat) { n <= 0xFFFF }

  /** The widths of the C++ fields. */
  predicate Typed(e: Event) {
    match e
    case Key(_, key, modifiers, _, shifted, base, _) =>
      U32(key) && U16(modifiers) && (shifted.Some? ==> U32(shifted.value)) && (base.Some? ==> U32(base.value))
    case Mouse(x, y, _, _, modifiers) => U32(x) && U32(y) && U16(modifiers)
    case Scroll(x, y, dx, dy, modifiers) => U32(x) && U32(y) && I32(dx) && I32(dy) && U16(modifiers)
    case Command(command) => U16(command)
    case Response(_, value, _) => U32(value)
    case _ => true
  }

  ghost predicate ValidKey(e: Event)
    requires e.Key?
  {
    && (e.named || Scalar(e.key)) && e.action <= 2 && e.modifiers <= 0xFF
    && (e.shifted.Some? ==> Scalar(e.shifted.value)) && (e.baseLayout.Some? ==> Scalar(e.baseLayout.value))
    && IsText(e.text)
  }

  /** What the encoder accepts. */
  ghost predicate Encodable(e: Event) {
    match e
    case Key(_, _, _, _, _, _, text) => ValidKey(e) && |text| <= U32_MAX
    case Text(utf8) => IsText(utf8) && |utf8| <= U32_MAX
    case Mouse(_, _, button, action, modifiers) => button <= 7 && action <= 3 && modifiers <= 0xFF
    case Scroll(_, _, _, _, modifiers) => modifiers <= 0xFF
    case Paste(phase: byte, data: Bytes) => phase <= 3 && |data| <= U32_MAX
    case Focus(_) => true
    case Clipboard(selection: byte, data: Bytes) => selection <= 1 && |data| <= U32_MAX
    case Command(command) => command <= 11
    case Response(kind, _, data) => kind <= 5 && |data| <= U32_MAX
    case Unknown(reason: byte, data: Bytes) => reason <= 4 && |data| <= U32_MAX
  }

  // ------------------------------------------------------------------ fields

  /** `append_string`. */
  function StringBytes(s: Bytes): Bytes {
    ToBytes(|s|, 4) + s
  }

  /** `read_string` where the string must end the payload. */
  function LastString(b: Bytes): Option<Bytes> {
    if |b| < 4 || BigEndian(b[..4]) != |b| - 4 then None else Some(b[4..])
  }

  /** Two's complement of a 32-bit value. */
  function Unsigned(n: int): (r: nat)
    requires I32(n)
    ensures r <= U32_MAX
  {
    if n < 0 then n + 0x1_0000_0000 else n
  }

  function Signed(n: nat): (r: int)
    requires U32(n)
    ensures I32(r) && Unsigned(r) == n
  {
    if n < 0x8000_0000 then n else n - 0x1_0000_0000
  }

  lemma SignedUnsigned(n: int)
    requires I32(n)
    ensures Signed(Unsigned(n)) == n
  {
  }

  function OptionalBytes(o: Option<nat>): Bytes {
    if o.None? then [] else ToBytes(o.value, 4)
  }

  /** An optional 32-bit field at the front; `Bad` when it is announced and missing. */
  datatype Field = Bad | Field(value: Option<nat>, rest: Bytes)

  function ReadOptional(has: bool, b: Bytes): Field {
    if !has then Field(None, b) else if |b| < 4 then Bad else Field(Some(BigEndian(b[..4])), b[4..])
  }

  lemma StringRoundTrip(s: Bytes)
    requires |s| <= U32_MAX
    ensures LastString(StringBytes(s)) == Some(s)
  {
    Limits();
    ToBytesValue(|s|, 4);
    assert StringBytes(s)[..4] == ToBytes(|s|, 4) && StringBytes(s)[4..] == s;
  }

  lemma StringCanonical(b: Bytes)
    requires LastString(b).Some?
    ensures StringBytes(LastString(b).value) == b && |LastString(b).value| <= U32_MAX
  {
    Limits();
    ValueToBytes(b[..4]);
    assert b == b[..4] + b[4..];
  }

  lemma NumberRoundTrip(n: nat, width: nat)
    requires (width == 4 && U32(n)) || (width == 2 && U16(n))
    ensures BigEndian(ToBytes(n, width)) == n
  {
    Limits();
    ToBytesValue(n, width);
  }

  lemma NumberCanonical(s: Bytes)
    requires |s| == 4 || |s| == 2
    ensures ToBytes(BigEndian(s), |s|) == s
    ensures |s| == 4 ==> U32(BigEndian(s))
    ensures |s| == 2 ==> U16(BigEndian(s))
  {
    Limits();
    ValueToBytes(s);
  }

  lemma OptionalRoundTrip(o: Option<nat>, rest: Bytes)
    requires o.Some? ==> U32(o.value)
    ensures ReadOptional(o.Some?, OptionalBytes(o) + rest) == Field(o, rest)
  {
    if o.Some? {
      NumberRoundTrip(o.value, 4);
      assert (OptionalBytes(o) + rest)[..4] == OptionalBytes(o) && (OptionalBytes(o) + rest)[4..] == rest;
    }
  }

  lemma OptionalCanonical(has: bool, b: Bytes)
    ensures var r := ReadOptional(has, b);
            r.Field? ==> r.value.Some? == has && b == OptionalBytes(r.value) + r.rest && (has ==> U32(r.value.value))
  {
    if has && |b| >= 4 {
      NumberCanonical(b[..4]);
      assert b == b[..4] + b[4..];
    }
  }

  // -------------------------------------------------------------------- codec

  function OptionBits(e: Event): byte
    requires e.Key?
  {
    (if e.shifted.Some? then 1 else 0) + (if e.baseLayout.Some? then 2 else 0)
  }

  function Flag(b: bool): byte { if b then 1 else 0 }

  /** `encode_payload` on an event it accepts. */
  function Encode(e: Event): Bytes
    requires Typed(e)
  {
    match e
    case Key(named, key, modifiers, action, shifted, base, text) =>
      [1, Flag(named)] + ToBytes(key, 4) + ToBytes(modifiers, 2) + [action, OptionBits(e)]
      + (OptionalBytes(shifted) + (OptionalBytes(base) + StringBytes(text)))
    case Text(utf8) => [2] + StringBytes(utf8)
    case Mouse(x, y, button, action, modifiers) =>
      [3] + ToBytes(x, 4) + ToBytes(y, 4) + [button, action] + ToBytes(modifiers, 2)
    case Scroll(x, y, dx, dy, modifiers) =>
      [4] + ToBytes(x, 4) + ToBytes(y, 4) + ToBytes(Unsigned(dx), 4) + ToBytes(Unsigned(dy), 4) + ToBytes(modifiers, 2)
    case Paste(phase: byte, data: Bytes) => [5, phase] + StringBytes(data)
    case Focus(focused) => [6, Flag(focused)]
    case Clipboard(selection: byte, data: Bytes) => [7, selection] + StringBytes(data)
    case Command(command) => [8] + ToBytes(command, 2)
    case Response(kind, value, data) => [9, kind] + ToBytes(value, 4) + StringBytes(data)
    case Unknown(reason: byte, data: Bytes) => [10, reason] + StringBytes(data)
  }

  ghost function DecodeKey(b: Bytes): Option<Event> {
    if |b| < 10 || b[1] > 1 || b[9] > 3 then None
    else
      var shifted := ReadOptional(b[9] % 2 == 1, b[10..]);
      if shifted.Bad? then None else
      var base := ReadOptional(b[9] / 2 % 2 == 1, shifted.rest);
      if base.Bad? then None else
      var text := LastString(base.rest);
      if text.None? then None
      else
        var e := Key(b[1] != 0, BigEndian(b[2..6]), BigEndian(b[6..8]), b[8], shifted.value, base.value, text.value);
        if ValidKey(e) then Some(e) else None
  }

  function DecodeMouse(b: Bytes): Option<Event> {
    if |b| != 13 then None
    else
      var e := Mouse(BigEndian(b[1..5]), BigEndian(b[5..9]), b[9], b[10], BigEndian(b[11..13]));
      if e.button > 7 || e.action > 3 || e.modifiers > 0xFF then None else Some(e)
  }

  function Word(b: Bytes): (r: nat)
    requires |b| == 4
    ensures U32(r) && ToBytes(r, 4) == b
  {
    NumberCanonical(b);
    BigEndian(b)
  }

  function DecodeScroll(b: Bytes): Option<Event> {
    if |b| != 19 then None
    else
      var e := Scroll(BigEndian(b[1..5]), BigEndian(b[5..9]), Signed(Word(b[9..13])), Signed(Word(b[13..17])), BigEndian(b[17..19]));
      if e.modifiers > 0xFF then None else Some(e)
  }

  /** One small number and one string. */
  function ReadTagged(b: Bytes, limit: nat): Option<(byte, Bytes)> {
    if |b| < 6 || b[1] > limit then None
    else match LastString(b[2..]) case None => None case Some(data) => Some((b[1], data))
  }

  function DecodePaste(b: Bytes): Option<Event> {
    match ReadTagged(b, 3) case None => None case Some((phase, data)) => Some(Paste(phase, data))
  }

  function DecodeClipboard(b: Bytes): Option<Event> {
    match ReadTagged(b, 1) case None => None case Some((selection, data)) => Some(Clipboard(selection, data))
  }

  function DecodeUnknown(b: Bytes): Option<Event> {
    match ReadTagged(b, 4) case None => None case Some((reason, data)) => Some(Unknown(reason, data))
  }

  function DecodeResponse(b: Bytes): Option<Event> {
    if |b| < 10 || b[1] > 5 then None
    else match LastString(b[6..]) case None => None case Some(data) => Some(Response(b[1], BigEndian(b[2..6]), data))
  }

  ghost function DecodeText(b: Bytes): Option<Event>
    requires b != []
  {
    match LastString(b[1..])
    case None => None
    case Some(utf8) => if IsText(utf8) then Some(Text(utf8)) else None
  }

  function DecodeCommand(b: Bytes): Option<Event> {
    if |b| != 3 || BigEndian(b[1..3]) > 11 then None else Some(Command(BigEndian(b[1..3])))
  }

  /** `decode_payload`. */
  ghost function Decode(b: Bytes): Option<Event> {
    if b == [] then None
    else if b[0] == 1 then DecodeKey(b)
    else if b[0] == 2 then DecodeText(b)
    else if b[0] == 3 then DecodeMouse(b)
    else if b[0] == 4 then DecodeScroll(b)
    else if b[0] == 5 then DecodePaste(b)
    else if b[0] == 6 then if |b| != 2 || b[1] > 1 then None else Some(Focus(b[1] != 0))
    else if b[0] == 7 then DecodeClipboard(b)
    else if b[0] == 8 then DecodeCommand(b)
    else if b[0] == 9 then DecodeResponse(b)
    else if b[0] == 10 then DecodeUnknown(b)
    else None
  }

  // -------------------------------------------------------------- round trips

  lemma KeyRoundTrip(e: Event)
    requires e.Key? && Typed(e) && Encodable(e)
    ensures DecodeKey(Encode(e)) == Some(e) && Encode(e)[0] == 1
  {
    hide BigEndian, ToBytes, IsText, LastString, StringBytes, OptionalBytes, ReadOptional, Scalar;
    var b := Encode(e);
    var tail := StringBytes(e.text);
    NumberRoundTrip(e.key, 4);
    NumberRoundTrip(e.modifiers, 2);
    assert b[2..6] == ToBytes(e.key, 4) && b[6..8] == ToBytes(e.modifiers, 2);
    assert b[10..] == OptionalBytes(e.shifted) + (OptionalBytes(e.baseLayout) + tail);
    OptionalRoundTrip(e.shifted, OptionalBytes(e.baseLayout) + tail);
    OptionalRoundTrip(e.baseLayout, tail);
    StringRoundTrip(e.text);
  }

  lemma KeyCanonical(b: Bytes)
    requires b != [] && b[0] == 1 && DecodeKey(b).Some?
    ensures var e := DecodeKey(b).value; e.Key? && Typed(e) && Encodable(e) && Encode(e) == b
  {
    hide BigEndian, ToBytes, IsText, LastString, StringBytes, OptionalBytes, ReadOptional, Scalar;
    var shifted := ReadOptional(b[9] % 2 == 1, b[10..]);
    var base := ReadOptional(b[9] / 2 % 2 == 1, shifted.rest);
    OptionalCanonical(b[9] % 2 == 1, b[10..]);
    OptionalCanonical(b[9] / 2 % 2 == 1, shifted.rest);
    StringCanonical(base.rest);
    NumberCanonical(b[2..6]);
    NumberCanonical(b[6..8]);
    var e := DecodeKey(b).value;
    assert OptionBits(e) == b[9] && Flag(e.named) == b[1];
    assert b == [1, b[1]] + b[2..6] + b[6..8] + [b[8], b[9]] + b[10..];
  }

  lemma MouseRoundTrip(e: Event)
    requires e.Mouse? && Typed(e) && Encodable(e)
    ensures DecodeMouse(Encode(e)) == Some(e) && Encode(e)[0] == 3
  {
    hide BigEndian, ToBytes;
    var b := Encode(e);
    NumberRoundTrip(e.x, 4);
    NumberRoundTrip(e.y, 4);
    NumberRoundTrip(e.modifiers, 2);
    assert b[1..5] == ToBytes(e.x, 4) && b[5..9] == ToBytes(e.y, 4) && b[11..13] == ToBytes(e.modifiers, 2);
  }

  lemma MouseCanonical(b: Bytes)
    requires b != [] && b[0] == 3 && DecodeMouse(b).Some?
    ensures var e := DecodeMouse(b).value; e.Mouse? && Typed(e) && Encodable(e) && Encode(e) == b
  {
    hide BigEndian, ToBytes;
    NumberCanonical(b[1..5]);
    NumberCanonical(b[5..9]);
    NumberCanonical(b[11..13]);
    assert b == [3] + b[1..5] + b[5..9] + [b[9], b[10]] + b[11..13];
  }

  lemma ScrollRoundTrip(e: Event)
    requires e.Scroll? && Typed(e) && Encodable(e)
    ensures DecodeScroll(Encode(e)) == Some(e) && Encode(e)[0] == 4
  {
    hide BigEndian, ToBytes;
    var b := Encode(e);
    NumberRoundTrip(e.x, 4);
    NumberRoundTrip(e.y, 4);
    NumberRoundTrip(Unsigned(e.deltaX), 4);
    NumberRoundTrip(Unsigned(e.deltaY), 4);
    NumberRoundTrip(e.modifiers, 2);
    SignedUnsigned(e.deltaX);
    SignedUnsigned(e.deltaY);
    assert b[1..5] == ToBytes(e.x, 4) && b[5..9] == ToBytes(e.y, 4) && b[17..19] == ToBytes(e.modifiers, 2);
    assert b[9..13] == ToBytes(Unsigned(e.deltaX), 4) && b[13..17] == ToBytes(Unsigned(e.deltaY), 4);
  }

  lemma ScrollCanonical(b: Bytes)
    requires b != [] && b[0] == 4 && DecodeScroll(b).Some?
    ensures var e := DecodeScroll(b).value; e.Scroll? && Typed(e) && Encodable(e) && Encode(e) == b
  {
    hide BigEndian, ToBytes;
    NumberCanonical(b[1..5]);
    NumberCanonical(b[5..9]);
    NumberCanonical(b[17..19]);
    assert b == [4] + b[1..5] + b[5..9] + b[9..13] + b[13..17] + b[17..19];
  }

  /** Decoding what was encoded returns the event. */
  lemma EventRoundTrip(e: Event)
    requires Typed(e) && Encodable(e)
    ensures Decode(Encode(e)) == Some(e)
  {
    hide BigEndian, ToBytes, IsText, LastString, StringBytes, DecodeKey, DecodeMouse, DecodeScroll;
    match e
    case Key(_, _, _, _, _, _, _) => KeyRoundTrip(e);
    case Text(utf8) =>
      StringRoundTrip(utf8);
      assert Encode(e)[1..] == StringBytes(utf8);
    case Mouse(_, _, _, _, _) => MouseRoundTrip(e);
    case Scroll(_, _, _, _, _) => ScrollRoundTrip(e);
    case Paste(_, data) => TaggedRoundTrip(e, data);
    case Focus(_) =>
    case Clipboard(_, data) => TaggedRoundTrip(e, data);
    case Command(command) =>
      NumberRoundTrip(command, 2);
      assert Encode(e)[1..3] == ToBytes(command, 2);
    case Response(_, value, data) =>
      NumberRoundTrip(value, 4);
      StringRoundTrip(data);
      StringLength(data);
      assert Encode(e)[2..6] == ToBytes(value, 4) && Encode(e)[6..] == StringBytes(data);
    case Unknown(_, data) => TaggedRoundTrip(e, data);
  }

  lemma StringLength(s: Bytes)
    ensures |StringBytes(s)| == 4 + |s|
  {
  }

  lemma TaggedRoundTrip(e: Event, data: Bytes)
    requires (e.Paste? && e.data == data) || (e.Clipboard? && e.data == data) || (e.Unknown? && e.data == data)
    requires Encodable(e)
    ensures Decode(Encode(e)) == Some(e)
  {
    hide LastString, StringBytes;
    StringRoundTrip(data);
    StringLength(data);
    assert Encode(e)[2..] == StringBytes(data);
  }

  /** Every accepted payload is the one encoding of its event. */
  lemma AcceptedPayload(b: Bytes)
    requires Decode(b).Some?
    ensures var e := Decode(b).value; Typed(e) && Encodable(e) && Encode(e) == b
  {
    hide BigEndian, ToBytes, IsText, LastString, StringBytes, DecodeKey, DecodeMouse, DecodeScroll;
    if b[0] == 1 {
      KeyCanonical(b);
    } else if b[0] == 2 {
      StringCanonical(b[1..]);
      assert b == [2] + b[1..];
    } else if b[0] == 3 {
      MouseCanonical(b);
    } else if b[0] == 4 {
      ScrollCanonical(b);
    } else if b[0] == 6 {
      assert b == [6, b[1]];
    } else if b[0] == 8 {
      NumberCanonical(b[1..3]);
      assert b == [8] + b[1..3];
    } else if b[0] == 9 {
      NumberCanonical(b[2..6]);
      StringCanonical(b[6..]);
      assert b == [9, b[1]] + b[2..6] + b[6..];
    } else {
      StringCanonical(b[2..]);
      assert b == [b[0], b[1]] + b[2..];
    }
  }

  // -------------------------------------------------------------------- layout

  /** The tag byte of each kind of event. */
  lemma TagLayout(e: Event)
    requires Typed(e)
    ensures |Encode(e)| > 0
    ensures Encode(e)[0] == match e
                            case Key(_, _, _, _, _, _, _) => 1
                            case Text(_) => 2
                            case Mouse(_, _, _, _, _) => 3
                            case Scroll(_, _, _, _, _) => 4
                            case Paste(_, _) => 5
                            case Focus(_) => 6
                            case Clipboard(_, _) => 7
                            case Command(_) => 8
                            case Response(_, _, _) => 9
                            case Unknown(_, _) => 10
  {
    hide ToBytes, StringBytes, OptionalBytes;
  }

  /** A key event: name flag, key, modifiers, action, option bits, the optional keys, then length and text. */
  lemma KeyLayout(e: Event)
    requires e.Key? && Typed(e) && Encodable(e)
    ensures var b := Encode(e);
            var s := 10 + (if e.shifted.Some? then 4 else 0);
            var t := s + (if e.baseLayout.Some? then 4 else 0);
            && |b| == t + 4 + |e.text|
            && (b[1] == 1 <==> e.named) && b[1] <= 1
            && BigEndian(b[2..6]) == e.key && BigEndian(b[6..8]) == e.modifiers && b[8] == e.action
            && b[9] == (if e.shifted.Some? then 1 else 0) + (if e.baseLayout.Some? then 2 else 0)
            && (e.shifted.Some? ==> BigEndian(b[10..s]) == e.shifted.value)
            && (e.baseLayout.Some? ==> BigEndian(b[s..t]) == e.baseLayout.value)
            && BigEndian(b[t..t + 4]) == |e.text| && b[t + 4..] == e.text
  {
    hide BigEndian, ToBytes, IsText, Scalar, Encode, OptionalBytes, StringBytes, OptionBits;
    KeyFixed(e);
    KeyRest(Encode(e)[10..], e.shifted, e.baseLayout, e.text);
    var b := Encode(e);
    var r := b[10..];
    var x := if e.shifted.Some? then 4 else 0;
    var y := x + (if e.baseLayout.Some? then 4 else 0);
    assert b[10..10 + x] == r[..x] && b[10 + x..10 + y] == r[x..y];
    assert b[10 + y..10 + y + 4] == r[y..y + 4] && b[10 + y + 4..] == r[y + 4..];
  }

  lemma KeyFixed(e: Event)
    requires e.Key? && Typed(e)
    ensures var b := Encode(e);
            && |b| >= 10 && b[1] == (if e.named then 1 else 0)
            && BigEndian(b[2..6]) == e.key && BigEndian(b[6..8]) == e.modifiers && b[8] == e.action
            && b[9] == (if e.shifted.Some? then 1 else 0) + (if e.baseLayout.Some? then 2 else 0)
            && b[10..] == OptionalBytes(e.shifted) + (OptionalBytes(e.baseLayout) + StringBytes(e.text))
  {
    hide BigEndian, ToBytes, OptionalBytes, StringBytes;
    var b := Encode(e);
    NumberRoundTrip(e.key, 4);
    NumberRoundTrip(e.modifiers, 2);
    assert b[2..6] == ToBytes(e.key, 4) && b[6..8] == ToBytes(e.modifiers, 2);
  }

  lemma KeyRest(r: Bytes, shifted: Option<nat>, base: Option<nat>, text: Bytes)
    requires (shifted.Some? ==> U32(shifted.value)) && (base.Some? ==> U32(base.value)) && |text| <= U32_MAX
    requires r == OptionalBytes(shifted) + (OptionalBytes(base) + StringBytes(text))
    ensures var x := if shifted.Some? then 4 else 0;
            var y := x + (if base.Some? then 4 else 0);
            && |r| == y + 4 + |text|
            && (shifted.Some? ==> BigEndian(r[..x]) == shifted.value)
            && (base.Some? ==> BigEndian(r[x..y]) == base.value)
            && BigEndian(r[y..y + 4]) == |text| && r[y + 4..] == text
  {
    hide BigEndian, ToBytes;
    var x := if shifted.Some? then 4 else 0;
    var y := x + (if base.Some? then 4 else 0);
    NumberRoundTrip(|text|, 4);
    if shifted.Some? {
      NumberRoundTrip(shifted.value, 4);
      assert r[..x] == ToBytes(shifted.value, 4);
    }
    if base.Some? {
      NumberRoundTrip(base.value, 4);
      assert r[x..y] == ToBytes(base.value, 4);
    }
    assert r[y..] == StringBytes(text);
    assert r[y..y + 4] == r[y..][..4] == ToBytes(|text|, 4);
    assert r[y + 4..] == r[y..][4..] == text;
  }

  /** Mouse, scroll, focus and command events: every field at its fixed place, big-endian, deltas in two's complement. */
  lemma NumberLayout(e: Event)
    requires Typed(e) && Encodable(e) && (e.Mouse? || e.Scroll? || e.Focus? || e.Command?)
    ensures var b := Encode(e);
            match e
            case Mouse(x, y, button, action, modifiers) =>
              && |b| == 13 && BigEndian(b[1..5]) == x && BigEndian(b[5..9]) == y
              && b[9] == button && b[10] == action && BigEndian(b[11..13]) == modifiers
            case Scroll(x, y, dx, dy, modifiers) =>
              && |b| == 19 && BigEndian(b[1..5]) == x && BigEndian(b[5..9]) == y
              && BigEndian(b[9..13]) == (if dx < 0 then dx + 0x1_0000_0000 else dx)
              && BigEndian(b[13..17]) == (if dy < 0 then dy + 0x1_0000_0000 else dy)
              && BigEndian(b[17..19]) == modifiers
            case Focus(focused) => |b| == 2 && b[1] == (if focused then 1 else 0)
            case Command(command) => |b| == 3 && BigEndian(b[1..3]) == command
            case _ => true
  {
    hide BigEndian, ToBytes;
    match e {
      case Mouse(_, _, _, _, _) => MouseRoundTrip(e);
      case Scroll(_, _, _, _, _) => ScrollLayout(e);
      case Focus(_) =>
      case Command(command) =>
        NumberRoundTrip(command, 2);
        assert Encode(e)[1..3] == ToBytes(command, 2);
    }
  }

  lemma ScrollLayout(e: Event)
    requires e.Scroll? && Typed(e) && Encodable(e)
    ensures var b := Encode(e);
            && |b| == 19 && BigEndian(b[1..5]) == e.x && BigEndian(b[5..9]) == e.y
            && BigEndian(b[9..13]) == (if e.deltaX < 0 then e.deltaX + 0x1_0000_0000 else e.deltaX)
            && BigEndian(b[13..17]) == (if e.deltaY < 0 then e.deltaY + 0x1_0000_0000 else e.deltaY)
            && BigEndian(b[17..19]) == e.modifiers
  {
    hide BigEndian, ToBytes;
    ScrollRoundTrip(e);
    NumberRoundTrip(Unsigned(e.deltaX), 4);
    NumberRoundTrip(Unsigned(e.deltaY), 4);
    var b := Encode(e);
    assert b[9..13] == ToBytes(Unsigned(e.deltaX), 4) && b[13..17] == ToBytes(Unsigned(e.deltaY), 4);
  }

  /** The events that end in a string: a small number, for a response a 32-bit value, then length and bytes. */
  lemma TextLayout(e: Event, text: Bytes)
    requires Typed(e) && Encodable(e)
    requires (e.Text? && text == e.utf8) || ((e.Paste? || e.Clipboard? || e.Response? || e.Unknown?) && text == e.data)
    ensures var b := Encode(e);
            var t := if e.Text? then 1 else if e.Response? then 6 else 2;
            && |b| == t + 4 + |text| && BigEndian(b[t..t + 4]) == |text| && b[t + 4..] == text
            && (e.Paste? ==> b[1] == e.phase) && (e.Clipboard? ==> b[1] == e.selection)
            && (e.Response? ==> b[1] == e.kind && BigEndian(b[2..6]) == e.value) && (e.Unknown? ==> b[1] == e.reason)
  {
    hide BigEndian, ToBytes, IsText;
    NumberRoundTrip(|text|, 4);
    var b := Encode(e);
    var t := if e.Text? then 1 else if e.Response? then 6 else 2;
    assert b[t..] == StringBytes(text);
    assert b[t..t + 4] == ToBytes(|text|, 4) && b[t + 4..] == text;
    if e.Response? {
      NumberRoundTrip(e.value, 4);
      assert b[2..6] == ToBytes(e.value, 4);
    }
  }

  // ------------------------------------------------------------------ methods

  method CheckKey(e: Event) returns (ok: bool)
    requires e.Key?
    ensures ok <==> ValidKey(e)
  {
    var text := IsValid(e.text);
    ok := && (e.named || Scalar(e.key)) && e.action <= 2 && e.modifiers <= 0xFF
          && (e.shifted.Some? ==> Scalar(e.shifted.value)) && (e.baseLayout.Some? ==> Scalar(e.baseLayout.value))
          && text;
  }

  /** `append_string`: length and bytes behind the buffer, unless the length does not fit. */
  method AppendString(output: Bytes, s: Bytes) returns (ok: bool, r: Bytes)
    ensures ok <==> |s| <= U32_MAX
    ensures ok ==> r == output + StringBytes(s)
  {
    hide ToBytes;
    if |s| > U32_MAX {
      return false, output;
    }
    r := AppendInteger(output, |s|, 4);
    return true, r + s;
  }

  method AppendKey(e: Event) returns (ok: bool, r: Bytes)
    requires Typed(e) && e.Key?
    ensures ok <==> Encodable(e)
    ensures ok ==> r == Encode(e)
  {
    hide ToBytes, IsText, Scalar, StringBytes;
    r := [];
    ok := CheckKey(e);
    if !ok {
      return;
    }
    r := [1, Flag(e.named)];
    r := AppendInteger(r, e.key, 4);
    r := AppendInteger(r, e.modifiers, 2);
    var bits := 0;
    if e.shifted.Some? {
      bits := bits + 1;
    }
    if e.baseLayout.Some? {
      bits := bits + 2;
    }
    r := r + [e.action, bits];
    ghost var fixed := r;
    if e.shifted.Some? {
      r := AppendInteger(r, e.shifted.value, 4);
    }
    assert r == fixed + OptionalBytes(e.shifted);
    ghost var first := r;
    if e.baseLayout.Some? {
      r := AppendInteger(r, e.baseLayout.value, 4);
    }
    assert r == first + OptionalBytes(e.baseLayout);
    hide OptionalBytes;
    ok, r := AppendString(r, e.text);
    if ok {
      assert r == fixed + (OptionalBytes(e.shifted) + (OptionalBytes(e.baseLayout) + StringBytes(e.text)));
    }
  }

  method AppendNumbers(e: Event) returns (ok: bool, r: Bytes)
    requires Typed(e) && (e.Mouse? || e.Scroll? || e.Command? || e.Focus?)
    ensures ok <==> Encodable(e)
    ensures ok ==> r == Encode(e)
  {
    hide ToBytes;
    r, ok := [], true;
    match e {
      case Mouse(x, y, button, action, modifiers) =>
        if button > 7 || action > 3 || modifiers > 0xFF {
          return false, r;
        }
        r := AppendInteger([3], x, 4);
        r := AppendInteger(r, y, 4);
        r := r + [button, action];
        r := AppendInteger(r, modifiers, 2);
      case Scroll(x, y, dx, dy, modifiers) =>
        if modifiers > 0xFF {
          return false, r;
        }
        r := AppendInteger([4], x, 4);
        r := AppendInteger(r, y, 4);
        r := AppendInteger(r, Unsigned(dx), 4);
        r := AppendInteger(r, Unsigned(dy), 4);
        r := AppendInteger(r, modifiers, 2);
      case Focus(focused) => r := [6, Flag(focused)];
      case Command(command) =>
        if command > 11 {
          return false, r;
        }
        r := AppendInteger([8], command, 2);
    }
  }

  method AppendTexts(e: Event) returns (ok: bool, r: Bytes)
    requires Typed(e) && (e.Text? || e.Paste? || e.Clipboard? || e.Response? || e.Unknown?)
    ensures ok <==> Encodable(e)
    ensures ok ==> r == Encode(e)
  {
    hide ToBytes, IsText, StringBytes;
    r := [];
    match e {
      case Text(utf8) =>
        ok := IsValid(utf8);
        if ok {
          ok, r := AppendString([2], utf8);
        }
      case Paste(phase, data) =>
        if phase > 3 {
          return false, r;
        }
        ok, r := AppendString([5, phase], data);
      case Clipboard(selection, data) =>
        if selection > 1 {
          return false, r;
        }
        ok, r := AppendString([7, selection], data);
      case Response(kind, value, data) =>
        if kind > 5 {
          return false, r;
        }
        r := AppendInteger([9, kind], value, 4);
        ok, r := AppendString(r, data);
      case Unknown(reason, data) =>
        if reason > 4 {
          return false, r;
        }
        ok, r := AppendString([10, reason], data);
    }
  }

  /** `encode_payload`: refuses exactly the events that are not encodable; the bytes decode to the event. */
  method EncodePayload(e: Event) returns (r: Option<Bytes>)
    requires Typed(e)
    ensures r.Some? <==> Encodable(e)
    ensures r.Some? ==> r.value == Encode(e) && Decode(r.value) == Some(e)
  {
    hide Encode, Encodable, Decode;
    var ok, output;
    if e.Key? {
      ok, output := AppendKey(e);
    } else if e.Mouse? || e.Scroll? || e.Command? || e.Focus? {
      ok, output := AppendNumbers(e);
    } else {
      ok, output := AppendTexts(e);
    }
    if !ok {
      return None;
    }
    EventRoundTrip(e);
    return Some(output);
  }

  /** `read_string`: a length and that many bytes at the offset, which moves behind them. */
  method ReadString(b: Bytes, offset: nat) returns (text: Option<Bytes>, next: nat)
    requires offset <= |b|
    ensures offset <= next <= |b|
    ensures LastString(b[offset..]) == if text.Some? && next == |b| then text else None
  {
    hide BigEndian;
    if |b| - offset < 4 {
      return None, offset;
    }
    var size := ReadInteger(b, offset, 4);
    assert b[offset..][..4] == b[offset..offset + 4];
    next := offset + 4;
    if size > |b| - next {
      return None, next;
    }
    assert b[offset..][4..] == b[offset + 4..];
    text := Some(b[next..next + size]);
    next := next + size;
    if next == |b| {
      assert b[offset + 4..] == b[offset + 4..next];
    }
  }

  method ScanKey(b: Bytes) returns (r: Option<Event>)
    requires b != []
    ensures r == DecodeKey(b)
  {
    hide BigEndian, IsText, Scalar, LastString;
    if |b| < 10 || b[1] > 1 || b[9] > 3 {
      return None;
    }
    var key := ReadInteger(b, 2, 4);
    var modifiers := ReadInteger(b, 6, 2);
    var offset := 10;
    var shifted: Option<nat> := None;
    if b[9] % 2 == 1 {
      if |b| - offset < 4 {
        return None;
      }
      var value := ReadInteger(b, offset, 4);
      assert b[offset..][..4] == b[offset..offset + 4] && b[offset..][4..] == b[offset + 4..];
      shifted := Some(value);
      offset := offset + 4;
    }
    assert ReadOptional(b[9] % 2 == 1, b[10..]) == Field(shifted, b[offset..]);
    ghost var middle := offset;
    var base: Option<nat> := None;
    if b[9] / 2 % 2 == 1 {
      if |b| - offset < 4 {
        return None;
      }
      var value := ReadInteger(b, offset, 4);
      assert b[offset..][..4] == b[offset..offset + 4] && b[offset..][4..] == b[offset + 4..];
      base := Some(value);
      offset := offset + 4;
    }
    assert ReadOptional(b[9] / 2 % 2 == 1, b[middle..]) == Field(base, b[offset..]);
    hide ReadOptional;
    var text;
    text, offset := ReadString(b, offset);
    if text.None? || offset != |b| {
      return None;
    }
    var e := Key(b[1] != 0, key, modifiers, b[8], shifted, base, text.value);
    var ok := CheckKey(e);
    r := if ok then Some(e) else None;
  }

  method ScanMouse(b: Bytes) returns (r: Option<Event>)
    ensures r == DecodeMouse(b)
  {
    hide BigEndian;
    if |b| != 13 {
      return None;
    }
    var x := ReadInteger(b, 1, 4);
    var y := ReadInteger(b, 5, 4);
    var modifiers := ReadInteger(b, 11, 2);
    if b[9] > 7 || b[10] > 3 || modifiers > 0xFF {
      return None;
    }
    return Some(Mouse(x, y, b[9], b[10], modifiers));
  }

  method ScanScroll(b: Bytes) returns (r: Option<Event>)
    ensures r == DecodeScroll(b)
  {
    hide BigEndian;
    if |b| != 19 {
      return None;
    }
    var x := ReadInteger(b, 1, 4);
    var y := ReadInteger(b, 5, 4);
    var dx := ReadInteger(b, 9, 4);
    var dy := ReadInteger(b, 13, 4);
    var modifiers := ReadInteger(b, 17, 2);
    NumberCanonical(b[9..13]);
    NumberCanonical(b[13..17]);
    if modifiers > 0xFF {
      return None;
    }
    return Some(Scroll(x, y, Signed(dx), Signed(dy), modifiers));
  }

  /** The events that end in a string, behind at most one small number and one 32-bit value. */
  method ScanTexts(b: Bytes) returns (r: Option<Event>)
    requires b != [] && b[0] in {2, 5, 7, 9, 10}
    ensures r == Decode(b)
  {
    hide BigEndian, IsText, LastString, DecodeKey, DecodeMouse, DecodeScroll;
    var offset := 1;
    var tag, value := 0, 0;
    if b[0] != 2 {
      var limit := if b[0] == 5 then 3 else if b[0] == 7 then 1 else if b[0] == 9 then 5 else 4;
      if |b| < (if b[0] == 9 then 10 else 6) || b[1] > limit {
        return None;
      }
      tag, offset := b[1], 2;
      if b[0] == 9 {
        value := ReadInteger(b, 2, 4);
        offset := 6;
      }
    }
    var text;
    text, offset := ReadString(b, offset);
    if text.None? || offset != |b| {
      return None;
    }
    if b[0] == 2 {
      var ok := IsValid(text.value);
      return if ok then Some(Text(text.value)) else None;
    }
    return Some(if b[0] == 5 then Paste(tag, text.value)
                else if b[0] == 7 then Clipboard(tag, text.value)
                else if b[0] == 9 then Response(tag, value, text.value)
                else Unknown(tag, text.value));
  }

  method ScanPayload(b: Bytes) returns (r: Option<Event>)
    ensures r == Decode(b)
  {
    hide BigEndian, IsText, DecodeKey, DecodeMouse, DecodeScroll, DecodePaste, DecodeClipboard, DecodeUnknown, DecodeResponse, LastString;
    if b == [] {
      return None;
    }
    if b[0] == 1 {
      r := ScanKey(b);
    } else if b[0] == 3 {
      r := ScanMouse(b);
    } else if b[0] == 4 {
      r := ScanScroll(b);
    } else if b[0] == 6 {
      if |b| != 2 || b[1] > 1 {
        return None;
      }
      return Some(Focus(b[1] != 0));
    } else if b[0] == 8 {
      if |b| != 3 {
        return None;
      }
      var command := ReadInteger(b, 1, 2);
      if command > 11 {
        return None;
      }
      return Some(Command(command));
    } else if b[0] in {2, 5, 7, 9, 10} {
      r := ScanTexts(b);
    } else {
      r := None;
    }
  }

  /** `decode_payload`: answers the one event that encodes to the payload, or none exactly when there is none. */
  method DecodePayload(b: Bytes) returns (r: Option<Event>)
    ensures r.Some? ==> Typed(r.value) && Encodable(r.value) && Encode(r.value) == b
    ensures r.None? ==> forall e :: Typed(e) && Encodable(e) ==> Encode(e) != b
  {
    hide Typed, Encodable, Encode, Decode;
    r := ScanPayload(b);
    if r.Some? {
      AcceptedPayload(b);
    }
    forall e | Typed(e) && Encodable(e) ensures Encode(e) == b ==> r.Some? {
      EventRoundTrip(e);
    }
  }
}
