/** The version-zero IPC envelope (utils/ipc/msg.cpp:25-278). */
module Wire {
  import opened Basics
  import opened Integers
  import opened Hashing

  /** The optional header sections, in wire order; an empty extension is an absent one. */
  datatype Options = Options(session: Option<Bytes>, timestamp: Option<nat>, multipart: Option<(nat, nat)>, extension: Bytes)

  datatype Message = Message(channel: nat, id: nat, options: Options, payload: Bytes, checksum: bool)

  datatype Status =
    | InvalidArgument | MessageTooLarge | TruncatedMessage | MalformedMessage | UnsupportedVersion | ChecksumMismatch

  datatype Encoded = Sent(bytes: Bytes) | Refused(status: Status)

  datatype Decoded = Accepted(message: Message, consumed: nat) | Rejected(status: Status)

  const MAGIC: Bytes := [80, 85, 67, 73]
  const BASE_HEADER_BYTES: nat := 24
  const MAXIMUM_SESSION_BYTES: nat := 16
  const CHECKSUM_BYTES: nat := 32

  /** The widths of the C++ fields. */
  predicate Typed(m: Message) {
    && m.channel <= U32_MAX && m.id <= U32_MAX
    && (m.options.timestamp.Some? ==> m.options.timestamp.value <= U64_MAX)
    && (m.options.multipart.Some? ==> m.options.multipart.value.0 <= U32_MAX && m.options.multipart.value.1 <= U32_MAX)
  }

  // ---------------------------------------------------------- option sections

  predicate ValidSession(s: Option<Bytes>) {
    s.Some? ==> 1 <= |s.value| <= MAXIMUM_SESSION_BYTES
  }

  predicate ValidTimestamp(t: Option<nat>) {
    t.Some? ==> t.value <= U64_MAX
  }

  predicate ValidMultipart(p: Option<(nat, nat)>) {
    p.Some? ==> p.value.1 < p.value.0 <= U32_MAX
  }

  predicate ValidOptions(o: Options) {
    ValidSession(o.session) && ValidTimestamp(o.timestamp) && ValidMultipart(o.multipart)
  }

  function SessionBytes(s: Option<Bytes>): Bytes
    requires ValidSession(s)
  {
    if s.None? then [] else [|s.value|] + s.value
  }

  function TimestampBytes(t: Option<nat>): Bytes {
    if t.None? then [] else ToBytes(t.value, 8)
  }

  function MultipartBytes(p: Option<(nat, nat)>): Bytes {
    if p.None? then [] else ToBytes(p.value.0, 4) + ToBytes(p.value.1, 4)
  }

  function OptionBytes(o: Options): Bytes
    requires ValidSession(o.session)
  {
    SessionBytes(o.session) + TimestampBytes(o.timestamp) + MultipartBytes(o.multipart) + o.extension
  }

  /** A section read off the front of the remaining header bytes. */
  datatype Section<T> = Bad | Section(value: T, rest: Bytes)

  function ReadSession(has: bool, b: Bytes): Section<Option<Bytes>> {
    if !has then Section(None, b)
    else if b == [] || b[0] == 0 || b[0] > MAXIMUM_SESSION_BYTES || b[0] > |b| - 1 then Bad
    else Section(Some(b[1..1 + b[0]]), b[1 + b[0]..])
  }

  function ReadTimestamp(has: bool, b: Bytes): Section<Option<nat>> {
    if !has then Section(None, b)
    else if |b| < 8 then Bad
    else Section(Some(BigEndian(b[..8])), b[8..])
  }

  function ReadMultipart(has: bool, b: Bytes): Section<Option<(nat, nat)>> {
    if !has then Section(None, b)
    else if |b| < 8 || BigEndian(b[4..8]) >= BigEndian(b[..4]) then Bad
    else Section(Some((BigEndian(b[..4]), BigEndian(b[4..8]))), b[8..])
  }

  function ReadExtension(has: bool, b: Bytes): Section<Bytes> {
    if has == (b == []) then Bad else Section(b, [])
  }

  lemma SessionRoundTrip(s: Option<Bytes>, rest: Bytes)
    requires ValidSession(s)
    ensures ReadSession(s.Some?, SessionBytes(s) + rest) == Section(s, rest)
  {
    if s.Some? {
      var b := SessionBytes(s) + rest;
      assert b[1..1 + b[0]] == s.value && b[1 + b[0]..] == rest;
    }
  }

  lemma SessionCanonical(has: bool, b: Bytes)
    ensures var r := ReadSession(has, b);
            r.Section? ==> r.value.Some? == has && ValidSession(r.value) && b == SessionBytes(r.value) + r.rest
  {
  }

  lemma TimestampRoundTrip(t: Option<nat>, rest: Bytes)
    requires ValidTimestamp(t)
    ensures ReadTimestamp(t.Some?, TimestampBytes(t) + rest) == Section(t, rest)
  {
    if t.Some? {
      Limits();
      ToBytesValue(t.value, 8);
      assert (TimestampBytes(t) + rest)[..8] == TimestampBytes(t) && (TimestampBytes(t) + rest)[8..] == rest;
    }
  }

  lemma TimestampCanonical(has: bool, b: Bytes)
    ensures var r := ReadTimestamp(has, b);
            r.Section? ==> r.value.Some? == has && ValidTimestamp(r.value) && b == TimestampBytes(r.value) + r.rest
  {
    if has && |b| >= 8 {
      Limits();
      ValueToBytes(b[..8]);
      assert b == b[..8] + b[8..];
    }
  }

  lemma MultipartRoundTrip(p: Option<(nat, nat)>, rest: Bytes)
    requires ValidMultipart(p)
    ensures ReadMultipart(p.Some?, MultipartBytes(p) + rest) == Section(p, rest)
  {
    if p.Some? {
      Limits();
      ToBytesValue(p.value.0, 4);
      ToBytesValue(p.value.1, 4);
      var b := MultipartBytes(p) + rest;
      assert b[..4] == ToBytes(p.value.0, 4) && b[4..8] == ToBytes(p.value.1, 4) && b[8..] == rest;
    }
  }

  lemma MultipartCanonical(has: bool, b: Bytes)
    ensures var r := ReadMultipart(has, b);
            r.Section? ==> r.value.Some? == has && ValidMultipart(r.value) && b == MultipartBytes(r.value) + r.rest
  {
    if has && |b| >= 8 {
      Limits();
      ValueToBytes(b[..4]);
      ValueToBytes(b[4..8]);
      assert b == b[..4] + b[4..8] + b[8..];
    }
  }

  /** The flags byte. */
  function FlagsOf(o: Options, checksum: bool): byte {
    (if o.session.Some? then 1 else 0) + (if o.timestamp.Some? then 2 else 0) + (if o.multipart.Some? then 4 else 0)
    + (if checksum then 8 else 0) + (if o.extension != [] then 16 else 0)
  }

  function ReadOptions(flags: byte, b: Bytes): Option<Options> {
    var s := ReadSession(flags % 2 == 1, b);
    if s.Bad? then None else
    var t := ReadTimestamp(flags / 2 % 2 == 1, s.rest);
    if t.Bad? then None else
    var p := ReadMultipart(flags / 4 % 2 == 1, t.rest);
    if p.Bad? then None else
    var e := ReadExtension(flags / 16 % 2 == 1, p.rest);
    if e.Bad? then None else Some(Options(s.value, t.value, p.value, e.value))
  }

  lemma FlagBits(o: Options, checksum: bool)
    ensures var f := FlagsOf(o, checksum);
            && f < 32 && (f % 2 == 1) == o.session.Some? && (f / 2 % 2 == 1) == o.timestamp.Some?
            && (f / 4 % 2 == 1) == o.multipart.Some? && (f / 8 % 2 == 1) == checksum && (f / 16 % 2 == 1) == (o.extension != [])
  {
  }

  lemma OptionsRoundTrip(o: Options, checksum: bool)
    requires ValidOptions(o)
    ensures ReadOptions(FlagsOf(o, checksum), OptionBytes(o)) == Some(o)
  {
    hide SessionBytes, TimestampBytes, MultipartBytes, ReadSession, ReadTimestamp, ReadMultipart, FlagsOf;
    FlagBits(o, checksum);
    var c := o.extension;
    var b := MultipartBytes(o.multipart) + c;
    var a := TimestampBytes(o.timestamp) + b;
    SessionRoundTrip(o.session, a);
    TimestampRoundTrip(o.timestamp, b);
    MultipartRoundTrip(o.multipart, c);
    assert OptionBytes(o) == SessionBytes(o.session) + a;
  }

  lemma OptionsCanonical(flags: byte, b: Bytes)
    requires flags < 32
    ensures var r := ReadOptions(flags, b);
            r.Some? ==> ValidOptions(r.value) && OptionBytes(r.value) == b && FlagsOf(r.value, flags / 8 % 2 == 1) == flags
  {
    var r := ReadOptions(flags, b);
    if r.Some? {
      SectionsCanonical(flags, b);
      FlagsFromBits(flags);
    }
  }

  lemma SectionsCanonical(flags: byte, b: Bytes)
    requires ReadOptions(flags, b).Some?
    ensures var o := ReadOptions(flags, b).value;
            && ValidOptions(o) && OptionBytes(o) == b
            && o.session.Some? == (flags % 2 == 1) && o.timestamp.Some? == (flags / 2 % 2 == 1)
            && o.multipart.Some? == (flags / 4 % 2 == 1) && (o.extension != []) == (flags / 16 % 2 == 1)
  {
    hide SessionBytes, TimestampBytes, MultipartBytes, ReadSession, ReadTimestamp, ReadMultipart;
    SessionCanonical(flags % 2 == 1, b);
    var s := ReadSession(flags % 2 == 1, b);
    TimestampCanonical(flags / 2 % 2 == 1, s.rest);
    var t := ReadTimestamp(flags / 2 % 2 == 1, s.rest);
    MultipartCanonical(flags / 4 % 2 == 1, t.rest);
    var p := ReadMultipart(flags / 4 % 2 == 1, t.rest);
    assert b == SessionBytes(s.value) + (TimestampBytes(t.value) + (MultipartBytes(p.value) + p.rest));
  }

  lemma FlagsFromBits(flags: byte)
    requires flags < 32
    ensures flags == flags % 2 + 2 * (flags / 2 % 2) + 4 * (flags / 4 % 2) + 8 * (flags / 8 % 2) + 16 * (flags / 16 % 2)
  {
  }

  // --------------------------------------------------------------- the envelope

  function HeaderSize(o: Options): nat
    requires ValidSession(o.session)
  {
    BASE_HEADER_BYTES + |OptionBytes(o)|
  }

  /** The fixed preamble. */
  function Base(flags: byte, header: nat, channel: nat, id: nat, length: nat): (b: Bytes)
    ensures |b| == BASE_HEADER_BYTES
  {
    MAGIC + [0] + [flags] + ToBytes(header, 2) + ToBytes(channel, 4) + ToBytes(id, 4) + ToBytes(length, 8)
  }

  /** Everything that the checksum covers. */
  function Body(m: Message): Bytes
    requires ValidSession(m.options.session)
  {
    Base(FlagsOf(m.options, m.checksum), HeaderSize(m.options), m.channel, m.id, |m.payload|) + OptionBytes(m.options) + m.payload
  }

  function Envelope(sha: Bytes -> Hash, m: Message): Bytes
    requires ValidSession(m.options.session)
  {
    Body(m) + (if m.checksum then sha(Body(m)) else [])
  }

  /** When `serialize_message` refuses, in the order of its checks. */
  function Refusal(m: Message, maximum: nat): Option<Status> {
    if m.channel == 0 || maximum == 0 then Some(InvalidArgument)
    else if |m.payload| > maximum then Some(MessageTooLarge)
    else if !ValidSession(m.options.session) then Some(InvalidArgument)
    else if m.options.multipart.Some? && m.options.multipart.value.1 >= m.options.multipart.value.0 then Some(InvalidArgument)
    else if HeaderSize(m.options) > 0xFFFF then Some(MessageTooLarge)
    else None
  }

  function Encode(sha: Bytes -> Hash, m: Message, maximum: nat): Encoded {
    match Refusal(m, maximum)
    case Some(status) => Refused(status)
    case None => Sent(Envelope(sha, m))
  }

  /** The fields of a complete preamble. */
  datatype Preamble = Preamble(flags: byte, header: nat, channel: nat, id: nat, length: nat)

  function ReadBase(data: Bytes): Preamble
    requires |data| >= BASE_HEADER_BYTES
  {
    Preamble(data[5], BigEndian(data[6..8]), BigEndian(data[8..12]), BigEndian(data[12..16]), BigEndian(data[16..24]))
  }

  /** The whole of `deserialize_message`, check by check. */
  function Decode(sha: Bytes -> Hash, data: Bytes, maximum: nat): Decoded {
    if maximum == 0 then Rejected(InvalidArgument)
    else if |data| < BASE_HEADER_BYTES then Rejected(TruncatedMessage)
    else if data[..4] != MAGIC then Rejected(MalformedMessage)
    else if data[4] != 0 then Rejected(UnsupportedVersion)
    else if data[5] >= 32 then Rejected(MalformedMessage)
    else
      var p := ReadBase(data);
      if p.header < BASE_HEADER_BYTES then Rejected(MalformedMessage)
      else if |data| < p.header then Rejected(TruncatedMessage)
      else if p.channel == 0 then Rejected(MalformedMessage)
      else if p.length > maximum then Rejected(MessageTooLarge)
      else
        var options := ReadOptions(p.flags, data[BASE_HEADER_BYTES..p.header]);
        if options.None? then Rejected(MalformedMessage)
        else DecodeRest(sha, data, p, options.value)
  }

  /** Payload and checksum behind a good header. */
  function DecodeRest(sha: Bytes -> Hash, data: Bytes, p: Preamble, options: Options): Decoded
    requires p.header <= |data|
  {
    var checksum := p.flags / 8 % 2 == 1;
    var body := p.header + p.length;
    var total := body + (if checksum then CHECKSUM_BYTES else 0);
    if total > U64_MAX then Rejected(MessageTooLarge)
    else if |data| < total then Rejected(TruncatedMessage)
    else if checksum && data[body..total] != sha(data[..body]) then Rejected(ChecksumMismatch)
    else Accepted(Message(p.channel, p.id, options, data[p.header..body], checksum), total)
  }

  lemma BaseRoundTrip(flags: byte, header: nat, channel: nat, id: nat, length: nat, rest: Bytes)
    requires header <= 0xFFFF && channel <= U32_MAX && id <= U32_MAX && length <= U64_MAX
    ensures var data := Base(flags, header, channel, id, length) + rest;
            data[..4] == MAGIC && data[4] == 0 && ReadBase(data) == Preamble(flags, header, channel, id, length)
  {
    hide BigEndian, ToBytes;
    Limits();
    ToBytesValue(header, 2);
    ToBytesValue(channel, 4);
    ToBytesValue(id, 4);
    ToBytesValue(length, 8);
    var data := Base(flags, header, channel, id, length) + rest;
    BaseSlices(ToBytes(header, 2), ToBytes(channel, 4), ToBytes(id, 4), ToBytes(length, 8), flags, rest, data);
  }

  /** Where the fixed fields lie. */
  lemma BaseSlices(h: Bytes, c: Bytes, i: Bytes, l: Bytes, flags: byte, rest: Bytes, data: Bytes)
    requires |h| == 2 && |c| == 4 && |i| == 4 && |l| == 8
    requires data == MAGIC + [0] + [flags] + h + c + i + l + rest
    ensures data[..4] == MAGIC && data[4] == 0 && data[5] == flags && data[6..8] == h
    ensures data[8..12] == c && data[12..16] == i && data[16..24] == l && data[24..] == rest
  {
  }

  lemma BaseCanonical(data: Bytes)
    requires |data| >= BASE_HEADER_BYTES && data[..4] == MAGIC && data[4] == 0
    ensures var p := ReadBase(data);
            && Base(p.flags, p.header, p.channel, p.id, p.length) == data[..BASE_HEADER_BYTES]
            && p.header <= 0xFFFF && p.channel <= U32_MAX && p.id <= U32_MAX && p.length <= U64_MAX
  {
    hide BigEndian, ToBytes;
    Limits();
    ValueToBytes(data[6..8]);
    ValueToBytes(data[8..12]);
    ValueToBytes(data[12..16]);
    ValueToBytes(data[16..24]);
    assert data[..24] == data[..4] + [data[4]] + [data[5]] + data[6..8] + data[8..12] + data[12..16] + data[16..24];
  }

  lemma AcceptedShape(m: Message, maximum: nat)
    requires Typed(m) && Refusal(m, maximum).None?
    ensures ValidOptions(m.options) && m.channel > 0 && 0 < maximum && |m.payload| <= maximum && HeaderSize(m.options) <= 0xFFFF
  {
  }

  /** What decoding sees of any data that begins with the header of a sendable message. */
  lemma HeaderReads(sha: Bytes -> Hash, m: Message, maximum: nat, rest: Bytes)
    requires Typed(m) && Refusal(m, maximum).None? && |m.payload| <= U64_MAX
    ensures ValidSession(m.options.session)
    ensures var f := FlagsOf(m.options, m.checksum);
            var h := HeaderSize(m.options);
            var head := Base(f, h, m.channel, m.id, |m.payload|) + OptionBytes(m.options);
            |head| == h && Decode(sha, head + rest, maximum)
                           == DecodeRest(sha, head + rest, Preamble(f, h, m.channel, m.id, |m.payload|), m.options)
  {
    hide Base, ReadBase, DecodeRest, OptionBytes, ReadOptions, FlagsOf, Typed, Refusal;
    AcceptedShape(m, maximum);
    var f, h, o := FlagsOf(m.options, m.checksum), HeaderSize(m.options), OptionBytes(m.options);
    var b := Base(f, h, m.channel, m.id, |m.payload|);
    BaseSize(f, h, m.channel, m.id, |m.payload|);
    HeaderFits(m);
    var data := b + o + rest;
    assert data == b + (o + rest);
    assert data[BASE_HEADER_BYTES..h] == o;
    BaseRoundTrip(f, h, m.channel, m.id, |m.payload|, o + rest);
    OptionsRoundTrip(m.options, m.checksum);
    FlagBits(m.options, m.checksum);
    BaseFlags(data);
  }

  lemma HeaderFits(m: Message)
    requires Typed(m)
    ensures m.channel <= U32_MAX && m.id <= U32_MAX
  {
  }

  lemma BaseSize(flags: byte, header: nat, channel: nat, id: nat, length: nat)
    ensures |Base(flags, header, channel, id, length)| == BASE_HEADER_BYTES
  {
  }

  lemma BaseFlags(data: Bytes)
    requires |data| >= BASE_HEADER_BYTES
    ensures ReadBase(data).flags == data[5]
  {
  }

  /** Decoding an encoding followed by any tail returns the message and consumes exactly the encoding. */
  lemma EnvelopeRoundTrip(sha: Bytes -> Hash, m: Message, maximum: nat, tail: Bytes)
    requires Typed(m) && Encode(sha, m, maximum).Sent?
    requires |Encode(sha, m, maximum).bytes + tail| <= U64_MAX
    ensures var bytes := Encode(sha, m, maximum).bytes;
            Decode(sha, bytes + tail, maximum) == Accepted(m, |bytes|)
  {
    hide Base, Decode, OptionBytes, FlagsOf, Typed, Refusal, HeaderSize;
    AcceptedShape(m, maximum);
    var f, h := FlagsOf(m.options, m.checksum), HeaderSize(m.options);
    var head := Base(f, h, m.channel, m.id, |m.payload|) + OptionBytes(m.options);
    var sum: Bytes := if m.checksum then sha(Body(m)) else [];
    var bytes := Envelope(sha, m);
    var rest := m.payload + sum + tail;
    assert bytes + tail == head + rest;
    HeaderReads(sha, m, maximum, rest);
    FlagBits(m.options, m.checksum);
    var data := head + rest;
    assert data[h..h + |m.payload|] == m.payload;
    assert data[..h + |m.payload|] == Body(m);
    assert m.checksum ==> data[h + |m.payload|..h + |m.payload| + CHECKSUM_BYTES] == sum;
  }

  /** Every strict prefix of an encoding is reported as truncated. */
  lemma PrefixIsTruncated(sha: Bytes -> Hash, m: Message, maximum: nat, n: nat)
    requires Typed(m) && Encode(sha, m, maximum).Sent?
    requires n < |Encode(sha, m, maximum).bytes| <= U64_MAX
    ensures Decode(sha, Encode(sha, m, maximum).bytes[..n], maximum) == Rejected(TruncatedMessage)
  {
    hide Base, Decode, OptionBytes, FlagsOf, Typed, Refusal, HeaderSize;
    AcceptedShape(m, maximum);
    var f, h := FlagsOf(m.options, m.checksum), HeaderSize(m.options);
    var head := Base(f, h, m.channel, m.id, |m.payload|) + OptionBytes(m.options);
    var bytes := Envelope(sha, m);
    HeaderReads(sha, m, maximum, []);
    if n < h {
      assert bytes[..n] == head[..n];
      ShortHeader(sha, m, maximum, head, n);
    } else {
      assert bytes[..n] == head + bytes[h..n];
      HeaderReads(sha, m, maximum, bytes[h..n]);
      FlagBits(m.options, m.checksum);
    }
  }

  /** A cut inside the header. */
  lemma ShortHeader(sha: Bytes -> Hash, m: Message, maximum: nat, head: Bytes, n: nat)
    requires Typed(m) && Refusal(m, maximum).None? && |m.payload| <= U64_MAX && ValidSession(m.options.session)
    requires head == Base(FlagsOf(m.options, m.checksum), HeaderSize(m.options), m.channel, m.id, |m.payload|) + OptionBytes(m.options)
    requires n < |head| == HeaderSize(m.options)
    ensures Decode(sha, head[..n], maximum) == Rejected(TruncatedMessage)
  {
    hide Base, ReadBase, DecodeRest, OptionBytes, ReadOptions, FlagsOf, Typed, Refusal, HeaderSize;
    AcceptedShape(m, maximum);
    var f, h := FlagsOf(m.options, m.checksum), HeaderSize(m.options);
    var b := Base(f, h, m.channel, m.id, |m.payload|);
    BaseSize(f, h, m.channel, m.id, |m.payload|);
    HeaderFits(m);
    FlagBits(m.options, m.checksum);
    var data := head[..n];
    if n >= BASE_HEADER_BYTES {
      assert data == b + data[BASE_HEADER_BYTES..];
      BaseRoundTrip(f, h, m.channel, m.id, |m.payload|, data[BASE_HEADER_BYTES..]);
      BaseFlags(data);
      HeaderAtLeastBase(m.options);
    }
  }

  lemma HeaderAtLeastBase(o: Options)
    requires ValidSession(o.session)
    ensures HeaderSize(o) >= BASE_HEADER_BYTES
  {
  }

  /** Re-encoding what was accepted reproduces exactly the consumed bytes: the format is canonical. */
  lemma AcceptedIsCanonical(sha: Bytes -> Hash, data: Bytes, maximum: nat)
    requires Decode(sha, data, maximum).Accepted?
    ensures var r := Decode(sha, data, maximum);
            r.consumed <= |data| && Typed(r.message) && Encode(sha, r.message, maximum) == Sent(data[..r.consumed])
  {
    hide ReadBase, OptionBytes, ReadOptions, FlagsOf, Base;
    var p := ReadBase(data);
    BaseFlags(data);
    BaseCanonical(data);
    var o := ReadOptions(p.flags, data[BASE_HEADER_BYTES..p.header]).value;
    OptionsCanonical(p.flags, data[BASE_HEADER_BYTES..p.header]);
    var r := Decode(sha, data, maximum);
    RebuiltBody(data, p, o, r.message);
    if r.message.checksum {
      var body := p.header + p.length;
      assert data[..body] + data[body..body + CHECKSUM_BYTES] == data[..r.consumed];
    }
  }

  lemma RebuiltBody(data: Bytes, p: Preamble, o: Options, m: Message)
    requires BASE_HEADER_BYTES <= p.header && p.header + p.length <= |data|
    requires Base(p.flags, p.header, p.channel, p.id, p.length) == data[..BASE_HEADER_BYTES]
    requires ValidOptions(o) && OptionBytes(o) == data[BASE_HEADER_BYTES..p.header] && FlagsOf(o, p.flags / 8 % 2 == 1) == p.flags
    requires m == Message(p.channel, p.id, o, data[p.header..p.header + p.length], p.flags / 8 % 2 == 1)
    ensures HeaderSize(o) == p.header && Body(m) == data[..p.header + p.length]
  {
    hide OptionBytes, FlagsOf, Base;
    assert data[..p.header + p.length] == data[..BASE_HEADER_BYTES] + data[BASE_HEADER_BYTES..p.header] + m.payload;
  }

  // -------------------------------------------------------------------- layout

  /** Where every fixed field of an encoding lies, and that all numbers are big-endian. */
  lemma EnvelopeLayout(sha: Bytes -> Hash, m: Message, maximum: nat)
    requires Typed(m) && Encode(sha, m, maximum).Sent? && |m.payload| <= U64_MAX
    ensures var b := Encode(sha, m, maximum).bytes;
            var h := HeaderSize(m.options);
            var body := h + |m.payload|;
            && |b| == body + (if m.checksum then 32 else 0) && h >= 24
            && b[0] == 'P' as int && b[1] == 'U' as int && b[2] == 'C' as int && b[3] == 'I' as int && b[4] == 0
            && BigEndian(b[6..8]) == h
            && BigEndian(b[8..12]) == m.channel && BigEndian(b[12..16]) == m.id && BigEndian(b[16..24]) == |m.payload|
            && b[24..h] == OptionBytes(m.options) && b[h..body] == m.payload
            && (m.checksum ==> b[body..] == sha(b[..body]))
  {
    hide BigEndian, ToBytes, OptionBytes, FlagsOf, Typed, Refusal, ReadBase;
    AcceptedShape(m, maximum);
    HeaderFits(m);
    var f, h, o := FlagsOf(m.options, m.checksum), HeaderSize(m.options), OptionBytes(m.options);
    var tail: Bytes := if m.checksum then sha(Body(m)) else [];
    var b := Envelope(sha, m);
    var rest := o + m.payload + tail;
    assert b == MAGIC + [0] + [f] + ToBytes(h, 2) + ToBytes(m.channel, 4) + ToBytes(m.id, 4) + ToBytes(|m.payload|, 8) + rest;
    FieldsReadBack(h, m.channel, m.id, |m.payload|);
    BaseSlices(ToBytes(h, 2), ToBytes(m.channel, 4), ToBytes(m.id, 4), ToBytes(|m.payload|, 8), f, rest, b);
    assert b[24..h] == b[24..][..h - 24] == o;
    assert b[h..h + |m.payload|] == m.payload && b[..h + |m.payload|] == Body(m);
    assert b[h + |m.payload|..] == tail;
    assert b[..4][0] == 80 && b[..4][1] == 85 && b[..4][2] == 67 && b[..4][3] == 73;
  }

  lemma FieldsReadBack(header: nat, channel: nat, id: nat, length: nat)
    requires header <= 0xFFFF && channel <= U32_MAX && id <= U32_MAX && length <= U64_MAX
    ensures BigEndian(ToBytes(header, 2)) == header && BigEndian(ToBytes(channel, 4)) == channel
    ensures BigEndian(ToBytes(id, 4)) == id && BigEndian(ToBytes(length, 8)) == length
  {
    Limits();
    ToBytesValue(header, 2);
    ToBytesValue(channel, 4);
    ToBytesValue(id, 4);
    ToBytesValue(length, 8);
  }

  /** The flags byte: one bit for each optional section, and no other. */
  lemma FlagLayout(sha: Bytes -> Hash, m: Message, maximum: nat)
    requires Typed(m) && Encode(sha, m, maximum).Sent?
    ensures var b := Encode(sha, m, maximum).bytes;
            && |b| >= 24 && b[5] < 32
            && (b[5] % 2 == 1 <==> m.options.session.Some?) && (b[5] / 2 % 2 == 1 <==> m.options.timestamp.Some?)
            && (b[5] / 4 % 2 == 1 <==> m.options.multipart.Some?) && (b[5] / 8 % 2 == 1 <==> m.checksum)
            && (b[5] / 16 % 2 == 1 <==> m.options.extension != [])
  {
    hide ToBytes, OptionBytes, FlagsOf, Typed, Refusal;
    FlagBits(m.options, m.checksum);
    AcceptedShape(m, maximum);
    var b := Envelope(sha, m);
    assert b[5] == FlagsOf(m.options, m.checksum);
  }

  /** The optional sections: session length and bytes, timestamp, part counts, then the extension to the end. */
  lemma OptionLayout(o: Options)
    requires ValidOptions(o)
    ensures var b := OptionBytes(o);
            var t := if o.session.Some? then 1 + |o.session.value| else 0;
            var p := t + (if o.timestamp.Some? then 8 else 0);
            var e := p + (if o.multipart.Some? then 8 else 0);
            && e <= |b| && b[e..] == o.extension
            && (o.session.Some? ==> b[0] == |o.session.value| && b[1..t] == o.session.value)
            && (o.timestamp.Some? ==> BigEndian(b[t..p]) == o.timestamp.value)
            && (o.multipart.Some? ==> BigEndian(b[p..p + 4]) == o.multipart.value.0 && BigEndian(b[p + 4..e]) == o.multipart.value.1)
  {
    hide BigEndian, ToBytes;
    Limits();
    var b := OptionBytes(o);
    var s, t, p := SessionBytes(o.session), TimestampBytes(o.timestamp), MultipartBytes(o.multipart);
    assert b == s + t + p + o.extension;
    assert b[|s|..|s| + |t|] == t && b[|s| + |t|..|s| + |t| + |p|] == p;
    if o.timestamp.Some? {
      ToBytesValue(o.timestamp.value, 8);
    }
    if o.multipart.Some? {
      ToBytesValue(o.multipart.value.0, 4);
      ToBytesValue(o.multipart.value.1, 4);
      var at := |s| + |t|;
      assert b[at..at + 4] == p[..4] && b[at + 4..at + 8] == p[4..];
    }
  }

  // ------------------------------------------------------------------- streams

  /** Encodings written one after the other. */
  function EncodeAll(sha: Bytes -> Hash, ms: seq<Message>, maximum: nat): Bytes
    requires forall i :: 0 <= i < |ms| ==> Encode(sha, ms[i], maximum).Sent?
  {
    if ms == [] then [] else Encode(sha, ms[0], maximum).bytes + EncodeAll(sha, ms[1..], maximum)
  }

  /** Decode messages until the data runs out. */
  function DecodeAll(sha: Bytes -> Hash, data: Bytes, maximum: nat): Option<seq<Message>>
    decreases |data|
  {
    if data == [] then Some([])
    else
      var r := Decode(sha, data, maximum);
      if r.Rejected? then None
      else
        AcceptedIsCanonical(sha, data, maximum);
        EnvelopeNotEmpty(sha, r.message, maximum);
        match DecodeAll(sha, data[r.consumed..], maximum)
        case None => None
        case Some(rest) => Some([r.message] + rest)
  }

  lemma EnvelopeNotEmpty(sha: Bytes -> Hash, m: Message, maximum: nat)
    requires Encode(sha, m, maximum).Sent?
    ensures |Encode(sha, m, maximum).bytes| >= BASE_HEADER_BYTES
  {
    hide Base;
    BaseSize(FlagsOf(m.options, m.checksum), HeaderSize(m.options), m.channel, m.id, |m.payload|);
  }

  /** A stream of encodings splits back into exactly its messages. */
  lemma {:induction false} StreamRoundTrip(sha: Bytes -> Hash, ms: seq<Message>, maximum: nat)
    requires forall i :: 0 <= i < |ms| ==> Typed(ms[i]) && Encode(sha, ms[i], maximum).Sent?
    requires |EncodeAll(sha, ms, maximum)| <= U64_MAX
    ensures DecodeAll(sha, EncodeAll(sha, ms, maximum), maximum) == Some(ms)
  {
    hide Encode, Decode, Typed;
    if ms != [] {
      var first, tail := Encode(sha, ms[0], maximum).bytes, EncodeAll(sha, ms[1..], maximum);
      EnvelopeNotEmpty(sha, ms[0], maximum);
      EnvelopeRoundTrip(sha, ms[0], maximum, tail);
      StreamRoundTrip(sha, ms[1..], maximum);
      assert (first + tail)[|first|..] == tail;
      assert ms == [ms[0]] + ms[1..];
    }
  }

  /** And a stream that decodes at all is the encoding of what it decodes to. */
  lemma {:induction false} StreamCanonical(sha: Bytes -> Hash, data: Bytes, maximum: nat)
    requires DecodeAll(sha, data, maximum).Some?
    ensures var ms := DecodeAll(sha, data, maximum).value;
            (forall i :: 0 <= i < |ms| ==> Encode(sha, ms[i], maximum).Sent?) && EncodeAll(sha, ms, maximum) == data
    decreases |data|
  {
    hide Encode, Decode;
    if data != [] {
      var r := Decode(sha, data, maximum);
      AcceptedIsCanonical(sha, data, maximum);
      EnvelopeNotEmpty(sha, r.message, maximum);
      StreamCanonical(sha, data[r.consumed..], maximum);
      var rest := DecodeAll(sha, data[r.consumed..], maximum).value;
      assert ([r.message] + rest)[1..] == rest;
      assert data == data[..r.consumed] + data[r.consumed..];
    }
  }

  // ------------------------------------------------------------------- methods

  /** `serialize_message`: appends to one growing buffer. */
  method SerializeMessage(sha: Bytes -> Hash, m: Message, maximum: nat) returns (r: Encoded)
    ensures r == Encode(sha, m, maximum)
  {
    hide ToBytes;
    if m.channel == 0 || maximum == 0 {
      return Refused(InvalidArgument);
    }
    if |m.payload| > maximum {
      return Refused(MessageTooLarge);
    }
    var o := m.options;
    if o.session.Some? && (|o.session.value| == 0 || |o.session.value| > MAXIMUM_SESSION_BYTES) {
      return Refused(InvalidArgument);
    }
    if o.multipart.Some? && (o.multipart.value.0 == 0 || o.multipart.value.1 >= o.multipart.value.0) {
      return Refused(InvalidArgument);
    }
    var header := BASE_HEADER_BYTES;
    if o.session.Some? {
      header := header + 1 + |o.session.value|;
    }
    if o.timestamp.Some? {
      header := header + 8;
    }
    if o.multipart.Some? {
      header := header + 8;
    }
    if |o.extension| > 0xFFFF - header {
      return Refused(MessageTooLarge);
    }
    header := header + |o.extension|;
    assert header == HeaderSize(o);
    var output := MAGIC + [0] + [FlagsOf(m.options, m.checksum)];
    output := AppendInteger(output, header, 2);
    output := AppendInteger(output, m.channel, 4);
    output := AppendInteger(output, m.id, 4);
    output := AppendInteger(output, |m.payload|, 8);
    output := AppendOptions(output, m.options);
    output := output + m.payload;
    assert output == Body(m);
    if m.checksum {
      output := output + sha(output);
    }
    return Sent(output);
  }

  method AppendOptions(output: Bytes, o: Options) returns (r: Bytes)
    requires ValidSession(o.session)
    ensures r == output + OptionBytes(o)
  {
    hide ToBytes;
    r := output;
    if o.session.Some? {
      r := r + ([|o.session.value|] + o.session.value);
    }
    assert r == output + SessionBytes(o.session);
    hide SessionBytes;
    ghost var s := r;
    if o.timestamp.Some? {
      r := AppendInteger(r, o.timestamp.value, 8);
    }
    assert r == s + TimestampBytes(o.timestamp);
    hide TimestampBytes;
    ghost var t := r;
    if o.multipart.Some? {
      r := AppendInteger(r, o.multipart.value.0, 4);
      r := AppendInteger(r, o.multipart.value.1, 4);
    }
    assert r == t + MultipartBytes(o.multipart);
    hide MultipartBytes;
    r := r + o.extension;
  }

  /** The optional sections, read with one cursor that never passes the header size. */
  method ScanOptions(data: Bytes, flags: byte, header: nat) returns (r: Option<Options>)
    requires BASE_HEADER_BYTES <= header <= |data|
    ensures r == ReadOptions(flags, data[BASE_HEADER_BYTES..header])
  {
    hide BigEndian;
    var cursor := BASE_HEADER_BYTES;
    ghost var b := data[cursor..header];
    var session: Option<Bytes> := None;
    if flags % 2 == 1 {
      if cursor >= header {
        return None;
      }
      var length := data[cursor];
      cursor := cursor + 1;
      if length == 0 || length > MAXIMUM_SESSION_BYTES || length > header - cursor {
        return None;
      }
      SliceOfSlice(data, BASE_HEADER_BYTES, header, 1, 1 + length);
      SliceOfSlice(data, BASE_HEADER_BYTES, header, 1 + length, header - BASE_HEADER_BYTES);
      session := Some(data[cursor..cursor + length]);
      cursor := cursor + length;
    }
    assert ReadSession(flags % 2 == 1, b) == Section(session, data[cursor..header]);
    r := ScanAfterSession(data, flags, header, cursor, session);
  }

  method ScanAfterSession(data: Bytes, flags: byte, header: nat, start: nat, session: Option<Bytes>) returns (r: Option<Options>)
    requires start <= header <= |data|
    requires BASE_HEADER_BYTES <= header && ReadSession(flags % 2 == 1, data[BASE_HEADER_BYTES..header]) == Section(session, data[start..header])
    ensures r == ReadOptions(flags, data[BASE_HEADER_BYTES..header])
  {
    hide BigEndian, ReadSession, ReadTimestamp, ReadMultipart;
    var timestamp, middle := ScanTimestamp(data, flags / 2 % 2 == 1, header, start);
    if timestamp.Bad? {
      return None;
    }
    var multipart, cursor := ScanMultipart(data, flags / 4 % 2 == 1, header, middle);
    if multipart.Bad? {
      return None;
    }
    if flags / 16 % 2 == 1 {
      if cursor == header {
        return None;
      }
    } else if cursor != header {
      return None;
    }
    return Some(Options(session, timestamp.value, multipart.value, data[cursor..header]));
  }

  method ScanTimestamp(data: Bytes, has: bool, header: nat, cursor: nat) returns (r: Section<Option<nat>>, next: nat)
    requires cursor <= header <= |data|
    ensures next <= header && r == ReadTimestamp(has, data[cursor..header]) && (r.Section? ==> r.rest == data[next..header])
  {
    hide BigEndian;
    if !has {
      return Section(None, data[cursor..header]), cursor;
    }
    if header - cursor < 8 {
      return Bad, cursor;
    }
    var time := ReadInteger(data, cursor, 8);
    SliceOfSlice(data, cursor, header, 0, 8);
    SliceOfSlice(data, cursor, header, 8, header - cursor);
    return Section(Some(time), data[cursor + 8..header]), cursor + 8;
  }

  method ScanMultipart(data: Bytes, has: bool, header: nat, cursor: nat) returns (r: Section<Option<(nat, nat)>>, next: nat)
    requires cursor <= header <= |data|
    ensures next <= header && r == ReadMultipart(has, data[cursor..header]) && (r.Section? ==> r.rest == data[next..header])
  {
    hide BigEndian;
    if !has {
      return Section(None, data[cursor..header]), cursor;
    }
    if header - cursor < 8 {
      return Bad, cursor;
    }
    var total := ReadInteger(data, cursor, 4);
    var index := ReadInteger(data, cursor + 4, 4);
    SliceOfSlice(data, cursor, header, 0, 4);
    SliceOfSlice(data, cursor, header, 4, 8);
    SliceOfSlice(data, cursor, header, 8, header - cursor);
    if total == 0 || index >= total {
      return Bad, cursor;
    }
    return Section(Some((total, index)), data[cursor + 8..header]), cursor + 8;
  }

  lemma SliceOfSlice(data: Bytes, a: nat, b: nat, i: nat, j: nat)
    requires a <= b <= |data| && i <= j <= b - a
    ensures data[a..b][i..j] == data[a + i..a + j]
  {
    var s, t := data[a..b][i..j], data[a + i..a + j];
    forall x | 0 <= x < j - i ensures s[x] == t[x] {
    }
  }

  /** `deserialize_message`. */
  method DeserializeMessage(sha: Bytes -> Hash, data: Bytes, maximum: nat) returns (r: Decoded)
    ensures r == Decode(sha, data, maximum)
  {
    hide BigEndian, ReadOptions;
    if maximum == 0 {
      return Rejected(InvalidArgument);
    }
    if |data| < BASE_HEADER_BYTES {
      return Rejected(TruncatedMessage);
    }
    if data[..4] != MAGIC {
      return Rejected(MalformedMessage);
    }
    if data[4] != 0 {
      return Rejected(UnsupportedVersion);
    }
    var flags := data[5];
    if flags >= 32 {
      return Rejected(MalformedMessage);
    }
    var header := ReadInteger(data, 6, 2);
    if header < BASE_HEADER_BYTES {
      return Rejected(MalformedMessage);
    }
    if |data| < header {
      return Rejected(TruncatedMessage);
    }
    var channel := ReadInteger(data, 8, 4);
    var id := ReadInteger(data, 12, 4);
    var length := ReadInteger(data, 16, 8);
    if channel == 0 {
      return Rejected(MalformedMessage);
    }
    if length > maximum {
      return Rejected(MessageTooLarge);
    }
    var options := ScanOptions(data, flags, header);
    if options.None? {
      return Rejected(MalformedMessage);
    }
    var checksumBytes := if flags / 8 % 2 == 1 then CHECKSUM_BYTES else 0;
    if length > U64_MAX - header - checksumBytes {
      return Rejected(MessageTooLarge);
    }
    var total := header + length + checksumBytes;
    if |data| < total {
      return Rejected(TruncatedMessage);
    }
    if checksumBytes != 0 && data[total - CHECKSUM_BYTES..total] != sha(data[..total - CHECKSUM_BYTES]) {
      return Rejected(ChecksumMismatch);
    }
    return Accepted(Message(channel, id, options.value, data[header..header + length], checksumBytes != 0), total);
  }
}
