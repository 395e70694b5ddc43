/** Unsigned integers in network byte order. */
module Integers {
  import opened Basics

  /** The value of big-endian bytes. */
  function BigEndian(s: Bytes): nat {
    if s == [] then 0 else BigEndian(s[..|s| - 1]) * 256 + s[|s| - 1]
  }

  /** The low `width` bytes of a value, most significant first. */
  function ToBytes(n: nat, width: nat): (s: Bytes)
    ensures |s| == width
  {
    if width == 0 then [] else ToBytes(n / 256, width - 1) + [n % 256]
  }

  /** How many values fit in `width` bytes. */
  function Limit(width: nat): (n: nat)
    ensures n > 0
  {
    if width == 0 then 1 else 256 * Limit(width - 1)
  }

  lemma {:induction false} ToBytesValue(n: nat, width: nat)
    requires n < Limit(width)
    ensures BigEndian(ToBytes(n, width)) == n
  {
    if width > 0 {
      ToBytesValue(n / 256, width - 1);
      assert ToBytes(n, width)[..width - 1] == ToBytes(n / 256, width - 1);
    }
  }

  lemma {:induction false} ValueToBytes(s: Bytes)
    ensures BigEndian(s) < Limit(|s|)
    ensures ToBytes(BigEndian(s), |s|) == s
  {
    if s != [] {
      var init, last := s[..|s| - 1], s[|s| - 1];
      ValueToBytes(init);
      assert (BigEndian(init) * 256 + last) / 256 == BigEndian(init);
      assert s == init + [last];
    }
  }

  lemma Limits()
    ensures Limit(1) == 256 && Limit(2) == 0x1_0000 && Limit(4) == U32_MAX + 1 && Limit(8) == U64_MAX + 1
  {
    assert Limit(1) == 256 * Limit(0);
    assert Limit(2) == 256 * Limit(1);
    assert Limit(3) == 256 * Limit(2);
    assert Limit(4) == 256 * Limit(3);
    assert Limit(5) == 256 * Limit(4);
    assert Limit(6) == 256 * Limit(5);
    assert Limit(7) == 256 * Limit(6);
    assert Limit(8) == 256 * Limit(7);
  }

  /** `append_integer`: the value byte by byte. */
  method AppendInteger(output: Bytes, value: nat, width: nat) returns (r: Bytes)
    ensures r == output + ToBytes(value, width)
  {
    r := output;
    var shifts: Bytes := [];
    var n := value;
    for k := 0 to width
      invariant ToBytes(value, width) == ToBytes(n, width - k) + shifts
    {
      shifts := [n % 256] + shifts;
      n := n / 256;
    }
    r := r + shifts;
  }

  /** `read_integer`: a fold over the bytes. */
  method ReadInteger(data: Bytes, offset: nat, width: nat) returns (value: nat)
    requires offset + width <= |data|
    ensures value == BigEndian(data[offset..offset + width])
  {
    value := 0;
    for k := 0 to width
      invariant value == BigEndian(data[offset..offset + k])
    {
      assert data[offset..offset + k + 1][..k] == data[offset..offset + k];
      value := value * 256 + data[offset + k];
    }
  }
}
