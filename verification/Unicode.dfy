/**
 * The encoding forms as their standards define them, with division and
 * remainder and no bit operation: UTF-8 by section 3 of RFC 3629 (Table 3-6 of
 * the Unicode Standard) and UTF-16 by section 2.1 of RFC 2781.  Nothing here
 * refers to the program's decoder.
 */
module Unicode {
  import Bits

  type Byte = bv8
  type Unit = bv16

  /** A Unicode scalar value: a code point that is not a surrogate. */
  type Scalar = v: int | 0 <= v <= 0xD7FF || 0xE000 <= v <= 0x10FFFF

  predicate IsScalar(v: int) {
    0 <= v <= 0xD7FF || 0xE000 <= v <= 0x10FFFF
  }

  /** The four octet sequences of the UTF-8 definition; x marks the value's bits. */
  ghost function Octets1(v: nat): (s: seq<Byte>)
    requires v < 0x80
    ensures |s| == 1
  {
    [Bits.ToByte(v)]
  }

  ghost function Octets2(v: nat): (s: seq<Byte>)
    requires v < 0x800
    ensures |s| == 2
  {
    [Bits.ToByte(0xC0 + v / 0x40), Bits.ToByte(0x80 + v % 0x40)]
  }

  ghost function Octets3(v: nat): (s: seq<Byte>)
    requires v < 0x1_0000
    ensures |s| == 3
  {
    [Bits.ToByte(0xE0 + v / 0x1000), Bits.ToByte(0x80 + v / 0x40 % 0x40), Bits.ToByte(0x80 + v % 0x40)]
  }

  ghost function Octets4(v: nat): (s: seq<Byte>)
    requires v < 0x40_0000
    ensures |s| == 4
  {
    [Bits.ToByte(0xF0 + v / 0x4_0000), Bits.ToByte(0x80 + v / 0x1000 % 0x40),
     Bits.ToByte(0x80 + v / 0x40 % 0x40), Bits.ToByte(0x80 + v % 0x40)]
  }

  /** The UTF-8 encoding of one scalar value. */
  ghost function Enc8(v: Scalar): seq<Byte> {
    if v <= 0x7F then Octets1(v)
    else if v <= 0x7FF then Octets2(v)
    else if v <= 0xFFFF then Octets3(v)
    else Octets4(v)
  }

  /**
   * The octets for an arbitrary 32-bit value: the definition's sequence of the
   * shortest length class, with the bits a byte has no room for dropped.
   */
  ghost function OctetsOf(v: nat): seq<Byte> {
    if v <= 0x7F then Octets1(v)
    else if v <= 0x7FF then Octets2(v)
    else if v <= 0xFFFF then Octets3(v)
    else Octets4(v % 0x40_0000)
  }

  lemma OctetsOfScalar(v: Scalar)
    ensures OctetsOf(v) == Enc8(v)
  {
    hide Octets1, Octets2, Octets3, Octets4;
    assert v > 0xFFFF ==> v % 0x40_0000 == v;
  }

  /** The UTF-16 encoding of one scalar value. */
  ghost function Enc16(v: Scalar): seq<Unit> {
    if v <= 0xFFFF then [Bits.ToUnit(v)]
    else [Bits.ToUnit(0xD800 + (v - 0x1_0000) / 0x400), Bits.ToUnit(0xDC00 + (v - 0x1_0000) % 0x400)]
  }

  lemma CodeLengths(v: Scalar)
    ensures 1 <= |Enc8(v)| <= 4
    ensures |Enc16(v)| == if |Enc8(v)| == 4 then 2 else 1
  {
    hide Octets1, Octets2, Octets3, Octets4;
  }

  // ---------- codes by the integer values of their units ----------

  lemma ByteNamed(b: Byte, i: int)
    requires 0 <= i < 0x100
    ensures Bits.ToByte(i) == b <==> Bits.ByteValue(b) == i
  {
    hide Bits.ToByte, Bits.ByteValue;
    Bits.SameByte(b, Bits.ToByte(i));
  }

  lemma UnitNamed(u: Unit, i: int)
    requires 0 <= i < 0x1_0000
    ensures Bits.ToUnit(i) == u <==> Bits.UnitValue(u) == i
  {
    hide Bits.ToUnit, Bits.UnitValue;
    Bits.SameUnit(u, Bits.ToUnit(i));
  }

  lemma Octets1Named(first: Byte, v: nat)
    requires v < 0x80
    ensures [first] == Octets1(v) <==> Bits.ByteValue(first) == v
  {
    hide Bits.ToByte, Bits.ByteValue;
    ByteNamed(first, v);
  }

  lemma Octets2Named(first: Byte, second: Byte, v: nat)
    requires v < 0x800
    ensures [first, second] == Octets2(v)
       <==> Bits.ByteValue(first) == 0xC0 + v / 0x40 && Bits.ByteValue(second) == 0x80 + v % 0x40
  {
    hide Bits.ToByte, Bits.ByteValue;
    ByteNamed(first, 0xC0 + v / 0x40);
    ByteNamed(second, 0x80 + v % 0x40);
  }

  lemma Octets3Named(first: Byte, second: Byte, third: Byte, v: nat)
    requires v < 0x1_0000
    ensures [first, second, third] == Octets3(v)
       <==> Bits.ByteValue(first) == 0xE0 + v / 0x1000 && Bits.ByteValue(second) == 0x80 + v / 0x40 % 0x40
            && Bits.ByteValue(third) == 0x80 + v % 0x40
  {
    hide Bits.ToByte, Bits.ByteValue;
    ByteNamed(first, 0xE0 + v / 0x1000);
    ByteNamed(second, 0x80 + v / 0x40 % 0x40);
    ByteNamed(third, 0x80 + v % 0x40);
  }

  lemma Octets4Named(first: Byte, second: Byte, third: Byte, fourth: Byte, v: nat)
    requires v < 0x40_0000
    ensures [first, second, third, fourth] == Octets4(v)
       <==> Bits.ByteValue(first) == 0xF0 + v / 0x4_0000 && Bits.ByteValue(second) == 0x80 + v / 0x1000 % 0x40
            && Bits.ByteValue(third) == 0x80 + v / 0x40 % 0x40 && Bits.ByteValue(fourth) == 0x80 + v % 0x40
  {
    hide Bits.ToByte, Bits.ByteValue;
    ByteNamed(first, 0xF0 + v / 0x4_0000);
    ByteNamed(second, 0x80 + v / 0x1000 % 0x40);
    ByteNamed(third, 0x80 + v / 0x40 % 0x40);
    ByteNamed(fourth, 0x80 + v % 0x40);
  }

  /** The first octet tells the length, and longer sequences have larger first octets. */
  lemma LeadingOctet(v: nat)
    ensures |OctetsOf(v)| == if v <= 0x7F then 1 else if v <= 0x7FF then 2 else if v <= 0xFFFF then 3 else 4
    ensures var b := Bits.ByteValue(OctetsOf(v)[0]);
      if v <= 0x7F then b == v
      else if v <= 0x7FF then 0xC0 <= b < 0xE0
      else if v <= 0xFFFF then 0xE0 <= b < 0xF0
      else 0xF0 <= b
  {
    hide Bits.ByteValue, Bits.ToByte;
  }

  /** The part of a value its octets hold. */
  function Kept(v: nat): nat {
    if v <= 0xFFFF then v else v % 0x40_0000
  }

  lemma Octets2Injective(u: nat, v: nat)
    requires u < 0x800 && v < 0x800 && Octets2(u) == Octets2(v)
    ensures u == v
  {
    hide Octets2, Bits.ByteValue;
    var s := Octets2(u);
    assert s == [s[0], s[1]];
    Octets2Named(s[0], s[1], u);
    Octets2Named(s[0], s[1], v);
    Bits.SameLast(u, v);
  }

  lemma Octets3Injective(u: nat, v: nat)
    requires u < 0x1_0000 && v < 0x1_0000 && Octets3(u) == Octets3(v)
    ensures u == v
  {
    hide Octets3, Bits.ByteValue;
    var s := Octets3(u);
    assert s == [s[0], s[1], s[2]];
    Octets3Named(s[0], s[1], s[2], u);
    Octets3Named(s[0], s[1], s[2], v);
    Bits.SameDigits(u, v);
  }

  lemma Octets4Injective(u: nat, v: nat)
    requires u < 0x40_0000 && v < 0x40_0000 && Octets4(u) == Octets4(v)
    ensures u == v
  {
    hide Octets4, Bits.ByteValue;
    var s := Octets4(u);
    assert s == [s[0], s[1], s[2], s[3]];
    Octets4Named(s[0], s[1], s[2], s[3], u);
    Octets4Named(s[0], s[1], s[2], s[3], v);
    Bits.DigitShift(u);
    Bits.DigitShift(v);
    Bits.SameDigits(u / 0x40, v / 0x40);
    Bits.SameLast(u, v);
  }
}
