/**
 * What the transcoder's masks, shifts and casts compute, in integers.  A word
 * is regrouped into the bit fields the program cuts it into, and its value is
 * then a weighted sum of the fields.
 */
module Bits {

  // ---------- the unsigned value of a byte, a UTF-16 code unit, and a char32_t ----------

  function ByteValue(b: bv8): nat {
    b as int
  }

  function UnitValue(u: bv16): nat {
    u as int
  }

  function WordValue(x: bv32): nat {
    x as int
  }

  /** `static_cast<char>`: keeps the low eight bits. */
  function Narrow8(x: bv32): bv8 {
    (x & 0xFF) as bv8
  }

  /** `static_cast<char16_t>`: keeps the low sixteen bits. */
  function Narrow16(x: bv32): bv16 {
    (x & 0xFFFF) as bv16
  }

  lemma ByteOfInt(b: bv8)
    ensures b as int as bv8 == b
  {}

  lemma UnitOfInt(u: bv16)
    ensures u as int as bv16 == u
  {}

  lemma WordOfInt(x: bv32)
    ensures x as int as bv32 == x
  {}

  lemma SameByte(b: bv8, c: bv8)
    ensures b == c <==> ByteValue(b) == ByteValue(c)
  {
    ByteOfInt(b);
    ByteOfInt(c);
  }

  lemma SameUnit(u: bv16, v: bv16)
    ensures u == v <==> UnitValue(u) == UnitValue(v)
  {
    UnitOfInt(u);
    UnitOfInt(v);
  }

  lemma SameWord(x: bv32, y: bv32)
    ensures x == y <==> WordValue(x) == WordValue(y)
  {
    WordOfInt(x);
    WordOfInt(y);
  }

  // ---------- bytes and units with a given value ----------

  lemma NibbleExists(i: int)
    requires 0 <= i < 0x10
    ensures i as bv4 as int == i
  {}

  lemma ByteFromNibbles(high: bv4, low: bv4)
    ensures ByteValue(((high as bv8) << 4) | (low as bv8)) == high as int * 0x10 + low as int
  {}

  lemma ByteExists(i: int)
    requires 0 <= i < 0x100
    ensures exists b :: ByteValue(b) == i
  {
    hide ByteValue;
    NibbleExists(i / 0x10);
    NibbleExists(i % 0x10);
    ByteFromNibbles((i / 0x10) as bv4, (i % 0x10) as bv4);
  }

  ghost function ToByte(i: int): (b: bv8)
    requires 0 <= i < 0x100
    ensures ByteValue(b) == i
  {
    ByteExists(i);
    var b :| ByteValue(b) == i;
    b
  }

  lemma UnitFromBytes(high: bv8, low: bv8)
    ensures UnitValue(((high as bv16) << 8) | (low as bv16)) == ByteValue(high) * 0x100 + ByteValue(low)
  {}

  lemma UnitExists(i: int)
    requires 0 <= i < 0x1_0000
    ensures exists u :: UnitValue(u) == i
  {
    hide ByteValue, UnitValue;
    UnitFromBytes(ToByte(i / 0x100), ToByte(i % 0x100));
  }

  ghost function ToUnit(i: int): (u: bv16)
    requires 0 <= i < 0x1_0000
    ensures UnitValue(u) == i
  {
    UnitExists(i);
    var u :| UnitValue(u) == i;
    u
  }

  // ---------- widening casts ----------

  lemma WidenByte(b: bv8)
    ensures WordValue(b as bv32) == ByteValue(b)
  {}

  lemma WidenUnit(u: bv16)
    ensures WordValue(u as bv32) == UnitValue(u)
  {}

  lemma WordFromUnits(high: bv16, low: bv16)
    ensures WordValue(((high as bv32) << 16) | (low as bv32)) == UnitValue(high) * 0x1_0000 + UnitValue(low)
  {}

  /** Every value below 2^32 is that of a char32_t. */
  lemma WordExists(v: int) returns (x: bv32)
    requires 0 <= v < 0x1_0000_0000
    ensures WordValue(x) == v
  {
    hide ToUnit, UnitValue, WordValue;
    var high, low := ToUnit(v / 0x1_0000), ToUnit(v % 0x1_0000);
    WordFromUnits(high, low);
    x := ((high as bv32) << 16) | (low as bv32);
  }

  // ---------- the value the decoder computes from a sequence ----------

  lemma Payload2(first: bv8, second: bv8)
    requires 0xC0 <= first <= 0xDF && 0x80 <= second <= 0xBF
    ensures WordValue((((first & 0x1F) as bv32) << 6) | ((second & 0x3F) as bv32))
         == (ByteValue(first) - 0xC0) * 0x40 + (ByteValue(second) - 0x80)
  {}

  lemma Payload3(first: bv8, second: bv8, third: bv8)
    requires 0xE0 <= first <= 0xEF && 0x80 <= second <= 0xBF && 0x80 <= third <= 0xBF
    ensures WordValue((((first & 0x0F) as bv32) << 12) | (((second & 0x3F) as bv32) << 6) | ((third & 0x3F) as bv32))
         == (ByteValue(first) - 0xE0) * 0x1000 + (ByteValue(second) - 0x80) * 0x40 + (ByteValue(third) - 0x80)
  {}

  lemma Payload4(first: bv8, second: bv8, third: bv8, fourth: bv8)
    requires 0xF0 <= first <= 0xF7 && 0x80 <= second <= 0xBF && 0x80 <= third <= 0xBF && 0x80 <= fourth <= 0xBF
    ensures WordValue((((first & 0x07) as bv32) << 18) | (((second & 0x3F) as bv32) << 12)
                      | (((third & 0x3F) as bv32) << 6) | ((fourth & 0x3F) as bv32))
         == (ByteValue(first) - 0xF0) * 0x4_0000 + (ByteValue(second) - 0x80) * 0x1000
            + (ByteValue(third) - 0x80) * 0x40 + (ByteValue(fourth) - 0x80)
  {}

  // ---------- the bytes append_utf8 emits ----------

  lemma Fields5(a: bv10, e: bv4, b: bv6, c: bv6, d: bv6)
    ensures WordValue(((a as bv32) << 22) | ((e as bv32) << 18)
                      | ((b as bv32) << 12) | ((c as bv32) << 6) | (d as bv32))
         == a as int * 0x40_0000 + e as int * 0x4_0000 + b as int * 0x1000 + c as int * 0x40 + d as int
  {}

  /** Any 32-bit value as ten high bits, four bits, and three groups of six. */
  lemma Sextets(v: bv32) returns (a: bv10, e: bv4, b: bv6, c: bv6, d: bv6)
    ensures v == ((a as bv32) << 22) | ((e as bv32) << 18) | ((b as bv32) << 12) | ((c as bv32) << 6) | (d as bv32)
    ensures WordValue(v)
         == a as int * 0x40_0000 + e as int * 0x4_0000 + b as int * 0x1000 + c as int * 0x40 + d as int
  {
    hide WordValue;
    a, e := (v >> 22) as bv10, ((v >> 18) & 0x0F) as bv4;
    b, c, d := ((v >> 12) & 0x3F) as bv6, ((v >> 6) & 0x3F) as bv6, (v & 0x3F) as bv6;
    assert v == ((a as bv32) << 22) | ((e as bv32) << 18) | ((b as bv32) << 12) | ((c as bv32) << 6) | (d as bv32);
    Fields5(a, e, b, c, d);
  }

  lemma EmittedBits(v: bv32, a: bv10, e: bv4, b: bv6, c: bv6, d: bv6)
    requires v == ((a as bv32) << 22) | ((e as bv32) << 18) | ((b as bv32) << 12) | ((c as bv32) << 6) | (d as bv32)
    ensures Narrow8(0x80 | (v & 0x3F)) == 0x80 | (d as bv8)
    ensures Narrow8(0x80 | ((v >> 6) & 0x3F)) == 0x80 | (c as bv8)
    ensures Narrow8(0x80 | ((v >> 12) & 0x3F)) == 0x80 | (b as bv8)
    ensures Narrow8(0xF0 | (v >> 18)) == 0xF0 | (e as bv8)
    ensures v <= 0xFFFF ==> Narrow8(0xE0 | (v >> 12)) == 0xE0 | (b as bv8) && b < 16
    ensures v <= 0x7FF ==> Narrow8(0xC0 | (v >> 6)) == 0xC0 | (c as bv8) && c < 32
  {}

  lemma EmittedFields(e: bv4, b: bv6)
    ensures ByteValue(0xF0 | (e as bv8)) == 0xF0 + e as int
    ensures b < 16 ==> ByteValue(0xE0 | (b as bv8)) == 0xE0 + b as int
    ensures b < 32 ==> ByteValue(0xC0 | (b as bv8)) == 0xC0 + b as int
    ensures ByteValue(0x80 | (b as bv8)) == 0x80 + b as int
  {}

  lemma WordBounds(v: bv32)
    ensures WordValue(v) < 0x1_0000_0000
    ensures v <= 0x7F <==> WordValue(v) <= 0x7F
    ensures v <= 0x7FF <==> WordValue(v) <= 0x7FF
    ensures v <= 0xFFFF <==> WordValue(v) <= 0xFFFF
    ensures v <= 0x10_FFFF <==> WordValue(v) <= 0x10_FFFF
  {}

  /** The last base-64 digit and what is above it. */
  lemma LastDigit(v: int, q: int, d: int)
    requires v == q * 0x40 + d && 0 <= d < 0x40
    ensures v / 0x40 == q && v % 0x40 == d
  {}

  lemma DigitShift(v: int)
    ensures v / 0x40 / 0x40 == v / 0x1000 && v / 0x1000 / 0x40 == v / 0x4_0000
  {}

  lemma FourthDigit(v: int, a: int, e: int, r: int)
    requires v == a * 0x40_0000 + e * 0x4_0000 + r && 0 <= e < 16 && 0 <= r < 0x4_0000
    ensures v % 0x40_0000 / 0x4_0000 == e
  {
    assert v % 0x40_0000 == e * 0x4_0000 + r;
  }

  /** Base-64 digits of an integer, with four bits above the third and the rest above those. */
  lemma Digits(v: int, a: int, e: int, b: int, c: int, d: int)
    requires 0 <= a && 0 <= e < 16 && 0 <= b < 0x40 && 0 <= c < 0x40 && 0 <= d < 0x40
    requires v == a * 0x40_0000 + e * 0x4_0000 + b * 0x1000 + c * 0x40 + d
    ensures v % 0x40 == d && v / 0x40 % 0x40 == c && v / 0x1000 % 0x40 == b
    ensures v % 0x40_0000 / 0x4_0000 == e
    ensures v < 0x1_0000 ==> v / 0x1000 == b
    ensures v < 0x800 ==> v / 0x40 == c
  {
    var first, second := a * 0x1_0000 + e * 0x1000 + b * 0x40 + c, a * 0x400 + e * 0x40 + b;
    LastDigit(v, first, d);
    LastDigit(first, second, c);
    LastDigit(second, a * 0x10 + e, b);
    DigitShift(v);
    FourthDigit(v, a, e, b * 0x1000 + c * 0x40 + d);
  }

  lemma DigitSum(v: int)
    ensures v == v / 0x4_0000 * 0x4_0000 + v / 0x1000 % 0x40 * 0x1000 + v / 0x40 % 0x40 * 0x40 + v % 0x40
  {
    DigitShift(v);
    assert v == v / 0x40 * 0x40 + v % 0x40;
    assert v / 0x40 == v / 0x1000 * 0x40 + v / 0x40 % 0x40;
    assert v / 0x1000 == v / 0x4_0000 * 0x40 + v / 0x1000 % 0x40;
  }

  lemma SameLast(u: int, v: int)
    requires u / 0x40 == v / 0x40 && u % 0x40 == v % 0x40
    ensures u == v
  {}

  lemma SameDigits(u: int, v: int)
    requires u / 0x1000 == v / 0x1000 && u / 0x40 % 0x40 == v / 0x40 % 0x40 && u % 0x40 == v % 0x40
    ensures u == v
  {
    DigitShift(u);
    DigitShift(v);
    SameLast(u / 0x40, v / 0x40);
    SameLast(u, v);
  }

  /** The low digits do not depend on what is above the twenty-second bit. */
  lemma DigitsBelow(v: nat)
    ensures var u := v % 0x40_0000;
      v % 0x40 == u % 0x40 && v / 0x40 % 0x40 == u / 0x40 % 0x40 && v / 0x1000 % 0x40 == u / 0x1000 % 0x40
  {
    var u := v % 0x40_0000;
    DigitSum(u);
    Digits(v, v / 0x40_0000, u / 0x4_0000, u / 0x1000 % 0x40, u / 0x40 % 0x40, u % 0x40);
  }

  /** The trailing bytes emitted for any value hold its base-64 digits. */
  lemma Trailing(v: bv32)
    ensures ByteValue(Narrow8(0x80 | (v & 0x3F))) == 0x80 + WordValue(v) % 0x40
    ensures ByteValue(Narrow8(0x80 | ((v >> 6) & 0x3F))) == 0x80 + WordValue(v) / 0x40 % 0x40
    ensures ByteValue(Narrow8(0x80 | ((v >> 12) & 0x3F))) == 0x80 + WordValue(v) / 0x1000 % 0x40
  {
    hide Narrow8, ByteValue, WordValue;
    var a, e, b, c, d := Sextets(v);
    EmittedBits(v, a, e, b, c, d);
    Digits(WordValue(v), a as int, e as int, b as int, c as int, d as int);
    EmittedFields(e, b);
    EmittedFields(e, c);
    EmittedFields(e, d);
  }

  /** The leading byte; the cast drops every bit of the value above the twenty-second. */
  lemma Leading(v: bv32)
    ensures v <= 0x7FF ==> ByteValue(Narrow8(0xC0 | (v >> 6))) == 0xC0 + WordValue(v) / 0x40
    ensures v <= 0xFFFF ==> ByteValue(Narrow8(0xE0 | (v >> 12))) == 0xE0 + WordValue(v) / 0x1000
    ensures ByteValue(Narrow8(0xF0 | (v >> 18))) == 0xF0 + WordValue(v) % 0x40_0000 / 0x4_0000
  {
    hide Narrow8, ByteValue, WordValue;
    var a, e, b, c, d := Sextets(v);
    EmittedBits(v, a, e, b, c, d);
    Digits(WordValue(v), a as int, e as int, b as int, c as int, d as int);
    WordBounds(v);
    EmittedFields(e, b);
    EmittedFields(e, c);
  }

  lemma SingleByte(v: bv32)
    requires v <= 0x7F
    ensures ByteValue(Narrow8(v)) == WordValue(v)
  {}

  // ---------- surrogate pairs ----------

  lemma PairFields(h: bv10, l: bv10)
    ensures WordValue(0x1_0000 + (((h as bv32) << 10) | (l as bv32))) == 0x1_0000 + h as int * 0x400 + l as int
    ensures UnitValue(0xD800 + (h as bv16)) == 0xD800 + h as int
    ensures UnitValue(0xDC00 + (l as bv16)) == 0xDC00 + l as int
    ensures 0 <= l as int < 0x400
  {}

  lemma PairBits(v: bv32, h: bv10, l: bv10)
    requires 0x1_0000 <= v <= 0x10_FFFF
    requires h == ((v - 0x1_0000) >> 10) as bv10 && l == ((v - 0x1_0000) & 0x3FF) as bv10
    ensures v == 0x1_0000 + (((h as bv32) << 10) | (l as bv32))
    ensures Narrow16(0xD800 + ((v - 0x1_0000) >> 10)) == 0xD800 + (h as bv16)
    ensures Narrow16(0xDC00 + ((v - 0x1_0000) & 0x3FF)) == 0xDC00 + (l as bv16)
  {}

  lemma PairDigits(v: int, h: int, l: int)
    requires v == 0x1_0000 + h * 0x400 + l && 0 <= l < 0x400
    ensures (v - 0x1_0000) / 0x400 == h && (v - 0x1_0000) % 0x400 == l
  {}

  /** The pair `utf8_to_utf16` emits above the basic plane. */
  lemma SplitPair(v: bv32)
    requires 0x1_0000 <= v <= 0x10_FFFF
    ensures UnitValue(Narrow16(0xD800 + ((v - 0x1_0000) >> 10))) == 0xD800 + (WordValue(v) - 0x1_0000) / 0x400
    ensures UnitValue(Narrow16(0xDC00 + ((v - 0x1_0000) & 0x3FF))) == 0xDC00 + (WordValue(v) - 0x1_0000) % 0x400
  {
    hide Narrow16, UnitValue, WordValue;
    var h, l := ((v - 0x1_0000) >> 10) as bv10, ((v - 0x1_0000) & 0x3FF) as bv10;
    PairBits(v, h, l);
    PairFields(h, l);
    PairDigits(WordValue(v), h as int, l as int);
  }

  lemma SingleUnit(v: bv32)
    requires v <= 0xFFFF
    ensures UnitValue(Narrow16(v)) == WordValue(v)
  {}

  /** The value `utf16_to_utf8` computes from a pair. */
  function PairWord(first: bv32, second: bv32): bv32 {
    0x1_0000 + ((first - 0xD800) << 10) + (second - 0xDC00)
  }

  lemma JoinPair(first: bv16, second: bv16)
    requires 0xD800 <= first <= 0xDBFF && 0xDC00 <= second <= 0xDFFF
    ensures WordValue(PairWord(first as bv32, second as bv32))
         == 0x1_0000 + (UnitValue(first) - 0xD800) * 0x400 + (UnitValue(second) - 0xDC00)
  {}
}
