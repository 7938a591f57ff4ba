/**
 * The transcoder of include/syscape/detail/utf8.hpp, with its masks, shifts and
 * casts on machine words, and the proof that every step computes the encoding
 * forms of module Unicode.
 */
module Decoder {
  import Bits
  import opened Coding
  import opened Results
  import opened Unicode

  /** A decoded code point (a 32-bit value) and the number of bytes it took. */
  datatype Decoded = Decoded(value: bv32, length: nat)

  predicate Continuation(b: Byte) {
    0x80 <= b <= 0xBF
  }

  /** Which second bytes the decoder takes after a given first byte of three or four. */
  predicate SecondOfThree(first: Byte, second: Byte) {
    if first == 0xE0 then 0xA0 <= second <= 0xBF
    else if first == 0xED then 0x80 <= second <= 0x9F
    else Continuation(second)
  }

  predicate SecondOfFour(first: Byte, second: Byte) {
    if first == 0xF0 then 0x90 <= second <= 0xBF
    else if first == 0xF4 then 0x80 <= second <= 0x8F
    else Continuation(second)
  }

  function ValueOfTwo(first: Byte, second: Byte): bv32 {
    (((first & 0x1F) as bv32) << 6) | ((second & 0x3F) as bv32)
  }

  function ValueOfThree(first: Byte, second: Byte, third: Byte): bv32 {
    (((first & 0x0F) as bv32) << 12) | (((second & 0x3F) as bv32) << 6) | ((third & 0x3F) as bv32)
  }

  function ValueOfFour(first: Byte, second: Byte, third: Byte, fourth: Byte): bv32 {
    (((first & 0x07) as bv32) << 18) | (((second & 0x3F) as bv32) << 12)
    | (((third & 0x3F) as bv32) << 6) | ((fourth & 0x3F) as bv32)
  }

  /** Decodes the code point that starts at the given offset. */
  function DecodeCodePoint(input: seq<Byte>, offset: nat): (r: Result<Decoded>)
    ensures r.Ok? ==> 1 <= r.value.length <= 4 && offset + r.value.length <= |input|
    ensures r.Err? ==> r.error == InvalidEncoding
  {
    if offset >= |input| then Err(InvalidEncoding)
    else
      var first := input[offset];
      if first <= 0x7F then
        Ok(Decoded(first as bv32, 1))
      else if 0xC2 <= first <= 0xDF then
        if offset + 1 >= |input| || !Continuation(input[offset + 1]) then Err(InvalidEncoding)
        else Ok(Decoded(ValueOfTwo(first, input[offset + 1]), 2))
      else if 0xE0 <= first <= 0xEF then
        if offset + 2 >= |input| then Err(InvalidEncoding)
        else
          var second, third := input[offset + 1], input[offset + 2];
          if !SecondOfThree(first, second) || !Continuation(third) then Err(InvalidEncoding)
          else Ok(Decoded(ValueOfThree(first, second, third), 3))
      else if 0xF0 <= first <= 0xF4 then
        if offset + 3 >= |input| then Err(InvalidEncoding)
        else
          var second, third, fourth := input[offset + 1], input[offset + 2], input[offset + 3];
          if !SecondOfFour(first, second) || !Continuation(third) || !Continuation(fourth) then Err(InvalidEncoding)
          else Ok(Decoded(ValueOfFour(first, second, third, fourth), 4))
      else Err(InvalidEncoding)
  }

  // ---------- the decoder's byte tests and values, in integers ----------

  lemma Test1(first: Byte)
    ensures first <= 0x7F <==> Bits.ByteValue(first) <= 0x7F
  {}

  lemma Test2(first: Byte, second: Byte)
    ensures 0xC2 <= first <= 0xDF && Continuation(second)
       <==> var (f, s) := (Bits.ByteValue(first), Bits.ByteValue(second));
            0xC2 <= f <= 0xDF && 0x80 <= s <= 0xBF
  {}

  lemma Test3(first: Byte, second: Byte, third: Byte)
    ensures 0xE0 <= first <= 0xEF && SecondOfThree(first, second) && Continuation(third)
       <==> var (f, s, t) := (Bits.ByteValue(first), Bits.ByteValue(second), Bits.ByteValue(third));
            0xE0 <= f <= 0xEF && 0x80 <= s <= 0xBF && 0x80 <= t <= 0xBF
            && (f == 0xE0 ==> 0xA0 <= s) && (f == 0xED ==> s <= 0x9F)
  {}

  lemma Test4(first: Byte, second: Byte, third: Byte, fourth: Byte)
    ensures 0xF0 <= first <= 0xF4 && SecondOfFour(first, second) && Continuation(third) && Continuation(fourth)
       <==> var (f, s, t, q) := (Bits.ByteValue(first), Bits.ByteValue(second),
                                 Bits.ByteValue(third), Bits.ByteValue(fourth));
            0xF0 <= f <= 0xF4 && 0x80 <= s <= 0xBF && 0x80 <= t <= 0xBF && 0x80 <= q <= 0xBF
            && (f == 0xF0 ==> 0x90 <= s) && (f == 0xF4 ==> s <= 0x8F)
  {}

  lemma Value2(first: Byte, second: Byte)
    requires 0xC2 <= first <= 0xDF && Continuation(second)
    ensures Bits.WordValue(ValueOfTwo(first, second))
         == (Bits.ByteValue(first) - 0xC0) * 0x40 + (Bits.ByteValue(second) - 0x80)
  {
    hide Bits.ByteValue, Bits.WordValue;
    Bits.Payload2(first, second);
  }

  lemma Value3(first: Byte, second: Byte, third: Byte)
    requires 0xE0 <= first <= 0xEF && SecondOfThree(first, second) && Continuation(third)
    ensures Bits.WordValue(ValueOfThree(first, second, third))
         == (Bits.ByteValue(first) - 0xE0) * 0x1000 + (Bits.ByteValue(second) - 0x80) * 0x40
            + (Bits.ByteValue(third) - 0x80)
  {
    hide Bits.ByteValue, Bits.WordValue;
    Bits.Payload3(first, second, third);
  }

  lemma Value4(first: Byte, second: Byte, third: Byte, fourth: Byte)
    requires 0xF0 <= first <= 0xF4 && SecondOfFour(first, second) && Continuation(third) && Continuation(fourth)
    ensures Bits.WordValue(ValueOfFour(first, second, third, fourth))
         == (Bits.ByteValue(first) - 0xF0) * 0x4_0000 + (Bits.ByteValue(second) - 0x80) * 0x1000
            + (Bits.ByteValue(third) - 0x80) * 0x40 + (Bits.ByteValue(fourth) - 0x80)
  {
    hide Bits.ByteValue, Bits.WordValue;
    Bits.Payload4(first, second, third, fourth);
  }

  // ---------- the rows of Table 3-7 of the Unicode Standard ----------

  lemma Row2(f: int, s: int, v: int)
    ensures 0xC2 <= f <= 0xDF && 0x80 <= s <= 0xBF && v == (f - 0xC0) * 0x40 + (s - 0x80)
       <==> 0x80 <= v <= 0x7FF && f == 0xC0 + v / 0x40 && s == 0x80 + v % 0x40
  {}

  lemma Row3(f: int, s: int, t: int, v: int)
    ensures 0xE0 <= f <= 0xEF && 0x80 <= s <= 0xBF && 0x80 <= t <= 0xBF
            && (f == 0xE0 ==> 0xA0 <= s) && (f == 0xED ==> s <= 0x9F)
            && v == (f - 0xE0) * 0x1000 + (s - 0x80) * 0x40 + (t - 0x80)
       <==> 0x800 <= v <= 0xFFFF && IsScalar(v)
            && f == 0xE0 + v / 0x1000 && s == 0x80 + v / 0x40 % 0x40 && t == 0x80 + v % 0x40
  {
    if 0xE0 <= f <= 0xEF && 0x80 <= s <= 0xBF && 0x80 <= t <= 0xBF
       && v == (f - 0xE0) * 0x1000 + (s - 0x80) * 0x40 + (t - 0x80) {
      Bits.Digits(v, 0, 0, f - 0xE0, s - 0x80, t - 0x80);
    }
    Bits.DigitSum(v);
  }

  lemma Row4(f: int, s: int, t: int, q: int, v: int)
    ensures 0xF0 <= f <= 0xF4 && 0x80 <= s <= 0xBF && 0x80 <= t <= 0xBF && 0x80 <= q <= 0xBF
            && (f == 0xF0 ==> 0x90 <= s) && (f == 0xF4 ==> s <= 0x8F)
            && v == (f - 0xF0) * 0x4_0000 + (s - 0x80) * 0x1000 + (t - 0x80) * 0x40 + (q - 0x80)
       <==> 0x1_0000 <= v <= 0x10_FFFF && f == 0xF0 + v / 0x4_0000
            && s == 0x80 + v / 0x1000 % 0x40 && t == 0x80 + v / 0x40 % 0x40 && q == 0x80 + v % 0x40
  {
    if 0xF0 <= f <= 0xF4 && 0x80 <= s <= 0xBF && 0x80 <= t <= 0xBF && 0x80 <= q <= 0xBF
       && v == (f - 0xF0) * 0x4_0000 + (s - 0x80) * 0x1000 + (t - 0x80) * 0x40 + (q - 0x80) {
      Bits.Digits(v, 0, f - 0xF0, s - 0x80, t - 0x80, q - 0x80);
    }
    Bits.DigitSum(v);
  }

  // ---------- a sequence the decoder takes is the encoding of its value ----------

  lemma Bytes1(first: Byte, x: bv32)
    ensures first <= 0x7F && x == first as bv32
       <==> Bits.WordValue(x) <= 0x7F && [first] == Octets1(Bits.WordValue(x))
  {
    hide Octets1, Bits.ByteValue, Bits.WordValue;
    Test1(first);
    Bits.WidenByte(first);
    Bits.SameWord(x, first as bv32);
    if Bits.WordValue(x) <= 0x7F {
      Octets1Named(first, Bits.WordValue(x));
    }
  }

  lemma Bytes2(first: Byte, second: Byte, x: bv32)
    ensures 0xC2 <= first <= 0xDF && Continuation(second) && x == ValueOfTwo(first, second)
       <==> 0x80 <= Bits.WordValue(x) <= 0x7FF && [first, second] == Octets2(Bits.WordValue(x))
  {
    hide Octets2, ValueOfTwo, Continuation, Bits.ByteValue, Bits.WordValue;
    var v := Bits.WordValue(x);
    Test2(first, second);
    Row2(Bits.ByteValue(first), Bits.ByteValue(second), v);
    if 0x80 <= v <= 0x7FF {
      Octets2Named(first, second, v);
    }
    if 0xC2 <= first <= 0xDF && Continuation(second) {
      Value2(first, second);
      Bits.SameWord(x, ValueOfTwo(first, second));
    }
  }

  lemma Bytes3(first: Byte, second: Byte, third: Byte, x: bv32)
    ensures 0xE0 <= first <= 0xEF && SecondOfThree(first, second) && Continuation(third)
            && x == ValueOfThree(first, second, third)
       <==> var v := Bits.WordValue(x);
            0x800 <= v <= 0xFFFF && IsScalar(v) && [first, second, third] == Octets3(v)
  {
    hide Octets3, ValueOfThree, SecondOfThree, Continuation, Bits.ByteValue, Bits.WordValue;
    var v := Bits.WordValue(x);
    Test3(first, second, third);
    Row3(Bits.ByteValue(first), Bits.ByteValue(second), Bits.ByteValue(third), v);
    if 0x800 <= v <= 0xFFFF {
      Octets3Named(first, second, third, v);
    }
    if 0xE0 <= first <= 0xEF && SecondOfThree(first, second) && Continuation(third) {
      Value3(first, second, third);
      Bits.SameWord(x, ValueOfThree(first, second, third));
    }
  }

  lemma Bytes4(first: Byte, second: Byte, third: Byte, fourth: Byte, x: bv32)
    ensures 0xF0 <= first <= 0xF4 && SecondOfFour(first, second) && Continuation(third) && Continuation(fourth)
            && x == ValueOfFour(first, second, third, fourth)
       <==> var v := Bits.WordValue(x);
            0x1_0000 <= v <= 0x10_FFFF && [first, second, third, fourth] == Octets4(v)
  {
    hide Octets4, ValueOfFour, SecondOfFour, Continuation, Bits.ByteValue, Bits.WordValue;
    var v := Bits.WordValue(x);
    Test4(first, second, third, fourth);
    Row4(Bits.ByteValue(first), Bits.ByteValue(second), Bits.ByteValue(third), Bits.ByteValue(fourth), v);
    if 0x1_0000 <= v <= 0x10_FFFF {
      Octets4Named(first, second, third, fourth, v);
    }
    if 0xF0 <= first <= 0xF4 && SecondOfFour(first, second) && Continuation(third) && Continuation(fourth) {
      Value4(first, second, third, fourth);
      Bits.SameWord(x, ValueOfFour(first, second, third, fourth));
    }
  }

  /** The code of a scalar value occupies bytes i to i + n of the input. */
  ghost predicate CodeAt(input: seq<Byte>, offset: nat, v: int, n: nat) {
    IsScalar(v) && offset + n <= |input| && input[offset..offset + n] == Enc8(v)
  }

  /** Decoder and encoder are exact inverses, at every offset of every input. */
  lemma DecodeInverse(input: seq<Byte>, offset: nat, x: bv32, n: nat)
    ensures DecodeCodePoint(input, offset) == Ok(Decoded(x, n))
       <==> CodeAt(input, offset, Bits.WordValue(x), n)
  {
    hide Octets1, Octets2, Octets3, Octets4, ValueOfTwo, ValueOfThree, ValueOfFour;
    hide Bits.ByteValue, Bits.WordValue, SecondOfThree, SecondOfFour, Continuation;
    if n == 1 && offset + 1 <= |input| {
      assert input[offset..offset + 1] == [input[offset]];
      Bytes1(input[offset], x);
    } else if n == 2 && offset + 2 <= |input| {
      assert input[offset..offset + 2] == [input[offset], input[offset + 1]];
      Bytes2(input[offset], input[offset + 1], x);
    } else if n == 3 && offset + 3 <= |input| {
      assert input[offset..offset + 3] == [input[offset], input[offset + 1], input[offset + 2]];
      Bytes3(input[offset], input[offset + 1], input[offset + 2], x);
    } else if n == 4 && offset + 4 <= |input| {
      assert input[offset..offset + 4] == [input[offset], input[offset + 1], input[offset + 2], input[offset + 3]];
      Bytes4(input[offset], input[offset + 1], input[offset + 2], input[offset + 3], x);
    }
  }

  /** The decoder finds every code that is there. */
  lemma DecodeComplete(input: seq<Byte>, offset: nat, v: Scalar)
    requires offset <= |input| && Enc8(v) <= input[offset..]
    ensures var r := DecodeCodePoint(input, offset);
      r.Ok? && Bits.WordValue(r.value.value) == v && r.value.length == |Enc8(v)|
  {
    hide Enc8, DecodeCodePoint, Bits.WordValue;
    var x := Bits.WordExists(v);
    assert input[offset..offset + |Enc8(v)|] == Enc8(v);
    DecodeInverse(input, offset, x, |Enc8(v)|);
  }

  lemma DecodeSound(input: seq<Byte>, offset: nat)
    requires DecodeCodePoint(input, offset).Ok?
    ensures var Decoded(x, n) := DecodeCodePoint(input, offset).value;
      CodeAt(input, offset, Bits.WordValue(x), n)
  {
    hide DecodeCodePoint, Bits.WordValue, CodeAt;
    var Decoded(x, n) := DecodeCodePoint(input, offset).value;
    DecodeInverse(input, offset, x, n);
  }

  /** The decoder fails exactly where no scalar value's code starts. */
  lemma DecodeFails(input: seq<Byte>, offset: nat)
    ensures DecodeCodePoint(input, offset).Err? <==> offset > |input| || NoCodeAt(Enc8, input, offset)
  {
    hide Enc8, DecodeCodePoint, Bits.WordValue;
    if DecodeCodePoint(input, offset).Ok? {
      DecodeSound(input, offset);
      var Decoded(x, n) := DecodeCodePoint(input, offset).value;
      var v: Scalar := Bits.WordValue(x);
      assert Enc8(v) <= input[offset..];
    } else if offset <= |input| {
      forall v: Scalar | Enc8(v) <= input[offset..] ensures false {
        DecodeComplete(input, offset, v);
      }
    }
  }

  lemma Utf8PrefixFree()
    ensures PrefixFree(Enc8)
  {
    hide DecodeCodePoint, Bits.WordValue;
    forall v: Scalar ensures Enc8(v) != [] {
    }
    forall u: Scalar, v: Scalar | Enc8(u) <= Enc8(v) ensures u == v {
      hide Enc8;
      assert Enc8(v)[0..] == Enc8(v);
      DecodeComplete(Enc8(v), 0, u);
      DecodeComplete(Enc8(v), 0, v);
    }
  }

  // ---------- continuation bytes ----------

  /** The bytes of one code: a first one that is no continuation byte, then only continuation bytes. */
  lemma CodeShape(input: seq<Byte>, offset: nat)
    requires DecodeCodePoint(input, offset).Ok?
    ensures !Continuation(input[offset])
    ensures forall j :: offset < j < offset + DecodeCodePoint(input, offset).value.length ==> Continuation(input[j])
  {
    hide ValueOfTwo, ValueOfThree, ValueOfFour;
  }

  /** No code starts at a continuation byte. */
  lemma NotInside(s: seq<Byte>, i: nat)
    requires i < |s| && Continuation(s[i])
    ensures DecodeCodePoint(s, i).Err?
  {
    hide ValueOfTwo, ValueOfThree, ValueOfFour, SecondOfThree, SecondOfFour;
  }

  /** Exactly the first byte of a code is no continuation byte. */
  lemma CodeBytes(v: Scalar)
    ensures forall j :: 0 <= j < |Enc8(v)| ==> (Continuation(Enc8(v)[j]) <==> j > 0)
  {
    hide Enc8, DecodeCodePoint, Continuation, Bits.WordValue;
    assert Enc8(v)[0..] == Enc8(v);
    DecodeComplete(Enc8(v), 0, v);
    CodeShape(Enc8(v), 0);
  }
}
