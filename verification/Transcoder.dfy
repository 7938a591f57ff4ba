/**
 * The validator and the two transcoders, loop for loop, proved against the
 * encoding forms.
 */
module Transcoder {
  import Bits
  import opened Coding
  import opened Decoder
  import opened Results
  import opened Surrogates
  import opened Unicode

  /** A string that grows at its end, as std::string and std::u16string do here. */
  class Text<T> {
    var units: seq<T>

    constructor ()
      ensures units == []
    {
      units := [];
    }

    method PushBack(unit: T)
      modifies this
      ensures units == old(units) + [unit]
    {
      units := units + [unit];
    }
  }

  // ---------- UTF-8 validation ----------

  lemma Step8(input: seq<Byte>, offset: nat, vs: seq<Scalar>) returns (us: seq<Scalar>)
    requires offset <= |input| && Flat(Enc8, vs) == input[..offset]
    requires DecodeCodePoint(input, offset).Ok?
    ensures var Decoded(x, n) := DecodeCodePoint(input, offset).value;
      && IsScalar(Bits.WordValue(x))
      && us == vs + [Bits.WordValue(x)]
      && Flat(Enc8, us) == input[..offset + n]
  {
    hide Enc8, DecodeCodePoint, Bits.WordValue;
    DecodeSound(input, offset);
    var Decoded(x, n) := DecodeCodePoint(input, offset).value;
    var v: Scalar := Bits.WordValue(x);
    us := vs + [v];
    FlatSnoc(Enc8, vs, v);
    assert input[..offset + n] == input[..offset] + input[offset..offset + n];
  }

  /**
   * The ghost result holds the offsets the loop visits.  In an accepted string
   * they are those of the bytes that are no continuation bytes.
   */
  method IsValidUtf8(input: seq<Byte>) returns (valid: bool, ghost visited: set<nat>)
    ensures valid <==> WellFormed(Enc8, input)
    ensures valid ==> visited == (set i: nat | i < |input| && !Continuation(input[i]))
    ensures valid ==> |visited| == |Scalars(Enc8, input)|
  {
    hide Enc8, DecodeCodePoint, Continuation, Bits.WordValue;
    var offset := 0;
    ghost var vs: seq<Scalar> := [];
    visited := {};
    Utf8PrefixFree();
    while offset < |input|
      invariant offset <= |input|
      invariant Flat(Enc8, vs) == input[..offset]
      invariant visited == set i: nat | i < offset && !Continuation(input[i])
      invariant |visited| == |vs|
    {
      var decoded := DecodeCodePoint(input, offset);
      if decoded.Err? {
        DecodeFails(input, offset);
        TranscodeStuck(Enc8, Enc16, input, offset, vs);
        return false, visited;
      }
      CodeShape(input, offset);
      vs := Step8(input, offset, vs);
      visited := visited + {offset};
      offset := offset + decoded.value.length;
    }
    assert input[..offset] == input;
    ScalarsUnique(Enc8, vs);
    return true, visited;
  }

  // ---------- UTF-8 to UTF-16 ----------

  lemma UnitsOfValue(value: bv32)
    requires IsScalar(Bits.WordValue(value))
    ensures Enc16(Bits.WordValue(value))
         == if value <= 0xFFFF then [Bits.Narrow16(value)]
            else [Bits.Narrow16(0xD800 + ((value - 0x1_0000) >> 10)),
                  Bits.Narrow16(0xDC00 + ((value - 0x1_0000) & 0x3FF))]
  {
    hide Bits.WordValue, Bits.UnitValue, Bits.Narrow16, Bits.ToUnit;
    Bits.WordBounds(value);
    var v := Bits.WordValue(value);
    if value <= 0xFFFF {
      Bits.SingleUnit(value);
      UnitNamed(Bits.Narrow16(value), v);
    } else {
      Bits.SplitPair(value);
      UnitNamed(Bits.Narrow16(0xD800 + ((value - 0x1_0000) >> 10)), 0xD800 + (v - 0x1_0000) / 0x400);
      UnitNamed(Bits.Narrow16(0xDC00 + ((value - 0x1_0000) & 0x3FF)), 0xDC00 + (v - 0x1_0000) % 0x400);
    }
  }

  /** The iteration that writes a value's units. */
  lemma Written(vs: seq<Scalar>, value: bv32)
    requires IsScalar(Bits.WordValue(value))
    ensures Flat(Enc16, vs + [Bits.WordValue(value)])
         == if value <= 0xFFFF then Flat(Enc16, vs) + [Bits.Narrow16(value)]
            else Flat(Enc16, vs) + [Bits.Narrow16(0xD800 + ((value - 0x1_0000) >> 10))]
                 + [Bits.Narrow16(0xDC00 + ((value - 0x1_0000) & 0x3FF))]
  {
    hide Enc16, Flat, Bits.WordValue, Bits.Narrow16;
    UnitsOfValue(value);
    FlatSnoc(Enc16, vs, Bits.WordValue(value));
  }

  /**
   * The ghost results are the offset after the last completed iteration and the
   * number of completed iterations.
   */
  method Utf8ToUtf16(input: seq<Byte>) returns (r: Result<seq<Unit>>, ghost offset: nat, ghost steps: nat)
    ensures r == Transcode(Enc8, Enc16, input)
    ensures StopsAt(Enc8, input, offset)
    ensures steps == |Scalars(Enc8, input[..offset])|
    ensures r.Ok? <==> offset == |input|
  {
    hide Enc8, Enc16, DecodeCodePoint, Bits.WordValue, Bits.Narrow16, Transcode;
    var output := [];
    var at := 0;
    ghost var vs: seq<Scalar> := [];
    steps := 0;
    Utf8PrefixFree();
    assert Flat(Enc8, vs) == [] && Flat(Enc16, vs) == [];
    hide Flat, PrefixFree, NoCodeAt, WellFormed, StopsAt;
    while at < |input|
      invariant at <= |input|
      invariant Flat(Enc8, vs) == input[..at] && output == Flat(Enc16, vs)
      invariant steps == |vs|
    {
      var decoded := DecodeCodePoint(input, at);
      if decoded.Err? {
        DecodeFails(input, at);
        TranscodeStuck(Enc8, Enc16, input, at, vs);
        return Err(decoded.error), at, steps;
      }
      var value := decoded.value.value;
      ghost var us := Step8(input, at, vs);
      Written(vs, value);
      if value <= 0xFFFF {
        output := output + [Bits.Narrow16(value)];
      } else {
        var adjusted := value - 0x1_0000;
        output := output + [Bits.Narrow16(0xD800 + (adjusted >> 10))];
        output := output + [Bits.Narrow16(0xDC00 + (adjusted & 0x3FF))];
      }
      vs, steps := us, steps + 1;
      at := at + decoded.value.length;
    }
    TranscodeDone(Enc8, Enc16, input, vs);
    return Ok(output), at, steps;
  }

  // ---------- UTF-16 to UTF-8 ----------

  lemma OctetsEmitted(value: bv32)
    ensures OctetsOf(Bits.WordValue(value)) ==
      if value <= 0x7F then [Bits.Narrow8(value)]
      else if value <= 0x7FF then [Bits.Narrow8(0xC0 | (value >> 6)), Bits.Narrow8(0x80 | (value & 0x3F))]
      else if value <= 0xFFFF then
        [Bits.Narrow8(0xE0 | (value >> 12)), Bits.Narrow8(0x80 | ((value >> 6) & 0x3F)),
         Bits.Narrow8(0x80 | (value & 0x3F))]
      else
        [Bits.Narrow8(0xF0 | (value >> 18)), Bits.Narrow8(0x80 | ((value >> 12) & 0x3F)),
         Bits.Narrow8(0x80 | ((value >> 6) & 0x3F)), Bits.Narrow8(0x80 | (value & 0x3F))]
  {
    hide Bits.WordValue, Bits.ByteValue, Bits.Narrow8, Octets1, Octets2, Octets3, Octets4;
    var v := Bits.WordValue(value);
    Bits.WordBounds(value);
    Bits.Leading(value);
    Bits.Trailing(value);
    if value <= 0x7F {
      Bits.SingleByte(value);
      Octets1Named(Bits.Narrow8(value), v);
    } else if value <= 0x7FF {
      Octets2Named(Bits.Narrow8(0xC0 | (value >> 6)), Bits.Narrow8(0x80 | (value & 0x3F)), v);
    } else if value <= 0xFFFF {
      Octets3Named(Bits.Narrow8(0xE0 | (value >> 12)), Bits.Narrow8(0x80 | ((value >> 6) & 0x3F)),
                   Bits.Narrow8(0x80 | (value & 0x3F)), v);
    } else {
      Bits.DigitsBelow(v);
      Octets4Named(Bits.Narrow8(0xF0 | (value >> 18)), Bits.Narrow8(0x80 | ((value >> 12) & 0x3F)),
                   Bits.Narrow8(0x80 | ((value >> 6) & 0x3F)), Bits.Narrow8(0x80 | (value & 0x3F)), v % 0x40_0000);
    }
  }

  /** Appends the bytes of a value; for a scalar value, its UTF-8 encoding. */
  method AppendUtf8(output: Text<Byte>, value: bv32)
    modifies output
    ensures output.units == old(output.units) + OctetsOf(Bits.WordValue(value))
    ensures IsScalar(Bits.WordValue(value)) ==> output.units == old(output.units) + Enc8(Bits.WordValue(value))
  {
    hide OctetsOf, Enc8, Bits.WordValue, Bits.Narrow8;
    OctetsEmitted(value);
    if IsScalar(Bits.WordValue(value)) {
      OctetsOfScalar(Bits.WordValue(value));
    }
    if value <= 0x7F {
      output.PushBack(Bits.Narrow8(value));
    } else if value <= 0x7FF {
      output.PushBack(Bits.Narrow8(0xC0 | (value >> 6)));
      output.PushBack(Bits.Narrow8(0x80 | (value & 0x3F)));
    } else if value <= 0xFFFF {
      output.PushBack(Bits.Narrow8(0xE0 | (value >> 12)));
      output.PushBack(Bits.Narrow8(0x80 | ((value >> 6) & 0x3F)));
      output.PushBack(Bits.Narrow8(0x80 | (value & 0x3F)));
    } else {
      output.PushBack(Bits.Narrow8(0xF0 | (value >> 18)));
      output.PushBack(Bits.Narrow8(0x80 | ((value >> 12) & 0x3F)));
      output.PushBack(Bits.Narrow8(0x80 | ((value >> 6) & 0x3F)));
      output.PushBack(Bits.Narrow8(0x80 | (value & 0x3F)));
    }
  }

  lemma WidenedTests(unit: Unit)
    ensures High(unit) <==> 0xD800 <= (unit as bv32) <= 0xDBFF
    ensures Low(unit) <==> 0xDC00 <= (unit as bv32) <= 0xDFFF
  {}

  lemma Step16(input: seq<Unit>, start: nat, index: nat, vs: seq<Scalar>, v: Scalar)
    requires start <= index <= |input| && Flat(Enc16, vs) == input[..start]
    requires Enc16(v) == input[start..index]
    ensures Flat(Enc16, vs + [v]) == input[..index]
    ensures Flat(Enc8, vs + [v]) == Flat(Enc8, vs) + Enc8(v)
  {
    hide Enc8, Enc16;
    FlatSnoc(Enc16, vs, v);
    FlatSnoc(Enc8, vs, v);
    assert input[..index] == input[..start] + input[start..index];
  }

  /** The iteration that reads a unit which is no surrogate. */
  lemma ReadSingle(input: seq<Unit>, start: nat, vs: seq<Scalar>) returns (v: Scalar)
    requires start < |input| && Flat(Enc16, vs) == input[..start]
    requires !High(input[start]) && !Low(input[start])
    ensures v == Bits.WordValue(input[start] as bv32)
    ensures Flat(Enc16, vs + [v]) == input[..start + 1]
    ensures Flat(Enc8, vs + [v]) == Flat(Enc8, vs) + Enc8(v)
  {
    hide Enc8, Enc16, High, Low, Bits.WordValue, Bits.UnitValue;
    SingleCode(input[start]);
    Bits.WidenUnit(input[start]);
    v := Bits.UnitValue(input[start]);
    Step16(input, start, start + 1, vs, v);
  }

  /** The iteration that reads a surrogate pair. */
  lemma ReadPair(input: seq<Unit>, start: nat, vs: seq<Scalar>, first: bv32, second: bv32) returns (v: Scalar)
    requires start + 1 < |input| && Flat(Enc16, vs) == input[..start]
    requires High(input[start]) && Low(input[start + 1])
    requires first == input[start] as bv32 && second == input[start + 1] as bv32
    ensures v == Bits.WordValue(Bits.PairWord(first, second))
    ensures Flat(Enc16, vs + [v]) == input[..start + 2]
    ensures Flat(Enc8, vs + [v]) == Flat(Enc8, vs) + Enc8(v)
  {
    hide Enc8, Enc16, Bits.WordValue, Bits.UnitValue, Bits.PairWord;
    PairCode(input[start], input[start + 1]);
    Bits.JoinPair(input[start], input[start + 1]);
    v := PairValue(input[start], input[start + 1]);
    assert input[start..start + 2] == [input[start], input[start + 1]];
    Step16(input, start, start + 2, vs, v);
  }

  function ValuesOf(words: seq<bv32>): (values: seq<int>)
    ensures |values| == |words|
  {
    seq(|words|, i requires 0 <= i < |words| => Bits.WordValue(words[i]))
  }

  /**
   * The ghost results are the offset after the last completed iteration and the
   * values passed to `AppendUtf8`, one an iteration, which are scalar values.
   */
  method Utf16ToUtf8(input: seq<Unit>) returns (r: Result<seq<Byte>>, ghost offset: nat, ghost passed: seq<bv32>)
    ensures r == Transcode(Enc16, Enc8, input)
    ensures StopsAt(Enc16, input, offset)
    ensures ValuesOf(passed) == Scalars(Enc16, input[..offset])
    ensures r.Ok? <==> offset == |input|
  {
    hide Enc8, Enc16, High, Low, OctetsOf, Bits.WordValue, Bits.PairWord, Transcode;
    var output := new Text<Byte>();
    var index := 0;
    ghost var vs: seq<Scalar> := [];
    passed := [];
    Utf16PrefixFree();
    assert Flat(Enc16, vs) == [] && Flat(Enc8, vs) == [];
    hide Flat, PrefixFree, NoCodeAt, WellFormed, StopsAt;
    while index < |input|
      invariant index <= |input|
      invariant Flat(Enc16, vs) == input[..index] && output.units == Flat(Enc8, vs)
      invariant ValuesOf(passed) == vs
    {
      ghost var start := index;
      ghost var v: Scalar;
      NoCode(input, index);
      WidenedTests(input[index]);
      var first := input[index] as bv32;
      index := index + 1;
      var value := first;
      if 0xD800 <= first <= 0xDBFF {
        if index >= |input| {
          TranscodeStuck(Enc16, Enc8, input, start, vs);
          return Err(InvalidEncoding), start, passed;
        }
        WidenedTests(input[index]);
        var second := input[index] as bv32;
        index := index + 1;
        if second < 0xDC00 || second > 0xDFFF {
          TranscodeStuck(Enc16, Enc8, input, start, vs);
          return Err(InvalidEncoding), start, passed;
        }
        value := Bits.PairWord(first, second);
        v := ReadPair(input, start, vs, first, second);
      } else if 0xDC00 <= first <= 0xDFFF {
        TranscodeStuck(Enc16, Enc8, input, start, vs);
        return Err(InvalidEncoding), start, passed;
      } else {
        v := ReadSingle(input, start, vs);
      }
      vs, passed := vs + [v], passed + [value];
      AppendUtf8(output, value);
    }
    TranscodeDone(Enc16, Enc8, input, vs);
    return Ok(output.units), index, passed;
  }
}
