/**
 * UTF-16 units: where a code starts and where none does (section 2.2 of
 * RFC 2781).
 */
module Surrogates {
  import Bits
  import opened Coding
  import opened Unicode

  predicate High(u: Unit) {
    0xD800 <= u <= 0xDBFF
  }

  predicate Low(u: Unit) {
    0xDC00 <= u <= 0xDFFF
  }

  /** The scalar value a surrogate pair stands for. */
  function PairValue(high: Unit, low: Unit): int {
    0x1_0000 + (Bits.UnitValue(high) - 0xD800) * 0x400 + (Bits.UnitValue(low) - 0xDC00)
  }

  lemma Ranges(u: Unit)
    ensures High(u) <==> 0xD800 <= Bits.UnitValue(u) <= 0xDBFF
    ensures Low(u) <==> 0xDC00 <= Bits.UnitValue(u) <= 0xDFFF
    ensures Bits.UnitValue(u) < 0x1_0000
  {}

  lemma SingleCode(u: Unit)
    requires !High(u) && !Low(u)
    ensures IsScalar(Bits.UnitValue(u)) && Enc16(Bits.UnitValue(u)) == [u]
  {
    hide High, Low, Bits.UnitValue, Bits.ToUnit;
    Ranges(u);
    UnitNamed(u, Bits.UnitValue(u));
  }

  lemma PairCode(high: Unit, low: Unit)
    requires High(high) && Low(low)
    ensures IsScalar(PairValue(high, low)) && Enc16(PairValue(high, low)) == [high, low]
  {
    hide High, Low, Bits.UnitValue, Bits.ToUnit;
    Ranges(high);
    Ranges(low);
    UnitNamed(high, Bits.UnitValue(high));
    UnitNamed(low, Bits.UnitValue(low));
  }

  /** The units of a code: one that is no surrogate, or a high one and a low one. */
  lemma CodeUnits(v: Scalar)
    ensures var c := Enc16(v);
      || (v <= 0xFFFF && |c| == 1 && !High(c[0]) && !Low(c[0]) && v == Bits.UnitValue(c[0]))
      || (v > 0xFFFF && |c| == 2 && High(c[0]) && Low(c[1]) && v == PairValue(c[0], c[1]))
  {
    hide High, Low, Bits.UnitValue, Bits.ToUnit;
    Ranges(Enc16(v)[0]);
    if v > 0xFFFF {
      Ranges(Enc16(v)[1]);
    }
  }

  lemma Utf16PrefixFree()
    ensures PrefixFree(Enc16)
  {
    hide Enc16, High, Low, PairValue, Bits.UnitValue;
    forall v: Scalar ensures Enc16(v) != [] {
      CodeUnits(v);
    }
    forall u: Scalar, v: Scalar | Enc16(u) <= Enc16(v) ensures u == v {
      CodeUnits(u);
      CodeUnits(v);
    }
  }

  /** No code starts at a low surrogate, nor at a high one that no low one follows. */
  lemma NoCode(w: seq<Unit>, i: nat)
    requires i < |w|
    ensures NoCodeAt(Enc16, w, i) <==> Low(w[i]) || (High(w[i]) && !(i + 1 < |w| && Low(w[i + 1])))
  {
    hide Enc16, PairValue, Bits.UnitValue;
    if !High(w[i]) && !Low(w[i]) {
      SingleCode(w[i]);
      assert Enc16(Bits.UnitValue(w[i])) <= w[i..];
    } else if High(w[i]) && i + 1 < |w| && Low(w[i + 1]) {
      PairCode(w[i], w[i + 1]);
      assert Enc16(PairValue(w[i], w[i + 1])) <= w[i..];
    }
    forall v: Scalar | Enc16(v) <= w[i..]
      ensures !Low(w[i]) && (High(w[i]) ==> i + 1 < |w| && Low(w[i + 1]))
    {
      CodeUnits(v);
      assert Enc16(v)[0] == w[i];
    }
  }
}
