/**
 * Theorems about whole strings: what each transcoder accepts, that the two
 * undo each other, where they fail, and what the encoder makes of a value that
 * is no scalar value.
 */
module Strings {
  import Bits
  import opened Coding
  import opened Decoder
  import opened Results
  import opened Surrogates
  import opened Unicode

  // ---------- round trips ----------

  /** The transcoders are inverse bijections between the strings they accept. */
  lemma MutualInverse(s: seq<Byte>, w: seq<Unit>)
    ensures Transcode(Enc8, Enc16, s) == Ok(w) <==> Transcode(Enc16, Enc8, w) == Ok(s)
  {
    Utf8PrefixFree();
    Utf16PrefixFree();
    TranscodeInverse(Enc8, Enc16, s, w);
  }

  /** Every scalar sequence has one UTF-8 and one UTF-16 string, and each is transcoded into the other. */
  lemma UniqueEncodings(a: seq<Scalar>, b: seq<Scalar>)
    ensures Flat(Enc8, a) == Flat(Enc8, b) <==> a == b
    ensures Flat(Enc16, a) == Flat(Enc16, b) <==> a == b
    ensures Transcode(Enc8, Enc16, Flat(Enc8, a)) == Ok(Flat(Enc16, a))
    ensures Transcode(Enc16, Enc8, Flat(Enc16, a)) == Ok(Flat(Enc8, a))
  {
    hide Enc8, Enc16;
    Utf8PrefixFree();
    Utf16PrefixFree();
    ScalarsUnique(Enc8, a);
    ScalarsUnique(Enc8, b);
    ScalarsUnique(Enc16, a);
    ScalarsUnique(Enc16, b);
  }

  // ---------- exact acceptance of UTF-16 ----------

  /** Unit i is half of a pair if it is a surrogate. */
  predicate PairedAt(w: seq<Unit>, i: nat)
    requires i < |w|
  {
    && (High(w[i]) ==> i + 1 < |w| && Low(w[i + 1]))
    && (Low(w[i]) ==> 0 < i && High(w[i - 1]))
  }

  ghost predicate SurrogatesPaired(w: seq<Unit>) {
    forall i: nat :: i < |w| ==> PairedAt(w, i)
  }

  lemma HighIsNotLow(u: Unit)
    ensures !(High(u) && Low(u))
  {}

  lemma {:induction false} EncodedIsPaired(vs: seq<Scalar>)
    ensures SurrogatesPaired(Flat(Enc16, vs))
  {
    hide Enc16, High, Low;
    if vs == [] {
    } else {
      var c, rest := Enc16(vs[0]), Flat(Enc16, vs[1..]);
      CodeUnits(vs[0]);
      HighIsNotLow(c[0]);
      HighIsNotLow(c[|c| - 1]);
      EncodedIsPaired(vs[1..]);
      forall i: nat | i < |c + rest| ensures PairedAt(c + rest, i) {
        if |c| <= i {
          assert PairedAt(rest, i - |c|);
        }
      }
    }
  }

  /** A well-formed string does not end inside a pair. */
  lemma LastUnit(w: seq<Unit>)
    requires WellFormed(Enc16, w) && w != []
    ensures !High(w[|w| - 1])
  {
    hide Enc16, High, Low;
    EncodedIsPaired(Scalars(Enc16, w));
    assert PairedAt(w, |w| - 1);
  }

  /** UTF-16 is well formed, and so accepted, exactly when each surrogate is half of a pair. */
  lemma AcceptedUtf16(w: seq<Unit>)
    ensures WellFormed(Enc16, w) <==> SurrogatesPaired(w)
  {
    hide Enc16, High, Low;
    Utf16PrefixFree();
    if WellFormed(Enc16, w) {
      EncodedIsPaired(Scalars(Enc16, w));
    } else {
      var n := StopExists(Enc16, w);
      assert n < |w| by {
        assert w[..|w|] == w;
      }
      NoCode(w, n);
      if Low(w[n]) && 0 < n && High(w[n - 1]) {
        LastUnit(w[..n]);
      }
      assert !PairedAt(w, n);
    }
  }

  /** Whatever a transcoder accepts, its output is well formed and holds the same scalar values. */
  lemma Closure(s: seq<Byte>, w: seq<Unit>)
    ensures Transcode(Enc8, Enc16, s).Ok? ==>
      var out := Transcode(Enc8, Enc16, s).value;
      WellFormed(Enc16, out) && SurrogatesPaired(out) && Scalars(Enc16, out) == Scalars(Enc8, s)
    ensures Transcode(Enc16, Enc8, w).Ok? ==>
      var out := Transcode(Enc16, Enc8, w).value;
      WellFormed(Enc8, out) && Scalars(Enc8, out) == Scalars(Enc16, w)
  {
    hide Enc8, Enc16, SurrogatesPaired;
    Utf8PrefixFree();
    Utf16PrefixFree();
    if Transcode(Enc8, Enc16, s).Ok? {
      ScalarsUnique(Enc16, Scalars(Enc8, s));
      EncodedIsPaired(Scalars(Enc8, s));
    }
    if Transcode(Enc16, Enc8, w).Ok? {
      ScalarsUnique(Enc8, Scalars(Enc16, w));
    }
  }

  // ---------- concatenation ----------

  lemma ConcatUtf8(s: seq<Byte>, t: seq<Byte>)
    requires WellFormed(Enc8, s)
    ensures WellFormed(Enc8, s + t) <==> WellFormed(Enc8, t)
    ensures WellFormed(Enc8, t) ==>
      Transcode(Enc8, Enc16, s + t) == Ok(Transcode(Enc8, Enc16, s).value + Transcode(Enc8, Enc16, t).value)
  {
    hide Enc8, Enc16;
    Utf8PrefixFree();
    WellFormedRest(Enc8, s, t);
    if WellFormed(Enc8, t) {
      TranscodeConcat(Enc8, Enc16, s, t);
    }
  }

  lemma ConcatUtf16(s: seq<Unit>, t: seq<Unit>)
    requires WellFormed(Enc16, s)
    ensures WellFormed(Enc16, s + t) <==> WellFormed(Enc16, t)
    ensures WellFormed(Enc16, t) ==>
      Transcode(Enc16, Enc8, s + t) == Ok(Transcode(Enc16, Enc8, s).value + Transcode(Enc16, Enc8, t).value)
  {
    hide Enc8, Enc16;
    Utf16PrefixFree();
    WellFormedRest(Enc16, s, t);
    if WellFormed(Enc16, t) {
      TranscodeConcat(Enc16, Enc8, s, t);
    }
  }

  // ---------- append_utf8 on values that are no scalar values ----------

  /** The one scalar value whose code could be the octets of v. */
  lemma OnlyCandidate(v: nat, u: Scalar)
    requires Enc8(u) <= OctetsOf(v)
    ensures u == Kept(v) && Enc8(u) == OctetsOf(v) && (u > 0xFFFF <==> v > 0xFFFF)
  {
    hide Octets1, Octets2, Octets3, Octets4, Bits.ByteValue;
    OctetsOfScalar(u);
    LeadingOctet(u);
    LeadingOctet(v);
    assert Enc8(u)[0] == OctetsOf(v)[0];
    if v <= 0x7F {
    } else if v <= 0x7FF {
      Octets2Injective(u, v);
    } else if v <= 0xFFFF {
      Octets3Injective(u, v);
    } else {
      Octets4Injective(u, v % 0x40_0000);
    }
  }

  lemma NonEmptyOctets(v: nat)
    ensures OctetsOf(v) != []
  {
    hide Octets1, Octets2, Octets3, Octets4;
  }

  lemma KeptCode(v: nat)
    requires IsScalar(v) || (v > 0x10_FFFF && 0x1_0000 <= v % 0x40_0000 <= 0x10_FFFF)
    ensures IsScalar(Kept(v)) && OctetsOf(v) == Enc8(Kept(v))
  {
    hide Octets1, Octets2, Octets3, Octets4;
    assert v <= 0x10_FFFF ==> v % 0x40_0000 == v;
  }

  /**
   * What append_utf8 emits for any 32-bit value is well formed for scalar values,
   * and for values beyond the code space whose low 22 bits are a supplementary
   * code point; and it then encodes that code point.
   */
  lemma AppendAccepted(v: nat)
    ensures WellFormed(Enc8, OctetsOf(v))
       <==> IsScalar(v) || (v > 0x10_FFFF && 0x1_0000 <= v % 0x40_0000 <= 0x10_FFFF)
    ensures WellFormed(Enc8, OctetsOf(v)) ==> Scalars(Enc8, OctetsOf(v)) == [Kept(v)]
  {
    hide Enc8, OctetsOf;
    Utf8PrefixFree();
    if IsScalar(v) || (v > 0x10_FFFF && 0x1_0000 <= v % 0x40_0000 <= 0x10_FFFF) {
      KeptCode(v);
      FlatOne(Enc8, Kept(v));
      ScalarsUnique(Enc8, [Kept(v)]);
    } else if WellFormed(Enc8, OctetsOf(v)) {
      var vs := Scalars(Enc8, OctetsOf(v));
      NonEmptyOctets(v);
      OnlyCandidate(v, vs[0]);
    }
  }

  /** What append_utf8 emits encodes the value it was given exactly for scalar values. */
  lemma AppendFaithful(v: nat)
    ensures WellFormed(Enc8, OctetsOf(v)) && Scalars(Enc8, OctetsOf(v)) == [v] <==> IsScalar(v)
  {
    hide Enc8, OctetsOf;
    AppendAccepted(v);
    assert v <= 0x10_FFFF ==> v % 0x40_0000 == v;
  }

  /** A surrogate is emitted as three bytes that are no UTF-8. */
  lemma SurrogateAppended()
    ensures !WellFormed(Enc8, OctetsOf(0xD800))
  {
    hide Enc8, OctetsOf;
    AppendAccepted(0xD800);
  }

  /** A value beyond the code space is emitted as the encoding of another one. */
  lemma AliasAppended()
    ensures WellFormed(Enc8, OctetsOf(0x41_0000)) && Scalars(Enc8, OctetsOf(0x41_0000)) == [0x1_0000]
  {
    hide Enc8, OctetsOf;
    AppendAccepted(0x41_0000);
  }
}
