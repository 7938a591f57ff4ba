/**
 * Lengths of encoded strings, and what the transcoders' reservations are worth.
 */
module Lengths {
  import Bits
  import opened Coding
  import opened Results
  import opened Strings
  import opened Unicode

  /** How many scalar values have a UTF-8 code of n bytes. */
  ghost function Coded(vs: seq<Scalar>, n: nat): nat {
    if vs == [] then 0 else (if |Enc8(vs[0])| == n then 1 else 0) + Coded(vs[1..], n)
  }

  /** With a, b, c and d codes of one to four bytes: a+2b+3c+4d bytes and a+b+c+2d units. */
  lemma {:induction false} LengthAccounting(vs: seq<Scalar>)
    ensures |Flat(Enc8, vs)| == Coded(vs, 1) + 2 * Coded(vs, 2) + 3 * Coded(vs, 3) + 4 * Coded(vs, 4)
    ensures |Flat(Enc16, vs)| == Coded(vs, 1) + Coded(vs, 2) + Coded(vs, 3) + 2 * Coded(vs, 4)
    ensures |vs| == Coded(vs, 1) + Coded(vs, 2) + Coded(vs, 3) + Coded(vs, 4)
  {
    hide Enc8, Enc16;
    if vs == [] {
    } else {
      CodeLengths(vs[0]);
      LengthAccounting(vs[1..]);
    }
  }

  /** The output of `utf8_to_utf16` always fits what it reserves, and is at least a third of it. */
  lemma ReserveSuffices(s: seq<Byte>, w: seq<Unit>)
    requires Transcode(Enc8, Enc16, s) == Ok(w)
    ensures |w| <= |s| <= 3 * |w|
  {
    hide Enc8, Enc16;
    LengthAccounting(Scalars(Enc8, s));
  }

  ghost predicate Ascii(w: seq<Unit>) {
    forall i :: 0 <= i < |w| ==> w[i] <= 0x7F
  }

  lemma UnitSmall(u: Unit)
    ensures u <= 0x7F <==> Bits.UnitValue(u) <= 0x7F
  {}

  lemma OneByteCode(v: Scalar)
    ensures |Enc8(v)| == 1 <==> Enc16(v)[0] <= 0x7F
    ensures |Enc8(v)| == 1 ==> |Enc16(v)| == 1
  {
    hide Octets1, Octets2, Octets3, Octets4, Bits.UnitValue, Bits.ToUnit;
    UnitSmall(Enc16(v)[0]);
  }

  lemma {:induction false} AsciiUnits(vs: seq<Scalar>)
    ensures Ascii(Flat(Enc16, vs)) <==> Coded(vs, 2) == Coded(vs, 3) == Coded(vs, 4) == 0
  {
    hide Enc8, Enc16;
    if vs == [] {
    } else {
      var c, rest := Enc16(vs[0]), Flat(Enc16, vs[1..]);
      OneByteCode(vs[0]);
      CodeLengths(vs[0]);
      AsciiUnits(vs[1..]);
      assert Flat(Enc16, vs)[0] == c[0];
      assert Flat(Enc16, vs)[|c|..] == rest;
      if Ascii(Flat(Enc16, vs)) {
        assert |c| == 1;
        forall i | 0 <= i < |rest| ensures rest[i] <= 0x7F {
          assert rest[i] == Flat(Enc16, vs)[i + 1];
        }
      }
    }
  }

  /** The output of `utf16_to_utf8` fits what it reserves exactly when the input is all ASCII. */
  lemma ReserveTooSmall(w: seq<Unit>, s: seq<Byte>)
    requires Transcode(Enc16, Enc8, w) == Ok(s)
    ensures |s| <= |w| <==> Ascii(w)
    ensures |w| <= |s| <= 3 * |w|
  {
    hide Enc8, Enc16, Ascii;
    var vs := Scalars(Enc16, w);
    LengthAccounting(vs);
    AsciiUnits(vs);
  }

  /** The shortest overrun: U+0080 is one unit and two bytes. */
  lemma ReserveOverrun()
    ensures Transcode(Enc16, Enc8, Flat(Enc16, [0x80])) == Ok(Flat(Enc8, [0x80]))
    ensures |Flat(Enc16, [0x80])| == 1 && |Flat(Enc8, [0x80])| == 2
  {
    UniqueEncodings([0x80], [0x80]);
    FlatOne(Enc8, 0x80);
    FlatOne(Enc16, 0x80);
  }
}
