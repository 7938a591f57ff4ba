/**
 * Sorting UTF-8 by bytes sorts it by code points (section 1 of RFC 3629).
 */
module Ordering {
  import Bits
  import opened Coding
  import opened Decoder
  import opened Unicode

  /** Lexicographic order, a proper prefix coming first. */
  predicate Before<T(==)>(less: (T, T) -> bool, a: seq<T>, b: seq<T>) {
    if b == [] then false
    else if a == [] then true
    else less(a[0], b[0]) || (a[0] == b[0] && Before(less, a[1..], b[1..]))
  }

  /** Unsigned comparison of bytes, as std::string compares them. */
  predicate ByteLess(b: Byte, c: Byte) {
    Bits.ByteValue(b) < Bits.ByteValue(c)
  }

  predicate ScalarLess(u: Scalar, v: Scalar) {
    u < v
  }

  /** A proper prefix comes first. */
  lemma {:induction false} PrefixFirst<T(!new)>(less: (T, T) -> bool, p: seq<T>, q: seq<T>)
    requires forall x :: !less(x, x)
    requires q != []
    ensures Before(less, p, p + q) && !Before(less, p + q, p)
  {
    if p == [] {
      assert p + q == q;
    } else {
      PrefixFirst(less, p[1..], q);
      assert (p + q)[1..] == p[1..] + q;
    }
  }

  /** Otherwise the first difference decides. */
  lemma {:induction false} DifferenceDecides<T(!new)>(
    less: (T, T) -> bool, p: seq<T>, x: T, s: seq<T>, y: T, t: seq<T>)
    requires forall z :: !less(z, z)
    requires x != y
    ensures Before(less, p + [x] + s, p + [y] + t) <==> less(x, y)
  {
    var a, b := p + [x] + s, p + [y] + t;
    if p == [] {
      assert a[0] == x && b[0] == y;
    } else {
      DifferenceDecides(less, p[1..], x, s, y, t);
      assert a[1..] == p[1..] + [x] + s && b[1..] == p[1..] + [y] + t;
    }
  }

  lemma Irreflexive(b: Byte)
    ensures !ByteLess(b, b)
  {}

  lemma {:induction false} CommonPrefix(p: seq<Byte>, a: seq<Byte>, b: seq<Byte>)
    ensures Before(ByteLess, p + a, p + b) <==> Before(ByteLess, a, b)
  {
    hide ByteLess;
    if p == [] {
      assert p + a == a && p + b == b;
    } else {
      CommonPrefix(p[1..], a, b);
      assert (p + a)[1..] == p[1..] + a && (p + b)[1..] == p[1..] + b;
      Irreflexive(p[0]);
    }
  }

  lemma DigitOrder(u: nat, v: nat)
    requires u < v
    ensures u / 0x40 < v / 0x40 || (u / 0x40 == v / 0x40 && u % 0x40 < v % 0x40)
  {}

  /** The base-64 digit, of the lowest three or the rest above them, where u and v first differ. */
  lemma FirstDigit(u: nat, v: nat) returns (k: nat)
    requires u < v
    ensures k <= 3
    ensures k == 0 ==> u / 0x4_0000 < v / 0x4_0000
    ensures k == 1 ==> u / 0x1000 % 0x40 < v / 0x1000 % 0x40
    ensures k == 2 ==> u / 0x40 % 0x40 < v / 0x40 % 0x40
    ensures k == 3 ==> u % 0x40 < v % 0x40
    ensures k >= 1 ==> u / 0x4_0000 == v / 0x4_0000
    ensures if k >= 2 then u / 0x1000 == v / 0x1000 else u / 0x1000 < v / 0x1000
    ensures if k >= 3 then u / 0x40 == v / 0x40 else u / 0x40 < v / 0x40
  {
    Bits.DigitShift(u);
    Bits.DigitShift(v);
    DigitOrder(u, v);
    if u / 0x40 == v / 0x40 {
      k := 3;
    } else {
      DigitOrder(u / 0x40, v / 0x40);
      if u / 0x1000 == v / 0x1000 {
        k := 2;
      } else {
        DigitOrder(u / 0x1000, v / 0x1000);
        k := if u / 0x4_0000 < v / 0x4_0000 then 0 else 1;
      }
    }
  }

  lemma Differ2(u: nat, v: nat) returns (k: nat)
    requires u < v < 0x800
    ensures k < 2 && Octets2(u)[..k] == Octets2(v)[..k] && ByteLess(Octets2(u)[k], Octets2(v)[k])
  {
    hide Bits.ByteValue, Bits.ToByte;
    var d := FirstDigit(u, v);
    k := if d == 3 then 1 else 0;
  }

  lemma Differ3(u: nat, v: nat) returns (k: nat)
    requires u < v < 0x1_0000
    ensures k < 3 && Octets3(u)[..k] == Octets3(v)[..k] && ByteLess(Octets3(u)[k], Octets3(v)[k])
  {
    hide Bits.ByteValue, Bits.ToByte;
    var d := FirstDigit(u, v);
    k := if d == 0 then 0 else d - 1;
  }

  lemma Differ4(u: nat, v: nat) returns (k: nat)
    requires u < v < 0x40_0000
    ensures k < 4 && Octets4(u)[..k] == Octets4(v)[..k] && ByteLess(Octets4(u)[k], Octets4(v)[k])
  {
    hide Bits.ByteValue, Bits.ToByte;
    k := FirstDigit(u, v);
    assert k >= 1 ==> Octets4(u)[0] == Octets4(v)[0];
    assert k >= 2 ==> Octets4(u)[1] == Octets4(v)[1];
    assert k >= 3 ==> Octets4(u)[2] == Octets4(v)[2];
  }

  /** A smaller scalar value has a smaller byte where the two codes first differ. */
  lemma FirstDifference(u: Scalar, v: Scalar) returns (k: nat)
    requires u < v
    ensures k < |Enc8(u)| && k < |Enc8(v)|
    ensures Enc8(u)[..k] == Enc8(v)[..k]
    ensures ByteLess(Enc8(u)[k], Enc8(v)[k])
  {
    hide Bits.ByteValue, Octets1, Octets2, Octets3, Octets4;
    OctetsOfScalar(u);
    OctetsOfScalar(v);
    LeadingOctet(u);
    LeadingOctet(v);
    if v <= 0x7F || |Enc8(u)| != |Enc8(v)| {
      k := 0;
    } else if v <= 0x7FF {
      k := Differ2(u, v);
    } else if v <= 0xFFFF {
      k := Differ3(u, v);
    } else {
      k := Differ4(u, v);
    }
  }

  lemma SmallerFirst(u: Scalar, s: seq<Byte>, v: Scalar, t: seq<Byte>)
    requires u < v
    ensures Before(ByteLess, Enc8(u) + s, Enc8(v) + t)
    ensures !Before(ByteLess, Enc8(v) + t, Enc8(u) + s)
  {
    hide Enc8;
    var k := FirstDifference(u, v);
    var p := Enc8(u)[..k];
    var a, b := Enc8(u)[k..] + s, Enc8(v)[k..] + t;
    assert Enc8(u) + s == p + a && Enc8(v) + t == p + b;
    assert a[0] == Enc8(u)[k] && b[0] == Enc8(v)[k];
    CommonPrefix(p, a, b);
    CommonPrefix(p, b, a);
  }

  /** Byte order of encodings is code point order. */
  lemma {:induction false} OrderPreserved(a: seq<Scalar>, b: seq<Scalar>)
    ensures Before(ByteLess, Flat(Enc8, a), Flat(Enc8, b)) <==> Before(ScalarLess, a, b)
  {
    hide Enc8, ByteLess;
    Utf8PrefixFree();
    NonEmptyCodes(Enc8, a);
    NonEmptyCodes(Enc8, b);
    if a == [] || b == [] {
    } else {
      if a[0] < b[0] {
        SmallerFirst(a[0], Flat(Enc8, a[1..]), b[0], Flat(Enc8, b[1..]));
      } else if b[0] < a[0] {
        SmallerFirst(b[0], Flat(Enc8, b[1..]), a[0], Flat(Enc8, a[1..]));
      } else {
        CommonPrefix(Enc8(a[0]), Flat(Enc8, a[1..]), Flat(Enc8, b[1..]));
        OrderPreserved(a[1..], b[1..]);
      }
    }
  }
}
