/**
 * UTF-8 is self-synchronising: which offsets of a well-formed string start a
 * code can be told from one byte, so that searching bytes is searching
 * characters.
 */
module Boundaries {
  import Bits
  import opened Coding
  import opened Decoder
  import opened Unicode

  /** Offset i is where the k-th scalar value's code starts, or the end of the string. */
  ghost predicate StartsCode(vs: seq<Scalar>, k: nat, i: nat) {
    k <= |vs| && i == |Flat(Enc8, vs[..k])|
  }

  /** Offset i is a code-point boundary of the encoding of vs. */
  ghost predicate Boundary(vs: seq<Scalar>, i: nat) {
    exists k: nat :: StartsCode(vs, k, i)
  }

  lemma FlatSplit(vs: seq<Scalar>, k: nat)
    requires k <= |vs|
    ensures Flat(Enc8, vs) == Flat(Enc8, vs[..k]) + Flat(Enc8, vs[k..])
  {
    hide Enc8;
    FlatConcat(Enc8, vs[..k], vs[k..]);
    assert vs == vs[..k] + vs[k..];
  }

  /** Byte i of a well-formed string is byte j of the code of scalar value k. */
  lemma {:induction false} Locate(vs: seq<Scalar>, i: nat) returns (k: nat, j: nat)
    requires i < |Flat(Enc8, vs)|
    ensures k < |vs| && j < |Enc8(vs[k])|
    ensures i == |Flat(Enc8, vs[..k])| + j
    ensures Enc8(vs[k]) <= Flat(Enc8, vs)[i - j..]
    decreases |vs|
  {
    hide Enc8;
    var c := Enc8(vs[0]);
    if i < |c| {
      k, j := 0, i;
    } else {
      k, j := Locate(vs[1..], i - |c|);
      assert vs[..k + 1][1..] == vs[1..][..k];
      assert Flat(Enc8, vs)[i - j..] == Flat(Enc8, vs[1..])[i - |c| - j..];
      k := k + 1;
    }
  }

  /** Codes start at increasing offsets. */
  lemma StartsIncrease(vs: seq<Scalar>, k: nat, m: nat)
    requires k < m <= |vs|
    ensures |Flat(Enc8, vs[..k])| + |Enc8(vs[k])| <= |Flat(Enc8, vs[..m])|
  {
    hide Enc8;
    assert vs[..m] == vs[..k] + vs[k..m];
    FlatConcat(Enc8, vs[..k], vs[k..m]);
  }

  /**
   * In a well-formed string an offset is a boundary exactly when its byte is no
   * continuation byte, and exactly when the decoder succeeds there.
   */
  lemma SelfSynchronising(vs: seq<Scalar>, i: nat)
    requires i < |Flat(Enc8, vs)|
    ensures Boundary(vs, i) <==> !Continuation(Flat(Enc8, vs)[i])
    ensures Boundary(vs, i) <==> DecodeCodePoint(Flat(Enc8, vs), i).Ok?
  {
    hide Enc8, DecodeCodePoint, Continuation, Bits.WordValue;
    var s := Flat(Enc8, vs);
    var k, j := Locate(vs, i);
    CodeBytes(vs[k]);
    assert s[i] == s[i - j..][j] == Enc8(vs[k])[j];
    if j == 0 {
      assert StartsCode(vs, k, i);
      DecodeComplete(s, i, vs[k]);
    } else {
      NotInside(s, i);
      forall m: nat | StartsCode(vs, m, i) ensures false {
        if m <= k {
          if m < k {
            StartsIncrease(vs, m, k);
          }
        } else {
          StartsIncrease(vs, k, m);
        }
      }
    }
  }

  /** From any offset of a well-formed string a boundary is at most three bytes back. */
  lemma Resynchronise(vs: seq<Scalar>, i: nat) returns (j: nat)
    requires i < |Flat(Enc8, vs)|
    ensures j <= 3 && j <= i && Boundary(vs, i - j)
    ensures forall m :: i - j < m <= i ==> Continuation(Flat(Enc8, vs)[m])
  {
    hide Enc8, DecodeCodePoint, Continuation, Bits.WordValue;
    var s := Flat(Enc8, vs);
    var k, at := Locate(vs, i);
    j := at;
    CodeLengths(vs[k]);
    CodeBytes(vs[k]);
    assert StartsCode(vs, k, i - j);
    forall m | i - j < m <= i ensures Continuation(s[m]) {
      assert s[m] == s[i - j..][m - (i - j)] == Enc8(vs[k])[m - (i - j)];
    }
  }

  /** The bytes of t occur in s from offset i on. */
  ghost predicate OccursAt(s: seq<Byte>, t: seq<Byte>, i: nat) {
    i + |t| <= |s| && s[i..i + |t|] == t
  }

  /** The scalar values us occur in vs from the k-th on, whose code starts at byte i. */
  ghost predicate ScalarsOccurAt(vs: seq<Scalar>, us: seq<Scalar>, k: nat, i: nat) {
    && k + |us| <= |vs| && vs[k..k + |us|] == us
    && StartsCode(vs, k, i)
  }

  lemma MatchStart(vs: seq<Scalar>, us: seq<Scalar>, i: nat) returns (k: nat)
    requires us != [] && OccursAt(Flat(Enc8, vs), Flat(Enc8, us), i)
    ensures StartsCode(vs, k, i)
  {
    hide Enc8, Continuation, DecodeCodePoint;
    var s, t := Flat(Enc8, vs), Flat(Enc8, us);
    CodeLengths(us[0]);
    CodeBytes(us[0]);
    assert t[0] == Enc8(us[0])[0];
    assert s[i] == s[i..i + |t|][0];
    SelfSynchronising(vs, i);
    k :| StartsCode(vs, k, i);
  }

  lemma MatchedScalars(vs: seq<Scalar>, us: seq<Scalar>, i: nat) returns (k: nat)
    requires us != [] && OccursAt(Flat(Enc8, vs), Flat(Enc8, us), i)
    ensures ScalarsOccurAt(vs, us, k, i)
  {
    hide Enc8, Flat;
    var s, t := Flat(Enc8, vs), Flat(Enc8, us);
    k := MatchStart(vs, us, i);
    FlatSplit(vs, k);
    assert s[i..] == Flat(Enc8, vs[k..]);
    assert s[i..] == t + s[i + |t|..];
    Utf8PrefixFree();
    Cancel(Enc8, us, s[i + |t|..], vs[k..]);
    assert us == vs[k..][..|us|];
  }

  lemma MatchedBytes(vs: seq<Scalar>, us: seq<Scalar>, k: nat, i: nat)
    requires ScalarsOccurAt(vs, us, k, i)
    ensures OccursAt(Flat(Enc8, vs), Flat(Enc8, us), i)
  {
    hide Enc8, Flat;
    FlatSplit(vs, k);
    FlatSplit(vs[k..], |us|);
    assert vs[k..][..|us|] == us;
  }

  /** A byte substring match between well-formed strings is a match of characters at a boundary. */
  lemma SubstringFaithful(vs: seq<Scalar>, us: seq<Scalar>, i: nat)
    requires us != []
    ensures OccursAt(Flat(Enc8, vs), Flat(Enc8, us), i) <==> exists k: nat :: ScalarsOccurAt(vs, us, k, i)
  {
    hide Enc8, Flat, OccursAt, ScalarsOccurAt;
    if OccursAt(Flat(Enc8, vs), Flat(Enc8, us), i) {
      var k := MatchedScalars(vs, us, i);
    }
    forall k: nat | ScalarsOccurAt(vs, us, k, i) ensures OccursAt(Flat(Enc8, vs), Flat(Enc8, us), i) {
      MatchedBytes(vs, us, k, i);
    }
  }

  lemma AsciiCode(c: Scalar)
    requires c < 0x80
    ensures Enc8(c) == [Bits.ToByte(c)]
  {}

  /** No code of several bytes has a byte below 0x80. */
  lemma AsciiByte(v: Scalar, j: nat, c: Scalar)
    requires c < 0x80 && j < |Enc8(v)| && Enc8(v)[j] == Bits.ToByte(c)
    ensures v == c
  {
    hide Bits.ToByte, Bits.ByteValue;
    assert Bits.ByteValue(Enc8(v)[j]) == c;
  }

  /** A byte below 0x80 occurs in a well-formed string exactly when its character does. */
  lemma {:induction false} ByteSearch(vs: seq<Scalar>, c: Scalar)
    requires c < 0x80
    ensures Bits.ToByte(c) in Flat(Enc8, vs) <==> c in vs
  {
    hide Enc8;
    var b := Bits.ToByte(c);
    AsciiCode(c);
    if c in vs {
      var k :| 0 <= k < |vs| && vs[k] == c;
      FlatSplit(vs, k);
      assert Flat(Enc8, vs[k..])[0] == b;
    }
    if b in Flat(Enc8, vs) {
      var s := Flat(Enc8, vs);
      var i :| 0 <= i < |s| && s[i] == b;
      var k, j := Locate(vs, i);
      assert s[i] == s[i - j..][j] == Enc8(vs[k])[j];
      AsciiByte(vs[k], j, c);
    }
  }
}
