/**
 * Strings encoded one scalar value after another, by any encoding in which no
 * code is a prefix of another.  Both directions of the transcoder, and every
 * theorem about whole strings, are instances of what is proved here.
 */
module Coding {
  import opened Results
  import opened Unicode

  /** The encoding of a sequence of scalar values. */
  function Flat<T>(enc: Scalar -> seq<T>, vs: seq<Scalar>): seq<T> {
    if vs == [] then [] else enc(vs[0]) + Flat(enc, vs[1..])
  }

  ghost predicate PrefixFree<T>(enc: Scalar -> seq<T>) {
    && (forall v: Scalar :: enc(v) != [])
    && (forall u: Scalar, v: Scalar :: enc(u) <= enc(v) ==> u == v)
  }

  ghost predicate WellFormed<T>(enc: Scalar -> seq<T>, s: seq<T>) {
    exists vs: seq<Scalar> :: Flat(enc, vs) == s
  }

  /** A sequence of scalar values that s encodes; the only one, by ScalarsUnique. */
  ghost function Scalars<T>(enc: Scalar -> seq<T>, s: seq<T>): (vs: seq<Scalar>)
    requires WellFormed(enc, s)
    ensures Flat(enc, vs) == s
  {
    var vs: seq<Scalar> :| Flat(enc, vs) == s;
    vs
  }

  /** No scalar value's code starts at offset i of s. */
  ghost predicate NoCodeAt<T>(enc: Scalar -> seq<T>, s: seq<T>, i: nat)
    requires i <= |s|
  {
    forall v: Scalar :: !(enc(v) <= s[i..])
  }

  /** Decoding of s stops at offset n: after a well-formed prefix, where no further code starts. */
  ghost predicate StopsAt<T>(enc: Scalar -> seq<T>, s: seq<T>, n: nat) {
    n <= |s| && WellFormed(enc, s[..n]) && NoCodeAt(enc, s, n)
  }

  /** What transcoding means: the same scalar values in another encoding, or an error. */
  ghost function Transcode<S, T>(from: Scalar -> seq<S>, to: Scalar -> seq<T>, s: seq<S>): Result<seq<T>> {
    if WellFormed(from, s) then Ok(Flat(to, Scalars(from, s))) else Err(InvalidEncoding)
  }

  // ---------- concatenation and unique decoding ----------

  lemma {:induction false} FlatConcat<T>(enc: Scalar -> seq<T>, a: seq<Scalar>, b: seq<Scalar>)
    ensures Flat(enc, a + b) == Flat(enc, a) + Flat(enc, b)
  {
    if a == [] {
      assert a + b == b;
    } else {
      assert (a + b)[1..] == a[1..] + b;
      calc {
        Flat(enc, a + b);
        enc(a[0]) + Flat(enc, a[1..] + b);
        { FlatConcat(enc, a[1..], b); }
        enc(a[0]) + (Flat(enc, a[1..]) + Flat(enc, b));
        Flat(enc, a) + Flat(enc, b);
      }
    }
  }

  lemma FlatOne<T>(enc: Scalar -> seq<T>, v: Scalar)
    ensures Flat(enc, [v]) == enc(v)
  {
    assert [v][1..] == [];
  }

  lemma FlatSnoc<T>(enc: Scalar -> seq<T>, vs: seq<Scalar>, v: Scalar)
    ensures Flat(enc, vs + [v]) == Flat(enc, vs) + enc(v)
  {
    FlatConcat(enc, vs, [v]);
    FlatOne(enc, v);
  }

  /** Two codes at the start of one string are the same code. */
  lemma SameCode<T>(enc: Scalar -> seq<T>, s: seq<T>, u: Scalar, v: Scalar)
    requires PrefixFree(enc)
    requires enc(u) <= s && enc(v) <= s
    ensures u == v
  {
    if |enc(u)| <= |enc(v)| {
      assert enc(u) <= enc(v);
    } else {
      assert enc(v) <= enc(u);
    }
  }

  /** An encoded prefix of an encoded string encodes a prefix, and the rest encodes the rest. */
  lemma {:induction false} Cancel<T>(enc: Scalar -> seq<T>, a: seq<Scalar>, t: seq<T>, b: seq<Scalar>)
    requires PrefixFree(enc)
    requires Flat(enc, a) + t == Flat(enc, b)
    ensures a <= b && t == Flat(enc, b[|a|..])
  {
    var s := Flat(enc, b);
    if a == [] {
      assert s == t;
    } else {
      assert s == enc(a[0]) + (Flat(enc, a[1..]) + t);
      assert b != [] by {
        assert enc(a[0]) != [];
      }
      SameCode(enc, s, a[0], b[0]);
      assert Flat(enc, a[1..]) + t == s[|enc(a[0])|..] == Flat(enc, b[1..]);
      Cancel(enc, a[1..], t, b[1..]);
      assert b[1..][|a[1..]|..] == b[|a|..];
    }
  }

  /** Unique decodability. */
  lemma ScalarsUnique<T>(enc: Scalar -> seq<T>, vs: seq<Scalar>)
    requires PrefixFree(enc)
    ensures WellFormed(enc, Flat(enc, vs)) && Scalars(enc, Flat(enc, vs)) == vs
  {
    var us := Scalars(enc, Flat(enc, vs));
    Cancel(enc, us, [], vs);
    Cancel(enc, vs, [], us);
  }

  lemma NonEmptyCodes<T>(enc: Scalar -> seq<T>, vs: seq<Scalar>)
    requires PrefixFree(enc)
    ensures Flat(enc, vs) == [] <==> vs == []
  {
    if vs != [] {
      assert enc(vs[0]) != [];
    }
  }

  /** After an accepted prefix, the rest is accepted exactly when the whole is. */
  lemma WellFormedRest<T>(enc: Scalar -> seq<T>, s: seq<T>, t: seq<T>)
    requires PrefixFree(enc)
    requires WellFormed(enc, s)
    ensures WellFormed(enc, s + t) <==> WellFormed(enc, t)
  {
    var a := Scalars(enc, s);
    if WellFormed(enc, s + t) {
      Cancel(enc, a, t, Scalars(enc, s + t));
    }
    if WellFormed(enc, t) {
      FlatConcat(enc, a, Scalars(enc, t));
    }
  }

  // ---------- where decoding fails ----------

  /** A well-formed prefix goes on with a code wherever a longer one does. */
  lemma CodeFollows<T>(enc: Scalar -> seq<T>, s: seq<T>, n: nat, k: nat)
    requires PrefixFree(enc)
    requires n < k <= |s|
    requires WellFormed(enc, s[..n]) && WellFormed(enc, s[..k])
    ensures !NoCodeAt(enc, s, n)
  {
    var a, b := Scalars(enc, s[..n]), Scalars(enc, s[..k]);
    assert s[..k] == s[..n] + s[n..k];
    Cancel(enc, a, s[n..k], b);
    var rest := b[|a|..];
    NonEmptyCodes(enc, rest);
    assert enc(rest[0]) <= s[n..k] <= s[n..];
  }

  /** A well-formed prefix after which no code starts is the longest one. */
  lemma LongestPrefix<T>(enc: Scalar -> seq<T>, s: seq<T>, n: nat, k: nat)
    requires PrefixFree(enc)
    requires StopsAt(enc, s, n)
    requires k <= |s| && WellFormed(enc, s[..k])
    ensures k <= n
  {
    if n < k {
      CodeFollows(enc, s, n, k);
    }
  }

  /** Decoding of any string stops somewhere. */
  lemma {:induction false} StopExists<T>(enc: Scalar -> seq<T>, s: seq<T>) returns (n: nat)
    requires PrefixFree(enc)
    ensures StopsAt(enc, s, n)
    decreases |s|
  {
    if NoCodeAt(enc, s, 0) {
      n := 0;
      assert s[..0] == Flat(enc, []);
    } else {
      var v: Scalar :| enc(v) <= s[0..];
      var c := enc(v);
      assert s == c + s[|c|..];
      FlatOne(enc, v);
      WellFormedRest(enc, c, s[|c|..]);
      assert c != [];
      var m := StopExists(enc, s[|c|..]);
      n := |c| + m;
      assert s[..n] == c + s[|c|..][..m];
      WellFormedRest(enc, c, s[|c|..][..m]);
      assert s[n..] == s[|c|..][m..];
    }
  }

  /** Decoding stops at exactly one offset, the end of the longest well-formed prefix. */
  lemma FailureLocalised<T>(enc: Scalar -> seq<T>, s: seq<T>)
    requires PrefixFree(enc)
    ensures exists n: nat :: StopsAt(enc, s, n)
    ensures forall m: nat, n: nat :: StopsAt(enc, s, m) && StopsAt(enc, s, n) ==> m == n
    ensures forall n: nat, k: nat :: StopsAt(enc, s, n) && k <= |s| && WellFormed(enc, s[..k]) ==> k <= n
    ensures forall n: nat :: StopsAt(enc, s, n) ==> (n == |s| <==> WellFormed(enc, s))
  {
    var stop := StopExists(enc, s);
    assert s[..|s|] == s;
    forall n: nat, k: nat | StopsAt(enc, s, n) && k <= |s| && WellFormed(enc, s[..k]) ensures k <= n {
      LongestPrefix(enc, s, n, k);
    }
  }

  // ---------- transcoding ----------

  lemma TranscodeFlat<S, T>(from: Scalar -> seq<S>, to: Scalar -> seq<T>, vs: seq<Scalar>)
    requires PrefixFree(from)
    ensures Transcode(from, to, Flat(from, vs)) == Ok(Flat(to, vs))
  {
    ScalarsUnique(from, vs);
  }

  /** A transcoder that has consumed the whole string returns what it has written. */
  lemma TranscodeDone<S, T>(from: Scalar -> seq<S>, to: Scalar -> seq<T>, s: seq<S>, vs: seq<Scalar>)
    requires PrefixFree(from)
    requires Flat(from, vs) == s[..|s|]
    ensures Transcode(from, to, s) == Ok(Flat(to, vs))
    ensures StopsAt(from, s, |s|) && Scalars(from, s[..|s|]) == vs
  {
    assert s[..|s|] == s;
    ScalarsUnique(from, vs);
  }

  /** A transcoder that stands where no code starts, short of the end, fails. */
  lemma TranscodeStuck<S, T>(from: Scalar -> seq<S>, to: Scalar -> seq<T>, s: seq<S>, n: nat, vs: seq<Scalar>)
    requires PrefixFree(from)
    requires n < |s| && Flat(from, vs) == s[..n] && NoCodeAt(from, s, n)
    ensures !WellFormed(from, s) && Transcode(from, to, s) == Err(InvalidEncoding)
    ensures StopsAt(from, s, n) && Scalars(from, s[..n]) == vs
  {
    ScalarsUnique(from, vs);
    assert StopsAt(from, s, n);
    FailureLocalised(from, s);
  }

  /** Transcoding back returns exactly the string it came from. */
  lemma TranscodeInverse<S, T>(from: Scalar -> seq<S>, to: Scalar -> seq<T>, s: seq<S>, t: seq<T>)
    requires PrefixFree(from) && PrefixFree(to)
    ensures Transcode(from, to, s) == Ok(t) <==> Transcode(to, from, t) == Ok(s)
  {
    if Transcode(from, to, s) == Ok(t) {
      TranscodeFlat(to, from, Scalars(from, s));
    }
    if Transcode(to, from, t) == Ok(s) {
      TranscodeFlat(from, to, Scalars(to, t));
    }
  }

  /** Accepted strings concatenate to the concatenation of their results. */
  lemma TranscodeConcat<S, T>(from: Scalar -> seq<S>, to: Scalar -> seq<T>, s: seq<S>, t: seq<S>)
    requires PrefixFree(from)
    requires WellFormed(from, s) && WellFormed(from, t)
    ensures Transcode(from, to, s + t)
         == Ok(Transcode(from, to, s).value + Transcode(from, to, t).value)
  {
    var a, b := Scalars(from, s), Scalars(from, t);
    FlatConcat(from, a, b);
    FlatConcat(to, a, b);
    TranscodeFlat(from, to, a + b);
  }
}
