/**
 * What the answers of `disk_partitions`, for all disks together, make of the
 * platform's list.
 */
module Conservation {
  import Bits
  import opened Boundaries
  import opened Coding
  import opened Decoder
  import opened Ordering
  import opened Results
  import opened Storage
  import opened Unicode

  /** The picked records are those of the list at increasing places. */
  ghost predicate InOrder<R>(all: seq<Partition<R>>, picked: seq<Partition<R>>, at: seq<nat>) {
    && |at| == |picked|
    && (forall k :: 0 <= k < |at| ==> at[k] < |all|)
    && (forall k :: 0 <= k < |at| ==> picked[k] == all[at[k]])
    && (forall j, k :: 0 <= j < k < |at| ==> at[j] < at[k])
  }

  lemma InOrderNext<R>(all: seq<Partition<R>>, picked: seq<Partition<R>>, at: seq<nat>)
    requires all != [] && InOrder(all[..|all| - 1], picked, at)
    ensures InOrder(all, picked, at)
    ensures InOrder(all, picked + [all[|all| - 1]], at + [|all| - 1])
    ensures |all| - 1 !in at
  {}

  /** An answer keeps exactly the disk's records, in the order of the list. */
  lemma {:induction false} SelectIsSubsequence<R>(all: seq<Partition<R>>, name: seq<Scalar>) returns (at: seq<nat>)
    ensures InOrder(all, Select(all, name), at)
    ensures forall i: nat :: i < |all| ==> (OnDisk(all[i], name) <==> i in at)
  {
    hide OnDisk;
    if all == [] {
      at := [];
    } else {
      hide InOrder;
      var n: nat := |all| - 1;
      var before := SelectIsSubsequence(all[..n], name);
      InOrderNext(all, Select(all[..n], name), before);
      at := if OnDisk(all[n], name) then before + [n] else before;
      forall i: nat | i < n ensures OnDisk(all[i], name) <==> i in before {
        assert all[..n][i] == all[i];
      }
    }
  }

  lemma {:induction false} SelectCount<R>(all: seq<Partition<R>>, name: seq<Scalar>, x: Partition<R>)
    ensures multiset(Select(all, name))[x] == if OnDisk(x, name) then multiset(all)[x] else 0
  {
    hide OnDisk;
    if all == [] {
    } else {
      var n := |all| - 1;
      SelectCount(all[..n], name, x);
      assert all == all[..n] + [all[n]];
    }
  }

  /** The records of an answer; an error holds none. */
  ghost function Records<R>(r: Result<seq<Partition<R>>>): multiset<Partition<R>> {
    if r.Ok? then multiset(r.value) else multiset{}
  }

  ghost function Total<R>(answers: seq<Result<seq<Partition<R>>>>): multiset<Partition<R>> {
    if answers == [] then multiset{} else Total(answers[..|answers| - 1]) + Records(answers[|answers| - 1])
  }

  /** A validated record is in the answer for its own disk identifier, if that is accepted, and in no other. */
  lemma AnswerCount<R>(all: seq<Partition<R>>, id: Utf8Text, r: Result<seq<Partition<R>>>, x: Partition<R>)
    requires Validated(Ok(all), Ok(all)) && Answers(id, Ok(all), r)
    ensures Records(r)[x]
         == if id == x.diskIdentifier && IdentifierError(id) == None then multiset(all)[x] else 0
  {
    hide Enc8;
    if IdentifierError(id) == None {
      assert r.Ok?;
      SelectCount(all, Scalars(Enc8, id), x);
      if OnDisk(x, Scalars(Enc8, id)) {
        assert x.diskIdentifier == id;
      }
    }
  }

  lemma {:induction false} TotalCount<R>(
    all: seq<Partition<R>>, ids: seq<Utf8Text>, answers: seq<Result<seq<Partition<R>>>>, x: Partition<R>)
    requires Validated(Ok(all), Ok(all))
    requires forall i, j :: 0 <= i < j < |ids| ==> ids[i] != ids[j]
    requires |answers| == |ids| && forall i :: 0 <= i < |ids| ==> Answers(ids[i], Ok(all), answers[i])
    ensures Total(answers)[x]
         == if x.diskIdentifier in ids && IdentifierError(x.diskIdentifier) == None then multiset(all)[x] else 0
  {
    hide Answers, Validated, IdentifierError, Records;
    if ids == [] {
    } else {
      var n := |ids| - 1;
      TotalCount(all, ids[..n], answers[..n], x);
      AnswerCount(all, ids[n], answers[n], x);
      assert ids == ids[..n] + [ids[n]];
      assert ids[n] !in ids[..n];
    }
  }

  /**
   * Queries for every disk identifier in the list return each record once, if
   * and only if every record's disk identifier passes the argument check.
   */
  lemma PartitionsConserved<R(!new)>(
    all: seq<Partition<R>>, ids: seq<Utf8Text>, answers: seq<Result<seq<Partition<R>>>>)
    requires Validated(Ok(all), Ok(all))
    requires forall i, j :: 0 <= i < j < |ids| ==> ids[i] != ids[j]
    requires forall i :: 0 <= i < |all| ==> all[i].diskIdentifier in ids
    requires |answers| == |ids| && forall i :: 0 <= i < |ids| ==> Answers(ids[i], Ok(all), answers[i])
    ensures Total(answers) == multiset(all)
       <==> forall i :: 0 <= i < |all| ==> IdentifierError(all[i].diskIdentifier) == None
  {
    hide Answers, Validated, IdentifierError;
    forall x: Partition<R>
      ensures Total(answers)[x]
           == if x.diskIdentifier in ids && IdentifierError(x.diskIdentifier) == None then multiset(all)[x] else 0
    {
      TotalCount(all, ids, answers, x);
    }
    if forall i :: 0 <= i < |all| ==> IdentifierError(all[i].diskIdentifier) == None {
      forall x: Partition<R> ensures Total(answers)[x] == multiset(all)[x] {
        if x in multiset(all) {
          assert x in all;
        }
      }
    }
    if Total(answers) == multiset(all) {
      forall i | 0 <= i < |all| ensures IdentifierError(all[i].diskIdentifier) == None {
        assert all[i] in multiset(all);
      }
    }
  }

  lemma AsciiText(b: Byte, c: Scalar)
    requires c < 0x80 && Bits.ByteValue(b) == c
    ensures Flat(Enc8, [c]) == [b]
  {
    hide Enc8, Bits.ByteValue, Bits.ToByte;
    AsciiCode(c);
    ByteNamed(b, c);
    FlatOne(Enc8, c);
  }

  lemma SlashRefused()
    ensures WellFormed(Enc8, [0x2F]) && IdentifierError([0x2F]) == Some(InvalidArgument)
  {
    hide Enc8;
    AsciiText(0x2F, SLASH);
    Utf8PrefixFree();
    ScalarsUnique(Enc8, [SLASH]);
    assert SLASH in [SLASH];
  }

  /** A partition "a" of a disk "/". */
  function Slashed<R>(rest: R): Partition<R> {
    Partition([0x61], [0x2F], false, [], false, [], false, [], false, [], false, [], rest)
  }

  /** Validation passes a record on a disk named "/", and no query returns it. */
  lemma SlashedIsLost<R>(rest: R, id: Utf8Text, r: Result<seq<Partition<R>>>)
    requires Answers(id, Ok([Slashed(rest)]), r)
    ensures Validated(Ok([Slashed(rest)]), Ok([Slashed(rest)]))
    ensures Slashed(rest) !in Records(r)
  {
    hide Enc8, Answers, IdentifierError;
    AsciiText(0x61, 0x61);
    SlashRefused();
    AnswerCount([Slashed(rest)], id, r, Slashed(rest));
  }

  /** In ascending order by the given comparison, as std::sort leaves it. */
  ghost predicate Ascending<T>(less: (T, T) -> bool, strings: seq<seq<T>>) {
    forall i, j :: 0 <= i < j < |strings| ==> !Before(less, strings[j], strings[i])
  }

  function Identifiers<R>(list: seq<Partition<R>>): (ids: seq<Utf8Text>)
    ensures |ids| == |list|
  {
    seq(|list|, i requires 0 <= i < |list| => list[i].identifier)
  }

  ghost function IdentifierScalars<R>(list: seq<Partition<R>>): (names: seq<seq<Scalar>>)
    requires forall i :: 0 <= i < |list| ==> WellFormed(Enc8, list[i].identifier)
    ensures |names| == |list|
  {
    seq(|list|, i requires 0 <= i < |list| => Scalars(Enc8, list[i].identifier))
  }

  /** Two well-formed identifiers in byte order are in character order. */
  lemma SameOrder(a: Utf8Text, b: Utf8Text)
    requires WellFormed(Enc8, a) && WellFormed(Enc8, b)
    ensures Before(ByteLess, a, b) <==> Before(ScalarLess, Scalars(Enc8, a), Scalars(Enc8, b))
  {
    hide Enc8, ByteLess, ScalarLess;
    OrderPreserved(Scalars(Enc8, a), Scalars(Enc8, b));
  }

  lemma ValidatedNames<R>(all: seq<Partition<R>>)
    requires Validated(Ok(all), Ok(all))
    ensures forall i :: 0 <= i < |all| ==> WellFormed(Enc8, all[i].identifier)
  {
    hide Enc8, WellFormed, FlagsAgree, HoldsText;
  }

  /** A list sorted by the bytes of its identifiers gives answers sorted by their characters. */
  lemma AnswersAscending<R>(all: seq<Partition<R>>, id: Utf8Text, r: Result<seq<Partition<R>>>)
    requires Validated(Ok(all), Ok(all)) && Answers(id, Ok(all), r) && r.Ok?
    requires Ascending(ByteLess, Identifiers(all))
    ensures forall i :: 0 <= i < |r.value| ==> WellFormed(Enc8, r.value[i].identifier)
    ensures Ascending(ScalarLess, IdentifierScalars(r.value))
  {
    hide Enc8, Before, WellFormed, Validated, Select;
    var at := SelectIsSubsequence(all, Scalars(Enc8, id));
    ValidatedNames(all);
    forall i, j | 0 <= i < j < |r.value|
      ensures !Before(ScalarLess, Scalars(Enc8, r.value[j].identifier), Scalars(Enc8, r.value[i].identifier))
    {
      assert !Before(ByteLess, Identifiers(all)[at[j]], Identifiers(all)[at[i]]);
      SameOrder(r.value[j].identifier, r.value[i].identifier);
    }
  }
}
