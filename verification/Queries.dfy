/**
 * The laws that validation and the answers of `disk_partitions` obey over lists
 * of records.
 */
module Queries {
  import opened Coding
  import opened Results
  import opened Storage
  import opened Unicode

  // ---------- validation ----------

  /** Validation has one result. */
  lemma ValidatedUnique<R>(
    records: Result<seq<Partition<R>>>, r: Result<seq<Partition<R>>>, s: Result<seq<Partition<R>>>)
    requires Validated(records, r) && Validated(records, s)
    ensures r == s
  {}

  /** One record is passed on, or refused with its own error. */
  lemma OneRecord<R>(p: Partition<R>, r: Result<seq<Partition<R>>>)
    requires Validated(Ok([p]), r)
    ensures r == if RecordError(p).Some? then Err(RecordError(p).value) else Ok([p])
  {
    hide RecordError;
    assert [p][0] == p;
  }

  /** The error of a prefix decides; what follows a bad record does not matter. */
  lemma PrefixDecides<R>(a: seq<Partition<R>>, b: seq<Partition<R>>, e: Errc, r: Result<seq<Partition<R>>>)
    requires Validated(Ok(a), Err(e)) && Validated(Ok(a + b), r)
    ensures r == Err(e)
  {
    hide RecordError;
    var i :| 0 <= i < |a| && RecordError(a[i]) == Some(e) && forall j :: 0 <= j < i ==> RecordError(a[j]) == None;
    assert forall j :: 0 <= j <= i ==> (a + b)[j] == a[j];
  }

  /** Good records in front do not matter. */
  lemma GoodPrefixPasses<R>(
    a: seq<Partition<R>>, b: seq<Partition<R>>, r: Result<seq<Partition<R>>>, s: Result<seq<Partition<R>>>)
    requires Validated(Ok(a), Ok(a)) && Validated(Ok(b), s) && Validated(Ok(a + b), r)
    ensures r == if s.Ok? then Ok(a + b) else s
  {
    hide RecordError;
    assert forall j :: 0 <= j < |b| ==> (a + b)[|a| + j] == b[j];
    assert forall j :: 0 <= j < |a| ==> (a + b)[j] == a[j];
  }

  /** The platform's error is passed on. */
  lemma PlatformErrorPasses<R>(e: Errc, r: Result<seq<Partition<R>>>)
    requires Validated(Err(e), r)
    ensures r == Err(e)
  {}

  // ---------- answers ----------

  /** A query has one answer. */
  lemma AnswersUnique<R>(
    id: Utf8Text, backend: Result<seq<Partition<R>>>, r: Result<seq<Partition<R>>>, s: Result<seq<Partition<R>>>)
    requires Answers(id, backend, r) && Answers(id, backend, s)
    ensures r == s
  {}

  lemma {:induction false} SelectAppends<R>(a: seq<Partition<R>>, b: seq<Partition<R>>, name: seq<Scalar>)
    ensures Select(a + b, name) == Select(a, name) + Select(b, name)
  {
    hide OnDisk;
    if b == [] {
      assert a + b == a;
    } else {
      var n := |b| - 1;
      assert (a + b)[..|a + b| - 1] == a + b[..n];
      SelectAppends(a, b[..n], name);
    }
  }

  /** The answer for a list in two parts is the two answers one after the other. */
  lemma AnswerAppends<R>(id: Utf8Text, a: seq<Partition<R>>, b: seq<Partition<R>>,
                         r: Result<seq<Partition<R>>>, s: Result<seq<Partition<R>>>, u: Result<seq<Partition<R>>>)
    requires Answers(id, Ok(a), r) && Answers(id, Ok(b), s) && Answers(id, Ok(a + b), u)
    requires Validated(Ok(a), Ok(a))
    ensures r.Ok? && s.Ok? ==> u == Ok(r.value + s.value)
    ensures s.Err? ==> u == s
  {
    hide Enc8, Validated, IsDiskName, Select;
    if IdentifierError(id) == None {
      SelectAppends(a, b, Scalars(Enc8, id));
      GoodPrefixPasses(a, b, if u.Ok? then Ok(a + b) else u, if s.Ok? then Ok(b) else s);
    }
  }

  /** The answer for one validated record holds it exactly if it is on the disk; it is never an error. */
  lemma AnswerForOne<R>(id: Utf8Text, p: Partition<R>, r: Result<seq<Partition<R>>>)
    requires IdentifierError(id) == None && Validated(Ok([p]), Ok([p]))
    requires Answers(id, Ok([p]), r)
    ensures r == Ok(if p.diskIdentifier == id then [p] else [])
  {
    hide Enc8, Validated, IsDiskName;
    ValidatedUnique(Ok([p]), if r.Err? then r else Ok([p]), Ok([p]));
    var list, name := [p], Scalars(Enc8, id);
    assert list[..|list| - 1] == [];
    assert OnDisk(p, name) <==> p.diskIdentifier == id;
    assert Select(list, name) == if OnDisk(p, name) then [p] else [];
  }

  lemma {:induction false} NoneSelected<R>(all: seq<Partition<R>>, id: Utf8Text)
    requires WellFormed(Enc8, id)
    requires forall i :: 0 <= i < |all| ==> all[i].diskIdentifier != id
    ensures Select(all, Scalars(Enc8, id)) == []
  {
    hide Enc8;
    if all == [] {
    } else {
      NoneSelected(all[..|all| - 1], id);
    }
  }

  /** A disk without partitions has an empty answer, and no error. */
  lemma NoPartitions<R>(id: Utf8Text, all: seq<Partition<R>>, r: Result<seq<Partition<R>>>)
    requires IdentifierError(id) == None && Validated(Ok(all), Ok(all))
    requires Answers(id, Ok(all), r)
    requires forall i :: 0 <= i < |all| ==> all[i].diskIdentifier != id
    ensures r == Ok([])
  {
    hide Enc8, Validated, Select;
    ValidatedUnique(Ok(all), if r.Err? then r else Ok(all), Ok(all));
    NoneSelected(all, id);
  }
}
