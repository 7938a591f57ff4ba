/**
 * The disk-identifier check and the partition queries of storage.hpp, a client
 * that searches and compares UTF-8 bytes and means characters.
 */
module Storage {
  import Bits
  import opened Boundaries
  import opened Coding
  import opened Decoder
  import opened Results
  import opened Transcoder
  import opened Unicode

  type Utf8Text = seq<Byte>

  /**
   * A partition record; a has-flag says whether the platform exposed the field.
   * The numbers, offsets and flags that are only handed on are its rest.
   */
  datatype Partition<R> = Partition(
    identifier: Utf8Text,
    diskIdentifier: Utf8Text,
    hasTypeIdentifier: bool, typeIdentifier: Utf8Text,
    hasName: bool, name: Utf8Text,
    hasUuid: bool, uuid: Utf8Text,
    hasFilesystemType: bool, filesystemType: Utf8Text,
    isMounted: bool, mountPoint: Utf8Text,
    rest: R)

  // ---------- disk identifiers ----------

  const NUL: Scalar := 0x00
  const DOT: Scalar := 0x2E
  const SLASH: Scalar := 0x2F
  const BACKSLASH: Scalar := 0x5C

  /** A disk name: some characters, no NUL and no path separator, and no path component that moves. */
  predicate IsDiskName(name: seq<Scalar>) {
    && name != []
    && NUL !in name && SLASH !in name && BACKSLASH !in name
    && name != [DOT] && name != [DOT, DOT]
  }

  /** What is wrong with a disk identifier, told from its characters. */
  ghost function IdentifierError(id: Utf8Text): Option<Errc> {
    if id == [] then Some(InvalidArgument)
    else if !WellFormed(Enc8, id) then Some(InvalidEncoding)
    else if !IsDiskName(Scalars(Enc8, id)) then Some(InvalidArgument)
    else None
  }

  /** The byte tests of the check, for a well-formed identifier. */
  predicate HasForbiddenBytes(id: Utf8Text) {
    0x00 in id || 0x2F in id || 0x5C in id || id == [0x2E] || id == [0x2E, 0x2E]
  }

  lemma AsciiLiterals()
    ensures Bits.ToByte(NUL) == 0x00 && Bits.ToByte(DOT) == 0x2E
    ensures Bits.ToByte(SLASH) == 0x2F && Bits.ToByte(BACKSLASH) == 0x5C
  {
    hide Bits.ToByte;
    ByteNamed(0x00, NUL);
    ByteNamed(0x2E, DOT);
    ByteNamed(0x2F, SLASH);
    ByteNamed(0x5C, BACKSLASH);
  }

  lemma SameString(a: seq<Scalar>, b: seq<Scalar>)
    ensures Flat(Enc8, a) == Flat(Enc8, b) <==> a == b
  {
    hide Enc8;
    Utf8PrefixFree();
    ScalarsUnique(Enc8, a);
    ScalarsUnique(Enc8, b);
  }

  /** The byte tests are character tests. */
  lemma ByteTestsMeanCharacters(name: seq<Scalar>)
    requires name != []
    ensures HasForbiddenBytes(Flat(Enc8, name)) <==> !IsDiskName(name)
  {
    hide Enc8, Bits.ToByte;
    AsciiLiterals();
    ByteSearch(name, NUL);
    ByteSearch(name, SLASH);
    ByteSearch(name, BACKSLASH);
    AsciiCode(DOT);
    FlatOne(Enc8, DOT);
    FlatSnoc(Enc8, [DOT], DOT);
    assert [DOT] + [DOT] == [DOT, DOT];
    assert [0x2E as Byte] + [0x2E] == [0x2E, 0x2E];
    SameString(name, [DOT]);
    SameString(name, [DOT, DOT]);
  }

  /** The argument check of `disk_partitions` and of `health`. */
  method CheckDiskIdentifier(id: Utf8Text) returns (error: Option<Errc>)
    ensures error == IdentifierError(id)
    ensures error == Some(InvalidEncoding) <==> !WellFormed(Enc8, id)
    ensures id == [] ==> error == Some(InvalidArgument)
    ensures WellFormed(Enc8, id) ==>
      var name := Scalars(Enc8, id);
      error == if name == [] || 0x00 in name || 0x2F in name || 0x5C in name || name == [0x2E] || name == [0x2E, 0x2E]
               then Some(InvalidArgument) else None
  {
    hide Enc8;
    Utf8PrefixFree();
    if id == [] {
      ScalarsUnique(Enc8, []);
      return Some(InvalidArgument);
    }
    var valid, _ := IsValidUtf8(id);
    if !valid {
      return Some(InvalidEncoding);
    }
    NonEmptyCodes(Enc8, Scalars(Enc8, id));
    ByteTestsMeanCharacters(Scalars(Enc8, id));
    if HasForbiddenBytes(id) {
      return Some(InvalidArgument);
    }
    return None;
  }

  /** The same tests once more, as a predicate for the backends. */
  method IsValidDiskIdentifier(id: Utf8Text) returns (valid: bool)
    ensures valid <==> IdentifierError(id) == None
    ensures !WellFormed(Enc8, id) ==> !valid
    ensures WellFormed(Enc8, id) ==>
      var name := Scalars(Enc8, id);
      valid <==> name != [] && 0x00 !in name && 0x2F !in name && 0x5C !in name && name != [0x2E] && name != [0x2E, 0x2E]
  {
    hide Enc8;
    Utf8PrefixFree();
    if id == [] {
      ScalarsUnique(Enc8, []);
      return false;
    }
    var wellFormed, _ := IsValidUtf8(id);
    if !wellFormed {
      return false;
    }
    NonEmptyCodes(Enc8, Scalars(Enc8, id));
    ByteTestsMeanCharacters(Scalars(Enc8, id));
    if 0x00 in id {
      return false;
    }
    if 0x2F in id || 0x5C in id {
      return false;
    }
    if id == [0x2E] || id == [0x2E, 0x2E] {
      return false;
    }
    return true;
  }

  // ---------- validation of the platform's records ----------

  datatype Field = Field(present: bool, text: Utf8Text)

  function OptionalFields<R>(p: Partition<R>): seq<Field> {
    [Field(p.hasTypeIdentifier, p.typeIdentifier), Field(p.hasName, p.name),
     Field(p.hasUuid, p.uuid), Field(p.hasFilesystemType, p.filesystemType)]
  }

  function MountField<R>(p: Partition<R>): Field {
    Field(p.isMounted, p.mountPoint)
  }

  /** The record and its disk are named. */
  ghost predicate IsNamed<R>(p: Partition<R>) {
    && p.identifier != [] && WellFormed(Enc8, p.identifier)
    && p.diskIdentifier != [] && WellFormed(Enc8, p.diskIdentifier)
  }

  /** No field is present and empty, and there is a mount point exactly for a mounted partition. */
  predicate FlagsAgree<R>(p: Partition<R>) {
    && (forall f | f in OptionalFields(p) :: f.present ==> f.text != [])
    && (MountField(p).present <==> MountField(p).text != [])
  }

  ghost predicate IsText(f: Field) {
    f.present ==> WellFormed(Enc8, f.text)
  }

  /** Every field present is text. */
  ghost predicate HoldsText<R>(p: Partition<R>) {
    forall f | f in OptionalFields(p) + [MountField(p)] :: IsText(f)
  }

  /** A good record has no error, and only a named one can be malformed. */
  ghost function RecordError<R>(p: Partition<R>): Option<Errc> {
    if IsNamed(p) && FlagsAgree(p) && HoldsText(p) then None
    else if IsNamed(p) && !FlagsAgree(p) then Some(MalformedData)
    else Some(InvalidEncoding)
  }

  /** The platform's error, or that of the first bad record, or the records. */
  ghost predicate Validated<R>(records: Result<seq<Partition<R>>>, r: Result<seq<Partition<R>>>) {
    match records
    case Err(_) => r == records
    case Ok(all) =>
      match r
      case Ok(valid) => valid == all && forall i :: 0 <= i < |all| ==> RecordError(all[i]) == None
      case Err(e) => exists i :: 0 <= i < |all| && RecordError(all[i]) == Some(e)
                                 && forall j :: 0 <= j < i ==> RecordError(all[j]) == None
  }

  method CheckText(f: Field) returns (good: bool)
    ensures good <==> IsText(f)
  {
    good := true;
    if f.present {
      var valid, _ := IsValidUtf8(f.text);
      good := valid;
    }
  }

  /** The tests of the check, field by field. */
  lemma FieldTests<R>(p: Partition<R>)
    ensures FlagsAgree(p) <==>
      && !(p.hasTypeIdentifier && p.typeIdentifier == []) && !(p.hasName && p.name == [])
      && !(p.hasUuid && p.uuid == []) && !(p.hasFilesystemType && p.filesystemType == [])
      && !(p.isMounted && p.mountPoint == []) && !(!p.isMounted && p.mountPoint != [])
    ensures HoldsText(p) <==>
      && IsText(Field(p.hasTypeIdentifier, p.typeIdentifier)) && IsText(Field(p.hasName, p.name))
      && IsText(Field(p.hasUuid, p.uuid)) && IsText(Field(p.hasFilesystemType, p.filesystemType))
      && IsText(Field(p.isMounted, p.mountPoint))
  {
    hide IsText;
    var fs := OptionalFields(p);
    assert fs[0] in fs && fs[1] in fs && fs[2] in fs && fs[3] in fs;
    var all := fs + [MountField(p)];
    assert all[0] in all && all[1] in all && all[2] in all && all[3] in all && all[4] in all;
  }

  method CheckRecord<R>(p: Partition<R>) returns (error: Option<Errc>)
    ensures error == RecordError(p)
    ensures p.identifier == [] || p.diskIdentifier == []
            || !WellFormed(Enc8, p.identifier) || !WellFormed(Enc8, p.diskIdentifier)
            ==> error == Some(InvalidEncoding)
    ensures error == Some(MalformedData) <==>
      && p.identifier != [] && p.diskIdentifier != []
      && WellFormed(Enc8, p.identifier) && WellFormed(Enc8, p.diskIdentifier)
      && ((p.hasTypeIdentifier && p.typeIdentifier == []) || (p.hasName && p.name == [])
          || (p.hasUuid && p.uuid == []) || (p.hasFilesystemType && p.filesystemType == [])
          || (p.isMounted && p.mountPoint == []) || (!p.isMounted && p.mountPoint != []))
    ensures error == None ==>
      && (p.hasTypeIdentifier ==> WellFormed(Enc8, p.typeIdentifier)) && (p.hasName ==> WellFormed(Enc8, p.name))
      && (p.hasUuid ==> WellFormed(Enc8, p.uuid)) && (p.hasFilesystemType ==> WellFormed(Enc8, p.filesystemType))
      && (p.isMounted ==> WellFormed(Enc8, p.mountPoint))
    ensures error == Some(InvalidEncoding) ==>
      || p.identifier == [] || p.diskIdentifier == []
      || !WellFormed(Enc8, p.identifier) || !WellFormed(Enc8, p.diskIdentifier)
      || (p.hasTypeIdentifier && !WellFormed(Enc8, p.typeIdentifier)) || (p.hasName && !WellFormed(Enc8, p.name))
      || (p.hasUuid && !WellFormed(Enc8, p.uuid)) || (p.hasFilesystemType && !WellFormed(Enc8, p.filesystemType))
      || (p.isMounted && !WellFormed(Enc8, p.mountPoint))
    ensures error in {None, Some(MalformedData), Some(InvalidEncoding)}
  {
    hide Enc8, WellFormed, FlagsAgree, HoldsText;
    FieldTests(p);
    var good := false;
    if p.identifier != [] {
      var valid, _ := IsValidUtf8(p.identifier);
      good := valid;
    }
    if !good {
      return Some(InvalidEncoding);
    }
    good := false;
    if p.diskIdentifier != [] {
      var valid, _ := IsValidUtf8(p.diskIdentifier);
      good := valid;
    }
    if !good {
      return Some(InvalidEncoding);
    }
    if (p.hasTypeIdentifier && p.typeIdentifier == []) || (p.hasName && p.name == [])
       || (p.hasUuid && p.uuid == []) || (p.hasFilesystemType && p.filesystemType == [])
       || (p.isMounted && p.mountPoint == []) || (!p.isMounted && p.mountPoint != []) {
      return Some(MalformedData);
    }
    var typeGood := CheckText(Field(p.hasTypeIdentifier, p.typeIdentifier));
    var nameGood := CheckText(Field(p.hasName, p.name));
    var uuidGood := CheckText(Field(p.hasUuid, p.uuid));
    var filesystemGood := CheckText(Field(p.hasFilesystemType, p.filesystemType));
    var mountGood := CheckText(Field(p.isMounted, p.mountPoint));
    if !typeGood || !nameGood || !uuidGood || !filesystemGood || !mountGood {
      return Some(InvalidEncoding);
    }
    return None;
  }

  method ValidatePartitionRecords<R>(records: Result<seq<Partition<R>>>) returns (r: Result<seq<Partition<R>>>)
    ensures Validated(records, r)
    ensures records.Err? || r.Ok? ==> r == records
  {
    hide RecordError;
    if records.Err? {
      return Err(records.error);
    }
    for i := 0 to |records.value|
      invariant forall j :: 0 <= j < i ==> RecordError(records.value[j]) == None
    {
      var error := CheckRecord(records.value[i]);
      if error.Some? {
        return Err(error.value);
      }
    }
    return records;
  }

  // ---------- the partitions of one disk ----------

  /** The record's disk identifier spells the given characters. */
  ghost predicate OnDisk<R>(p: Partition<R>, name: seq<Scalar>) {
    WellFormed(Enc8, p.diskIdentifier) && Scalars(Enc8, p.diskIdentifier) == name
  }

  /** The records on a disk, in the order of the list. */
  ghost function Select<R>(all: seq<Partition<R>>, name: seq<Scalar>): seq<Partition<R>> {
    if all == [] then []
    else
      var rest := Select(all[..|all| - 1], name);
      if OnDisk(all[|all| - 1], name) then rest + [all[|all| - 1]] else rest
  }

  /** The answer to a query: a wrong argument first, then the platform's error, then the records. */
  ghost predicate Answers<R>(id: Utf8Text, backend: Result<seq<Partition<R>>>, r: Result<seq<Partition<R>>>) {
    if IdentifierError(id).Some? then r == Err(IdentifierError(id).value)
    else if r.Err? then Validated(backend, r)
    else backend.Ok? && Validated(backend, backend) && r.value == Select(backend.value, Scalars(Enc8, id))
  }

  method DiskPartitions<R>(id: Utf8Text, backend: Result<seq<Partition<R>>>) returns (r: Result<seq<Partition<R>>>)
    ensures Answers(id, backend, r)
    ensures id == [] ==> r == Err(InvalidArgument)
    ensures !WellFormed(Enc8, id) ==> r == Err(InvalidEncoding)
    ensures IdentifierError(id).Some? ==> r == Err(IdentifierError(id).value)
    ensures IdentifierError(id) == None && backend.Err? ==> r == backend
    ensures IdentifierError(id) == None && backend.Ok? ==> (r.Ok? <==> Validated(backend, backend))
    ensures IdentifierError(id) == None && r.Err? ==> Validated(backend, r)
  {
    hide Enc8, RecordError;
    var error := CheckDiskIdentifier(id);
    if error.Some? {
      return Err(error.value);
    }
    var all := ValidatePartitionRecords(backend);
    if all.Err? {
      return Err(all.error);
    }
    var matching := [];
    for i := 0 to |all.value|
      invariant matching == Select(all.value[..i], Scalars(Enc8, id))
    {
      var entry := all.value[i];
      assert all.value[..i + 1][..i] == all.value[..i];
      if entry.diskIdentifier == id {
        matching := matching + [entry];
      }
    }
    assert all.value[..|all.value|] == all.value;
    return Ok(matching);
  }
}
