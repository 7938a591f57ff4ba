# Verified model of the Syscape text core

Syscape reports every text of its hosted interface as UTF-8. This project models the code that
promise rests on, `include/syscape/detail/utf8.hpp`, and one client that leans on it, the disk
identifier check and the partition queries of storage, and proves what both promise.

- `Results.dfy`: value-or-error results and the portable error codes.
- `Bits.dfy`: the masks, shifts and casts on 8, 16 and 32 bit words, and their integer values.
- `Unicode.dfy`: the encoding forms as section 3 of RFC 3629 and section 2.1 of RFC 2781 define
  them, with division and remainder. `Enc8` and `Enc16` encode one scalar value. They do not
  refer to the program.
- `Coding.dfy`: strings encoded one scalar value after another. `Flat(enc, vs)` is the encoding of
  the scalar values `vs`, `WellFormed(enc, s)` says that s is such an encoding, `Scalars(enc, s)` is
  the sequence it encodes, `NoCodeAt(enc, s, i)` says that no scalar value's code starts at offset i,
  `StopsAt(enc, s, n)` that s up to n is well formed and no code starts at n, and
  `Transcode(from, to, s)` is the specification of both transcoders: the same scalar values in the
  other encoding, or `InvalidEncoding`. All of it is proved for any encoding in which no code is a
  prefix of another.
- `Decoder.dfy`: `decode_utf8_code_point`, branch by branch, and the proof that it inverts `Enc8`.
- `Surrogates.dfy`: where UTF-16 codes start.
- `Transcoder.dfy`: the three loops and `append_utf8`, as methods. `append_utf8` changes the string
  it is handed, so that string is an object of class `Text`; the other buffers are local.
- `Strings.dfy`, `Boundaries.dfy`, `Ordering.dfy`, `Lengths.dfy`: theorems about whole strings.
- `Storage.dfy`, `Queries.dfy`, `Conservation.dfy`: the disk identifier check, the validation of
  partition records and `disk_partitions`; the laws they obey over lists; and what the answers add
  up to.

The main results hold for strings of any length and content:

- the decoder succeeds at an offset exactly when a scalar value's shortest encoding starts there;
- the transcoders are inverse bijections between well-formed UTF-8 and paired UTF-16;
- in well-formed UTF-8 one byte tells whether an offset is a boundary, so that byte search, byte
  comparison and byte order are character search, comparison and order;
- a failing transcoder stops at the end of the longest well-formed prefix;
- a disk identifier is accepted exactly for its characters, and a query returns exactly the records
  whose identifier spells the same characters, in order.

Three expectations a reader might have do not hold of the code, and the model keeps the code as it
is. `AppendAccepted` and `AppendFaithful` say for which 32-bit values `append_utf8` emits
well-formed text, and for which it emits the value it was given; 0xD800 and 0x410000 are inputs that
fail (`SurrogateAppended`, `AliasAppended`). `utf16_to_utf8` only passes scalar values, as the
contract of `Utf16ToUtf8` says. `ReserveTooSmall` says that the reservation of `utf16_to_utf8` holds
the output exactly for ASCII; U+0080 is an input that overruns it (`ReserveOverrun`).
`PartitionsConserved` says that the answers for all disks make up the list exactly when every disk
identifier in it would pass the argument check. Validation does not ask for that: it accepts the
disk identifier "/", which the argument check refuses, so that a record carrying it would be in no
answer (`SlashedIsLost`). Whether a platform reports such an identifier is not modelled.

Strings are sequences of 8-bit or 16-bit words and a `char32_t` is a 32-bit word; `Bits.ByteValue`,
`Bits.UnitValue` and `Bits.WordValue` are their unsigned values. Offsets are natural numbers.
`std::string_view::find` is membership in the sequence.
The ghost results of the loops (the offsets visited, the offset after the last completed iteration,
the number of completed iterations, the values passed on) exist in the model only.

## Model

| member | source | states |
|---|---|---|
| Decoder.DecodeCodePoint | include/syscape/detail/utf8.hpp:19-90 | the decoder; a success takes one to four bytes, all inside the input, and the only error is `InvalidEncoding` |
| Decoder.DecodeInverse | include/syscape/detail/utf8.hpp:19-90 | at any offset of any input the decoder returns (x, n) if and only if x is a scalar value and the n bytes there are its shortest encoding; so no overlong form, surrogate or value above 0x10FFFF is accepted and nothing legal is refused |
| Decoder.DecodeFails | include/syscape/detail/utf8.hpp:19-90 | at any offset, past the end included, the decoder fails if and only if no scalar value's code starts there |
| Decoder.Utf8PrefixFree | include/syscape/detail/utf8.hpp:131-147 | no UTF-8 code is a prefix of another scalar value's code, nor empty |
| Surrogates.Utf16PrefixFree | include/syscape/detail/utf8.hpp:117-124 | the same of UTF-16 codes |
| Surrogates.NoCode | include/syscape/detail/utf8.hpp:158-170 | no code starts at a unit exactly when it is a low surrogate or a high one without a low one after it, the three error branches |
| Bits.Payload2 | include/syscape/detail/utf8.hpp:41-43 | the masks, shift and OR of the two-byte case compute the base-64 number of the payload |
| Bits.Payload3 | include/syscape/detail/utf8.hpp:60-63 | likewise for three bytes |
| Bits.Payload4 | include/syscape/detail/utf8.hpp:81-85 | likewise for four bytes |
| Bits.Trailing | include/syscape/detail/utf8.hpp:136-145 | for every 32-bit value the emitted continuation bytes are 0x80 plus a base-64 digit, after the cast to a byte |
| Bits.Leading | include/syscape/detail/utf8.hpp:135-142 | the emitted first byte by length class; the cast to a byte loses every bit above the twenty-second and nothing else |
| Bits.SplitPair | include/syscape/detail/utf8.hpp:121-123 | the emitted surrogates are quotient and remainder by 0x400 above 0xD800 and 0xDC00, with no lossy cast |
| Bits.JoinPair | include/syscape/detail/utf8.hpp:166-167 | the value read from a pair, with no wrap-around |
| Transcoder.IsValidUtf8 | include/syscape/detail/utf8.hpp:92-103 | true if and only if the input is the encoding of some scalar values; it then visits exactly the offsets of the bytes outside 0x80..0xBF, as many as there are scalar values |
| Transcoder.Utf8ToUtf16 | include/syscape/detail/utf8.hpp:105-129 | returns the UTF-16 encoding of the scalar values the input encodes, or `InvalidEncoding` if it encodes none; it stops after a well-formed prefix where no further code starts (`StopsAt`), one iteration a scalar value, and succeeds exactly if that is the end |
| Transcoder.AppendUtf8 | include/syscape/detail/utf8.hpp:131-147 | appends the octets of any 32-bit value to the given string, its UTF-8 encoding when it is a scalar value, and changes nothing before |
| Transcoder.Utf16ToUtf8 | include/syscape/detail/utf8.hpp:149-176 | returns the UTF-8 encoding of the scalar values the input encodes in UTF-16, or `InvalidEncoding`; it stops as the other transcoder does, and the values it passes to `append_utf8` are exactly the scalar values read up to there |
| Coding.Cancel | include/syscape/detail/utf8.hpp:105-176 | if an encoded string starts with an encoded string, the scalar values start with its scalar values and the rest encodes the rest |
| Coding.ScalarsUnique | include/syscape/detail/utf8.hpp:92-147 | the scalar values a string encodes are unique, in any prefix-free encoding |
| Coding.TranscodeInverse | include/syscape/detail/utf8.hpp:105-176 | transcoding between two prefix-free encodings undoes itself, both ways |
| Coding.FailureLocalised | include/syscape/detail/utf8.hpp:109-115 | in a prefix-free encoding decoding of any string stops at exactly one offset, the end of its longest well-formed prefix, and that is the string's end exactly for well-formed strings |
| Strings.MutualInverse | include/syscape/detail/utf8.hpp:105-176 | s is transcoded to w if and only if w is transcoded to s |
| Strings.UniqueEncodings | include/syscape/detail/utf8.hpp:105-176 | different scalar sequences have different UTF-8 and different UTF-16 strings, and each is transcoded into the other |
| Strings.Closure | include/syscape/detail/utf8.hpp:105-176 | every output is well formed, with surrogates paired, and holds the input's scalar values |
| Strings.AcceptedUtf16 | include/syscape/detail/utf8.hpp:153-170 | a string is well-formed UTF-16, which is what `utf16_to_utf8` accepts, if and only if each high surrogate is followed by a low one and each low one preceded by a high one |
| Strings.ConcatUtf8 | include/syscape/detail/utf8.hpp:105-129 | after an accepted prefix the rest is accepted if and only if the whole is, and the result is the concatenation of the results |
| Strings.ConcatUtf16 | include/syscape/detail/utf8.hpp:149-176 | the same of the other transcoder |
| Strings.AppendAccepted | include/syscape/detail/utf8.hpp:131-147 | the octets emitted for a 32-bit value are well formed if and only if it is a scalar value, or lies beyond the code space and its low 22 bits are a code point above 0xFFFF; they then encode exactly that one |
| Strings.AppendFaithful | include/syscape/detail/utf8.hpp:131-147 | they encode the value itself if and only if it is a scalar value |
| Strings.SurrogateAppended | include/syscape/detail/utf8.hpp:137-140 | the octets emitted for 0xD800 are not well formed |
| Strings.AliasAppended | include/syscape/detail/utf8.hpp:141-146 | the octets emitted for 0x410000 are well formed and encode U+10000 |
| Boundaries.SelfSynchronising | include/syscape/detail/utf8.hpp:28-30 | in a well-formed string an offset is a boundary if and only if its byte is no continuation byte, and if and only if the decoder succeeds there |
| Boundaries.Resynchronise | include/syscape/detail/utf8.hpp:28-30 | from any offset the boundary at or before it is at most three bytes back, over continuation bytes only |
| Boundaries.SubstringFaithful | include/syscape/detail/utf8.hpp:19-103 | the bytes of a well-formed non-empty string occur at an offset of a well-formed string if and only if the offset is a boundary and the scalar values occur there |
| Boundaries.ByteSearch | include/syscape/storage.hpp:535-537 | a byte below 0x80 is in a well-formed string if and only if its character is |
| Ordering.OrderPreserved | include/syscape/detail/utf8.hpp:131-147 | unsigned lexicographic byte order of encodings is lexicographic order of scalar values |
| Ordering.PrefixFirst | include/syscape/detail/storage/linux.hpp:740-744 | the order compared by is the string order: a proper prefix comes first |
| Ordering.DifferenceDecides | include/syscape/detail/storage/linux.hpp:740-744 | and after a common prefix the first difference decides |
| Ordering.FirstDifference | include/syscape/detail/utf8.hpp:131-147 | of two scalar values the smaller has the smaller byte where their codes first differ |
| Lengths.LengthAccounting | include/syscape/detail/utf8.hpp:118-145 | with a, b, c, d codes of one to four bytes there are a+2b+3c+4d bytes and a+b+c+2d units |
| Lengths.ReserveSuffices | include/syscape/detail/utf8.hpp:107 | an output of `utf8_to_utf16` has at most as many units as the input has bytes, and at least a third as many |
| Lengths.ReserveTooSmall | include/syscape/detail/utf8.hpp:151 | an output of `utf16_to_utf8` fits the reservation if and only if every input unit is at most 0x7F, and is at most three times as long |
| Lengths.ReserveOverrun | include/syscape/detail/utf8.hpp:151 | the one-unit input U+0080 has a two-byte output |
| Storage.CheckDiskIdentifier | include/syscape/storage.hpp:529-540 | `InvalidEncoding` if and only if the bytes are no UTF-8; `InvalidArgument` for the empty identifier and for every name with U+0000, U+002F or U+005C and for "." and ".."; no error for every other name |
| Storage.IsValidDiskIdentifier | include/syscape/detail/storage/common.hpp:273-283 | accepts exactly the well-formed non-empty names without U+0000, U+002F and U+005C that are neither "." nor ".." |
| Storage.ByteTestsMeanCharacters | include/syscape/storage.hpp:535-540 | for a well-formed identifier the byte searches and comparisons hold if and only if its characters are no disk name |
| Storage.CheckRecord | include/syscape/detail/storage/common.hpp:197-220 | `InvalidEncoding` for an empty or ill-formed identifier or disk identifier; with good identifiers `MalformedData` exactly if a present field is empty or mount flag and mount point disagree; else `InvalidEncoding` exactly if a present field is no UTF-8 |
| Storage.ValidatePartitionRecords | include/syscape/detail/storage/common.hpp:193-223 | passes a platform error on, returns the records unchanged if none is bad, else the error of the first bad one |
| Storage.DiskPartitions | include/syscape/storage.hpp:527-550 | a wrong argument's error for every platform result; else the platform's error, or validation's; else, and only then, success with the records whose disk identifier spells the same characters |
| Queries.ValidatedUnique | include/syscape/detail/storage/common.hpp:193-223 | a list has one validation result |
| Queries.OneRecord | include/syscape/detail/storage/common.hpp:196-221 | a list of one record is passed on or refused with that record's error |
| Queries.PrefixDecides | include/syscape/detail/storage/common.hpp:196-221 | the error of a prefix is the error of the whole list, whatever follows |
| Queries.GoodPrefixPasses | include/syscape/detail/storage/common.hpp:196-222 | good records in front do not change the outcome of the rest |
| Queries.PlatformErrorPasses | include/syscape/detail/storage/common.hpp:195 | a platform error is the result, unchanged |
| Queries.AnswersUnique | include/syscape/storage.hpp:527-550 | a query has one answer |
| Queries.AnswerAppends | include/syscape/storage.hpp:543-549 | the answer for a list in two parts is the two answers in order, and the second part's error is the whole's |
| Queries.AnswerForOne | include/syscape/storage.hpp:543-549 | the answer for one good record is that record or nothing, by equality of the identifiers, and never an error |
| Queries.NoPartitions | include/syscape/storage.hpp:526-549 | a good list without a record of the disk has an empty answer and no error |
| Conservation.SelectIsSubsequence | include/syscape/storage.hpp:543-549 | an answer is a subsequence of the list, in order, holding exactly the disk's records |
| Conservation.AnswerCount | include/syscape/storage.hpp:543-549 | a validated record is in the answer for its own disk identifier, as often as in the list, if that identifier is accepted, and in no other answer |
| Conservation.PartitionsConserved | include/syscape/storage.hpp:527-550 | the answers for all distinct disk identifiers of a validated list make up the list as a multiset if and only if each identifier passes the argument check |
| Conservation.SlashedIsLost | include/syscape/detail/storage/common.hpp:200-203 | validation passes a record whose disk identifier is "/", which is then in no answer |
| Conservation.AnswersAscending | include/syscape/storage.hpp:484-488 | if the platform's list ascends by the bytes of its identifiers, every answer ascends by their characters |

## Left out

- `health` beyond its argument check (storage.hpp:558-569 repeats storage.hpp:529-540): the rest copies fields of a backend's record.
- The types of the partition record's fields that validation and the filter do not read (numbers, offsets, sizes, scheme, read-only and bootable flags): they are one field of any type. The field copy from record to public entry in `partitions` is left out.
- The sorting in the backends: that the list is sorted is an assumption of `AnswersAscending`.
- The second caller of `append_utf8`, detail/wifi/windows_profile.hpp:71, which checks its value before the call.
- The backends' enumeration: the list, or its error, is a parameter.
- Capacity and allocation of strings beyond the bounds on their lengths, `noexcept`, and move semantics.
- `size_t` wrap-around of `offset + 3`: offsets are natural numbers.
- Error messages and categories: errors are the portable codes.
- The validators of drives and of health records: the same text test on other fields, and a range test on a floating-point temperature.
- Backend selection, capability queries and all other modules: configuration and platform calls.
