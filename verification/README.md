# Verification of the JSON engine, base64 and query parsing

This project models the logic that the service relies on when it reads and writes data, in Dafny, and proves what
that logic promises:

- `include/json.h`, the copy of JSON for Modern C++ 2.1.0 with this repository's own change to the conversion of
  values to strings (lines 650-672): JSON Pointer, `patch` and `diff`, `flatten` and `unflatten`, the CBOR and
  MessagePack codecs, the printer, the scanner and the parser, and the comparison operators;
- `src/base64.cpp`: base64 with the URL-safe alphabet;
- `src/UrlParser.cpp`: splitting and decoding of query strings.

A JSON value is the datatype `JsonValues.Json`: null, boolean, signed and unsigned 64-bit integer, finite double (its
eight bytes), byte string, array, and object as the key-ordered sequence of members that iterating a `std::map` visits.
Exceptions are the errors of `Wrappers.Result`, one per exception class; a failed `assert` is an error of its own.

Every algorithm that changes something step by step is a method or a class with the same loops, proved against a
function, and the laws are proved about that function. What the functions compute is stated without them as well: texts
and bytes by the literal characters and numbers of their specifications, documents by looking pointers up before and after. Pure
code is functions. Machine arithmetic is written out where it matters: `stoi` and `int`, `size_t` that wraps,
`unsigned int` indentation, two's complement reads, the casts between signed, unsigned and double.

| file | content |
|---|---|
| `ByteStrings`, `Sequences`, `Wrappers`, `Literals`, `Decimals`, `Numerals`, `Floats`, `Rounding` | bytes and their order, big-endian numbers, characters as literals, `to_string` and `stoi`, doubles and the conversion to them |
| `JsonValues`, `Compare`, `Ordering`, `OrderLaws` | values, `operator==` and `operator<`, when they form an order, and which |
| `JsonPointer`, `Access`, `AccessEffects` | pointers, access through them, and what it changes |
| `Patch`, `PatchLaws`, `PatchEffects`, `CopyLaws`, `PatchErrors`, `PatchTargets`, `Diff` | patches, what each operation puts where and when it fails, edit scripts |
| `Flatten`, `FlattenOrder` | flattening, and rebuilding in byte order |
| `Binary`, `Cbor`, `CborLaws`, `CborFormat`, `CborLoops`, `MsgPack`, `MsgPackLaws`, `MsgPackFormat`, `MsgPackLoops` | the binary codecs, against the formats of their specifications |
| `Utf8`, `Escaping`, `StringTokens`, `StringValues` | `to_unicode`, `escape_string`, `get_string`, and string tokens by the letters of RFC 7159 |
| `Scanner`, `StringScan`, `NumberScan`, `Lexer` | the scanner label by label, its strings and numbers, `get_number` |
| `Grammar`, `Parser`, `ParseErrors`, `JsonText` | the grammar, the parser, and the texts it accepts |
| `Printer`, `Layout`, `TextRoundTrip` | the printer, its layout, and printing and parsing together |
| `Base64`, `UrlParser`, `PercentCodes` | the two components outside json.h |

`dafny verify dfyconfig.toml` checks everything.

## Where the code and its documentation differ

The model follows the code. Each difference is stated with the exact condition under which the documented claim holds.

- `source.patch(diff(source, target)) == target` is documented as always true. Indices are read with `std::stoi`, so
  it holds exactly when every index that the edit script has to name is at most INT_MAX (`Diff.PatchOfDiff`, `Diff.LongArrayThrows`).
- `unflatten` is documented to restore a flattened value up to empty containers. A null whose first visited name
  is "0" becomes an array, so it holds exactly when no object visits its key "0" first and no array is longer than
  2^31 (`FlattenOrder.UnflattenOfFlatten`, `FlattenOrder.ZeroKeyBecomesArray`).
- CBOR negative numbers are -1 - n for any n below 2^64 (RFC 7049, section 2.1). The decoder casts n to a signed number, so
  they are read right exactly down to -2^63 (`CborFormat.NegativeIsExact`).
- MessagePack writes no head for lengths above 2^32 - 1 (`MsgPackLaws.RoundTripExactly`, `MsgPackLaws.LongStringIsLost`).
- Equality and order between signed and unsigned numbers cast to signed, so they are wrong for every unsigned number above
  INT64_MAX (`Ordering.UnsignedIsExact`, `Ordering.LargeUnsignedCycles`). The integers of a value that passes
  through CBOR, MessagePack or text come back as unsigned when they are not negative; results are stated up to `operator==`,
  and the function `Compare.Normal` says exactly which value comes back.
- Equality and order between integers and doubles cast the integer to double, so they are right for an integer and all doubles
  exactly when a double holds the integer (`Ordering.IntegerIsExact`, `Ordering.ExactIsADouble`,
  `Ordering.InexactEqualsAnother`).
- A zero byte ends the input for the scanner, so `parse` accepts exactly the texts that are a JSON text of RFC 7159 up to
  their first zero byte (`JsonText.ParseIsJsonTextBeforeZero`). Among the accepted texts, the JSON texts are exactly those
  without a zero byte (`JsonText.JsonTextsAreAccepted`, `JsonText.ZeroByteAccepted`).
- The printer escapes strings that are not UTF-8 without complaint, and the parser rejects what it printed
  (`TextRoundTrip.ParseOfDump`, `TextRoundTrip.IllFormedTextThrows`).
- RFC 6902, section 4.5, defines "copy" as an "add" of the copied value. The code assigns with unchecked access instead,
  which overwrites or fills up arrays, creates missing parents and rejects leading zeros. The two agree exactly under
  `CopyLaws.CopyIsAdd`: when the first of several tokens leads nowhere, both must throw the same (`SameFailure`);
  otherwise the parent cannot be reached at all, or it is an object, or null and the token no index and not "-", or an array
  and the token is "-", or has no leading zero and is either not read by `stoi` or equal to the length
  (`CopyLaws.AssignIsAddExactly`, `CopyLaws.CopyOperationIsAddExactly`).
- `patch` is documented as atomic: it returns the patched document or throws. Two things break this, and nothing else does
  (`PatchErrors.OperationFailsExactly`, `PatchErrors.PatchIsAtomicExactly`):
  - "add", and "move" through it, fails `assert(false)` exactly when the parent of the target exists and is a boolean, a number
    or a string (`PatchErrors.AddAssertsExactly`, `PatchErrors.AddBelowNumberAsserts`); built with NDEBUG, it would do nothing
    instead. The model has the error `AssertionFailed` for it.
  - `operator[]` with index -1 on an empty array wraps to size 0, inserts nothing and accesses the array out of bounds. "copy"
    does this exactly when its pointer leads to an empty array and goes on with a token that `stoi` reads as -1, "add" and
    "move" exactly when this token is neither the first nor the last (`PatchErrors.AssignOutsideExactly`,
    `PatchErrors.AddOutsideExactly`, `PatchErrors.AddThroughEmptyArray`, `CopyLaws.CopyBeforeTheFirst`). The model has the error
    `UndefinedBehaviour` for it.
- RFC 6902, sections 4.1 and 4.2, wants the parent of an "add" and the target of a "remove" to exist, and `patch` is documented
  to throw where a pointer cannot be resolved. "add" checks its first token only, and "remove" leaves a parent alone that is no
  container. The exact conditions for success, and for throwing what `at` throws, are `PatchTargets.AddSucceedsExactly`,
  `PatchTargets.AddWithoutParent` and `PatchTargets.RemoveAgainstAt`, with `PatchTargets.AddCreatesParent` and
  `PatchTargets.RemoveBelowNumber` as inputs.

## Model

| member | source | states |
|---|---|---|
| JsonPointer.SplitOfToString | include/json.h:11396-11416 | the documented invariant: parsing the text of any list of reference tokens gives that list back |
| JsonPointer.ToStringOfSplit | include/json.h:11744-11801 | for every text that is accepted, printing what it was split into gives the same text |
| JsonPointer.SplitAccepts | include/json.h:11744-11801 | accepted are exactly the empty text and texts led by a slash in which every `~` starts `~0` or `~1` |
| JsonPointer.EscapeIsReplacing | include/json.h:11832-11838 | the two global replacements of `escape` equal escaping character by character |
| JsonPointer.UnescapeIsReplacing | include/json.h:11840-11847 | on validly escaped text, replacing `~1` and then `~0` everywhere equals one decode from left to right |
| JsonPointer.UnescapeOfEscape | include/json.h:11832-11847 | `unescape` undoes `escape` on every byte string, and escaped text is valid and holds no slash |
| JsonPointer.EscapeOfUnescape | include/json.h:11832-11847 | `escape` undoes `unescape` on validly escaped text without a slash |
| JsonPointer.ReplaceSubstring | include/json.h:11817-11829 | the find-and-replace loop in place replaces all occurrences from left to right |
| JsonPointer.FindFirstIsFirst | include/json.h:11821-11829 | the search gives the first occurrence, and npos only when there is none |
| JsonPointer.EscapeInPlace | include/json.h:11832-11838 | both replacements in turn give the escaped token |
| JsonPointer.UnescapeInPlace | include/json.h:11841-11847 | both replacements in turn give the decoded token |
| JsonPointer.CheckEscapes | include/json.h:11780-11794 | the search loop accepts a token exactly when each of its tildes is followed by 0 or 1 |
| JsonPointer.SplitLoop | include/json.h:11744-11801 | the loop over slashes, which ends when npos + 1 wraps to 0, splits as the recursive definition does |
| Decimals.StoiOfDecimal | include/json.h:11632-11633 | `stoi` of a printed index is the index up to INT_MAX and throws above |
| Numerals.StoiIs | include/json.h:11632-11633 | for every text: `stoi` returns the number of its numeral (white space, a sign, decimal digits by their places), throws out_of_range when it does not fit, and invalid_argument when there is none |
| Numerals.DecimalIsPlain | include/json.h:8407-8417 | the decimal text of a number is the only one without leading zeros that denotes it |
| Access.UncheckedFollowsChecked | include/json.h:11536-11645 | where checked access finds a child, unchecked access finds the same one and creates nothing |
| Access.ReplaceThenAt | include/json.h:11603-11645 | what is assigned through a pointer is found there, and a second assignment replaces the first |
| Access.ReplaceBySame | include/json.h:11603-11645 | assigning what is already there leaves the whole document as it is |
| Access.ReplaceBelow | include/json.h:11603-11645 | assigning at a longer pointer changes exactly one child of the value at the shorter one |
| Access.LocateIndex | include/json.h:11603-11645 | the decimal text of an index finds that element exactly when it is in range and fits into an int |
| AccessEffects.AtFindsMember | include/json.h:11603-11645 | in an object, a token finds the member of that name and nothing else |
| AccessEffects.ReplaceEffect | include/json.h:11603-11645 | after an assignment the value is at the pointer, and every pointer that parts ways with it finds what it found before |
| AccessEffects.StepGrows | include/json.h:11536-11595 | one unchecked step keeps all children, fills an array up with nulls to the index, or gives an object a new null, and turns null into an array exactly for a number or "-" |
| AccessEffects.AssignThenAt | include/json.h:11536-11645 | what unchecked access assigns is found at the same pointer, exactly when no token appends with "-" |
| AccessEffects.AssignElsewhere | include/json.h:11536-11645 | every pointer that found something and parts ways with it finds the same after an unchecked assignment |
| JsonValues.FindAfterInsert | include/json.h:3828-3850 | an object after `operator[]` assignment answers every lookup as before, except for the new key |
| JsonValues.FindAfterErase | include/json.h:12296-12309 | an object after `erase` answers every lookup as before, except for the erased key |
| JsonValues.SameLookups | include/json.h:3828-3850 | two key-ordered objects with the same lookups are the same |
| Patch.PatchLoop | include/json.h:12187-12445 | the loop over the operations applies them one after the other, up to the first error; what each of them puts where is stated by the rows of `PatchEffects` |
| Patch.AddIsLocal | include/json.h:12226-12287 | "add" below an existing parent changes that parent only |
| Patch.RemoveIsLocal | include/json.h:12290-12315 | "remove" changes the parent of its target only |
| Patch.ApplyConcat | include/json.h:12325-12445 | a concatenation of patches applies the second to the result of the first |
| PatchLaws.RemoveUndoesAdd | include/json.h:12226-12315 | "remove" after "add" of a new member or an inserted element gives back exactly the original document |
| PatchLaws.TestIsEquality | include/json.h:12413-12434 | "test" succeeds exactly when the pointer leads to an equal value, and never changes the document |
| PatchLaws.ReplaceThenTest | include/json.h:12379-12434 | after "replace", a "test" for the same value at the same pointer succeeds |
| PatchEffects.AddInsertsAt | include/json.h:12226-12287 | "add" to any array in any document, at an index up to its length: the value is there, elements in front keep their index, those behind move up by one, and everything else is as before |
| PatchEffects.AddInserts | include/json.h:12226-12287 | the same for every token that `stoi` reads as that index, and for "-" |
| PatchEffects.AddPutsMember | include/json.h:12226-12287 | "add" to an object or to null: the name has the value, all other names and everything else are as before |
| PatchEffects.ReplacePuts | include/json.h:12379-12385 | "replace" puts the value at a pointer that exists and throws what `at` throws otherwise; at the root, "add" and "replace" give the value |
| PatchEffects.RemoveErases | include/json.h:12290-12315 | "remove" from an array: the elements behind the index move down by one, and everything else is as before |
| PatchEffects.RemoveDropsMember | include/json.h:12290-12315 | "remove" from an object: the name is gone, and everything else is as before |
| PatchEffects.CopyAssigns | include/json.h:12403-12411 | "copy" into an array: the element at the index is the value, an array that is too short grows with nulls, and everything else is as before |
| PatchEffects.CopyPutsMember | include/json.h:12403-12411 | "copy" into an object: the name has the value, and everything else is as before |
| PatchEffects.MoveIsRemoveThenAdd | include/json.h:12386-12401 | "move" is "remove" at "from" and then "add" of the value that was there |
| PatchErrors.MalformedThrows | include/json.h:12318-12377 | a patch that is no array, a missing or ill-typed mandatory member, and an unknown operation throw invalid_argument |
| PatchErrors.NamesAre | include/json.h:12195-12222 | the names of the operations and their members, letter by letter |
| PatchErrors.BadPointerThrows | include/json.h:12375-12376 | an operation whose "path" is no pointer throws domain_error |
| PatchErrors.FailedTestThrows | include/json.h:12413-12434 | an unsuccessful "test" throws domain_error, also when the target does not exist |
| CopyLaws.AssignIsLocal | include/json.h:11536-11595 | assigning through a pointer with unchecked access changes the parent of its target only, which it creates when it is missing |
| CopyLaws.MissingParentIsNull | include/json.h:11536-11595 | the parent that unchecked access reaches is the one checked access finds, or null |
| CopyLaws.LastAgreesExactly | include/json.h:12226-12287 | for every parent and last token: assigning the child is adding it exactly on objects, on null made an object, on arrays when both append or `stoi` throws in both |
| CopyLaws.SameFailureExactly | include/json.h:11603-11645 | when the first of several tokens leads nowhere, assigning throws what "add" throws exactly when the rest cannot be created for the same reason |
| CopyLaws.AssignIsAddExactly | include/json.h:12403-12411 | for every document, pointer and value: assigning is adding, errors included, exactly under the condition `CopyIsAdd` on the parent and the last token |
| CopyLaws.AssignIsAddBelow | include/json.h:12403-12411 | with a parent that exists, only that parent and the last token matter |
| CopyLaws.CopyOperationIsAddExactly | include/json.h:12403-12411 | a "copy" operation does what an "add" of the value at "from" does exactly under that condition, and throws what `at` throws when "from" leads nowhere |
| CopyLaws.CopyCreatesParents | include/json.h:12403-12411 | on {} a "copy" to /x/y creates both members where "add" throws |
| CopyLaws.CopyChecksLeadingZero | include/json.h:11558-11567 | on an array of one, a "copy" to /01 throws where "add" appends |
| CopyLaws.CopyOverwrites | include/json.h:12403-12411 | on an array, a "copy" to /0 overwrites where "add" inserts |
| CopyLaws.CopyBeforeTheFirst | include/json.h:3744-3769 | on [] a "copy" to /-1 leaves the array, and "add" throws |
| PatchErrors.AddAssertsExactly | include/json.h:12226-12287 | for every document, pointer and value: "add" fails its assertion exactly when the parent of the target exists and is a boolean, a number or a string |
| PatchErrors.AssignOutsideExactly | include/json.h:11536-11595 | for every document, pointer and value: an assignment with unchecked access leaves an array exactly when the pointer leads to an empty array and its next token is read as -1 |
| PatchErrors.AddOutsideExactly | include/json.h:12226-12287 | for "add" the same, with that token strictly between the first and the last one |
| PatchErrors.OperationFailsExactly | include/json.h:12325-12445 | for every document and operation object: it neither succeeds nor throws exactly when "add" or "move" adds below a primitive value, or "add", "move" or "copy" goes through index -1 of an empty array |
| PatchErrors.PatchIsAtomicExactly | include/json.h:12162-12165 | `patch` returns the patched document or throws an exception exactly when no operation, applied to the result of those before it, does so |
| PatchErrors.AddBelowNumberAsserts | include/json.h:12226-12287 | on {"a": 5} an "add" to /a/b fails the assertion |
| PatchErrors.AddThroughEmptyArray | include/json.h:3744-3769 | on {"a": []} an "add" to /a/-1/b leaves the array, and one to /a/-1 throws |
| PatchTargets.AddSucceedsExactly | include/json.h:12226-12287 | "add" succeeds exactly for the whole document, for a parent that exists and takes the value, and for a parent that it can create below the first token |
| PatchTargets.AddToParent | include/json.h:12226-12287 | with a parent that exists, "add" succeeds exactly when it is null, an object, or an array with that index or the index behind its end; otherwise it fails as the parent does |
| PatchTargets.AddWithoutParent | include/json.h:12168-12287 | with a parent that `at` does not find, "add" succeeds exactly when the first token resolves and the rest can be created, and throws what `at` throws exactly when the first token fails or creating fails in the same way |
| PatchTargets.RemoveSucceedsExactly | include/json.h:12290-12315 | "remove" succeeds exactly when the parent of its target exists and is an object with the key, an array with the index, or no container at all |
| PatchTargets.RemoveAgainstAt | include/json.h:12168-12315 | "remove" compared with `at` of its target: success exactly for a target other than the whole document; without a target, the exact conditions for throwing what `at` throws and for succeeding all the same |
| PatchTargets.RemoveBelowLeaf | include/json.h:12290-12315 | below null or a primitive value, "remove" succeeds and changes nothing |
| PatchTargets.AddCreatesParent | include/json.h:12226-12287 | on {"a": {}} an "add" to /a/b/c creates /a/b |
| PatchTargets.RemoveBelowNumber | include/json.h:12290-12315 | on {"a": 5} a "remove" of /a/b succeeds and changes nothing |
| Diff.DiffWorks | include/json.h:12480-12610 | in any document that holds the source at a pointer, the edit script puts a value equal to the target there and leaves everything else alone, exactly when its indices fit into an int; otherwise it throws |
| Diff.PatchOfDiff | include/json.h:12454-12458 | `source.patch(diff(source, target)) == target`, exactly when every index the script has to name fits into an int; otherwise `patch` throws |
| Diff.ShortArraysFit | include/json.h:12480-12610 | the condition holds for all values whose arrays have at most 2^31 elements |
| Diff.LongArrayThrows | include/json.h:12536-12546 | from [] to an array of 2^31 + 1 elements, applying the edit script throws |
| Diff.ReachedIsEqual | include/json.h:12487-12492 | what the script reaches is equal to the target under `operator==`, although equal parts are kept |
| Diff.DiffLoop | include/json.h:12480-12610 | the recursive procedure with its result array builds the edit script |
| Diff.DiffArrays | include/json.h:12507-12549 | the first pass, the removals inserted in reverse order, and the additions, in this order |
| Diff.DiffObjects | include/json.h:12551-12593 | changes and removals in key order, then additions in key order |
| Diff.RemovesWork | include/json.h:12520-12534 | removing from the highest index down cuts an array to its common length |
| Diff.AddsWork | include/json.h:12536-12546 | adding at each next index appends the remaining elements |
| Flatten.FlattenFind | include/json.h:11856-11907 | looking a pointer up in the flattened object gives the primitive at that path, null for an empty container, and nothing elsewhere |
| Flatten.FlattenWritesPointers | include/json.h:11856-11907 | every name in a flattened object is the text of a pointer |
| Flatten.UnflattenLoop | include/json.h:11914-11940 | the loop over the entries equals creating them one after the other, with the first error |
| Flatten.CreateKeepsMatch | include/json.h:11461-11515 | `get_and_create` of one more entry keeps the partial document matching the original on everything visited |
| FlattenOrder.OrderIsAdmissible | include/json.h:11461-11483 | in byte order, every entry arrives when the containers above it have become the right type |
| FlattenOrder.ZeroIndexFirst | include/json.h:11923-11937 | under each array path, index "0" comes before all other indices in byte order, 10 before 2 included |
| FlattenOrder.UnflattenOfFlatten | include/json.h:11856-11940 | `unflatten(flatten(j))` is `j` with empty containers replaced by null, exactly when no object visits its key "0" first and no array has more than 2^31 elements; otherwise it throws or gives a value that differs under `operator==` |
| FlattenOrder.NoZeroKeyIsRestorable | include/json.h:11471-11483 | values without the key "0" and with short enough arrays meet that condition |
| FlattenOrder.ZeroKeyBecomesArray | include/json.h:11471-11483 | the object {"0": null} comes back as [null] |
| AccessEffects.CreateGrows | include/json.h:11461-11515 | one step of `get_and_create` keeps all children, makes room for the index or the name, and turns null into an array exactly for "0" |
| AccessEffects.CreateThenAt | include/json.h:11461-11515 | what `get_and_create` assigns is found at the same pointer, exactly when no index has a leading zero |
| AccessEffects.CreateElsewhere | include/json.h:11461-11515 | every pointer that found something and parts ways with it finds the same afterwards |
| Flatten.UnflattenRejects | include/json.h:11914-11940 | `unflatten` of a value that is no object, or of one with an array or object in it, throws domain_error |
| Binary.ByteVector.AddToVector | include/json.h:6608-6642 | the switch with its fall-through appends the number most significant byte first |
| Binary.GetFromVectorLoop | include/json.h:6681-6695 | the copy into memory in reverse order reads a big-endian number, or throws when bytes are missing |
| Binary.ReadsBack | include/json.h:6608-6695 | reading what was written gives the number back modulo its width |
| ByteStrings.ToBigEndianAt | include/json.h:6608-6642 | each byte that is written is the number divided by its power of 256, modulo 256 |
| Binary.ReadString | include/json.h:7230-7249 | a string is read exactly when it lies inside the vector, and the wrapped index is then its end |
| Binary.ByteVector.PushBits | include/json.h:7075-7085 | the bytes of a double are appended in order |
| Cbor.Decode | include/json.h:7503-7969 | on every vector the decoder terminates; a normal return has moved the index forward and not past the end |
| Cbor.DecodeOfEncode | include/json.h:6953-7969 | decoding at the start of an encoded value inside any vector gives the value with its integers in normal form and stops exactly behind its bytes |
| CborLaws.RoundTrip | include/json.h:6953-7969 | `from_cbor(to_cbor(j))` is equal to `j`, whatever bytes follow, and consumes exactly its bytes |
| CborLaws.PrefixFree | include/json.h:6953-7205 | no encoding is a prefix of another one unless the values are equal up to signed or unsigned storage |
| CborLaws.SameEncoding | include/json.h:6969-7073 | two values have the same encoding exactly when they differ at most in signed or unsigned storage |
| CborLaws.HeadFormat | include/json.h:7042-7073 | every head has the layout of RFC 7049, section 2: major type, additional information, and the argument in that many bytes |
| CborLaws.HeadIsShortest | include/json.h:7087-7116 | whatever head the decoder accepts for an argument, the encoder writes none that is longer |
| CborLaws.IntegerIsShortest | include/json.h:6969-7073 | no encoding of an integer that the decoder accepts is shorter than the one the encoder writes |
| CborLaws.HalfIsExact | include/json.h:7910-7938 | a finite half-precision number is widened to exactly its value |
| CborLaws.SingleIsExact | include/json.h:7940-7950 | a finite single-precision number is widened to exactly its value |
| CborLaws.DecodeExtends | include/json.h:7503-7969 | more bytes at the end change nothing but an out-of-range error |
| CborLaws.TruncatedIsOutOfRange | include/json.h:7499-7969 | every proper prefix of an encoding is rejected as out of range |
| CborLoops.ToCbor | include/json.h:6953-7205 | the recursive encoder appends exactly the encoding to the vector |
| CborLoops.Reader.Item | include/json.h:7503-7969 | the recursive decoder over an index that is passed by reference returns, throws and moves the index as its function says |
| CborLoops.Reader.Chunks | include/json.h:7686-7697 | a string of indefinite length is joined from its chunks up to the break byte |
| CborLoops.Reader.Members | include/json.h:7806-7880 | the loop over key-value pairs; a later value replaces an earlier one |
| CborLoops.Reader.MembersToBreak | include/json.h:7882-7893 | the same up to the break byte |
| CborLoops.Reader.Elems | include/json.h:7700-7780 | the loop over a counted array |
| CborLoops.Reader.ElemsToBreak | include/json.h:7782-7792 | the loop over an array of indefinite length, whose value `CborFormat.OpenArrayOfValues` states |
| CborFormat.DecodesItems | include/json.h:7503-7969 | for every vector and place: the decoder returns a value and an index exactly when a data item of RFC 7049, written as a tree with its bytes, ends there and has that value; items of every width and of indefinite length included |
| CborFormat.ItemReads | include/json.h:7503-7969 | wherever a data item stands, its value is read, and an item with a key or chunk of which no string can be made throws domain_error |
| CborFormat.OpenArrayOfValues | include/json.h:7782-7792 | encoded values between 0x9f and the break byte are read as the array of these values, in order |
| CborFormat.FormsAgree | include/json.h:7686-7893 | counted and indefinite arrays and maps of the same parts have the same value, and chunks are joined in order |
| CborFormat.LastPairDecides | include/json.h:7806-7893 | in the object that is read, the last pair with a key decides |
| CborFormat.NegativeIsExact | include/json.h:7564-7615 | a negative number of any width is read right exactly down to -2^63, and wraps to one that is not negative below |
| CborFormat.NoItem | include/json.h:7963-7969 | a first byte that starts no supported item throws invalid_argument |
| CborFormat.CutItemIsOutOfRange | include/json.h:7499-7969 | every proper prefix of a data item is rejected as out of range |
| CborFormat.EncodeIsCanonical | include/json.h:6953-7205 | the encoder writes exactly the data item with the shortest arguments, counted lengths and doubles |
| CborFormat.SizeIsLeast | include/json.h:7042-7073 | no argument can be written in fewer bytes |
| CborLaws.NotFiniteIsNull | include/json.h:7910-7950 | half, single and double precision numbers become null exactly when their exponent is all ones |
| MsgPack.Decode | include/json.h:7265-7487 | on every vector the decoder terminates; a normal return has moved the index forward and not past the end |
| MsgPack.DecodeOfEncode | include/json.h:6707-7487 | decoding at the start of an encoded value inside any vector, for values that fit, with exact consumption |
| MsgPackLaws.RoundTrip | include/json.h:6707-7487 | `from_msgpack(to_msgpack(j))` is equal to `j`, whatever bytes follow, for values that fit |
| MsgPackLaws.RoundTripExactly | include/json.h:6844-6935 | the round trip holds exactly when all strings, keys, arrays and objects have lengths of at most 2^32 - 1 |
| MsgPackLaws.DecodedFits | include/json.h:7265-7487 | no value that the decoder returns exceeds these lengths |
| MsgPackLaws.LongStringIsLost | include/json.h:6844-6871 | a string of 2^32 zero bytes is written without a head and read back as the number 0 |
| MsgPackLaws.PrefixFree | include/json.h:6707-6941 | among values that fit, no encoding is a prefix of another one, up to signed or unsigned storage |
| MsgPackLaws.IntegerIsShortest | include/json.h:6725-6830 | no encoding of an integer that the decoder accepts is shorter than the one the encoder writes |
| MsgPackLaws.DecodeExtends | include/json.h:7265-7487 | more bytes at the end change nothing but an out-of-range error |
| MsgPackLaws.TruncatedIsOutOfRange | include/json.h:7262-7487 | every proper prefix of the encoding of a value that fits is rejected as out of range |
| MsgPackLoops.ToMsgPack | include/json.h:6707-6941 | the recursive encoder appends exactly the encoding to the vector |
| MsgPackLoops.Reader.Item | include/json.h:7265-7487 | the recursive decoder over an index that is passed by reference returns, throws and moves the index as its function says |
| MsgPackFormat.DecodesItems | include/json.h:7265-7487 | for every vector and place: the decoder returns a value and an index exactly when an object of the MessagePack formats, written as a tree with its bytes, ends there and has that value |
| MsgPackFormat.ItemReads | include/json.h:7265-7487 | wherever such an object stands, its value is read, and a map with a key of which no string can be made throws domain_error |
| MsgPackFormat.LastPairDecides | include/json.h:7420-7480 | in the object that is read, the last pair with a key decides |
| MsgPackFormat.NoItem | include/json.h:7482-7486 | a first byte that starts no supported format throws invalid_argument |
| MsgPackFormat.CutItemIsOutOfRange | include/json.h:7262-7487 | every proper prefix of such an object is rejected as out of range |
| MsgPackFormat.EncodeIsCanonical | include/json.h:6707-6941 | for values that fit, the encoder writes exactly the shortest formats, and doubles |
| MsgPackFormat.IntegersAreShortest | include/json.h:6725-6830 | no format for an integer has fewer bytes than the one that is written |
| MsgPackFormat.StringsAreShortest | include/json.h:6844-6871 | no format for a string has fewer bytes |
| MsgPackFormat.ArraysAreShortest | include/json.h:6873-6901 | no format for an array has fewer bytes |
| MsgPackFormat.MapsAreShortest | include/json.h:6903-6935 | no format for a map has fewer bytes |
| Compare.EqReflexive | include/json.h:5912-5985 | every value without NaN is equal to itself |
| Compare.NormalIsEqual | include/json.h:5975-5982 | a value is equal to itself with its non-negative integers stored as unsigned |
| Compare.SameNormalIsEqual | include/json.h:5975-5982 | values that differ only in signed or unsigned storage are equal |
| Ordering.NumbersByValue | include/json.h:5959-6166 | on tame numbers both operators compare the mathematical values, through the casts between signed, unsigned and double |
| Ordering.Trichotomy | include/json.h:6096-6172 | of two tame values, exactly one is smaller or they are equal, through nested arrays and objects |
| Ordering.Transitive | include/json.h:6096-6172 | on tame values `<` and `==` compose; with a strict step the result is strict |
| Ordering.EqTransitive | include/json.h:5912-5985 | on tame values `==` is transitive |
| Ordering.EqSymmetric | include/json.h:5912-5985 | `==` is symmetric on all values |
| Ordering.UnsignedIsExact | include/json.h:5975-6172 | `==`, `<` in either direction, and all three together are right for an unsigned number and all signed ones exactly when it is at most INT64_MAX |
| Ordering.LargeUnsignedCycles | include/json.h:6159-6166 | every larger unsigned number equals a negative integer and closes a cycle of `<` |
| Ordering.IntegerIsExact | include/json.h:5959-6166 | `==`, `<`, and both together are right for an integer and all doubles exactly when the conversion to double keeps the integer |
| Ordering.ExactIsADouble | include/json.h:5959-5974 | the conversion keeps an integer of 64 bits exactly when some double has its value |
| Ordering.InexactEqualsAnother | include/json.h:5959-5974 | for every signed integer that no double holds, one double equals it and another integer that differs from it |
| Ordering.FloatEqualsTwo | include/json.h:5959-5974 | the first such pair: one double equals 2^53 and 2^53 + 1 |
| Ordering.MixedByNearest | include/json.h:5959-6166 | every integer is compared with all doubles as a double to which no other is nearer |
| Ordering.IntegersByValue | include/json.h:5912-6166 | unsigned and signed numbers are compared by value among themselves, mixed ones as signed numbers modulo 2^64 |
| Rounding.CastIsNearest | include/json.h:5959-5974 | the conversion of an integer of 64 bits gives a nearest double |
| Rounding.TiesToEven | include/json.h:5959-5974 | half way between two doubles, the conversion gives the one with an even last bit |
| OrderLaws.TypesInOrder | include/json.h:171-193 | null is smaller than booleans, these than numbers, objects, arrays and strings, in this order |
| OrderLaws.NullAndBooleans | include/json.h:6096-6172 | null equals null, and false is smaller than true |
| OrderLaws.StringsByFirstDifference | include/json.h:6096-6172 | strings are compared by their first different byte, and a proper prefix is smaller |
| OrderLaws.ArraysByFirstDifference | include/json.h:6096-6172 | arrays are compared by the first elements of which one is smaller |
| OrderLaws.ObjectsByFirstDifference | include/json.h:6096-6172 | objects are compared by the first members of which one is smaller, by name and then by value |
| Utf8.ReadsBack | include/json.h:9541-9603 | `to_unicode` writes every scalar value as one well-formed sequence, from which it can be read back |
| Utf8.WritesBack | include/json.h:9571-9596 | every well-formed sequence is what `to_unicode` writes for its code point |
| Utf8.AppendIsInjective | include/json.h:9541-9603 | different scalar values are written differently |
| Utf8.ShortestForm | include/json.h:9571-9596 | what is written is the only shortest byte pattern that holds the code point |
| Utf8.PairsAreSupplementary | include/json.h:9548-9570 | surrogate pairs give code points from U+10000 to U+10FFFF, and different pairs different ones |
| Utf8.EverySupplementaryHasAPair | include/json.h:9548-9570 | each of these code points has a pair |
| Escaping.Escape | include/json.h:8137-8164 | the escaped string is exactly `extra_space` bytes longer |
| Escaping.EscapeString | include/json.h:8183-8288 | the in-place fill writes the escaped string, stays inside the buffer and ends at its end |
| Escaping.WriteEscaped | include/json.h:8195-8285 | one byte is written escaped at its position and the rest of the buffer keeps its backslashes |
| Escaping.GetStringOfEscape | include/json.h:8183-8288 | `get_string` of the escaped string between quotes is the string, for every byte string |
| Escaping.BodyEndIsExact | include/json.h:10012-10283 | the first unescaped quote is the only end of a string token |
| StringTokens.ThrowsWhenUnpaired | include/json.h:10819-10855 | on accepted tokens `get_string` throws exactly for an unpaired surrogate |
| StringTokens.ValueIsWellFormed | include/json.h:10747-10860 | otherwise its result is well-formed UTF-8 |
| StringTokens.BodyEscapes | include/json.h:10093-10171 | accepted tokens hold only legal escapes |
| StringTokens.BodyEndOfEscape | include/json.h:10012-10283 | behind an escaped string and a quote, a token ends at that quote when the string is well-formed UTF-8 and nowhere otherwise |
| StringTokens.GetStringLoop | include/json.h:10747-10860 | the loop with its jumps over the buffer computes the value, which `StringValues.GetStringMeans` characterises, or throws |
| StringValues.GetStringMeans | include/json.h:10747-10860 | for every body and string: `get_string` returns the string exactly when both consist of the same pieces: raw bytes, the eight letters of RFC 7159, section 7, unicode escapes by the value of their digits, and surrogate pairs |
| StringValues.BodyIsCharacters | include/json.h:10012-10283 | between the quotes of a token stand exactly the unescaped characters from U+0020 on without quote and backslash, in UTF-8, and the escapes of RFC 7159 |
| StringValues.HexMeans | include/json.h:10804-10840 | a byte is a hexadecimal digit with a value exactly when it is that digit in lower or upper case |
| StringValues.Hex4Means | include/json.h:10804-10840 | the number of a unicode escape is that of its four digits in either case |
| StringValues.AppendMeans | include/json.h:9571-9596 | a scalar value is written as the bytes of RFC 3629, section 3, that hold it, and as no others |
| StringValues.EscapeIs | include/json.h:8183-8288 | `escape_string` appends, for each byte, the escape of its letter, of its two hexadecimal digits, or the byte itself |
| StringValues.EscapeCharIs | include/json.h:8195-8285 | the seven escapes with a letter and the six-character escapes of the other control characters, letter by letter |
| StringValues.EscapeIsUnique | include/json.h:8195-8285 | a byte has only one such escape |
| Scanner.Run | include/json.h:9845-10585 | every run of labels ends, goes back only to a marker that has been set, and reads nothing behind the terminating zero byte |
| Scanner.ScanStaysInside | include/json.h:9667-10590 | a token lies inside the text, except for the end of the input |
| StringScan.StringTokenIsExact | include/json.h:9859-10283 | at a quote, `scan` returns a string token exactly for a quoted run of unescaped, well-formed UTF-8 and legal escapes, and an error at the quote otherwise |
| StringScan.SequenceRun | include/json.h:10019-10283 | the labels for bytes from 0x80 on accept exactly the sequences of RFC 3629, section 4 |
| StringScan.HexRun | include/json.h:10342-10585 | a unicode escape needs four hexadecimal digits |
| StringScan.ScanTrue | include/json.h:9992-9999 | a `t` starts the literal or is an error by itself |
| StringScan.ScanFalse | include/json.h:9976-9983 | an `f` starts the literal or is an error by itself |
| StringScan.ScanNull | include/json.h:9984-9991 | an `n` starts the literal or is an error by itself |
| NumberScan.ScanNumber | include/json.h:9885-9957 | at a digit or minus, `scan` returns the longest number, going back over an incomplete fraction or exponent |
| NumberScan.ScannedIsNumber | include/json.h:9885-10434 | what it takes has the parts of a number (RFC 7159, section 6) |
| NumberScan.ScannedIsLongest | include/json.h:9885-10434 | no number that starts there is longer |
| Lexer.Lexer.Scan | include/json.h:9667-10590 | the loop over labels with marker and cursor returns the token of the state machine |
| Lexer.GetNumberLoop | include/json.h:10937-11042 | integers that fit have their exact value, -2^63 included, everything else takes the floating-point path, and no intermediate value exceeds the maximum |
| Lexer.OverflowTest | include/json.h:10986-10999 | the rearranged overflow test is exact |
| Grammar.ParseIsGrammar | include/json.h:11096-11336 | `parse` accepts exactly the sentences of the JSON grammar, with exactly their value |
| Grammar.Accepts | include/json.h:11113-11304 | every sentence is parsed to its meaning, and what follows it is left |
| Grammar.Derives | include/json.h:11113-11304 | whatever is parsed is a sentence with that meaning, followed by the rest |
| Grammar.LastPairWins | include/json.h:11147-11185 | in the resulting object, the last pair with a key decides |
| Parser.Parser.ParseInternal | include/json.h:11113-11304 | the recursive descent over one token of lookahead returns or throws as defined on the remaining tokens |
| Parser.Parser.Pairs | include/json.h:11146-11196 | the do-while loop over the pairs of an object |
| Parser.Parser.Items | include/json.h:11225-11252 | the do-while loop over the elements of an array |
| Parser.Parser.Parse | include/json.h:11096-11110 | one value and the end of the input |
| Parser.ScannedIsReadable | include/json.h:10747-10752 | every string or number token meets what `get_string` and `get_number` rely on |
| JsonText.ParseIsJsonText | include/json.h:11096-11336 | a text without zero bytes is accepted with a value exactly when it is a JSON text of RFC 7159 with that value: tokens with any white space around them, in a sentence of the grammar |
| JsonText.ParseIsJsonTextBeforeZero | include/json.h:9667-11336 | every text is read up to its first zero byte, and accepted exactly when that part is a JSON text |
| JsonText.JsonTextsAreAccepted | include/json.h:9667-11336 | the JSON texts with a value are exactly the texts accepted with that value in which no zero byte stands |
| JsonText.ZeroByteAccepted | include/json.h:9667-10590 | null, a zero byte and anything behind it is accepted and is no JSON text |
| JsonText.SpansOf | include/json.h:9667-10590 | a text whose tokens reach the end of the input consists of these tokens, as RFC 7159 spells them, and white space |
| JsonText.LexOfSpans | include/json.h:9667-10590 | a text that consists of tokens and white space is scanned into these tokens, when a comma or a closing bracket follows every number |
| JsonText.NumbersEndInYield | include/json.h:11113-11304 | in every sentence of the grammar a comma, a closing bracket or the end follows a number |
| JsonText.WholeNumber | include/json.h:9885-9957 | a number in front of a delimiter is scanned as a whole |
| JsonText.StringTokenMeans | include/json.h:10747-10860 | a string token has a value exactly when its body consists of the pieces of that string |
| JsonText.NumberTokenMeans | include/json.h:10937-11042 | an integer token that fits has the value of its digits, signed with a minus sign and unsigned without; every other number is what `strtod` makes of it, or null |
| JsonText.SymbolsAre | include/json.h:9845-9957 | brackets, separators, signs, the point, the exponent and the digits are the characters of RFC 7159 |
| ParseErrors.ParseThrowsInvalidArgument | include/json.h:11096-11336 | every text that is rejected makes `parse` throw invalid_argument |
| Printer.Print | include/json.h:8307-8445 | the recursive printer appends exactly the text of a value to the stream |
| Printer.PrintArray | include/json.h:8357-8393 | an array with line breaks, indentation, commas and its closing bracket |
| Printer.PrintObject | include/json.h:8317-8355 | the loop over the members writes the text of the object, whose layout `Layout.TextIsLayout` states |
| Printer.ClosingAligns | include/json.h:8326-8354 | a closing bracket stands below the start of the line that opens it, whatever wraps |
| Layout.TextIsLayout | include/json.h:8307-8445 | for every value: with an indent, the text is its tokens with one blank behind a colon, and a new line for every element, member and closing bracket, which starts with the indentation times the open brackets modulo 2^32; without, it is its tokens and nothing else |
| Layout.CompactIsTokens | include/json.h:8307-8445 | the compact form has no white space |
| Layout.WordsAre | include/json.h:8400-8441 | the words, and 0.0 and -0.0 for the two zeros, letter by letter |
| TextRoundTrip.LexOfDump | include/json.h:8307-8445 | the tokens of a printed value are the sentence of its tree, for any style and any delimiter behind it |
| TextRoundTrip.LexString | include/json.h:8395-8399 | a printed string is one token with its value when it is well-formed UTF-8, and an error otherwise |
| TextRoundTrip.LexInteger | include/json.h:8407-8417 | a printed integer is one token with its value |
| TextRoundTrip.MeaningOfTree | include/json.h:11113-11304 | the tree of a value means the value with its integers in normal form |
| TextRoundTrip.ParseOfDump | include/json.h:2667-2689 | for every value without floats and any indent, `parse(dump(j, indent))` is equal to `j` exactly when all its strings are well-formed UTF-8; otherwise it throws |
| TextRoundTrip.IllFormedTextThrows | include/json.h:8137-8164 | the string of the byte 0xff is printed and then rejected by the parser |
| Base64.RoundTrip | src/base64.cpp:47-137 | decoding an encoded string gives it back, with padding, without it, or with anything outside the alphabet behind it |
| Base64.EncodedLength | src/base64.cpp:47-91 | the encoded length is four for every three bytes that are begun |
| Base64.SextetsAreDigits | src/base64.cpp:60-63 | the four sextets are the base-64 digits of the 24 bits of three bytes |
| Base64.EncodeLoop | src/base64.cpp:47-91 | the loop over the array of three bytes, its tail and its padding write the encoding |
| Base64.EncodeString | src/base64.cpp:140-144 | the overload for strings encodes the first length modulo 2^32 bytes |
| Base64.DecodeLoop | src/base64.cpp:93-137 | the loop over the array of four characters decodes up to the first character outside the alphabet |
| Base64.DecodeRest | src/base64.cpp:121-134 | the values that `find` gives for the filled-up zero bytes do not reach the output |
| Base64.EveryCharIsFound | src/base64.cpp:36-45 | every character that `is_base64` accepts has a position below 64 |
| Base64.FindsChar | src/base64.cpp:36-45 | every character of the alphabet is found at its own position |
| Base64.AlphabetIs | src/base64.cpp:36-39 | the n-th character of the alphabet, as a literal string |
| Base64.ThreeBytes | src/base64.cpp:47-80 | three bytes are encoded as the four base-64 digits of their number, and so on |
| Base64.FewerBytes | src/base64.cpp:72-88 | one or two bytes that are left over give two or three digits, whose unused bits are zero, and equals signs |
| Base64.FourCharacters | src/base64.cpp:93-119 | four characters are decoded to the three bytes of the number whose digits they are, and so on |
| Base64.FewerCharacters | src/base64.cpp:121-134 | three or two characters that are left over give two bytes or one, and a single one gives nothing |
| UrlParser.PercentDecodeLoop | src/UrlParser.cpp:52-112 | the three-state machine computes the decoding that `PercentCodes.PartsDecode` states for every text |
| UrlParser.DecodeOfEncoding | src/UrlParser.cpp:52-112 | decoding undoes every percent encoding of a text, in either case of digits |
| PercentCodes.PartsDecode | src/UrlParser.cpp:52-112 | for every text: codes are decoded by the value of their two digits, a percent sign that starts no code stays with what follows it, and a code that the text cuts off is dropped |
| PercentCodes.PartsOf | src/UrlParser.cpp:52-112 | every text consists of such parts |
| PercentCodes.CodeDecodes | src/UrlParser.cpp:151-196 | every byte, in each choice of lower and upper case of its two digits, is decoded to itself |
| UrlParser.EscapeAllEncodes | src/UrlParser.cpp:52-112 | every byte string has such an encoding |
| UrlParser.EncodedField | src/UrlParser.cpp:41-47 | a name without `=` and any encoding of a value make a field that decodes to that value |
| UrlParser.FieldsOf | src/UrlParser.cpp:26-49 | every query is a list of fields joined by `&`, followed by a rest that is ignored |
| UrlParser.ParseOfRender | src/UrlParser.cpp:26-49 | however a query is taken apart in this way, the map holds exactly the last value of each name |
| UrlParser.ParseUrlOfRender | src/UrlParser.cpp:26-49 | for fields behind the first question mark of a URL, and for a bare query, the map holds exactly the last value of each name |
| UrlParser.LastFieldWins | src/UrlParser.cpp:26-49 | the map answers every lookup with the last value of that name |
| UrlParser.UrlParser.Parse | src/UrlParser.cpp:26-49 | the loop terminates although its index starts at the wrapped value -1, and fills the map as defined |
| UrlParser.UrlParser.constructor | src/UrlParser.cpp:7-12 | a new parser holds the parameters of its URL |
| UrlParser.UrlParser.Param | src/UrlParser.cpp:15-22 | however the query of the URL is taken apart into fields, the result is the last value of the name, or the empty string when no field has it |
| UrlParser.ParamOfRender | src/UrlParser.cpp:15-49 | a parser of a path, a question mark and fields answers each name with its last value in them, or the empty string |
| UrlParser.ParamIsLast | src/UrlParser.cpp:15-49 | the answer is the value of the field behind which the name does not occur again, and empty when it occurs in none |

## Left out

- Float text: `dump` prints a double with 15 digits and `get_number` calls `strtod`; both conversions are parameters of the
  model, and the text round trip is stated for values without floats.
- Non-finite numbers: a `Json` holds finite doubles only, as the constructors replace infinity and NaN by null
  (include/json.h:268-286); the decoders do so in the model too.
- Documents are values: `patch`, `get_and_create` and pointer access change a tree in place through references; the model
  computes the changed document, so aliasing between a document and a patch applied to it is not captured.
- The order in which C++ evaluates the two sides of `result[ptr] = result.at(from_ptr)` in "copy" and of
  `result.at(ptr) == get_value(...)` in "test" is not fixed; the model evaluates the right side of the first and the left
  side of the second before the other one.
- Recursion depth, allocation failure and time: values, texts and vectors of any size up to the address space are
  handled without running out of stack or memory.
- The lexer over an `std::istream`, with its line buffer and byte-order mark, and `fill_line_buffer`: the model
  reads a text that ends in a zero byte, and proves that nothing behind that byte is read.
- Parser callbacks and discarded values: the parser is modelled without a callback.
- Messages of exceptions: only the exception class is modelled. After an exception the decoders' index and the parser's
  position are not described.
- Binary.ReadString: nothing is said about the index after a length check has failed, because an exception is thrown.
- Iterators, allocators, conversions to other C++ types, the union layout and the move semantics of `basic_json`.
- Locale: `isalnum`, `isdigit` and `isspace` are those of the C locale.
- Base64.DecodeLoop: requires a length of at most INT_MAX, because the source keeps the length in an `int` and
  longer texts overflow it.
- UrlParser.UrlParser.constructor: requires a length of at most PTRDIFF_MAX, which no string exceeds.
- The rest of the service: FastCGI, Mongo, configuration, logging, GeoIP and process code, and the lookup tables in
  src/Offer.cpp and src/EBranch.cpp.
