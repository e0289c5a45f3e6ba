# BEJ decoder model

This project models the core of a small C decoder. The decoder turns
Binary Encoded JSON (BEJ, the DMTF Redfish binary encoding) into
pretty-printed JSON text, with the help of a binary schema dictionary.
The model covers two parts of the program:

- **Dictionary loading (`src/dict.c`).**
  - The little-endian readers `rd16` and `rd32`.
  - Parsing of the 12-byte header and the 10-byte entry records in `dict_load`.
  - Resolution of a record's child pointer into an entry index, including the
    unsigned 32-bit subtraction.
  - The child-list helpers `dict_children` and `dict_child_by_seq`.
- **Decoding (`src/bej_decode.c`).**
  - The byte-stream readers `bej_read_u8`, `bej_read` and `bej_expect_bytes`.
  - The readers `bej_read_nnint` (non-negative integers: a count byte, then
    that many little-endian bytes), `bej_read_sfl` (sequence number with
    selector, format nibble and flags nibble, then length) and
    `bej_peek_format`. The peek is reached only from the unreferenced
    `decode_set`; the live member loop re-reads the whole SFL instead.
  - JSON string escaping.
  - The scalar decoders for String, Boolean, Integer, Real, Enum and Null.
  - The recursive `decode_value`: a Set's members named from the dictionary,
    annotation members skipped, and an Array's elements decoded against the
    array's element entry.
  - The document entry point `bej_decode_to_json`, with its 7-byte header and
    its schema-class check.

Each `char` of the model's JSON text stands for one byte the C code writes.
Bytes of 0x80 and above in names and strings are copied through unchanged,
as `json_write_escaped` does; the model does no UTF-8 decoding or validation.

The C code writes its output to a `FILE*` and advances a mutable stream. The
model instead works on a byte sequence and a position:

- Every reader is a pure function that returns either an error or the value
  it read together with the position after it (`Results.Read`).
- Every decoder returns the JSON text it would have written.
- The global indentation level `pp_level` becomes an explicit `depth`
  parameter.
- A C null subset pointer is `None`, and a subset whose list is null is
  `Some(NoList)`.

The decoder returns only 0, -1 or -2. The model keeps the reason for each
failure in `Results.Error`, and maps it back to those codes with
`Error.Code`.

Modules:

| module | file | contents |
|---|---|---|
| `Results` | results.dfy | errors, `Result`, `Option`, `Read` |
| `Bytes` | bytes.dfy | little-endian and two's-complement values of byte strings |
| `Decimal`, `JsonText` | text.dfy | `%u`/`%d` printing, JSON escaping, indentation |
| `Stream` | stream.dfy | the stream readers, nnint and SFL |
| `Dict` | dict.dfy | the dictionary |
| `Decoder` | decode.dfy | the value decoders and `bej_decode_to_json` |
| `DecodeSteps` | steps.dfy | one unfolding of each decoder branch, stated as a lemma |
| `ValueTree` | tree.dfy | an abstract BEJ value, its encoding, and the JSON the decoder should print for it |
| `RoundTrip` | roundtrip.dfy | decoding an encoded value yields its rendering |
| `DecoderFacts` | facts.dfy | error paths and dictionary fall-backs |
| `Examples` | examples.dfy | concrete inputs worked through the model |

The main partner of the decoder is `ValueTree`. It gives an independent
description of what the decoder should print for a value, and
`RoundTrip.DecodeEncoded` proves that `decode_value` prints exactly that for
any encoded value. The property holds at every depth, under every
dictionary subset, and with any bytes following the value.

## Model

| member | source | states |
|---|---|---|
| Bytes.LeValueOfLeBytes | src/bej_decode.c:76-87 | the n-byte little-endian encoding of a value below 256^n reads back as that value |
| Bytes.LeBytesOfLeValue | src/bej_decode.c:76-87 | every byte string is the little-endian encoding of its own value, so the reader loses nothing |
| Bytes.LeValueAppend | src/bej_decode.c:84 | the value of a concatenation is the low part plus the high part shifted by the low part's width |
| Bytes.AccumulateLe | src/bej_decode.c:84 | the shift-and-or loop over the bytes, taken from the last byte to the first, computes the little-endian value |
| Bytes.Signed | src/bej_decode.c:177-189 | a field of n bytes is read as a number in [-256^n/2, 256^n/2), equal to its unsigned value or to that value minus 256^n |
| Bytes.TopBitIsUpperHalf | src/bej_decode.c:184 | the top bit of the last byte is set exactly when the unsigned value is in the upper half of the range |
| Bytes.SignedOfSignedBytes | src/bej_decode.c:177-189 | a number in range, written as n two's-complement bytes, reads back as itself |
| Bytes.SignedBytesOfSigned | src/bej_decode.c:177-189 | every field is the two's-complement encoding of the number it reads as |
| Bytes.SignExtendAgrees | src/bej_decode.c:184-186 | filling the bytes above the field with 0xFF when the top bit is set, and reading all 8 bytes, gives the same number as reading the field alone |
| Decimal.NatToStringRoundTrip | src/bej_decode.c:35 | the `%u` text of a number is a string of digits whose decimal value is that number |
| Decimal.IntToStringRoundTrip | src/bej_decode.c:187 | the signed decimal text of an integer parses back to that integer |
| JsonText.EscapedPrintable | src/bej_decode.c:113-131 | escaping leaves no control character below 0x20 in the output |
| JsonText.UnescapeEscapeByte | src/bej_decode.c:117-128 | a JSON reader undoes the escape of one byte, whether it is a quote, a backslash, a short escape, a `\u00XX` escape or a plain byte |
| JsonText.EscapedRoundTrip | src/bej_decode.c:113-131 | un-escaping the escaped text of any byte string gives back exactly those bytes |
| Stream.ReadU8 | src/bej_decode.c:56-60 | a byte read succeeds exactly when a byte is left; it returns that byte and advances by one; otherwise it reports truncation |
| Stream.ReadBytes | src/bej_decode.c:62-67 | an n-byte read succeeds exactly when n bytes are left, returns those bytes and advances by n |
| Stream.ExpectBytes | src/bej_decode.c:69-74 | the check succeeds exactly when the expected bytes stand at the position |
| Stream.ExpectIsReadAndCompare | src/bej_decode.c:69-74 | the expectation succeeds exactly when reading that many bytes yields the expected ones |
| Stream.LeValueAtIsSlice | src/bej_decode.c:84 | the value accumulated in place is the little-endian value of the slice it covers |
| Stream.ReadNnint | src/bej_decode.c:76-87 | an nnint read succeeds exactly when the count byte is at most 8 and that many bytes follow; the value is their little-endian number, and a count over 8 is rejected |
| Stream.ReadNnintOf | src/bej_decode.c:76-87 | an nnint written with any byte count that can hold the value reads back as that value, just past its bytes |
| Stream.ReadEncodedNnint | src/bej_decode.c:76-87 | the shortest nnint encoding of a value below 2^64 reads back as that value |
| Stream.ReadNnintBytes | src/bej_decode.c:76-87 | whatever an nnint read accepts is the nnint encoding of the returned value with the count byte found |
| Stream.ReadSfl | src/bej_decode.c:102-110 | an SFL read consumes at least three bytes; it yields nibbles below 16, a selector bit and a 16-bit sequence number |
| Stream.ReadSflOf | src/bej_decode.c:102-110 | an SFL written from a sequence number, selector, format, flags and length reads back with those same parts |
| Stream.ReadSflOfBytes | src/bej_decode.c:102-110 | the format and flags come from the high and low nibble of the byte between the two nnints |
| Stream.PeekFormat | src/bej_decode.c:89-99 | whenever a full SFL read at the same position succeeds, the peek reports its format and flags; the peek itself consumes nothing (it is used only by the unreferenced `decode_set`, not by `decode_value`) |
| Dict.RdAgreesWithLeValue | src/dict.c:6-7 | rd16 and rd32 are the little-endian values of 2 and 4 bytes |
| Dict.ParseEncodedRecord | src/dict.c:32-41 | a 10-byte entry record written from its fields parses back to those fields |
| Dict.EncodeParsedRecord | src/dict.c:32-41 | the fields parsed from any 10 bytes re-encode to those bytes, so the record layout is a bijection |
| Dict.ChildIndexOfRecord | src/dict.c:44-47 | a child pointer that is the offset of record k resolves to index k |
| Dict.ChildIndexUnchecked | src/dict.c:45 | a pointer inside the table resolves to the record that contains it; a pointer below the 12-byte header wraps around to an index of at least 429496728 |
| Dict.Resolve | src/dict.c:33-59 | format and flags are the two nibbles of the first byte; a zero child pointer gives no children (-1 and 0); a zero name offset gives no name |
| Dict.NameLenIgnored | src/dict.c:40 | the name-length byte of a record has no effect on the loaded entry |
| Dict.Load | src/dict.c:12-60 | loading succeeds exactly when the file holds the 12-byte header and every record the count announces; otherwise the error is truncation; the header fields and entries are read from their offsets |
| Dict.CString | src/dict.c:55 | a name is the bytes from its offset up to, and not including, the first NUL |
| Dict.NameOf | src/dict.c:54-59 | an entry has a name exactly when its offset is non-zero, and the name is the NUL-terminated byte run at that offset |
| Dict.Children | src/dict.c:71-85 | the child list of an entry, or of entry 0 for a negative parent, is its child range when it has one and the null list otherwise; an empty table gives the null list |
| Dict.ChildBySeq | src/dict.c:87-93 | the lookup returns the first entry of the subset with the given sequence number; it returns nothing exactly when no entry of the subset has that number, and always for a null subset |
| Dict.Scan | src/dict.c:89-91 | the loop finds the first index in the range carrying the sequence number, or reports that none does |
| Decoder.ReadSignedEncodes | src/bej_decode.c:177-189 | the number read from a field of 1 to 8 bytes is representable in that width, and its two's-complement bytes are the field |
| Decoder.DecodeInteger | src/bej_decode.c:177-189 | an Integer decodes exactly when its length is 1 to 8 and the bytes are present; a length of 0 or over 8 is a length error |
| Decoder.DecodeIntegerMeaning | src/bej_decode.c:177-189 | the printed Integer is a decimal number whose two's-complement encoding in the field's width is the field |
| Decoder.DecodeBoolean | src/bej_decode.c:169-175 | a Boolean needs length 1 and prints `true` exactly for a non-zero byte and `false` for zero |
| Decoder.StripNul | src/bej_decode.c:162-163 | one trailing NUL is dropped from the payload and nothing else is changed |
| Decoder.DecodeString | src/bej_decode.c:156-167 | a String decodes exactly when its length is from 1 to 2^31 and its bytes are present |
| Decoder.DecodeStringMeaning | src/bej_decode.c:156-167 | the printed String is a quoted JSON string that un-escapes to the payload without its terminating NUL |
| Decoder.ReadSignedPart | src/bej_decode.c:193-200 | a width-prefixed field of a Real is rejected when its width is over 8 |
| Decoder.DecodeReal | src/bej_decode.c:191-220 | a Real decodes exactly when its four fields read and end exactly at the declared length; otherwise the length mismatch is reported |
| Decoder.DecodeNull | src/bej_decode.c:439-445 | a Null prints `null` and skips its declared length when that many bytes are present; the sum of position and length is not wrapped at 2^64 |
| Decoder.EnumText | src/bej_decode.c:34-46 | without an entry for the field, the raw index is printed; any other output is a quoted name (the variant cases are the DecoderFacts.EnumVariant lemmas) |
| Decoder.DecodeEnum | src/bej_decode.c:23-47 | an Enum decodes exactly when its nnint index reads, and prints the variant text for that index |
| Decoder.SetSchema | src/bej_decode.c:336-351 | a Set outside any subset takes the children of the dictionary root; inside a subset, it has a schema exactly when the subset has an entry for its sequence number, and that schema is the entry's own children |
| Decoder.ArraySchema | src/bej_decode.c:402-412 | an Array has an element subset exactly when the enclosing subset has an entry for its sequence number, and that subset is the entry's own children |
| Decoder.MemberName | src/bej_decode.c:370-373 | a member is named exactly when the subset has an entry for its sequence number whose name is present and non-empty, and the name is that entry's C string |
| Decoder.MemberKey | src/bej_decode.c:375-383 | a named member is keyed by its escaped name, and an unnamed one by `"_<seq>"` |
| Decoder.DecodeScalar | src/bej_decode.c:429-449 | a format outside Set, Array, Integer, Enum, String, Real, Boolean and Null fails as unsupported |
| Decoder.DecodeValue | src/bej_decode.c:323-450 | a successful decode consumes at least its three-byte SFL and stays within the buffer |
| Decoder.DecodeToJson | src/bej_decode.c:452-466 | a document shorter than the 7-byte header is truncated; a schema class over 1 is rejected on its own; a success is the root value decoded from offset 7 with no subset |
| DecodeSteps.SetStep | src/bej_decode.c:332-396 | proof step, one unfolding of the Set case: a Set is its count followed by its members; an empty Set prints `{}` and a non-empty one prints its members indented one level deeper |
| DecodeSteps.ArrayStep | src/bej_decode.c:398-427 | proof step, one unfolding of the Array case: an Array is its count followed by its elements, printed between brackets with the element subset |
| DecodeSteps.MajorMemberStep | src/bej_decode.c:368-384 | proof step, one turn of the member loop: a major member prints a separator, its key, then its value decoded from its own SFL in the Set's subset when the member is named there and with no subset otherwise, and counts toward the member total |
| DecodeSteps.AnnotationStep | src/bej_decode.c:385-390 | proof step, one turn of the member loop: an annotation member is skipped by its declared length, prints nothing and leaves the separator state unchanged |
| DecodeSteps.MembersFrom | src/bej_decode.c:359-391 | the member loop prints the concatenation of every major member's key and value, with a comma before each one but the first |
| DecodeSteps.ElementsFrom | src/bej_decode.c:419-422 | the element loop prints every element separated by commas |
| DecodeSteps.DocumentStep | src/bej_decode.c:452-466 | proof step, one unfolding of the entry point: a document with a valid schema class decodes as its root value from offset 7 |
| RoundTrip.ReadHeaderOf | src/bej_decode.c:329 | the encoded SFL of a value reads back with the value's sequence number and a major selector |
| RoundTrip.ReadAnnotationOf | src/bej_decode.c:385-389 | an encoded annotation member is read back as an annotation SFL whose length covers its payload |
| RoundTrip.ReadRealBytesOf | src/bej_decode.c:191-210 | the four fields of an encoded Real read back as the original whole part, leading zeros, fraction and exponent |
| RoundTrip.DecodeScalarOf | src/bej_decode.c:429-445 | an encoded scalar of any supported format decodes to its rendering and ends where its body ends |
| RoundTrip.DecodeEncoded | src/bej_decode.c:323-450 | decoding any encodable value tree prints exactly the tree's JSON rendering and stops at the end of its encoding, under any subset, at any depth, whatever follows it |
| RoundTrip.DecodeEncodedMembers | src/bej_decode.c:359-391 | the encoded members of a Set decode to the rendering of those members |
| RoundTrip.DecodeEncodedElements | src/bej_decode.c:419-422 | the encoded elements of an Array decode to the rendering of those elements |
| RoundTrip.DecodeDocument | src/bej_decode.c:452-466 | a document made of any version and flags, a schema class of 0 or 1, and an encoded value decodes to the value's rendering at the root |
| DecoderFacts.UnsupportedFormatFails | src/bej_decode.c:447-448 | a value whose format has no case fails as unsupported as soon as its SFL is read |
| DecoderFacts.AnnotationOverrun | src/bej_decode.c:385-389 | an annotation member whose length runs past the buffer, without wrapping at 2^64, makes the member list fail as truncated |
| DecoderFacts.SkipAsWritten | src/bej_decode.c:388 | the C's skip check on 64-bit sums (the same check guards a Null at line 441): when the sum does not wrap it passes exactly when the skip fits and lands at pos + length; when it wraps it always passes and lands before pos |
| DecoderFacts.NullSkipRewinds | src/bej_decode.c:439-445 | for a 20-byte buffer and a Null of length 2^64 - 1 at offset 10, the check as written accepts and rewinds to offset 9, while the model reports it as truncated |
| DecoderFacts.NullSkipForward | src/bej_decode.c:439-445 | an accepted Null ends at or after its start and inside the buffer, and a Null fails exactly when its length runs past the buffer |
| DecoderFacts.UnnamedSetMemberUsesRoot | src/bej_decode.c:336-383 | an unnamed Set-valued member is keyed `"_<seq>"`, and its own members are decoded against the children of the dictionary root |
| DecoderFacts.EnumVariantMissing | src/bej_decode.c:38-43 | an Enum whose variant index has no entry among the field's children prints the raw index |
| DecoderFacts.EnumVariantUnnamed | src/bej_decode.c:39-42 | an Enum whose variant is found but has no name prints the raw index |
| DecoderFacts.NamedMemberKey | src/bej_decode.c:370-377 | when the first entry of the Set's subset with the member's sequence number has a non-empty name, the member is keyed by that name, quoted and escaped |
| DecoderFacts.UnnamedMemberKey | src/bej_decode.c:370-381 | when that first entry has no name or an empty one, the member is keyed `"_<seq>"` |
| DecoderFacts.ContainerSubsets | src/bej_decode.c:404-410 | inside a subset, an Array's elements, and a Set's members, are all decoded against the children of the first entry of that subset with the container's sequence number |
| DecoderFacts.EnumVariantNamed | src/bej_decode.c:38-46 | a found, named variant prints as the quoted name, which un-escapes to the name; the variant is a child of the field, and its sequence number is the index cut to 16 bits |
| DecoderFacts.DocumentErrorCodes | src/bej_decode.c:457-464 | a bad schema class returns -2, and a short header or any other failure returns -1 |
| Examples.NnintExamples | tests/test_nnint.c:18-25 | the test nnints for 0 and 65 (count 1) and 1337 (count 2) read back as those numbers, as does the one-byte form of 0; a count byte of 9 and a missing byte fail |
| Examples.MinusOneExample | src/bej_decode.c:177-189 | the one-byte Integer 0xFF prints `-1`, and a zero-length Integer is a length error |
| Examples.MinusOneTwentyEightExample | src/bej_decode.c:184-186 | the one-byte Integer 0x80 prints `-128` |
| Examples.LargestTwoByteExample | src/bej_decode.c:177-189 | the two-byte Integer 0xFF 0x7F prints `32767` |
| Examples.EmptyDictionaryLoads | src/dict.c:12-25 | a 12-byte header announcing no entries loads with its size field read, while a header announcing an entry that is absent, or a 3-byte file, is truncated |
| Examples.OnDictionary | src/dict.c:31-60 | a two-entry dictionary (a root Set with one Boolean child named `On` at name offset 32) is well formed |
| Examples.OnDictionaryLoads | src/dict.c:12-60 | the 35-byte table of a header, two records and the name `On` loads as that dictionary: child pointer 22 resolves to entry 1 and name offset 32 to `On` |
| Examples.OnEntry | src/dict.c:87-93 | in that dictionary, the root's child with sequence number 0 is the `On` entry, and its C-string name is the two bytes `On` |
| Examples.OnKey | src/bej_decode.c:375-378 | the name `On` is printed as the key `"On"` |
| Examples.EmptySetDocument | src/bej_decode.c:353-355 | a document whose root Set has no members prints `{}` |
| Examples.OnMember | src/bej_decode.c:359-384 | the one major member of the root Set, a Boolean with sequence number 0 and byte 1, prints `"On": true` |
| Examples.OnDocument | src/bej_decode.c:452-466 | the document `{On: true}` encoded against that dictionary prints `{\n  "On": true\n}` |

## Left out

- Reading the dictionary file (`read_file_all`, `src/io.c`), `dict_free`, and
  the failure paths of `calloc` in `dict_load` and of `malloc` in
  `decode_string`. The model's `Dict.Load` starts from the file's
  bytes, and it has no allocation and no freeing.
- The command-line driver `src/main.c`. It reads files, opens the output
  stream and prints messages, all of which are I/O.
- Output through `FILE*`. On a failure, the C decoder may already have
  written part of the JSON text. The model returns an error and no text.
- The unreferenced helpers `decode_enum`, `decode_set`, `decode_array` and
  `json_write_name`. `decode_value` does not call them.
- The 64-bit wrap in the skip checks. The checks `s->pos + skip_len > s->size`
  for an annotation member and `s->pos + len > s->size` for a Null add in
  64-bit unsigned arithmetic. The declared length comes from an 8-byte
  nnint, so a length of at least 2^64 - pos wraps the sum at any buffer
  size. The C then accepts the value and moves `pos` backwards. The model
  does not wrap: it reports such a Null or annotation as truncated, and the
  decoder never rewinds. `DecoderFacts.SkipAsWritten` models the check as
  written, and `DecoderFacts.NullSkipRewinds` gives an input where the two
  differ (see "## Findings").
- Decoder.DecodeInteger: an 8-byte Integer is read as two's complement. The C
  code shifts a byte into the sign bit of an `int64_t`, which is undefined
  behaviour, and the model follows what compilers do with it.
  `Bytes.SignExtendAgrees` shows that the sign extension agrees with this
  reading.
- Decoder.ReadSignedPart: the whole part and the exponent of a Real are read
  as two's complement at every width from 1 to 8. For an 8-byte field,
  `decode_real` makes the same undefined shift into the sign bit of an
  `int64_t` as the Integer case, and the model makes the same choice.
- Bytes.SignExtendAgrees: the C sign-extends a short Integer or Real field by
  writing 0xFF into the upper bytes of the `int64_t` through a byte pointer.
  That is sign extension only on a little-endian host, and the model follows
  that host. On a big-endian host, the C would print the one-byte Integer
  0xFF as 72057594037927935 instead of -1.
- The indentation level after a failure. A failed decode inside a non-empty
  Set or Array returns before the C restores the global `pp_level`. A later
  call to `bej_decode_to_json` in the same process then indents deeper. The
  model starts every document at depth 0 and keeps no state between calls.
- Decoder.DecodeValue: the selector bit of a value's own SFL is ignored, as
  in the code. So an annotation-selected value at the root or inside an Array
  is decoded like a major value. The format descriptions treat annotations
  separately; the code does not, and the model follows the code.
- Decoder.DecodeValue: the decoder is modelled only for a dictionary whose
  child ranges lie inside the entry table and whose names are NUL-terminated
  inside the file (`Dict.WellFormed`). Otherwise the C code may read out of
  bounds when the decode reaches such a record or name. The requirement also
  excludes dictionaries whose bad records the decode never visits, which
  the C handles fine.
- RoundTrip.DecodeEncoded: the round trip covers values whose counts,
  lengths and nnints are below 2^64, and whose sequence numbers fit 16 bits
  (`ValueTree.Encodable`). Other values cannot be encoded.

## Findings

| source | as written | input that shows it | evidently intended | confidence | as-written member | corrected member |
|---|---|---|---|---|---|---|
| src/bej_decode.c:388 | `s->pos + skip_len > s->size` here and `s->pos + len > s->size` at line 441 are computed in 64-bit unsigned arithmetic and wrap for a declared length of at least 2^64 - pos, after which the skip moves the stream backwards | a 20-byte buffer with a Null of length 2^64 - 1 at offset 10: the check passes and `pos` becomes 9 | reject any Null or annotation whose length does not fit in the bytes left | high (not executed) | DecoderFacts.SkipAsWritten, DecoderFacts.NullSkipRewinds | Decoder.DecodeNull, DecoderFacts.NullSkipForward |
