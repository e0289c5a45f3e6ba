/** Behaviour of the decoder that holds whatever the bytes around it are:
    the formats it refuses, the members it steps over, the way it falls
    back when the dictionary has no entry, and the header's error code. */
module DecoderFacts {
  import opened Bytes
  import opened Results
  import opened Stream
  import opened Dict
  import opened Decimal
  import opened JsonText
  import opened Decoder
  import opened DecodeSteps

  /** A value whose format has no case in the decoder (Choice,
      ResourceLink, PropertyAnnotation and the unassigned codes) fails
      once its SFL has been read, before any byte of its body is looked
      at. */
  lemma UnsupportedFormatFails(d: Dictionary, data: seq<byte>, pos: nat, cur: Option<Subset>, depth: nat,
                               sfl: Sfl, q: nat)
    requires WellFormed(d) && OptSubsetIn(d, cur) && pos <= |data|
    requires ReadSfl(data, pos) == Ok(Read(sfl, q)) && !Supported(sfl.format)
    ensures DecodeValue(d, data, pos, cur, depth) == Err(UnsupportedFormat)
  {
    ScalarStep(d, data, pos, cur, depth, sfl, q);
  }

  /** An annotation member whose declared length runs past the end of the
      buffer makes the whole member list fail (the sum of position and
      length is not wrapped; see `SkipAsWritten` for the C's 64-bit sum). */
  lemma AnnotationOverrun(d: Dictionary, data: seq<byte>, pos: nat, count: nat, kids: Option<Subset>,
                          depth: nat, first: bool, sfl: Sfl, q: nat)
    requires WellFormed(d) && OptSubsetIn(d, kids) && pos <= |data| && count > 0
    requires ReadSfl(data, pos) == Ok(Read(sfl, q)) && sfl.Selector() == SELECTOR_ANNOTATION
    requires q + sfl.length > |data|
    ensures DecodeMembers(d, data, pos, count, kids, depth, first) == Err(Truncated)
  {
  }

  /** A major Set member with no named entry in the Set's subset whose
      value is itself a Set: the key is `"_<seq>"`, and because the value
      is decoded with no subset, its own members are named from the
      children of the dictionary root, not from any entry of the
      enclosing Set. */
  lemma UnnamedSetMemberUsesRoot(d: Dictionary, data: seq<byte>, pos: nat, count: nat, kids: Option<Subset>,
                                 depth: nat, first: bool, sfl: Sfl, q: nat, n: nat, r: nat, body: string,
                                 mid: nat, rest: string, end: nat)
    requires WellFormed(d) && OptSubsetIn(d, kids) && pos <= |data| && count > 0
    requires ReadSfl(data, pos) == Ok(Read(sfl, q))
    requires sfl.Selector() == SELECTOR_MAJOR && sfl.format == FMT_SET
    requires MemberName(d, kids, sfl.SeqNum()).None?
    requires ReadNnint(data, q) == Ok(Read(n, r)) && n > 0
    requires DecodeMembers(d, data, r, n, Some(Children(d, -1)), depth + 1, true) == Ok(Read(body, mid))
    requires mid <= |data| && DecodeMembers(d, data, mid, count - 1, kids, depth, false) == Ok(Read(rest, end))
    ensures MemberKey(MemberName(d, kids, sfl.SeqNum()), sfl.SeqNum()) == "\"_" + NatToString(sfl.SeqNum()) + "\""
    ensures DecodeMembers(d, data, pos, count, kids, depth, first)
      == Ok(Read(Separator(first, depth) + MemberKey(None, sfl.SeqNum()) + ": "
                 + ("{" + NewLine(depth + 1) + body + NewLine(depth) + "}") + rest, end))
  {
    var value := "{" + NewLine(depth + 1) + body + NewLine(depth) + "}";
    SetStep(d, data, pos, None, depth, sfl, q, n, r, body, mid);
    MajorMemberStep(d, data, pos, count, kids, depth, first, sfl, q, sfl.SeqNum(), None, value, mid, rest, end,
                    Separator(first, depth) + MemberKey(None, sfl.SeqNum()) + ": " + value + rest);
  }

  /** An Enum whose field has an entry, but whose index (cut to 16 bits)
      names no variant among that entry's children, prints the raw
      index. */
  lemma EnumVariantMissing(d: Dictionary, cur: Option<Subset>, fieldSeq: nat, index: nat, field: nat)
    requires WellFormed(d) && OptSubsetIn(d, cur)
    requires ChildBySeq(d, cur, fieldSeq) == Some(field)
    requires ChildBySeq(d, Some(Children(d, field)), index % 0x1_0000).None?
    ensures EnumText(d, cur, fieldSeq, index) == NatToString(index)
  {
  }

  /** An Enum whose variant is found and named prints that name as a JSON
      string; the variant has the index as its sequence number and lies
      among the children of the field's entry. */
  lemma EnumVariantNamed(d: Dictionary, cur: Option<Subset>, fieldSeq: nat, index: nat, field: nat,
                         variant: nat, name: seq<byte>)
    requires WellFormed(d) && OptSubsetIn(d, cur)
    requires ChildBySeq(d, cur, fieldSeq) == Some(field)
    requires ChildBySeq(d, Some(Children(d, field)), index % 0x1_0000) == Some(variant)
    requires NameOf(d, variant) == Some(name)
    ensures EnumText(d, cur, fieldSeq, index) == Quoted(name)
    ensures InSubset(Some(Children(d, field)), variant) && d.entries[variant].seqNum == index % 0x1_0000
    ensures Unescape(Quoted(name)[1..|Quoted(name)| - 1]) == Some(name)
  {
    EscapedRoundTrip(name);
    assert Quoted(name)[1..|Quoted(name)| - 1] == Escaped(name);
  }

  /** An Enum whose variant is found but has no name prints the raw
      index, as when the variant is missing. */
  lemma EnumVariantUnnamed(d: Dictionary, cur: Option<Subset>, fieldSeq: nat, index: nat, field: nat,
                           variant: nat)
    requires WellFormed(d) && OptSubsetIn(d, cur)
    requires ChildBySeq(d, cur, fieldSeq) == Some(field)
    requires ChildBySeq(d, Some(Children(d, field)), index % 0x1_0000) == Some(variant)
    requires NameOf(d, variant).None?
    ensures EnumText(d, cur, fieldSeq, index) == NatToString(index)
  {
  }

  /** Entry i is the first entry of subset s with sequence number seqNum. */
  predicate FirstWithSeq(d: Dictionary, s: Option<Subset>, seqNum: nat, i: nat) {
    && InSubset(s, i) && i < |d.entries| && d.entries[i].seqNum == seqNum
    && forall j: nat :: InSubset(s, j) && j < i ==> d.entries[j].seqNum != seqNum
  }

  /** A member is keyed by the name of the first entry of the Set's subset
      with its sequence number, when that name is non-empty. */
  lemma NamedMemberKey(d: Dictionary, kids: Option<Subset>, seqNum: nat, i: nat, name: seq<byte>)
    requires WellFormed(d) && OptSubsetIn(d, kids) && FirstWithSeq(d, kids, seqNum, i)
    requires NameOf(d, i) == Some(name) && |name| > 0
    ensures MemberName(d, kids, seqNum) == Some(name)
    ensures MemberKey(MemberName(d, kids, seqNum), seqNum) == Quoted(name)
  {
    FirstIsFound(d, kids, seqNum, i);
  }

  /** A member whose first matching entry has no name, or an empty one,
      is keyed `"_<seq>"`. */
  lemma UnnamedMemberKey(d: Dictionary, kids: Option<Subset>, seqNum: nat, i: nat)
    requires WellFormed(d) && OptSubsetIn(d, kids) && FirstWithSeq(d, kids, seqNum, i)
    requires NameOf(d, i).None? || NameOf(d, i) == Some([])
    ensures MemberName(d, kids, seqNum).None?
    ensures MemberKey(MemberName(d, kids, seqNum), seqNum) == "\"_" + NatToString(seqNum) + "\""
  {
    FirstIsFound(d, kids, seqNum, i);
  }

  /** The elements of an Array, and the members of a Set inside a subset,
      are all decoded against the children of the first entry of the
      enclosing subset with the container's sequence number. */
  lemma ContainerSubsets(d: Dictionary, cur: Option<Subset>, seqNum: nat, i: nat)
    requires WellFormed(d) && OptSubsetIn(d, cur) && FirstWithSeq(d, cur, seqNum, i)
    ensures ArraySchema(d, cur, seqNum) == Some(Children(d, i))
    ensures SetSchema(d, cur, seqNum) == Some(Children(d, i))
  {
    FirstIsFound(d, cur, seqNum, i);
  }

  /** The first entry with a sequence number is the one the lookup finds. */
  lemma FirstIsFound(d: Dictionary, s: Option<Subset>, seqNum: nat, i: nat)
    requires OptSubsetIn(d, s) && FirstWithSeq(d, s, seqNum, i)
    ensures ChildBySeq(d, s, seqNum) == Some(i)
  {
  }

  /** A schema class other than 0 or 1 is reported with return code -2,
      every other failure of the document with -1. */
  lemma DocumentErrorCodes(d: Dictionary, bej: seq<byte>)
    requires WellFormed(d)
    ensures |bej| >= HEADER_LENGTH && bej[6] > 1 ==> DecodeToJson(d, bej).Err? && DecodeToJson(d, bej).error.Code() == -2
    ensures |bej| < HEADER_LENGTH ==> DecodeToJson(d, bej).Err? && DecodeToJson(d, bej).error.Code() == -1
    ensures DecodeToJson(d, bej).Err? && DecodeToJson(d, bej).error != BadSchemaClass ==>
      DecodeToJson(d, bej).error.Code() == -1
  {
  }

  /** The bounds check before a Null or annotation skip as the C code
      writes it: `pos + len > size` on 64-bit unsigned integers, so the
      sum wraps, and a passing check moves `pos` to the wrapped sum. */
  function SkipAsWritten(size: nat, pos: nat, length: nat): (r: Option<nat>)
    requires size < Pow256(8) && pos <= size && length < Pow256(8)
    ensures pos + length < Pow256(8) ==> (r.Some? <==> pos + length <= size)
    ensures pos + length < Pow256(8) && r.Some? ==> r.value == pos + length
    ensures pos + length >= Pow256(8) ==> r.Some? && r.value < pos
  {
    var sum := (pos + length) % Pow256(8);
    if sum > size then None else Some(sum)
  }

  /** A 20-byte buffer with a Null of length 2^64 - 1 at offset 10: the
      check as written passes and moves the stream back to offset 9, while
      `DecodeNull` reports the value as truncated. */
  lemma NullSkipRewinds(data: seq<byte>)
    requires |data| == 20
    ensures Pow256(8) == 0x1_0000_0000_0000_0000
    ensures SkipAsWritten(20, 10, Pow256(8) - 1) == Some(9)
    ensures DecodeNull(data, 10, Pow256(8) - 1) == Err(Truncated)
  {
  }

  /** The intended check never moves backwards: a Null that is accepted
      ends at or after its start and inside the buffer. */
  lemma NullSkipForward(data: seq<byte>, pos: nat, length: nat)
    requires pos <= |data|
    ensures DecodeNull(data, pos, length).Ok? ==>
      pos <= DecodeNull(data, pos, length).value.pos <= |data|
    ensures DecodeNull(data, pos, length).Err? <==> pos + length > |data|
  {
  }
}
