/** The decoder inverts the encoder: the bytes of any encodable value tree
    decode to that tree's JSON text and are consumed exactly.

    The proof has two kinds of steps. The lemmas named `...Of` turn "these
    encoder bytes sit at pos" into the result of one read; the lemmas of
    `DecodeSteps` assemble read results into the result of a decoding
    function. */
module RoundTrip {
  import opened Bytes
  import opened Results
  import opened Stream
  import opened Dict
  import opened JsonText
  import opened Decoder
  import opened DecodeSteps
  import opened ValueTree

  /** The body is part of the encoding, so it is no longer. */
  lemma BodyFits(v: Value)
    ensures |Body(v)| <= |Encode(v)|
  {
  }

  /** The body of a Set or an Array is its count followed by its members
      or elements; the body of a Real is its four fields. */
  lemma BodyOf(v: Value)
    ensures v.SetValue? ==> Body(v) == EncodeNnint(|v.members|) + EncodeMembers(v, 0)
    ensures v.ArrayValue? ==> Body(v) == EncodeNnint(|v.elements|) + EncodeElements(v, 0)
    ensures v.RealValue? ==> Body(v) == RealBytes(v.parts, v.wholeWidth, v.exponentWidth)
  {
  }

  /** The SFL a major value is written with. */
  function HeaderOf(v: Value): Sfl {
    Sfl(2 * v.seqNum, FormatOf(v), 0, |Body(v)|)
  }

  /** The SFL at the start of an encoded value is read back as the SFL it
      was written with, and the body follows it. */
  lemma ReadHeaderOf(data: seq<byte>, pos: nat, v: Value, q: nat, end: nat)
    requires v.seqNum < 65536 && |Body(v)| < Pow256(8) && At(data, pos, Encode(v))
    requires end == pos + |Encode(v)| && q + |Body(v)| == end
    ensures ReadSfl(data, pos) == Ok(Read(HeaderOf(v), q))
    ensures HeaderOf(v).Selector() == SELECTOR_MAJOR && HeaderOf(v).SeqNum() == v.seqNum
    ensures At(data, q, Body(v))
  {
    ReadSflBefore(data, pos, v.seqNum, SELECTOR_MAJOR, FormatOf(v), |Body(v)|, Body(v), q);
  }

  /** The SFL an annotation member is written with. */
  function AnnotationSfl(m: Member): Sfl
    requires m.Annotation?
  {
    Sfl(2 * m.annotationSeq + SELECTOR_ANNOTATION, m.annotationFormat % 16, 0, |m.annotationPayload|)
  }

  /** An annotation member is its SFL followed by its payload. */
  lemma AnnotationBytes(m: Member)
    requires m.Annotation?
    ensures EncodeMember(m)
      == SflBytes(m.annotationSeq, SELECTOR_ANNOTATION, m.annotationFormat % 16, 0, |m.annotationPayload|)
         + m.annotationPayload
  {
  }

  /** The SFL of an annotation member is read back with the annotation
      selector and the payload length, and the payload ends the member. */
  lemma ReadAnnotationOf(data: seq<byte>, pos: nat, m: Member, q: nat, next: nat)
    requires m.Annotation? && MemberEncodable(m) && At(data, pos, EncodeMember(m))
    requires next == pos + |EncodeMember(m)| && q + |m.annotationPayload| == next
    ensures ReadSfl(data, pos) == Ok(Read(AnnotationSfl(m), q))
    ensures AnnotationSfl(m).Selector() == SELECTOR_ANNOTATION && q + AnnotationSfl(m).length == next
  {
    var s, f, p := m.annotationSeq, m.annotationFormat % 16, m.annotationPayload;
    var hdr := SflBytes(s, SELECTOR_ANNOTATION, f, 0, |p|);
    assert At(data, pos, hdr + p) && q + |p| == pos + |hdr + p| by { AnnotationBytes(m); }
    ReadSflBefore(data, pos, s, SELECTOR_ANNOTATION, f, |p|, p, q);
    assert AnnotationSfl(m) == Sfl(2 * s + SELECTOR_ANNOTATION, f, 0, |p|);
  }

  /** An SFL followed by more bytes is read back as in `ReadSflOf`. */
  lemma ReadSflBefore(data: seq<byte>, pos: nat, seqNum: nat, selector: nat, format: nat, length: nat,
                      rest: seq<byte>, q: nat)
    requires seqNum < 65536 && selector < 2 && format < 16 && length < Pow256(8)
    requires At(data, pos, SflBytes(seqNum, selector, format, 0, length) + rest)
    requires q + |rest| == pos + |SflBytes(seqNum, selector, format, 0, length) + rest|
    ensures ReadSfl(data, pos) == Ok(Read(Sfl(2 * seqNum + selector, format, 0, length), q))
    ensures Sfl(2 * seqNum + selector, format, 0, length).Selector() == selector
    ensures Sfl(2 * seqNum + selector, format, 0, length).SeqNum() == seqNum
    ensures At(data, q, rest)
  {
    var hdr := SflBytes(seqNum, selector, format, 0, length);
    SflThen(data, pos, hdr, rest, q);
    ReadSflOf(data, pos, seqNum, selector, format, 0, length, q);
  }

  /** A header followed by more bytes: the header sits at pos and the
      rest at q, right after it. */
  lemma SflThen(data: seq<byte>, pos: nat, hdr: seq<byte>, rest: seq<byte>, q: nat)
    requires At(data, pos, hdr + rest) && q + |rest| == pos + |hdr + rest|
    ensures At(data, pos, hdr) && q == pos + |hdr| && At(data, q, rest)
  {
    AtSplit(data, pos, hdr, rest);
  }

  /** Bytes sitting at pos are what a read of that many bytes returns. */
  lemma ReadBytesOf(data: seq<byte>, pos: nat, s: seq<byte>)
    requires At(data, pos, s)
    ensures ReadBytes(data, pos, |s|) == Ok(Read(s, pos + |s|))
  {
    AtIsSlice(data, pos, s);
  }

  /** An nnint followed by more bytes: the read, and where the rest sits. */
  lemma NnintThenOf(data: seq<byte>, pos: nat, v: nat, enc: seq<byte>, rest: seq<byte>)
    requires v < Pow256(8) && enc == EncodeNnint(v) && At(data, pos, enc + rest)
    ensures ReadNnint(data, pos) == Ok(Read(v, pos + |enc|))
    ensures At(data, pos + |enc|, rest)
  {
    AtSplit(data, pos, enc, rest);
    ReadEncodedNnint(data, pos, v);
  }

  lemma ReadSignedFieldOf(data: seq<byte>, pos: nat, v: int, width: nat)
    requires SignedFieldFits(v, width) && At(data, pos, SignedField(v, width))
    ensures ReadSigned(data, pos, width) == Ok(Read(v, pos + width))
  {
    if width > 0 {
      ReadBytesOf(data, pos, SignedField(v, width));
      SignedOfSignedBytes(v, width);
    }
  }

  lemma ReadSignedPartOf(data: seq<byte>, pos: nat, v: int, width: nat, end: nat)
    requires SignedFieldFits(v, width) && At(data, pos, SignedPart(v, width)) && end == pos + |SignedPart(v, width)|
    ensures ReadSignedPart(data, pos) == Ok(Read(v, end))
  {
    var f := SignedField(v, width);
    Pow256Eight();
    NnintThenOf(data, pos, width, EncodeNnint(width), f);
    var q := pos + |EncodeNnint(width)|;
    ReadSignedFieldOf(data, q, v, width);
    SignedPartStep(data, pos, width, q, v, end);
  }

  /** The last three fields of a Real, ending at p2, p3 and end. */
  lemma ReadRealTailOf(data: seq<byte>, pos: nat, p: RealParts, ew: nat, p2: nat, p3: nat, end: nat)
    requires SignedFieldFits(p.exponent, ew) && p.leadingZeros < Pow256(8) && p.fraction < Pow256(8)
    requires At(data, pos, EncodeNnint(p.leadingZeros) + (EncodeNnint(p.fraction) + SignedPart(p.exponent, ew)))
    requires p2 == pos + |EncodeNnint(p.leadingZeros)| && p3 == p2 + |EncodeNnint(p.fraction)|
    requires end == p3 + |SignedPart(p.exponent, ew)|
    ensures ReadNnint(data, pos) == Ok(Read(p.leadingZeros, p2))
    ensures ReadNnint(data, p2) == Ok(Read(p.fraction, p3))
    ensures ReadSignedPart(data, p3) == Ok(Read(p.exponent, end))
  {
    var nz := EncodeNnint(p.leadingZeros);
    var nf := EncodeNnint(p.fraction);
    var se := SignedPart(p.exponent, ew);
    NnintThenOf(data, pos, p.leadingZeros, nz, nf + se);
    NnintThenOf(data, p2, p.fraction, nf, se);
    ReadSignedPartOf(data, p3, p.exponent, ew, end);
  }

  lemma ReadRealBytesOf(data: seq<byte>, pos: nat, p: RealParts, ww: nat, ew: nat, end: nat)
    requires SignedFieldFits(p.whole, ww) && SignedFieldFits(p.exponent, ew)
    requires p.leadingZeros < Pow256(8) && p.fraction < Pow256(8)
    requires At(data, pos, RealBytes(p, ww, ew)) && end == pos + |RealBytes(p, ww, ew)|
    ensures ReadRealParts(data, pos) == Ok(Read(p, end))
  {
    var sw := SignedPart(p.whole, ww);
    var nz := EncodeNnint(p.leadingZeros);
    var nf := EncodeNnint(p.fraction);
    var se := SignedPart(p.exponent, ew);
    AtSplit(data, pos, sw, nz + (nf + se));
    var p1 := pos + |sw|;
    var p2 := p1 + |nz|;
    var p3 := p2 + |nf|;
    assert end == p3 + |se|;
    ReadSignedPartOf(data, pos, p.whole, ww, p1);
    ReadRealTailOf(data, p1, p, ew, p2, p3, end);
    RealPartsStep(data, pos, p, p1, p2, p3, end);
  }

  /** The body of an encoded scalar decodes to the scalar's text, one
      lemma per format; `end` is where the body ends. */
  lemma DecodeStringOf(d: Dictionary, data: seq<byte>, pos: nat, cur: Option<Subset>, depth: nat, v: Value, end: nat)
    requires WellFormed(d) && OptSubsetIn(d, cur) && pos <= |data|
    requires v.StringValue? && Encodable(v) && At(data, pos, Body(v)) && end == pos + |Body(v)|
    ensures DecodeScalar(d, data, pos, HeaderOf(v), cur) == Ok(Read(Render(d, cur, v, depth), end))
  {
    ReadBytesOf(data, pos, v.payload + [0]);
    StringStep(data, pos, v.payload);
    StringScalarOf(d, data, pos, cur, depth, v, HeaderOf(v), end);
  }

  /** A String whose declared length holds its payload and the NUL after
      it decodes to its rendering. */
  lemma StringScalarOf(d: Dictionary, data: seq<byte>, pos: nat, cur: Option<Subset>, depth: nat, v: Value,
                       sfl: Sfl, end: nat)
    requires WellFormed(d) && OptSubsetIn(d, cur) && pos <= |data|
    requires v.StringValue? && sfl.format == FMT_STRING && sfl.length == |v.payload| + 1 && end == pos + sfl.length
    requires DecodeString(data, pos, sfl.length) == Ok(Read(Quoted(v.payload), end))
    ensures DecodeScalar(d, data, pos, sfl, cur) == Ok(Read(Render(d, cur, v, depth), end))
  {
  }

  lemma DecodeIntegerOf(d: Dictionary, data: seq<byte>, pos: nat, cur: Option<Subset>, depth: nat, v: Value, end: nat)
    requires WellFormed(d) && OptSubsetIn(d, cur) && pos <= |data|
    requires v.IntegerValue? && Encodable(v) && At(data, pos, Body(v)) && end == pos + |Body(v)|
    ensures DecodeScalar(d, data, pos, HeaderOf(v), cur) == Ok(Read(Render(d, cur, v, depth), end))
  {
    ReadSignedFieldOf(data, pos, v.number, v.width);
  }

  lemma DecodeRealOf(d: Dictionary, data: seq<byte>, pos: nat, cur: Option<Subset>, depth: nat, v: Value, end: nat)
    requires WellFormed(d) && OptSubsetIn(d, cur) && pos <= |data|
    requires v.RealValue? && Encodable(v) && At(data, pos, Body(v)) && end == pos + |Body(v)|
    ensures DecodeScalar(d, data, pos, HeaderOf(v), cur) == Ok(Read(Render(d, cur, v, depth), end))
  {
    BodyOf(v);
    ReadRealBytesOf(data, pos, v.parts, v.wholeWidth, v.exponentWidth, end);
    RealScalarOf(d, data, pos, cur, depth, v, HeaderOf(v), end);
  }

  /** A Real whose four fields fill the length its SFL declares decodes to
      its rendering. */
  lemma RealScalarOf(d: Dictionary, data: seq<byte>, pos: nat, cur: Option<Subset>, depth: nat, v: Value,
                     sfl: Sfl, end: nat)
    requires WellFormed(d) && OptSubsetIn(d, cur) && pos <= |data|
    requires v.RealValue? && sfl.format == FMT_REAL && end == pos + sfl.length
    requires ReadRealParts(data, pos) == Ok(Read(v.parts, end))
    ensures DecodeScalar(d, data, pos, sfl, cur) == Ok(Read(Render(d, cur, v, depth), end))
  {
  }

  lemma DecodeBooleanOf(d: Dictionary, data: seq<byte>, pos: nat, cur: Option<Subset>, depth: nat, v: Value, end: nat)
    requires WellFormed(d) && OptSubsetIn(d, cur) && pos <= |data|
    requires v.BooleanValue? && At(data, pos, Body(v)) && end == pos + |Body(v)|
    ensures DecodeScalar(d, data, pos, HeaderOf(v), cur) == Ok(Read(Render(d, cur, v, depth), end))
  {
    AtIsSlice(data, pos, Body(v));
    assert data[pos] == data[pos..end][0];
  }

  lemma DecodeEnumOf(d: Dictionary, data: seq<byte>, pos: nat, cur: Option<Subset>, depth: nat, v: Value, end: nat)
    requires WellFormed(d) && OptSubsetIn(d, cur) && pos <= |data|
    requires v.EnumValue? && Encodable(v) && At(data, pos, Body(v)) && end == pos + |Body(v)|
    ensures DecodeScalar(d, data, pos, HeaderOf(v), cur) == Ok(Read(Render(d, cur, v, depth), end))
  {
    Pow256Eight();
    ReadEncodedNnint(data, pos, v.index);
    SplitSelector(v.seqNum, SELECTOR_MAJOR);
    EnumScalarOf(d, data, pos, cur, depth, v, HeaderOf(v), end);
  }

  /** An Enum whose index is the nnint at pos decodes to its rendering. */
  lemma EnumScalarOf(d: Dictionary, data: seq<byte>, pos: nat, cur: Option<Subset>, depth: nat, v: Value,
                     sfl: Sfl, end: nat)
    requires WellFormed(d) && OptSubsetIn(d, cur) && pos <= |data|
    requires v.EnumValue? && sfl.format == FMT_ENUM && sfl.SeqNum() == v.seqNum
    requires ReadNnint(data, pos) == Ok(Read(v.index, end))
    ensures DecodeScalar(d, data, pos, sfl, cur) == Ok(Read(Render(d, cur, v, depth), end))
  {
  }

  lemma DecodeNullOf(d: Dictionary, data: seq<byte>, pos: nat, cur: Option<Subset>, depth: nat, v: Value, end: nat)
    requires WellFormed(d) && OptSubsetIn(d, cur) && pos <= |data|
    requires v.NullValue? && end == pos + |Body(v)|
    ensures DecodeScalar(d, data, pos, HeaderOf(v), cur) == Ok(Read(Render(d, cur, v, depth), end))
  {
  }

  lemma DecodeScalarOf(d: Dictionary, data: seq<byte>, pos: nat, cur: Option<Subset>, depth: nat, v: Value, end: nat)
    requires WellFormed(d) && OptSubsetIn(d, cur) && pos <= |data|
    requires !v.SetValue? && !v.ArrayValue? && Encodable(v) && At(data, pos, Body(v)) && end == pos + |Body(v)|
    ensures DecodeScalar(d, data, pos, HeaderOf(v), cur) == Ok(Read(Render(d, cur, v, depth), end))
  {
    if v.StringValue? {
      DecodeStringOf(d, data, pos, cur, depth, v, end);
    } else if v.IntegerValue? {
      DecodeIntegerOf(d, data, pos, cur, depth, v, end);
    } else if v.RealValue? {
      DecodeRealOf(d, data, pos, cur, depth, v, end);
    } else if v.BooleanValue? {
      DecodeBooleanOf(d, data, pos, cur, depth, v, end);
    } else if v.EnumValue? {
      DecodeEnumOf(d, data, pos, cur, depth, v, end);
    } else {
      DecodeNullOf(d, data, pos, cur, depth, v, end);
    }
  }

  /** The text of a non-empty Set, around the text of its members. */
  lemma RenderSetOf(d: Dictionary, cur: Option<Subset>, v: Value, depth: nat, body: string)
    requires WellFormed(d) && OptSubsetIn(d, cur) && v.SetValue? && |v.members| > 0
    requires body == RenderMembers(d, SetSchema(d, cur, v.seqNum), v, 0, depth + 1, true)
    ensures Render(d, cur, v, depth) == "{" + NewLine(depth + 1) + body + NewLine(depth) + "}"
  {
  }

  /** The text of a non-empty Array, around the text of its elements. */
  lemma RenderArrayOf(d: Dictionary, cur: Option<Subset>, v: Value, depth: nat, body: string)
    requires WellFormed(d) && OptSubsetIn(d, cur) && v.ArrayValue? && |v.elements| > 0
    requires body == RenderElements(d, ArraySchema(d, cur, v.seqNum), v, 0, depth + 1, true)
    ensures Render(d, cur, v, depth) == "[" + NewLine(depth + 1) + body + NewLine(depth) + "]"
  {
  }

  /** The encoding of v sits in data from pos to end, less than 2^64
      bytes on. */
  predicate Placed(data: seq<byte>, pos: nat, v: Value, end: nat) {
    Encodable(v) && At(data, pos, Encode(v)) && end == pos + |Encode(v)| && end < pos + Pow256(8)
  }

  /** The encoded members of a Set sit in data from pos to end. */
  predicate MembersPlaced(data: seq<byte>, pos: nat, parent: Value, end: nat) {
    && parent.SetValue? && Encodable(parent)
    && At(data, pos, EncodeMembers(parent, 0)) && end == pos + |EncodeMembers(parent, 0)| && end < pos + Pow256(8)
  }

  /** The encoded elements of an Array sit in data from pos to end. */
  predicate ElementsPlaced(data: seq<byte>, pos: nat, parent: Value, end: nat) {
    && parent.ArrayValue? && Encodable(parent)
    && At(data, pos, EncodeElements(parent, 0)) && end == pos + |EncodeElements(parent, 0)| && end < pos + Pow256(8)
  }

  /** Decoding the bytes of an encodable value yields its text and stops
      right after them (at `end`), whatever the surrounding bytes are. */
  lemma {:induction false} DecodeEncoded(d: Dictionary, data: seq<byte>, pos: nat, cur: Option<Subset>,
                                         depth: nat, v: Value, end: nat)
    requires WellFormed(d) && OptSubsetIn(d, cur) && Placed(data, pos, v, end)
    ensures DecodeValue(d, data, pos, cur, depth) == Ok(Read(Render(d, cur, v, depth), end))
    decreases v, 4
  {
    BodyFits(v);
    var q := end - |Body(v)|;
    ReadHeaderOf(data, pos, v, q, end);
    if v.SetValue? {
      DecodeEncodedSet(d, data, pos, cur, depth, v, q, end);
    } else if v.ArrayValue? {
      DecodeEncodedArray(d, data, pos, cur, depth, v, q, end);
    } else {
      ScalarStep(d, data, pos, cur, depth, HeaderOf(v), q);
      DecodeScalarOf(d, data, q, cur, depth, v, end);
    }
  }

  /** The body of an encoded Set is its member count, read back, and its
      members, placed right after it. */
  lemma SetBodyRead(data: seq<byte>, q: nat, v: Value, end: nat)
    requires v.SetValue? && Encodable(v) && At(data, q, Body(v)) && end == q + |Body(v)| && end < q + Pow256(8)
    ensures ReadNnint(data, q) == Ok(Read(|v.members|, q + |EncodeNnint(|v.members|)|))
    ensures MembersPlaced(data, q + |EncodeNnint(|v.members|)|, v, end)
  {
    BodyOf(v);
    Pow256Eight();
    NnintThenOf(data, q, |v.members|, EncodeNnint(|v.members|), EncodeMembers(v, 0));
  }

  /** The body of an encoded Array is its element count, read back, and
      its elements, placed right after it. */
  lemma ArrayBodyRead(data: seq<byte>, q: nat, v: Value, end: nat)
    requires v.ArrayValue? && Encodable(v) && At(data, q, Body(v)) && end == q + |Body(v)| && end < q + Pow256(8)
    ensures ReadNnint(data, q) == Ok(Read(|v.elements|, q + |EncodeNnint(|v.elements|)|))
    ensures ElementsPlaced(data, q + |EncodeNnint(|v.elements|)|, v, end)
  {
    BodyOf(v);
    Pow256Eight();
    NnintThenOf(data, q, |v.elements|, EncodeNnint(|v.elements|), EncodeElements(v, 0));
  }

  lemma {:induction false} DecodeEncodedSet(d: Dictionary, data: seq<byte>, pos: nat, cur: Option<Subset>,
                                            depth: nat, v: Value, q: nat, end: nat)
    requires WellFormed(d) && OptSubsetIn(d, cur) && pos <= |data|
    requires v.SetValue? && Encodable(v)
    requires ReadSfl(data, pos) == Ok(Read(HeaderOf(v), q)) && HeaderOf(v).SeqNum() == v.seqNum
    requires At(data, q, Body(v)) && end == q + |Body(v)| && end < q + Pow256(8)
    ensures DecodeValue(d, data, pos, cur, depth) == Ok(Read(Render(d, cur, v, depth), end))
    decreases v, 3
  {
    var n := |v.members|;
    var r := q + |EncodeNnint(n)|;
    SetBodyRead(data, q, v, end);
    var kids := SetSchema(d, cur, v.seqNum);
    if n > 0 {
      DecodeEncodedMembers(d, data, r, kids, depth + 1, v, end);
      var body := RenderMembers(d, kids, v, 0, depth + 1, true);
      SetStep(d, data, pos, cur, depth, HeaderOf(v), q, n, r, body, end);
      RenderSetOf(d, cur, v, depth, body);
    } else {
      SetStep(d, data, pos, cur, depth, HeaderOf(v), q, n, r, "", r);
    }
  }

  lemma {:induction false} DecodeEncodedArray(d: Dictionary, data: seq<byte>, pos: nat, cur: Option<Subset>,
                                              depth: nat, v: Value, q: nat, end: nat)
    requires WellFormed(d) && OptSubsetIn(d, cur) && pos <= |data|
    requires v.ArrayValue? && Encodable(v)
    requires ReadSfl(data, pos) == Ok(Read(HeaderOf(v), q)) && HeaderOf(v).SeqNum() == v.seqNum
    requires At(data, q, Body(v)) && end == q + |Body(v)| && end < q + Pow256(8)
    ensures DecodeValue(d, data, pos, cur, depth) == Ok(Read(Render(d, cur, v, depth), end))
    decreases v, 3
  {
    var n := |v.elements|;
    var r := q + |EncodeNnint(n)|;
    ArrayBodyRead(data, q, v, end);
    var elems := ArraySchema(d, cur, v.seqNum);
    if n > 0 {
      DecodeEncodedElements(d, data, r, elems, depth + 1, v, end);
      var body := RenderElements(d, elems, v, 0, depth + 1, true);
      ArrayStep(d, data, pos, cur, depth, HeaderOf(v), q, n, r, body, end);
      RenderArrayOf(d, cur, v, depth, body);
    } else {
      ArrayStep(d, data, pos, cur, depth, HeaderOf(v), q, n, r, "", r);
    }
  }

  /** How far the j-th member of a Set starts after the first one. */
  function MembersBefore(parent: Value, j: nat): nat
    requires parent.SetValue? && j <= |parent.members|
  {
    if j == 0 then 0 else MembersBefore(parent, j - 1) + |EncodeMember(parent.members[j - 1])|
  }

  /** The members from j on sit where the members before j end. */
  lemma {:induction false} AtMembers(data: seq<byte>, pos: nat, parent: Value, j: nat)
    requires parent.SetValue? && j <= |parent.members| && At(data, pos, EncodeMembers(parent, 0))
    ensures At(data, pos + MembersBefore(parent, j), EncodeMembers(parent, j))
    ensures MembersBefore(parent, j) + |EncodeMembers(parent, j)| == |EncodeMembers(parent, 0)|
    decreases j
  {
    if j > 0 {
      AtMembers(data, pos, parent, j - 1);
      AtSplit(data, pos + MembersBefore(parent, j - 1), EncodeMember(parent.members[j - 1]), EncodeMembers(parent, j));
    }
  }

  /** Where each member of a Set whose members start at pos begins, and
      where the last one ends. */
  function MembersBounds(parent: Value, pos: nat): (r: seq<nat>)
    requires parent.SetValue?
    ensures |r| == |parent.members| + 1
  {
    seq(|parent.members| + 1, j requires 0 <= j <= |parent.members| => pos + MembersBefore(parent, j))
  }

  /** What the member decoder sees of a member: an annotation, or a major
      member's sequence number and the text of its value. */
  function SeenOf(d: Dictionary, kids: Option<Subset>, m: Member, depth: nat): Seen
    requires WellFormed(d) && OptSubsetIn(d, kids)
  {
    match m
    case Annotation(_, _, _) => SeenAnnotation
    case Major(x) => SeenMajor(x.seqNum, Render(d, if MemberName(d, kids, x.seqNum).Some? then kids else None, x, depth))
  }

  function MembersSeen(d: Dictionary, kids: Option<Subset>, parent: Value, depth: nat): (r: seq<Seen>)
    requires WellFormed(d) && OptSubsetIn(d, kids) && parent.SetValue?
    ensures |r| == |parent.members|
  {
    seq(|parent.members|, j requires 0 <= j < |parent.members| => SeenOf(d, kids, parent.members[j], depth))
  }

  /** The text of a Set's members is the text of what is seen of them. */
  lemma {:induction false} RenderMembersSeen(d: Dictionary, kids: Option<Subset>, parent: Value, i: nat,
                                             depth: nat, first: bool)
    requires WellFormed(d) && OptSubsetIn(d, kids) && parent.SetValue? && i <= |parent.members|
    ensures RenderMembers(d, kids, parent, i, depth, first)
      == SeenText(d, kids, MembersSeen(d, kids, parent, depth), i, depth, first)
    decreases |parent.members| - i
  {
    if i < |parent.members| {
      if parent.members[i].Major? {
        RenderMembersSeen(d, kids, parent, i + 1, depth, false);
      } else {
        RenderMembersSeen(d, kids, parent, i + 1, depth, first);
      }
    }
  }

  /** The members of an encoded Set decode to their text and end where
      the Set does. */
  lemma DecodeEncodedMembers(d: Dictionary, data: seq<byte>, pos: nat, kids: Option<Subset>, depth: nat,
                             parent: Value, end: nat)
    requires WellFormed(d) && OptSubsetIn(d, kids) && MembersPlaced(data, pos, parent, end)
    ensures DecodeMembers(d, data, pos, |parent.members|, kids, depth, true)
      == Ok(Read(RenderMembers(d, kids, parent, 0, depth, true), end))
    decreases parent, 2
  {
    var seen := MembersSeen(d, kids, parent, depth);
    var bounds := MembersBounds(parent, pos);
    MembersSeenAt(d, data, pos, kids, depth, parent, end);
    MembersBoundsEnds(data, pos, parent, end);
    MembersFrom(d, data, kids, depth, true, seen, bounds, 0);
    RenderMembersSeen(d, kids, parent, 0, depth, true);
  }

  /** The first bound of a placed Set's members is where they start and
      the last is where they end. */
  lemma MembersBoundsEnds(data: seq<byte>, pos: nat, parent: Value, end: nat)
    requires MembersPlaced(data, pos, parent, end)
    ensures MembersBounds(parent, pos)[0] == pos
    ensures MembersBounds(parent, pos)[|parent.members|] == end <= |data|
  {
    AtMembers(data, pos, parent, |parent.members|);
  }

  /** Every member of an encoded Set is seen as what it encodes. */
  lemma MembersSeenAt(d: Dictionary, data: seq<byte>, pos: nat, kids: Option<Subset>, depth: nat,
                      parent: Value, end: nat)
    requires WellFormed(d) && OptSubsetIn(d, kids) && MembersPlaced(data, pos, parent, end)
    ensures var seen := MembersSeen(d, kids, parent, depth);
            var bounds := MembersBounds(parent, pos);
            forall j :: 0 <= j < |seen| ==> MemberSeenIn(d, data, kids, depth, seen, bounds, j)
    decreases parent, 1
  {
    var seen := MembersSeen(d, kids, parent, depth);
    var bounds := MembersBounds(parent, pos);
    forall j | 0 <= j < |seen|
      ensures MemberSeenIn(d, data, kids, depth, seen, bounds, j)
    {
      MemberSeenAt(d, data, pos, kids, depth, parent, j, end);
    }
  }

  /** The j-th entries of `MembersSeen` and `MembersBounds`. */
  lemma MembersIndex(d: Dictionary, kids: Option<Subset>, parent: Value, depth: nat, pos: nat, j: nat)
    requires WellFormed(d) && OptSubsetIn(d, kids) && parent.SetValue? && j < |parent.members|
    ensures MembersSeen(d, kids, parent, depth)[j] == SeenOf(d, kids, parent.members[j], depth)
    ensures MembersBounds(parent, pos)[j] == pos + MembersBefore(parent, j)
    ensures MembersBounds(parent, pos)[j + 1] == pos + MembersBefore(parent, j + 1)
  {
    MembersSeenIndex(d, kids, parent, depth, j);
    MembersBoundsIndex(parent, pos, j);
    MembersBoundsIndex(parent, pos, j + 1);
  }

  lemma MembersSeenIndex(d: Dictionary, kids: Option<Subset>, parent: Value, depth: nat, j: nat)
    requires WellFormed(d) && OptSubsetIn(d, kids) && parent.SetValue? && j < |parent.members|
    ensures MembersSeen(d, kids, parent, depth)[j] == SeenOf(d, kids, parent.members[j], depth)
  {
  }

  lemma MembersBoundsIndex(parent: Value, pos: nat, j: nat)
    requires parent.SetValue? && j <= |parent.members|
    ensures MembersBounds(parent, pos)[j] == pos + MembersBefore(parent, j)
  {
  }

  /** The encoded member m sits in data from b0 to b1. */
  predicate MemberPlacedAt(data: seq<byte>, b0: nat, m: Member, b1: nat) {
    MemberEncodable(m) && At(data, b0, EncodeMember(m)) && b1 == b0 + |EncodeMember(m)|
  }

  /** The j-th member of a Set sits where the members before it end, and
      ends no later than the last one. */
  lemma MemberPlaced(data: seq<byte>, pos: nat, parent: Value, j: nat, end: nat, b0: nat, b1: nat)
    requires MembersPlaced(data, pos, parent, end) && j < |parent.members|
    requires b0 == pos + MembersBefore(parent, j) && b1 == pos + MembersBefore(parent, j + 1)
    ensures MemberPlacedAt(data, b0, parent.members[j], b1) && pos <= b0 <= b1 <= end <= |data|
  {
    assert MemberEncodable(parent.members[j]);
    AtMembers(data, pos, parent, j);
    MemberAtFront(data, b0, parent, j);
    MembersBeforeLength(parent, j + 1);
  }

  /** The first of the members from j on sits where they all start. */
  lemma MemberAtFront(data: seq<byte>, b0: nat, parent: Value, j: nat)
    requires parent.SetValue? && j < |parent.members| && At(data, b0, EncodeMembers(parent, j))
    ensures At(data, b0, EncodeMember(parent.members[j]))
  {
    var e := EncodeMembers(parent, j);
    assert e == EncodeMember(parent.members[j]) + EncodeMembers(parent, j + 1);
    AtSplit(data, b0, EncodeMember(parent.members[j]), EncodeMembers(parent, j + 1));
  }

  /** The members before j and the members from j on make up all of
      them. */
  lemma {:induction false} MembersBeforeLength(parent: Value, j: nat)
    requires parent.SetValue? && j <= |parent.members|
    ensures MembersBefore(parent, j) + |EncodeMembers(parent, j)| == |EncodeMembers(parent, 0)|
    decreases j
  {
    if j > 0 {
      MembersBeforeLength(parent, j - 1);
    }
  }

  /** The j-th member of an encoded Set is seen as its entry of
      `MembersSeen`, between its entries of `MembersBounds`. */
  lemma MemberSeenAt(d: Dictionary, data: seq<byte>, pos: nat, kids: Option<Subset>, depth: nat,
                     parent: Value, j: nat, end: nat)
    requires WellFormed(d) && OptSubsetIn(d, kids) && MembersPlaced(data, pos, parent, end) && j < |parent.members|
    ensures MemberSeen(d, data, kids, depth, MembersSeen(d, kids, parent, depth)[j],
                       MembersBounds(parent, pos)[j], MembersBounds(parent, pos)[j + 1])
    decreases parent, 0
  {
    var seen := MembersSeen(d, kids, parent, depth);
    var bounds := MembersBounds(parent, pos);
    MembersIndex(d, kids, parent, depth, pos, j);
    MemberPlaced(data, pos, parent, j, end, bounds[j], bounds[j + 1]);
    MemberSeenOf(d, data, kids, depth, parent.members[j], seen[j], bounds[j], bounds[j + 1]);
  }

  /** An encoded member is seen as what it encodes. */
  lemma MemberSeenOf(d: Dictionary, data: seq<byte>, kids: Option<Subset>, depth: nat, m: Member, item: Seen,
                     b0: nat, b1: nat)
    requires WellFormed(d) && OptSubsetIn(d, kids) && item == SeenOf(d, kids, m, depth)
    requires MemberPlacedAt(data, b0, m, b1) && b1 <= |data| && b1 < b0 + Pow256(8)
    ensures MemberSeen(d, data, kids, depth, item, b0, b1)
    decreases m, 0
  {
    if m.Major? {
      MajorPlaced(data, b0, m, b1);
      MajorSeenOf(d, data, b0, kids, depth, m.value, b1);
    } else {
      AnnotationSeenOf(d, data, b0, kids, depth, m, b1);
    }
  }

  /** A placed major member is its value, placed. */
  lemma MajorPlaced(data: seq<byte>, b0: nat, m: Member, b1: nat)
    requires m.Major? && MemberEncodable(m) && At(data, b0, EncodeMember(m))
    requires b1 == b0 + |EncodeMember(m)| < b0 + Pow256(8)
    ensures Placed(data, b0, m.value, b1)
  {
    BodyFits(m.value);
  }

  /** An encoded major member is seen with its sequence number and the text
      of its value. */
  lemma MajorSeenOf(d: Dictionary, data: seq<byte>, pos: nat, kids: Option<Subset>, depth: nat, x: Value, next: nat)
    requires WellFormed(d) && OptSubsetIn(d, kids) && Placed(data, pos, x, next)
    ensures MemberSeen(d, data, kids, depth, SeenOf(d, kids, Major(x), depth), pos, next)
    decreases x, 5
  {
    BodyFits(x);
    DecodeEncoded(d, data, pos, if MemberName(d, kids, x.seqNum).Some? then kids else None, depth, x, next);
    ReadHeaderOf(data, pos, x, next - |Body(x)|, next);
  }

  /** An encoded annotation member is seen as an annotation that ends
      where its encoding does. */
  lemma AnnotationSeenOf(d: Dictionary, data: seq<byte>, pos: nat, kids: Option<Subset>, depth: nat, m: Member,
                         next: nat)
    requires WellFormed(d) && OptSubsetIn(d, kids) && m.Annotation? && MemberEncodable(m)
    requires At(data, pos, EncodeMember(m)) && next == pos + |EncodeMember(m)|
    ensures MemberSeen(d, data, kids, depth, SeenOf(d, kids, m, depth), pos, next)
  {
    ReadAnnotationOf(data, pos, m, next - |m.annotationPayload|, next);
  }

  /** How far the j-th element of an Array starts after the first one. */
  function ElementsBefore(parent: Value, j: nat): nat
    requires parent.ArrayValue? && j <= |parent.elements|
  {
    if j == 0 then 0 else ElementsBefore(parent, j - 1) + |Encode(parent.elements[j - 1])|
  }

  /** The elements from j on sit where the elements before j end. */
  lemma {:induction false} AtElements(data: seq<byte>, pos: nat, parent: Value, j: nat)
    requires parent.ArrayValue? && j <= |parent.elements| && At(data, pos, EncodeElements(parent, 0))
    ensures At(data, pos + ElementsBefore(parent, j), EncodeElements(parent, j))
    ensures ElementsBefore(parent, j) + |EncodeElements(parent, j)| == |EncodeElements(parent, 0)|
    decreases j
  {
    if j > 0 {
      AtElements(data, pos, parent, j - 1);
      AtSplit(data, pos + ElementsBefore(parent, j - 1), Encode(parent.elements[j - 1]), EncodeElements(parent, j));
    }
  }

  /** Where each element of an Array whose elements start at pos begins,
      and where the last one ends. */
  function ElementsBounds(parent: Value, pos: nat): (r: seq<nat>)
    requires parent.ArrayValue?
    ensures |r| == |parent.elements| + 1
  {
    seq(|parent.elements| + 1, j requires 0 <= j <= |parent.elements| => pos + ElementsBefore(parent, j))
  }

  function ElementTexts(d: Dictionary, elems: Option<Subset>, parent: Value, depth: nat): (r: seq<string>)
    requires WellFormed(d) && OptSubsetIn(d, elems) && parent.ArrayValue?
    ensures |r| == |parent.elements|
  {
    seq(|parent.elements|, j requires 0 <= j < |parent.elements| => Render(d, elems, parent.elements[j], depth))
  }

  /** The text of an Array's elements is their texts, separated. */
  lemma {:induction false} RenderElementsTexts(d: Dictionary, elems: Option<Subset>, parent: Value, i: nat,
                                               depth: nat, first: bool)
    requires WellFormed(d) && OptSubsetIn(d, elems) && parent.ArrayValue? && i <= |parent.elements|
    ensures RenderElements(d, elems, parent, i, depth, first)
      == ElementsText(ElementTexts(d, elems, parent, depth), i, depth, first)
    decreases |parent.elements| - i
  {
    if i < |parent.elements| {
      RenderElementsTexts(d, elems, parent, i + 1, depth, false);
    }
  }

  /** The elements of an encoded Array decode to their text and end where
      the Array does. */
  lemma DecodeEncodedElements(d: Dictionary, data: seq<byte>, pos: nat, elems: Option<Subset>, depth: nat,
                              parent: Value, end: nat)
    requires WellFormed(d) && OptSubsetIn(d, elems) && ElementsPlaced(data, pos, parent, end)
    ensures DecodeElements(d, data, pos, |parent.elements|, elems, depth, true)
      == Ok(Read(RenderElements(d, elems, parent, 0, depth, true), end))
    decreases parent, 2
  {
    var texts := ElementTexts(d, elems, parent, depth);
    var bounds := ElementsBounds(parent, pos);
    ElementsSeen(d, data, pos, elems, depth, parent, end);
    ElementsBoundsEnds(data, pos, parent, end);
    ElementsFrom(d, data, elems, depth, true, texts, bounds, 0);
    RenderElementsTexts(d, elems, parent, 0, depth, true);
  }

  /** The first bound of a placed Array's elements is where they start and
      the last is where they end. */
  lemma ElementsBoundsEnds(data: seq<byte>, pos: nat, parent: Value, end: nat)
    requires ElementsPlaced(data, pos, parent, end)
    ensures ElementsBounds(parent, pos)[0] == pos
    ensures ElementsBounds(parent, pos)[|parent.elements|] == end <= |data|
  {
    AtElements(data, pos, parent, |parent.elements|);
  }

  /** Every element of an encoded Array decodes to its text. */
  lemma ElementsSeen(d: Dictionary, data: seq<byte>, pos: nat, elems: Option<Subset>, depth: nat,
                     parent: Value, end: nat)
    requires WellFormed(d) && OptSubsetIn(d, elems) && ElementsPlaced(data, pos, parent, end)
    ensures var texts := ElementTexts(d, elems, parent, depth);
            var bounds := ElementsBounds(parent, pos);
            forall j :: 0 <= j < |texts| ==> ElementSeenIn(d, data, elems, depth, texts, bounds, j)
    decreases parent, 1
  {
    var texts := ElementTexts(d, elems, parent, depth);
    var bounds := ElementsBounds(parent, pos);
    forall j | 0 <= j < |texts|
      ensures ElementSeenIn(d, data, elems, depth, texts, bounds, j)
    {
      ElementSeenAt(d, data, pos, elems, depth, parent, j, end);
    }
  }

  /** The j-th element of an encoded Array decodes to its entry of
      `ElementTexts`, between its entries of `ElementsBounds`. */
  lemma ElementSeenAt(d: Dictionary, data: seq<byte>, pos: nat, elems: Option<Subset>, depth: nat,
                      parent: Value, j: nat, end: nat)
    requires WellFormed(d) && OptSubsetIn(d, elems) && ElementsPlaced(data, pos, parent, end) && j < |parent.elements|
    ensures ElementSeen(d, data, elems, depth, ElementTexts(d, elems, parent, depth)[j],
                        ElementsBounds(parent, pos)[j], ElementsBounds(parent, pos)[j + 1])
    decreases parent, 0
  {
    var texts := ElementTexts(d, elems, parent, depth);
    var bounds := ElementsBounds(parent, pos);
    ElementsIndex(d, elems, parent, depth, pos, j);
    ElementPlaced(data, pos, parent, j, end, bounds[j], bounds[j + 1]);
    ElementSeenOf(d, data, elems, depth, parent.elements[j], texts[j], bounds[j], bounds[j + 1]);
  }

  /** The j-th entries of `ElementTexts` and `ElementsBounds`. */
  lemma ElementsIndex(d: Dictionary, elems: Option<Subset>, parent: Value, depth: nat, pos: nat, j: nat)
    requires WellFormed(d) && OptSubsetIn(d, elems) && parent.ArrayValue? && j < |parent.elements|
    ensures ElementTexts(d, elems, parent, depth)[j] == Render(d, elems, parent.elements[j], depth)
    ensures ElementsBounds(parent, pos)[j] == pos + ElementsBefore(parent, j)
    ensures ElementsBounds(parent, pos)[j + 1] == pos + ElementsBefore(parent, j + 1)
  {
    ElementTextsIndex(d, elems, parent, depth, j);
    ElementsBoundsIndex(parent, pos, j);
    ElementsBoundsIndex(parent, pos, j + 1);
  }

  lemma ElementTextsIndex(d: Dictionary, elems: Option<Subset>, parent: Value, depth: nat, j: nat)
    requires WellFormed(d) && OptSubsetIn(d, elems) && parent.ArrayValue? && j < |parent.elements|
    ensures ElementTexts(d, elems, parent, depth)[j] == Render(d, elems, parent.elements[j], depth)
  {
  }

  lemma ElementsBoundsIndex(parent: Value, pos: nat, j: nat)
    requires parent.ArrayValue? && j <= |parent.elements|
    ensures ElementsBounds(parent, pos)[j] == pos + ElementsBefore(parent, j)
  {
  }

  /** The j-th element of an Array sits where the elements before it end,
      and ends no later than the last one. */
  lemma ElementPlaced(data: seq<byte>, pos: nat, parent: Value, j: nat, end: nat, b0: nat, b1: nat)
    requires ElementsPlaced(data, pos, parent, end) && j < |parent.elements|
    requires b0 == pos + ElementsBefore(parent, j) && b1 == pos + ElementsBefore(parent, j + 1)
    ensures Placed(data, b0, parent.elements[j], b1) && b0 <= b1 <= |data|
  {
    assert Encodable(parent.elements[j]);
    AtElements(data, pos, parent, j);
    AtElements(data, pos, parent, j + 1);
    AtSplit(data, b0, Encode(parent.elements[j]), EncodeElements(parent, j + 1));
  }

  /** An encoded element decodes to its text. */
  lemma ElementSeenOf(d: Dictionary, data: seq<byte>, elems: Option<Subset>, depth: nat, x: Value, text: string,
                      b0: nat, b1: nat)
    requires WellFormed(d) && OptSubsetIn(d, elems) && Placed(data, b0, x, b1) && b1 <= |data|
    requires text == Render(d, elems, x, depth)
    ensures ElementSeen(d, data, elems, depth, text, b0, b1)
    decreases x, 5
  {
    DecodeEncoded(d, data, b0, elems, depth, x, b1);
  }

  /** The value of a document sits right after its 7-byte header, whose
      last byte is the schema class. */
  lemma DocumentPlaced(prefix: seq<byte>, schemaClass: byte, v: Value, e: seq<byte>, trailing: seq<byte>,
                       bej: seq<byte>)
    requires |prefix| == HEADER_LENGTH && prefix[6] == schemaClass
    requires Encodable(v) && e == Encode(v) && |e| < Pow256(8) && bej == prefix + e + trailing
    ensures |bej| >= HEADER_LENGTH && bej[6] == schemaClass
    ensures Placed(bej, HEADER_LENGTH, v, HEADER_LENGTH + |e|)
  {
    AtMiddle(prefix, e, trailing);
  }

  /** A document whose schema class is 0 or 1 and whose value is placed
      right after the header decodes to the text of that value. */
  lemma DecodePlacedDocument(d: Dictionary, bej: seq<byte>, v: Value, end: nat)
    requires WellFormed(d) && |bej| >= HEADER_LENGTH && bej[6] <= 1 && Placed(bej, HEADER_LENGTH, v, end)
    ensures DecodeToJson(d, bej) == Ok(Render(d, None, v, 0))
  {
    DecodeEncoded(d, bej, HEADER_LENGTH, None, 0, v, end);
    DocumentStep(d, bej, Render(d, None, v, 0), end);
  }

  /** A whole document: 4 version bytes, 2 flag bytes, a schema class of 0
      or 1, one encoded value and anything after it, decodes to the value's
      text at the root of the dictionary. */
  lemma DecodeDocument(d: Dictionary, version: seq<byte>, flags: seq<byte>, schemaClass: byte, v: Value,
                       trailing: seq<byte>)
    requires WellFormed(d) && |version| == 4 && |flags| == 2 && schemaClass <= 1
    requires Encodable(v) && |Encode(v)| < Pow256(8)
    ensures DecodeToJson(d, version + flags + [schemaClass] + Encode(v) + trailing) == Ok(Render(d, None, v, 0))
  {
    var prefix := version + flags + [schemaClass];
    var e := Encode(v);
    var bej := prefix + e + trailing;
    DocumentPlaced(prefix, schemaClass, v, e, trailing, bej);
    DecodePlacedDocument(d, bej, v, HEADER_LENGTH + |e|);
  }
}
