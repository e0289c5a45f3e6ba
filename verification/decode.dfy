/** The BEJ decoder: the scalar decoders, the recursive value decoder that
    walks Set and Array nesting against the dictionary, and the document
    header check. Output is the JSON text the C code streams to its
    FILE*, returned as a string; the global indentation counter of the
    C code is the explicit `depth` parameter. */
module Decoder {
  import opened Bytes
  import opened Results
  import opened Stream
  import opened Dict
  import opened Decimal
  import opened JsonText

  /** Format codes (the high nibble of the SFL format byte). */
  const FMT_SET: nat := 0x00
  const FMT_ARRAY: nat := 0x01
  const FMT_INTEGER: nat := 0x03
  const FMT_ENUM: nat := 0x04
  const FMT_STRING: nat := 0x05
  const FMT_REAL: nat := 0x06
  const FMT_BOOLEAN: nat := 0x07
  const FMT_CHOICE: nat := 0x09
  const FMT_NULL: nat := 0x0A
  const FMT_RESOURCE_LINK: nat := 0x0E
  const FMT_PROPERTY_ANNOTATION: nat := 0x0F

  /** The formats `decode_value` has a case for. */
  predicate Supported(format: nat) {
    format in {FMT_SET, FMT_ARRAY, FMT_INTEGER, FMT_ENUM, FMT_STRING, FMT_REAL, FMT_BOOLEAN, FMT_NULL}
  }

  /** Longest String payload accepted: 2^31 bytes. */
  const MAX_STRING_LENGTH: nat := 0x8000_0000

  /** A two's-complement field of `width` bytes (0 to 8); an empty field
      is the number 0 and reads nothing. */
  function ReadSigned(data: seq<byte>, pos: nat, width: nat): (r: Result<Read<int>>)
    requires width <= 8
    ensures r.Ok? <==> pos + width <= |data|
    ensures r.Ok? ==> r.value.pos == pos + width
    ensures r.Ok? && width == 0 ==> r.value.value == 0
  {
    if width == 0 then
      if pos > |data| then Err(Truncated) else Ok(Read(0, pos))
    else
      var bytes :- ReadBytes(data, pos, width);
      Ok(Read(Signed(bytes.value), bytes.pos))
  }

  /** A non-empty field read by `ReadSigned` is the two's-complement
      encoding of the number read, which fits the width. */
  lemma ReadSignedEncodes(data: seq<byte>, pos: nat, width: nat)
    requires 1 <= width <= 8 && pos + width <= |data|
    ensures var v := ReadSigned(data, pos, width).value.value;
      FitsSigned(v, width) && SignedBytes(v, width) == data[pos..pos + width]
  {
    SignedBytesOfSigned(data[pos..pos + width]);
  }

  /** `decode_integer`: 1 to 8 bytes, printed as the signed number whose
      two's-complement encoding they are. */
  function DecodeInteger(data: seq<byte>, pos: nat, length: nat): (r: Result<Read<string>>)
    ensures r.Ok? <==> 1 <= length <= 8 && pos + length <= |data|
    ensures length == 0 || length > 8 ==> r == Err(BadLength)
    ensures r.Ok? ==> r.value.pos == pos + length
  {
    if length == 0 || length > 8 then Err(BadLength)
    else
      var v :- ReadSigned(data, pos, length);
      Ok(Read(IntToString(v.value), v.pos))
  }

  /** The text `decode_integer` prints is a decimal number whose
      two's-complement encoding in `length` bytes is the bytes read. */
  lemma DecodeIntegerMeaning(data: seq<byte>, pos: nat, length: nat)
    requires 1 <= length <= 8 && pos + length <= |data|
    ensures var text := DecodeInteger(data, pos, length).value.value;
      && IsIntText(text)
      && FitsSigned(IntValue(text), length)
      && SignedBytes(IntValue(text), length) == data[pos..pos + length]
  {
    var v := ReadSigned(data, pos, length).value.value;
    ReadSignedEncodes(data, pos, length);
    IntToStringRoundTrip(v);
  }

  /** `decode_boolean`: exactly one byte; zero is false, anything else true. */
  function DecodeBoolean(data: seq<byte>, pos: nat, length: nat): (r: Result<Read<string>>)
    ensures r.Ok? <==> length == 1 && pos < |data|
    ensures length != 1 ==> r == Err(BadLength)
    ensures r.Ok? ==> r.value.pos == pos + 1
    ensures r.Ok? ==> (r.value.value == "true" <==> data[pos] != 0)
    ensures r.Ok? ==> (r.value.value == "false" <==> data[pos] == 0)
  {
    if length != 1 then Err(BadLength)
    else
      var b :- ReadU8(data, pos);
      Ok(Read(if b.value != 0 then "true" else "false", b.pos))
  }

  /** The payload of a String without its terminating NUL, if it has one. */
  function StripNul(raw: seq<byte>): (r: seq<byte>)
    ensures |raw| > 0 && raw[|raw| - 1] == 0 ==> raw == r + [0]
    ensures |raw| == 0 || raw[|raw| - 1] != 0 ==> r == raw
  {
    if |raw| > 0 && raw[|raw| - 1] == 0 then raw[..|raw| - 1] else raw
  }

  /** `decode_string`: 1 to 2^31 bytes, printed as a JSON string literal of
      those bytes less at most one trailing NUL. */
  function DecodeString(data: seq<byte>, pos: nat, length: nat): (r: Result<Read<string>>)
    ensures r.Ok? <==> 1 <= length <= MAX_STRING_LENGTH && pos + length <= |data|
    ensures length == 0 || length > MAX_STRING_LENGTH ==> r == Err(BadLength)
    ensures r.Ok? ==> r.value.pos == pos + length
  {
    if length == 0 || length > MAX_STRING_LENGTH then Err(BadLength)
    else
      var raw :- ReadBytes(data, pos, length);
      Ok(Read(Quoted(StripNul(raw.value)), raw.pos))
  }

  /** The text `decode_string` prints is a JSON string literal that reads
      back as the payload less its trailing NUL. */
  lemma DecodeStringMeaning(data: seq<byte>, pos: nat, length: nat)
    requires 1 <= length <= MAX_STRING_LENGTH && pos + length <= |data|
    ensures var text := DecodeString(data, pos, length).value.value;
      && |text| >= 2 && text[0] == '"' && text[|text| - 1] == '"'
      && Unescape(text[1..|text| - 1]) == Some(StripNul(data[pos..pos + length]))
  {
    var bs := StripNul(data[pos..pos + length]);
    EscapedRoundTrip(bs);
    var text := Quoted(bs);
    assert text[1..|text| - 1] == Escaped(bs);
  }

  /** The four fields of a Real: signed whole part, count of leading zeros
      of the fraction, the fraction digits as a number, signed exponent. */
  datatype RealParts = RealParts(whole: int, leadingZeros: nat, fraction: nat, exponent: int)

  /** The decimal text of a Real, rebuilt symbolically:
      `<whole>.<zeros><fraction>`, then `e<exponent>` when the exponent
      is not zero. */
  function RealText(p: RealParts): string {
    IntToString(p.whole) + "." + Zeros(p.leadingZeros) + NatToString(p.fraction)
      + (if p.exponent != 0 then "e" + IntToString(p.exponent) else "")
  }

  /** A length-prefixed two's-complement field of a Real (the whole part
      or the exponent): an nnint width of at most 8, then that many bytes. */
  function ReadSignedPart(data: seq<byte>, pos: nat): (r: Result<Read<int>>)
    ensures r.Ok? ==> pos + 1 <= r.value.pos <= |data|
    ensures ReadNnint(data, pos).Ok? && ReadNnint(data, pos).value.value > 8 ==> r == Err(BadLength)
  {
    var width :- ReadNnint(data, pos);
    if width.value > 8 then Err(BadLength)
    else ReadSigned(data, width.pos, width.value)
  }

  /** The fields of a Real in wire order: the whole part, nnint leading
      zeros, nnint fraction, the exponent. */
  function ReadRealParts(data: seq<byte>, pos: nat): (r: Result<Read<RealParts>>)
    ensures r.Ok? ==> pos + 4 <= r.value.pos <= |data|
  {
    var whole :- ReadSignedPart(data, pos);
    var lz :- ReadNnint(data, whole.pos);
    var fract :- ReadNnint(data, lz.pos);
    var exp :- ReadSignedPart(data, fract.pos);
    Ok(Read(RealParts(whole.value, lz.value, fract.value, exp.value), exp.pos))
  }

  /** `decode_real`: the fields, which must occupy exactly the declared
      length. */
  function DecodeReal(data: seq<byte>, pos: nat, length: nat): (r: Result<Read<string>>)
    ensures r.Ok? ==> r.value.pos == pos + length <= |data|
    ensures r.Ok? <==> ReadRealParts(data, pos).Ok? && ReadRealParts(data, pos).value.pos == pos + length
    ensures ReadRealParts(data, pos).Ok? && ReadRealParts(data, pos).value.pos != pos + length ==>
      r == Err(LengthMismatch)
  {
    var parts :- ReadRealParts(data, pos);
    if parts.pos - pos != length then Err(LengthMismatch)
    else Ok(Read(RealText(parts.value), parts.pos))
  }

  /** `decode_null`: skips `length` bytes and prints null. */
  function DecodeNull(data: seq<byte>, pos: nat, length: nat): (r: Result<Read<string>>)
    ensures r.Ok? <==> pos + length <= |data|
    ensures r.Ok? ==> r.value == Read("null", pos + length)
  {
    if pos + length > |data| then Err(Truncated) else Ok(Read("null", pos + length))
  }

  /** The text of an Enum value: the name of the variant whose sequence is
      the (16-bit truncated) index among the children of the field's own
      entry; the raw index when the field, the variant or its name is
      missing. */
  function EnumText(d: Dictionary, cur: Option<Subset>, fieldSeq: nat, index: nat): (r: string)
    requires WellFormed(d) && OptSubsetIn(d, cur)
    ensures ChildBySeq(d, cur, fieldSeq).None? ==> r == NatToString(index)
    ensures r == NatToString(index) || (|r| >= 2 && r[0] == '"')
  {
    match ChildBySeq(d, cur, fieldSeq)
    case None => NatToString(index)
    case Some(field) =>
      var variants := Children(d, field);
      match ChildBySeq(d, Some(variants), index % 0x1_0000)
      case None => NatToString(index)
      case Some(variant) =>
        match NameOf(d, variant)
        case None => NatToString(index)
        case Some(name) => Quoted(name)
  }

  /** `decode_enum_with_dict`: reads the nnint index (the declared length
      is not used) and prints its text. */
  function DecodeEnum(d: Dictionary, data: seq<byte>, pos: nat, cur: Option<Subset>, fieldSeq: nat)
    : (r: Result<Read<string>>)
    requires WellFormed(d) && OptSubsetIn(d, cur)
    ensures r.Ok? <==> ReadNnint(data, pos).Ok?
    ensures r.Ok? ==> r.value.pos == ReadNnint(data, pos).value.pos
    ensures r.Ok? ==> r.value.value == EnumText(d, cur, fieldSeq, ReadNnint(data, pos).value.value)
  {
    var index :- ReadNnint(data, pos);
    Ok(Read(EnumText(d, cur, fieldSeq, index.value), index.pos))
  }

  /** The subset a Set's members are named from. With no enclosing subset
      this is the dictionary root's children; otherwise the children of the
      Set's own entry in the enclosing subset, or none when that entry is
      missing. */
  function SetSchema(d: Dictionary, cur: Option<Subset>, seqNum: nat): (r: Option<Subset>)
    requires WellFormed(d) && OptSubsetIn(d, cur)
    ensures OptSubsetIn(d, r)
    ensures cur.None? ==> r == Some(Children(d, -1))
    ensures cur.Some? ==> (r.Some? <==> ChildBySeq(d, cur, seqNum).Some?)
    ensures cur.Some? && ChildBySeq(d, cur, seqNum).Some? ==>
      r == Some(Children(d, ChildBySeq(d, cur, seqNum).value))
  {
    match cur
    case None => Some(Children(d, -1))
    case Some(_) =>
      match ChildBySeq(d, cur, seqNum)
      case None => None
      case Some(i) => Some(Children(d, i))
  }

  /** The subset every element of an Array is decoded against: the
      children of the Array's own entry in the enclosing subset; none when
      there is no enclosing subset or the entry is missing. */
  function ArraySchema(d: Dictionary, cur: Option<Subset>, seqNum: nat): (r: Option<Subset>)
    requires WellFormed(d) && OptSubsetIn(d, cur)
    ensures OptSubsetIn(d, r)
    ensures r.Some? <==> ChildBySeq(d, cur, seqNum).Some?
    ensures ChildBySeq(d, cur, seqNum).Some? ==> r == Some(Children(d, ChildBySeq(d, cur, seqNum).value))
  {
    match ChildBySeq(d, cur, seqNum)
    case None => None
    case Some(i) => Some(Children(d, i))
  }

  /** The name a major Set member is printed under: the non-empty name of
      its entry in the Set's subset, if there is one. */
  function MemberName(d: Dictionary, kids: Option<Subset>, seqNum: nat): (r: Option<seq<byte>>)
    requires WellFormed(d) && OptSubsetIn(d, kids)
    ensures r.Some? ==> |r.value| > 0 && 0 !in r.value
    ensures r.Some? ==> ChildBySeq(d, kids, seqNum).Some? && r == NameOf(d, ChildBySeq(d, kids, seqNum).value)
    ensures var c := ChildBySeq(d, kids, seqNum);
      c.Some? && NameOf(d, c.value).Some? && |NameOf(d, c.value).value| > 0 ==> r.Some?
  {
    if kids.None? then None
    else
      match ChildBySeq(d, kids, seqNum)
      case None => None
      case Some(i) =>
        match NameOf(d, i)
        case None => None
        case Some(name) => if |name| > 0 then Some(name) else None
  }

  /** The object key of a member: its quoted name, or `"_<seq>"`. */
  function MemberKey(name: Option<seq<byte>>, seqNum: nat): (r: string)
    ensures name.None? ==> r == "\"_" + NatToString(seqNum) + "\""
    ensures name.Some? ==> r == Quoted(name.value)
  {
    match name
    case None => "\"_" + NatToString(seqNum) + "\""
    case Some(n) => Quoted(n)
  }

  /** The separator before a member or element: none before the first one,
      otherwise a comma and a new indented line. */
  function Separator(first: bool, depth: nat): string {
    if first then "" else "," + NewLine(depth)
  }

  /** `decode_value`: one value at `pos` with its SFL, decoded against the
      enclosing subset `cur` (None is the C null pointer), at nesting level
      `depth`. The selector bit of the value's own SFL is not looked at. */
  function DecodeValue(d: Dictionary, data: seq<byte>, pos: nat, cur: Option<Subset>, depth: nat)
    : (r: Result<Read<string>>)
    requires WellFormed(d) && OptSubsetIn(d, cur) && pos <= |data|
    ensures r.Ok? ==> pos + 3 <= r.value.pos <= |data|
    decreases |data| - pos, 0, 0
  {
    var h :- ReadSfl(data, pos);
    DecodeBody(d, data, h.pos, h.value, cur, depth)
  }

  /** The switch on the format in `decode_value`, once the SFL `sfl` has
      been read and the cursor stands at `pos`: a Set and an Array read
      their count and then their members or elements one level deeper;
      every other format goes to its scalar decoder. */
  function DecodeBody(d: Dictionary, data: seq<byte>, pos: nat, sfl: Sfl, cur: Option<Subset>, depth: nat)
    : (r: Result<Read<string>>)
    requires WellFormed(d) && OptSubsetIn(d, cur) && pos <= |data|
    ensures r.Ok? ==> pos <= r.value.pos <= |data|
    decreases |data| - pos, 2, 0
  {
    if sfl.format == FMT_SET then
      var count :- ReadNnint(data, pos);
      var kids := SetSchema(d, cur, sfl.SeqNum());
      if count.value == 0 then Ok(Read("{}", count.pos))
      else
        var body :- DecodeMembers(d, data, count.pos, count.value, kids, depth + 1, true);
        Ok(Read("{" + NewLine(depth + 1) + body.value + NewLine(depth) + "}", body.pos))
    else if sfl.format == FMT_ARRAY then
      var count :- ReadNnint(data, pos);
      var elems := ArraySchema(d, cur, sfl.SeqNum());
      if count.value == 0 then Ok(Read("[]", count.pos))
      else
        var body :- DecodeElements(d, data, count.pos, count.value, elems, depth + 1, true);
        Ok(Read("[" + NewLine(depth + 1) + body.value + NewLine(depth) + "]", body.pos))
    else DecodeScalar(d, data, pos, sfl, cur)
  }

  /** The cases of `decode_value` for everything but Set and Array: the
      scalar decoder for the format, given the value's SFL and the
      position after it. Any other format fails. */
  function DecodeScalar(d: Dictionary, data: seq<byte>, pos: nat, sfl: Sfl, cur: Option<Subset>)
    : (r: Result<Read<string>>)
    requires WellFormed(d) && OptSubsetIn(d, cur) && pos <= |data|
    ensures r.Ok? ==> pos <= r.value.pos <= |data|
    ensures !Supported(sfl.format) ==> r == Err(UnsupportedFormat)
  {
    if sfl.format == FMT_STRING then DecodeString(data, pos, sfl.length)
    else if sfl.format == FMT_INTEGER then DecodeInteger(data, pos, sfl.length)
    else if sfl.format == FMT_BOOLEAN then DecodeBoolean(data, pos, sfl.length)
    else if sfl.format == FMT_REAL then DecodeReal(data, pos, sfl.length)
    else if sfl.format == FMT_ENUM then DecodeEnum(d, data, pos, cur, sfl.SeqNum())
    else if sfl.format == FMT_NULL then DecodeNull(data, pos, sfl.length)
    else Err(UnsupportedFormat)
  }

  /** The `count` members of a Set whose names come from `kids`. Each
      member's SFL is read ahead. A major member is printed as key and
      value, the value decoded against `kids` when the member is named and
      against nothing otherwise. An annotation member is skipped: its SFL
      and its declared length are consumed and nothing is printed.
      `first` holds until a member has been printed. */
  function DecodeMembers(d: Dictionary, data: seq<byte>, pos: nat, count: nat, kids: Option<Subset>,
                         depth: nat, first: bool): (r: Result<Read<string>>)
    requires WellFormed(d) && OptSubsetIn(d, kids) && pos <= |data|
    ensures r.Ok? ==> pos <= r.value.pos <= |data|
    decreases |data| - pos, 1, count
  {
    if count == 0 then Ok(Read("", pos))
    else
      var peek :- ReadSfl(data, pos);
      var member := peek.value;
      if member.Selector() == SELECTOR_MAJOR then
        var name := MemberName(d, kids, member.SeqNum());
        var value :- DecodeValue(d, data, pos, if name.Some? then kids else None, depth);
        var rest :- DecodeMembers(d, data, value.pos, count - 1, kids, depth, false);
        Ok(Read(Separator(first, depth) + MemberKey(name, member.SeqNum()) + ": " + value.value + rest.value,
                rest.pos))
      else if peek.pos + member.length > |data| then Err(Truncated)
      else DecodeMembers(d, data, peek.pos + member.length, count - 1, kids, depth, first)
  }

  /** The `count` elements of an Array, every one decoded against the
      same subset. */
  function DecodeElements(d: Dictionary, data: seq<byte>, pos: nat, count: nat, elems: Option<Subset>,
                          depth: nat, first: bool): (r: Result<Read<string>>)
    requires WellFormed(d) && OptSubsetIn(d, elems) && pos <= |data|
    ensures r.Ok? ==> pos <= r.value.pos <= |data|
    decreases |data| - pos, 1, count
  {
    if count == 0 then Ok(Read("", pos))
    else
      var value :- DecodeValue(d, data, pos, elems, depth);
      var rest :- DecodeElements(d, data, value.pos, count - 1, elems, depth, false);
      Ok(Read(Separator(first, depth) + value.value + rest.value, rest.pos))
  }

  /** Length of the document header: 4 version bytes, 2 flag bytes, 1
      schema-class byte. */
  const HEADER_LENGTH: nat := 7

  /** `bej_decode_to_json`: the header, a schema class of 0 or 1, then one
      value decoded with no enclosing subset at depth 0. Bytes after that
      value are ignored. */
  function DecodeToJson(d: Dictionary, bej: seq<byte>): (r: Result<string>)
    requires WellFormed(d)
    ensures |bej| < HEADER_LENGTH ==> r == Err(Truncated)
    ensures |bej| >= HEADER_LENGTH && bej[6] > 1 ==> r == Err(BadSchemaClass)
    ensures r.Ok? ==> |bej| >= HEADER_LENGTH && bej[6] <= 1
    ensures r.Ok? ==>
      && DecodeValue(d, bej, HEADER_LENGTH, None, 0).Ok?
      && r.value == DecodeValue(d, bej, HEADER_LENGTH, None, 0).value.value
  {
    var version :- ReadBytes(bej, 0, 4);
    var flags :- ReadBytes(bej, version.pos, 2);
    var schemaClass :- ReadBytes(bej, flags.pos, 1);
    if schemaClass.value[0] != 0 && schemaClass.value[0] != 1 then Err(BadSchemaClass)
    else
      var root :- DecodeValue(d, bej, schemaClass.pos, None, 0);
      Ok(root.value)
  }
}
