/** A BEJ value as a tree, the bytes an encoder writes for it, and the
    JSON text it stands for against a dictionary. The decoder is related
    to these by `DecodeEncoded`: decoding the bytes of a tree yields its
    text and consumes exactly its bytes. */
module ValueTree {
  import opened Bytes
  import opened Results
  import opened Stream
  import opened Dict
  import opened Decimal
  import opened JsonText
  import opened Decoder

  /** A value with the sequence number of its dictionary entry. */
  datatype Value =
    | SetValue(seqNum: nat, members: seq<Member>)
    | ArrayValue(seqNum: nat, elements: seq<Value>)
    | StringValue(seqNum: nat, payload: seq<byte>)
    | IntegerValue(seqNum: nat, width: nat, number: int)
    | RealValue(seqNum: nat, parts: RealParts, wholeWidth: nat, exponentWidth: nat)
    | BooleanValue(seqNum: nat, truth: bool)
    | EnumValue(seqNum: nat, index: nat)
    | NullValue(seqNum: nat)

  /** A member of a Set: a major schema value, or an annotation the decoder
      steps over (its format and payload are opaque). */
  datatype Member =
    | Major(value: Value)
    | Annotation(annotationSeq: nat, annotationFormat: nat, annotationPayload: seq<byte>)

  function FormatOf(v: Value): (f: nat)
    ensures f < 16 && Supported(f)
  {
    match v
    case SetValue(_, _) => FMT_SET
    case ArrayValue(_, _) => FMT_ARRAY
    case StringValue(_, _) => FMT_STRING
    case IntegerValue(_, _, _) => FMT_INTEGER
    case RealValue(_, _, _, _) => FMT_REAL
    case BooleanValue(_, _) => FMT_BOOLEAN
    case EnumValue(_, _) => FMT_ENUM
    case NullValue(_) => FMT_NULL
  }

  /** A two's-complement field of the given width; width 0 is empty and
      stands for 0. */
  predicate SignedFieldFits(v: int, width: nat) {
    width <= 8 && (if width == 0 then v == 0 else FitsSigned(v, width))
  }

  /** The low `width` bytes of v in two's complement. */
  function SignedField(v: int, width: nat): (r: seq<byte>)
    ensures |r| == width
    ensures SignedFieldFits(v, width) && width > 0 ==> r == SignedBytes(v, width)
  {
    ModOfSmall(v, Pow256(width));
    LeBytes(v % Pow256(width), width)
  }

  lemma ModOfSmall(v: int, p: int)
    requires p >= 1
    ensures 0 - p <= v < 0 ==> v % p == v + p
    ensures 0 <= v < p ==> v % p == v
  {
  }

  function Encode(v: Value): (r: seq<byte>)
    decreases v, 3
  {
    HeaderBytes(v) + Body(v)
  }

  /** The SFL a value is written with: its sequence number with the major
      selector, its format, no flags, and the length of its body. */
  function HeaderBytes(v: Value): (r: seq<byte>)
    decreases v, 2
  {
    SflBytes(v.seqNum, SELECTOR_MAJOR, FormatOf(v), 0, |Body(v)|)
  }

  /** What follows the SFL of a value. A Set and an Array begin with their
      count; a String carries a terminating NUL. */
  function Body(v: Value): (r: seq<byte>)
    decreases v, 1
  {
    match v
    case SetValue(_, members) => EncodeNnint(|members|) + EncodeMembers(v, 0)
    case ArrayValue(_, elements) => EncodeNnint(|elements|) + EncodeElements(v, 0)
    case StringValue(_, payload) => payload + [0]
    case IntegerValue(_, width, number) => SignedField(number, width)
    case RealValue(_, p, ww, ew) => RealBytes(p, ww, ew)
    case BooleanValue(_, truth) => [if truth then 1 else 0]
    case EnumValue(_, index) => EncodeNnint(index)
    case NullValue(_) => []
  }

  /** The fields of a Real in wire order, the whole part and exponent in
      the given widths. */
  function RealBytes(p: RealParts, wholeWidth: nat, exponentWidth: nat): (r: seq<byte>) {
    SignedPart(p.whole, wholeWidth)
      + (EncodeNnint(p.leadingZeros) + (EncodeNnint(p.fraction) + SignedPart(p.exponent, exponentWidth)))
  }

  /** A width-prefixed signed field. */
  function SignedPart(v: int, width: nat): (r: seq<byte>) {
    EncodeNnint(width) + SignedField(v, width)
  }

  function EncodeMember(m: Member): (r: seq<byte>)
    decreases m, 3
  {
    match m
    case Major(x) => Encode(x)
    case Annotation(s, f, p) => SflBytes(s, SELECTOR_ANNOTATION, f % 16, 0, |p|) + p
  }

  /** The members of a Set from index i on. */
  function EncodeMembers(parent: Value, i: nat): (r: seq<byte>)
    requires parent.SetValue? && i <= |parent.members|
    decreases parent, 0, |parent.members| - i
  {
    if i == |parent.members| then []
    else EncodeMember(parent.members[i]) + EncodeMembers(parent, i + 1)
  }

  /** The elements of an Array from index i on. */
  function EncodeElements(parent: Value, i: nat): (r: seq<byte>)
    requires parent.ArrayValue? && i <= |parent.elements|
    decreases parent, 0, |parent.elements| - i
  {
    if i == |parent.elements| then []
    else Encode(parent.elements[i]) + EncodeElements(parent, i + 1)
  }

  /** Every number fits its field: sequence numbers in 16 bits, counts and
      annotation lengths in an nnint, integers and Real fields in their
      widths, String payloads within the decoder's limit. The lengths of
      Set and Array bodies are bounded by the length of the whole encoding,
      which the round trip requires separately. */
  predicate Encodable(v: Value)
    decreases v, 3
  {
    && v.seqNum < 65536
    && match v
       case SetValue(_, members) =>
         && |members| < Pow256(8)
         && (forall k :: 0 <= k < |members| ==> MemberEncodable(members[k]))
       case ArrayValue(_, elements) =>
         && |elements| < Pow256(8)
         && (forall k :: 0 <= k < |elements| ==> Encodable(elements[k]))
       case StringValue(_, payload) => |payload| + 1 <= MAX_STRING_LENGTH
       case IntegerValue(_, width, number) => 1 <= width <= 8 && FitsSigned(number, width)
       case RealValue(_, p, ww, ew) =>
         && SignedFieldFits(p.whole, ww) && SignedFieldFits(p.exponent, ew)
         && p.leadingZeros < Pow256(8) && p.fraction < Pow256(8)
       case BooleanValue(_, _) => true
       case EnumValue(_, index) => index < Pow256(8)
       case NullValue(_) => true
  }

  predicate MemberEncodable(m: Member)
    decreases m, 4
  {
    match m
    case Major(x) => Encodable(x)
    case Annotation(s, f, p) => s < 65536 && f < 16 && |p| < Pow256(8)
  }

  /** The JSON text of a value decoded against the subset `cur` at nesting
      level `depth`: Sets and Arrays as indented objects and arrays whose
      keys come from the dictionary, scalars in their JSON form, Enum
      values by variant name. */
  function Render(d: Dictionary, cur: Option<Subset>, v: Value, depth: nat): (r: string)
    requires WellFormed(d) && OptSubsetIn(d, cur)
    decreases v, 1
  {
    match v
    case SetValue(s, members) =>
      if |members| == 0 then "{}"
      else
        var body := RenderMembers(d, SetSchema(d, cur, s), v, 0, depth + 1, true);
        "{" + NewLine(depth + 1) + body + NewLine(depth) + "}"
    case ArrayValue(s, elements) =>
      if |elements| == 0 then "[]"
      else
        var body := RenderElements(d, ArraySchema(d, cur, s), v, 0, depth + 1, true);
        "[" + NewLine(depth + 1) + body + NewLine(depth) + "]"
    case StringValue(_, payload) => Quoted(payload)
    case IntegerValue(_, _, number) => IntToString(number)
    case RealValue(_, p, _, _) => RealText(p)
    case BooleanValue(_, truth) => if truth then "true" else "false"
    case EnumValue(s, index) => EnumText(d, cur, s, index)
    case NullValue(_) => "null"
  }

  /** The members of a Set from index i on: annotations vanish, and every
      major member is `key: value`, separated by commas on new lines. */
  function RenderMembers(d: Dictionary, kids: Option<Subset>, parent: Value, i: nat, depth: nat, first: bool)
    : (r: string)
    requires WellFormed(d) && OptSubsetIn(d, kids)
    requires parent.SetValue? && i <= |parent.members|
    decreases parent, 0, |parent.members| - i
  {
    if i == |parent.members| then ""
    else
      match parent.members[i]
      case Annotation(_, _, _) => RenderMembers(d, kids, parent, i + 1, depth, first)
      case Major(x) =>
        var name := MemberName(d, kids, x.seqNum);
        Separator(first, depth) + MemberKey(name, x.seqNum) + ": "
          + Render(d, if name.Some? then kids else None, x, depth)
          + RenderMembers(d, kids, parent, i + 1, depth, false)
  }

  function RenderElements(d: Dictionary, elems: Option<Subset>, parent: Value, i: nat, depth: nat, first: bool)
    : (r: string)
    requires WellFormed(d) && OptSubsetIn(d, elems)
    requires parent.ArrayValue? && i <= |parent.elements|
    decreases parent, 0, |parent.elements| - i
  {
    if i == |parent.elements| then ""
    else
      var value := Render(d, elems, parent.elements[i], depth);
      Separator(first, depth) + value + RenderElements(d, elems, parent, i + 1, depth, false)
  }
}
