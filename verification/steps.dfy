/** How each decoding function proceeds once the results of its reads are
    known: a value, a member list or an element list is its first read
    followed by the rest. Each lemma takes the reads as plain equalities,
    so it says nothing about where the bytes came from. */
module DecodeSteps {
  import opened Bytes
  import opened Results
  import opened Stream
  import opened Dict
  import opened JsonText
  import opened Decoder

  /** A Set value: its SFL, its member count, then (unless the count is
      zero) its members, named from the Set's subset one level deeper. */
  lemma SetStep(d: Dictionary, data: seq<byte>, pos: nat, cur: Option<Subset>, depth: nat,
                sfl: Sfl, q: nat, n: nat, r: nat, body: string, end: nat)
    requires WellFormed(d) && OptSubsetIn(d, cur) && pos <= |data|
    requires ReadSfl(data, pos) == Ok(Read(sfl, q)) && sfl.format == FMT_SET
    requires ReadNnint(data, q) == Ok(Read(n, r))
    requires n > 0 ==>
      DecodeMembers(d, data, r, n, SetSchema(d, cur, sfl.SeqNum()), depth + 1, true) == Ok(Read(body, end))
    ensures DecodeValue(d, data, pos, cur, depth)
      == if n == 0 then Ok(Read("{}", r))
         else Ok(Read("{" + NewLine(depth + 1) + body + NewLine(depth) + "}", end))
  {
  }

  /** An Array value: its SFL, its element count, then its elements. */
  lemma ArrayStep(d: Dictionary, data: seq<byte>, pos: nat, cur: Option<Subset>, depth: nat,
                  sfl: Sfl, q: nat, n: nat, r: nat, body: string, end: nat)
    requires WellFormed(d) && OptSubsetIn(d, cur) && pos <= |data|
    requires ReadSfl(data, pos) == Ok(Read(sfl, q)) && sfl.format == FMT_ARRAY
    requires ReadNnint(data, q) == Ok(Read(n, r))
    requires n > 0 ==>
      DecodeElements(d, data, r, n, ArraySchema(d, cur, sfl.SeqNum()), depth + 1, true) == Ok(Read(body, end))
    ensures DecodeValue(d, data, pos, cur, depth)
      == if n == 0 then Ok(Read("[]", r))
         else Ok(Read("[" + NewLine(depth + 1) + body + NewLine(depth) + "]", end))
  {
  }

  /** Any other value is its SFL followed by the scalar decoder of its
      format. */
  lemma ScalarStep(d: Dictionary, data: seq<byte>, pos: nat, cur: Option<Subset>, depth: nat, sfl: Sfl, q: nat)
    requires WellFormed(d) && OptSubsetIn(d, cur) && pos <= |data|
    requires ReadSfl(data, pos) == Ok(Read(sfl, q)) && sfl.format != FMT_SET && sfl.format != FMT_ARRAY
    ensures DecodeValue(d, data, pos, cur, depth) == DecodeScalar(d, data, q, sfl, cur)
  {
  }

  /** A major member: its key, then its value decoded against `sub` (the
      Set's subset when the member is named there, nothing otherwise), then
      the remaining members. */
  lemma MajorMemberStep(d: Dictionary, data: seq<byte>, pos: nat, count: nat, kids: Option<Subset>,
                        depth: nat, first: bool, sfl: Sfl, q: nat, s: nat, sub: Option<Subset>,
                        value: string, mid: nat, rest: string, end: nat, text: string)
    requires WellFormed(d) && OptSubsetIn(d, kids) && pos <= |data| && count > 0
    requires ReadSfl(data, pos) == Ok(Read(sfl, q)) && sfl.Selector() == SELECTOR_MAJOR && sfl.SeqNum() == s
    requires sub == if MemberName(d, kids, s).Some? then kids else None
    requires DecodeValue(d, data, pos, sub, depth) == Ok(Read(value, mid))
    requires mid <= |data| && DecodeMembers(d, data, mid, count - 1, kids, depth, false) == Ok(Read(rest, end))
    requires text == Separator(first, depth) + MemberKey(MemberName(d, kids, s), s) + ": " + value + rest
    ensures DecodeMembers(d, data, pos, count, kids, depth, first) == Ok(Read(text, end))
  {
  }

  /** An annotation member is stepped over: its SFL and its declared
      length are consumed, nothing is printed, and the next member is
      still the first one printed if none was before. */
  lemma AnnotationStep(d: Dictionary, data: seq<byte>, pos: nat, count: nat, kids: Option<Subset>,
                       depth: nat, first: bool, sfl: Sfl, q: nat, next: nat, rest: string, end: nat)
    requires WellFormed(d) && OptSubsetIn(d, kids) && pos <= |data| && count > 0
    requires ReadSfl(data, pos) == Ok(Read(sfl, q)) && sfl.Selector() == SELECTOR_ANNOTATION
    requires next == q + sfl.length && next <= |data|
    requires DecodeMembers(d, data, next, count - 1, kids, depth, first) == Ok(Read(rest, end))
    ensures DecodeMembers(d, data, pos, count, kids, depth, first) == Ok(Read(rest, end))
  {
  }

  /** What the member decoder sees of one member of a Set: a major member
      with its sequence number and the text of its value, or an annotation. */
  datatype Seen = SeenMajor(seqNum: nat, value: string) | SeenAnnotation

  /** The member at b0 is `item` and the next one starts at b1. */
  predicate MemberSeen(d: Dictionary, data: seq<byte>, kids: Option<Subset>, depth: nat, item: Seen, b0: nat, b1: nat)
    requires WellFormed(d) && OptSubsetIn(d, kids)
  {
    && b0 <= b1 <= |data|
    && ReadSfl(data, b0).Ok?
    && var h := ReadSfl(data, b0).value;
       match item
       case SeenMajor(s, text) =>
         && h.value.Selector() == SELECTOR_MAJOR && h.value.SeqNum() == s
         && DecodeValue(d, data, b0, if MemberName(d, kids, s).Some? then kids else None, depth) == Ok(Read(text, b1))
       case SeenAnnotation => h.value.Selector() == SELECTOR_ANNOTATION && h.pos + h.value.length == b1
  }

  /** The j-th member seen lies between bounds[j] and bounds[j + 1]. */
  predicate MemberSeenIn(d: Dictionary, data: seq<byte>, kids: Option<Subset>, depth: nat, seen: seq<Seen>,
                         bounds: seq<nat>, j: nat)
    requires WellFormed(d) && OptSubsetIn(d, kids)
  {
    j < |seen| && |bounds| == |seen| + 1 && MemberSeen(d, data, kids, depth, seen[j], bounds[j], bounds[j + 1])
  }

  /** The text of the members seen from index k on. */
  function SeenText(d: Dictionary, kids: Option<Subset>, seen: seq<Seen>, k: nat, depth: nat, first: bool): string
    requires WellFormed(d) && OptSubsetIn(d, kids) && k <= |seen|
    decreases |seen| - k
  {
    if k == |seen| then ""
    else
      match seen[k]
      case SeenAnnotation => SeenText(d, kids, seen, k + 1, depth, first)
      case SeenMajor(s, text) =>
        Separator(first, depth) + MemberKey(MemberName(d, kids, s), s) + ": " + text
          + SeenText(d, kids, seen, k + 1, depth, false)
  }

  /** Members laid out one after the other, the j-th between bounds[j] and
      bounds[j + 1], decode to the text of what is seen of them. */
  lemma {:induction false} MembersFrom(d: Dictionary, data: seq<byte>, kids: Option<Subset>, depth: nat, first: bool,
                                       seen: seq<Seen>, bounds: seq<nat>, k: nat)
    requires WellFormed(d) && OptSubsetIn(d, kids)
    requires |bounds| == |seen| + 1 && k <= |seen| && bounds[|seen|] <= |data|
    requires forall j :: k <= j < |seen| ==> MemberSeenIn(d, data, kids, depth, seen, bounds, j)
    ensures bounds[k] <= |data|
    ensures DecodeMembers(d, data, bounds[k], |seen| - k, kids, depth, first)
      == Ok(Read(SeenText(d, kids, seen, k, depth, first), bounds[|seen|]))
    decreases |seen| - k
  {
    if k < |seen| {
      var next := if seen[k].SeenAnnotation? then first else false;
      MembersFrom(d, data, kids, depth, next, seen, bounds, k + 1);
      assert MemberSeenIn(d, data, kids, depth, seen, bounds, k);
      MemberFrom(d, data, kids, depth, first, seen, bounds, k);
    }
  }

  /** One member in front of the members after it: an annotation leaves
      the text and `first` as they are, a major member puts its key and
      value in front. */
  lemma MemberFrom(d: Dictionary, data: seq<byte>, kids: Option<Subset>, depth: nat, first: bool,
                   seen: seq<Seen>, bounds: seq<nat>, k: nat)
    requires WellFormed(d) && OptSubsetIn(d, kids)
    requires |bounds| == |seen| + 1 && k < |seen| && bounds[|seen|] <= |data|
    requires MemberSeen(d, data, kids, depth, seen[k], bounds[k], bounds[k + 1])
    requires var next := if seen[k].SeenAnnotation? then first else false;
             DecodeMembers(d, data, bounds[k + 1], |seen| - (k + 1), kids, depth, next)
               == Ok(Read(SeenText(d, kids, seen, k + 1, depth, next), bounds[|seen|]))
    ensures DecodeMembers(d, data, bounds[k], |seen| - k, kids, depth, first)
      == Ok(Read(SeenText(d, kids, seen, k, depth, first), bounds[|seen|]))
  {
    match seen[k]
    case SeenAnnotation =>
      AnnotationFrom(d, data, kids, depth, first, seen, bounds, k);
    case SeenMajor(s, text) =>
      MajorFrom(d, data, kids, depth, first, seen, bounds, k, s, text);
  }

  /** An annotation at index k adds nothing to the text. */
  lemma AnnotationFrom(d: Dictionary, data: seq<byte>, kids: Option<Subset>, depth: nat, first: bool,
                       seen: seq<Seen>, bounds: seq<nat>, k: nat)
    requires WellFormed(d) && OptSubsetIn(d, kids)
    requires |bounds| == |seen| + 1 && k < |seen| && bounds[|seen|] <= |data|
    requires seen[k] == SeenAnnotation
    requires MemberSeen(d, data, kids, depth, SeenAnnotation, bounds[k], bounds[k + 1])
    requires DecodeMembers(d, data, bounds[k + 1], |seen| - (k + 1), kids, depth, first)
               == Ok(Read(SeenText(d, kids, seen, k + 1, depth, first), bounds[|seen|]))
    ensures DecodeMembers(d, data, bounds[k], |seen| - k, kids, depth, first)
      == Ok(Read(SeenText(d, kids, seen, k, depth, first), bounds[|seen|]))
  {
    var h := ReadSfl(data, bounds[k]).value;
    AnnotationStep(d, data, bounds[k], |seen| - k, kids, depth, first, h.value, h.pos, bounds[k + 1],
                   SeenText(d, kids, seen, k + 1, depth, first), bounds[|seen|]);
  }

  /** A major member at index k puts its key and value in front of the
      members after it, which are then no longer the first printed. */
  lemma MajorFrom(d: Dictionary, data: seq<byte>, kids: Option<Subset>, depth: nat, first: bool,
                  seen: seq<Seen>, bounds: seq<nat>, k: nat, s: nat, text: string)
    requires WellFormed(d) && OptSubsetIn(d, kids)
    requires |bounds| == |seen| + 1 && k < |seen| && bounds[|seen|] <= |data|
    requires seen[k] == SeenMajor(s, text)
    requires MemberSeen(d, data, kids, depth, SeenMajor(s, text), bounds[k], bounds[k + 1])
    requires DecodeMembers(d, data, bounds[k + 1], |seen| - (k + 1), kids, depth, false)
               == Ok(Read(SeenText(d, kids, seen, k + 1, depth, false), bounds[|seen|]))
    ensures DecodeMembers(d, data, bounds[k], |seen| - k, kids, depth, first)
      == Ok(Read(SeenText(d, kids, seen, k, depth, first), bounds[|seen|]))
  {
    var h := ReadSfl(data, bounds[k]).value;
    var rest := SeenText(d, kids, seen, k + 1, depth, false);
    var whole := Separator(first, depth) + MemberKey(MemberName(d, kids, s), s) + ": " + text + rest;
    SeenTextMajor(d, kids, seen, k, depth, first, s, text);
    MajorMemberStep(d, data, bounds[k], |seen| - k, kids, depth, first, h.value, h.pos, s,
                    if MemberName(d, kids, s).Some? then kids else None, text, bounds[k + 1], rest,
                    bounds[|seen|], whole);
  }

  /** The text seen from a major member on starts with that member. */
  lemma SeenTextMajor(d: Dictionary, kids: Option<Subset>, seen: seq<Seen>, k: nat, depth: nat, first: bool,
                      s: nat, text: string)
    requires WellFormed(d) && OptSubsetIn(d, kids) && k < |seen| && seen[k] == SeenMajor(s, text)
    ensures SeenText(d, kids, seen, k, depth, first)
      == Separator(first, depth) + MemberKey(MemberName(d, kids, s), s) + ": " + text
         + SeenText(d, kids, seen, k + 1, depth, false)
  {
  }

  /** The element at b0 decodes to `text` and the next one starts at b1. */
  predicate ElementSeen(d: Dictionary, data: seq<byte>, elems: Option<Subset>, depth: nat, text: string, b0: nat, b1: nat)
    requires WellFormed(d) && OptSubsetIn(d, elems)
  {
    b0 <= b1 <= |data| && DecodeValue(d, data, b0, elems, depth) == Ok(Read(text, b1))
  }

  /** The j-th element decodes to texts[j] between bounds[j] and
      bounds[j + 1]. */
  predicate ElementSeenIn(d: Dictionary, data: seq<byte>, elems: Option<Subset>, depth: nat, texts: seq<string>,
                          bounds: seq<nat>, j: nat)
    requires WellFormed(d) && OptSubsetIn(d, elems)
  {
    j < |texts| && |bounds| == |texts| + 1 && ElementSeen(d, data, elems, depth, texts[j], bounds[j], bounds[j + 1])
  }

  /** The texts of elements from index k on, separated. */
  function ElementsText(texts: seq<string>, k: nat, depth: nat, first: bool): string
    requires k <= |texts|
    decreases |texts| - k
  {
    if k == |texts| then "" else Separator(first, depth) + texts[k] + ElementsText(texts, k + 1, depth, false)
  }

  /** Elements laid out one after the other decode to their texts,
      separated. */
  lemma {:induction false} ElementsFrom(d: Dictionary, data: seq<byte>, elems: Option<Subset>, depth: nat, first: bool,
                                        texts: seq<string>, bounds: seq<nat>, k: nat)
    requires WellFormed(d) && OptSubsetIn(d, elems)
    requires |bounds| == |texts| + 1 && k <= |texts| && bounds[|texts|] <= |data|
    requires forall j :: k <= j < |texts| ==> ElementSeenIn(d, data, elems, depth, texts, bounds, j)
    ensures bounds[k] <= |data|
    ensures DecodeElements(d, data, bounds[k], |texts| - k, elems, depth, first)
      == Ok(Read(ElementsText(texts, k, depth, first), bounds[|texts|]))
    decreases |texts| - k
  {
    if k < |texts| {
      ElementsFrom(d, data, elems, depth, false, texts, bounds, k + 1);
      assert ElementSeenIn(d, data, elems, depth, texts, bounds, k);
      ElementFrom(d, data, elems, depth, first, texts, bounds, k);
    }
  }

  /** One element in front of the elements after it. */
  lemma ElementFrom(d: Dictionary, data: seq<byte>, elems: Option<Subset>, depth: nat, first: bool,
                    texts: seq<string>, bounds: seq<nat>, k: nat)
    requires WellFormed(d) && OptSubsetIn(d, elems)
    requires |bounds| == |texts| + 1 && k < |texts| && bounds[|texts|] <= |data|
    requires ElementSeen(d, data, elems, depth, texts[k], bounds[k], bounds[k + 1])
    requires DecodeElements(d, data, bounds[k + 1], |texts| - (k + 1), elems, depth, false)
               == Ok(Read(ElementsText(texts, k + 1, depth, false), bounds[|texts|]))
    ensures DecodeElements(d, data, bounds[k], |texts| - k, elems, depth, first)
      == Ok(Read(ElementsText(texts, k, depth, first), bounds[|texts|]))
  {
    var b0, b1, end, text := bounds[k], bounds[k + 1], bounds[|texts|], texts[k];
    var rest := ElementsText(texts, k + 1, depth, false);
    ElementStep(d, data, elems, depth, first, b0, text, b1, |texts| - (k + 1), rest, end);
    ElementsTextFront(texts, k, depth, first, rest);
  }

  /** One decoded element in front of the elements after it. */
  lemma ElementStep(d: Dictionary, data: seq<byte>, elems: Option<Subset>, depth: nat, first: bool,
                    b0: nat, text: string, b1: nat, n: nat, rest: string, end: nat)
    requires WellFormed(d) && OptSubsetIn(d, elems) && b0 <= b1 <= |data|
    requires DecodeValue(d, data, b0, elems, depth) == Ok(Read(text, b1))
    requires DecodeElements(d, data, b1, n, elems, depth, false) == Ok(Read(rest, end))
    ensures DecodeElements(d, data, b0, n + 1, elems, depth, first)
      == Ok(Read(Separator(first, depth) + text + rest, end))
  {
  }

  /** The text of the elements from k on is the k-th text, separated, in
      front of the rest. */
  lemma ElementsTextFront(texts: seq<string>, k: nat, depth: nat, first: bool, rest: string)
    requires k < |texts| && rest == ElementsText(texts, k + 1, depth, false)
    ensures ElementsText(texts, k, depth, first) == Separator(first, depth) + texts[k] + rest
  {
  }

  /** A Real's fields are four reads in sequence. */
  lemma RealPartsStep(data: seq<byte>, pos: nat, parts: RealParts, p1: nat, p2: nat, p3: nat, end: nat)
    requires ReadSignedPart(data, pos) == Ok(Read(parts.whole, p1))
    requires ReadNnint(data, p1) == Ok(Read(parts.leadingZeros, p2))
    requires ReadNnint(data, p2) == Ok(Read(parts.fraction, p3))
    requires ReadSignedPart(data, p3) == Ok(Read(parts.exponent, end))
    ensures ReadRealParts(data, pos) == Ok(Read(parts, end))
  {
  }

  /** A signed field is its width, then that many bytes. */
  lemma SignedPartStep(data: seq<byte>, pos: nat, width: nat, q: nat, v: int, end: nat)
    requires width <= 8
    requires ReadNnint(data, pos) == Ok(Read(width, q))
    requires ReadSigned(data, q, width) == Ok(Read(v, end))
    ensures ReadSignedPart(data, pos) == Ok(Read(v, end))
  {
  }

  /** A String whose bytes end in a NUL prints the bytes before it. */
  lemma StringStep(data: seq<byte>, pos: nat, payload: seq<byte>)
    requires |payload| + 1 <= MAX_STRING_LENGTH
    requires ReadBytes(data, pos, |payload| + 1) == Ok(Read(payload + [0], pos + |payload| + 1))
    ensures DecodeString(data, pos, |payload| + 1) == Ok(Read(Quoted(payload), pos + |payload| + 1))
  {
    var raw := payload + [0];
    assert raw[..|raw| - 1] == payload;
  }

  /** A document whose header is complete and whose schema class is 0 or 1
      is the text of its root value. */
  lemma DocumentStep(d: Dictionary, bej: seq<byte>, text: string, end: nat)
    requires WellFormed(d) && |bej| >= HEADER_LENGTH && bej[6] <= 1
    requires DecodeValue(d, bej, HEADER_LENGTH, None, 0) == Ok(Read(text, end))
    ensures DecodeToJson(d, bej) == Ok(text)
  {
  }
}
