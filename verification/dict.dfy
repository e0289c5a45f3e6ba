/** The schema dictionary: a flat little-endian table (a 12-byte header,
    then one 10-byte record per entry, then a pool of NUL-terminated
    names) turned into an arena of entries whose children are index
    ranges into the same arena. */
module Dict {
  import opened Bytes
  import opened Results

  const HEADER_SIZE: nat := 12
  const ENTRY_SIZE: nat := 10

  /** 2^32: the C computes the child offset in unsigned 32-bit arithmetic. */
  const UINT32_RANGE: nat := 0x1_0000_0000

  /** The little-endian u16 at byte `at`. */
  function Rd16(bs: seq<byte>, at: nat): (r: nat)
    requires at + 2 <= |bs|
    ensures r < 0x1_0000
  {
    var b0: int, b1: int := bs[at], bs[at + 1];
    b0 + 256 * b1
  }

  /** The little-endian u32 at byte `at`. */
  function Rd32(bs: seq<byte>, at: nat): (r: nat)
    requires at + 4 <= |bs|
    ensures r < UINT32_RANGE
  {
    var b0: int, b1: int, b2: int, b3: int := bs[at], bs[at + 1], bs[at + 2], bs[at + 3];
    b0 + 256 * b1 + 0x1_0000 * b2 + 0x100_0000 * b3
  }

  /** Both readers agree with the generic little-endian value of the slice. */
  lemma RdAgreesWithLeValue(bs: seq<byte>, at: nat)
    requires at + 4 <= |bs|
    ensures Rd16(bs, at) == LeValue(bs[at..at + 2])
    ensures Rd32(bs, at) == LeValue(bs[at..at + 4])
  {
    var s := bs[at..at + 4];
    assert s[1..][1..][1..][1..] == [];
    assert LeValue(s[3..]) == s[3];
    var b1: int, b2: int, b3: int := s[1], s[2], s[3];
    assert LeValue(s[2..]) == b2 + 256 * b3;
    assert LeValue(s[1..]) == b1 + 256 * b2 + 0x1_0000 * b3;
    var t := bs[at..at + 2];
    assert t[1..][1..] == [];
    assert LeValue(t[1..]) == t[1];
  }

  /** One 10-byte record as it sits on disk: format-and-flags byte,
      sequence, child pointer, child count, name length, name offset. */
  datatype DiskEntry = DiskEntry(formatAndFlags: byte, seqNum: nat, childPtr: nat,
                                 childCount: nat, nameLen: byte, nameOff: nat)
  {
    predicate Valid() {
      seqNum < 0x1_0000 && childPtr < 0x1_0000 && childCount < 0x1_0000 && nameOff < 0x1_0000
    }
  }

  function ParseRecord(bs: seq<byte>, at: nat): (r: DiskEntry)
    requires at + ENTRY_SIZE <= |bs|
    ensures r.Valid()
  {
    DiskEntry(bs[at], Rd16(bs, at + 1), Rd16(bs, at + 3), Rd16(bs, at + 5), bs[at + 7], Rd16(bs, at + 8))
  }

  function U16Bytes(v: nat): (r: seq<byte>)
    requires v < 0x1_0000
    ensures |r| == 2
  {
    [(v % 256) as byte, (v / 256) as byte]
  }

  /** The 10 bytes of a record. */
  function EncodeRecord(d: DiskEntry): (r: seq<byte>)
    requires d.Valid()
    ensures |r| == ENTRY_SIZE
  {
    [d.formatAndFlags] + U16Bytes(d.seqNum) + U16Bytes(d.childPtr) + U16Bytes(d.childCount)
      + [d.nameLen] + U16Bytes(d.nameOff)
  }

  lemma ParseEncodedRecord(d: DiskEntry)
    requires d.Valid()
    ensures ParseRecord(EncodeRecord(d), 0) == d
  {
  }

  lemma EncodeParsedRecord(bs: seq<byte>, at: nat)
    requires at + ENTRY_SIZE <= |bs|
    ensures EncodeRecord(ParseRecord(bs, at)) == bs[at..at + ENTRY_SIZE]
  {
  }

  /** A resolved entry. The child range is (childFirst, childCount), with
      childFirst = -1 for an entry without children; the name is an
      absolute offset into the dictionary's buffer, or None. */
  datatype Entry = Entry(format: nat, flags: nat, seqNum: nat, childFirst: int,
                         childCount: nat, nameOff: Option<nat>)

  /** The index `(child_ptr - 12) / 10` the loader stores, with the
      subtraction done in unsigned 32-bit arithmetic as in the C. */
  function ChildIndex(ptr: nat): (k: nat)
    requires 0 < ptr < 0x1_0000
    ensures k < 0x8000_0000
  {
    ((ptr - HEADER_SIZE) % UINT32_RANGE) / ENTRY_SIZE
  }

  /** A pointer at the start of record k resolves to index k. */
  lemma ChildIndexOfRecord(k: nat)
    requires 0 < HEADER_SIZE + ENTRY_SIZE * k < 0x1_0000
    ensures ChildIndex(HEADER_SIZE + ENTRY_SIZE * k) == k
  {
  }

  /** The loader neither range-checks nor alignment-checks the pointer: one
      that points into the middle of a record resolves to the record it
      falls in, and one that points into the header wraps around to an
      index far beyond any 16-bit entry count. */
  lemma ChildIndexUnchecked(ptr: nat)
    requires 0 < ptr < 0x1_0000
    ensures ptr >= HEADER_SIZE ==> HEADER_SIZE + ENTRY_SIZE * ChildIndex(ptr) <= ptr < HEADER_SIZE + ENTRY_SIZE * (ChildIndex(ptr) + 1)
    ensures ptr < HEADER_SIZE ==> ChildIndex(ptr) >= 429496728
  {
  }

  /** One record resolved the way the loader does it: the format-and-flags
      byte split into nibbles, a zero child pointer meaning no children,
      a zero name offset meaning no name; the name length is ignored. */
  function Resolve(d: DiskEntry): (e: Entry)
    requires d.Valid()
    ensures 16 * e.format + e.flags == d.formatAndFlags && e.flags < 16
    ensures e.seqNum == d.seqNum
    ensures e.childFirst >= 0 <==> d.childPtr != 0
    ensures d.childPtr == 0 ==> e.childCount == 0
    ensures d.childPtr != 0 ==> e.childCount == d.childCount && e.childFirst == ChildIndex(d.childPtr)
    ensures e.nameOff.Some? <==> d.nameOff != 0
    ensures e.nameOff.Some? ==> e.nameOff.value == d.nameOff
  {
    var format := d.formatAndFlags / 16;
    var flags := d.formatAndFlags % 16;
    var name := if d.nameOff != 0 then Some(d.nameOff) else None;
    if d.childPtr != 0 then Entry(format, flags, d.seqNum, ChildIndex(d.childPtr), d.childCount, name)
    else Entry(format, flags, d.seqNum, -1, 0, name)
  }

  /** Two records that differ only in the name length resolve alike. */
  lemma NameLenIgnored(d: DiskEntry, len: byte)
    requires d.Valid()
    ensures Resolve(d.(nameLen := len)) == Resolve(d)
  {
  }

  /** Entry i of the table: the record at byte 12 + 10 i, resolved. */
  function EntryAt(bs: seq<byte>, i: nat): Entry
    requires HEADER_SIZE + ENTRY_SIZE * (i + 1) <= |bs|
  {
    Resolve(ParseRecord(bs, HEADER_SIZE + ENTRY_SIZE * i))
  }

  /** The first n entries of the table, in load order. */
  function Entries(bs: seq<byte>, n: nat): (r: seq<Entry>)
    requires HEADER_SIZE + ENTRY_SIZE * n <= |bs|
    ensures |r| == n
    ensures forall i :: 0 <= i < n ==> r[i] == EntryAt(bs, i)
  {
    if n == 0 then [] else Entries(bs, n - 1) + [EntryAt(bs, n - 1)]
  }

  datatype Dictionary = Dictionary(
    bytes: seq<byte>,       // the whole table; names point into it
    versionTag: byte,
    dictFlags: byte,
    entryCount: nat,
    schemaVersion: nat,
    dictSize: nat,
    entries: seq<Entry>)

  /** `dict_load` after the file has been read: fails when the buffer is
      shorter than the header or than the record table the header
      announces; otherwise decodes every record, trusting its child
      pointer and name offset. */
  function Load(bs: seq<byte>): (r: Result<Dictionary>)
    ensures r.Ok? <==> |bs| >= HEADER_SIZE && |bs| >= HEADER_SIZE + ENTRY_SIZE * Rd16(bs, 2)
    ensures r.Err? ==> r.error == Truncated
    ensures r.Ok? ==>
      && r.value.bytes == bs
      && r.value.versionTag == bs[0] && r.value.dictFlags == bs[1]
      && r.value.entryCount == Rd16(bs, 2)
      && r.value.schemaVersion == Rd32(bs, 4) && r.value.dictSize == Rd32(bs, 8)
      && |r.value.entries| == r.value.entryCount
      && forall i :: 0 <= i < |r.value.entries| ==> r.value.entries[i] == EntryAt(bs, i)
  {
    if |bs| < HEADER_SIZE then Err(Truncated)
    else
      var count := Rd16(bs, 2);
      if |bs| < HEADER_SIZE + ENTRY_SIZE * count then Err(Truncated)
      else Ok(Dictionary(bs, bs[0], bs[1], count, Rd32(bs, 4), Rd32(bs, 8), Entries(bs, count)))
  }

  /** A C string starts at `off`: the offset is inside the buffer and a NUL
      follows it before the end. */
  predicate NulTerminated(bs: seq<byte>, off: nat) {
    off < |bs| && 0 in bs[off..]
  }

  /** The bytes `strlen` walks over from `off`, up to the first NUL. */
  function CString(bs: seq<byte>, off: nat): (r: seq<byte>)
    requires NulTerminated(bs, off)
    ensures off + |r| < |bs| && bs[off + |r|] == 0
    ensures r == bs[off..off + |r|]
    ensures 0 !in r
    decreases |bs| - off
  {
    if bs[off] == 0 then []
    else
      assert bs[off..] == [bs[off]] + bs[off + 1..];
      [bs[off]] + CString(bs, off + 1)
  }

  /** What the loader leaves unchecked and navigation relies on: the
      table holds entryCount entries, every child range lies inside it,
      and every name offset starts a NUL-terminated string inside the
      buffer. */
  predicate WellFormed(d: Dictionary) {
    && |d.entries| == d.entryCount
    && forall i :: 0 <= i < |d.entries| ==> EntryWellFormed(d, d.entries[i])
  }

  predicate EntryWellFormed(d: Dictionary, e: Entry) {
    && (e.childFirst >= 0 && e.childCount > 0 ==> e.childFirst + e.childCount <= |d.entries|)
    && (e.nameOff.Some? ==> NulTerminated(d.bytes, e.nameOff.value))
  }

  /** A child list: the null list, or `count` consecutive entries starting
      at index `first`. */
  datatype Subset = NoList | Range(first: nat, count: nat)

  predicate SubsetIn(d: Dictionary, s: Subset) {
    s.Range? ==> s.first + s.count <= |d.entries|
  }

  /** A possibly absent subset (a null subset pointer) lies in the table. */
  predicate OptSubsetIn(d: Dictionary, s: Option<Subset>) {
    s.Some? ==> SubsetIn(d, s.value)
  }

  predicate InSubset(s: Option<Subset>, i: nat) {
    s.Some? && s.value.Range? && s.value.first <= i < s.value.first + s.value.count
  }

  /** `dict_children`: the child range of entry `parent`, or of the root
      entry 0 when `parent` is negative; the null list when the table is
      empty or the entry has no children. */
  function Children(d: Dictionary, parent: int): (r: Subset)
    requires |d.entries| == d.entryCount
    requires parent < |d.entries|
    ensures WellFormed(d) ==> SubsetIn(d, r)
    ensures parent < 0 && d.entryCount == 0 ==> r == NoList
    ensures r.Range? ==> r.count > 0
    ensures |d.entries| > 0 ==>
      var e := d.entries[if parent < 0 then 0 else parent];
      if e.childFirst >= 0 && e.childCount > 0
      then r == Range(e.childFirst, e.childCount)
      else r == NoList
  {
    if parent < 0 && d.entryCount == 0 then NoList
    else
      var e := d.entries[if parent < 0 then 0 else parent];
      if e.childFirst >= 0 && e.childCount > 0 then Range(e.childFirst, e.childCount) else NoList
  }

  /** `dict_child_by_seq`: the first entry of the subset whose sequence
      number is `seq`; none for a null or empty subset, or when no entry
      matches. */
  function ChildBySeq(d: Dictionary, s: Option<Subset>, seqNum: nat): (r: Option<nat>)
    requires OptSubsetIn(d, s)
    ensures r.Some? ==> InSubset(s, r.value) && r.value < |d.entries|
    ensures r.Some? ==> d.entries[r.value].seqNum == seqNum
    ensures r.Some? ==> forall j: nat :: InSubset(s, j) && j < r.value ==> d.entries[j].seqNum != seqNum
    ensures r.None? ==> forall j: nat :: InSubset(s, j) ==> d.entries[j].seqNum != seqNum
  {
    match s
    case None => None
    case Some(NoList) => None
    case Some(Range(first, count)) => Scan(d.entries, first, first + count, seqNum)
  }

  /** The linear search over entries [i, end). */
  function Scan(entries: seq<Entry>, i: nat, end: nat, seqNum: nat): (r: Option<nat>)
    requires end <= |entries|
    ensures r.Some? ==> i <= r.value < end && entries[r.value].seqNum == seqNum
    ensures r.Some? ==> forall j :: i <= j < r.value ==> entries[j].seqNum != seqNum
    ensures r.None? ==> forall j :: i <= j < end ==> entries[j].seqNum != seqNum
    decreases end - i
  {
    if i >= end then None
    else if entries[i].seqNum == seqNum then Some(i)
    else Scan(entries, i + 1, end, seqNum)
  }

  /** The name of entry i as `strlen` sees it, when it has one. */
  function NameOf(d: Dictionary, i: nat): (r: Option<seq<byte>>)
    requires WellFormed(d) && i < |d.entries|
    ensures r.Some? <==> d.entries[i].nameOff.Some?
    ensures r.Some? ==>
      var off := d.entries[i].nameOff.value;
      && 0 !in r.value
      && off + |r.value| < |d.bytes|
      && r.value == d.bytes[off..off + |r.value|]
      && d.bytes[off + |r.value|] == 0
  {
    assert EntryWellFormed(d, d.entries[i]);
    match d.entries[i].nameOff
    case None => None
    case Some(off) => Some(CString(d.bytes, off))
  }
}
