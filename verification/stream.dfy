/** The bounds-checked byte cursor and the two wire primitives every BEJ
    value starts with: the nnint (a length byte, then that many
    little-endian value bytes) and the SFL triple (sequence with
    selector, format and flags, length).

    A cursor is the immutable buffer plus a position. Every read returns
    the value and the position just after it, or an error; a caller that
    gets an error still holds its own position, so a failed read never
    moves the cursor. */
module Stream {
  import opened Bytes
  import opened Results

  /** A value read from the buffer and the position just after it. */
  datatype Read<+T> = Read(value: T, pos: nat)

  /** s sits in data starting at pos. The byte-by-byte definition sits
      two calls down (`AtLayer`, then `AtBytes`), so the verifier does not
      look inside a placement unless a proof asks it to; `AtIsSlice` gives
      the slice form. */
  predicate At(data: seq<byte>, pos: nat, s: seq<byte>)
    decreases |s|, 2
  {
    pos + |s| <= |data| && AtLayer(data, pos, s)
  }

  predicate AtLayer(data: seq<byte>, pos: nat, s: seq<byte>)
    decreases |s|, 1
  {
    AtBytes(data, pos, s)
  }

  predicate AtBytes(data: seq<byte>, pos: nat, s: seq<byte>)
    decreases |s|, 0
  {
    if |s| == 0 then pos <= |data|
    else pos < |data| && data[pos] == s[0] && At(data, pos + 1, s[1..])
  }

  lemma {:induction false} AtIsSlice(data: seq<byte>, pos: nat, s: seq<byte>)
    ensures At(data, pos, s) <==> pos + |s| <= |data| && data[pos..pos + |s|] == s
    decreases |s|
  {
    assert At(data, pos, s) == (pos + |s| <= |data| && AtBytes(data, pos, s));
    if |s| > 0 {
      AtIsSlice(data, pos + 1, s[1..]);
      if pos + |s| <= |data| {
        assert data[pos..pos + |s|] == [data[pos]] + data[pos + 1..pos + |s|];
      }
    }
  }

  lemma AtSplit(data: seq<byte>, pos: nat, a: seq<byte>, b: seq<byte>)
    requires At(data, pos, a + b)
    ensures At(data, pos, a) && At(data, pos + |a|, b) && pos + |a| + |b| <= |data|
  {
    AtIsSlice(data, pos, a + b);
    AtIsSlice(data, pos, a);
    AtIsSlice(data, pos + |a|, b);
    assert data[pos..pos + |a|] == (a + b)[..|a|];
    assert data[pos + |a|..pos + |a| + |b|] == (a + b)[|a|..];
  }

  /** The middle of a concatenation sits right after its prefix. */
  lemma AtMiddle(a: seq<byte>, s: seq<byte>, b: seq<byte>)
    ensures At(a + s + b, |a|, s)
  {
    AtIsSlice(a + s + b, |a|, s);
    assert (a + s + b)[|a|..|a| + |s|] == s;
  }

  lemma AtSplit3(data: seq<byte>, pos: nat, a: seq<byte>, b: seq<byte>, c: seq<byte>)
    requires At(data, pos, a + b + c)
    ensures At(data, pos, a) && At(data, pos + |a|, b) && At(data, pos + |a| + |b|, c)
  {
    AtSplit(data, pos, a + b, c);
    AtSplit(data, pos, a, b);
  }

  /** One byte; fails at or past the end of the buffer. */
  function ReadU8(data: seq<byte>, pos: nat): (r: Result<Read<byte>>)
    ensures r.Ok? <==> pos < |data|
    ensures r.Ok? ==> r.value.value == data[pos] && r.value.pos == pos + 1 <= |data|
    ensures r.Err? ==> r.error == Truncated
  {
    if pos >= |data| then Err(Truncated) else Ok(Read(data[pos], pos + 1))
  }

  /** n bytes; fails when fewer than n remain. */
  function ReadBytes(data: seq<byte>, pos: nat, n: nat): (r: Result<Read<seq<byte>>>)
    ensures r.Ok? <==> pos + n <= |data|
    ensures r.Ok? ==> |r.value.value| == n && r.value.pos == pos + n <= |data|
    ensures r.Ok? ==> At(data, pos, r.value.value)
    ensures r.Err? ==> r.error == Truncated
  {
    if pos + n > |data| then Err(Truncated)
    else
      AtIsSlice(data, pos, data[pos..pos + n]);
      Ok(Read(data[pos..pos + n], pos + n))
  }

  /** Consumes the expected bytes, or fails without consuming anything. */
  function ExpectBytes(data: seq<byte>, pos: nat, expected: seq<byte>): (r: Result<nat>)
    ensures r.Ok? <==> At(data, pos, expected)
    ensures r.Ok? ==> r.value == pos + |expected|
  {
    AtIsSlice(data, pos, expected);
    if pos + |expected| > |data| then Err(Truncated)
    else if data[pos..pos + |expected|] != expected then Err(Truncated)
    else Ok(pos + |expected|)
  }

  /** Expecting bytes succeeds exactly when reading that many bytes gives them. */
  lemma ExpectIsReadAndCompare(data: seq<byte>, pos: nat, expected: seq<byte>)
    ensures ExpectBytes(data, pos, expected).Ok?
        <==> ReadBytes(data, pos, |expected|) == Ok(Read(expected, pos + |expected|))
  {
  }

  /** The unsigned value of the n bytes of data from pos on, least
      significant first, read in place. */
  function LeValueAt(data: seq<byte>, pos: nat, n: nat): (r: nat)
    requires pos + n <= |data|
    ensures r < Pow256(n)
    decreases n
  {
    if n == 0 then 0 else data[pos] + 256 * LeValueAt(data, pos + 1, n - 1)
  }

  /** Reading in place is reading the slice. */
  lemma {:induction false} LeValueAtIsSlice(data: seq<byte>, pos: nat, n: nat)
    requires pos + n <= |data|
    ensures LeValueAt(data, pos, n) == LeValue(data[pos..pos + n])
    decreases n
  {
    if n > 0 {
      LeValueAtIsSlice(data, pos + 1, n - 1);
      assert data[pos..pos + n][1..] == data[pos + 1..pos + n];
    }
  }

  /** An nnint: a count byte c, then c little-endian bytes. A zero count
      is the value 0; a count above 8 is an error. */
  function ReadNnint(data: seq<byte>, pos: nat): (r: Result<Read<nat>>)
    ensures r.Ok? <==> pos < |data| && data[pos] <= 8 && pos + 1 + data[pos] <= |data|
    ensures r.Ok? ==> r.value.pos == pos + 1 + data[pos] <= |data|
    ensures r.Ok? ==> r.value.value == LeValueAt(data, pos + 1, data[pos])
    ensures r.Ok? ==> r.value.value < Pow256(8)
    ensures pos < |data| && data[pos] > 8 ==> r == Err(BadNnint)
  {
    var count :- ReadU8(data, pos);
    if count.value == 0 then Ok(Read(0, count.pos))
    else if count.value > 8 then Err(BadNnint)
    else if count.pos + count.value > |data| then Err(Truncated)
    else
      assert Pow256(count.value) <= Pow256(8) by {
        Pow256Add(count.value, 8 - count.value);
      }
      Ok(Read(LeValueAt(data, count.pos, count.value), count.pos + count.value))
  }

  /** The bytes of an nnint with an explicit count, as the test helper
      `make_nnint` writes them. */
  function NnintBytes(v: nat, n: nat): (r: seq<byte>)
    requires n <= 8
    ensures |r| == 1 + n
  {
    [n as byte] + LeBytes(v, n)
  }

  /** The fewest bytes that hold v. */
  function ByteLen(v: nat): (n: nat)
    ensures v < Pow256(n)
    ensures n == 0 || Pow256(n - 1) <= v
  {
    if v == 0 then 0 else 1 + ByteLen(v / 256)
  }

  /** Every value below 2^64 fits in the eight value bytes an nnint allows. */
  lemma ByteLenAtMost8(v: nat)
    requires v < Pow256(8)
    ensures ByteLen(v) <= 8
  {
    var n := ByteLen(v);
    if n > 8 {
      Pow256Add(8, n - 1 - 8);
    }
  }

  /** The canonical nnint of v: as few value bytes as possible. Values that
      do not fit in 8 bytes have no nnint; they become a count byte the
      reader rejects. */
  function EncodeNnint(v: nat): (r: seq<byte>)
    ensures v < Pow256(8) ==> ByteLen(v) <= 8 && r == NnintBytes(v, ByteLen(v))
    ensures |r| >= 1
  {
    if v < Pow256(8) then ByteLenAtMost8(v); NnintBytes(v, ByteLen(v)) else [9]
  }

  /** Reading an nnint back from its bytes gives the value and consumes
      exactly the bytes. */
  lemma ReadNnintOf(data: seq<byte>, pos: nat, v: nat, n: nat)
    requires n <= 8 && v < Pow256(n)
    requires At(data, pos, NnintBytes(v, n))
    ensures ReadNnint(data, pos) == Ok(Read(v, pos + 1 + n))
  {
    var e := NnintBytes(v, n);
    AtIsSlice(data, pos, e);
    assert data[pos] == e[0] == n;
    assert data[pos + 1..pos + 1 + n] == e[1..] == LeBytes(v, n);
    LeValueOfLeBytes(v, n);
    LeValueAtIsSlice(data, pos + 1, n);
  }

  lemma ReadEncodedNnint(data: seq<byte>, pos: nat, v: nat)
    requires v < Pow256(8)
    requires At(data, pos, EncodeNnint(v))
    ensures ReadNnint(data, pos) == Ok(Read(v, pos + |EncodeNnint(v)|))
  {
    ByteLenAtMost8(v);
    ReadNnintOf(data, pos, v, ByteLen(v));
  }

  /** The other direction: whatever an nnint read accepts is the nnint of
      the value it returns, with the count byte it found. */
  lemma ReadNnintBytes(data: seq<byte>, pos: nat)
    requires ReadNnint(data, pos).Ok?
    ensures var r := ReadNnint(data, pos).value;
      r.pos == pos + 1 + data[pos] && At(data, pos, NnintBytes(r.value, data[pos]))
  {
    var n := data[pos];
    LeBytesAt(data, pos + 1, n);
    AtCons(data, pos, n, LeBytes(LeValueAt(data, pos + 1, n), n));
  }

  /** The n bytes from pos on are the n-byte encoding of the value they
      hold. */
  lemma {:induction false} LeBytesAt(data: seq<byte>, pos: nat, n: nat)
    requires pos + n <= |data|
    ensures At(data, pos, LeBytes(LeValueAt(data, pos, n), n))
    decreases n
  {
    if n == 0 {
      assert At(data, pos, []);
    } else {
      var v := LeValueAt(data, pos, n);
      LeBytesAt(data, pos + 1, n - 1);
      assert v % 256 == data[pos] && v / 256 == LeValueAt(data, pos + 1, n - 1);
      AtCons(data, pos, data[pos], LeBytes(v / 256, n - 1));
    }
  }

  /** A byte followed by a placed sequence places the two together. */
  lemma AtCons(data: seq<byte>, pos: nat, b: byte, s: seq<byte>)
    requires pos < |data| && data[pos] == b && At(data, pos + 1, s)
    ensures At(data, pos, [b] + s)
  {
    assert ([b] + s)[1..] == s;
  }

  /** The SFL triple. The low bit of the sequence is the selector (0 for a
      major schema field, 1 for an annotation); the rest, cut to 16 bits,
      is the sequence number. */
  datatype Sfl = Sfl(seqSel: nat, format: nat, flags: nat, length: nat) {
    function Selector(): nat {
      seqSel % 2
    }

    function SeqNum(): nat {
      (seqSel / 2) % 65536
    }
  }

  const SELECTOR_MAJOR: nat := 0
  const SELECTOR_ANNOTATION: nat := 1

  /** An SFL: nnint sequence, one byte whose high nibble is the format and
      low nibble the flags, nnint length. It is at least three bytes long. */
  function ReadSfl(data: seq<byte>, pos: nat): (r: Result<Read<Sfl>>)
    ensures r.Ok? ==> pos + 3 <= r.value.pos <= |data|
    ensures r.Ok? ==> r.value.value.format < 16 && r.value.value.flags < 16
    ensures r.Ok? ==> r.value.value.Selector() < 2 && r.value.value.SeqNum() < 65536
  {
    var s :- ReadNnint(data, pos);
    var ff :- ReadU8(data, s.pos);
    var len :- ReadNnint(data, ff.pos);
    Ok(Read(Sfl(s.value, ff.value / 16, ff.value % 16, len.value), len.pos))
  }

  /** The bytes of an SFL whose sequence is seq with the given selector. */
  function SflBytes(seqNum: nat, selector: nat, format: nat, flags: nat, length: nat): seq<byte>
    requires selector < 2 && format < 16 && flags < 16
  {
    EncodeNnint(2 * seqNum + selector) + [(16 * format + flags) as byte] + EncodeNnint(length)
  }

  /** Reading an SFL back from its bytes gives its parts: the selector, the
      16-bit sequence number, format, flags and length. */
  lemma ReadSflOf(data: seq<byte>, pos: nat, seqNum: nat, selector: nat, format: nat, flags: nat, length: nat,
                  end: nat)
    requires seqNum < 65536 && selector < 2 && format < 16 && flags < 16 && length < Pow256(8)
    requires At(data, pos, SflBytes(seqNum, selector, format, flags, length))
    requires end == pos + |SflBytes(seqNum, selector, format, flags, length)|
    ensures ReadSfl(data, pos) == Ok(Read(Sfl(2 * seqNum + selector, format, flags, length), end))
    ensures Sfl(2 * seqNum + selector, format, flags, length).Selector() == selector
    ensures Sfl(2 * seqNum + selector, format, flags, length).SeqNum() == seqNum
  {
    var seqSel := 2 * seqNum + selector;
    var ff := (16 * format + flags) as byte;
    Pow256Eight();
    ReadSflOfBytes(data, pos, seqSel, ff, length, end);
    SplitNibbles(format, flags);
    SplitSelector(seqNum, selector);
  }

  lemma ReadSflOfBytes(data: seq<byte>, pos: nat, seqSel: nat, ff: byte, length: nat, end: nat)
    requires seqSel < Pow256(8) && length < Pow256(8)
    requires At(data, pos, EncodeNnint(seqSel) + [ff] + EncodeNnint(length))
    requires end == pos + |EncodeNnint(seqSel) + [ff] + EncodeNnint(length)|
    ensures ReadSfl(data, pos) == Ok(Read(Sfl(seqSel, ff / 16, ff % 16, length), end))
  {
    var a := EncodeNnint(seqSel);
    var c := EncodeNnint(length);
    AtSplit3(data, pos, a, [ff], c);
    ReadEncodedNnint(data, pos, seqSel);
    var p1 := pos + |a|;
    AtIsSlice(data, p1, [ff]);
    assert data[p1] == data[p1..p1 + 1][0] == ff;
    ReadEncodedNnint(data, p1 + 1, length);
    ReadSflParts(data, pos, seqSel, p1, length, end);
  }

  /** An SFL read is its three reads in sequence. */
  lemma ReadSflParts(data: seq<byte>, pos: nat, seqSel: nat, p1: nat, length: nat, q: nat)
    requires ReadNnint(data, pos) == Ok(Read(seqSel, p1))
    requires p1 < |data|
    requires ReadNnint(data, p1 + 1) == Ok(Read(length, q))
    ensures ReadSfl(data, pos) == Ok(Read(Sfl(seqSel, data[p1] / 16, data[p1] % 16, length), q))
  {
  }

  lemma SplitNibbles(hi: nat, lo: nat)
    requires lo < 16
    ensures (16 * hi + lo) / 16 == hi && (16 * hi + lo) % 16 == lo
  {
  }

  lemma SplitSelector(seqNum: nat, selector: nat)
    requires selector < 2 && seqNum < 65536
    ensures (2 * seqNum + selector) % 2 == selector
    ensures ((2 * seqNum + selector) / 2) % 65536 == seqNum
  {
  }

  lemma Pow256Eight()
    ensures Pow256(8) == 0x1_0000_0000_0000_0000
  {
  }

  /** The lookahead `bej_peek_format`: the format and flags of the SFL at
      pos. It returns no position; the cursor stays where it was whether
      the probe succeeds or fails. */
  function PeekFormat(data: seq<byte>, pos: nat): (r: Result<(nat, nat)>)
    ensures r.Ok? ==> r.value.0 < 16 && r.value.1 < 16
    ensures ReadSfl(data, pos).Ok? ==>
      r == Ok((ReadSfl(data, pos).value.value.format, ReadSfl(data, pos).value.value.flags))
  {
    var s :- ReadNnint(data, pos);
    var ff :- ReadU8(data, s.pos);
    Ok((ff.value / 16, ff.value % 16))
  }
}
