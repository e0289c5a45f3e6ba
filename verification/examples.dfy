/** Concrete inputs and the outputs the decoder gives for them: the nnint
    values of the unit tests, sign extension of short integers, a loaded
    header-only dictionary, and two whole documents. */
module Examples {
  import opened Bytes
  import opened Results
  import opened Stream
  import opened Dict
  import opened Decimal
  import opened JsonText
  import opened Decoder
  import opened DecodeSteps

  /** The nnints of the unit tests: 0 and 65 behind a length byte of 1,
      1337 behind a length byte of 2; the shortest form of 0, a lone zero
      length byte, also reads as 0; a length byte above 8 is refused. */
  lemma NnintExamples()
    ensures ReadNnint([0x01, 0x00], 0) == Ok(Read(0, 2))
    ensures ReadNnint([0x00], 0) == Ok(Read(0, 1))
    ensures ReadNnint([0x01, 0x41], 0) == Ok(Read(65, 2))
    ensures ReadNnint([0x02, 0x39, 0x05], 0) == Ok(Read(1337, 3))
    ensures ReadNnint([0x09, 0, 0, 0, 0, 0, 0, 0, 0, 0], 0) == Err(BadNnint)
    ensures ReadNnint([0x02, 0x39], 0) == Err(Truncated)
  {
    assert LeValueAt([0x02, 0x39, 0x05], 1, 2) == 0x39 + 256 * 0x05;
  }

  /** One byte 0xFF is -1: the top bit is set, so 256 is taken off. */
  lemma MinusOneExample()
    ensures DecodeInteger([0xFF], 0, 1) == Ok(Read("-1", 1))
    ensures DecodeInteger([0xFF], 0, 0) == Err(BadLength)
  {
    var bs: seq<byte> := [0xFF];
    assert bs[0..1] == bs;
    assert LeValue(bs) == 255;
    assert ReadSigned(bs, 0, 1) == Ok(Read(-1, 1));
    assert IntToString(-1) == "-1" by { assert NatToString(1) == "1"; }
  }

  /** One byte 0x80 is the least one-byte number, -128. */
  lemma MinusOneTwentyEightExample()
    ensures DecodeInteger([0x80], 0, 1) == Ok(Read("-128", 1))
  {
    var bs: seq<byte> := [0x80];
    assert bs[0..1] == bs;
    assert LeValue(bs) == 128;
    assert ReadSigned(bs, 0, 1) == Ok(Read(-128, 1));
    assert NatToString(12) == "12" by { assert NatToString(1) == "1"; }
    assert IntToString(-128) == "-128" by { assert NatToString(128) == NatToString(12) + "8"; }
  }

  /** Two bytes FF 7F, least significant first, are 0x7FFF: the top bit
      of the last byte is clear, so nothing is taken off. */
  lemma LargestTwoByteExample()
    ensures DecodeInteger([0xFF, 0x7F], 0, 2) == Ok(Read("32767", 2))
  {
    var bs: seq<byte> := [0xFF, 0x7F];
    assert bs[0..2] == bs && bs[1..] == [0x7F];
    assert LeValue(bs) == 32767;
    assert ReadSigned(bs, 0, 2) == Ok(Read(32767, 2));
    assert NatToString(3) == "3";
    assert NatToString(32) == NatToString(3) + "2";
    assert NatToString(327) == NatToString(32) + "7";
    assert NatToString(3276) == NatToString(327) + "6";
    assert IntToString(32767) == "32767" by { assert NatToString(32767) == NatToString(3276) + "7"; }
  }

  /** A dictionary of one 12-byte header and no entries: it loads, has no
      root children, and names nothing. */
  lemma EmptyDictionaryLoads()
    ensures Load([1, 0, 0, 0, 0, 0, 0, 0, 12, 0, 0, 0]).Ok?
    ensures Load([1, 0, 0, 0, 0, 0, 0, 0, 12, 0, 0, 0]).value.entryCount == 0
    ensures Load([1, 0, 0, 0, 0, 0, 0, 0, 12, 0, 0, 0]).value.dictSize == 12
    ensures Load([1, 0, 1, 0, 0, 0, 0, 0, 12, 0, 0, 0]) == Err(Truncated)
    ensures Load([1, 0, 0]) == Err(Truncated)
  {
    var bs: seq<byte> := [1, 0, 0, 0, 0, 0, 0, 0, 12, 0, 0, 0];
    assert Rd16(bs, 2) == 0 && Rd32(bs, 8) == 12;
    var bs1: seq<byte> := [1, 0, 1, 0, 0, 0, 0, 0, 12, 0, 0, 0];
    assert Rd16(bs1, 2) == 1;
  }

  /** A document whose root Set is empty prints `{}`, whatever the
      dictionary. */
  lemma EmptySetDocument(d: Dictionary)
    requires WellFormed(d)
    ensures DecodeToJson(d, [0, 0xF0, 0xF0, 0xF1, 0, 0, 0, 0x01, 0x00, 0x00, 0x01, 0x02, 0x01, 0x00]) == Ok("{}")
  {
    var bej: seq<byte> := [0, 0xF0, 0xF0, 0xF1, 0, 0, 0, 0x01, 0x00, 0x00, 0x01, 0x02, 0x01, 0x00];
    assert ReadSfl(bej, 7) == Ok(Read(Sfl(0, FMT_SET, 0, 2), 12));
    assert ReadNnint(bej, 12) == Ok(Read(0, 14));
  }

  /** The dictionary file of `OnDocument`: a 12-byte header announcing two
      entries and 35 bytes in all; a root Set record whose child pointer
      22 is the second record and whose child count is 1; a Boolean record
      with sequence number 0 and name offset 32; then the name "On" and
      its NUL. */
  function OnTable(): (bs: seq<byte>)
    ensures |bs| == 35
  {
    [0x01, 0x00, 0x02, 0x00, 0x00, 0x00, 0x00, 0x00, 0x23, 0x00, 0x00, 0x00]
    + [0x00, 0x00, 0x00, 0x16, 0x00, 0x01, 0x00, 0x00, 0x00, 0x00]
    + [0x70, 0x00, 0x00, 0x00, 0x00, 0x00, 0x00, 0x03, 0x20, 0x00]
    + [0x4F, 0x6E, 0x00]
  }

  /** The dictionary of `OnDocument`, as loaded from `OnTable`: a root Set
      entry whose one child is the Boolean "On" with sequence number 0. */
  function OnDictionary(): (d: Dictionary)
    ensures WellFormed(d)
  {
    var bs := OnTable();
    var entries := [Entry(FMT_SET, 0, 0, 1, 1, None), Entry(FMT_BOOLEAN, 0, 0, -1, 0, Some(32))];
    assert bs[32..] == [0x4F, 0x6E, 0x00];
    assert EntryWellFormed(Dictionary(bs, 1, 0, 2, 0, 35, entries), entries[1]);
    Dictionary(bs, 1, 0, 2, 0, 35, entries)
  }

  /** Loading `OnTable` gives `OnDictionary`: the root's child pointer 22
      resolves to entry 1, and the name offset 32 to the name "On". */
  lemma OnDictionaryLoads()
    ensures Load(OnTable()) == Ok(OnDictionary())
  {
    var bs := OnTable();
    assert Rd16(bs, 2) == 2 && Rd32(bs, 4) == 0 && Rd32(bs, 8) == 35;
    assert ParseRecord(bs, 12) == DiskEntry(0x00, 0, 22, 1, 0, 0);
    assert ParseRecord(bs, 22) == DiskEntry(0x70, 0, 0, 0, 3, 32);
    assert ChildIndex(22) == 1;
    assert EntryAt(bs, 0) == Entry(FMT_SET, 0, 0, 1, 1, None);
    assert EntryAt(bs, 1) == Entry(FMT_BOOLEAN, 0, 0, -1, 0, Some(32));
    assert Entries(bs, 2) == OnDictionary().entries;
  }

  /** The bytes of `OnDocument` after any 4 version bytes: no flags,
      schema class 0, the root Set's SFL (sequence 0, 8 body bytes), its
      count 1, and the member: SFL with sequence 0, format Boolean,
      length 1, then the byte 1. */
  function OnBytes(version: seq<byte>): (bej: seq<byte>)
    requires |version| == 4
    ensures |bej| == 20
  {
    version + [0, 0, 0,
               0x01, 0x00, 0x00, 0x01, 0x08,
               0x01, 0x01,
               0x01, 0x00, 0x70, 0x01, 0x01, 0x01]
  }

  /** The "On" entry is the child with sequence number 0 of the root; it
      is named by the C string at offset 32, which is printed as `"On"`. */
  lemma OnEntry(d: Dictionary)
    requires d == OnDictionary()
    ensures ChildBySeq(d, Some(Range(1, 1)), 0) == Some(1)
    ensures NameOf(d, 1) == Some([0x4F, 0x6E])
    ensures MemberName(d, Some(Range(1, 1)), 0) == Some([0x4F, 0x6E])
  {
    assert d.bytes[34..] == [0x00] && d.bytes[33..] == [0x6E, 0x00];
    assert CString(d.bytes, 34) == [];
    assert CString(d.bytes, 33) == [0x6E];
    assert CString(d.bytes, 32) == [0x4F, 0x6E];
  }

  /** The key of the "On" member. */
  lemma OnKey(name: seq<byte>)
    requires name == [0x4F, 0x6E]
    ensures MemberKey(Some(name), 0) == "\"On\""
  {
    assert name[1..] == [0x6E] && name[1..][1..] == [];
    assert Escaped(name[1..]) == "n";
    assert Escaped(name) == "On";
  }

  /** The member's SFL and its Boolean value. */
  lemma OnValue(d: Dictionary, version: seq<byte>, bej: seq<byte>)
    requires d == OnDictionary() && |version| == 4 && bej == OnBytes(version)
    ensures ReadSfl(bej, 14) == Ok(Read(Sfl(0, FMT_BOOLEAN, 0, 1), 19))
    ensures DecodeValue(d, bej, 14, Some(Range(1, 1)), 1) == Ok(Read("true", 20))
  {
    assert |bej| == 20;
    assert ReadNnint(bej, 14) == Ok(Read(0, 16)) by { assert LeValueAt(bej, 15, 1) == 0; }
    assert ReadNnint(bej, 17) == Ok(Read(1, 19)) by { assert LeValueAt(bej, 18, 1) == 1; }
    ReadSflParts(bej, 14, 0, 16, 1, 19);
    ScalarStep(d, bej, 14, Some(Range(1, 1)), 1, Sfl(0, FMT_BOOLEAN, 0, 1), 19);
  }

  /** The one member of the root Set prints as its name and `true`. */
  lemma OnMember(d: Dictionary, version: seq<byte>, bej: seq<byte>)
    requires d == OnDictionary() && |version| == 4 && bej == OnBytes(version)
    ensures DecodeMembers(d, bej, 14, 1, Some(Range(1, 1)), 1, true) == Ok(Read("\"On\": true", 20))
  {
    var kids := Some(Range(1, 1));
    OnValue(d, version, bej);
    OnEntry(d);
    OnKey(MemberName(d, kids, 0).value);
    MajorMemberStep(d, bej, 14, 1, kids, 1, true, Sfl(0, FMT_BOOLEAN, 0, 1), 19, 0, kids, "true", 20, "", 20,
                    "\"On\": true");
  }

  /** The root's SFL (a Set of 8 body bytes) and its count of 1. */
  lemma OnRootHeader(version: seq<byte>, bej: seq<byte>)
    requires |version| == 4 && bej == OnBytes(version)
    ensures ReadSfl(bej, 7) == Ok(Read(Sfl(0, FMT_SET, 0, 8), 12))
    ensures ReadNnint(bej, 12) == Ok(Read(1, 14))
  {
    assert |bej| == 20;
    assert ReadNnint(bej, 7) == Ok(Read(0, 9)) by { assert LeValueAt(bej, 8, 1) == 0; }
    assert ReadNnint(bej, 10) == Ok(Read(8, 12)) by { assert LeValueAt(bej, 11, 1) == 8; }
    assert ReadNnint(bej, 12) == Ok(Read(1, 14)) by { assert LeValueAt(bej, 13, 1) == 1; }
    ReadSflParts(bej, 7, 0, 9, 8, 12);
  }

  /** The indentation of a one-member object at the top level. */
  lemma OnText()
    ensures "{" + NewLine(1) + "\"On\": true" + NewLine(0) + "}" == "{\n  \"On\": true\n}"
  {
    assert NewLine(1) == "\n  " by { assert Indent(1) == "  "; }
    assert NewLine(0) == "\n" by { assert Indent(0) == ""; }
  }

  /** The root Set: one member, one level deeper, between braces. */
  lemma OnRoot(d: Dictionary, version: seq<byte>, bej: seq<byte>)
    requires d == OnDictionary() && |version| == 4 && bej == OnBytes(version)
    ensures DecodeValue(d, bej, 7, None, 0) == Ok(Read("{\n  \"On\": true\n}", 20))
  {
    assert |bej| == 20;
    assert SetSchema(d, None, 0) == Some(Range(1, 1));
    OnRootHeader(version, bej);
    OnMember(d, version, bej);
    SetStep(d, bej, 7, None, 0, Sfl(0, FMT_SET, 0, 8), 12, 1, 14, "\"On\": true", 20);
    OnText();
  }

  /** A root Set holding the Boolean member with sequence number 0 prints
      it under the name the dictionary gives it; the dictionary is the one
      `OnDictionaryLoads` loads from `OnTable`. */
  lemma OnDocument(version: seq<byte>)
    requires |version| == 4
    ensures DecodeToJson(OnDictionary(), OnBytes(version)) == Ok("{\n  \"On\": true\n}")
  {
    var d := OnDictionary();
    var bej := OnBytes(version);
    assert |bej| == 20 && bej[6] == 0;
    OnRoot(d, version, bej);
    DocumentStep(d, bej, "{\n  \"On\": true\n}", 20);
  }
}
