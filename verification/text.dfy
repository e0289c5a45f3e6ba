/** Decimal rendering of the integers the decoder prints with the C
    `%u`, `%llu`, `PRIu64`, `%lld` and `PRId64` conversions, and its
    inverse. */
module Decimal {

  function DigitChar(d: nat): (c: char)
    requires d < 10
    ensures '0' <= c <= '9'
  {
    ('0' as int + d) as char
  }

  /** A non-empty run of decimal digits. */
  predicate IsDigits(s: string) {
    |s| >= 1 && forall i :: 0 <= i < |s| ==> '0' <= s[i] <= '9'
  }

  /** The shortest decimal text of n: digits only, and no leading zero
      unless n is zero itself. */
  function NatToString(n: nat): (s: string)
    ensures |s| >= 1
    ensures s[0] == '0' ==> n == 0 && |s| == 1
    decreases n
  {
    if n < 10 then [DigitChar(n)] else NatToString(n / 10) + [DigitChar(n % 10)]
  }

  /** The number a run of decimal digits denotes. */
  function DigitsValue(s: string): nat
    requires forall i :: 0 <= i < |s| ==> '0' <= s[i] <= '9'
    decreases |s|
  {
    if |s| == 0 then 0
    else 10 * DigitsValue(s[..|s| - 1]) + (s[|s| - 1] as int - '0' as int)
  }

  lemma {:induction false} NatToStringDigits(n: nat)
    ensures IsDigits(NatToString(n))
    decreases n
  {
    if n >= 10 {
      NatToStringDigits(n / 10);
      var s := NatToString(n);
      assert forall i :: 0 <= i < |s| - 1 ==> s[i] == NatToString(n / 10)[i];
    }
  }

  lemma {:induction false} NatToStringRoundTrip(n: nat)
    ensures IsDigits(NatToString(n))
    ensures DigitsValue(NatToString(n)) == n
    decreases n
  {
    NatToStringDigits(n);
    if n >= 10 {
      NatToStringRoundTrip(n / 10);
      var s := NatToString(n);
      assert s[..|s| - 1] == NatToString(n / 10);
    }
  }

  /** Decimal text of a signed number: a minus sign before the digits of
      its magnitude when it is negative. */
  function IntToString(i: int): (s: string)
    ensures |s| >= 1
  {
    if i < 0 then "-" + NatToString(-i) else NatToString(i)
  }

  /** Whether s has the shape IntToString produces. */
  predicate IsIntText(s: string) {
    IsDigits(s) || (|s| >= 2 && s[0] == '-' && IsDigits(s[1..]))
  }

  /** The number a signed decimal text denotes. */
  function IntValue(s: string): int
    requires IsIntText(s)
  {
    var magnitude: int := if s[0] == '-' then DigitsValue(s[1..]) else DigitsValue(s);
    if s[0] == '-' then -magnitude else magnitude
  }

  lemma IntToStringRoundTrip(i: int)
    ensures IsIntText(IntToString(i))
    ensures IntValue(IntToString(i)) == i
  {
    if i < 0 {
      NatToStringRoundTrip(-i);
      assert IntToString(i)[1..] == NatToString(-i);
    } else {
      NatToStringRoundTrip(i);
    }
  }

  /** k zero digits. */
  function Zeros(k: nat): (s: string)
    ensures |s| == k
  {
    seq(k, _ => '0')
  }
}

/** JSON string escaping as in section 7 of RFC 8259, applied byte by byte
    the way the decoder writes object keys and string values, and the
    matching unescaping. */
module JsonText {
  import opened Bytes
  import opened Results

  function HexDigit(d: nat): char
    requires d < 16
  {
    "0123456789abcdef"[d]
  }

  function HexValue(c: char): Option<nat> {
    if '0' <= c <= '9' then Some(c as int - '0' as int)
    else if 'a' <= c <= 'f' then Some(c as int - 'a' as int + 10)
    else if 'A' <= c <= 'F' then Some(c as int - 'A' as int + 10)
    else None
  }

  /** The text one byte becomes inside a JSON string literal. */
  function EscapeByte(b: byte): (r: string)
    ensures 1 <= |r| <= 6
  {
    if b == 0x22 then "\\\""
    else if b == 0x5C then "\\\\"
    else if b == 0x08 then "\\b"
    else if b == 0x0C then "\\f"
    else if b == 0x0A then "\\n"
    else if b == 0x0D then "\\r"
    else if b == 0x09 then "\\t"
    else if b < 0x20 then "\\u00" + [HexDigit(b / 16), HexDigit(b % 16)]
    else [b as char]
  }

  /** The body of a JSON string literal holding bs. No character of it is
      a control character and every character is a byte. */
  function Escaped(bs: seq<byte>): (r: string)
    ensures |r| >= |bs|
    decreases |bs|
  {
    if |bs| == 0 then "" else EscapeByte(bs[0]) + Escaped(bs[1..])
  }

  /** Every character of an escaped byte is printable ASCII or the byte
      itself. */
  lemma EscapeBytePrintable(b: byte)
    ensures forall i :: 0 <= i < |EscapeByte(b)| ==> 0x20 <= EscapeByte(b)[i] as int < 0x80 || EscapeByte(b)[i] as int == b
  {
  }

  /** No character of an escaped text is a control character, and every
      character is a byte. */
  lemma {:induction false} EscapedPrintable(bs: seq<byte>)
    ensures forall i :: 0 <= i < |Escaped(bs)| ==> 0x20 <= Escaped(bs)[i] as int < 0x100
    decreases |bs|
  {
    if |bs| > 0 {
      EscapedPrintable(bs[1..]);
      EscapeBytePrintable(bs[0]);
      var head := EscapeByte(bs[0]);
      var tail := Escaped(bs[1..]);
      assert Escaped(bs) == head + tail;
      forall i | 0 <= i < |head + tail|
        ensures 0x20 <= (head + tail)[i] as int < 0x100
      {
        if i >= |head| { assert (head + tail)[i] == tail[i - |head|]; }
      }
    }
  }

  /** A JSON string literal holding bs. */
  function Quoted(bs: seq<byte>): (r: string)
    ensures |r| >= 2 && r[0] == '"' && r[|r| - 1] == '"'
  {
    "\"" + Escaped(bs) + "\""
  }

  /** The byte a two-character escape stands for. */
  function ShortEscape(c: char): Option<byte> {
    if c == '"' then Some(0x22)
    else if c == '\\' then Some(0x5C)
    else if c == '/' then Some(0x2F)
    else if c == 'b' then Some(0x08)
    else if c == 'f' then Some(0x0C)
    else if c == 'n' then Some(0x0A)
    else if c == 'r' then Some(0x0D)
    else if c == 't' then Some(0x09)
    else None
  }

  function Prepend(b: byte, rest: Option<seq<byte>>): Option<seq<byte>> {
    match rest
    case None => None
    case Some(bs) => Some([b] + bs)
  }

  /** Reads the body of a JSON string literal back into bytes; fails on a
      bare quote, a raw control character, a character above 0xFF, or an
      escape it does not know. */
  function Unescape(s: string): Option<seq<byte>>
    decreases |s|
  {
    if |s| == 0 then Some([])
    else if s[0] == '\\' then
      if |s| >= 2 && ShortEscape(s[1]).Some? then
        Prepend(ShortEscape(s[1]).value, Unescape(s[2..]))
      else if |s| >= 6 && s[1] == 'u' && s[2] == '0' && s[3] == '0'
              && HexValue(s[4]).Some? && HexValue(s[5]).Some? then
        Prepend((16 * HexValue(s[4]).value + HexValue(s[5]).value) as byte, Unescape(s[6..]))
      else None
    else if s[0] == '"' || s[0] as int < 0x20 || s[0] as int >= 0x100 then None
    else Prepend(s[0] as int as byte, Unescape(s[1..]))
  }

  lemma UnescapeEscapeByte(b: byte, rest: string)
    ensures Unescape(EscapeByte(b) + rest) == Prepend(b, Unescape(rest))
  {
    var e := EscapeByte(b);
    var s := e + rest;
    assert s[..|e|] == e && s[|e|..] == rest;
    if b < 0x20 && b != 0x08 && b != 0x0C && b != 0x0A && b != 0x0D && b != 0x09 {
      assert s[1] == 'u' && s[2] == '0' && s[3] == '0';
      assert s[4] == HexDigit(b / 16) && s[5] == HexDigit(b % 16);
      assert HexValue(s[4]) == Some(b / 16);
      assert HexValue(s[5]) == Some(b % 16);
    }
  }

  /** Escaping loses nothing: unescaping the escaped bytes gives them back. */
  lemma {:induction false} EscapedRoundTrip(bs: seq<byte>)
    ensures Unescape(Escaped(bs)) == Some(bs)
    decreases |bs|
  {
    if |bs| > 0 {
      EscapedRoundTrip(bs[1..]);
      UnescapeEscapeByte(bs[0], Escaped(bs[1..]));
      assert [bs[0]] + bs[1..] == bs;
    }
  }

  /** Two spaces per nesting level. */
  function Indent(level: nat): (s: string)
    ensures |s| == 2 * level
  {
    seq(2 * level, _ => ' ')
  }

  /** A line break followed by the indentation of the given level. */
  function NewLine(level: nat): (s: string)
    ensures |s| == 1 + 2 * level && s[0] == '\n'
  {
    "\n" + Indent(level)
  }
}
