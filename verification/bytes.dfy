/** Bytes and the little-endian, two's-complement arithmetic the wire
    format and the dictionary table are built from. */
module Bytes {

  type byte = b: int | 0 <= b < 256

  /** 256^n, the number of values an n-byte field can hold. */
  function Pow256(n: nat): (r: nat)
    ensures r >= 1
  {
    if n == 0 then 1 else 256 * Pow256(n - 1)
  }

  lemma {:induction false} Pow256Add(a: nat, b: nat)
    ensures Pow256(a + b) == Pow256(a) * Pow256(b)
    decreases a
  {
    if a > 0 {
      Pow256Add(a - 1, b);
    }
  }

  /** The unsigned number a byte string holds, least significant byte first. */
  function LeValue(bs: seq<byte>): (r: nat)
    ensures r < Pow256(|bs|)
  {
    if |bs| == 0 then 0 else bs[0] + 256 * LeValue(bs[1..])
  }

  /** The n low-order bytes of v, least significant first. */
  function LeBytes(v: nat, n: nat): (r: seq<byte>)
    ensures |r| == n
  {
    if n == 0 then [] else [(v % 256) as byte] + LeBytes(v / 256, n - 1)
  }

  /** Writing a value that fits in n bytes and reading it back gives the value. */
  lemma {:induction false} LeValueOfLeBytes(v: nat, n: nat)
    requires v < Pow256(n)
    ensures LeValue(LeBytes(v, n)) == v
    decreases n
  {
    if n > 0 {
      LeValueOfLeBytes(v / 256, n - 1);
      assert LeBytes(v, n)[1..] == LeBytes(v / 256, n - 1);
    }
  }

  /** Reading a byte string and writing its value back gives the same bytes. */
  lemma {:induction false} LeBytesOfLeValue(bs: seq<byte>)
    ensures LeBytes(LeValue(bs), |bs|) == bs
    decreases |bs|
  {
    if |bs| > 0 {
      LeBytesOfLeValue(bs[1..]);
      var v := LeValue(bs);
      assert v % 256 == bs[0] && v / 256 == LeValue(bs[1..]);
    }
  }

  /** Appending bytes adds them above the existing ones. */
  lemma {:induction false} LeValueAppend(a: seq<byte>, b: seq<byte>)
    ensures LeValue(a + b) == LeValue(a) + Pow256(|a|) * LeValue(b)
    decreases |a|
  {
    if |a| > 0 {
      var ab := a + b;
      assert ab[0] == a[0] && ab[1..] == a[1..] + b;
      LeValueAppend(a[1..], b);
      Distribute(a[0], LeValue(a[1..]), Pow256(|a| - 1), LeValue(b), LeValue(ab[1..]), LeValue(ab), Pow256(|a|));
    } else {
      assert a + b == b;
    }
  }

  /** The arithmetic step of `LeValueAppend`: the first byte, then 256
      times the rest with the appended value above it. */
  lemma Distribute(x: int, rest: int, p: int, w: int, tail: int, whole: int, q: int)
    requires tail == rest + p * w && whole == x + 256 * tail && q == 256 * p
    ensures whole == (x + 256 * rest) + q * w
  {
  }

  /** The last byte is the most significant one. */
  lemma LeValueLast(bs: seq<byte>)
    requires |bs| >= 1
    ensures LeValue(bs) == LeValue(bs[..|bs| - 1]) + Pow256(|bs| - 1) * bs[|bs| - 1]
  {
    var n := |bs|;
    assert bs == bs[..n - 1] + [bs[n - 1]];
    LeValueAppend(bs[..n - 1], [bs[n - 1]]);
    assert [bs[n - 1]][1..] == [];
    assert LeValue([bs[n - 1]]) == bs[n - 1];
  }

  /** The top bit of the last byte is set exactly when the unsigned value
      reaches half the range. */
  lemma TopBitIsUpperHalf(bs: seq<byte>)
    requires |bs| >= 1
    ensures bs[|bs| - 1] >= 128 <==> LeValue(bs) >= Pow256(|bs|) / 2
  {
    var n := |bs|;
    var p := Pow256(n - 1);
    LeValueLast(bs);
    assert Pow256(n) / 2 == 128 * p;
    var low := LeValue(bs[..n - 1]);
    assert low < p;
    var top := bs[n - 1];
    assert LeValue(bs) == low + p * top;
    if top >= 128 {
      MulMono(p, 128, top);
    } else {
      MulMono(p, top, 127);
    }
  }

  lemma MulMono(p: nat, a: nat, b: nat)
    requires a <= b
    ensures p * a <= p * b
  {
  }

  /** 256^n splits into two equal halves. */
  lemma HalfOfPow256(n: nat)
    requires n >= 1
    ensures Pow256(n) == 2 * (Pow256(n) / 2)
  {
    assert Pow256(n) == 2 * (128 * Pow256(n - 1));
  }

  /** The signed number an n-byte two's-complement field holds: the
      unsigned value, less 256^n when the top bit of the last byte is set. */
  function Signed(bs: seq<byte>): (r: int)
    requires |bs| >= 1
    ensures -(Pow256(|bs|) / 2) <= r < Pow256(|bs|) / 2
    ensures r == LeValue(bs) || r == LeValue(bs) - Pow256(|bs|)
  {
    TopBitIsUpperHalf(bs);
    HalfOfPow256(|bs|);
    var u := LeValue(bs);
    if bs[|bs| - 1] >= 128 then u - Pow256(|bs|) else u
  }

  /** Whether v fits in an n-byte two's-complement field. */
  predicate FitsSigned(v: int, n: nat) {
    n >= 1 && -(Pow256(n) / 2) <= v < Pow256(n) / 2
  }

  /** The n-byte two's-complement encoding of v. */
  function SignedBytes(v: int, n: nat): (r: seq<byte>)
    requires FitsSigned(v, n)
    ensures |r| == n
  {
    LeBytes(if v < 0 then v + Pow256(n) else v, n)
  }

  lemma SignedOfSignedBytes(v: int, n: nat)
    requires FitsSigned(v, n)
    ensures Signed(SignedBytes(v, n)) == v
  {
    var u := if v < 0 then v + Pow256(n) else v;
    LeValueOfLeBytes(u, n);
    TopBitIsUpperHalf(SignedBytes(v, n));
  }

  lemma SignedBytesOfSigned(bs: seq<byte>)
    requires |bs| >= 1
    ensures FitsSigned(Signed(bs), |bs|)
    ensures SignedBytes(Signed(bs), |bs|) == bs
  {
    TopBitIsUpperHalf(bs);
    LeBytesOfLeValue(bs);
  }

  /** The eight bytes of the int64 the C code builds, in little-endian
      memory order: the field itself in the low bytes, then 0xFF above it
      when its top bit is set and 0x00 otherwise. The C writes the fill
      through a byte pointer into the int64's memory, so this is sign
      extension only on a little-endian host. */
  function SignExtend8(bs: seq<byte>): (r: seq<byte>)
    requires 1 <= |bs| <= 8
    ensures |r| == 8 && r[..|bs|] == bs
  {
    var fill: byte := if bs[|bs| - 1] >= 128 then 255 else 0;
    bs + seq(8 - |bs|, _ => fill)
  }

  /** Bytes that are all 0xFF hold the largest value of their width. */
  lemma {:induction false} LeValueOfFill(t: seq<byte>)
    requires forall i :: 0 <= i < |t| ==> t[i] == 255
    ensures LeValue(t) == Pow256(|t|) - 1
    decreases |t|
  {
    if |t| > 0 {
      LeValueOfFill(t[1..]);
    }
  }

  /** Bytes that are all zero hold zero. */
  lemma {:induction false} LeValueOfZeros(t: seq<byte>)
    requires forall i :: 0 <= i < |t| ==> t[i] == 0
    ensures LeValue(t) == 0
    decreases |t|
  {
    if |t| > 0 {
      LeValueOfZeros(t[1..]);
    }
  }

  /** Filling the high bytes and reading all eight as an int64 gives the
      same number as the arithmetic sign extension of the short field. */
  lemma SignExtendAgrees(bs: seq<byte>)
    requires 1 <= |bs| <= 8
    ensures Signed(SignExtend8(bs)) == Signed(bs)
  {
    if bs[|bs| - 1] >= 128 {
      SignExtendNegative(bs);
    } else {
      SignExtendNonNegative(bs);
    }
  }

  /** With the top bit set, the fill adds 2^64 - 2^(8n) to the unsigned
      value, and both readings subtract their own range. */
  lemma SignExtendNegative(bs: seq<byte>)
    requires 1 <= |bs| <= 8 && bs[|bs| - 1] >= 128
    ensures Signed(SignExtend8(bs)) == Signed(bs)
  {
    var n := |bs|;
    var x := SignExtend8(bs);
    var tail := x[n..];
    assert x == bs + tail;
    LeValueAppend(bs, tail);
    LeValueOfFill(tail);
    FilledValue(n);
    var u := LeValue(bs);
    assert LeValue(x) == u + Pow256(8) - Pow256(n);
    assert x[7] >= 128;
    assert Signed(x) == LeValue(x) - Pow256(8);
  }

  /** With the top bit clear, the zero fill adds nothing. */
  lemma SignExtendNonNegative(bs: seq<byte>)
    requires 1 <= |bs| <= 8 && bs[|bs| - 1] < 128
    ensures Signed(SignExtend8(bs)) == Signed(bs)
  {
    var n := |bs|;
    var x := SignExtend8(bs);
    var tail := x[n..];
    assert x == bs + tail;
    LeValueAppend(bs, tail);
    LeValueOfZeros(tail);
    assert x[7] < 128;
  }

  /** The fill bytes 0xFF above an n-byte field add 2^64 - 2^(8n). */
  lemma FilledValue(n: nat)
    requires n <= 8
    ensures Pow256(n) * (Pow256(8 - n) - 1) == Pow256(8) - Pow256(n)
  {
    Pow256Add(n, 8 - n);
    MulLessOne(Pow256(n), Pow256(8 - n));
  }

  lemma MulLessOne(a: int, b: int)
    ensures a * (b - 1) == a * b - a
  {
  }

  /** The accumulation loop of the C readers: walk the bytes from the last
      to the first, shifting the running value up by one byte each time. */
  method AccumulateLe(buf: seq<byte>) returns (v: nat)
    ensures v == LeValue(buf)
  {
    v := 0;
    var i := |buf|;
    while i > 0
      invariant 0 <= i <= |buf|
      invariant v == LeValue(buf[i..])
    {
      i := i - 1;
      assert buf[i..][1..] == buf[i + 1..];
      v := v * 256 + buf[i];
    }
  }
}
