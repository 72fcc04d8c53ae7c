/** Byte strings read and written bit by bit, least significant bit first (section 5.1.2 of RFC 8032). */
module Bits {
  import opened NumberTheory

  type byte = b: int | 0 <= b < 256
  type Bytes = seq<byte>

  function Pow2(e: nat): (r: nat)
    ensures r > 0
  {
    if e == 0 then 1 else 2 * Pow2(e - 1)
  }

  lemma Pow2Add(e: nat, f: nat)
    ensures Pow2(e + f) == Pow2(e) * Pow2(f)
  {
    if e != 0 {
      Pow2Add(e - 1, f);
      assert 2 * (Pow2(e - 1) * Pow2(f)) == 2 * Pow2(e - 1) * Pow2(f);
    }
  }

  lemma {:induction false} Pow2Small(j: nat)
    requires j <= 8
    ensures Pow2(j) == [1, 2, 4, 8, 16, 32, 64, 128, 256][j]
  {
    if j > 0 { Pow2Small(j - 1); }
  }

  /** y shifted right by e bits. */
  function Shr(y: nat, e: nat): nat {
    if e == 0 then y else Shr(y / 2, e - 1)
  }

  /** Bit i of the number y. */
  function NatBit(y: nat, i: nat): (r: int)
    ensures 0 <= r <= 1
  {
    Shr(y, i) % 2
  }

  /** The number of binary digits of y. */
  function BitLength(y: nat): nat {
    if y == 0 then 0 else 1 + BitLength(y / 2)
  }

  // ----- reading -----

  function Bit(h: Bytes, i: nat): (r: int)
    requires i / 8 < |h|
    ensures 0 <= r <= 1
  {
    NatBit(h[i / 8], i % 8)
  }

  /** The sum of 2^i times bit i of h, for lo <= i < hi. */
  function BitSum(h: Bytes, lo: nat, hi: nat): (r: nat)
    requires lo <= hi <= 8 * |h|
  {
    if lo == hi then 0 else BitSum(h, lo, hi - 1) + Pow2(hi - 1) * Bit(h, hi - 1)
  }

  function DecodeInt(s: Bytes): nat
    requires |s| == 32
  {
    BitSum(s, 0, 256)
  }

  function DecodeIntWide(h: Bytes): nat
    requires |h| == 64
  {
    BitSum(h, 0, 512)
  }

  // ----- writing -----

  function EncodeInt(y: nat): (r: Bytes)
    ensures |r| == 32
  {
    seq(32, i requires 0 <= i < 32 => Shr(y, 8 * i) % 256)
  }

  /** The sum of bits[at + j] shifted left by j, for j below n. */
  function Packed(bits: seq<int>, at: nat, n: nat): (r: nat)
    requires forall k :: 0 <= k < |bits| ==> 0 <= bits[k] <= 1
    requires at + n <= |bits|
    ensures r < Pow2(n)
  {
    if n == 0 then 0
    else
      assert Pow2(n - 1) * bits[at + n - 1] <= Pow2(n - 1);
      Packed(bits, at, n - 1) + Pow2(n - 1) * bits[at + n - 1]
  }

  function PackedByte(bits: seq<int>, i: nat): (r: byte)
    requires forall k :: 0 <= k < |bits| ==> 0 <= bits[k] <= 1
    requires 8 * i + 8 <= |bits|
  {
    Pow2Small(8);
    Packed(bits, 8 * i, 8)
  }

  /** 255 bits of y and then the parity of x, packed into 32 bytes. */
  function EncodePair(x: nat, y: nat): (r: Bytes)
    ensures |r| == 32
  {
    var bits := seq(255, i requires 0 <= i < 255 => NatBit(y, i)) + [x % 2];
    seq(32, i requires 0 <= i < 32 => PackedByte(bits, i))
  }

  // ----- bits of numbers -----

  /** Numbers of n bits with the same bits are the same. */
  lemma {:induction false} SameBits(b: nat, c: nat, n: nat)
    requires b < Pow2(n) && c < Pow2(n) && forall i :: 0 <= i < n ==> NatBit(b, i) == NatBit(c, i)
    ensures b == c
  {
    if n > 0 {
      forall i | 0 <= i < n - 1
        ensures NatBit(b / 2, i) == NatBit(c / 2, i)
      {
        assert NatBit(b, i + 1) == NatBit(c, i + 1);
      }
      SameBits(b / 2, c / 2, n - 1);
      assert NatBit(b, 0) == NatBit(c, 0);
    }
  }

  lemma {:induction false} ShrShr(y: nat, e: nat, f: nat)
    ensures Shr(Shr(y, e), f) == Shr(y, e + f)
  {
    if e > 0 { ShrShr(y / 2, e - 1, f); }
  }

  lemma HalfOfBlock(v: nat, e: nat, m: nat)
    requires e > 0
    ensures (v + Pow2(e) * m) / 2 == v / 2 + Pow2(e - 1) * m && (v + Pow2(e) * m) % 2 == v % 2
  {
    assert Pow2(e) * m == 2 * (Pow2(e - 1) * m);
  }

  /** Adding a multiple of 2^e leaves the bits below e alone. */
  lemma {:induction false} HighBitsIrrelevant(v: nat, e: nat, m: nat, i: nat)
    requires i < e
    ensures NatBit(v + Pow2(e) * m, i) == NatBit(v, i)
  {
    HalfOfBlock(v, e, m);
    if i > 0 { HighBitsIrrelevant(v / 2, e - 1, m, i - 1); }
  }

  lemma {:induction false} TopBit(v: nat, e: nat, b: int)
    requires v < Pow2(e) && 0 <= b <= 1
    ensures NatBit(v + Pow2(e) * b, e) == b
  {
    if e > 0 {
      HalfOfBlock(v, e, b);
      TopBit(v / 2, e - 1, b);
    }
  }

  lemma ModDouble(y: nat, m: nat)
    requires m > 0
    ensures y % (2 * m) == 2 * (y / 2 % m) + y % 2
  {
    var h := y / 2;
    assert y == h / m * (2 * m) + (2 * (h % m) + y % 2) by {
      assert h == m * (h / m) + h % m;
    }
    DivModUnique(y, 2 * m, h / m, 2 * (h % m) + y % 2);
  }

  /** Splitting off bit n of y. */
  lemma {:induction false} ModNextBit(y: nat, n: nat)
    ensures y % Pow2(n + 1) == y % Pow2(n) + Pow2(n) * NatBit(y, n)
  {
    if n > 0 {
      ModDouble(y, Pow2(n));
      ModDouble(y, Pow2(n - 1));
      ModNextBit(y / 2, n - 1);
      assert Pow2(n) * NatBit(y, n) == 2 * (Pow2(n - 1) * NatBit(y, n));
    }
  }

  /** A string whose low bits are those of y sums to y modulo 2^n. */
  lemma {:induction false} BitSumOfNat(s: Bytes, y: nat, n: nat)
    requires n <= 8 * |s| && forall i :: 0 <= i < n ==> Bit(s, i) == NatBit(y, i)
    ensures BitSum(s, 0, n) == y % Pow2(n)
  {
    if n > 0 {
      BitSumOfNat(s, y, n - 1);
      ModNextBit(y, n - 1);
    }
  }

  lemma {:induction false} BitSumBound(h: Bytes, lo: nat, hi: nat)
    requires lo <= hi <= 8 * |h|
    ensures BitSum(h, lo, hi) <= Pow2(hi) - Pow2(lo)
  {
    if lo < hi {
      BitSumBound(h, lo, hi - 1);
      assert Pow2(hi - 1) * Bit(h, hi - 1) <= Pow2(hi - 1);
    }
  }

  /** Reading back bit i of a sum of bits. */
  lemma {:induction false} BitOfBitSum(s: Bytes, n: nat, i: nat)
    requires i < n <= 8 * |s|
    ensures NatBit(BitSum(s, 0, n), i) == Bit(s, i)
  {
    var v, b := BitSum(s, 0, n - 1), Bit(s, n - 1);
    if i == n - 1 {
      BitSumBound(s, 0, n - 1);
      TopBit(v, n - 1, b);
    } else {
      BitOfBitSum(s, n - 1, i);
      HighBitsIrrelevant(v, n - 1, b, i);
    }
  }

  lemma {:induction false} BitLengthBounds(y: nat, n: nat)
    ensures BitLength(y) <= n <==> y < Pow2(n)
  {
    if y > 0 && n > 0 { BitLengthBounds(y / 2, n - 1); }
  }

  // ----- bits of byte strings -----

  lemma SameBitsSameBytes(s: Bytes, t: Bytes)
    requires |s| == |t|
    requires forall i :: 0 <= i < 8 * |s| ==> Bit(s, i) == Bit(t, i)
    ensures s == t
  {
    Pow2Small(8);
    forall k | 0 <= k < |s|
      ensures s[k] == t[k]
    {
      forall j | 0 <= j < 8
        ensures NatBit(s[k], j) == NatBit(t[k], j)
      {
        assert Bit(s, 8 * k + j) == Bit(t, 8 * k + j);
      }
      SameBits(s[k], t[k], 8);
    }
  }

  lemma {:induction false} PackedBits(bits: seq<int>, at: nat, n: nat, j: nat)
    requires forall k :: 0 <= k < |bits| ==> 0 <= bits[k] <= 1
    requires at + n <= |bits| && j < n
    ensures NatBit(Packed(bits, at, n), j) == bits[at + j]
  {
    var v, b := Packed(bits, at, n - 1), bits[at + n - 1];
    if j == n - 1 {
      TopBit(v, n - 1, b);
    } else {
      PackedBits(bits, at, n - 1, j);
      HighBitsIrrelevant(v, n - 1, b, j);
    }
  }

  lemma BitsOfEncodeInt(y: nat, i: nat)
    requires i < 256
    ensures Bit(EncodeInt(y), i) == NatBit(y, i)
  {
    assert EncodeInt(y)[i / 8] == Shr(y, 8 * (i / 8)) % 256;
    LowBitOfByte(Shr(y, 8 * (i / 8)), i % 8);
    ShrShr(y, 8 * (i / 8), i % 8);
  }

  lemma LowBitOfByte(t: nat, j: nat)
    requires j < 8
    ensures NatBit(t % 256, j) == NatBit(t, j)
  {
    Pow2Small(8);
    HighBitsIrrelevant(t % 256, 8, t / 256, j);
  }

  lemma BitsOfEncodePair(x: nat, y: nat, i: nat)
    requires i < 256
    ensures Bit(EncodePair(x, y), i) == if i < 255 then NatBit(y, i) else x % 2
  {
    var bits := seq(255, k requires 0 <= k < 255 => NatBit(y, k)) + [x % 2];
    PackedBits(bits, 8 * (i / 8), 8, i % 8);
  }

  // ----- round trips -----

  /** A number below 2^256 survives _encodeint then _decodeint, and every 32-byte string survives
      _decodeint then _encodeint. */
  lemma IntRoundTrip(y: nat, s: Bytes)
    requires |s| == 32
    ensures DecodeInt(EncodeInt(y)) == y % Pow2(256)
    ensures EncodeInt(DecodeInt(s)) == s
  {
    forall i | 0 <= i < 256
      ensures Bit(EncodeInt(y), i) == NatBit(y, i)
      ensures Bit(EncodeInt(DecodeInt(s)), i) == Bit(s, i)
    {
      BitsOfEncodeInt(y, i);
      BitsOfEncodeInt(DecodeInt(s), i);
      BitOfBitSum(s, 256, i);
    }
    BitSumOfNat(EncodeInt(y), y, 256);
    SameBitsSameBytes(EncodeInt(DecodeInt(s)), s);
  }

  /** The low 255 bits of an encoded pair give back y, the last one the parity of x. */
  lemma PairRoundTrip(x: nat, y: nat)
    ensures BitSum(EncodePair(x, y), 0, 255) == y % Pow2(255)
    ensures Bit(EncodePair(x, y), 255) == x % 2
  {
    forall i | 0 <= i < 255
      ensures Bit(EncodePair(x, y), i) == NatBit(y, i)
    {
      BitsOfEncodePair(x, y, i);
    }
    BitsOfEncodePair(x, y, 255);
    BitSumOfNat(EncodePair(x, y), y, 255);
  }

  /** Every 32-byte string is the encoding of the pair read from it. */
  lemma {:induction false} PairFromString(s: Bytes, x: nat)
    requires |s| == 32 && x % 2 == Bit(s, 255)
    ensures EncodePair(x, BitSum(s, 0, 255)) == s
  {
    var y := BitSum(s, 0, 255);
    forall i | 0 <= i < 256
      ensures Bit(EncodePair(x, y), i) == Bit(s, i)
    {
      BitsOfEncodePair(x, y, i);
      if i < 255 { BitOfBitSum(s, 255, i); }
    }
    SameBitsSameBytes(EncodePair(x, y), s);
  }

  // ----- little-endian numbers -----

  /** The number that a string writes, least significant byte first. */
  function LittleEndian(s: Bytes): nat {
    if |s| == 0 then 0 else s[0] + 256 * LittleEndian(s[1..])
  }

  lemma {:induction false} ShrBlock(v: nat, e: nat, m: nat)
    requires v < Pow2(e)
    ensures Shr(v + Pow2(e) * m, e) == m
  {
    if e > 0 {
      HalfOfBlock(v, e, m);
      ShrBlock(v / 2, e - 1, m);
    }
  }

  /** Beyond its first byte, a string's number has the bits of the rest. */
  lemma {:induction false} BitBeyondByte(s: Bytes, e: nat, i: nat)
    requires |s| > 0 && Pow2(e) == 256 && i >= e
    ensures NatBit(LittleEndian(s), i) == NatBit(LittleEndian(s[1..]), i - e)
  {
    ShrBlock(s[0], e, LittleEndian(s[1..]));
    ShrShr(LittleEndian(s), e, i - e);
  }

  lemma {:induction false} BitsOfLittleEndian(s: Bytes, i: nat)
    requires i < 8 * |s|
    ensures NatBit(LittleEndian(s), i) == Bit(s, i)
  {
    if i < 8 {
      Pow2Small(8);
      HighBitsIrrelevant(s[0], 8, LittleEndian(s[1..]), i);
    } else {
      Pow2Small(8);
      BitBeyondByte(s, 8, i);
      BitsOfLittleEndian(s[1..], i - 8);
    }
  }

  lemma {:induction false} LittleEndianBound(s: Bytes)
    ensures LittleEndian(s) < Pow2(8 * |s|)
  {
    if |s| > 0 {
      LittleEndianBound(s[1..]);
      Pow2Add(8, 8 * |s| - 8);
      Pow2Small(8);
    }
  }

  lemma BitSumIsLittleEndian(s: Bytes, n: nat)
    requires n <= 8 * |s|
    ensures BitSum(s, 0, n) == LittleEndian(s) % Pow2(n)
  {
    forall i | 0 <= i < n
      ensures Bit(s, i) == NatBit(LittleEndian(s), i)
    {
      BitsOfLittleEndian(s, i);
    }
    BitSumOfNat(s, LittleEndian(s), n);
  }

  lemma AllBits(s: Bytes)
    ensures BitSum(s, 0, 8 * |s|) == LittleEndian(s)
  {
    BitSumIsLittleEndian(s, 8 * |s|);
    LittleEndianBound(s);
    DivModUnique(LittleEndian(s), Pow2(8 * |s|), 0, LittleEndian(s));
  }

  /** The integer codec is little-endian (section 5.1.2 of RFC 8032), at either width. */
  lemma IntCodecIsLittleEndian(y: nat, s: Bytes)
    ensures |s| == 32 ==> DecodeInt(s) == LittleEndian(s)
    ensures |s| == 64 ==> DecodeIntWide(s) == LittleEndian(s)
    ensures LittleEndian(EncodeInt(y)) == y % Pow2(256)
  {
    AllBits(s);
    AllBits(EncodeInt(y));
    IntRoundTrip(y, EncodeInt(y));
  }

  /** A point is encoded as its second coordinate with the parity of the first on top. */
  lemma PairCodecIsLittleEndian(x: nat, y: nat)
    ensures LittleEndian(EncodePair(x, y)) == y % Pow2(255) + Pow2(255) * (x % 2)
  {
    var s := EncodePair(x, y);
    AllBits(s);
    PairRoundTrip(x, y);
    assert BitSum(s, 0, 256) == BitSum(s, 0, 255) + Pow2(255) * Bit(s, 255);
  }
}
