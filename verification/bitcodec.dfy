/**
  The bit codec: one value bit per carrier byte, stored in that byte's least
  significant bit, most significant value bit first.

  Bytes are bit patterns (`bv8`), exactly as the C `char` buffers are.  The
  32-bit `int` field is modelled arithmetically: a C `int` is an `int32`, its
  bit pattern is the `uint32` word `ToWord(v)`, and `(w >> i) & 1` becomes
  `ShiftRight(w, i) % 2`.  That keeps every proof about the 32-bit codec
  within linear arithmetic.
 */
module BitCodec {
  import opened Types

  // ---------------------------------------------------------------------------
  // Single carrier bytes
  // ---------------------------------------------------------------------------

  /** The bit the codec reads and writes: `b & 1`. */
  function Lsb(b: byte): (r: byte)
    ensures r <= 1
  {
    b & 1
  }

  /** The seven bits the codec must leave alone. */
  function Upper(b: byte): byte {
    b & 0xFE
  }

  /** `b & ~1 | bit`: clear the low bit, then set it to `bit`. */
  function WithLsb(b: byte, bit: byte): (r: byte)
    requires bit <= 1
    ensures Lsb(r) == bit
    ensures Upper(r) == Upper(b)
  {
    (b & 0xFE) | bit
  }

  /** A carrier byte is determined by its upper bits and its low bit. */
  lemma UpperAndLsbDetermineByte(a: byte, b: byte)
    requires Upper(a) == Upper(b) && Lsb(a) == Lsb(b)
    ensures a == b
  {
  }

  /** The low bit as a number (0 or 1). */
  function LsbValueOf(b: byte): (r: nat)
    ensures r <= 1
    ensures r == 1 <==> Lsb(b) == 1
  {
    if b & 1 == 1 then 1 else 0
  }

  // ---------------------------------------------------------------------------
  // Bytes: encode_byte_to_lsb / decode_byte_from_lsb
  // ---------------------------------------------------------------------------

  /** Bit `i` of a byte: `(v >> i) & 1`. */
  function ByteBit(v: byte, i: nat): (r: byte)
    requires i < 8
    ensures r <= 1
  {
    (v >> i) & 1
  }

  /** The eight bits of `v`, most significant first: the order they go to the carrier. */
  function ByteBits(v: byte): (bits: seq<byte>)
    ensures |bits| == BYTE_CHUNK
    ensures forall k :: 0 <= k < 8 ==> bits[k] == ByteBit(v, 7 - k)
  {
    seq(8, k requires 0 <= k < 8 => ByteBit(v, 7 - k))
  }

  /**
    encode_byte_to_lsb: for `i` from 7 down to 0, the low bit of `buf[7 - i]`
    becomes bit `i` of `data`.  Bytes from index 8 on are not touched.  The C
    function always reports success, so the model is total.
   */
  function EncodeByte(data: byte, buf: seq<byte>): (r: seq<byte>)
    requires |buf| >= BYTE_CHUNK
    ensures |r| == |buf|
    ensures forall k :: 0 <= k < 8 ==> Lsb(r[k]) == ByteBit(data, 7 - k)
    ensures forall k :: 0 <= k < 8 ==> Upper(r[k]) == Upper(buf[k])
    ensures forall k :: 8 <= k < |buf| ==> r[k] == buf[k]
  {
    seq(|buf|, k requires 0 <= k < |buf| =>
      if k < 8 then WithLsb(buf[k], ByteBit(data, 7 - k)) else buf[k])
  }

  /**
    decode_byte_from_lsb: bit `i` of the result is the low bit of `buf[7 - i]`;
    the loop `decoded |= (buf[7 - i] & 1) << i`, unrolled.
   */
  function DecodeByte(buf: seq<byte>): (r: byte)
    requires |buf| >= BYTE_CHUNK
    ensures forall i :: 0 <= i < 8 ==> ByteBit(r, i) == Lsb(buf[7 - i])
  {
    (Lsb(buf[0]) << 7) | (Lsb(buf[1]) << 6) | (Lsb(buf[2]) << 5) | (Lsb(buf[3]) << 4)
    | (Lsb(buf[4]) << 3) | (Lsb(buf[5]) << 2) | (Lsb(buf[6]) << 1) | Lsb(buf[7])
  }

  /** The byte decoder reads nothing but the eight low bits. */
  lemma DecodeByteReadsOnlyLsbs(a: seq<byte>, b: seq<byte>)
    requires |a| >= BYTE_CHUNK && |b| >= BYTE_CHUNK
    requires forall k :: 0 <= k < 8 ==> Lsb(a[k]) == Lsb(b[k])
    ensures DecodeByte(a) == DecodeByte(b)
  {
    var x, y := DecodeByte(a), DecodeByte(b);
    assert forall i :: 0 <= i < 8 ==> ByteBit(x, i) == ByteBit(y, i);
  }

  /** Eight bytes whose low bits spell `ByteBits(v)` decode to `v`. */
  lemma DecodeByteOfBits(buf: seq<byte>, v: byte)
    requires |buf| >= BYTE_CHUNK
    requires forall k :: 0 <= k < 8 ==> Lsb(buf[k]) == ByteBits(v)[k]
    ensures DecodeByte(buf) == v
  {
    var r := DecodeByte(buf);
    assert forall i :: 0 <= i < 8 ==> ByteBit(r, i) == ByteBit(v, i);
  }

  /** decode_byte_from_lsb inverts encode_byte_to_lsb, whatever the carrier held. */
  lemma DecodeEncodeByte(data: byte, buf: seq<byte>)
    requires |buf| >= BYTE_CHUNK
    ensures DecodeByte(EncodeByte(data, buf)) == data
  {
    DecodeByteOfBits(EncodeByte(data, buf), data);
  }

  /** Bit order: 0b10100101 into eight zero bytes leaves low bits 1,0,1,0,0,1,0,1. */
  lemma EncodeByteBitOrderExample()
    ensures EncodeByte(0xA5, [0, 0, 0, 0, 0, 0, 0, 0]) == [1, 0, 1, 0, 0, 1, 0, 1]
  {
    var r := EncodeByte(0xA5, [0, 0, 0, 0, 0, 0, 0, 0]);
    forall k | 0 <= k < 8
      ensures r[k] == [1, 0, 1, 0, 0, 1, 0, 1][k]
    {
      UpperAndLsbDetermineByte(r[k], [1, 0, 1, 0, 0, 1, 0, 1][k]);
    }
  }

  // ---------------------------------------------------------------------------
  // 32-bit words: encode_int_to_lsb / decode_int_from_lsb
  // ---------------------------------------------------------------------------

  function Pow2(n: nat): (r: nat)
    ensures r >= 1
  {
    if n == 0 then 1 else 2 * Pow2(n - 1)
  }

  lemma {:induction false} Pow2Add(a: nat, b: nat)
    ensures Pow2(a + b) == Pow2(a) * Pow2(b)
  {
    if a > 0 {
      Pow2Add(a - 1, b);
      assert Pow2(a + b) == 2 * Pow2(a - 1 + b);
    }
  }

  lemma Pow2Of32()
    ensures Pow2(32) == UINT_MODULUS
  {
    assert Pow2(8) == 256;
    Pow2Add(8, 8);
    Pow2Add(16, 16);
  }

  /** `v >> i` on a non-negative value: halve `i` times. */
  function ShiftRight(v: nat, i: nat): nat {
    if i == 0 then v else ShiftRight(v / 2, i - 1)
  }

  lemma {:induction false} ShiftRightSucc(v: nat, s: nat)
    ensures ShiftRight(v, s + 1) == ShiftRight(v, s) / 2
  {
    if s > 0 {
      ShiftRightSucc(v / 2, s - 1);
    }
  }

  lemma {:induction false} ShiftRightVanishes(v: nat, m: nat)
    requires v < Pow2(m)
    ensures ShiftRight(v, m) == 0
  {
    if m > 0 {
      ShiftRightVanishes(v / 2, m - 1);
    }
  }

  /** Bit `i` of a word: `(w >> i) & 1`. */
  function WordBit(w: nat, i: nat): (r: byte)
    ensures r <= 1
    ensures r == 1 <==> ShiftRight(w, i) % 2 == 1
  {
    if ShiftRight(w, i) % 2 == 1 then 1 else 0
  }

  /** The 32-bit two's complement pattern of a C `int`. */
  function ToWord(v: int32): (w: uint32)
    ensures v >= 0 ==> w == v
    ensures v < 0 ==> w == v + UINT_MODULUS
  {
    if v >= 0 then v else v + UINT_MODULUS
  }

  /** The C `int` a 32-bit pattern denotes. */
  function FromWord(w: uint32): (v: int32)
    ensures ToWord(v) == w
    ensures w < INT_LIMIT ==> v == w
  {
    if w < INT_LIMIT then w else w - UINT_MODULUS
  }

  lemma FromToWord(v: int32)
    ensures FromWord(ToWord(v)) == v
  {
  }

  /** The 32 bits of `v`, most significant first. */
  function IntBits(v: int32): (bits: seq<byte>)
    ensures |bits| == INT_CHUNK
    ensures forall k :: 0 <= k < 32 ==> bits[k] == WordBit(ToWord(v), 31 - k)
  {
    seq(32, k requires 0 <= k < 32 => WordBit(ToWord(v), 31 - k))
  }

  /**
    encode_int_to_lsb: for `i` from 31 down to 0, the low bit of `buf[31 - i]`
    becomes bit `i` of `v`.  Always succeeds.
   */
  function EncodeInt(v: int32, buf: seq<byte>): (r: seq<byte>)
    requires |buf| >= INT_CHUNK
    ensures |r| == |buf|
    ensures forall k :: 0 <= k < 32 ==> Lsb(r[k]) == WordBit(ToWord(v), 31 - k)
    ensures forall k :: 0 <= k < 32 ==> Upper(r[k]) == Upper(buf[k])
    ensures forall k :: 32 <= k < |buf| ==> r[k] == buf[k]
  {
    seq(|buf|, k requires 0 <= k < |buf| =>
      if k < 32 then WithLsb(buf[k], WordBit(ToWord(v), 31 - k)) else buf[k])
  }

  /** The low bits of `buf[..n]` read as a binary number, first byte most significant. */
  function LsbNumber(buf: seq<byte>, n: nat): nat
    requires n <= |buf|
  {
    if n == 0 then 0 else 2 * LsbNumber(buf, n - 1) + LsbValueOf(buf[n - 1])
  }

  /** Bit `i` of `LsbNumber(buf, n)` is the low bit of `buf[n - 1 - i]`. */
  lemma {:induction false} LsbNumberBit(buf: seq<byte>, n: nat, i: nat)
    requires i < n <= |buf|
    ensures WordBit(LsbNumber(buf, n), i) == Lsb(buf[n - 1 - i])
  {
    var p := LsbNumber(buf, n - 1);
    var x := LsbNumber(buf, n);
    assert x == 2 * p + LsbValueOf(buf[n - 1]);
    if i > 0 {
      assert x / 2 == p;
      LsbNumberBit(buf, n - 1, i - 1);
    }
  }

  lemma {:induction false} LsbNumberBound(buf: seq<byte>, n: nat)
    requires n <= |buf|
    ensures LsbNumber(buf, n) < Pow2(n)
  {
    if n > 0 {
      LsbNumberBound(buf, n - 1);
    }
  }

  /**
    decode_int_from_lsb: bit `i` of the result's 32-bit pattern is the low bit
    of `buf[31 - i]`; the result is read back as a signed C `int`.
   */
  function DecodeInt(buf: seq<byte>): (v: int32)
    requires |buf| >= INT_CHUNK
    ensures forall i :: 0 <= i < 32 ==> WordBit(ToWord(v), i) == Lsb(buf[31 - i])
  {
    LsbNumberBound(buf, 32);
    Pow2Of32();
    var w := LsbNumber(buf, 32);
    assert forall i :: 0 <= i < 32 ==> WordBit(w, i) == Lsb(buf[31 - i]) by {
      forall i | 0 <= i < 32 {
        LsbNumberBit(buf, 32, i);
      }
    }
    FromWord(w)
  }

  /** If the low bits of `buf[..n]` are the top `n` bits of `w`, they spell `w >> (32 - n)`. */
  lemma {:induction false} LsbNumberOfWordBits(buf: seq<byte>, w: uint32, n: nat)
    requires n <= 32 && n <= |buf|
    requires forall k :: 0 <= k < n ==> Lsb(buf[k]) == WordBit(w, 31 - k)
    ensures LsbNumber(buf, n) == ShiftRight(w, 32 - n)
  {
    if n == 0 {
      Pow2Of32();
      ShiftRightVanishes(w, 32);
    } else {
      LsbNumberOfWordBits(buf, w, n - 1);
      ShiftRightSucc(w, 32 - n);
      var x := ShiftRight(w, 32 - n);
      assert LsbValueOf(buf[n - 1]) == x % 2;
      assert x == 2 * (x / 2) + x % 2;
    }
  }

  /** The word decoder reads nothing but the 32 low bits. */
  lemma DecodeIntReadsOnlyLsbs(a: seq<byte>, b: seq<byte>)
    requires |a| >= INT_CHUNK && |b| >= INT_CHUNK
    requires forall k :: 0 <= k < 32 ==> Lsb(a[k]) == Lsb(b[k])
    ensures DecodeInt(a) == DecodeInt(b)
  {
    var x, y := DecodeInt(a), DecodeInt(b);
    LsbNumberOfWordBits(a, ToWord(y), 32);
    FromToWord(y);
  }

  /** Thirty-two bytes whose low bits spell `IntBits(v)` decode to `v`. */
  lemma DecodeIntOfBits(buf: seq<byte>, v: int32)
    requires |buf| >= INT_CHUNK
    requires forall k :: 0 <= k < 32 ==> Lsb(buf[k]) == IntBits(v)[k]
    ensures DecodeInt(buf) == v
  {
    LsbNumberOfWordBits(buf, ToWord(v), 32);
    FromToWord(v);
  }

  /** decode_int_from_lsb inverts encode_int_to_lsb for every C `int`. */
  lemma DecodeEncodeInt(v: int32, buf: seq<byte>)
    requires |buf| >= INT_CHUNK
    ensures DecodeInt(EncodeInt(v, buf)) == v
  {
    DecodeIntOfBits(EncodeInt(v, buf), v);
  }
}
