/**
  The bit loops of encode_byte_to_lsb, encode_int_to_lsb and
  decode_byte_from_lsb written the way the C code runs them: a counter `i`
  from the top bit down to 0, one carrier byte per step.  Each is proved to
  compute the functional definition the rest of the model uses.
 */
module CodecLoops {
  import opened Types
  import opened BitCodec

  /** encode_byte_to_lsb: clear the low bit of `buf[7 - i]`, then or in bit `i` of `data`. */
  method EncodeByteToLsb(data: byte, buf: seq<byte>) returns (r: seq<byte>)
    requires |buf| >= BYTE_CHUNK
    ensures |r| == |buf|
    ensures forall k :: 0 <= k < 8 ==> Lsb(r[k]) == ByteBit(data, 7 - k) && Upper(r[k]) == Upper(buf[k])
    ensures r == EncodeByte(data, buf)
  {
    r := buf;
    var i: int := 7;
    while i >= 0
      invariant -1 <= i <= 7 && |r| == |buf|
      invariant forall k :: 0 <= k < 7 - i ==> r[k] == WithLsb(buf[k], ByteBit(data, 7 - k))
      invariant forall k :: 7 - i <= k < |buf| ==> r[k] == buf[k]
      decreases i
    {
      var bitData := ByteBit(data, i);
      ghost var before := r;
      r := r[7 - i := r[7 - i] & 0xFE];
      r := r[7 - i := r[7 - i] | bitData];
      assert r == before[7 - i := WithLsb(buf[7 - i], ByteBit(data, 7 - (7 - i)))];
      i := i - 1;
    }
    SameAsEncodeByte(data, buf, r);
  }

  /** A buffer whose first 8 bytes have the data bits set in, and the rest unchanged, is EncodeByte's. */
  lemma SameAsEncodeByte(data: byte, buf: seq<byte>, r: seq<byte>)
    requires |buf| >= BYTE_CHUNK && |r| == |buf|
    requires forall k :: 0 <= k < 8 ==> r[k] == WithLsb(buf[k], ByteBit(data, 7 - k))
    requires forall k :: 8 <= k < |buf| ==> r[k] == buf[k]
    ensures r == EncodeByte(data, buf)
  {
    assert forall k :: 0 <= k < |buf| ==> r[k] == EncodeByte(data, buf)[k];
  }

  /** encode_int_to_lsb: the same loop over 32 carrier bytes and the bits of `size`. */
  method EncodeIntToLsb(size: int32, buf: seq<byte>) returns (r: seq<byte>)
    requires |buf| >= INT_CHUNK
    ensures |r| == |buf|
    ensures forall k :: 0 <= k < 32 ==> Lsb(r[k]) == WordBit(ToWord(size), 31 - k) && Upper(r[k]) == Upper(buf[k])
    ensures r == EncodeInt(size, buf)
  {
    r := buf;
    var i: int := 31;
    while i >= 0
      invariant -1 <= i <= 31 && |r| == |buf|
      invariant forall k :: 0 <= k < 31 - i ==> r[k] == WithLsb(buf[k], WordBit(ToWord(size), 31 - k))
      invariant forall k :: 31 - i <= k < |buf| ==> r[k] == buf[k]
      decreases i
    {
      var bitData := WordBit(ToWord(size), i);
      r := r[31 - i := r[31 - i] & 0xFE];
      r := r[31 - i := r[31 - i] | bitData];
      i := i - 1;
    }
    assert forall k :: 0 <= k < |buf| ==> r[k] == EncodeInt(size, buf)[k];
  }

  /** decode_byte_from_lsb: or the low bit of `buf[7 - i]` into bit `i` of the result. */
  method DecodeByteFromLsb(buf: seq<byte>) returns (data: byte)
    requires |buf| >= BYTE_CHUNK
    ensures forall i :: 0 <= i < 8 ==> ByteBit(data, i) == Lsb(buf[7 - i])
    ensures data == DecodeByte(buf)
  {
    var decoded: byte := 0;
    var i: int := 7;
    while i >= 0
      invariant -1 <= i <= 7
      invariant forall j :: 0 <= j < 8 ==> ByteBit(decoded, j) == if j > i then Lsb(buf[7 - j]) else 0
      decreases i
    {
      var bitData := buf[7 - i] & 1;
      OrBit(decoded, bitData, i);
      ghost var before := decoded;
      decoded := decoded | (bitData << i);
      forall j | 0 <= j < 8
        ensures ByteBit(decoded, j) == if j > i - 1 then Lsb(buf[7 - j]) else 0
      {
        assert ByteBit(decoded, j) == if j == i then ByteBit(before, j) | bitData else ByteBit(before, j);
        if j == i {
          assert ByteBit(before, j) == 0;
          assert bitData == Lsb(buf[7 - j]);
        }
      }
      i := i - 1;
    }
    forall k | 0 <= k < 8
      ensures Lsb(buf[k]) == ByteBits(decoded)[k]
    {
      assert ByteBit(decoded, 7 - k) == Lsb(buf[7 - (7 - k)]);
    }
    DecodeByteOfBits(buf, decoded);
    data := decoded;
  }

  /** Or-ing a single bit in at position `i` sets bit `i` and keeps the others. */
  lemma OrBit(d: byte, b: byte, i: nat)
    requires b <= 1 && i < 8
    ensures forall j :: 0 <= j < 8 ==> ByteBit(d | (b << i), j) == if j == i then ByteBit(d, j) | b else ByteBit(d, j)
  {
    if i == 0 {} else if i == 1 {} else if i == 2 {} else if i == 3 {}
    else if i == 4 {} else if i == 5 {} else if i == 6 {} else {}
  }
}
