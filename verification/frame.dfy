/**
  The container format as a bit stream, independent of how the encoder and
  decoder walk it.  The embedded frame is

      magic | extension length : int | extension | payload length : int | payload

  every byte taking 8 carrier bytes and every `int` taking 32, one bit in the
  low bit of each carrier byte, most significant bit first.  `Carries` says a
  stream holds a given bit string at a given offset; `DecodedBytes` is the
  decoder's view of a stream, byte by byte.
 */
module Frame {
  import opened Types
  import opened BitCodec

  /** The low bits a byte string occupies, eight per byte, in order. */
  function BytesBits(s: seq<byte>): (bits: seq<byte>)
    ensures |bits| == 8 * |s|
  {
    seq(8 * |s|, i requires 0 <= i < 8 * |s| => ByteBits(s[i / 8])[i % 8])
  }

  /** Byte `j` of `s` occupies bits `8 * j` to `8 * j + 7`, most significant first. */
  lemma BytesBitsChunk(s: seq<byte>, j: nat)
    requires j < |s|
    ensures BytesBits(s)[8 * j .. 8 * j + 8] == ByteBits(s[j])
  {
    var bits := BytesBits(s);
    forall k | 0 <= k < 8
      ensures bits[8 * j + k] == ByteBits(s[j])[k]
    {
      var i := 8 * j + k;
      assert i / 8 == j && i % 8 == k;
    }
  }

  lemma BytesBitsAppend(a: seq<byte>, b: seq<byte>)
    ensures BytesBits(a + b) == BytesBits(a) + BytesBits(b)
  {
    var x, y := BytesBits(a + b), BytesBits(a) + BytesBits(b);
    forall i | 0 <= i < |x|
      ensures x[i] == y[i]
    {
      BytesBitsAppendAt(a, b, i);
    }
  }

  /** Bit `i` of the concatenation is bit `i` of `a`'s bits followed by `b`'s. */
  lemma BytesBitsAppendAt(a: seq<byte>, b: seq<byte>, i: nat)
    requires i < 8 * (|a| + |b|)
    ensures BytesBits(a + b)[i] == (BytesBits(a) + BytesBits(b))[i]
  {
    var j, k := i / 8, i % 8;
    if j < |a| {
      assert (a + b)[j] == a[j];
    } else {
      assert (a + b)[j] == b[j - |a|];
      DivModEight(i - 8 * |a|, j - |a|, k);
    }
  }

  /** Quotient and remainder by 8 are determined by `x == 8 * q + r`. */
  lemma DivModEight(x: int, q: int, r: int)
    requires 0 <= r < 8 && x == 8 * q + r
    ensures x / 8 == q && x % 8 == r
  {
  }

  /** The low bit of the carrier byte `k` places after `at`. */
  function LsbAt(s: seq<byte>, at: nat, k: nat): byte
    requires at + k < |s|
  {
    Lsb(s[at + k])
  }

  /**
    The stream `s` holds `bits` in the low bits of `s[at ..]`.  The bit-wise
    facts are only drawn on for the positions a proof names with `LsbAt`.
   */
  predicate Carries(s: seq<byte>, at: nat, bits: seq<byte>) {
    && at + |bits| <= |s|
    && forall k {:trigger LsbAt(s, at, k)} :: 0 <= k < |bits| ==> LsbAt(s, at, k) == bits[k]
  }

  lemma CarriesAppend(s: seq<byte>, at: nat, a: seq<byte>, b: seq<byte>)
    ensures Carries(s, at, a + b) <==> Carries(s, at, a) && Carries(s, at + |a|, b)
  {
    if Carries(s, at, a) && Carries(s, at + |a|, b) {
      forall k | 0 <= k < |a + b|
        ensures LsbAt(s, at, k) == (a + b)[k]
      {
        if k >= |a| {
          assert LsbAt(s, at, k) == LsbAt(s, at + |a|, k - |a|);
        } else {
          assert LsbAt(s, at, k) == a[k];
        }
      }
    }
    if Carries(s, at, a + b) {
      forall k | 0 <= k < |a|
        ensures LsbAt(s, at, k) == a[k]
      {
        assert (a + b)[k] == a[k];
      }
      forall k | 0 <= k < |b|
        ensures LsbAt(s, at + |a|, k) == b[k]
      {
        assert (a + b)[|a| + k] == b[k];
        assert LsbAt(s, at + |a|, k) == LsbAt(s, at, |a| + k);
      }
    }
  }

  /** Only the low bits matter to `Carries`. */
  lemma CarriesReadsOnlyLsbs(s: seq<byte>, t: seq<byte>, at: nat, bits: seq<byte>)
    requires |s| == |t|
    requires forall k :: at <= k < |s| ==> Lsb(s[k]) == Lsb(t[k])
    ensures Carries(s, at, bits) <==> Carries(t, at, bits)
  {
    if at + |bits| <= |s| {
      forall k | 0 <= k < |bits|
        ensures LsbAt(s, at, k) == LsbAt(t, at, k)
      {
      }
    }
  }

  /** The whole frame, field by field. */
  function FrameBits(magic: seq<byte>, ext: seq<byte>, payload: seq<byte>): (bits: seq<byte>)
    requires |ext| < INT_LIMIT && |payload| < INT_LIMIT
    ensures |bits| == FrameCost(|magic|, |ext|, |payload|)
  {
    BytesBits(magic) + IntBits(|ext|) + BytesBits(ext) + IntBits(|payload|) + BytesBits(payload)
  }

  /** Carrier bytes a frame occupies: 8 per byte, 32 per length field. */
  function FrameCost(magicLen: nat, extLen: nat, payloadLen: nat): nat {
    8 * (magicLen + extLen + payloadLen) + 64
  }

  /** Carrying five strings back to back is carrying each at its offset. */
  lemma CarriesFive(s: seq<byte>, at: nat, a: seq<byte>, b: seq<byte>, c: seq<byte>, d: seq<byte>, e: seq<byte>)
    ensures Carries(s, at, a + b + c + d + e) <==>
      && Carries(s, at, a)
      && Carries(s, at + |a|, b)
      && Carries(s, at + |a| + |b|, c)
      && Carries(s, at + |a| + |b| + |c|, d)
      && Carries(s, at + |a| + |b| + |c| + |d|, e)
  {
    CarriesAppend(s, at, a + b + c + d, e);
    CarriesAppend(s, at, a + b + c, d);
    CarriesAppend(s, at, a + b, c);
    CarriesAppend(s, at, a, b);
  }

  /** A stream carries a frame exactly when it carries each field at its offset. */
  lemma CarriesFrame(s: seq<byte>, at: nat, magic: seq<byte>, ext: seq<byte>, payload: seq<byte>)
    requires |ext| < INT_LIMIT && |payload| < INT_LIMIT
    ensures Carries(s, at, FrameBits(magic, ext, payload)) <==>
      var p1 := at + 8 * |magic|;
      var p2 := p1 + 32;
      var p3 := p2 + 8 * |ext|;
      var p4 := p3 + 32;
      && Carries(s, at, BytesBits(magic))
      && Carries(s, p1, IntBits(|ext|))
      && Carries(s, p2, BytesBits(ext))
      && Carries(s, p3, IntBits(|payload|))
      && Carries(s, p4, BytesBits(payload))
  {
    CarriesFive(s, at, BytesBits(magic), IntBits(|ext|), BytesBits(ext), IntBits(|payload|), BytesBits(payload));
  }

  // ---------------------------------------------------------------------------
  // The decoder's view of a stream
  // ---------------------------------------------------------------------------

  /** The byte the 8 carrier bytes at `at` decode to. */
  function ByteAt(s: seq<byte>, at: nat): byte
    requires at + 8 <= |s|
  {
    DecodeByte(s[at .. at + 8])
  }

  /** The `n` bytes that `n` consecutive 8-byte chunks from `at` decode to. */
  function DecodedBytes(s: seq<byte>, at: nat, n: nat): (d: seq<byte>)
    requires at + 8 * n <= |s|
    ensures |d| == n
  {
    seq(n, j requires 0 <= j < n => ByteAt(s, at + 8 * j))
  }

  /**
    What a reader that wants `n` bytes from `at` decodes before the stream
    ends: one byte per whole 8-byte chunk, at most `n` of them.
   */
  function Seen(s: seq<byte>, at: nat, n: nat): (d: seq<byte>)
    ensures |d| <= n
    ensures |d| < n ==> at + 8 * |d| + 8 > |s|
    ensures |d| == 0 || at + 8 * |d| <= |s|
    decreases n
  {
    if n == 0 || at + 8 > |s| then [] else [ByteAt(s, at)] + Seen(s, at + 8, n - 1)
  }

  /** With a chunk left, the reader sees its byte, then what a reader of `m == n - 1` bytes from `next == at + 8` sees. */
  lemma SeenCons(s: seq<byte>, at: nat, n: nat, m: nat, next: nat)
    requires 1 <= n && at + 8 <= |s|
    requires m == n - 1 && next == at + 8
    ensures Seen(s, at, n) == [ByteAt(s, at)] + Seen(s, next, m)
  {
  }

  /** The first of `n` chunks, then the `m == n - 1` chunks from `next == at + 8`. */
  lemma DecodedBytesCons(s: seq<byte>, at: nat, n: nat, m: nat, next: nat)
    requires 1 <= n && at + 8 * n <= |s|
    requires m == n - 1 && next == at + 8
    ensures DecodedBytes(s, at, n) == [ByteAt(s, at)] + DecodedBytes(s, next, m)
  {
  }

  /** With `n` whole chunks left, the reader sees all `n` decoded bytes. */
  lemma {:induction false} SeenAll(s: seq<byte>, at: nat, n: nat)
    requires at + 8 * n <= |s|
    ensures Seen(s, at, n) == DecodedBytes(s, at, n)
    decreases n
  {
    if n > 0 {
      SeenAll(s, at + 8, n - 1);
      DecodedBytesCons(s, at, n, n - 1, at + 8);
    }
  }

  /** The reader's view depends on nothing but the low bits from `at` on. */
  lemma {:induction false} SeenReadsOnlyLsbs(s: seq<byte>, t: seq<byte>, at: nat, n: nat)
    requires |s| == |t|
    requires forall k :: at <= k < |s| ==> Lsb(s[k]) == Lsb(t[k])
    ensures Seen(s, at, n) == Seen(t, at, n)
    decreases n
  {
    if n > 0 && at + 8 <= |s| {
      DecodeByteReadsOnlyLsbs(s[at .. at + 8], t[at .. at + 8]);
      SeenReadsOnlyLsbs(s, t, at + 8, n - 1);
    }
  }

  /** A stream decodes to `d` exactly when it carries the bits of `d`. */
  lemma DecodedBytesIffCarries(s: seq<byte>, at: nat, d: seq<byte>)
    requires at + 8 * |d| <= |s|
    ensures DecodedBytes(s, at, |d|) == d <==> Carries(s, at, BytesBits(d))
  {
    var bits := BytesBits(d);
    if Carries(s, at, bits) {
      forall j | 0 <= j < |d|
        ensures ByteAt(s, at + 8 * j) == d[j]
      {
        CarriedChunkDecodes(s, at, d, j);
      }
    }
    if DecodedBytes(s, at, |d|) == d {
      forall i | 0 <= i < |bits|
        ensures LsbAt(s, at, i) == bits[i]
      {
        DecodedChunkCarries(s, at, d, i);
      }
    }
  }

  /** Chunk `j` of a stream that carries the bits of `d` decodes to `d[j]`. */
  lemma CarriedChunkDecodes(s: seq<byte>, at: nat, d: seq<byte>, j: nat)
    requires at + 8 * |d| <= |s| && j < |d|
    requires Carries(s, at, BytesBits(d))
    ensures ByteAt(s, at + 8 * j) == d[j]
  {
    var bits := BytesBits(d);
    var chunk := s[at + 8 * j .. at + 8 * j + 8];
    BytesBitsChunk(d, j);
    forall k | 0 <= k < 8
      ensures Lsb(chunk[k]) == ByteBits(d[j])[k]
    {
      assert chunk[k] == s[at + (8 * j + k)];
      assert LsbAt(s, at, 8 * j + k) == bits[8 * j + k] == ByteBits(d[j])[k];
    }
    DecodeByteOfBits(chunk, d[j]);
  }

  /** Where the chunks decode to `d`, low bit `i` is bit `i` of `d`. */
  lemma DecodedChunkCarries(s: seq<byte>, at: nat, d: seq<byte>, i: nat)
    requires at + 8 * |d| <= |s| && i < 8 * |d|
    requires DecodedBytes(s, at, |d|) == d
    ensures LsbAt(s, at, i) == BytesBits(d)[i]
  {
    var j, k := i / 8, i % 8;
    assert i == 8 * j + k;
    var chunk := s[at + 8 * j .. at + 8 * j + 8];
    assert ByteAt(s, at + 8 * j) == d[j];
    assert ByteBit(d[j], 7 - k) == Lsb(chunk[k]);
    assert chunk[k] == s[at + i];
  }
}
