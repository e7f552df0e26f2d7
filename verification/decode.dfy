/**
  The decoder: skip the 54-byte header, check the marker, read the extension
  length and the extension, build the output file name, read the payload
  length and the payload.  A stage maps a `Reader` (the stego image and the
  read position) to what it read and where the next read starts, or to an
  error; the first error ends the pipeline, as each `e_failure` does in C.

  Where the C code would go on with a half-filled buffer after a short read,
  the model stops with `TruncatedCarrier`.
 */
module Decode {
  import opened Types
  import opened BitCodec
  import opened Frame
  import opened Names

  /** The stego image and the position of the next read. */
  datatype Reader = Reader(src: seq<byte>, pos: nat)

  /** What a stage read and where the next read starts, or why it stopped. */
  datatype Read<+T> = Got(value: T, next: Reader) | Stopped(error: Error)

  /** What decode_secret_file_extn leaves behind: the extension and the output file name. */
  datatype Named = Named(extension: seq<byte>, fileName: seq<byte>)

  /** A successful decode: output file name, extension read, payload bytes. */
  datatype Decoded = Decoded(fileName: seq<byte>, extension: seq<byte>, payload: seq<byte>)

  /** skip_bmp_header: seek to offset 54.  A seek past the end succeeds; reads then fail. */
  function SkipBmpHeader(stego: seq<byte>): (c: Reader)
    ensures c.src == stego && c.pos == HEADER_SIZE
  {
    Reader(stego, HEADER_SIZE)
  }

  /** One `fread` of 8 bytes and decode_byte_from_lsb. */
  function DecodeByteStep(c: Reader): (r: Read<byte>)
    ensures r.Got? <==> c.pos + 8 <= |c.src|
    ensures r.Got? ==> r.value == ByteAt(c.src, c.pos) && r.next == Reader(c.src, c.pos + 8)
    ensures r.Stopped? ==> r.error == TruncatedCarrier
  {
    if c.pos + 8 > |c.src| then Stopped(TruncatedCarrier)
    else Got(DecodeByte(c.src[c.pos .. c.pos + 8]), Reader(c.src, c.pos + 8))
  }

  /**
    One `fread` of 32 bytes and decode_int_from_lsb: decode_secret_file_extn_size
    and decode_secret_file_size.  Which `int` it reads is `DecodeIntStepCarries`.
   */
  function DecodeIntStep(c: Reader): (r: Read<int32>)
    ensures r.Got? <==> c.pos + INT_CHUNK <= |c.src|
    ensures r.Got? ==> r.next == Reader(c.src, c.pos + INT_CHUNK)
    ensures r.Stopped? ==> r.error == TruncatedCarrier
  {
    if c.pos + INT_CHUNK > |c.src| then Stopped(TruncatedCarrier)
    else Got(DecodeInt(c.src[c.pos .. c.pos + INT_CHUNK]), Reader(c.src, c.pos + INT_CHUNK))
  }

  /** The `int` read at a position is exactly the one whose bits the 32 low bits there carry. */
  lemma DecodeIntStepCarries(c: Reader, v: int32)
    requires c.pos + INT_CHUNK <= |c.src|
    ensures DecodeIntStep(c).value == v <==> Carries(c.src, c.pos, IntBits(v))
  {
    var chunk := c.src[c.pos .. c.pos + INT_CHUNK];
    var w := DecodeInt(chunk);
    forall k | 0 <= k < 32
      ensures LsbAt(c.src, c.pos, k) == IntBits(w)[k]
    {
      assert c.src[c.pos + k] == chunk[k];
      assert WordBit(ToWord(w), 31 - k) == Lsb(chunk[31 - (31 - k)]);
    }
    if Carries(c.src, c.pos, IntBits(v)) {
      CarriedIntUnique(c.src, c.pos, v, w);
    }
  }

  /** A 32-byte chunk carries the bits of at most one `int`. */
  lemma CarriedIntUnique(s: seq<byte>, at: nat, v: int32, w: int32)
    requires Carries(s, at, IntBits(v)) && Carries(s, at, IntBits(w))
    ensures v == w
  {
    var chunk := s[at .. at + 32];
    forall k | 0 <= k < 32
      ensures Lsb(chunk[k]) == IntBits(v)[k] && Lsb(chunk[k]) == IntBits(w)[k]
    {
      assert chunk[k] == s[at + k];
      assert LsbAt(s, at, k) == IntBits(v)[k] && LsbAt(s, at, k) == IntBits(w)[k];
    }
    DecodeIntOfBits(chunk, v);
    DecodeIntOfBits(chunk, w);
  }

  /**
    decode_magic_string: decode one byte per 8 carrier bytes and compare it
    with the marker, giving up at the first byte that differs.  When it
    succeeds and why it fails is `DecodeMagicStringSeen`.
   */
  function DecodeMagicString(magic: seq<byte>, c: Reader): (r: Result<Reader>)
    ensures r.Ok? ==> r.value == Reader(c.src, c.pos + 8 * |magic|)
    ensures r.Err? ==> r.error == NotAContainer || r.error == TruncatedCarrier
    decreases |magic|
  {
    if |magic| == 0 then Ok(c)
    else
      var b := DecodeByteStep(c);
      if b.Stopped? then Err(b.error)
      else if b.value != magic[0] then Err(NotAContainer)
      else DecodeMagicString(magic[1..], b.next)
  }

  /**
    What the marker check promises, for a reader that sees `seen` when it
    wants as many bytes as the marker has: it passes exactly when `seen` is
    the marker, and it reports a foreign file exactly when `seen` differs
    from the marker's prefix of the same length; otherwise it ran out.
   */
  predicate ChecksMarker(r: Result<Reader>, seen: seq<byte>, magic: seq<byte>)
    requires |seen| <= |magic|
  {
    && (r.Ok? <==> seen == magic)
    && (r.Err? ==> (r.error == NotAContainer <==> seen != magic[.. |seen|]))
  }

  /** The marker check keeps that promise for every marker and position. */
  lemma {:induction false} DecodeMagicStringSeen(magic: seq<byte>, src: seq<byte>, pos: nat)
    ensures ChecksMarker(DecodeMagicString(magic, Reader(src, pos)), Seen(src, pos, |magic|), magic)
    decreases |magic|
  {
    if |magic| > 0 && pos + 8 <= |src| && ByteAt(src, pos) == magic[0] {
      var rest, next := magic[1..], pos + 8;
      DecodeMagicStringSeen(rest, src, next);
      DecodeMagicStringCons(magic, src, pos, rest, next);
    } else {
      DecodeMagicStringStops(magic, src, pos);
    }
  }

  /** The check keeps the promise when the marker is empty, the stream runs out, or the first byte differs. */
  lemma DecodeMagicStringStops(magic: seq<byte>, src: seq<byte>, pos: nat)
    requires |magic| == 0 || pos + 8 > |src| || ByteAt(src, pos) != magic[0]
    ensures ChecksMarker(DecodeMagicString(magic, Reader(src, pos)), Seen(src, pos, |magic|), magic)
  {
    if |magic| > 0 && pos + 8 <= |src| {
      var rest := Seen(src, pos + 8, |magic| - 1);
      assert Seen(src, pos, |magic|) == [ByteAt(src, pos)] + rest;
      MatchCons(ByteAt(src, pos), rest, magic);
    }
  }

  /** After a matching byte the check keeps the promise if the check of the rest does. */
  lemma DecodeMagicStringCons(magic: seq<byte>, src: seq<byte>, pos: nat, rest: seq<byte>, next: nat)
    requires |magic| > 0 && pos + 8 <= |src| && ByteAt(src, pos) == magic[0]
    requires rest == magic[1..] && next == pos + 8
    requires ChecksMarker(DecodeMagicString(rest, Reader(src, next)), Seen(src, next, |rest|), rest)
    ensures ChecksMarker(DecodeMagicString(magic, Reader(src, pos)), Seen(src, pos, |magic|), magic)
  {
    assert DecodeByteStep(Reader(src, pos)) == Got(ByteAt(src, pos), Reader(src, next));
    SeenCons(src, pos, |magic|, |rest|, next);
    MatchCons(ByteAt(src, pos), Seen(src, next, |rest|), magic);
  }

  /** Comparing `[x] + s` with `m` is comparing `x` with `m[0]`, then `s` with `m[1..]`. */
  lemma MatchCons(x: byte, s: seq<byte>, m: seq<byte>)
    requires 1 <= |m| && |s| < |m|
    ensures ([x] + s == m) <==> (x == m[0] && s == m[1..])
    ensures ([x] + s != m[.. |s| + 1]) <==> (x != m[0] || s != m[1..][.. |s|])
  {
    if x == m[0] && s == m[1..][.. |s|] {
      assert m[.. |s| + 1] == [m[0]] + m[1..][.. |s|];
    }
    if x == m[0] && s == m[1..] {
      assert m == [m[0]] + m[1..];
    }
  }

  /**
    The loop of decode_secret_file_extn: decode up to `n` bytes, one per 8
    carrier bytes, and stop right after a NUL.  The NUL is consumed but is
    not part of the extension.  Which bytes it returns, in terms of the
    reader's view `Seen`, is `ReadExtensionSeen`.
   */
  function ReadExtension(n: nat, c: Reader): (r: Read<seq<byte>>)
    ensures r.Got? ==> NoNul(r.value) && |r.value| <= n
    ensures r.Got? ==> r.next.src == c.src
    ensures r.Got? ==> (|| r.next.pos == c.pos + 8 * |r.value|
                        || r.next.pos == c.pos + 8 * (|r.value| + 1))
    ensures r.Stopped? ==> r.error == TruncatedCarrier
    decreases n
  {
    if n == 0 then Got([], c)
    else
      var b := DecodeByteStep(c);
      if b.Stopped? then Stopped(b.error)
      else if b.value == NUL then Got([], b.next)
      else
        var rest := ReadExtension(n - 1, b.next);
        if rest.Stopped? then rest else Got([b.value] + rest.value, rest.next)
  }

  /**
    What the extension loop promises, for a loop allowed `n` bytes from
    carrier offset `pos` whose reader sees `seen`: it succeeds exactly when
    `seen` holds a NUL or all `n` bytes; it returns what came before the
    first NUL and stops just past it, or returns everything it saw.
   */
  predicate ReadsUpToNul(r: Read<seq<byte>>, seen: seq<byte>, n: nat, pos: nat) {
    var j := IndexOf(seen, NUL);
    && (r.Got? <==> NUL in seen || |seen| == n)
    && (j < |seen| ==> r.Got? && r.value == seen[.. j] && r.next.pos == pos + 8 * (j + 1))
    && (NUL !in seen && |seen| == n ==> r.Got? && r.value == seen && r.next.pos == pos + 8 * n)
  }

  /** The extension loop keeps that promise for every allowance and position. */
  lemma {:induction false} ReadExtensionSeen(n: nat, src: seq<byte>, pos: nat)
    ensures ReadsUpToNul(ReadExtension(n, Reader(src, pos)), Seen(src, pos, n), n, pos)
    decreases n
  {
    if n > 0 && pos + 8 <= |src| && ByteAt(src, pos) != NUL {
      var m, next := n - 1, pos + 8;
      ReadExtensionSeen(m, src, next);
      ReadExtensionCons(n, src, pos, m, next);
    } else {
      ReadExtensionStops(n, src, pos);
    }
  }

  /** The loop keeps the promise when it reads nothing, runs out, or meets a NUL first. */
  lemma ReadExtensionStops(n: nat, src: seq<byte>, pos: nat)
    requires n == 0 || pos + 8 > |src| || ByteAt(src, pos) == NUL
    ensures ReadsUpToNul(ReadExtension(n, Reader(src, pos)), Seen(src, pos, n), n, pos)
  {
    if n > 0 && pos + 8 <= |src| {
      assert Seen(src, pos, n) == [NUL] + Seen(src, pos + 8, n - 1);
      assert IndexOf(Seen(src, pos, n), NUL) == 0;
    }
  }

  /** After a non-NUL byte the loop keeps the promise if the rest of the loop does. */
  lemma ReadExtensionCons(n: nat, src: seq<byte>, pos: nat, m: nat, next: nat)
    requires n > 0 && pos + 8 <= |src| && ByteAt(src, pos) != NUL
    requires m == n - 1 && next == pos + 8
    requires ReadsUpToNul(ReadExtension(m, Reader(src, next)), Seen(src, next, m), m, next)
    ensures ReadsUpToNul(ReadExtension(n, Reader(src, pos)), Seen(src, pos, n), n, pos)
  {
    var ch, rest := ByteAt(src, pos), Seen(src, next, m);
    SeenCons(src, pos, n, m, next);
    ReadExtensionUnfold(n, src, pos, m, next);
    ReadsUpToNulCons(ReadExtension(n, Reader(src, pos)), ReadExtension(m, Reader(src, next)), ch, rest, n, pos);
  }

  /** After a non-NUL byte the loop returns that byte followed by what the rest of the loop returns. */
  lemma ReadExtensionUnfold(n: nat, src: seq<byte>, pos: nat, m: nat, next: nat)
    requires n > 0 && pos + 8 <= |src| && ByteAt(src, pos) != NUL
    requires m == n - 1 && next == pos + 8
    ensures var r, rest := ReadExtension(n, Reader(src, pos)), ReadExtension(m, Reader(src, next));
      && r.Got? == rest.Got?
      && (r.Got? ==> r.value == [ByteAt(src, pos)] + rest.value && r.next.pos == rest.next.pos)
  {
    assert DecodeByteStep(Reader(src, pos)) == Got(ByteAt(src, pos), Reader(src, next));
  }

  /** A non-NUL byte in front of a loop that keeps the promise gives a loop that keeps it. */
  lemma ReadsUpToNulCons(r: Read<seq<byte>>, rest: Read<seq<byte>>, ch: byte, seen: seq<byte>, n: nat, pos: nat)
    requires n > 0 && ch != NUL && |seen| <= n - 1
    requires ReadsUpToNul(rest, seen, n - 1, pos + 8)
    requires r.Got? == rest.Got?
    requires r.Got? ==> r.value == [ch] + rest.value && r.next.pos == rest.next.pos
    ensures ReadsUpToNul(r, [ch] + seen, n, pos)
  {
    NulAfterNonNul(ch, seen);
  }

  /** Prepending a non-NUL byte shifts the first NUL by one. */
  lemma NulAfterNonNul(ch: byte, s: seq<byte>)
    requires ch != NUL
    ensures var j := IndexOf(s, NUL);
      && IndexOf([ch] + s, NUL) == j + 1
      && ([ch] + s)[.. j + 1] == [ch] + s[.. j]
      && (NUL in [ch] + s <==> NUL in s)
  {
    IndexOfCons(ch, s, NUL);
  }

  /** How often `for (i = 0; i < v; i++)` runs: never when `v` is not positive. */
  function Iterations(v: int32): nat {
    if v > 0 then v else 0
  }

  /**
    The extension a loop allowed `n` bytes from `at` reads: what it sees
    before the first NUL, or all it sees when there is none.
   */
  predicate ExtensionAt(src: seq<byte>, at: nat, n: nat, ext: seq<byte>) {
    var seen := Seen(src, at, n);
    ext == seen[.. IndexOf(seen, NUL)]
  }

  /**
    Where the read after the extension starts: past the extension's chunks,
    and past one more, the NUL's, when the extension is shorter than allowed.
   */
  function AfterExtension(at: nat, n: nat, ext: seq<byte>): nat {
    at + 8 * |ext| + (if |ext| < n then 8 else 0)
  }

  /**
    The payload a stream holds when its length field starts at `at`: the
    bytes of as many 8-byte chunks after the field as the field says.
   */
  predicate PayloadAt(src: seq<byte>, at: nat, payload: seq<byte>) {
    && at + INT_CHUNK <= |src|
    && var n := Iterations(DecodeIntStep(Reader(src, at)).value);
       && at + INT_CHUNK + 8 * n <= |src|
       && payload == DecodedBytes(src, at + INT_CHUNK, n)
  }

  /**
    The fields from an extension length field at `at` on: the extension the
    field allows, then the payload whose length field follows it.
   */
  predicate FieldsAt(src: seq<byte>, at: nat, d: Decoded) {
    && at + INT_CHUNK <= |src|
    && var n := Iterations(DecodeIntStep(Reader(src, at)).value);
       && ExtensionAt(src, at + INT_CHUNK, n, d.extension)
       && PayloadAt(src, AfterExtension(at + INT_CHUNK, n, d.extension), d.payload)
  }

  /**
    decode_secret_file_extn: read the extension (a non-positive length reads
    nothing), then name the output file after the base name and the extension.
   */
  function DecodeSecretFileExtn(fileExtn: int32, outputName: seq<byte>, c: Reader): (r: Read<Named>)
    ensures r.Got? ==> NoNul(r.value.extension) && |r.value.extension| <= Iterations(fileExtn)
    ensures r.Got? ==> ExtensionAt(c.src, c.pos, Iterations(fileExtn), r.value.extension)
    ensures r.Got? ==> r.next.pos == AfterExtension(c.pos, Iterations(fileExtn), r.value.extension)
    ensures r.Got? ==> r.value.fileName == OutputFileName(outputName, r.value.extension)
    ensures r.Got? ==> r.next.src == c.src
    ensures r.Stopped? ==> r.error == TruncatedCarrier
  {
    var count := Iterations(fileExtn);
    var ext := ReadExtension(count, c);
    if ext.Stopped? then Stopped(ext.error)
    else
      ReadExtensionSeen(count, c.src, c.pos);
      Got(Named(ext.value, OutputFileName(outputName, ext.value)), ext.next)
  }

  /**
    The loop of decode_secret_file_data: exactly `n` bytes, each from 8
    carrier bytes.  Which bytes they are is `ReadBytesDecoded`.
   */
  function ReadBytes(n: nat, c: Reader): (r: Read<seq<byte>>)
    ensures r.Got? <==> n == 0 || c.pos + 8 * n <= |c.src|
    ensures r.Got? ==> |r.value| == n && r.next == Reader(c.src, c.pos + 8 * n)
    ensures r.Stopped? ==> r.error == TruncatedCarrier
    decreases n
  {
    if n == 0 then Got([], c)
    else
      var b := DecodeByteStep(c);
      if b.Stopped? then Stopped(b.error)
      else
        var rest := ReadBytes(n - 1, b.next);
        if rest.Stopped? then rest else Got([b.value] + rest.value, rest.next)
  }

  /** The bytes the data loop returns are the decoded chunks, in order. */
  lemma {:induction false} ReadBytesDecoded(n: nat, c: Reader)
    requires c.pos + 8 * n <= |c.src|
    ensures ReadBytes(n, c).value == DecodedBytes(c.src, c.pos, n)
    decreases n
  {
    if n > 0 {
      var m, next := n - 1, c.pos + 8;
      ReadBytesDecoded(m, Reader(c.src, next));
      ReadBytesCons(n, c, m, next);
    }
  }

  /** One more chunk in front: the data loop's bytes grow by the byte that chunk decodes to. */
  lemma ReadBytesCons(n: nat, c: Reader, m: nat, next: nat)
    requires n > 0 && c.pos + 8 * n <= |c.src|
    requires m == n - 1 && next == c.pos + 8
    requires ReadBytes(m, Reader(c.src, next)).value == DecodedBytes(c.src, next, m)
    ensures ReadBytes(n, c).value == DecodedBytes(c.src, c.pos, n)
  {
    ReadBytesUnfold(n, c, m, next);
    DecodedBytesCons(c.src, c.pos, n, m, next);
  }

  /** With a chunk left, the data loop returns its byte followed by what the rest of the loop returns. */
  lemma ReadBytesUnfold(n: nat, c: Reader, m: nat, next: nat)
    requires n > 0 && c.pos + 8 <= |c.src|
    requires m == n - 1 && next == c.pos + 8
    ensures var r, rest := ReadBytes(n, c), ReadBytes(m, Reader(c.src, next));
      && r.Got? == rest.Got?
      && (r.Got? ==> r.value == [ByteAt(c.src, c.pos)] + rest.value)
  {
    assert DecodeByteStep(c) == Got(ByteAt(c.src, c.pos), Reader(c.src, next));
  }

  /** decode_secret_file_data: the bytes of `fileSize` chunks; a negative size reads nothing. */
  function DecodeSecretFileData(fileSize: int32, c: Reader): (r: Read<seq<byte>>)
    ensures var count := Iterations(fileSize);
      && (r.Got? <==> count == 0 || c.pos + 8 * count <= |c.src|)
      && (r.Got? ==> |r.value| == count && r.next == Reader(c.src, c.pos + 8 * count))
    ensures r.Got? && Iterations(fileSize) > 0 ==> r.value == DecodedBytes(c.src, c.pos, Iterations(fileSize))
    ensures r.Stopped? ==> r.error == TruncatedCarrier
  {
    var count := Iterations(fileSize);
    var data := ReadBytes(count, c);
    if data.Got? && count > 0 then
      ReadBytesDecoded(count, c);
      data
    else data
  }

  /**
    The stages of do_decoding after the marker: extension length, extension
    and output name, payload length, payload.
   */
  function DecodeFields(c: Reader, outputName: seq<byte>): (r: Result<Decoded>)
    ensures r.Ok? ==> NoNul(r.value.extension)
    ensures r.Ok? ==> r.value.fileName == OutputFileName(outputName, r.value.extension)
    ensures r.Ok? ==> FieldsAt(c.src, c.pos, r.value)
    ensures r.Err? ==> r.error == TruncatedCarrier
  {
    var size := DecodeIntStep(c);
    if size.Stopped? then Err(size.error)
    else DecodeNamedFields(size.value, outputName, size.next)
  }

  /** The stages from the extension on, once its length is known. */
  function DecodeNamedFields(extnSize: int32, outputName: seq<byte>, c: Reader): (r: Result<Decoded>)
    ensures r.Ok? ==> NoNul(r.value.extension)
    ensures r.Ok? ==> r.value.fileName == OutputFileName(outputName, r.value.extension)
    ensures r.Ok? ==> c.pos + 32 <= |c.src|
    ensures r.Ok? ==> ExtensionAt(c.src, c.pos, Iterations(extnSize), r.value.extension)
    ensures r.Ok? ==> PayloadAt(c.src, AfterExtension(c.pos, Iterations(extnSize), r.value.extension), r.value.payload)
    ensures r.Err? ==> r.error == TruncatedCarrier
  {
    var named := DecodeSecretFileExtn(extnSize, outputName, c);
    if named.Stopped? then Err(named.error)
    else DecodePayloadFields(named.value, named.next)
  }

  /** The stages from the payload length on, once the names are known. */
  function DecodePayloadFields(named: Named, c: Reader): (r: Result<Decoded>)
    ensures r.Ok? ==> r.value.fileName == named.fileName && r.value.extension == named.extension
    ensures r.Ok? <==>
      && c.pos + INT_CHUNK <= |c.src|
      && c.pos + INT_CHUNK + 8 * Iterations(DecodeIntStep(c).value) <= |c.src|
    ensures r.Ok? ==> PayloadAt(c.src, c.pos, r.value.payload)
    ensures r.Err? ==> r.error == TruncatedCarrier
  {
    var size := DecodeIntStep(c);
    if size.Stopped? then Err(size.error)
    else
      var data := DecodeSecretFileData(size.value, size.next);
      if data.Stopped? then Err(data.error)
      else Ok(Decoded(named.fileName, named.extension, data.value))
  }
  /**
    Conversely, the stages from the extension on succeed whenever the
    extension the length allows and the payload after it fit, and they give
    exactly those, NUL-terminated extension or not.
   */
  lemma NamedFieldsComplete(extnSize: int32, outputName: seq<byte>, c: Reader, d: Decoded)
    requires ExtensionAt(c.src, c.pos, Iterations(extnSize), d.extension)
    requires PayloadAt(c.src, AfterExtension(c.pos, Iterations(extnSize), d.extension), d.payload)
    ensures DecodeNamedFields(extnSize, outputName, c) == Ok(Decoded(OutputFileName(outputName, d.extension), d.extension, d.payload))
  {
    var n := Iterations(extnSize);
    var q := AfterExtension(c.pos, n, d.extension);
    ExtensionComplete(n, c, d.extension, q);
    var named := Named(d.extension, OutputFileName(outputName, d.extension));
    assert DecodeSecretFileExtn(extnSize, outputName, c) == Got(named, Reader(c.src, q));
    PayloadComplete(named, Reader(c.src, q), d.payload);
  }

  /**
    The extension loop succeeds on any extension the stream holds when a
    length field still fits after it, and stops right after it.
   */
  lemma ExtensionComplete(n: nat, c: Reader, ext: seq<byte>, q: nat)
    requires ExtensionAt(c.src, c.pos, n, ext)
    requires q == AfterExtension(c.pos, n, ext) && q + INT_CHUNK <= |c.src|
    ensures ReadExtension(n, c) == Got(ext, Reader(c.src, q))
  {
    var seen := Seen(c.src, c.pos, n);
    var j := IndexOf(seen, NUL);
    ReadExtensionSeen(n, c.src, c.pos);
    assert c == Reader(c.src, c.pos);
    if j < |seen| {
      assert |ext| == j < n;
    } else {
      assert ext == seen && NUL !in seen;
    }
  }

  /** The stages from the payload length on succeed on any payload the stream holds there. */
  lemma PayloadComplete(named: Named, c: Reader, payload: seq<byte>)
    requires PayloadAt(c.src, c.pos, payload)
    ensures DecodePayloadFields(named, c) == Ok(Decoded(named.fileName, named.extension, payload))
  {
  }

  /** The stages after the marker succeed whenever the fields fit, and give exactly those fields. */
  lemma FieldsComplete(c: Reader, outputName: seq<byte>, d: Decoded)
    requires FieldsAt(c.src, c.pos, d)
    ensures DecodeFields(c, outputName) == Ok(Decoded(OutputFileName(outputName, d.extension), d.extension, d.payload))
  {
    NamedFieldsComplete(DecodeIntStep(c).value, outputName, DecodeIntStep(c).next, d);
  }


  /**
    do_decoding, after the stego image is open: skip the header, check the
    marker, then read the frame.  `outputName` is the base name the caller
    chose; the first stage that fails ends the pipeline.
   */
  function DoDecoding(magic: seq<byte>, stego: seq<byte>, outputName: seq<byte>): (r: Result<Decoded>)
    ensures var seen := Seen(stego, HEADER_SIZE, |magic|);
      seen != magic[.. |seen|] ==> r == Err(NotAContainer)
    ensures r.Ok? ==> Carries(stego, HEADER_SIZE, BytesBits(magic))
    ensures r.Ok? ==> NoNul(r.value.extension)
    ensures r.Ok? ==> r.value.fileName == OutputFileName(outputName, r.value.extension)
    ensures r.Ok? ==> FieldsAt(stego, HEADER_SIZE + 8 * |magic|, r.value)
    ensures r.Err? ==> r.error == NotAContainer || r.error == TruncatedCarrier
  {
    DecodeMagicStringSeen(magic, stego, HEADER_SIZE);
    var c0 := SkipBmpHeader(stego);
    var c1 :- DecodeMagicString(magic, c0);
    var r := DecodeFields(c1, outputName);
    if r.Ok? then
      SeenAll(stego, HEADER_SIZE, |magic|);
      DecodedBytesIffCarries(stego, HEADER_SIZE, magic);
      r
    else r
  }
}
