/**
  The encoder: copy the 54-byte header, embed the frame field by field, copy
  the rest of the carrier.  Each C stage reads a chunk of the carrier, rewrites
  the chunk's low bits and writes it to the stego image; here a stage maps an
  `Encoder` (both stream positions) to the next one, or to an error.
 */
module Encode {
  import opened Types
  import opened BitCodec
  import opened Frame
  import opened Names
  import opened Capacity

  /**
    The carrier image `src` read up to `pos`, and the stego image `out`
    written so far.
   */
  datatype Encoder = Encoder(src: seq<byte>, pos: nat, out: seq<byte>)

  /** Both streams stand at the same offset, inside the carrier. */
  predicate InStep(e: Encoder) {
    |e.out| == e.pos <= |e.src|
  }

  /**
    `r` is `e` after a stage that consumed `|bits|` carrier bytes and wrote
    them back with `bits` in their low bits and their upper bits untouched.
   */
  predicate Embedded(e: Encoder, r: Encoder, bits: seq<byte>)
    requires InStep(e)
  {
    && r.src == e.src
    && r.pos == e.pos + |bits| <= |r.src|
    && |r.out| == r.pos
    && r.out[.. e.pos] == e.out
    && Carries(r.out, e.pos, bits)
    && forall k :: e.pos <= k < r.pos ==> Upper(r.out[k]) == Upper(e.src[k])
  }

  lemma EmbeddedThen(e: Encoder, m: Encoder, r: Encoder, a: seq<byte>, b: seq<byte>)
    requires InStep(e) && InStep(m)
    requires Embedded(e, m, a) && Embedded(m, r, b)
    ensures Embedded(e, r, a + b)
  {
    assert r.out[.. e.pos] == m.out[.. e.pos];
    forall k | 0 <= k < |a|
      ensures LsbAt(r.out, e.pos, k) == a[k]
    {
      assert r.out[e.pos + k] == m.out[e.pos + k];
      assert LsbAt(m.out, e.pos, k) == a[k];
    }
    CarriesAppend(r.out, e.pos, a, b);
  }

  lemma EmbeddedNothing(e: Encoder)
    requires InStep(e)
    ensures Embedded(e, e, [])
  {
  }

  // ---------------------------------------------------------------------------
  // One chunk
  // ---------------------------------------------------------------------------

  /**
    Read 8 carrier bytes, put `data` in their low bits (encode_byte_to_lsb),
    write them out.  A carrier that ends first is an error.
   */
  function EncodeByteStep(data: byte, e: Encoder): (r: Result<Encoder>)
    requires InStep(e)
    ensures r.Ok? <==> e.pos + BYTE_CHUNK <= |e.src|
    ensures r.Ok? ==> InStep(r.value) && Embedded(e, r.value, ByteBits(data))
    ensures r.Err? ==> r.error == TruncatedCarrier
  {
    if e.pos + BYTE_CHUNK > |e.src| then Err(TruncatedCarrier)
    else
      var arr := EncodeByte(data, e.src[e.pos .. e.pos + BYTE_CHUNK]);
      Ok(Encoder(e.src, e.pos + BYTE_CHUNK, e.out + arr))
  }

  /**
    Read 32 carrier bytes, put `v` in their low bits (encode_int_to_lsb),
    write them out.
   */
  function EncodeIntStep(v: int32, e: Encoder): (r: Result<Encoder>)
    requires InStep(e)
    ensures r.Ok? <==> e.pos + INT_CHUNK <= |e.src|
    ensures r.Ok? ==> InStep(r.value) && Embedded(e, r.value, IntBits(v))
    ensures r.Err? ==> r.error == TruncatedCarrier
  {
    if e.pos + INT_CHUNK > |e.src| then Err(TruncatedCarrier)
    else
      var arr := EncodeInt(v, e.src[e.pos .. e.pos + INT_CHUNK]);
      Ok(Encoder(e.src, e.pos + INT_CHUNK, e.out + arr))
  }

  // ---------------------------------------------------------------------------
  // The stages of do_encoding
  // ---------------------------------------------------------------------------

  /**
    copy_bmp_header: read up to 54 bytes from the start of the carrier, write
    54, and succeed only if both files then stand at the same offset.
   */
  function CopyBmpHeader(src: seq<byte>): (r: Result<Encoder>)
    ensures r.Ok? <==> |src| >= HEADER_SIZE
    ensures r.Ok? ==> InStep(r.value) && r.value.src == src && r.value.pos == HEADER_SIZE
    ensures r.Ok? ==> r.value.out == src[.. HEADER_SIZE]
    ensures r.Err? ==> r.error == HeaderCopyFailed
  {
    var srcOffset := if |src| < HEADER_SIZE then |src| else HEADER_SIZE;
    var destOffset := HEADER_SIZE;
    if srcOffset == destOffset then Ok(Encoder(src, HEADER_SIZE, src[.. HEADER_SIZE]))
    else Err(HeaderCopyFailed)
  }

  /**
    The byte loop of encode_magic_string, encode_secret_file_extn and
    encode_secret_file_data: one 8-byte chunk per data byte, in order.
   */
  function EncodeBytes(data: seq<byte>, e: Encoder): (r: Result<Encoder>)
    requires InStep(e)
    ensures r.Ok? <==> e.pos + 8 * |data| <= |e.src|
    ensures r.Ok? ==> InStep(r.value) && Embedded(e, r.value, BytesBits(data))
    ensures r.Err? ==> r.error == TruncatedCarrier
    decreases |data|
  {
    if |data| == 0 then
      EmbeddedNothing(e);
      Ok(e)
    else
      var e1 :- EncodeByteStep(data[0], e);
      var r := EncodeBytes(data[1..], e1);
      if r.Ok? then
        EmbeddedThen(e, e1, r.value, ByteBits(data[0]), BytesBits(data[1..]));
        BytesBitsAppend([data[0]], data[1..]);
        assert [data[0]] + data[1..] == data;
        assert BytesBits([data[0]]) == ByteBits(data[0]) by {
          BytesBitsChunk([data[0]], 0);
        }
        r
      else
        r
  }

  /**
    encode_secret_extn_file_size: the extension is the secret file name from
    its first dot on, and its length goes into the next 32 carrier bytes.
    The `size` argument (do_encoding passes `MAX_FILE_SUFFIX`) is not used.
   */
  function EncodeSecretExtnFileSize(size: int32, secretName: seq<byte>, e: Encoder): (r: Result<(seq<byte>, Encoder)>)
    requires InStep(e)
    requires DOT in secretName && |SecretExtension(secretName)| <= MAX_FILE_SUFFIX
    ensures r.Ok? <==> e.pos + INT_CHUNK <= |e.src|
    ensures r.Ok? ==> r.value.0 == SecretExtension(secretName)
    ensures r.Ok? ==> InStep(r.value.1) && Embedded(e, r.value.1, IntBits(|r.value.0|))
    ensures r.Err? ==> r.error == TruncatedCarrier
  {
    var ext := SecretExtension(secretName);
    var e1 :- EncodeIntStep(|ext|, e);
    Ok((ext, e1))
  }

  /** The length field does not depend on the `size` argument. */
  lemma ExtnSizeArgumentIgnored(size1: int32, size2: int32, secretName: seq<byte>, e: Encoder)
    requires InStep(e)
    requires DOT in secretName && |SecretExtension(secretName)| <= MAX_FILE_SUFFIX
    ensures EncodeSecretExtnFileSize(size1, secretName, e) == EncodeSecretExtnFileSize(size2, secretName, e)
  {
  }

  /** copy_remaining_img_data: every carrier byte not yet read, verbatim. */
  function CopyRemainingImgData(e: Encoder): (r: Encoder)
    requires InStep(e)
    ensures InStep(r) && r.src == e.src && r.pos == |e.src|
    ensures |r.out| == |e.src|
    ensures r.out[.. e.pos] == e.out
    ensures r.out[e.pos ..] == e.src[e.pos ..]
  {
    Encoder(e.src, |e.src|, e.out + e.src[e.pos ..])
  }

  // ---------------------------------------------------------------------------
  // The pipeline
  // ---------------------------------------------------------------------------

  /**
    The shape of a stego image: the carrier's header, then the carrier's next
    `|bits|` bytes with `bits` in their low bits and their upper bits kept,
    then the rest of the carrier unchanged.
   */
  predicate StegoImage(carrier: seq<byte>, stego: seq<byte>, bits: seq<byte>) {
    && |stego| == |carrier|
    && HEADER_SIZE + |bits| <= |carrier|
    && stego[.. HEADER_SIZE] == carrier[.. HEADER_SIZE]
    && Carries(stego, HEADER_SIZE, bits)
    && (forall k :: HEADER_SIZE <= k < HEADER_SIZE + |bits| ==> Upper(stego[k]) == Upper(carrier[k]))
    && stego[HEADER_SIZE + |bits| ..] == carrier[HEADER_SIZE + |bits| ..]
  }

  /**
    do_encoding, after the files are open: capacity check, header copy,
    marker, extension length, extension, payload length, payload, tail.  The
    first stage that fails ends the pipeline.  `payload` is the secret
    file's contents and `|payload|` its size, which get_file_size returns as
    a 32-bit `uint`.  A size of 2^31 or more never reaches the `int` size
    field: check_capacity already turns it away.
   */
  function DoEncoding(magic: seq<byte>, carrier: seq<byte>, width: uint32, height: uint32,
                      secretName: seq<byte>, payload: seq<byte>): (r: Result<seq<byte>>)
    requires DOT in secretName && |SecretExtension(secretName)| <= MAX_FILE_SUFFIX
    requires |payload| < UINT_MODULUS
    ensures !CheckCapacity(width, height, |magic|, |payload|) ==> r == Err(InsufficientCapacity)
    ensures |payload| >= INT_LIMIT ==> r == Err(InsufficientCapacity)
    ensures CheckCapacity(width, height, |magic|, |payload|) && |carrier| < HEADER_SIZE ==>
      r == Err(HeaderCopyFailed)
    ensures r.Ok? <==>
      && CheckCapacity(width, height, |magic|, |payload|)
      && HEADER_SIZE + FrameCost(|magic|, |SecretExtension(secretName)|, |payload|) <= |carrier|
    ensures r.Ok? ==> |payload| < INT_LIMIT && StegoImage(carrier, r.value, FrameBits(magic, SecretExtension(secretName), payload))
  {
    if !CheckCapacity(width, height, |magic|, |payload|) then Err(InsufficientCapacity)
    else
      var e0 :- CopyBmpHeader(carrier);
      var e1 :- EncodeBytes(magic, e0);
      var (ext, e2) :- EncodeSecretExtnFileSize(MAX_FILE_SUFFIX, secretName, e1);
      var e3 :- EncodeBytes(ext, e2);
      var e4 :- EncodeIntStep(|payload|, e3);
      var e5 :- EncodeBytes(payload, e4);
      var e6 := CopyRemainingImgData(e5);
      EncodingLayout(magic, ext, payload, e0, e1, e2, e3, e4, e5, e6);
      Ok(e6.out)
  }

  /** The stage-by-stage facts of a successful run add up to a stego image. */
  lemma EncodingLayout(magic: seq<byte>, ext: seq<byte>, payload: seq<byte>,
                       e0: Encoder, e1: Encoder, e2: Encoder, e3: Encoder, e4: Encoder, e5: Encoder, e6: Encoder)
    requires |ext| < INT_LIMIT && |payload| < INT_LIMIT
    requires InStep(e0) && e0.pos == HEADER_SIZE && e0.out == e0.src[.. HEADER_SIZE]
    requires InStep(e1) && Embedded(e0, e1, BytesBits(magic))
    requires InStep(e2) && Embedded(e1, e2, IntBits(|ext|))
    requires InStep(e3) && Embedded(e2, e3, BytesBits(ext))
    requires InStep(e4) && Embedded(e3, e4, IntBits(|payload|))
    requires InStep(e5) && Embedded(e4, e5, BytesBits(payload))
    requires e6 == CopyRemainingImgData(e5)
    ensures StegoImage(e0.src, e6.out, FrameBits(magic, ext, payload))
  {
    var a, b, c, d, f := BytesBits(magic), IntBits(|ext|), BytesBits(ext), IntBits(|payload|), BytesBits(payload);
    EmbeddedThen(e0, e1, e2, a, b);
    EmbeddedThen(e0, e2, e3, a + b, c);
    EmbeddedThen(e0, e3, e4, a + b + c, d);
    EmbeddedThen(e0, e4, e5, a + b + c + d, f);
    var bits := FrameBits(magic, ext, payload);
    assert bits == a + b + c + d + f;
    var carrier, stego := e0.src, e6.out;
    assert stego[.. e5.pos] == e5.out;
    forall k | 0 <= k < |bits|
      ensures LsbAt(stego, HEADER_SIZE, k) == bits[k]
    {
      assert stego[HEADER_SIZE + k] == e5.out[HEADER_SIZE + k];
      assert LsbAt(e5.out, HEADER_SIZE, k) == bits[k];
    }
    assert stego[.. HEADER_SIZE] == e5.out[.. HEADER_SIZE];
  }
}
