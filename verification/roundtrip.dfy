/**
  How the two halves fit together: the decoder recovers every frame the
  encoder embeds, and a well-formed carrier always has room for it.
 */
module RoundTrip {
  import opened Types
  import opened BitCodec
  import opened Frame
  import opened Names
  import opened Capacity
  import opened Encode
  import opened Decode

  /** A stream that carries the bits of `d` at `at` shows the reader exactly `d`. */
  lemma SeenCarried(s: seq<byte>, at: nat, d: seq<byte>)
    requires Carries(s, at, BytesBits(d))
    ensures Seen(s, at, |d|) == d
  {
    SeenAll(s, at, |d|);
    DecodedBytesIffCarries(s, at, d);
  }

  /** A stream that carries the bits of `v` at `at` gives the reader `v`. */
  lemma IntCarried(s: seq<byte>, at: nat, next: nat, v: int32)
    requires Carries(s, at, IntBits(v)) && next == at + 32
    ensures DecodeIntStep(Reader(s, at)) == Got(v, Reader(s, next))
  {
    DecodeIntStepCarries(Reader(s, at), v);
  }

  /** A stream that carries the marker's bits after the header passes the marker check. */
  lemma MagicCarried(s: seq<byte>, magic: seq<byte>, next: nat)
    requires Carries(s, HEADER_SIZE, BytesBits(magic)) && next == HEADER_SIZE + 8 * |magic|
    ensures DecodeMagicString(magic, SkipBmpHeader(s)) == Ok(Reader(s, next))
  {
    SeenCarried(s, HEADER_SIZE, magic);
    DecodeMagicStringSeen(magic, s, HEADER_SIZE);
  }

  /** A NUL-free extension carried at `at` is read back whole, with nothing after it consumed. */
  lemma ExtensionCarried(s: seq<byte>, at: nat, ext: seq<byte>)
    requires NoNul(ext) && Carries(s, at, BytesBits(ext))
    ensures ReadExtension(|ext|, Reader(s, at)) == Got(ext, Reader(s, at + 8 * |ext|))
  {
    SeenCarried(s, at, ext);
    ReadExtensionSeen(|ext|, s, at);
    assert NUL !in Seen(s, at, |ext|);
  }

  /** A payload carried at `at` is read back whole. */
  lemma PayloadCarried(s: seq<byte>, at: nat, payload: seq<byte>)
    requires |payload| < INT_LIMIT && Carries(s, at, BytesBits(payload))
    ensures DecodeSecretFileData(|payload|, Reader(s, at)) == Got(payload, Reader(s, at + 8 * |payload|))
  {
    ReadBytesDecoded(|payload|, Reader(s, at));
    DecodedBytesIffCarries(s, at, payload);
  }

  /** The fields of a carried frame, each at its offset: the marker, then `p1` to `p4`. */
  lemma FrameFields(stego: seq<byte>, magic: seq<byte>, ext: seq<byte>, payload: seq<byte>, p1: nat, p2: nat, p3: nat, p4: nat)
    requires |ext| < INT_LIMIT && |payload| < INT_LIMIT
    requires Carries(stego, HEADER_SIZE, FrameBits(magic, ext, payload))
    requires p1 == HEADER_SIZE + 8 * |magic| && p2 == p1 + 32 && p3 == p2 + 8 * |ext| && p4 == p3 + 32
    ensures Carries(stego, HEADER_SIZE, BytesBits(magic))
    ensures Carries(stego, p1, IntBits(|ext|)) && Carries(stego, p2, BytesBits(ext))
    ensures Carries(stego, p3, IntBits(|payload|)) && Carries(stego, p4, BytesBits(payload))
  {
    CarriesFrame(stego, HEADER_SIZE, magic, ext, payload);
  }

  /**
    Any stego image whose low bits after the header spell a frame decodes to
    that frame's extension and payload, provided the extension holds no NUL
    (the decoder stops the extension at the first NUL).
   */
  lemma DecodeFrame(magic: seq<byte>, ext: seq<byte>, payload: seq<byte>, stego: seq<byte>, outputName: seq<byte>)
    requires NoNul(ext) && |ext| < INT_LIMIT && |payload| < INT_LIMIT
    requires Carries(stego, HEADER_SIZE, FrameBits(magic, ext, payload))
    ensures DoDecoding(magic, stego, outputName) == Ok(Decoded(OutputFileName(outputName, ext), ext, payload))
  {
    var p1 := HEADER_SIZE + 8 * |magic|;
    var p2 := p1 + 32;
    var p3 := p2 + 8 * |ext|;
    var p4 := p3 + 32;
    FrameFields(stego, magic, ext, payload, p1, p2, p3, p4);
    MagicCarried(stego, magic, p1);
    FieldsCarried(stego, p1, p2, p3, p4, ext, payload, outputName);
    AfterMagic(magic, stego, outputName, p1);
  }

  /**
    do_decoding succeeds on every image that carries the marker after the
    header and whose fields after it fit, and it gives exactly those fields.
   */
  lemma DoDecodingComplete(magic: seq<byte>, stego: seq<byte>, outputName: seq<byte>, d: Decoded)
    requires Carries(stego, HEADER_SIZE, BytesBits(magic))
    requires FieldsAt(stego, HEADER_SIZE + 8 * |magic|, d)
    ensures DoDecoding(magic, stego, outputName) == Ok(Decoded(OutputFileName(outputName, d.extension), d.extension, d.payload))
  {
    var p1 := HEADER_SIZE + 8 * |magic|;
    MagicCarried(stego, magic, p1);
    AfterMagic(magic, stego, outputName, p1);
    FieldsComplete(Reader(stego, p1), outputName, d);
  }

  /** Once the marker check passes, do_decoding gives what the field stages from the marker's end give. */
  lemma AfterMagic(magic: seq<byte>, stego: seq<byte>, outputName: seq<byte>, p1: nat)
    requires DecodeMagicString(magic, SkipBmpHeader(stego)) == Ok(Reader(stego, p1))
    ensures DoDecoding(magic, stego, outputName) == DecodeFields(Reader(stego, p1), outputName)
  {
  }

  /** The fields after the marker, at `p1` to `p4`, decode to the extension and payload they carry. */
  lemma FieldsCarried(stego: seq<byte>, p1: nat, p2: nat, p3: nat, p4: nat, ext: seq<byte>, payload: seq<byte>, outputName: seq<byte>)
    requires NoNul(ext) && |ext| < INT_LIMIT && |payload| < INT_LIMIT
    requires p2 == p1 + 32 && p3 == p2 + 8 * |ext| && p4 == p3 + 32
    requires Carries(stego, p1, IntBits(|ext|)) && Carries(stego, p2, BytesBits(ext))
    requires Carries(stego, p3, IntBits(|payload|)) && Carries(stego, p4, BytesBits(payload))
    ensures DecodeFields(Reader(stego, p1), outputName) == Ok(Decoded(OutputFileName(outputName, ext), ext, payload))
  {
    IntCarried(stego, p1, p2, |ext|);
    NamedFieldsCarried(stego, p2, p3, p4, ext, payload, outputName);
  }

  /** From the extension on: the extension, the output name and the payload come back. */
  lemma NamedFieldsCarried(stego: seq<byte>, p2: nat, p3: nat, p4: nat, ext: seq<byte>, payload: seq<byte>, outputName: seq<byte>)
    requires NoNul(ext) && |ext| < INT_LIMIT && |payload| < INT_LIMIT
    requires p3 == p2 + 8 * |ext| && p4 == p3 + 32
    requires Carries(stego, p2, BytesBits(ext))
    requires Carries(stego, p3, IntBits(|payload|)) && Carries(stego, p4, BytesBits(payload))
    ensures DecodeNamedFields(|ext|, outputName, Reader(stego, p2)) == Ok(Decoded(OutputFileName(outputName, ext), ext, payload))
  {
    ExtensionStage(stego, p2, p3, ext, outputName);
    PayloadFieldsCarried(stego, p3, p4, Named(ext, OutputFileName(outputName, ext)), payload);
  }

  /** From the payload length on: the payload comes back. */
  lemma PayloadFieldsCarried(stego: seq<byte>, p3: nat, p4: nat, named: Named, payload: seq<byte>)
    requires |payload| < INT_LIMIT && p4 == p3 + 32
    requires Carries(stego, p3, IntBits(|payload|)) && Carries(stego, p4, BytesBits(payload))
    ensures DecodePayloadFields(named, Reader(stego, p3)) == Ok(Decoded(named.fileName, named.extension, payload))
  {
    IntCarried(stego, p3, p4, |payload|);
    PayloadCarried(stego, p4, payload);
  }

  /** decode_secret_file_extn on a carried NUL-free extension of the declared length. */
  lemma ExtensionStage(stego: seq<byte>, at: nat, next: nat, ext: seq<byte>, outputName: seq<byte>)
    requires NoNul(ext) && |ext| < INT_LIMIT && Carries(stego, at, BytesBits(ext))
    requires next == at + 8 * |ext|
    ensures DecodeSecretFileExtn(|ext|, outputName, Reader(stego, at))
      == Got(Named(ext, OutputFileName(outputName, ext)), Reader(stego, next))
  {
    ExtensionCarried(stego, at, ext);
  }

  /** The extension of a name without NUL holds no NUL. */
  lemma SecretExtensionNoNul(secretName: seq<byte>)
    requires DOT in secretName && NoNul(secretName)
    ensures NoNul(SecretExtension(secretName))
  {
    var j := IndexOf(secretName, DOT);
    assert SecretExtension(secretName) == secretName[j ..];
    forall i | 0 <= i < |secretName| - j
      ensures secretName[j ..][i] != NUL
    {
      assert secretName[j ..][i] == secretName[j + i];
    }
  }

  /**
    Whatever the encoder writes, the decoder reads back: the extension of the
    secret file name, the output name built from it, and the payload.
   */
  lemma EncodeDecodeRoundTrip(magic: seq<byte>, carrier: seq<byte>, width: uint32, height: uint32,
                              secretName: seq<byte>, payload: seq<byte>, outputName: seq<byte>)
    requires DOT in secretName && NoNul(secretName) && |SecretExtension(secretName)| <= MAX_FILE_SUFFIX
    requires |payload| < UINT_MODULUS
    requires DoEncoding(magic, carrier, width, height, secretName, payload).Ok?
    ensures var ext := SecretExtension(secretName);
      DoDecoding(magic, DoEncoding(magic, carrier, width, height, secretName, payload).value, outputName)
        == Ok(Decoded(OutputFileName(outputName, ext), ext, payload))
  {
    var ext := SecretExtension(secretName);
    SecretExtensionNoNul(secretName);
    DecodeFrame(magic, ext, payload, DoEncoding(magic, carrier, width, height, secretName, payload).value, outputName);
  }

  /**
    A carrier whose pixel data is at least as long as its header promises
    (`width * height * 3` bytes after the 54 header bytes) never runs out
    while encoding: once check_capacity says yes, encoding succeeds.
   */
  lemma CapacitySuffices(magic: seq<byte>, carrier: seq<byte>, width: uint32, height: uint32,
                         secretName: seq<byte>, payload: seq<byte>)
    requires DOT in secretName && |SecretExtension(secretName)| <= MAX_FILE_SUFFIX
    requires |payload| < UINT_MODULUS
    requires HEADER_SIZE + ImageCapacity(width, height) <= |carrier|
    ensures CheckCapacity(width, height, |magic|, |payload|) <==>
      DoEncoding(magic, carrier, width, height, secretName, payload).Ok?
  {
  }
}
