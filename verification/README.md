# LSB image steganography, modelled in Dafny

The program hides a secret file inside a 24-bit BMP image. It writes one bit
into the least significant bit of each carrier byte after the 54-byte bitmap
header. The hidden frame is

    magic | extension length : int | extension | payload length : int | payload

Each frame byte takes 8 carrier bytes and each `int` takes 32, most
significant bit first.

The encoder does the following, and the first stage that fails ends the run:

1. Check capacity.
2. Copy the header.
3. Embed the frame field by field.
4. Copy the rest of the carrier verbatim.

The decoder does the following:

1. Skip the header.
2. Check the marker.
3. Read the extension length and the extension. The extension stops early at
   a NUL.
4. Name the output file: the base name up to its first dot, then the
   extension.
5. Read the payload length and exactly that many payload bytes.

The model works on immutable byte sequences. Each is a `seq<bv8>`:

- the carrier,
- the stego image,
- the secret payload,
- the file names.

Every stage is a pure function. An encoder stage maps a stream position to
a `Result`, and the C code's `e_success` / `e_failure` chain becomes
`Ok`/`Err` with `:-`. A decoder stage maps a `Reader` (the stego image and a
read position) to a `Read`: either `Got` (what it read and where the next read
starts) or `Stopped` (why it failed). The decoder's loops have light
contracts. What they return is stated by separate lemmas against the
reference view of the stream (`Seen`, `DecodedBytes`, `Carries`).

Modules (one file each):

- `Types` (`types.dfy`): bytes, format constants, C integer ranges, `Result`.
- `BitCodec` (`bitcodec.dfy`):
  - `encode_byte_to_lsb`, `decode_byte_from_lsb`, `encode_int_to_lsb` and `decode_int_from_lsb`.
  - The 32-bit word is modelled arithmetically: `(w >> i) & 1` becomes `ShiftRight(w, i) % 2`, and two's complement goes through `ToWord`/`FromWord`.
- `CodecLoops` (`loops.dfy`): the same bit loops written as the C code runs them, with a counter from the top bit down. Each is proved equal to the functional definition.
- `Frame` (`frame.dfy`): reference definitions.
  - The frame's bit string (`FrameBits`).
  - "the low bits of `s` from `at` spell `bits`" (`Carries`).
  - The decoder's view of a stream (`Seen`, `DecodedBytes`).
- `Names` (`names.dfy`): the extension taken from the secret file name, and the output file name.
- `Capacity` (`capacity.dfy`): `get_image_size_for_bmp` arithmetic (32-bit wrap included) and `check_capacity`.
- `Encode` (`encode.dfy`): the encoder stages and `do_encoding`.
- `Decode` (`decode.dfy`): the decoder stages and `do_decoding`.
- `RoundTrip` (`roundtrip.dfy`):
  - decoding recovers any carried frame;
  - decoding the encoder's output recovers the extension and the payload;
  - capacity suffices for a well-formed carrier.
- `Locality` (`locality.dfy`):
  - the encoder changes only low bits, and only inside the frame;
  - the decoder reads only low bits after the header.

`MAGIC_STRING` is defined in `common.h`, which is not part of this model.
The marker is therefore a parameter `magic` of both pipelines. It stands for
a C string's characters, so it holds no NUL (`NoNul(magic)`). For such a marker,
looping to `strlen(magic)` (encode.c:217, decode.c:112) is looping to `|magic|`.

## Model

| member | source | states |
|---|---|---|
| BitCodec.WithLsb | encode.c:203-204 | Clearing the low bit and or-ing in `bit` leaves the low bit equal to `bit` and the upper seven bits unchanged. |
| BitCodec.EncodeByte | encode.c:195-208 | The result has the buffer's length. For k < 8 the low bit of byte k is bit 7-k of `data`, most significant first, and its upper 7 bits are kept. Bytes from index 8 on are untouched. It never fails. |
| BitCodec.EncodeByteBitOrderExample | encode.c:200-205 | 0xA5 (0b10100101) embedded into eight zero bytes gives low bits [1,0,1,0,0,1,0,1]. |
| BitCodec.DecodeByte | decode.c:74-87 | Bit i of the decoded byte is the low bit of buf[7-i], for every i < 8. |
| BitCodec.DecodeByteOfBits | decode.c:79-85 | A buffer whose first 8 low bits are the bits of v, most significant first, decodes to v. |
| BitCodec.DecodeEncodeByte | decode.c:79-85 | decode_byte_from_lsb inverts encode_byte_to_lsb for every byte and every buffer. |
| BitCodec.DecodeByteReadsOnlyLsbs | decode.c:81 | Two buffers with equal low bits in their first 8 bytes decode to the same byte, whatever their upper bits. |
| BitCodec.EncodeInt | encode.c:237-250 | For k < 32 the low bit of byte k is bit 31-k of the value's 32-bit two's complement pattern, and its upper 7 bits are kept. Bytes from 32 on are untouched. |
| BitCodec.DecodeInt | decode.c:90-103 | Bit i of the decoded int's 32-bit pattern is the low bit of buf[31-i], for every i < 32. |
| BitCodec.DecodeIntOfBits | decode.c:95-101 | A buffer whose first 32 low bits are the bits of v decodes to v, negative values included. |
| BitCodec.DecodeEncodeInt | decode.c:95-101 | decode_int_from_lsb inverts encode_int_to_lsb for every 32-bit int and every buffer. |
| BitCodec.DecodeIntReadsOnlyLsbs | decode.c:97 | Two buffers with equal low bits in their first 32 bytes decode to the same int. |
| CodecLoops.EncodeByteToLsb | encode.c:195-208 | The descending loop sets every low bit to the matching data bit and keeps every upper part. Its output equals the functional EncodeByte. |
| CodecLoops.EncodeIntToLsb | encode.c:237-250 | The 32-step loop sets every low bit to the matching bit of the int's pattern and keeps every upper part. Its output equals EncodeInt. |
| CodecLoops.DecodeByteFromLsb | decode.c:74-87 | The loop that ors `(buf[7-i] & 1) << i` into a zeroed byte yields bit i = low bit of buf[7-i]. Its result equals DecodeByte. |
| Frame.BytesBitsChunk | encode.c:217-226 | Byte j of a field occupies frame bits 8j to 8j+7, most significant bit first. |
| Frame.FrameBits | encode.c:385-401 | The frame has length 8·(magic + extension + payload) + 64: marker, extension length, extension, payload length, payload, in that order. |
| Frame.CarriesFrame | encode.c:385-401 | A stream carries the frame exactly when it carries each field at its offset. The marker comes first, each length field is 32 carrier bytes wide and each byte field is 8 bytes per byte. |
| Frame.Seen | decode.c:162-166 | The reader sees at most n bytes. Fewer than n only when the next 8-byte chunk does not fit in the stream, and every byte seen lies inside the stream. |
| Frame.SeenAll | decode.c:232-236 | With n whole chunks left, the reader sees exactly the n bytes those chunks decode to. |
| Frame.DecodedBytesIffCarries | decode.c:115-118 | n consecutive chunks decode to d if and only if their low bits carry the bits of d. |
| Frame.SeenReadsOnlyLsbs | decode.c:81 | What the reader sees depends only on the low bits from its position on. |
| Frame.CarriesReadsOnlyLsbs | decode.c:97 | Whether a stream carries a bit string depends only on its low bits. |
| Names.SecretExtension | encode.c:258 | The extension is the part of the secret file name from its first dot on. It starts with the dot, the name is the dot-free base plus it, and no dot precedes it. |
| Names.OutputFileName | decode.c:181-198 | The output name ends with the decoded extension. What precedes it is a prefix of the given name with no dot, stopping exactly at the name's first dot or at its end. |
| Names.OutputFileNameWithoutDot | decode.c:182-194 | A given name without a dot is kept whole before the extension. |
| Capacity.ImageCapacity | encode.c:15-31 | width·height·3 in 32-bit unsigned arithmetic. It is exact when the product fits and never exceeds it. |
| Capacity.CheckCapacity | encode.c:180-192 | When the check passes, 54 + the frame's carrier cost is below the image capacity for every extension of at most MAX_FILE_SUFFIX bytes. Because the capacity is a 32-bit `uint`, a pass also means the secret is under 2^29 bytes. |
| Capacity.CheckCapacityBoundary | encode.c:186 | The comparison is strict: a capacity equal to the reserve fails, and one byte more passes. The reserve is (marker + 4 + 4 + 8 + size)·8 + 54. |
| Capacity.CheckCapacityMonotone | encode.c:186 | A smaller secret passes wherever a larger one passed. |
| Encode.EncodeByteStep | encode.c:220-229 | Succeeds iff 8 carrier bytes remain. It then embeds the byte's 8 bits in exactly those bytes, keeps their upper bits and keeps everything written before. |
| Encode.EncodeIntStep | encode.c:306-313 | Succeeds iff 32 carrier bytes remain. It then embeds the int's 32 bits in exactly those bytes, with upper bits kept. |
| Encode.CopyBmpHeader | encode.c:148-169 | Succeeds iff the carrier has at least 54 bytes, so that both files stand at offset 54. The output then starts with the carrier's first 54 bytes. Otherwise the result is HeaderCopyFailed. |
| Encode.EncodeBytes | encode.c:211-234 | Succeeds iff 8·|data| carrier bytes remain. It then embeds the bits of `data` byte by byte, in order, with upper bits kept and earlier output untouched. Otherwise the result is TruncatedCarrier. |
| Encode.EncodeSecretExtnFileSize | encode.c:253-271 | The extension is the secret name from its first dot on. The next 32 carrier bytes carry its length. |
| Encode.ExtnSizeArgumentIgnored | encode.c:253-263 | The `size` argument has no effect on the result. |
| Encode.CopyRemainingImgData | encode.c:351-362 | Every carrier byte not yet read is appended verbatim. The output then has the carrier's length. |
| Encode.EncodingLayout | encode.c:381-404 | The stages' individual effects compose: the output is a stego image carrying the frame. |
| Encode.DoEncoding | encode.c:365-421 | A failed capacity check gives InsufficientCapacity, whatever the carrier; so does any secret of 2^31 bytes or more. A passed check with a carrier under 54 bytes gives HeaderCopyFailed. It succeeds iff the check passes and the carrier holds header plus frame. On success the output is a stego image: header copied, frame in the low bits, upper bits kept, tail copied, same length. |
| Decode.SkipBmpHeader | decode.c:63-71 | Reading starts at offset 54 of the stego image. |
| Decode.DecodeByteStep | decode.c:115-118 | Succeeds iff 8 bytes remain. It yields the byte those 8 decode to and advances by 8. |
| Decode.DecodeIntStep | decode.c:139-153 | Succeeds iff 32 bytes remain and then advances by 32. Every failure is TruncatedCarrier. |
| Decode.DecodeIntStepCarries | decode.c:139-153 | Where 32 bytes remain, the int read is v exactly when those 32 low bits carry the bits of v. |
| Decode.CarriedIntUnique | decode.c:95-101 | A 32-byte chunk carries the bits of at most one int. |
| Decode.DecodeMagicString | decode.c:106-136 | On success it stands 8·\|marker\| bytes further on. It fails only with NotAContainer or TruncatedCarrier. |
| Decode.DecodeMagicStringSeen | decode.c:106-136 | For every marker and position: the check succeeds iff the bytes seen are exactly the marker. It fails with NotAContainer iff a seen byte differs from the marker's byte at that place. Otherwise it ran out. |
| Decode.MatchCons | decode.c:112-128 | Comparing a byte followed by a rest with the marker is comparing the byte with the marker's first byte, then the rest with the marker's tail. This holds for the whole marker and for its prefixes. |
| Decode.ReadExtension | decode.c:162-179 | Reads at most n bytes and returns no NUL. It advances by 8 per byte returned, plus 8 more when it stopped at a NUL. Every failure is TruncatedCarrier. |
| Decode.ReadExtensionSeen | decode.c:162-179 | For every n and position: with a NUL among the bytes seen, the loop returns the bytes before the first NUL and consumes that NUL's chunk too. With no NUL and all n seen, it returns them. With no NUL and fewer seen, it fails. |
| Decode.ReadExtensionCons | decode.c:166-172 | A non-NUL byte in front of a loop that keeps that promise gives a loop that keeps it. |
| Decode.DecodeSecretFileExtn | decode.c:156-201 | The extension holds no NUL and has at most max(extn_size, 0) bytes. The output name is the base name before its first dot plus the extension. The extension is what the reader sees before the first NUL, within max(extn_size, 0) bytes. The position advances by the bytes read, plus the NUL's chunk when the extension is shorter than allowed. |
| Decode.ReadBytes | decode.c:232-245 | Succeeds iff n is 0 or 8n bytes remain. It then returns n bytes and advances by 8n. Every failure is TruncatedCarrier. |
| Decode.ReadBytesDecoded | decode.c:232-245 | Where 8n bytes remain, the bytes returned are exactly the n decoded chunks, in order. |
| Decode.DecodeSecretFileData | decode.c:219-249 | Reads max(size, 0) payload bytes, succeeding exactly when their chunks fit. The bytes are those the chunks decode to, in order. |
| Decode.DecodeFields | decode.c:273-293 | After the marker, a successful read gives a NUL-free extension and the name built from it. The extension is what the reader sees before the first NUL, within the length read at the start. The payload is max(size, 0) decoded chunks, where size is the length field right after the extension, plus the NUL's chunk if one ended it. Every failure is TruncatedCarrier. Success holds exactly when these fields fit; the other direction is FieldsComplete. |
| Decode.DecodeNamedFields | decode.c:278-293 | From the extension on, a successful read gives a NUL-free extension and the name built from it. The extension is what the reader sees before the first NUL, within max(extn_size, 0) bytes. The payload is max(size, 0) decoded chunks, with size read right after the extension and, when one ended it, the NUL's chunk. Every failure is TruncatedCarrier. Success holds exactly when these fields fit; the other direction is NamedFieldsComplete. |
| Decode.DecodePayloadFields | decode.c:283-293 | From the payload length on, the names handed in are kept. It succeeds exactly when the length field and the max(size, 0) chunks after it fit. The payload is the bytes those chunks decode to. Every failure is TruncatedCarrier. |
| Decode.ExtensionComplete | decode.c:156-171 | Conversely, the extension loop succeeds on any extension the stream holds within the allowance. This holds whether a NUL ends the extension or the allowance does. The condition is that a length field still fits after it. It then stops exactly past the extension and its NUL's chunk. |
| Decode.PayloadComplete | decode.c:283-293 | Conversely, the stages from the payload length on succeed on any payload the stream holds there, and return it. |
| Decode.NamedFieldsComplete | decode.c:278-293 | Conversely, the stages from the extension on succeed whenever the allowed extension and the payload after it fit. They return exactly that extension, that payload and the name built from them. With DecodeNamedFields, success holds exactly when these fields fit. |
| Decode.FieldsComplete | decode.c:273-293 | Conversely, the stages after the marker succeed whenever the fields fit, and return exactly them. With DecodeFields, success holds exactly when the fields fit. |
| Decode.DoDecoding | decode.c:252-302 | If the marker seen after the header differs from the expected one, the result is NotAContainer and nothing is produced. On success: the stream carries the marker, and the file name is the base name plus the extension. The extension has no NUL; it is what the reader sees before the first NUL, within the extension length field that follows the marker. The payload is max(size, 0) chunks decoded from just after the payload length field, which follows the extension and its NUL's chunk, if any. Success holds exactly when these fields fit; the other direction is RoundTrip.DoDecodingComplete. |
| RoundTrip.IntCarried | decode.c:139-153 | A stream carrying the bits of v at a position gives v there and advances by 32. |
| RoundTrip.MagicCarried | decode.c:106-136 | A stream carrying the marker after the header passes the marker check and stands right after it. |
| RoundTrip.ExtensionCarried | decode.c:162-179 | A NUL-free extension carried at a position is read back whole, consuming exactly its chunks. |
| RoundTrip.PayloadCarried | decode.c:219-249 | A carried payload is read back whole. |
| RoundTrip.ExtensionStage | decode.c:156-201 | A carried NUL-free extension of the declared length gives that extension and the output name built from it, and stands right after it. |
| RoundTrip.FieldsCarried | decode.c:273-293 | The fields after the marker, each carried at its offset, decode to their extension, payload and output name. |
| RoundTrip.NamedFieldsCarried | decode.c:278-293 | From the extension on, carried fields decode to their extension, payload and output name. |
| RoundTrip.PayloadFieldsCarried | decode.c:283-293 | From the payload length on, a carried length and payload give that payload. |
| RoundTrip.DecodeFrame | decode.c:252-302 | Any stego image that carries a frame with a NUL-free extension decodes to that extension, that payload and the derived output name. |
| RoundTrip.DoDecodingComplete | decode.c:252-302 | Conversely, every image that carries the marker after the header decodes successfully when its fields fit, NUL-terminated extension or not. It gives exactly those fields and the name built from them. With DoDecoding, decoding succeeds exactly on such images. |
| RoundTrip.EncodeDecodeRoundTrip | encode.c:365-421 | Decoding the encoder's output yields the extension of the secret name, the output name built from it, and the payload, exactly. |
| RoundTrip.CapacitySuffices | encode.c:180-192 | For a carrier holding the pixel bytes its header promises, encoding succeeds iff check_capacity passes. |
| Locality.StegoChangesOnlyLsbs | encode.c:365-421 | The stego image has the carrier's length, and every byte keeps its upper seven bits. A byte with the carrier's low bit is the carrier's byte, and bytes outside the frame are copied unchanged. |
| Locality.IntReadsOnlyLsbs | decode.c:139-153 | A length field's outcome depends only on low bits. |
| Locality.ExtensionReadsOnlyLsbs | decode.c:156-179 | The extension read's outcome depends only on low bits. |
| Locality.DataReadsOnlyLsbs | decode.c:219-249 | The payload read's outcome depends only on low bits. |
| Locality.MagicReadsOnlyLsbs | decode.c:106-136 | The marker check's outcome depends only on low bits. |
| Locality.FieldsReadOnlyLsbs | decode.c:273-293 | The field stages after the marker give the same result on streams whose low bits agree. |
| Locality.DecodingReadsOnlyLsbs | decode.c:252-302 | Two stego images of equal length whose low bits agree after the header decode to the same result. The header and all upper bits are never looked at. |

## Left out

- File I/O (`fopen`, `fseek`, `fread`, `fwrite`, `ftell`, `rewind`, `open_files`, `open_files_for_decoding`, `get_file_size`): files are byte sequences and a file size is a sequence length.
- Short reads: the C stages read 8 or 32 bytes without checking the count and go on with a stale buffer. The model instead stops with `TruncatedCarrier`.
- Encode.CopyBmpHeader: its failure condition is modelled as "the carrier is shorter than 54 bytes". That is the case in which the two `ftell` positions differ.
- Decode.SkipBmpHeader: `fseek` to offset 54 of a regular file does not fail, so the model is total. Reads past the end then fail.
- Command-line handling (`main.c`, `read_and_validate_encode_args`, `read_and_validate_decode_args`) and all `printf`/`perror` output.
  - Argument validation guarantees the secret name contains a dot (encode.c:106). That becomes the precondition `DOT in secretName`.
- The output file's `fopen` in `decode_secret_file_data` (decode.c:225-229): the model returns the name and the payload instead of writing a file.
- The global scratch buffer `str` (decode.c:8): the output name is a fresh sequence.
- The `strcpy` into the 4-byte extension buffer (encode.c:258) overflows for a 4-character extension such as `.txt`. The model keeps the extension as a sequence of at most `MAX_FILE_SUFFIX` bytes (a precondition) and does not model the overflow.
- Encode.DoEncoding: requires a payload shorter than 2^32 bytes, because `get_file_size` returns the size as a 32-bit `uint` (encode.c:172-177), which wraps for larger files. That wrap is not modelled. A payload of 2^31 bytes or more fails check_capacity with InsufficientCapacity, so the `long` to `int` conversion in `encode_secret_file_size` (encode.c:300-309) never truncates.
- Decode.DecodeSecretFileExtn: `extn_output_file[file_extn] = '\0'` (decode.c:179) writes outside the buffer for a large or negative length. The model just returns the bytes read, and a non-positive length reads nothing.
- `decode.h`, `types.h` and `common.h` are not part of this model. The extension buffer size on the decode side and the marker's value are therefore not fixed here. The marker is a parameter.
- Width and height parsing from header offsets 18 and 22 in host byte order (encode.c:19-26): width and height are inputs to `ImageCapacity`.
- BitCodec.DecodeInt: the C loop's `1 << 31` on a signed `int` (decode.c:98) is modelled as producing the two's complement pattern. Undefined behaviour is not modelled, and the 32-bit result is computed as a Horner fold rather than as the descending loop.
- RoundTrip.EncodeDecodeRoundTrip: requires a NUL-free secret file name. A C string cannot contain NUL, so this always holds in the program.
