/**
  Locality: the encoder changes nothing but low bits, and only inside the
  frame; the decoder looks at nothing but low bits, and only after the header.
 */
module Locality {
  import opened Types
  import opened BitCodec
  import opened Frame
  import opened Names
  import opened Capacity
  import opened Encode
  import opened Decode

  /**
    The stego image has the carrier's size, and every byte keeps its upper
    seven bits; bytes outside the frame are copied unchanged.
   */
  lemma StegoChangesOnlyLsbs(magic: seq<byte>, carrier: seq<byte>, width: uint32, height: uint32,
                             secretName: seq<byte>, payload: seq<byte>)
    requires DOT in secretName && |SecretExtension(secretName)| <= MAX_FILE_SUFFIX
    requires |payload| < UINT_MODULUS
    requires CheckCapacity(width, height, |magic|, |payload|)
    requires HEADER_SIZE + FrameCost(|magic|, |SecretExtension(secretName)|, |payload|) <= |carrier|
    ensures var stego := DoEncoding(magic, carrier, width, height, secretName, payload).value;
      && |stego| == |carrier|
      && (forall k :: 0 <= k < |carrier| ==> Upper(stego[k]) == Upper(carrier[k]))
      && (forall k :: 0 <= k < |carrier| && Lsb(stego[k]) == Lsb(carrier[k]) ==> stego[k] == carrier[k])
      && (forall k :: 0 <= k < |carrier| && !(HEADER_SIZE <= k < HEADER_SIZE + FrameCost(|magic|, |SecretExtension(secretName)|, |payload|)) ==>
            stego[k] == carrier[k])
  {
    var stego := DoEncoding(magic, carrier, width, height, secretName, payload).value;
    var bits := FrameBits(magic, SecretExtension(secretName), payload);
    var end := HEADER_SIZE + |bits|;
    forall k | 0 <= k < |carrier|
      ensures Upper(stego[k]) == Upper(carrier[k])
      ensures !(HEADER_SIZE <= k < end) ==> stego[k] == carrier[k]
    {
      if k < HEADER_SIZE {
        assert stego[k] == stego[.. HEADER_SIZE][k];
      } else if k >= end {
        assert stego[k] == stego[end ..][k - end];
      }
    }
    forall k | 0 <= k < |carrier| && Lsb(stego[k]) == Lsb(carrier[k])
      ensures stego[k] == carrier[k]
    {
      UpperAndLsbDetermineByte(stego[k], carrier[k]);
    }
  }

  /** Two streams of one length whose low bits agree from `from` on. */
  predicate LsbsAgree(s: seq<byte>, t: seq<byte>, from: nat) {
    && |s| == |t|
    && forall k :: from <= k < |s| ==> Lsb(s[k]) == Lsb(t[k])
  }

  /** Two outcomes of a stage that agree on everything but the stream itself. */
  predicate SameOutcome<T(==)>(a: Read<T>, b: Read<T>) {
    && a.Got? == b.Got?
    && (a.Got? ==> a.value == b.value && a.next.pos == b.next.pos)
    && (a.Stopped? ==> a.error == b.error)
  }

  lemma MagicReadsOnlyLsbs(magic: seq<byte>, s: seq<byte>, t: seq<byte>, at: nat)
    requires LsbsAgree(s, t, at)
    ensures var a, b := DecodeMagicString(magic, Reader(s, at)), DecodeMagicString(magic, Reader(t, at));
      && a.Ok? == b.Ok?
      && (a.Ok? ==> a.value.pos == b.value.pos)
      && (a.Err? ==> a.error == b.error)
  {
    SeenReadsOnlyLsbs(s, t, at, |magic|);
    DecodeMagicStringSeen(magic, s, at);
    DecodeMagicStringSeen(magic, t, at);
  }

  lemma IntReadsOnlyLsbs(s: seq<byte>, t: seq<byte>, at: nat)
    requires LsbsAgree(s, t, at)
    ensures SameOutcome(DecodeIntStep(Reader(s, at)), DecodeIntStep(Reader(t, at)))
  {
    var a, b := DecodeIntStep(Reader(s, at)), DecodeIntStep(Reader(t, at));
    if a.Got? {
      DecodeIntStepCarries(Reader(s, at), a.value);
      CarriesReadsOnlyLsbs(s, t, at, IntBits(a.value));
      DecodeIntStepCarries(Reader(t, at), a.value);
    }
  }

  lemma ExtensionReadsOnlyLsbs(n: nat, s: seq<byte>, t: seq<byte>, at: nat)
    requires LsbsAgree(s, t, at)
    ensures SameOutcome(ReadExtension(n, Reader(s, at)), ReadExtension(n, Reader(t, at)))
  {
    SeenReadsOnlyLsbs(s, t, at, n);
    ReadExtensionSeen(n, s, at);
    ReadExtensionSeen(n, t, at);
  }

  lemma DataReadsOnlyLsbs(fileSize: int32, s: seq<byte>, t: seq<byte>, at: nat)
    requires LsbsAgree(s, t, at)
    ensures SameOutcome(DecodeSecretFileData(fileSize, Reader(s, at)), DecodeSecretFileData(fileSize, Reader(t, at)))
  {
    var count: nat := if fileSize > 0 then fileSize else 0;
    if at + 8 * count <= |s| {
      ReadBytesDecoded(count, Reader(s, at));
      ReadBytesDecoded(count, Reader(t, at));
      SeenAll(s, at, count);
      SeenAll(t, at, count);
      SeenReadsOnlyLsbs(s, t, at, count);
    }
  }

  lemma FieldsReadOnlyLsbs(s: seq<byte>, t: seq<byte>, at: nat, outputName: seq<byte>)
    requires LsbsAgree(s, t, at)
    ensures DecodeFields(Reader(s, at), outputName) == DecodeFields(Reader(t, at), outputName)
  {
    IntReadsOnlyLsbs(s, t, at);
    var a := DecodeIntStep(Reader(s, at));
    if a.Got? {
      NamedFieldsReadOnlyLsbs(a.value, s, t, a.next.pos, outputName);
    }
  }

  lemma NamedFieldsReadOnlyLsbs(extnSize: int32, s: seq<byte>, t: seq<byte>, at: nat, outputName: seq<byte>)
    requires LsbsAgree(s, t, at)
    ensures DecodeNamedFields(extnSize, outputName, Reader(s, at)) == DecodeNamedFields(extnSize, outputName, Reader(t, at))
  {
    var count: nat := if extnSize > 0 then extnSize else 0;
    ExtensionReadsOnlyLsbs(count, s, t, at);
    var a := DecodeSecretFileExtn(extnSize, outputName, Reader(s, at));
    if a.Got? {
      PayloadFieldsReadOnlyLsbs(a.value, s, t, a.next.pos);
    }
  }

  lemma PayloadFieldsReadOnlyLsbs(named: Named, s: seq<byte>, t: seq<byte>, at: nat)
    requires LsbsAgree(s, t, at)
    ensures DecodePayloadFields(named, Reader(s, at)) == DecodePayloadFields(named, Reader(t, at))
  {
    IntReadsOnlyLsbs(s, t, at);
    var a := DecodeIntStep(Reader(s, at));
    if a.Got? {
      DataReadsOnlyLsbs(a.value, s, t, a.next.pos);
    }
  }

  /**
    The decoder never looks at the header or at any upper bit: two stego
    images that differ only there decode alike.
   */
  lemma DecodingReadsOnlyLsbs(magic: seq<byte>, s: seq<byte>, t: seq<byte>, outputName: seq<byte>)
    requires LsbsAgree(s, t, HEADER_SIZE)
    ensures DoDecoding(magic, s, outputName) == DoDecoding(magic, t, outputName)
  {
    MagicReadsOnlyLsbs(magic, s, t, HEADER_SIZE);
    var a := DecodeMagicString(magic, SkipBmpHeader(s));
    if a.Ok? {
      FieldsReadOnlyLsbs(s, t, a.value.pos, outputName);
    }
  }
}
