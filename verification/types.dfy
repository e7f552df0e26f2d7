/**
  Shared vocabulary of the steganography model: bytes, the fixed constants of
  the container format, C integer ranges, and the error-carrying result type
  that replaces the C code's `e_success` / `e_failure` status chain.
 */
module Types {

  /** A carrier, payload or file-name byte (a C `char`, as a bit pattern). */
  type byte = bv8

  /** Size of the bitmap header that is copied verbatim and skipped on decode. */
  const HEADER_SIZE: nat := 54

  /** `MAX_FILE_SUFFIX` of encode.h: the longest extension the encoder stores. */
  const MAX_FILE_SUFFIX: nat := 4

  /** `sizeof(encInfo->extn_secret_file)`: the extension buffer is `char[MAX_FILE_SUFFIX]`. */
  const EXTN_BUFFER_SIZE: nat := MAX_FILE_SUFFIX

  /** `sizeof(encInfo->size_secret_file)`: a `long` on an LP64 platform. */
  const SIZEOF_LONG: nat := 8

  /** Carrier bytes used per embedded byte (`MAX_IMAGE_BUF_SIZE`). */
  const BYTE_CHUNK: nat := 8

  /** Carrier bytes used per embedded 32-bit `int`. */
  const INT_CHUNK: nat := 32

  const NUL: byte := 0
  const DOT: byte := 0x2E

  const UINT_MODULUS: nat := 0x1_0000_0000
  const INT_LIMIT: nat := 0x8000_0000

  /** A C `uint` (32 bits, unsigned). */
  type uint32 = x: nat | x < UINT_MODULUS

  /** A C `int` (32 bits, two's complement). */
  type int32 = x: int | -(INT_LIMIT as int) <= x < INT_LIMIT as int

  /** A C string's contents: no byte of it is the terminator. */
  predicate NoNul(s: seq<byte>) {
    forall i :: 0 <= i < |s| ==> s[i] != NUL
  }

  /** Index of the first `b` in `s`, or `|s|` when there is none. */
  function IndexOf(s: seq<byte>, b: byte): (i: nat)
    ensures i <= |s|
    ensures i < |s| ==> s[i] == b
    ensures forall j :: 0 <= j < i ==> s[j] != b
  {
    if |s| == 0 || s[0] == b then 0 else 1 + IndexOf(s[1..], b)
  }

  lemma IndexOfCons(x: byte, s: seq<byte>, b: byte)
    requires x != b
    ensures IndexOf([x] + s, b) == 1 + IndexOf(s, b)
  {
    assert ([x] + s)[1..] == s;
  }

  /** Why a pipeline stage gave up. */
  datatype Error =
    | InsufficientCapacity   // check_capacity said no
    | HeaderCopyFailed       // copy_bmp_header's position check failed
    | TruncatedCarrier       // a read ran past the end of the carrier
    | NotAContainer          // the marker did not match

  /** Outcome of a fallible stage; usable with `:-`. */
  datatype Result<+T> = Ok(value: T) | Err(error: Error) {

    predicate IsFailure() {
      Err?
    }

    function PropagateFailure<U>(): Result<U>
      requires Err?
    {
      Err(error)
    }

    function Extract(): T
      requires Ok?
    {
      value
    }
  }
}
