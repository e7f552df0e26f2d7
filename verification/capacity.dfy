/**
  The capacity planner: a pure arithmetic decision taken before the encoder
  writes anything.  The bitmap's width and height are inputs (the C code reads
  them from header offsets 18 and 22).
 */
module Capacity {
  import opened Types
  import opened Frame

  /**
    get_image_size_for_bmp: `width * height * 3` evaluated in 32-bit unsigned
    arithmetic, so the product wraps modulo 2^32.
   */
  function ImageCapacity(width: uint32, height: uint32): (c: uint32)
    ensures width * height * 3 < UINT_MODULUS ==> c == width * height * 3
    ensures c <= width * height * 3
  {
    (width * height * 3) % UINT_MODULUS
  }

  /**
    The bytes check_capacity reserves, in carrier bytes: 8 per byte of the
    marker, of `MAX_FILE_SUFFIX` extension characters, of the extension buffer
    and of a `long`, and of the secret file, plus the 54 header bytes.
   */
  function Reserved(magicLen: nat, secretSize: nat): nat {
    (magicLen + MAX_FILE_SUFFIX + EXTN_BUFFER_SIZE + SIZEOF_LONG + secretSize) * 8 + HEADER_SIZE
  }

  /**
    check_capacity: the image is large enough when its capacity strictly
    exceeds what is reserved.  When it says yes, a frame with any extension
    of at most `MAX_FILE_SUFFIX` bytes fits in the capacity after the header.
    As the capacity is a 32-bit `uint` and every secret byte reserves 8
    carrier bytes, a secret of 2^29 bytes or more never passes.
   */
  function CheckCapacity(width: uint32, height: uint32, magicLen: nat, secretSize: nat): (ok: bool)
    ensures ok ==> 8 * secretSize < UINT_MODULUS
    ensures ok ==> forall extLen: nat :: extLen <= MAX_FILE_SUFFIX ==>
      HEADER_SIZE + FrameCost(magicLen, extLen, secretSize) < ImageCapacity(width, height)
  {
    ImageCapacity(width, height) > Reserved(magicLen, secretSize)
  }

  /** The check is tight: one carrier byte less than needed fails, exactly enough passes. */
  lemma CheckCapacityBoundary(width: uint32, height: uint32, magicLen: nat, secretSize: nat)
    ensures ImageCapacity(width, height) == Reserved(magicLen, secretSize) ==> !CheckCapacity(width, height, magicLen, secretSize)
    ensures ImageCapacity(width, height) == Reserved(magicLen, secretSize) + 1 ==> CheckCapacity(width, height, magicLen, secretSize)
  {
  }

  /** A smaller secret never fails where a larger one passed. */
  lemma CheckCapacityMonotone(width: uint32, height: uint32, magicLen: nat, small: nat, large: nat)
    requires small <= large
    requires CheckCapacity(width, height, magicLen, large)
    ensures CheckCapacity(width, height, magicLen, small)
  {
  }
}
