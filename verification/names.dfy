/**
  The two pieces of file-name handling the container depends on: the encoder
  takes the secret file's extension from its first dot on, and the decoder
  builds the output file name from a base name cut at its first dot followed
  by the decoded extension.  Names are the byte contents of C strings.
 */
module Names {
  import opened Types

  /**
    `strstr(secret_fname, ".")` copied into the extension buffer: the secret
    file name from its first dot to its end.  The argument validation that
    runs before encoding guarantees a dot is present.
   */
  function SecretExtension(name: seq<byte>): (ext: seq<byte>)
    requires DOT in name
    ensures 1 <= |ext| <= |name|
    ensures ext[0] == DOT
    ensures name == name[.. |name| - |ext|] + ext
    ensures DOT !in name[.. |name| - |ext|]
  {
    name[IndexOf(name, DOT) ..]
  }

  /**
    The decoder's output name: the characters of `outputName` before its
    first dot (all of them when it has none), then the decoded extension.
   */
  function OutputFileName(outputName: seq<byte>, ext: seq<byte>): (name: seq<byte>)
    ensures |ext| <= |name| <= |outputName| + |ext|
    ensures name[|name| - |ext| ..] == ext
    ensures name[.. |name| - |ext|] <= outputName
    ensures DOT !in name[.. |name| - |ext|]
    ensures |name| - |ext| < |outputName| ==> outputName[|name| - |ext|] == DOT
  {
    outputName[.. IndexOf(outputName, DOT)] + ext
  }

  /** An output name with no dot keeps the whole base name. */
  lemma OutputFileNameWithoutDot(outputName: seq<byte>, ext: seq<byte>)
    requires DOT !in outputName
    ensures OutputFileName(outputName, ext) == outputName + ext
  {
  }
}
