/**
 * The end of check_image_metadata in main.c: after the image has been
 * re-encoded at its detected quality, the original file and the re-encoded
 * file are read back byte by byte and must agree up to and including the
 * end of file. Both files are given here as their byte contents.
 */
module Metadata {

  /** A byte as stdio returns it: an unsigned char. */
  newtype byte = b: int | 0 <= b < 256

  /** The value fgetc returns at end of file. */
  const Eof: int := -1

  /** fgetc on a stream positioned at `pos`: the byte there, or Eof past the last byte. */
  function Fgetc(contents: seq<byte>, pos: nat): int {
    if pos < |contents| then contents[pos] as int else Eof
  }

  /**
   * The do-while loop of the comparison: read one byte from each file until
   * either file ends or the two bytes differ; the files match when both ended
   * together.
   */
  method CompareFiles(input: seq<byte>, output: seq<byte>) returns (matchingMetadata: bool)
    ensures matchingMetadata <==> input == output
  {
    var pos: nat := 0;
    var c1, c2 := Fgetc(input, pos), Fgetc(output, pos);
    while c1 != Eof && c2 != Eof && c1 == c2
      invariant pos <= |input| && pos <= |output|
      invariant c1 == Fgetc(input, pos) && c2 == Fgetc(output, pos)
      invariant input[..pos] == output[..pos]
      decreases |input| - pos
    {
      assert input[..pos + 1] == input[..pos] + [input[pos]];
      assert output[..pos + 1] == output[..pos] + [output[pos]];
      pos := pos + 1;
      c1, c2 := Fgetc(input, pos), Fgetc(output, pos);
    }
    matchingMetadata := c1 == Eof && c2 == Eof;
    if matchingMetadata {
      assert input == input[..pos] && output == output[..pos];
    } else if pos < |input| && pos < |output| {
      assert input[pos] != output[pos];
    } else {
      assert |input| != |output|;
    }
  }
}
