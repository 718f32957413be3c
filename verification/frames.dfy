/** Single-channel 8-bit images (OpenCV `CV_8UC1` Mats) as row-major byte sequences.

    The pipeline walks the buffers of its Mats as flat `byte[]` arrays, so a
    frame is its dimensions plus the flat sequence of its pixels.
 */
module Frames {

  /** An unsigned 8-bit value: a pixel or a byte of an image buffer. */
  type Byte = x: int | 0 <= x < 256

  /** Java's signed reading of an unsigned byte, as `byte[]` buffers expose it.
      The unsigned pixel 255 is the only one that reads as -1, which is why the
      source tests for "white" with `== -1`. */
  function SignedByte(b: Byte): (s: int)
    ensures -128 <= s < 128
    ensures (s - b) % 256 == 0
    ensures s == -1 <==> b == 255
  {
    if b < 128 then b else b - 256
  }

  /** The source's test `buffer[i] == -1`. */
  predicate IsSet(b: Byte)
  {
    SignedByte(b) == -1
  }

  /** True of a pair of binary pixels that disagree. */
  predicate Opposite(a: Byte, b: Byte)
  {
    (a == 0 && b == 255) || (a == 255 && b == 0)
  }

  /** Per-pixel absolute difference, as `Core.absdiff` computes it on 8-bit input. */
  function Dist(a: Byte, b: Byte): (d: Byte)
    ensures d == 0 <==> a == b
    ensures d == 255 <==> Opposite(a, b)
    ensures a == 0 || a == 255 ==> (b == 0 || b == 255 ==> d == 0 || d == 255)
  {
    if a <= b then b - a else a - b
  }

  /** A single-channel image with `rows` rows of `cols` pixels, stored row by row. */
  datatype Frame = Frame(rows: nat, cols: nat, data: seq<Byte>)
  {
    predicate Valid()
    {
      |data| == rows * cols
    }
  }

  /** Two well-formed frames of the same dimensions, the precondition of every
      per-pixel operation of OpenCV the pipeline uses. */
  predicate SameShape(a: Frame, b: Frame)
  {
    a.Valid() && b.Valid() && a.rows == b.rows && a.cols == b.cols
  }

  /** Every pixel is black (0) or white (255). */
  predicate IsBinary(f: Frame)
  {
    forall i :: 0 <= i < |f.data| ==> f.data[i] == 0 || f.data[i] == 255
  }

  /** A `rows` x `cols` frame holding `v` everywhere (`Mat.zeros`, `Mat.setTo`). */
  function Filled(rows: nat, cols: nat, v: Byte): (f: Frame)
    ensures f.Valid() && f.rows == rows && f.cols == cols
    ensures forall i :: 0 <= i < |f.data| ==> f.data[i] == v
  {
    Frame(rows, cols, seq(rows * cols, _ => v))
  }
}
