/** Repacking a camera frame from YUV_420_888 planes into one NV21 buffer.

    An NV21 buffer holds the full-resolution luma (Y) plane row after row with
    no padding, followed by the quarter-resolution chroma samples interleaved
    V first, then U. The camera's planes may pad their rows (`rowStride`) and
    space their samples (`pixelStride`); the converter copies the luma row by
    row, skipping the padding, and gathers the chroma pairs one by one.
 */
module MatConverter {
  import opened Outcomes
  import opened Frames

  /** `ImageFormat.YUV_420_888` (0x23). */
  const YUV_420_888: int := 35

  /** One plane of an `android.media.Image`: its buffer and its layout. */
  datatype Plane = Plane(buffer: seq<Byte>, rowStride: nat, pixelStride: nat)

  /** An `android.media.Image`: format, size and planes (Y, U, V for YUV_420_888). */
  datatype Image = Image(format: int, width: nat, height: nat, planes: seq<Plane>)

  /** What the converter relies on about a YUV_420_888 image: three planes, a
      luma plane with pixel stride 1 that holds every row it reads, and chroma
      planes with the same strides that hold every sample it reads. */
  predicate WellFormed(img: Image)
  {
    |img.planes| == 3 &&
    img.planes[0].pixelStride == 1 &&
    (img.height > 0 ==> (img.height - 1) * img.planes[0].rowStride + img.width <= |img.planes[0].buffer|) &&
    img.planes[1].rowStride == img.planes[2].rowStride &&
    img.planes[1].pixelStride == img.planes[2].pixelStride &&
    (img.height / 2 > 0 && img.width / 2 > 0 ==>
       var last := (img.width / 2 - 1) * img.planes[2].pixelStride + (img.height / 2 - 1) * img.planes[2].rowStride;
       last < |img.planes[1].buffer| && last < |img.planes[2].buffer|)
  }

  /** The length of the NV21 buffer: `ySize + uvSize * 2`. */
  function Nv21Length(width: nat, height: nat): (n: nat)
    ensures width * height <= n
  {
    width * height + 2 * (width * height / 4)
  }

  lemma MulMonotone(a: nat, b: nat, k: nat)
    requires a <= b
    ensures a * k <= b * k
  {
  }

  /** The position of luma sample (r, c) in the NV21 buffer. */
  function LumaPos(width: nat, height: nat, r: nat, c: nat): (p: nat)
    requires r < height && c < width
    ensures p < width * height
  {
    MulMonotone(r, height - 1, width);
    r * width + c
  }

  /** The position of luma sample (r, c) in the Y plane. */
  function LumaSource(img: Image, r: nat, c: nat): (p: nat)
    requires WellFormed(img) && r < img.height && c < img.width
    ensures p < |img.planes[0].buffer|
  {
    MulMonotone(r, img.height - 1, img.planes[0].rowStride);
    r * img.planes[0].rowStride + c
  }

  /** The position of the V byte of chroma pair (row, col) in the NV21 buffer;
      the U byte follows it. */
  function ChromaPos(width: nat, height: nat, row: nat, col: nat): (p: nat)
    requires row < height / 2 && col < width / 2
    ensures width * height <= p && p + 1 < Nv21Length(width, height)
  {
    ChromaPairsFit(width, height, row, col);
    width * height + 2 * (row * (width / 2) + col)
  }

  /** Pair (row, col) comes before the last pair, and the pairs fit in the
      `uvSize` the buffer reserves for each chroma plane. */
  lemma ChromaPairsFit(width: nat, height: nat, row: nat, col: nat)
    requires row < height / 2 && col < width / 2
    ensures row * (width / 2) + col < (height / 2) * (width / 2) <= width * height / 4
  {
    var h2, w2 := height / 2, width / 2;
    MulMonotone(row, h2 - 1, w2);
    assert h2 * w2 * 4 == (2 * h2) * (2 * w2);
    MulMonotone(2 * h2, height, 2 * w2);
    assert (2 * w2) * height == height * (2 * w2);
    MulMonotone(2 * w2, width, height);
    assert h2 * w2 * 4 <= width * height;
  }

  /** The position of chroma pair (row, col) in the U and V planes: `vuPos`. */
  function ChromaSource(img: Image, row: nat, col: nat): (p: nat)
    requires WellFormed(img) && row < img.height / 2 && col < img.width / 2
    ensures p < |img.planes[1].buffer| && p < |img.planes[2].buffer|
  {
    MulMonotone(col, img.width / 2 - 1, img.planes[2].pixelStride);
    MulMonotone(row, img.height / 2 - 1, img.planes[2].rowStride);
    col * img.planes[2].pixelStride + row * img.planes[2].rowStride
  }

  /** Where the chroma pairs end; the buffer is full exactly up to here when
      both dimensions are even. */
  function ChromaEnd(width: nat, height: nat): nat
  {
    width * height + 2 * ((height / 2) * (width / 2))
  }

  /** The NV21 layout of `img`: luma row after row, then V/U pairs, then
      (for odd dimensions) the zero bytes the chroma loop never reaches. */
  predicate IsNv21Of(img: Image, nv21: seq<Byte>)
    requires WellFormed(img)
  {
    var w, h := img.width, img.height;
    |nv21| == Nv21Length(w, h) &&
    (forall r, c :: 0 <= r < h && 0 <= c < w ==>
       nv21[LumaPos(w, h, r, c)] == img.planes[0].buffer[LumaSource(img, r, c)]) &&
    (forall row, col :: 0 <= row < h / 2 && 0 <= col < w / 2 ==>
       nv21[ChromaPos(w, h, row, col)] == img.planes[2].buffer[ChromaSource(img, row, col)] &&
       nv21[ChromaPos(w, h, row, col) + 1] == img.planes[1].buffer[ChromaSource(img, row, col)]) &&
    (forall i :: ChromaEnd(w, h) <= i < |nv21| ==> nv21[i] == 0)
  }

  /** The chroma pairs never reach past the buffer, and they fill it exactly
      when width and height are both even. */
  lemma ChromaFitsBuffer(width: nat, height: nat)
    ensures ChromaEnd(width, height) <= Nv21Length(width, height)
    ensures width % 2 == 0 && height % 2 == 0 ==> ChromaEnd(width, height) == Nv21Length(width, height)
  {
    if height / 2 > 0 && width / 2 > 0 {
      ChromaPairsFit(width, height, height / 2 - 1, width / 2 - 1);
    }
    if width % 2 == 0 && height % 2 == 0 {
      var h2, w2 := height / 2, width / 2;
      assert width * height == (2 * w2) * (2 * h2);
      assert width * height == 4 * (h2 * w2);
    }
  }

  /** A 3 x 3 image: one chroma pair, but room for two, so the last two bytes stay zero. */
  lemma OddSizeLeavesZeroTail()
    ensures ChromaEnd(3, 3) == 11 && Nv21Length(3, 3) == 13
  {
  }

  /** `ByteBuffer.get(dst, offset, length)` from buffer position `position`. */
  method BulkGet(dst: array<Byte>, offset: nat, src: seq<Byte>, position: nat, length: nat)
    requires offset + length <= dst.Length && position + length <= |src|
    modifies dst
    ensures forall i :: offset <= i < offset + length ==> dst[i] == src[position + (i - offset)]
    ensures forall i :: 0 <= i < dst.Length && !(offset <= i < offset + length) ==> dst[i] == old(dst[i])
  {
    var k := 0;
    while k < length
      invariant 0 <= k <= length
      invariant forall i :: offset <= i < offset + k ==> dst[i] == src[position + (i - offset)]
      invariant forall i :: 0 <= i < dst.Length && !(offset <= i < offset + k) ==> dst[i] == old(dst[i])
    {
      dst[offset + k] := src[position + k];
      k := k + 1;
    }
  }

  /** The luma half of the conversion: a bulk copy when the rows carry no
      padding, otherwise one row at a time. Ends with `pos == ySize`. */
  method CopyLuma(img: Image, out: array<Byte>) returns (pos: nat)
    requires WellFormed(img) && out.Length == Nv21Length(img.width, img.height)
    requires forall i :: 0 <= i < out.Length ==> out[i] == 0
    modifies out
    ensures pos == img.width * img.height
    ensures LumaRowsCopied(img, out[..], img.height, pos)
  {
    var width, height := img.width, img.height;
    var ySize := width * height;
    var yBuffer := img.planes[0].buffer;
    if img.planes[0].rowStride == width {
      if height > 0 {
        MulMonotone(height - 1, height, width);
      }
      BulkGet(out, 0, yBuffer, 0, ySize);
      pos := ySize;
      forall r, c | 0 <= r < height && 0 <= c < width
        ensures LumaPos(width, height, r, c) < pos
        ensures out[LumaPos(width, height, r, c)] == yBuffer[LumaSource(img, r, c)]
      {
        assert LumaPos(width, height, r, c) == LumaSource(img, r, c);
      }
    } else {
      pos := CopyLumaRows(img, out);
    }
  }

  /** The first `rows` luma rows of `out` hold the Y plane's samples, each
      before `pos`, and everything from `pos` on is still zero. */
  predicate LumaRowsCopied(img: Image, out: seq<Byte>, rows: nat, pos: nat)
    requires WellFormed(img) && |out| == Nv21Length(img.width, img.height) && 0 <= rows <= img.height
  {
    (forall r, c :: 0 <= r < rows && 0 <= c < img.width ==>
       LumaPos(img.width, img.height, r, c) < pos &&
       out[LumaPos(img.width, img.height, r, c)] == img.planes[0].buffer[LumaSource(img, r, c)]) &&
    (forall i :: pos <= i < |out| ==> out[i] == 0)
  }

  /** Copying row `row` from `start = row * rowStride` in the Y plane to
      `pos = row * width` extends the copied rows by one. */
  lemma LumaRowStep(img: Image, before: seq<Byte>, after: seq<Byte>, row: nat, pos: nat, start: nat)
    requires WellFormed(img) && |before| == |after| == Nv21Length(img.width, img.height)
    requires row < img.height && pos == row * img.width && pos + img.width <= |after|
    requires start == row * img.planes[0].rowStride && start + img.width <= |img.planes[0].buffer|
    requires LumaRowsCopied(img, before, row, pos)
    requires forall i :: 0 <= i < |after| && !(pos <= i < pos + img.width) ==> after[i] == before[i]
    requires forall i :: pos <= i < pos + img.width ==> after[i] == img.planes[0].buffer[start + (i - pos)]
    ensures LumaRowsCopied(img, after, row + 1, pos + img.width)
  {
    forall r, c | 0 <= r < row + 1 && 0 <= c < img.width
      ensures LumaPos(img.width, img.height, r, c) < pos + img.width
      ensures after[LumaPos(img.width, img.height, r, c)] == img.planes[0].buffer[LumaSource(img, r, c)]
    {
      if r < row {
        LumaOldRowKept(img, before, after, row, pos, r, c);
      } else {
        LumaNewRowWritten(img, after, row, pos, start, c);
      }
    }
  }

  /** A row copied earlier lies before `pos`, so the new row leaves it alone. */
  lemma LumaOldRowKept(img: Image, before: seq<Byte>, after: seq<Byte>, row: nat, pos: nat, r: nat, c: nat)
    requires WellFormed(img) && |before| == |after| == Nv21Length(img.width, img.height)
    requires row < img.height && r < row && c < img.width
    requires LumaRowsCopied(img, before, row, pos)
    requires forall i :: 0 <= i < |after| && i < pos ==> after[i] == before[i]
    ensures LumaPos(img.width, img.height, r, c) < pos
    ensures after[LumaPos(img.width, img.height, r, c)] == img.planes[0].buffer[LumaSource(img, r, c)]
  {
  }

  /** Sample `c` of the new row lands at `pos + c`, read from `start + c`. */
  lemma LumaNewRowWritten(img: Image, after: seq<Byte>, row: nat, pos: nat, start: nat, c: nat)
    requires WellFormed(img) && |after| == Nv21Length(img.width, img.height)
    requires row < img.height && pos == row * img.width && c < img.width && pos + img.width <= |after|
    requires start == row * img.planes[0].rowStride && start + img.width <= |img.planes[0].buffer|
    requires forall i :: pos <= i < pos + img.width ==> after[i] == img.planes[0].buffer[start + (i - pos)]
    ensures LumaPos(img.width, img.height, row, c) == pos + c
    ensures after[LumaPos(img.width, img.height, row, c)] == img.planes[0].buffer[LumaSource(img, row, c)]
  {
    assert LumaSource(img, row, c) == start + c;
  }

  /** The luma rows one at a time: `width` bytes from `yBufferPos`, which
      advances by the row stride, so the padding at the end of each row is
      skipped. */
  method CopyLumaRows(img: Image, out: array<Byte>) returns (pos: nat)
    requires WellFormed(img) && out.Length == Nv21Length(img.width, img.height)
    requires forall i :: 0 <= i < out.Length ==> out[i] == 0
    modifies out
    ensures pos == img.width * img.height
    ensures LumaRowsCopied(img, out[..], img.height, pos)
  {
    var width, height := img.width, img.height;
    var ySize := width * height;
    var yBuffer := img.planes[0].buffer;
    var rowStride: int := img.planes[0].rowStride;
    pos := 0;
    var yBufferPos := -rowStride;
    ghost var row: nat := 0;
    while pos < ySize
      invariant row <= height && pos == row * width && yBufferPos == (row - 1) * rowStride
      invariant LumaRowsCopied(img, out[..], row, pos)
      decreases ySize - pos
    {
      pos, yBufferPos := CopyLumaRow(img, out, row, pos, yBufferPos);
      row := row + 1;
    }
    LumaRowsDone(width, height, row);
    if width == 0 {
      assert LumaRowsCopied(img, out[..], height, pos);
    }
  }

  /** One pass of the row loop: advance `yBufferPos` by the row stride and
      copy `width` bytes from there to `pos`. */
  method CopyLumaRow(img: Image, out: array<Byte>, ghost row: nat, pos: nat, yBufferPos: int)
    returns (pos': nat, yBufferPos': int)
    requires WellFormed(img) && out.Length == Nv21Length(img.width, img.height)
    requires row <= img.height && pos == row * img.width < img.width * img.height
    requires yBufferPos == (row - 1) * img.planes[0].rowStride
    requires LumaRowsCopied(img, out[..], row, pos)
    modifies out
    ensures row + 1 <= img.height && pos' == (row + 1) * img.width
    ensures yBufferPos' == row * img.planes[0].rowStride
    ensures LumaRowsCopied(img, out[..], row + 1, pos')
  {
    var width := img.width;
    var yBuffer := img.planes[0].buffer;
    LumaRowFits(img, row);
    yBufferPos' := yBufferPos + img.planes[0].rowStride;
    ghost var before := out[..];
    BulkGet(out, pos, yBuffer, yBufferPos', width);
    assert forall i :: 0 <= i < out.Length && !(pos <= i < pos + width) ==> out[..][i] == before[i];
    assert forall i :: pos <= i < pos + width ==> out[..][i] == yBuffer[yBufferPos' + (i - pos)];
    LumaRowStep(img, before, out[..], row, pos, yBufferPos');
    pos' := pos + width;
  }

  /** While rows remain, row `row` starts at `row * width` in the output and at
      `row * rowStride` in the Y plane, and both of its copies fit. */
  lemma LumaRowFits(img: Image, row: int)
    requires WellFormed(img) && 0 <= row <= img.height
    requires row * img.width < img.width * img.height
    ensures row < img.height
    ensures (row + 1) * img.width == row * img.width + img.width <= img.width * img.height
    ensures row * img.planes[0].rowStride == (row - 1) * img.planes[0].rowStride + img.planes[0].rowStride
    ensures row * img.planes[0].rowStride + img.width <= |img.planes[0].buffer|
  {
    var width, height, rowStride := img.width, img.height, img.planes[0].rowStride;
    if row >= height {
      MulMonotone(height, row, width);
      assert false;
    }
    MulMonotone(row + 1, height, width);
    MulMonotone(row, height - 1, rowStride);
  }

  /** The row loop stops after the last row (or at once, for zero-width images). */
  lemma LumaRowsDone(width: nat, height: nat, row: int)
    requires 0 <= row <= height && row * width >= width * height
    ensures width > 0 ==> row == height
  {
    if width > 0 && row < height {
      MulMonotone(row + 1, height, width);
    }
  }

  /** One row of the chroma loop: for every column, the V byte and then the U
      byte at `vuPos`, written from `pos0` onwards. */
  method CopyChromaRow(img: Image, out: array<Byte>, row: nat, pos0: nat) returns (pos: nat)
    requires WellFormed(img) && out.Length == Nv21Length(img.width, img.height)
    requires row < img.height / 2 && pos0 == img.width * img.height + 2 * (row * (img.width / 2))
    requires forall i :: pos0 <= i < out.Length ==> out[i] == 0
    modifies out
    ensures pos == pos0 + 2 * (img.width / 2)
    ensures forall i :: 0 <= i < out.Length && i < pos0 ==> out[i] == old(out[i])
    ensures forall cc :: 0 <= cc < img.width / 2 ==>
              ChromaPos(img.width, img.height, row, cc) + 2 <= pos &&
              out[ChromaPos(img.width, img.height, row, cc)] == img.planes[2].buffer[ChromaSource(img, row, cc)] &&
              out[ChromaPos(img.width, img.height, row, cc) + 1] == img.planes[1].buffer[ChromaSource(img, row, cc)]
    ensures forall i :: pos <= i < out.Length ==> out[i] == 0
  {
    var width, height := img.width, img.height;
    var uBuffer, vBuffer := img.planes[1].buffer, img.planes[2].buffer;
    var rowStride := img.planes[2].rowStride;
    var pixelStride := img.planes[2].pixelStride;
    pos := pos0;
    var col := 0;
    while col < width / 2
      invariant 0 <= col <= width / 2
      invariant pos == pos0 + 2 * col
      invariant forall i :: 0 <= i < out.Length && i < pos0 ==> out[i] == old(out[i])
      invariant forall cc :: 0 <= cc < col ==>
                  ChromaPos(width, height, row, cc) + 2 <= pos &&
                  out[ChromaPos(width, height, row, cc)] == vBuffer[ChromaSource(img, row, cc)] &&
                  out[ChromaPos(width, height, row, cc) + 1] == uBuffer[ChromaSource(img, row, cc)]
      invariant forall i :: pos <= i < out.Length ==> out[i] == 0
    {
      var vuPos := col * pixelStride + row * rowStride;
      assert vuPos == ChromaSource(img, row, col);
      assert pos == ChromaPos(width, height, row, col);
      out[pos] := vBuffer[vuPos];
      pos := pos + 1;
      out[pos] := uBuffer[vuPos];
      pos := pos + 1;
      col := col + 1;
    }
  }

  /** The chroma half of the conversion: the pairs row after row, written from
      `ySize` onwards. */
  method CopyChroma(img: Image, out: array<Byte>)
    requires WellFormed(img) && out.Length == Nv21Length(img.width, img.height)
    requires forall i :: img.width * img.height <= i < out.Length ==> out[i] == 0
    modifies out
    ensures forall i :: 0 <= i < out.Length && i < img.width * img.height ==> out[i] == old(out[i])
    ensures forall row, col :: 0 <= row < img.height / 2 && 0 <= col < img.width / 2 ==>
              out[ChromaPos(img.width, img.height, row, col)] == img.planes[2].buffer[ChromaSource(img, row, col)] &&
              out[ChromaPos(img.width, img.height, row, col) + 1] == img.planes[1].buffer[ChromaSource(img, row, col)]
    ensures forall i :: ChromaEnd(img.width, img.height) <= i < out.Length ==> out[i] == 0
  {
    var width, height := img.width, img.height;
    var ySize := width * height;
    var uBuffer, vBuffer := img.planes[1].buffer, img.planes[2].buffer;
    var pos := ySize;
    var row := 0;
    while row < height / 2
      invariant 0 <= row <= height / 2
      invariant pos == ySize + 2 * (row * (width / 2))
      invariant forall i :: 0 <= i < out.Length && i < ySize ==> out[i] == old(out[i])
      invariant forall rr, cc :: 0 <= rr < row && 0 <= cc < width / 2 ==>
                  ChromaPos(width, height, rr, cc) + 2 <= pos &&
                  out[ChromaPos(width, height, rr, cc)] == vBuffer[ChromaSource(img, rr, cc)] &&
                  out[ChromaPos(width, height, rr, cc) + 1] == uBuffer[ChromaSource(img, rr, cc)]
      invariant forall i :: pos <= i < out.Length ==> out[i] == 0
    {
      pos := CopyChromaRow(img, out, row, pos);
      assert row * (width / 2) + width / 2 == (row + 1) * (width / 2);
      row := row + 1;
    }
  }

  /** `imageYUV_420_888toNV21` on planes that do not share memory. */
  method ImageYuv420888ToNv21(img: Image) returns (nv21: seq<Byte>)
    requires WellFormed(img)
    ensures IsNv21Of(img, nv21)
  {
    var ySize := img.width * img.height;
    var uvSize := img.width * img.height / 4;
    var out := new Byte[ySize + uvSize * 2](_ => 0);
    var pos := CopyLuma(img, out);
    ghost var luma := out[..];
    CopyChroma(img, out);
    ChromaFitsBuffer(img.width, img.height);
    nv21 := out[..];
    assert forall r, c :: 0 <= r < img.height && 0 <= c < img.width ==>
             nv21[LumaPos(img.width, img.height, r, c)] == luma[LumaPos(img.width, img.height, r, c)];
  }

  /** `imageYUV_420_888toBitmap` up to the NV21 buffer it hands to the JPEG
      encoder: any other format is rejected before conversion. */
  method ImageYuv420888ToBitmap(img: Image) returns (r: Result<seq<Byte>>)
    requires img.format == YUV_420_888 ==> WellFormed(img)
    ensures img.format != YUV_420_888 <==> r == Err(IllegalArgument)
    ensures r.Ok? ==> IsNv21Of(img, r.value)
  {
    if img.format != YUV_420_888 {
      return Err(IllegalArgument);
    }
    var nv21 := ImageYuv420888ToNv21(img);
    return Ok(nv21);
  }
}
