# Whiteboard capture pipeline — a Dafny model

This project models the pixel-level core of an Android whiteboard-capture
app. The camera frame is rectified to the whiteboard. It is then binarized,
occluders (people in front of the board) are masked out, and a running
"model" image of the board takes on only those changes that persist across
two consecutive frames.

The model covers:

- `ChangeDetector`, the two-observation persistence filter with its single
  `prevImgChanges` field;
- `CaptureService`, which masks occluded pixels, runs the detector against
  the model, and copies persistent changes into the model;
- the post-contour geometry of `CornerDetector`:
  - the largest-perimeter selection;
  - the greedy matching of points to the image corners;
  - the reordering into top-left, top-right, bottom-right, bottom-left;
- the arithmetic of `PerspectiveTransformer`: the dimension guard, the
  target corners, the warp size and the crop rectangle;
- `MatConverter`'s repacking of a YUV_420_888 camera image into an NV21
  buffer, with the format check in front of it.

Files, one module each:

| file | module |
|---|---|
| `outcomes.dfy` | `Option`, `Result`, and the exceptions the source can throw (`NullPointer`, `IllegalArgument`, `CvAssertion`) |
| `frames.dfy` | 8-bit single-channel frames, the Java signed-byte reading of a pixel, and per-pixel absolute difference |
| `geometry.dfy` | points, squared distance, `Math.max` |
| `change_detector.dfy` | `ChangeDetector` |
| `capture_service.dfy` | `CaptureService` |
| `corner_detector.dfy` | `CornerDetector` after contour extraction |
| `perspective_transformer.dfy` | `PerspectiveTransformer` |
| `mat_converter.dfy` | `MatConverter` |

How the model represents the program:

- **Immutable state.** The two stateful classes become immutable values.
  `ChangeDetector.DetectChanges` and `CaptureService.Capture` take the
  object's state and return the new one next to their result.
- **Pixels.** A pixel is an unsigned byte (0..255). The source tests for
  white with `buffer[i] == -1`. That test is modelled literally through
  `Frames.SignedByte`, which proves that 255 is the only byte that reads
  as −1.
- **Dimensions.** Frames are assumed to share the model's dimensions. That
  is what the caller guarantees: the service is created from the first
  rectified frame, and the corners are frozen while capturing.
- **Foreign results as inputs.** These are parameters of the model:
  - the binarized frame and the occluder mask;
  - the contours and their arc lengths;
  - the polygon approximation (`approxPolyDP`);
  - the distance function used for side lengths.

## Model

| member | source | states |
|---|---|---|
| Frames.SignedByte | app/src/main/java/com/whiteboardapp/core/pipeline/ChangeDetector.java:45-51 | A buffer byte reads as −1 exactly when the unsigned pixel is 255, and the reading agrees with the pixel modulo 256. |
| Frames.Dist | app/src/main/java/com/whiteboardapp/core/pipeline/ChangeDetector.java:19 | The absolute difference of two pixels is 0 exactly when they are equal. It is 255 exactly when one is black and the other white. Two binary pixels give a binary difference. |
| ChangeDetector.AbsDiff | app/src/main/java/com/whiteboardapp/core/pipeline/ChangeDetector.java:18-19 | The difference frame has the inputs' shape. A pixel is 0 iff the inputs agree there, and 255 iff they are opposite. |
| ChangeDetector.PersistentChanges | app/src/main/java/com/whiteboardapp/core/pipeline/ChangeDetector.java:29-58 | The result is a binary frame of the requested size. Without a previous difference it is all black. Otherwise a pixel is white iff both the previous and the current difference are 255 there. |
| ChangeDetector.DetectChanges | app/src/main/java/com/whiteboardapp/core/pipeline/ChangeDetector.java:16-26 | The mask has img1's shape and is binary. The detector afterwards remembers exactly this call's absolute difference. The first call reports nothing. Later calls report a pixel iff the remembered difference was 255 and the inputs are opposite now. |
| ChangeDetector.IdenticalInputsReportNothing | app/src/main/java/com/whiteboardapp/core/pipeline/ChangeDetector.java:19-53 | Comparing a frame with itself reports no change, whatever the detector saw before. |
| ChangeDetector.SecondCallNeedsBothDifferences | app/src/main/java/com/whiteboardapp/core/pipeline/ChangeDetector.java:21-53 | Of two consecutive calls, the second reports a pixel iff it was opposite in both calls. A difference seen only once is suppressed. |
| ChangeDetector.Run | app/src/main/java/com/whiteboardapp/core/pipeline/ChangeDetector.java:16-26 | Feeding a stream of pairs to one detector yields one binary mask per pair, each of that pair's shape. |
| ChangeDetector.RunMarksRepeatedDifferences | app/src/main/java/com/whiteboardapp/core/pipeline/ChangeDetector.java:16-53 | In any stream of calls, mask k ≥ 1 is white exactly where pair k−1 and pair k are both opposite. |
| ChangeDetector.RepeatedPairIsReportedOnSecondCall | app/src/androidTest/java/com/whiteboardapp/InstrumentedTest.java:129-131 | A fresh detector called twice with the same pair reports nothing, then exactly the pixels where the pair is opposite. |
| CaptureService.New | app/src/main/java/com/whiteboardapp/core/CaptureService.java:27-32 | The constructor builds a defaultHeight × defaultWidth model that is white everywhere, with a detector that has no previous difference. |
| CaptureService.RemoveSegmentArea | app/src/main/java/com/whiteboardapp/core/CaptureService.java:64-97 | Where the mask is 255, both the frame and the copy of the model become 255. Every other pixel of both is left as it was. The model itself is not written. |
| CaptureService.UpdateModel | app/src/main/java/com/whiteboardapp/core/CaptureService.java:99-125 | A model pixel takes the frame's value exactly where the change mask is 255. Every other pixel keeps its value. |
| CaptureService.Capture | app/src/main/java/com/whiteboardapp/core/CaptureService.java:35-61 | A model pixel is replaced by the frame's pixel iff three things hold: the previous capture saw it differ by 255, it is unoccluded now, and the frame is opposite to the model there. The detector remembers 0 on occluded pixels and the frame/model distance elsewhere. Occluded pixels are never written. The first call leaves the model unchanged. A binary model and frame give a binary model. |
| CaptureService.ChangeNeedsTwoObservations | app/src/main/java/com/whiteboardapp/core/CaptureService.java:52-58 | On the second of two captures, a pixel changes iff it was unoccluded and opposite to the model in both. When it changes, it takes the second frame's value. |
| CaptureService.CaptureAll | app/src/main/java/com/whiteboardapp/core/CaptureService.java:35-61 | A session of captures keeps the service's invariant and the model's dimensions. |
| CaptureService.SessionKeepsModelBinary | app/src/main/java/com/whiteboardapp/core/CaptureService.java:99-111 | A model that starts black-and-white stays black-and-white as long as every binarized frame is black-and-white. |
| CaptureService.SessionFreezesOccludedPixel | app/src/main/java/com/whiteboardapp/core/CaptureService.java:52-58 | A pixel occluded in every frame of a session keeps its value throughout the session. |
| CaptureService.BlankSessionScenario | app/src/main/java/com/whiteboardapp/core/CaptureService.java:27-61 | On a fresh white model, an unoccluded frame leaves the model white on its first capture and becomes the model on its second. A later frame that agrees with it wherever it is unoccluded changes nothing. |
| CornerDetector.ScanMin | app/src/main/java/com/whiteboardapp/core/pipeline/CornerDetector.java:143-153 | The strict-less scan from index −1 returns −1 on no values, and otherwise the first index of the least value. |
| CornerDetector.ScanMax | app/src/main/java/com/whiteboardapp/core/pipeline/CornerDetector.java:165-194 | The strict-greater scan returns −1 on no values, and otherwise the first index of the greatest value. |
| CornerDetector.GetMinDistanceIndex | app/src/main/java/com/whiteboardapp/core/pipeline/CornerDetector.java:142-155 | The result is −1 for an empty list. Otherwise it is a valid index whose point is no farther from the target than any other, and strictly nearer than every earlier point. |
| CornerDetector.RemoveAt | app/src/main/java/com/whiteboardapp/core/pipeline/CornerDetector.java:135 | Removing index k shortens the list by one and removes exactly that one point from the multiset. The points before k keep their positions, and the points after it move one place left. |
| CornerDetector.AssignNearest | app/src/main/java/com/whiteboardapp/core/pipeline/CornerDetector.java:126-136 | Matching fills min(candidates, targets) slots. No candidate is used more often than it occurs. The first slot is the candidate nearest the first target. |
| CornerDetector.AssignNearestTakesFirstNearest | app/src/main/java/com/whiteboardapp/core/pipeline/CornerDetector.java:126-136 | Slot i holds the first of the points nearest to target i in the list the earlier slots leave behind. That list keeps its original order, so ties go to the earlier point at every corner. |
| CornerDetector.LaterTieGoesToEarlierPoint | app/src/main/java/com/whiteboardapp/core/pipeline/CornerDetector.java:126-136 | For the points (0,0), (9,0), (10,1) on a 10×10 image, the second corner (10,0) is at squared distance 1 from both (9,0) and (10,1). It takes (9,0), the one listed first. |
| CornerDetector.AssignNearestIsGreedy | app/src/main/java/com/whiteboardapp/core/pipeline/CornerDetector.java:126-136 | Slot i of the matching is no farther from target i than any candidate that the earlier slots left over. |
| CornerDetector.CornerRowsAreGreedy | app/src/main/java/com/whiteboardapp/core/pipeline/CornerDetector.java:117-136 | Filled row i is nearest to image corner i among the shape points not taken by rows 0..i−1. The corners are taken in the order (0,0), (w,0), (0,h), (w,h). |
| CornerDetector.ApproxCornerPoints | app/src/main/java/com/whiteboardapp/core/pipeline/CornerDetector.java:110-139 | The result always has four rows, of which min(n, 4) are filled, with (0,0) matched first. The filled rows are distinct input points, and the unfilled rows keep their initial contents. |
| CornerDetector.RowsComeFromShapeOrInitial | app/src/main/java/com/whiteboardapp/core/pipeline/CornerDetector.java:120-136 | Every returned row is either a point of the shape or an untouched initial row. |
| CornerDetector.OrderPoints | app/src/main/java/com/whiteboardapp/core/pipeline/CornerDetector.java:158-205 | Four slots hold, in order, the first argmin of y+x, the first argmin of y−x, the first argmax of y+x and the first argmax of y−x. Every slot is an input point. |
| CornerDetector.OrderPointsMayRepeatAPoint | app/src/main/java/com/whiteboardapp/core/pipeline/CornerDetector.java:198-201 | The same input point can fill two slots. The example is the square (5,0), (10,5), (5,10), (0,5), a board seen at 45°. Its top vertex is picked as both top-left and top-right. |
| CornerDetector.ScanLargest | app/src/main/java/com/whiteboardapp/core/pipeline/CornerDetector.java:90-102 | The running maximum starts at 0 and moves only on a strictly greater perimeter. Nothing is chosen iff no perimeter exceeds 0, and otherwise the choice is the first contour of maximal perimeter. |
| CornerDetector.LargestContourIndex | app/src/main/java/com/whiteboardapp/core/pipeline/CornerDetector.java:87-100 | No contour is chosen iff no perimeter exceeds 0. Otherwise the choice is the first contour of strictly maximal positive perimeter. |
| CornerDetector.FindLargestShapePoints | app/src/main/java/com/whiteboardapp/core/pipeline/CornerDetector.java:85-106 | There is a null dereference at the log line iff no perimeter exceeds 0. Otherwise the result is the first largest contour, approximated with a tolerance of 0.02 × its perimeter. |
| CornerDetector.FindCorners | app/src/main/java/com/whiteboardapp/core/pipeline/CornerDetector.java:34-83 | No contours give the empty point set. Otherwise there is a null dereference iff no perimeter exceeds 0, and if there is none the result has four points. Each of them is a point of the largest shape or an untouched initial row. They come in top-left, top-right, bottom-right, bottom-left order: the first argmin of y+x, the first argmin of y−x, the first argmax of y+x and the first argmax of y−x over the four matched rows. |
| PerspectiveTransformer.CropRectInBounds | app/src/main/java/com/whiteboardapp/core/pipeline/PerspectiveTransformer.java:72-74 | For an image of at least 100 × 100, the crop rectangle has positive origin and size. It ends exactly at the right and bottom edges. |
| PerspectiveTransformer.HasExtremeDimensions | app/src/main/java/com/whiteboardapp/core/pipeline/PerspectiveTransformer.java:20-25 | The size is extreme iff the width or the height lies outside [100, 5000]. |
| PerspectiveTransformer.CropRect | app/src/main/java/com/whiteboardapp/core/pipeline/PerspectiveTransformer.java:73 | The crop rectangle starts at (margin, margin) and ends at the image's right and bottom edges. |
| PerspectiveTransformer.GetPerspective | app/src/main/java/com/whiteboardapp/core/pipeline/PerspectiveTransformer.java:23-76 | The outcome, by case: <br>• **Fewer than four rows:** a null dereference. <br>• **Guard fires** (a side maximum below 100 or above 5000): null, before any warp. <br>• **Guard passes, more than four rows:** the transform's assertion fails. <br>• **Otherwise:** the width and height are the maxima of opposite sides, and the warp size is their integer truncation, between 100 and 5000. The target corners are (0,0), (w−1,0), (w−1,h−1), (0,h−1). The crop is (10,10,w−10,h−10), and the cropped image is resized back to w × h. |
| MatConverter.Nv21Length | app/src/main/java/com/whiteboardapp/controller/MatConverter.java:52-55 | The NV21 buffer is at least as long as the luma plane. |
| MatConverter.ChromaFitsBuffer | app/src/main/java/com/whiteboardapp/controller/MatConverter.java:52-110 | The chroma pairs end within the buffer, and they end exactly at its end when width and height are both even. |
| MatConverter.OddSizeLeavesZeroTail | app/src/main/java/com/whiteboardapp/controller/MatConverter.java:104-110 | For a 3 × 3 image, the chroma pairs end at byte 11 of a 13-byte buffer. |
| MatConverter.BulkGet | app/src/main/java/com/whiteboardapp/controller/MatConverter.java:67-74 | `ByteBuffer.get` copies `length` bytes from the buffer position to the offset and leaves every other byte alone. |
| MatConverter.CopyLuma | app/src/main/java/com/whiteboardapp/controller/MatConverter.java:64-76 | Both the bulk path and the row path end with pos = w·h. In both, luma sample (r,c) sits at r·w+c and holds Y[r·rowStride+c], and everything after pos is zero. |
| MatConverter.CopyLumaRows | app/src/main/java/com/whiteboardapp/controller/MatConverter.java:69-76 | The row loop, starting at −rowStride and advancing by rowStride, copies every row and ends at pos = w·h. |
| MatConverter.CopyLumaRow | app/src/main/java/com/whiteboardapp/controller/MatConverter.java:72-74 | One pass of the row loop adds one copied row and advances pos by w and the buffer position by rowStride. |
| MatConverter.CopyChromaRow | app/src/main/java/com/whiteboardapp/controller/MatConverter.java:105-109 | One chroma row writes V then U from vuPos = col·pixelStride + row·rowStride for every column. Nothing before it changes, and nothing after it is written. |
| MatConverter.CopyChroma | app/src/main/java/com/whiteboardapp/controller/MatConverter.java:104-110 | The chroma loop puts pair (row,col) at ySize + 2·(row·(w/2)+col), V first. The luma bytes are untouched, and the bytes after the last pair stay zero. |
| MatConverter.ImageYuv420888ToNv21 | app/src/main/java/com/whiteboardapp/controller/MatConverter.java:49-113 | The output has length w·h + 2·(w·h/4) and holds the luma rows without padding. The V/U pairs follow, and the tail an odd size leaves is zero. |
| MatConverter.ImageYuv420888ToBitmap | app/src/main/java/com/whiteboardapp/controller/MatConverter.java:31-37 | Any format other than YUV_420_888 is rejected with IllegalArgumentException, and only such formats are rejected. A YUV_420_888 image yields its NV21 repacking; the model assumes its chroma buffers are writable. |

## Left out

- The OpenCV operators are foreign calls and are represented only through
  their results: colour conversion, Gaussian blur, Canny, dilation,
  `findContours`, `arcLength`, `approxPolyDP`, `getPerspectiveTransform`,
  `warpPerspective`, `resize`, and everything in `Binarization.java`.
- `Segmentator` (TFLite inference and mask post-processing) is a foreign
  stage. Its mask is an input frame of `Capture`.
- `Calculator.getDistanceBetweenPoints` is a floating-point square root. The
  corner matching only compares distances, so it uses squared distance,
  which is what `Geometry.SqDist` computes. `GetPerspective` needs the
  lengths themselves, so it takes the distance function as a parameter.
- Floating point is modelled as exact reals: there is no rounding, NaN or
  infinity. Java's `int` products (`width * height`) are modelled as
  unbounded integers, so overflow on huge images is not modelled.
- The `MatConverter` fast path that probes whether the U and V buffers share
  memory (`MatConverter.java:84-102`) writes through one buffer and reads
  the other. Separate sequences cannot express that aliasing, so only the
  general path is modelled.
- MatConverter.ImageYuv420888ToBitmap assumes writable chroma buffers. Take
  an image with pixel stride 2, row stride equal to the width, and a first U
  byte equal to the second V byte. If its V buffer is read-only, the probe's
  write throws `ReadOnlyBufferException`, and the source catches it. The
  restore at `MatConverter.java:101` then writes again outside the `try`,
  so the exception escapes. That exception path is not modelled.
- The JPEG round trip of `imageYUV_420_888toBitmap`, and `matToBitmap`, are
  left out: the model stops at the NV21 buffer.
- Camera binding, UI, touch handling and drawing (the activities,
  `OverlayView`, `CornerViewModel`) are left out. So is the cross-thread
  access to their mode flags.
- Timing, logging, file saving and printing (`AppUtils`, `MatPrint`) are
  left out.
- The instrumented tests compare against reference images and exact OpenCV
  coordinates, which depend on the library. Only the detector scenario is
  modelled.
- `Calculator.java` is not part of this model beyond the distance
  substitution above.
- MatConverter.ImageYuv420888ToNv21 requires `WellFormed`. That covers the
  source's own assertions (Y pixel stride 1, U and V with equal strides) and
  buffers long enough for every byte the loops read. The source throws on a
  buffer that is too short (`BufferUnderflowException`,
  `IndexOutOfBoundsException`), and that error path is not modelled.
- CornerDetector.OrderPoints requires at least one point. Its only caller
  passes the four rows of `approxCornerPoints`; on no rows the source would
  read row −1.
- CornerDetector.ApproxCornerPoints takes the uninitialised contents of the
  four allocated rows as a parameter (`initialRows`), because the source
  never clears them.
- CaptureService.Capture and ChangeDetector.DetectChanges require all frames
  to share the model's dimensions. `absdiff` rejects two inputs of
  different sizes. A remembered difference or an occluder mask of another
  size is walked index by index as a plain byte array
  (`ChangeDetector.java:49-50`, `CaptureService.java:84-85`). That throws
  `ArrayIndexOutOfBoundsException` when the array indexed second is
  shorter, and otherwise silently pairs the wrong pixels. The app never
  produces such sizes.
- Geometry.SqDist states only that the squared distance is non-negative. The
  matching needs only the ordering of distances, not their zeros.
- PerspectiveTransformer.GetPerspective models the pixel pipeline (warp,
  crop, resize) by its geometry only: it returns the sizes and rectangles,
  not the pixels. The crop rectangle starts at (10,10) with size
  (w−10, h−10), so it trims the margin from the top and left only; the
  right and bottom edges are the image's own.
