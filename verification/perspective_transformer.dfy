/** The arithmetic around the perspective warp.

    From four corners in top-left, top-right, bottom-right, bottom-left order
    the transformer derives the size of the rectified image, rejects implausible
    sizes, builds the target rectangle for the warp and the rectangle it crops
    afterwards. The warp, the crop and the resize are OpenCV calls; the model
    states their geometry. The side lengths come from the floating-point
    distance primitive, passed in as `dist`.
 */
module PerspectiveTransformer {
  import opened Outcomes
  import opened Geometry

  const CropMargin: int := 10
  const MinDimension: real := 100.0
  const MaxDimension: real := 5000.0

  /** `hasExtremeDimensions`: a side outside the plausible range [100, 5000]. */
  predicate HasExtremeDimensions(maxWidth: real, maxHeight: real): (r: bool)
    ensures !r <==> MinDimension <= maxWidth <= MaxDimension && MinDimension <= maxHeight <= MaxDimension
  {
    maxWidth < MinDimension || maxHeight < MinDimension || maxWidth > MaxDimension || maxHeight > MaxDimension
  }

  /** An OpenCV `Rect`: top-left corner and size. */
  datatype Rect = Rect(x: int, y: int, width: int, height: int)

  /** `cropAndResize`'s rectangle for an image of `imgWidth` x `imgHeight`. */
  function CropRect(imgWidth: int, imgHeight: int, cropMargin: int): (r: Rect)
    ensures r.x == r.y == cropMargin
    ensures r.x + r.width == imgWidth && r.y + r.height == imgHeight
  {
    Rect(cropMargin, cropMargin, imgWidth - cropMargin, imgHeight - cropMargin)
  }

  /** The crop rectangle lies inside the warped image whenever that image
      passed the dimension guard. It trims the margin from the top and the
      left only: its right and bottom edges are the image's own. */
  lemma CropRectInBounds(imgWidth: int, imgHeight: int)
    requires imgWidth >= 100 && imgHeight >= 100
    ensures var r := CropRect(imgWidth, imgHeight, CropMargin);
            0 < r.x && 0 < r.y && 0 < r.width && 0 < r.height &&
            r.x + r.width == imgWidth && r.y + r.height == imgHeight
  {
  }

  /** The rectangle the warp maps the corners onto, in tl, tr, br, bl order. */
  function TargetCorners(maxWidth: real, maxHeight: real): seq<Point>
  {
    [Point(0.0, 0.0), Point(maxWidth - 1.0, 0.0), Point(maxWidth - 1.0, maxHeight - 1.0), Point(0.0, maxHeight - 1.0)]
  }

  /** Everything `getPerspective` decides besides the pixels: the target size,
      the warp's target corners, the warped image's integer size, the crop,
      and the size the cropped image is resized to. */
  datatype Rectification = Rectification(
    maxWidth: real,
    maxHeight: real,
    targetCorners: seq<Point>,
    warpedWidth: int,
    warpedHeight: int,
    crop: Rect,
    outputWidth: int,
    outputHeight: int)

  /** The larger of the bottom and top side lengths. */
  function MaxWidth(corners: seq<Point>, dist: (Point, Point) -> real): real
    requires |corners| >= 4
  {
    Max(dist(corners[3], corners[2]), dist(corners[0], corners[1]))
  }

  /** The larger of the right and left side lengths. */
  function MaxHeight(corners: seq<Point>, dist: (Point, Point) -> real): real
    requires |corners| >= 4
  {
    Max(dist(corners[2], corners[1]), dist(corners[3], corners[0]))
  }

  /** `getPerspective`. Fewer than four corner rows make the row reads return
      null; implausible sizes return null before any warp; more than four rows
      pass the guard but fail the four-point check of the transform. */
  function GetPerspective(corners: seq<Point>, dist: (Point, Point) -> real): (r: Result<Option<Rectification>>)
    ensures r == Err(NullPointer) <==> |corners| < 4
    ensures r == Ok(None) <==>
      |corners| >= 4 &&
      !(100.0 <= MaxWidth(corners, dist) <= 5000.0 && 100.0 <= MaxHeight(corners, dist) <= 5000.0)
    ensures r.Ok? && r.value.Some? ==>
      var g := r.value.value;
      |corners| == 4 &&
      g.maxWidth == Max(dist(corners[3], corners[2]), dist(corners[0], corners[1])) &&
      g.maxHeight == Max(dist(corners[2], corners[1]), dist(corners[3], corners[0])) &&
      100 <= g.warpedWidth <= 5000 && 100 <= g.warpedHeight <= 5000 &&
      g.warpedWidth as real <= g.maxWidth < g.warpedWidth as real + 1.0 &&
      g.warpedHeight as real <= g.maxHeight < g.warpedHeight as real + 1.0 &&
      g.targetCorners == [Point(0.0, 0.0), Point(g.maxWidth - 1.0, 0.0),
                          Point(g.maxWidth - 1.0, g.maxHeight - 1.0), Point(0.0, g.maxHeight - 1.0)] &&
      g.crop == Rect(10, 10, g.warpedWidth - 10, g.warpedHeight - 10) &&
      g.crop.x + g.crop.width == g.warpedWidth && g.crop.y + g.crop.height == g.warpedHeight &&
      // the crop is stretched back to the warped image's size
      g.outputWidth == g.warpedWidth && g.outputHeight == g.warpedHeight
    ensures r.Err? && |corners| >= 4 ==> r.error == CvAssertion && |corners| > 4
  {
    if |corners| < 4 then Err(NullPointer)
    else
      var maxWidth := MaxWidth(corners, dist);
      var maxHeight := MaxHeight(corners, dist);
      if HasExtremeDimensions(maxWidth, maxHeight) then Ok(None)
      else if |corners| != 4 then Err(CvAssertion)
      else
        // the native warp truncates the double-valued size to int
        var warpedWidth := maxWidth.Floor;
        var warpedHeight := maxHeight.Floor;
        CropRectInBounds(warpedWidth, warpedHeight);
        Ok(Some(Rectification(maxWidth, maxHeight, TargetCorners(maxWidth, maxHeight),
                              warpedWidth, warpedHeight, CropRect(warpedWidth, warpedHeight, CropMargin),
                              warpedWidth, warpedHeight)))
  }
}
