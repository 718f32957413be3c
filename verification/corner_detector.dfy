/** The geometry that follows contour extraction in the corner detector.

    Edge detection and contour extraction are OpenCV calls: a contour arrives
    here as its points and its arc length, and the polygon approximation
    `approxPolyDP` is a function parameter. What is modelled is the choice of
    the largest contour, the greedy matching of its points to the image's
    corners, and the reordering of the four matches into top-left, top-right,
    bottom-right, bottom-left.
 */
module CornerDetector {
  import opened Outcomes
  import opened Geometry

  /** The first index holding the least value: `strictly` smaller than every
      earlier value, no larger than any later one. */
  predicate IsFirstMin(vals: seq<real>, k: int)
  {
    0 <= k < |vals| &&
    (forall j :: 0 <= j < |vals| ==> vals[k] <= vals[j]) &&
    (forall j :: 0 <= j < k ==> vals[j] > vals[k])
  }

  /** The first index holding the greatest value. */
  predicate IsFirstMax(vals: seq<real>, k: int)
  {
    0 <= k < |vals| &&
    (forall j :: 0 <= j < |vals| ==> vals[j] <= vals[k]) &&
    (forall j :: 0 <= j < k ==> vals[j] < vals[k])
  }

  /** The scan for a minimum as the source's loops write it: the best index
      starts at -1 with an infinite bound and moves only on a strictly smaller value. */
  function ScanMin(vals: seq<real>, i: nat, best: int): (k: int)
    requires i <= |vals|
    requires i == 0 ==> best == -1
    requires i > 0 ==> IsFirstMin(vals[..i], best)
    ensures |vals| == 0 ==> k == -1
    ensures |vals| > 0 ==> IsFirstMin(vals, k)
    decreases |vals| - i
  {
    if i == |vals| then
      assert vals[..i] == vals;
      best
    else
      var next := if best == -1 || vals[best] > vals[i] then i else best;
      assert vals[..i + 1][..i] == vals[..i];
      ScanMin(vals, i + 1, next)
  }

  /** The scan for a maximum: starts at -1 with a bound of minus infinity and
      moves only on a strictly greater value. */
  function ScanMax(vals: seq<real>, i: nat, best: int): (k: int)
    requires i <= |vals|
    requires i == 0 ==> best == -1
    requires i > 0 ==> IsFirstMax(vals[..i], best)
    ensures |vals| == 0 ==> k == -1
    ensures |vals| > 0 ==> IsFirstMax(vals, k)
    decreases |vals| - i
  {
    if i == |vals| then
      assert vals[..i] == vals;
      best
    else
      var next := if best == -1 || vals[best] < vals[i] then i else best;
      assert vals[..i + 1][..i] == vals[..i];
      ScanMax(vals, i + 1, next)
  }

  /** Squared distance from each point to `target`. */
  function Distances(points: seq<Point>, target: Point): (ds: seq<real>)
    ensures |ds| == |points|
    ensures forall i :: 0 <= i < |points| ==> ds[i] == SqDist(points[i], target)
  {
    seq(|points|, i requires 0 <= i < |points| => SqDist(points[i], target))
  }

  /** `getMinDistanceIndex`: -1 for no points, otherwise the first of the points nearest to `target`. */
  function GetMinDistanceIndex(points: seq<Point>, target: Point): (k: int)
    ensures |points| == 0 ==> k == -1
    ensures |points| > 0 ==> 0 <= k < |points|
    ensures |points| > 0 ==> forall j :: 0 <= j < |points| ==> SqDist(points[k], target) <= SqDist(points[j], target)
    ensures |points| > 0 ==> forall j :: 0 <= j < k ==> SqDist(points[j], target) > SqDist(points[k], target)
  {
    ScanMin(Distances(points, target), 0, -1)
  }

  /** The image corners in the order they are matched: (0,0), (w,0), (0,h), (w,h). */
  function ImageCorners(width: nat, height: nat): seq<Point>
  {
    [Point(0.0, 0.0), Point(width as real, 0.0), Point(0.0, height as real), Point(width as real, height as real)]
  }

  /** `ArrayList.remove(int)`. */
  function RemoveAt(s: seq<Point>, k: nat): (r: seq<Point>)
    requires k < |s|
    ensures |r| == |s| - 1
    ensures forall j :: 0 <= j < |r| ==> r[j] == s[if j < k then j else j + 1]
    ensures multiset(r) + multiset{s[k]} == multiset(s)
  {
    assert s == s[..k] + [s[k]] + s[k + 1..];
    s[..k] + s[k + 1..]
  }

  /** The matching loop of `approxCornerPoints`: each target in turn takes the
      nearest remaining candidate, which is then removed; it stops when either
      runs out. */
  function AssignNearest(candidates: seq<Point>, targets: seq<Point>): (r: seq<Point>)
    ensures |r| == if |candidates| < |targets| then |candidates| else |targets|
    ensures multiset(r) <= multiset(candidates)
    ensures |r| > 0 ==> r[0] == candidates[GetMinDistanceIndex(candidates, targets[0])]
    decreases |targets|
  {
    if |targets| == 0 || |candidates| == 0 then []
    else
      var k := GetMinDistanceIndex(candidates, targets[0]);
      [candidates[k]] + AssignNearest(RemoveAt(candidates, k), targets[1..])
  }

  /** The candidate list as slot `i` finds it: the matched points removed in
      turn, the rest still in their original order. */
  function Leftover(candidates: seq<Point>, targets: seq<Point>, i: nat): (left: seq<Point>)
    requires i <= |candidates| && i <= |targets|
    ensures |left| == |candidates| - i
    decreases i
  {
    if i == 0 then candidates
    else Leftover(RemoveAt(candidates, GetMinDistanceIndex(candidates, targets[0])), targets[1..], i - 1)
  }

  /** Slot `i` takes, from the list the earlier slots leave behind, the first
      of the points nearest to target `i`; ties go to the earlier point. */
  lemma {:induction false} AssignNearestTakesFirstNearest(candidates: seq<Point>, targets: seq<Point>, i: nat)
    requires i < |candidates| && i < |targets|
    ensures var left := Leftover(candidates, targets, i);
            |left| > 0 &&
            exists k :: IsFirstMin(Distances(left, targets[i]), k) && AssignNearest(candidates, targets)[i] == left[k]
    decreases i
  {
    assert i < |AssignNearest(candidates, targets)|;
    var k := GetMinDistanceIndex(candidates, targets[0]);
    var later := AssignNearest(RemoveAt(candidates, k), targets[1..]);
    assert AssignNearest(candidates, targets) == [candidates[k]] + later;
    if i == 0 {
      assert IsFirstMin(Distances(candidates, targets[0]), k);
    } else {
      AssignNearestTakesFirstNearest(RemoveAt(candidates, k), targets[1..], i - 1);
      assert targets[1..][i - 1] == targets[i];
    }
  }

  /** (0,0) itself is the point nearest to the corner (0,0). */
  lemma OriginIsNearestToOrigin()
    ensures GetMinDistanceIndex([Point(0.0, 0.0), Point(9.0, 0.0), Point(10.0, 1.0)], Point(0.0, 0.0)) == 0
  {
    var pts := [Point(0.0, 0.0), Point(9.0, 0.0), Point(10.0, 1.0)];
    var k := GetMinDistanceIndex(pts, Point(0.0, 0.0));
    assert SqDist(pts[0], Point(0.0, 0.0)) == 0.0;
  }

  /** Of two points equally near (10,0), the first one listed is chosen. */
  lemma EqualDistanceTakesFirst()
    ensures GetMinDistanceIndex([Point(9.0, 0.0), Point(10.0, 1.0)], Point(10.0, 0.0)) == 0
  {
    var pts := [Point(9.0, 0.0), Point(10.0, 1.0)];
    assert SqDist(pts[0], Point(10.0, 0.0)) == 1.0 && SqDist(pts[1], Point(10.0, 0.0)) == 1.0;
  }

  /** Ties at a later corner go to the earlier point: (9,0) and (10,1) are both
      at squared distance 1 from (10,0), and (9,0), listed first, is taken. */
  lemma LaterTieGoesToEarlierPoint()
    ensures AssignNearest([Point(0.0, 0.0), Point(9.0, 0.0), Point(10.0, 1.0)], ImageCorners(10, 10))[1] == Point(9.0, 0.0)
  {
    var c := [Point(0.0, 0.0), Point(9.0, 0.0), Point(10.0, 1.0)];
    var targets := ImageCorners(10, 10);
    OriginIsNearestToOrigin();
    EqualDistanceTakesFirst();
    var rest := RemoveAt(c, 0);
    assert rest == [Point(9.0, 0.0), Point(10.0, 1.0)];
    assert targets[0] == Point(0.0, 0.0) && targets[1..][0] == Point(10.0, 0.0);
    assert AssignNearest(c, targets) == [c[0]] + AssignNearest(rest, targets[1..]);
  }

  /** The nearest candidate is no farther than any point of the candidates' multiset. */
  lemma NearestBeatsEveryCandidate(candidates: seq<Point>, target: Point)
    requires |candidates| > 0
    ensures forall p :: p in multiset(candidates) ==>
              SqDist(candidates[GetMinDistanceIndex(candidates, target)], target) <= SqDist(p, target)
  {
    var k := GetMinDistanceIndex(candidates, target);
    forall p | p in multiset(candidates)
      ensures SqDist(candidates[k], target) <= SqDist(p, target)
    {
      var j :| 0 <= j < |candidates| && candidates[j] == p;
    }
  }

  /** The inductive step of `AssignNearestIsGreedy`: if slot `i - 1` of the
      later slots beats what they left over, slot `i` of the whole matching
      beats what the first `i` slots left over. */
  lemma GreedyStep(candidates: seq<Point>, k: nat, rest: seq<Point>, later: seq<Point>, i: nat, target: Point)
    requires k < |candidates| && rest == RemoveAt(candidates, k) && 0 < i <= |later|
    requires forall p :: p in multiset(rest) - multiset(later[..i - 1]) ==>
               SqDist(later[i - 1], target) <= SqDist(p, target)
    ensures var r := [candidates[k]] + later;
            forall p :: p in multiset(candidates) - multiset(r[..i]) ==>
              SqDist(r[i], target) <= SqDist(p, target)
  {
    var r := [candidates[k]] + later;
    assert r[..i] == [candidates[k]] + later[..i - 1];
    assert multiset(candidates) - multiset(r[..i]) == multiset(rest) - multiset(later[..i - 1]);
    assert r[i] == later[i - 1];
  }

  /** The matching is greedy in the strong sense: slot `i` holds a point no
      farther from target `i` than any candidate the earlier slots left over. */
  lemma {:induction false} AssignNearestIsGreedy(candidates: seq<Point>, targets: seq<Point>, i: nat)
    requires i < |candidates| && i < |targets|
    ensures var r := AssignNearest(candidates, targets);
            forall p :: p in multiset(candidates) - multiset(r[..i]) ==>
              SqDist(r[i], targets[i]) <= SqDist(p, targets[i])
    decreases i
  {
    assert i < |AssignNearest(candidates, targets)|;
    var k := GetMinDistanceIndex(candidates, targets[0]);
    var later := AssignNearest(RemoveAt(candidates, k), targets[1..]);
    assert AssignNearest(candidates, targets) == [candidates[k]] + later;
    if i == 0 {
      NearestBeatsEveryCandidate(candidates, targets[0]);
    } else {
      AssignNearestIsGreedy(RemoveAt(candidates, k), targets[1..], i - 1);
      assert targets[1..][i - 1] == targets[i];
      GreedyStep(candidates, k, RemoveAt(candidates, k), later, i, targets[i]);
    }
  }

  /** The four rows `approxCornerPoints` returns and how many of them it wrote. */
  datatype CornerRows = CornerRows(rows: seq<Point>, filled: nat)

  /** `approxCornerPoints`. The result matrix is allocated with four rows whose
      initial contents (`initialRows`) the source never clears, so rows it does
      not write keep them. */
  function ApproxCornerPoints(shapePoints: seq<Point>, width: nat, height: nat, initialRows: seq<Point>): (r: CornerRows)
    requires |initialRows| == 4
    ensures |r.rows| == 4
    ensures r.filled == if |shapePoints| < 4 then |shapePoints| else 4
    ensures multiset(r.rows[..r.filled]) <= multiset(shapePoints)
    ensures forall i :: r.filled <= i < 4 ==> r.rows[i] == initialRows[i]
    ensures r.filled > 0 ==> r.rows[0] == shapePoints[GetMinDistanceIndex(shapePoints, Point(0.0, 0.0))]
  {
    var matched := AssignNearest(shapePoints, ImageCorners(width, height));
    assert (matched + initialRows[|matched|..])[..|matched|] == matched;
    CornerRows(matched + initialRows[|matched|..], |matched|)
  }

  /** Every row `approxCornerPoints` returns is a point of the shape or a row
      it left untouched. */
  lemma RowsComeFromShapeOrInitial(corners: CornerRows, shapePoints: seq<Point>, initialRows: seq<Point>)
    requires |corners.rows| == 4 == |initialRows| && corners.filled <= 4
    requires multiset(corners.rows[..corners.filled]) <= multiset(shapePoints)
    requires forall i :: corners.filled <= i < 4 ==> corners.rows[i] == initialRows[i]
    ensures forall p :: p in corners.rows ==> p in shapePoints || p in initialRows
  {
    forall p | p in corners.rows
      ensures p in shapePoints || p in initialRows
    {
      var i :| 0 <= i < 4 && corners.rows[i] == p;
      if i < corners.filled {
        assert p in multiset(corners.rows[..corners.filled]);
      } else {
        assert initialRows[i] == p;
      }
    }
  }

  /** Row `i` of `approxCornerPoints` is nearest to image corner `i` among the
      shape points the earlier rows did not take: (0,0) first, then (w,0),
      (0,h) and (w,h). */
  lemma CornerRowsAreGreedy(shapePoints: seq<Point>, width: nat, height: nat, initialRows: seq<Point>, i: nat)
    requires |initialRows| == 4 && i < |shapePoints| && i < 4
    ensures var r := ApproxCornerPoints(shapePoints, width, height, initialRows);
            forall p :: p in multiset(shapePoints) - multiset(r.rows[..i]) ==>
              SqDist(r.rows[i], ImageCorners(width, height)[i]) <= SqDist(p, ImageCorners(width, height)[i])
  {
    var r := ApproxCornerPoints(shapePoints, width, height, initialRows);
    var corners := ImageCorners(width, height);
    var matched := AssignNearest(shapePoints, corners);
    assert |corners| == 4 && i < |matched|;
    assert r.rows[..i] == matched[..i] && r.rows[i] == matched[i];
    AssignNearestIsGreedy(shapePoints, corners, i);
    forall p | p in multiset(shapePoints) - multiset(r.rows[..i])
      ensures SqDist(r.rows[i], corners[i]) <= SqDist(p, corners[i])
    {
      assert p in multiset(shapePoints) - multiset(matched[..i]);
    }
  }

  /** y + x and y - x of every point, the keys `orderPoints` ranks by. */
  function Sums(pts: seq<Point>): (r: seq<real>)
    ensures |r| == |pts| && forall i :: 0 <= i < |pts| ==> r[i] == pts[i].y + pts[i].x
  {
    seq(|pts|, i requires 0 <= i < |pts| => pts[i].y + pts[i].x)
  }

  function Diffs(pts: seq<Point>): (r: seq<real>)
    ensures |r| == |pts| && forall i :: 0 <= i < |pts| ==> r[i] == pts[i].y - pts[i].x
  {
    seq(|pts|, i requires 0 <= i < |pts| => pts[i].y - pts[i].x)
  }

  /** `orderPoints`: top-left has the least y+x, top-right the least y-x,
      bottom-right the greatest y+x and bottom-left the greatest y-x, each the
      first such point on ties. Nothing makes the four picks distinct. */
  function OrderPoints(pts: seq<Point>): (r: seq<Point>)
    requires |pts| > 0
    ensures |r| == 4
    ensures forall s :: 0 <= s < 4 ==> r[s] in pts
    ensures exists k :: IsFirstMin(Sums(pts), k) && r[0] == pts[k]
    ensures exists k :: IsFirstMin(Diffs(pts), k) && r[1] == pts[k]
    ensures exists k :: IsFirstMax(Sums(pts), k) && r[2] == pts[k]
    ensures exists k :: IsFirstMax(Diffs(pts), k) && r[3] == pts[k]
  {
    var sumMin := ScanMin(Sums(pts), 0, -1);
    var diffMin := ScanMin(Diffs(pts), 0, -1);
    var sumMax := ScanMax(Sums(pts), 0, -1);
    var diffMax := ScanMax(Diffs(pts), 0, -1);
    [pts[sumMin], pts[diffMin], pts[sumMax], pts[diffMax]]
  }

  /** A board seen at 45 degrees, the square with vertices (5,0), (10,5),
      (5,10) and (0,5): its top vertex is both the first least y + x and the
      first least y - x, so it fills the top-left and the top-right slot and
      the ordering does not always yield four distinct corners. */
  lemma OrderPointsMayRepeatAPoint()
    ensures var r := OrderPoints([Point(5.0, 0.0), Point(10.0, 5.0), Point(5.0, 10.0), Point(0.0, 5.0)]);
            r[0] == r[1] == Point(5.0, 0.0)
  {
    var pts := [Point(5.0, 0.0), Point(10.0, 5.0), Point(5.0, 10.0), Point(0.0, 5.0)];
    var r := OrderPoints(pts);
    var k0 :| IsFirstMin(Sums(pts), k0) && r[0] == pts[k0];
    var k1 :| IsFirstMin(Diffs(pts), k1) && r[1] == pts[k1];
    assert Sums(pts)[0] == 5.0 && Diffs(pts)[0] == -5.0;
    assert k0 == 0;
    assert k1 == 0;
  }

  /** A contour as `findContours` and `arcLength` deliver it. */
  datatype Contour = Contour(points: seq<Point>, perimeter: real)

  /** The approximation tolerance, as a fraction of the contour's perimeter. */
  const PerimeterMarginPercent: real := 0.02

  /** The loop of `findLargestShapePoints`: the running maximum starts at 0 and
      is replaced only by a strictly greater perimeter. */
  function ScanLargest(contours: seq<Contour>, i: nat, best: Option<nat>): (k: Option<nat>)
    requires i <= |contours|
    requires best.None? ==> forall j :: 0 <= j < i ==> contours[j].perimeter <= 0.0
    requires best.Some? ==> best.value < i && contours[best.value].perimeter > 0.0
    requires best.Some? ==> forall j :: 0 <= j < i ==> contours[j].perimeter <= contours[best.value].perimeter
    requires best.Some? ==> forall j :: 0 <= j < best.value ==> contours[j].perimeter < contours[best.value].perimeter
    ensures k.None? ==> forall j :: 0 <= j < |contours| ==> contours[j].perimeter <= 0.0
    ensures k.Some? ==> IsFirstLargest(contours, k.value)
    decreases |contours| - i
  {
    if i == |contours| then best
    else
      var maxPerimeter := if best.None? then 0.0 else contours[best.value].perimeter;
      ScanLargest(contours, i + 1, if contours[i].perimeter > maxPerimeter then Some(i) else best)
  }

  /** `k` is the first contour of strictly positive, maximal perimeter. */
  predicate IsFirstLargest(contours: seq<Contour>, k: nat)
  {
    k < |contours| && contours[k].perimeter > 0.0 &&
    (forall j :: 0 <= j < |contours| ==> contours[j].perimeter <= contours[k].perimeter) &&
    (forall j :: 0 <= j < k ==> contours[j].perimeter < contours[k].perimeter)
  }

  /** The contour `findLargestShapePoints` keeps: the first one of strictly
      maximal perimeter, and none when no perimeter exceeds 0. */
  function LargestContourIndex(contours: seq<Contour>): (k: Option<nat>)
    ensures k.None? <==> forall j :: 0 <= j < |contours| ==> contours[j].perimeter <= 0.0
    ensures k.Some? ==> IsFirstLargest(contours, k.value)
  {
    ScanLargest(contours, 0, None)
  }

  /** `findLargestShapePoints`: the largest contour approximated with a
      tolerance of 2% of its perimeter. When no contour has a positive
      perimeter the shape stays null, and logging its size dereferences it. */
  function FindLargestShapePoints(contours: seq<Contour>, approxPolyDP: (seq<Point>, real) -> seq<Point>): (r: Result<seq<Point>>)
    ensures r.Err? <==> forall j :: 0 <= j < |contours| ==> contours[j].perimeter <= 0.0
    ensures r.Err? ==> r.error == NullPointer
    ensures r.Ok? ==>
      var k := LargestContourIndex(contours).value;
      IsFirstLargest(contours, k) &&
      r.value == approxPolyDP(contours[k].points, PerimeterMarginPercent * contours[k].perimeter)
  {
    match LargestContourIndex(contours)
    case None => Err(NullPointer)
    case Some(k) => Ok(approxPolyDP(contours[k].points, PerimeterMarginPercent * contours[k].perimeter))
  }

  /** `findCorners` after the edge image: no contours give the empty point
      set; otherwise the four rows of `approxCornerPoints`, reordered, unless
      no contour has a positive perimeter. */
  function FindCorners(contours: seq<Contour>, width: nat, height: nat,
                       approxPolyDP: (seq<Point>, real) -> seq<Point>, initialRows: seq<Point>): (r: Result<seq<Point>>)
    requires |initialRows| == 4
    ensures |contours| == 0 ==> r == Ok([])
    ensures |contours| > 0 ==> (r.Err? <==> forall j :: 0 <= j < |contours| ==> contours[j].perimeter <= 0.0)
    ensures r.Err? ==> r.error == NullPointer
    ensures |contours| > 0 && r.Ok? ==> |r.value| == 4
    ensures |contours| > 0 && r.Ok? ==>
      var shape := FindLargestShapePoints(contours, approxPolyDP).value;
      forall s :: 0 <= s < 4 ==> r.value[s] in shape || r.value[s] in initialRows
    // the four rows come back top-left, top-right, bottom-right, bottom-left
    ensures |contours| > 0 && r.Ok? ==>
      var rows := ApproxCornerPoints(FindLargestShapePoints(contours, approxPolyDP).value, width, height, initialRows).rows;
      (exists k :: IsFirstMin(Sums(rows), k) && r.value[0] == rows[k]) &&
      (exists k :: IsFirstMin(Diffs(rows), k) && r.value[1] == rows[k]) &&
      (exists k :: IsFirstMax(Sums(rows), k) && r.value[2] == rows[k]) &&
      (exists k :: IsFirstMax(Diffs(rows), k) && r.value[3] == rows[k])
  {
    if |contours| == 0 then Ok([])
    else
      match FindLargestShapePoints(contours, approxPolyDP)
      case Err(e) => Err(e)
      case Ok(shapePoints) =>
        var corners := ApproxCornerPoints(shapePoints, width, height, initialRows);
        RowsComeFromShapeOrInitial(corners, shapePoints, initialRows);
        Ok(if |corners.rows| == 4 then OrderPoints(corners.rows) else corners.rows)
  }
}
