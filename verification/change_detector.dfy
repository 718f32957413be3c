/** The two-observation persistence filter of the capture pipeline.

    A `Detector` is the state of one `ChangeDetector` object: the difference
    image of the previous call, or nothing before the first call. Each call to
    `DetectChanges` reports the pixels whose difference was exactly 255 both in
    the previous call and in this one, and returns the detector that remembers
    this call's difference.
 */
module ChangeDetector {
  import opened Outcomes
  import opened Frames

  /** The `prevImgChanges` field: null until the first call. */
  datatype Detector = Detector(prevImgChanges: Option<Frame>)

  /** `new ChangeDetector()`. */
  const Fresh: Detector := Detector(None)

  /** The result of one call: the persistent-change mask and the updated detector. */
  datatype Detection = Detection(changes: Frame, next: Detector)

  /** `Core.absdiff` of two single-channel frames. */
  function AbsDiff(a: Frame, b: Frame): (d: Frame)
    requires SameShape(a, b)
    ensures SameShape(d, a)
    ensures forall i :: 0 <= i < |d.data| ==> (d.data[i] == 0 <==> a.data[i] == b.data[i])
    ensures forall i :: 0 <= i < |d.data| ==> (d.data[i] == 255 <==> Opposite(a.data[i], b.data[i]))
  {
    Frame(a.rows, a.cols, seq(|a.data|, i requires 0 <= i < |a.data| => Dist(a.data[i], b.data[i])))
  }

  /** `getPersistentChanges`: a black `rows` x `cols` frame, white exactly where
      both the previous and the current difference are 255. Without a previous
      difference the frame stays black. */
  function PersistentChanges(prev: Option<Frame>, current: Frame, rows: nat, cols: nat): (r: Frame)
    requires current.Valid() && |current.data| == rows * cols
    requires prev.Some? ==> |prev.value.data| == |current.data|
    ensures r.Valid() && r.rows == rows && r.cols == cols && IsBinary(r)
    ensures prev.None? ==> forall i :: 0 <= i < |r.data| ==> r.data[i] == 0
    ensures prev.Some? ==>
      forall i :: 0 <= i < |r.data| ==>
        (r.data[i] == 255 <==> prev.value.data[i] == 255 && current.data[i] == 255)
  {
    var zeros := Filled(rows, cols, 0);
    match prev
    case None => zeros
    case Some(p) =>
      Frame(rows, cols, seq(|zeros.data|, i requires 0 <= i < |zeros.data| =>
        if IsSet(p.data[i]) && IsSet(current.data[i]) then 255 else zeros.data[i]))
  }

  /** The inputs a call accepts: two frames of one shape, and a remembered
      difference (if any) of that shape too. */
  predicate Accepts(d: Detector, img1: Frame, img2: Frame)
  {
    SameShape(img1, img2) &&
    (d.prevImgChanges.Some? ==> SameShape(d.prevImgChanges.value, img1))
  }

  /** `detectChanges(img1, img2)`. */
  function DetectChanges(d: Detector, img1: Frame, img2: Frame): (r: Detection)
    requires Accepts(d, img1, img2)
    ensures SameShape(r.changes, img1) && IsBinary(r.changes)
    ensures r.next.prevImgChanges == Some(AbsDiff(img1, img2))
    ensures d.prevImgChanges.None? ==> forall i :: 0 <= i < |r.changes.data| ==> r.changes.data[i] == 0
    ensures d.prevImgChanges.Some? ==>
      forall i :: 0 <= i < |r.changes.data| ==>
        (r.changes.data[i] == 255 <==>
           d.prevImgChanges.value.data[i] == 255 && Opposite(img1.data[i], img2.data[i]))
  {
    var current := AbsDiff(img1, img2);
    var persistent := PersistentChanges(d.prevImgChanges, current, img1.rows, img1.cols);
    Detection(persistent, Detector(Some(current)))
  }

  /** Comparing a frame with itself never reports a change, whatever came before. */
  lemma IdenticalInputsReportNothing(d: Detector, x: Frame)
    requires Accepts(d, x, x)
    ensures forall i :: 0 <= i < |x.data| ==> DetectChanges(d, x, x).changes.data[i] == 0
  {
  }

  /** Two consecutive calls: the second reports a pixel exactly when it differed
      by 255 in both calls, so a flicker seen in only one of them is suppressed. */
  lemma SecondCallNeedsBothDifferences(d: Detector, a1: Frame, b1: Frame, a2: Frame, b2: Frame, i: int)
    requires Accepts(d, a1, b1) && SameShape(a2, a1) && SameShape(b2, a1)
    requires 0 <= i < |a1.data|
    ensures var first := DetectChanges(d, a1, b1);
            var second := DetectChanges(first.next, a2, b2);
            second.changes.data[i] == (if Opposite(a1.data[i], b1.data[i]) && Opposite(a2.data[i], b2.data[i]) then 255 else 0)
  {
  }

  /** A stream of comparisons fed to one detector: every pair of one shape, and
      the detector's remembered difference (if any) of that shape. */
  predicate AcceptsAll(d: Detector, pairs: seq<(Frame, Frame)>)
  {
    |pairs| > 0 ==>
      Accepts(d, pairs[0].0, pairs[0].1) &&
      forall k :: 0 <= k < |pairs| ==> SameShape(pairs[k].0, pairs[0].0) && SameShape(pairs[k].1, pairs[0].0)
  }

  /** The masks returned by feeding `pairs` to the detector in order. */
  function Run(d: Detector, pairs: seq<(Frame, Frame)>): (outs: seq<Frame>)
    requires AcceptsAll(d, pairs)
    ensures |outs| == |pairs|
    ensures forall k :: 0 <= k < |outs| ==> SameShape(outs[k], pairs[k].0) && IsBinary(outs[k])
    decreases |pairs|
  {
    if |pairs| == 0 then []
    else
      var r := DetectChanges(d, pairs[0].0, pairs[0].1);
      assert AcceptsAll(r.next, pairs[1..]) by {
        if |pairs| > 1 {
          assert SameShape(pairs[1].0, pairs[0].0);
        }
      }
      [r.changes] + Run(r.next, pairs[1..])
  }

  /** Over any stream of calls, every mask after the first marks exactly the
      pixels that differed by 255 in that call and in the call before it. */
  lemma {:induction false} RunMarksRepeatedDifferences(d: Detector, pairs: seq<(Frame, Frame)>, k: nat, i: nat)
    requires AcceptsAll(d, pairs)
    requires 1 <= k < |pairs| && i < |pairs[0].0.data|
    ensures i < |Run(d, pairs)[k].data|
    ensures Run(d, pairs)[k].data[i] == 255 <==>
              Opposite(pairs[k - 1].0.data[i], pairs[k - 1].1.data[i]) &&
              Opposite(pairs[k].0.data[i], pairs[k].1.data[i])
    decreases k
  {
    var r := DetectChanges(d, pairs[0].0, pairs[0].1);
    var rest := pairs[1..];
    assert AcceptsAll(r.next, rest) by {
      assert SameShape(pairs[1].0, pairs[0].0);
    }
    assert Run(d, pairs) == [r.changes] + Run(r.next, rest);
    assert Run(d, pairs)[k] == Run(r.next, rest)[k - 1];
    if k == 1 {
      var r1 := DetectChanges(r.next, rest[0].0, rest[0].1);
      assert Run(r.next, rest)[0] == r1.changes;
    } else {
      assert rest[0].0.rows == pairs[0].0.rows && rest[0].0.cols == pairs[0].0.cols;
      RunMarksRepeatedDifferences(r.next, rest, k - 1, i);
      assert rest[k - 1] == pairs[k] && rest[k - 2] == pairs[k - 1];
    }
  }

  /** The scenario of the source's detector test: a fresh detector called twice
      with the same pair reports nothing first, then exactly the pixels where
      the pair is black against white. */
  lemma RepeatedPairIsReportedOnSecondCall(a: Frame, b: Frame)
    requires SameShape(a, b)
    ensures var first := DetectChanges(Fresh, a, b);
            var second := DetectChanges(first.next, a, b);
            (forall i :: 0 <= i < |a.data| ==> first.changes.data[i] == 0) &&
            (forall i :: 0 <= i < |a.data| ==> second.changes.data[i] == (if Opposite(a.data[i], b.data[i]) then 255 else 0))
  {
  }
}
