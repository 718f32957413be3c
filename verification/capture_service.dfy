/** The service that owns the running model image of the whiteboard.

    One `capture` call masks the occluded pixels out of both the binarized
    frame and a copy of the model, runs the change detector on the two, and
    copies the frame into the model wherever the detector reports a persistent
    change. Segmentation and binarization are foreign stages: their outputs,
    the occluder mask `segMap` and the binarized frame, are inputs here.
 */
module CaptureService {
  import opened Frames
  import CD = ChangeDetector

  /** The fields of a `CaptureService` object that the pipeline reads and writes. */
  datatype Service = Service(currentModel: Frame, changeDetector: CD.Detector)

  /** The state every call keeps: a well-formed model, and a remembered
      difference (if any) of the model's dimensions. */
  predicate Valid(s: Service)
  {
    s.currentModel.Valid() &&
    (s.changeDetector.prevImgChanges.Some? ==> SameShape(s.changeDetector.prevImgChanges.value, s.currentModel))
  }

  /** The frames a call accepts: binarized frame and occluder mask of the model's dimensions. */
  predicate Fits(s: Service, binarized: Frame, segMap: Frame)
  {
    Valid(s) && SameShape(binarized, s.currentModel) && SameShape(segMap, s.currentModel)
  }

  /** The constructor: a `defaultHeight` x `defaultWidth` white model and a fresh detector. */
  function New(defaultWidth: nat, defaultHeight: nat): (s: Service)
    ensures Valid(s)
    ensures s.currentModel.rows == defaultHeight && s.currentModel.cols == defaultWidth
    ensures forall i :: 0 <= i < |s.currentModel.data| ==> s.currentModel.data[i] == 255
    ensures s.changeDetector.prevImgChanges.None?
  {
    Service(Filled(defaultHeight, defaultWidth, 255), CD.Fresh)
  }

  /** The two buffers `removeSegmentArea` leaves behind: the binarized frame,
      which it overwrites in place, and the copy of the model it returns. */
  datatype Masked = Masked(binarized: Frame, modelCopy: Frame)

  /** `removeSegmentArea`: forces occluded pixels to white in the frame and in a copy of the model. */
  function RemoveSegmentArea(binarized: Frame, currentModel: Frame, segMap: Frame): (m: Masked)
    requires SameShape(binarized, currentModel) && SameShape(segMap, currentModel)
    ensures SameShape(m.binarized, binarized) && SameShape(m.modelCopy, currentModel)
    ensures forall i :: 0 <= i < |segMap.data| && segMap.data[i] == 255 ==>
              m.binarized.data[i] == 255 && m.modelCopy.data[i] == 255
    ensures forall i :: 0 <= i < |segMap.data| && segMap.data[i] != 255 ==>
              m.binarized.data[i] == binarized.data[i] && m.modelCopy.data[i] == currentModel.data[i]
  {
    var n := |binarized.data|;
    Masked(
      Frame(binarized.rows, binarized.cols, seq(n, i requires 0 <= i < n =>
        if IsSet(segMap.data[i]) then 255 else binarized.data[i])),
      Frame(currentModel.rows, currentModel.cols, seq(n, i requires 0 <= i < n =>
        if IsSet(segMap.data[i]) then 255 else currentModel.data[i])))
  }

  /** `updateModel`: takes the frame's pixel wherever the change mask is white. */
  function UpdateModel(currentModel: Frame, binarized: Frame, changes: Frame): (r: Frame)
    requires SameShape(binarized, currentModel) && SameShape(changes, currentModel)
    ensures SameShape(r, currentModel)
    ensures forall i :: 0 <= i < |r.data| && changes.data[i] == 255 ==> r.data[i] == binarized.data[i]
    ensures forall i :: 0 <= i < |r.data| && changes.data[i] != 255 ==> r.data[i] == currentModel.data[i]
  {
    var n := |currentModel.data|;
    Frame(currentModel.rows, currentModel.cols, seq(n, i requires 0 <= i < n =>
      if IsSet(changes.data[i]) then binarized.data[i] else currentModel.data[i]))
  }

  /** The commit rule for pixel `i`: the previous call saw it differ by 255,
      it is not occluded now, and the frame still differs from the model by 255. */
  predicate Commits(s: Service, binarized: Frame, segMap: Frame, i: int)
    requires Fits(s, binarized, segMap) && 0 <= i < |s.currentModel.data|
  {
    s.changeDetector.prevImgChanges.Some? &&
    s.changeDetector.prevImgChanges.value.data[i] == 255 &&
    segMap.data[i] != 255 &&
    Opposite(binarized.data[i], s.currentModel.data[i])
  }

  /** `capture`: one tick of the pipeline. The returned service's model is the
      Mat the source returns, which is the service's own model. */
  function Capture(s: Service, binarized: Frame, segMap: Frame): (r: Service)
    requires Fits(s, binarized, segMap)
    ensures Valid(r) && SameShape(r.currentModel, s.currentModel)
    ensures forall i :: 0 <= i < |s.currentModel.data| ==>
              r.currentModel.data[i] ==
                (if Commits(s, binarized, segMap, i) then binarized.data[i] else s.currentModel.data[i])
    ensures r.changeDetector.prevImgChanges.Some?
    ensures forall i :: 0 <= i < |s.currentModel.data| ==>
              r.changeDetector.prevImgChanges.value.data[i] ==
                (if segMap.data[i] == 255 then 0 else Dist(binarized.data[i], s.currentModel.data[i]))
    // occluded pixels of the model are never written
    ensures forall i :: 0 <= i < |s.currentModel.data| && segMap.data[i] == 255 ==>
              r.currentModel.data[i] == s.currentModel.data[i]
    // the first call after construction writes nothing
    ensures s.changeDetector.prevImgChanges.None? ==> r.currentModel == s.currentModel
    ensures IsBinary(s.currentModel) && IsBinary(binarized) ==> IsBinary(r.currentModel)
  {
    var masked := RemoveSegmentArea(binarized, s.currentModel, segMap);
    var detection := CD.DetectChanges(s.changeDetector, masked.binarized, masked.modelCopy);
    var model := UpdateModel(s.currentModel, masked.binarized, detection.changes);
    assert s.changeDetector.prevImgChanges.None? ==> model.data == s.currentModel.data;
    Service(model, detection.next)
  }

  /** A pixel changes on the second of two consecutive captures exactly when it
      was unoccluded and differed from the model by 255 in both; it then takes
      the frame's value. */
  lemma ChangeNeedsTwoObservations(s0: Service, b1: Frame, m1: Frame, b2: Frame, m2: Frame, i: int)
    requires Fits(s0, b1, m1) && SameShape(b2, b1) && SameShape(m2, b1)
    requires 0 <= i < |s0.currentModel.data|
    ensures var s1 := Capture(s0, b1, m1);
            var s2 := Capture(s1, b2, m2);
            (s2.currentModel.data[i] != s1.currentModel.data[i] <==>
               m1.data[i] != 255 && Opposite(b1.data[i], s0.currentModel.data[i]) &&
               m2.data[i] != 255 && Opposite(b2.data[i], s1.currentModel.data[i])) &&
            (s2.currentModel.data[i] != s1.currentModel.data[i] ==> s2.currentModel.data[i] == b2.data[i])
  {
    var s1 := Capture(s0, b1, m1);
    assert Fits(s1, b2, m2);
    if m1.data[i] == 255 {
      assert s1.changeDetector.prevImgChanges.value.data[i] == 0;
    }
  }

  /** The frames of a capture session, one (binarized frame, occluder mask) pair per tick. */
  predicate FitsAll(s: Service, frames: seq<(Frame, Frame)>)
  {
    Valid(s) &&
    forall k :: 0 <= k < |frames| ==> SameShape(frames[k].0, s.currentModel) && SameShape(frames[k].1, s.currentModel)
  }

  /** The service after capturing every frame of a session in order. */
  function CaptureAll(s: Service, frames: seq<(Frame, Frame)>): (r: Service)
    requires FitsAll(s, frames)
    ensures Valid(r) && SameShape(r.currentModel, s.currentModel)
    decreases |frames|
  {
    if |frames| == 0 then s
    else CaptureAll(Capture(s, frames[0].0, frames[0].1), frames[1..])
  }

  /** A model that starts binary stays binary while every binarized frame is binary. */
  lemma {:induction false} SessionKeepsModelBinary(s: Service, frames: seq<(Frame, Frame)>)
    requires FitsAll(s, frames) && IsBinary(s.currentModel)
    requires forall k :: 0 <= k < |frames| ==> IsBinary(frames[k].0)
    ensures IsBinary(CaptureAll(s, frames).currentModel)
    decreases |frames|
  {
    if |frames| > 0 {
      var s1 := Capture(s, frames[0].0, frames[0].1);
      SessionKeepsModelBinary(s1, frames[1..]);
    }
  }

  /** A pixel occluded in every frame of a session keeps its value throughout. */
  lemma {:induction false} SessionFreezesOccludedPixel(s: Service, frames: seq<(Frame, Frame)>, i: int)
    requires FitsAll(s, frames) && 0 <= i < |s.currentModel.data|
    requires forall k :: 0 <= k < |frames| ==> frames[k].1.data[i] == 255
    ensures CaptureAll(s, frames).currentModel.data[i] == s.currentModel.data[i]
    decreases |frames|
  {
    if |frames| > 0 {
      var s1 := Capture(s, frames[0].0, frames[0].1);
      SessionFreezesOccludedPixel(s1, frames[1..], i);
    }
  }

  /** The end-to-end session: on a blank model, an unoccluded binary frame `a`
      leaves the model blank on its first capture and becomes the model on its
      second; a third frame that agrees with `a` wherever it is not occluded
      leaves the model as it is. */
  lemma BlankSessionScenario(width: nat, height: nat, a: Frame, clear: Frame, c: Frame, occluder: Frame)
    requires a.rows == height && a.cols == width && a.Valid() && IsBinary(a)
    requires SameShape(clear, a) && forall i :: 0 <= i < |clear.data| ==> clear.data[i] == 0
    requires SameShape(c, a) && SameShape(occluder, a)
    requires forall i :: 0 <= i < |c.data| && occluder.data[i] != 255 ==> c.data[i] == a.data[i]
    ensures var s0 := New(width, height);
            var s1 := Capture(s0, a, clear);
            var s2 := Capture(s1, a, clear);
            var s3 := Capture(s2, c, occluder);
            s1.currentModel == s0.currentModel && s2.currentModel == a && s3.currentModel == a
  {
    var s0 := New(width, height);
    var s1 := Capture(s0, a, clear);
    var s2 := Capture(s1, a, clear);
    assert s2.currentModel.data == a.data by {
      forall i | 0 <= i < |a.data|
        ensures s2.currentModel.data[i] == a.data[i]
      {
        assert s1.currentModel.data[i] == 255;
      }
    }
    var s3 := Capture(s2, c, occluder);
    assert s3.currentModel.data == a.data by {
      forall i | 0 <= i < |a.data|
        ensures s3.currentModel.data[i] == a.data[i]
      {
        if occluder.data[i] != 255 {
          assert !Opposite(c.data[i], s2.currentModel.data[i]);
        }
      }
    }
  }
}
