/** Concrete runs of the codec, the tracker and the loop. */
module Scenarios {
  import opened Wrappers
  import opened FaceBoxCodec
  import HT = HeadTurnTracker
  import opened DetectionLoop

  /** The detection `{12.6, 8.2, 50.4, 60.9, score 0.873}` becomes `[13, 8, 50, 61, 0.87]`. */
  lemma CodecExample()
    ensures ConvertToFaceBox(Detection(BoundingBox(12.6, 8.2, 50.4, 60.9), [Category(0.873)]), 640.0, 480.0)
            == Success(FaceBox(13, 8, 50, 61, 0.87))
  {
  }

  /** A detection whose category list is empty cannot be converted. */
  lemma CodecMissingCategory()
    ensures ConvertToFaceBox(Detection(BoundingBox(12.6, 8.2, 50.4, 60.9), []), 640.0, 480.0)
            == Failure(MissingCategory)
  {
  }

  /** Centres of a face held still: the detector's jitter spans 4 pixels. */
  const StaticCenters: seq<real> := [100.0, 101.0, 99.0, 100.0, 102.0, 98.0, 101.0, 99.0, 100.0, 101.0]

  /** Centres of a head turning steadily from 100 to 150 pixels. */
  const RampCenters: seq<real> := [100.0, 105.0, 112.0, 120.0, 128.0, 135.0, 141.0, 145.0, 148.0, 150.0]

  /** Ten jittering centres with a range of 4 pixels do not latch. */
  lemma StaticFaceDoesNotLatch()
    ensures !HT.TurnDetected(StaticCenters)
  {
    assert forall i :: 0 <= i < |StaticCenters| ==> 98.0 <= StaticCenters[i] <= 102.0;
    HT.NarrowBandNoTurn(StaticCenters, 98.0, 102.0);
  }

  /** Feeding the ramp one centre at a time latches on the tenth sample and not before. */
  lemma RampLatchesOnTenthSample()
    ensures HT.PushAll([], RampCenters) == RampCenters
    ensures HT.TurnDetected(HT.PushAll([], RampCenters))
    ensures forall k :: 0 <= k < |RampCenters| ==> !HT.TurnDetected(HT.PushAll([], RampCenters[..k]))
  {
    HT.PushAllFromEmpty(RampCenters);
    assert RampCenters[9] - RampCenters[0] > HT.TurnThreshold;
    HT.TurnMeansSpread(RampCenters);
    forall k | 0 <= k < |RampCenters| ensures !HT.TurnDetected(HT.PushAll([], RampCenters[..k])) {
      HT.PushAllFromEmpty(RampCenters[..k]);
    }
  }

  /** Nine samples spread over 100 pixels are not enough evidence to decide. */
  lemma NineSamplesMakeNoDetermination()
    ensures var h := [100.0, 200.0, 100.0, 200.0, 100.0, 200.0, 100.0, 200.0, 100.0];
      h[1] - h[0] == 100.0 && !HT.TurnDetected(h)
  {
  }

  /** A face detector result with one detection. */
  function Face(): (outcome: DetectOutcome) {
    Detections([Detection(BoundingBox(12.6, 8.2, 50.4, 60.9), [Category(0.873)])])
  }

  /**
   * Present, present, absent, present, present: the counter goes
   * 1, 2, 1, 2, 3 and the face is first reported on the fifth tick.
   */
  lemma PresenceNeedsThreeNetTicks()
    ensures var v := VideoFrame(false, false, 640.0, 480.0);
      var s0 := Start(Load(Initial(), true));
      var s1 := Tick(s0, v, 100.0, Face());
      var s2 := Tick(s1, v, 200.0, Face());
      var s3 := Tick(s2, v, 300.0, Detections([]));
      var s4 := Tick(s3, v, 400.0, Face());
      var s5 := Tick(s4, v, 500.0, Face());
      && [s1.consecutive, s2.consecutive, s3.consecutive, s4.consecutive, s5.consecutive] == [1, 2, 1, 2, 3]
      && !s1.faceDetected && !s2.faceDetected && !s3.faceDetected && !s4.faceDetected && s5.faceDetected
      && s5.currentFace == Some(FaceBox(13, 8, 50, 61, 0.87))
      && s5.headPositions == [38.0]
  {
  }
}
