/**
 * The `useFaceDetection` hook as an object: its React state and refs
 * become fields, its callbacks become methods that update those fields in
 * the order the hook does, and each method is proved to produce the state
 * the matching specification function of DetectionLoop describes.
 */
module FaceDetectionHook {
  import opened Wrappers
  import opened FaceBoxCodec
  import HT = HeadTurnTracker
  import CD = ConfirmationDebouncer
  import opened DetectionLoop

  class FaceDetectionEngine {
    // observable state
    var isModelLoaded: bool
    var isDetecting: bool
    var faceDetected: bool
    var headTurnDetected: bool
    var currentFace: Option<FaceBox>
    var error: Option<string>
    // working set
    var headPositions: seq<real>
    var consecutive: int
    var lastTimestamp: real
    var capturedHeadTurn: bool
    // resources
    var hasDetector: bool
    var timerActive: bool

    /** The engine's fields as one value. */
    function State(): (s: EngineState)
      reads this
    {
      EngineState(isModelLoaded, isDetecting, faceDetected, headTurnDetected, currentFace, error,
                  headPositions, consecutive, lastTimestamp, capturedHeadTurn, hasDetector, timerActive)
    }

    ghost predicate Valid()
      reads this
    {
      Inv(State())
    }

    /** Mounting the hook: every `useState`/`useRef` at its initial value. */
    constructor ()
      ensures Valid()
      ensures State() == Initial()
    {
      isModelLoaded, isDetecting, faceDetected, headTurnDetected := false, false, false, false;
      currentFace, error := None, None;
      headPositions, consecutive, lastTimestamp, capturedHeadTurn := [], 0, NoTimestamp, false;
      hasDetector, timerActive := false, false;
    }

    /** loadModels, with the asset and runtime calls replaced by their outcome. */
    method LoadModels(loadSucceeds: bool)
      requires Valid()
      modifies this
      ensures Valid()
      ensures State() == Load(old(State()), loadSucceeds)
    {
      error := None;
      if loadSucceeds {
        hasDetector := true;
        isModelLoaded := true;
      } else {
        error := Some(LoadFailedMessage);
        isModelLoaded := false;
      }
    }

    /** startDetection: the guard, the session reset, the closure state and the timer. */
    method StartDetection()
      requires Valid()
      modifies this
      ensures Valid()
      ensures State() == Start(old(State()))
    {
      ghost var target := Start(State());
      if !isModelLoaded || !hasDetector {
        error := Some(NotReadyMessage);
        return;
      }
      isDetecting := true;
      faceDetected := false;
      capturedHeadTurn := headTurnDetected;
      headTurnDetected := false;
      currentFace := None;
      headPositions := [];
      consecutive := 0;
      lastTimestamp := NoTimestamp;
      timerActive := true;
      assert State() == target;
    }

    /** detectHeadTurn: push the centre, shift past the cap, latch on a wide spread. */
    method DetectHeadTurn(faceBox: FaceBox) returns (turned: bool)
      modifies this
      ensures State() == Track(old(State()), faceBox)
      ensures turned == HT.TurnDetected(headPositions)
    {
      var centerX := HT.CenterX(faceBox);
      var positions := headPositions + [centerX];
      if |positions| > HT.HistoryCap {
        positions := positions[1..];
      }
      headPositions := positions;
      turned := false;
      if |positions| >= HT.MinSamples {
        var range := HT.SeqMax(positions) - HT.SeqMin(positions);
        if range > HT.TurnThreshold {
          headTurnDetected := true;
          turned := true;
        }
      }
    }

    /** One firing of the interval callback, which only fires while its timer exists. */
    method Tick(video: VideoFrame, timestamp: real, outcome: DetectOutcome)
      requires Valid() && timerActive
      modifies this
      ensures Valid()
      ensures State() == DetectionLoop.Tick(old(State()), video, timestamp, outcome)
    {
      if video.paused || video.ended || !hasDetector {
        return;
      }
      if timestamp == lastTimestamp {
        return;
      }
      lastTimestamp := timestamp;
      match outcome {
        case Throws =>
        case Detections(ds) =>
          if |ds| > 0 {
            consecutive := consecutive + 1;
            if consecutive >= CD.ConfirmTicks {
              faceDetected := true;
              var converted := ConvertToFaceBox(ds[0], video.videoWidth, video.videoHeight);
              if converted.Success? {
                currentFace := Some(converted.value);
                if !capturedHeadTurn {
                  var _ := DetectHeadTurn(converted.value);
                }
              }
            }
          } else {
            consecutive := if 0 > consecutive - 1 then 0 else consecutive - 1;
            if consecutive == 0 {
              faceDetected := false;
              currentFace := None;
            }
          }
      }
    }

    /** stopDetection: clear the timer if there is one; detection is off. */
    method StopDetection()
      requires Valid()
      modifies this
      ensures Valid()
      ensures State() == Stop(old(State()))
    {
      if timerActive {
        timerActive := false;
      }
      isDetecting := false;
    }

    /** resetDetection: stop, then clear the flags, the face and the working set. */
    method ResetDetection()
      requires Valid()
      modifies this
      ensures Valid()
      ensures State() == Reset(old(State()))
    {
      StopDetection();
      faceDetected := false;
      headTurnDetected := false;
      currentFace := None;
      headPositions := [];
      consecutive := 0;
    }

    /** The unmount cleanup: stop, then close and drop the detector if there is one. */
    method Cleanup()
      requires Valid()
      modifies this
      ensures Valid()
      ensures State() == DetectionLoop.Cleanup(old(State()))
    {
      StopDetection();
      if hasDetector {
        hasDetector := false;
      }
    }
  }

  /**
   * A check-in session driven through the object: a start refused before
   * loading, load, start, two frames with a face, a dropped frame, a
   * repeated timestamp, and the third face frame that confirms presence.
   */
  method CheckInSession(d: Detection) returns (e: FaceDetectionEngine)
    requires |d.categories| > 0
    ensures fresh(e) && e.Valid() && e.timerActive && e.isModelLoaded
    ensures e.consecutive == 3 && e.faceDetected && e.currentFace.Some? && e.lastTimestamp == 400.0
  {
    e := new FaceDetectionEngine();
    e.StartDetection();
    assert e.error == Some(NotReadyMessage) && !e.isDetecting;
    e.LoadModels(true);
    assert e.error == None && e.isModelLoaded;
    e.StartDetection();
    var v := VideoFrame(false, false, 640.0, 480.0);
    e.Tick(v, 100.0, Detections([d]));
    e.Tick(v, 200.0, Detections([d]));
    assert e.consecutive == 2 && !e.faceDetected;
    e.Tick(v, 300.0, Throws);
    assert e.consecutive == 2 && e.lastTimestamp == 300.0;
    e.Tick(v, 300.0, Detections([d]));
    assert e.consecutive == 2 && !e.faceDetected;
    e.Tick(v, 400.0, Detections([d]));
  }

  /** The session continued: one empty frame keeps presence, and a reset clears it. */
  method CheckInSessionEnds(d: Detection)
    requires |d.categories| > 0
  {
    var e := CheckInSession(d);
    e.Tick(VideoFrame(false, false, 640.0, 480.0), 500.0, Detections([]));
    assert e.consecutive == 2 && e.faceDetected;
    e.ResetDetection();
    assert !e.faceDetected && e.currentFace == None && !e.isDetecting && e.isModelLoaded;
  }
}
