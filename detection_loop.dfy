/**
 * The detection loop as a state machine over values: the engine's whole
 * state, one specification function per operation of the hook, the
 * invariant every operation keeps, and what runs of ticks guarantee.
 */
module DetectionLoop {
  import opened Wrappers
  import opened FaceBoxCodec
  import HT = HeadTurnTracker
  import CD = ConfirmationDebouncer

  /** The message set when detection is started before the model is ready. */
  const NotReadyMessage: string := "Model belum siap. Tunggu sebentar..."
  /** The message set when loading the model fails. */
  const LoadFailedMessage: string := "Gagal memuat model pengenalan wajah. Coba refresh halaman."
  /** The closure's `lastTimestamp` before the first processed tick of a session. */
  const NoTimestamp: real := -1.0

  /** What a tick reads of the video element captured at start. */
  datatype VideoFrame = VideoFrame(paused: bool, ended: bool, videoWidth: real, videoHeight: real)

  /** What the detector call of one tick does: throw, or return its ranked detections. */
  datatype DetectOutcome = Throws | Detections(detections: seq<Detection>)

  /** One firing of the interval callback. */
  datatype TickInput = TickInput(video: VideoFrame, timestamp: real, outcome: DetectOutcome)

  /**
   * The engine's state: the six observable fields, the working set
   * (history, counter, the closure's last timestamp and its captured
   * `headTurnDetected`), and the two resources (detector, timer).
   */
  datatype EngineState = EngineState(
    isModelLoaded: bool,
    isDetecting: bool,
    faceDetected: bool,
    headTurnDetected: bool,
    currentFace: Option<FaceBox>,
    error: Option<string>,
    headPositions: seq<real>,
    consecutive: int,
    lastTimestamp: real,
    capturedHeadTurn: bool,
    hasDetector: bool,
    timerActive: bool)

  /** The invariant every operation keeps. */
  predicate Inv(s: EngineState) {
    && s.consecutive >= 0
    && (s.consecutive == 0 ==> !s.faceDetected && s.currentFace == None)
    && (CD.Confirmed(s.consecutive) ==> s.faceDetected)
    && (s.currentFace.Some? ==> s.faceDetected)
    && |s.headPositions| <= HT.HistoryCap
    && (s.headTurnDetected ==> |s.headPositions| >= HT.MinSamples)
    && (s.isDetecting <==> s.timerActive)
    && (s.timerActive ==> s.hasDetector)
  }

  /** `r` has the same model, detector, timer, error and captured latch as `s`: what a tick never touches. */
  predicate SameLifecycle(s: EngineState, r: EngineState) {
    && r.isModelLoaded == s.isModelLoaded && r.isDetecting == s.isDetecting && r.error == s.error
    && r.capturedHeadTurn == s.capturedHeadTurn && r.hasDetector == s.hasDetector
    && r.timerActive == s.timerActive
  }

  /** The state right after the hook mounts. */
  function Initial(): (r: EngineState)
    ensures Inv(r)
    ensures !r.isModelLoaded && !r.hasDetector && !r.timerActive
  {
    EngineState(false, false, false, false, None, None, [], 0, NoTimestamp, false, false, false)
  }

  /**
   * loadModels with the asset and runtime calls abstracted to whether they
   * succeed: the error is cleared first; success installs a detector and
   * marks the model loaded, failure records the message and leaves the
   * detector reference as it was.
   */
  function Load(s: EngineState, succeeds: bool): (r: EngineState)
    ensures Inv(s) ==> Inv(r)
  {
    var cleared := s.(error := None);
    if succeeds then cleared.(hasDetector := true, isModelLoaded := true)
    else cleared.(error := Some(LoadFailedMessage), isModelLoaded := false)
  }

  /**
   * startDetection: refused with an error unless the model is loaded and a
   * detector exists; otherwise clears the session state, starts the timer
   * and creates the tick closure, which captures the current
   * `headTurnDetected` and a fresh `lastTimestamp`.
   */
  function Start(s: EngineState): (r: EngineState)
    ensures Inv(s) ==> Inv(r)
  {
    if !s.isModelLoaded || !s.hasDetector then s.(error := Some(NotReadyMessage))
    else
      s.(isDetecting := true, faceDetected := false, headTurnDetected := false, currentFace := None,
         headPositions := [], consecutive := 0, lastTimestamp := NoTimestamp,
         capturedHeadTurn := s.headTurnDetected, timerActive := true)
  }

  /**
   * detectHeadTurn: the box's centre is pushed onto the bounded history and
   * the latch is set when the new history shows a turn. Presence is untouched.
   */
  function Track(s: EngineState, box: FaceBox): (r: EngineState)
    ensures r.headPositions == HT.Push(s.headPositions, HT.CenterX(box))
    ensures r.headTurnDetected == (s.headTurnDetected || HT.TurnDetected(r.headPositions))
    ensures r.faceDetected == s.faceDetected && r.currentFace == s.currentFace && r.consecutive == s.consecutive
    ensures Inv(s) ==> Inv(r)
  {
    var h := HT.Push(s.headPositions, HT.CenterX(box));
    assert |s.headPositions| <= HT.HistoryCap ==> |s.headPositions| <= |h| <= HT.HistoryCap by {
      if |s.headPositions| <= HT.HistoryCap { HT.PushGrows(s.headPositions, HT.CenterX(box)); }
    }
    s.(headPositions := h, headTurnDetected := s.headTurnDetected || HT.TurnDetected(h))
  }

  /** The tick is not skipped by the paused/ended/detector guard nor by the timestamp dedup. */
  predicate Processed(s: EngineState, video: VideoFrame, timestamp: real) {
    !video.paused && !video.ended && s.hasDetector && timestamp != s.lastTimestamp
  }

  /**
   * The part of a tick after a detector call that found at least one face:
   * the counter rises; once it is confirmed, `faceDetected` is written
   * first, then the top detection is converted, published and, unless the
   * captured latch is set, fed to the tracker. A conversion that throws
   * leaves the counter and the flag written and `currentFace` untouched.
   */
  function PresentTick(s: EngineState, top: Detection, video: VideoFrame): (r: EngineState)
    ensures r.consecutive == CD.Next(s.consecutive, true)
    ensures r.faceDetected == (CD.Confirmed(r.consecutive) || s.faceDetected)
    ensures r.currentFace ==
      if CD.Confirmed(r.consecutive) && ConvertToFaceBox(top, video.videoWidth, video.videoHeight).Success?
      then Some(ConvertToFaceBox(top, video.videoWidth, video.videoHeight).value)
      else s.currentFace
  {
    var c := CD.Next(s.consecutive, true);
    if CD.Confirmed(c) then
      var s2 := s.(consecutive := c, faceDetected := true);
      match ConvertToFaceBox(top, video.videoWidth, video.videoHeight)
      case Failure(_) => s2
      case Success(box) =>
        var s3 := s2.(currentFace := Some(box));
        assert Inv(s) ==> Inv(s3);
        if !s.capturedHeadTurn then Track(s3, box) else s3
    else s.(consecutive := c)
  }

  /**
   * The part of a tick after a detector call that found no face: the
   * counter falls, floored at zero; when it reaches zero the flag and the
   * face are cleared together.
   */
  function AbsentTick(s: EngineState): (r: EngineState)
    ensures r.consecutive == CD.Next(s.consecutive, false)
    ensures r.faceDetected == (s.faceDetected && !CD.Drained(r.consecutive))
    ensures r.currentFace == if CD.Drained(r.consecutive) then None else s.currentFace
    ensures r.headPositions == s.headPositions && r.headTurnDetected == s.headTurnDetected
    ensures r.lastTimestamp == s.lastTimestamp && SameLifecycle(s, r)
    ensures Inv(s) ==> Inv(r)
  {
    var c := CD.Next(s.consecutive, false);
    if CD.Drained(c) then s.(consecutive := c, faceDetected := false, currentFace := None)
    else s.(consecutive := c)
  }

  /**
   * One firing of the interval callback: the paused/ended/detector guard,
   * the timestamp dedup, then the detector call, whose throw is caught and
   * otherwise ignored.
   */
  function Tick(s: EngineState, video: VideoFrame, timestamp: real, outcome: DetectOutcome): (r: EngineState)
    ensures SameLifecycle(s, r)
    ensures Inv(s) ==> Inv(r)
  {
    if !Processed(s, video, timestamp) then s
    else
      var s1 := s.(lastTimestamp := timestamp);
      match outcome
      case Throws => s1
      case Detections(ds) =>
        if |ds| > 0 then PresentTick(s1, ds[0], video) else AbsentTick(s1)
  }

  /** stopDetection: clears the timer if there is one and marks detection stopped. */
  function Stop(s: EngineState): (r: EngineState)
    ensures Inv(s) ==> Inv(r)
  {
    s.(timerActive := false, isDetecting := false)
  }

  /** resetDetection: stop, then clear the detection flags, the face and the working set. */
  function Reset(s: EngineState): (r: EngineState)
    ensures Inv(s) ==> Inv(r)
  {
    Stop(s).(faceDetected := false, headTurnDetected := false, currentFace := None,
             headPositions := [], consecutive := 0)
  }

  /** The unmount cleanup: stop, then close and drop the detector if there is one. */
  function Cleanup(s: EngineState): (r: EngineState)
    ensures Inv(s) ==> Inv(r)
  {
    var stopped := Stop(s);
    if stopped.hasDetector then stopped.(hasDetector := false) else stopped
  }

  /** The state after a run of ticks, in order. */
  function Run(s: EngineState, ticks: seq<TickInput>): (r: EngineState)
    decreases |ticks|
  {
    if ticks == [] then s
    else Run(Tick(s, ticks[0].video, ticks[0].timestamp, ticks[0].outcome), ticks[1..])
  }

  // ---------------------------------------------------------------------
  // Model handle
  // ---------------------------------------------------------------------

  /** A successful load leaves the model ready with no error and a detector. */
  lemma LoadSucceeds(s: EngineState)
    ensures Load(s, true).isModelLoaded && Load(s, true).hasDetector && Load(s, true).error == None
    ensures Load(s, true) == s.(isModelLoaded := true, hasDetector := true, error := None)
  {
  }

  /** A failed load reports the message, is not loaded, and touches nothing else. */
  lemma LoadFails(s: EngineState)
    ensures Load(s, false) == s.(isModelLoaded := false, error := Some(LoadFailedMessage))
  {
  }

  /** Repeating a load with the same outcome changes nothing more. */
  lemma LoadRepeatable(s: EngineState, succeeds: bool)
    ensures Load(Load(s, succeeds), succeeds) == Load(s, succeeds)
  {
  }

  /** After cleanup no timer runs and no detector is held; cleaning up twice is the same as once. */
  lemma CleanupReleases(s: EngineState)
    ensures !Cleanup(s).timerActive && !Cleanup(s).isDetecting && !Cleanup(s).hasDetector
    ensures Cleanup(Cleanup(s)) == Cleanup(s)
    ensures Cleanup(s) == s.(timerActive := false, isDetecting := false, hasDetector := false)
  {
  }

  /** A released detector is never used: ticks and starts after cleanup process nothing. */
  lemma {:induction false} NothingRunsAfterCleanup(s: EngineState, ticks: seq<TickInput>)
    ensures Run(Cleanup(s), ticks) == Cleanup(s)
    ensures Start(Cleanup(s)) == Cleanup(s).(error := Some(NotReadyMessage))
    decreases |ticks|
  {
    if ticks != [] {
      var c := Cleanup(s);
      assert Tick(c, ticks[0].video, ticks[0].timestamp, ticks[0].outcome) == c;
      NothingRunsAfterCleanup(s, ticks[1..]);
    }
  }

  // ---------------------------------------------------------------------
  // Start, stop, reset
  // ---------------------------------------------------------------------

  /** Starting without a loaded model or without a detector only sets the error. */
  lemma StartRefused(s: EngineState)
    requires !s.isModelLoaded || !s.hasDetector
    ensures Start(s) == s.(error := Some(NotReadyMessage))
  {
  }

  /**
   * A successful start runs the timer and clears the flags, the face, the
   * history and the counter, leaving the model, the detector and the error
   * as they were.
   */
  lemma StartClears(s: EngineState)
    requires s.isModelLoaded && s.hasDetector
    ensures var r := Start(s);
      && r.isDetecting && r.timerActive
      && !r.faceDetected && !r.headTurnDetected && r.currentFace == None
      && r.headPositions == [] && r.consecutive == 0 && r.lastTimestamp == NoTimestamp
      && r.capturedHeadTurn == s.headTurnDetected
      && r.isModelLoaded && r.hasDetector && r.error == s.error
  {
  }

  /** Stopping touches only the timer and `isDetecting`, and is idempotent. */
  lemma StopOnlyStops(s: EngineState)
    ensures Stop(s) == s.(timerActive := false, isDetecting := false)
    ensures Stop(Stop(s)) == Stop(s)
  {
  }

  /**
   * Reset is stop plus clearing the detection flags and the working set; it
   * leaves the model, the detector and the error alone, is idempotent, and
   * gives the same state after a stop as without one.
   */
  lemma ResetClears(s: EngineState)
    ensures var r := Reset(s);
      && !r.timerActive && !r.isDetecting
      && !r.faceDetected && !r.headTurnDetected && r.currentFace == None
      && r.headPositions == [] && r.consecutive == 0
      && r.isModelLoaded == s.isModelLoaded && r.error == s.error && r.hasDetector == s.hasDetector
    ensures Reset(Reset(s)) == Reset(s)
    ensures Reset(Stop(s)) == Reset(s)
  {
  }

  // ---------------------------------------------------------------------
  // One tick
  // ---------------------------------------------------------------------

  /** A paused or ended video, a missing detector, or a repeated timestamp changes nothing. */
  lemma TickSkipped(s: EngineState, video: VideoFrame, timestamp: real, outcome: DetectOutcome)
    requires video.paused || video.ended || !s.hasDetector || timestamp == s.lastTimestamp
    ensures Tick(s, video, timestamp, outcome) == s
  {
  }

  /** A detector call that throws keeps every field except the recorded timestamp. */
  lemma TickThrows(s: EngineState, video: VideoFrame, timestamp: real)
    requires Processed(s, video, timestamp)
    ensures Tick(s, video, timestamp, Throws) == s.(lastTimestamp := timestamp)
  {
  }

  /** A processed tick is never processed twice: a second tick with the same timestamp does nothing. */
  lemma TickDeduplicates(s: EngineState, video: VideoFrame, video': VideoFrame, timestamp: real,
                         outcome: DetectOutcome, outcome': DetectOutcome)
    requires !video.paused && !video.ended && s.hasDetector
    ensures var r := Tick(s, video, timestamp, outcome);
      Tick(r, video', timestamp, outcome') == r
  {
    var r := Tick(s, video, timestamp, outcome);
    assert r.lastTimestamp == timestamp;
    assert !Processed(r, video', timestamp);
  }

  /** A present tick raises the counter by one; an absent tick lowers it by one, floored at zero. */
  lemma TickCounter(s: EngineState, video: VideoFrame, timestamp: real, ds: seq<Detection>)
    requires Processed(s, video, timestamp) && s.consecutive >= 0
    ensures var r := Tick(s, video, timestamp, Detections(ds));
      && r.consecutive >= 0
      && (|ds| > 0 ==> r.consecutive == s.consecutive + 1)
      && (|ds| == 0 && s.consecutive > 0 ==> r.consecutive == s.consecutive - 1)
      && (|ds| == 0 && s.consecutive == 0 ==> r.consecutive == 0)
  {
    var r := Tick(s, video, timestamp, Detections(ds));
    if |ds| > 0 {
      assert r.consecutive == CD.Next(s.consecutive, true);
    } else {
      assert r.consecutive == CD.Next(s.consecutive, false);
    }
  }

  /**
   * `faceDetected` after a tick: set exactly on a present tick that brings
   * the counter to at least ConfirmTicks, cleared exactly on an absent tick
   * that drains it to zero, otherwise kept.
   */
  lemma TickPresence(s: EngineState, video: VideoFrame, timestamp: real, outcome: DetectOutcome)
    ensures var r := Tick(s, video, timestamp, outcome);
      var p := Processed(s, video, timestamp) && outcome.Detections?;
      && (p && |outcome.detections| > 0 && r.consecutive >= CD.ConfirmTicks ==> r.faceDetected)
      && (p && |outcome.detections| == 0 && r.consecutive == 0 ==> !r.faceDetected && r.currentFace == None)
      && (r.faceDetected != s.faceDetected ==>
            p && (if r.faceDetected then |outcome.detections| > 0 && r.consecutive >= CD.ConfirmTicks
                  else |outcome.detections| == 0 && r.consecutive == 0))
  {
    var r := Tick(s, video, timestamp, outcome);
    if Processed(s, video, timestamp) && outcome.Detections? {
      var c := s.consecutive;
      if |outcome.detections| > 0 {
        assert r.consecutive == c + 1;
        assert r.faceDetected == (CD.Confirmed(c + 1) || s.faceDetected);
      } else {
        assert r.consecutive == CD.Next(c, false);
        assert r.faceDetected == (s.faceDetected && !CD.Drained(r.consecutive));
      }
    } else {
      assert r.faceDetected == s.faceDetected;
    }
  }

  /**
   * `currentFace` after a tick: the box of the top detection when the tick
   * confirms presence and the box converts, nothing when presence drains,
   * otherwise the previous face (also when conversion throws).
   */
  lemma TickCurrentFace(s: EngineState, video: VideoFrame, timestamp: real, outcome: DetectOutcome)
    ensures var r := Tick(s, video, timestamp, outcome);
      var p := Processed(s, video, timestamp) && outcome.Detections?;
      r.currentFace ==
        if p && |outcome.detections| > 0 && s.consecutive + 1 >= CD.ConfirmTicks
           && ConvertToFaceBox(outcome.detections[0], video.videoWidth, video.videoHeight).Success?
        then Some(ConvertToFaceBox(outcome.detections[0], video.videoWidth, video.videoHeight).value)
        else if p && |outcome.detections| == 0 && CD.Next(s.consecutive, false) == 0 then None
        else s.currentFace
  {
  }

  /**
   * Under the invariant, presence rises only as the counter goes from
   * ConfirmTicks - 1 to ConfirmTicks, and falls only as it goes from 1 to 0.
   */
  lemma TickPresenceEdges(s: EngineState, video: VideoFrame, timestamp: real, outcome: DetectOutcome)
    requires Inv(s)
    ensures var r := Tick(s, video, timestamp, outcome);
      && (!s.faceDetected && r.faceDetected ==> s.consecutive == CD.ConfirmTicks - 1 && r.consecutive == CD.ConfirmTicks)
      && (s.faceDetected && !r.faceDetected ==> s.consecutive == 1 && r.consecutive == 0)
  {
    TickPresence(s, video, timestamp, outcome);
  }

  /**
   * The tracker is fed, with the centre of the published box, exactly on a
   * tick that publishes a box while the captured latch is false; otherwise
   * the history is kept. On a fed tick the latch becomes the old latch or
   * the turn decision on the new history; a tick never clears it, and sets
   * it only when the new history shows a turn.
   */
  lemma TickHeadTurn(s: EngineState, video: VideoFrame, timestamp: real, outcome: DetectOutcome)
    requires Inv(s)
    ensures var r := Tick(s, video, timestamp, outcome);
      var fed := Processed(s, video, timestamp) && outcome.Detections? && |outcome.detections| > 0
                 && s.consecutive + 1 >= CD.ConfirmTicks
                 && ConvertToFaceBox(outcome.detections[0], video.videoWidth, video.videoHeight).Success?
                 && !s.capturedHeadTurn;
      && (fed ==> r.currentFace.Some? && r.headPositions == HT.Push(s.headPositions, HT.CenterX(r.currentFace.value)))
      && (!fed ==> r.headPositions == s.headPositions)
      && (s.headTurnDetected ==> r.headTurnDetected)
      && (fed ==> r.headTurnDetected == (s.headTurnDetected || HT.TurnDetected(r.headPositions)))
      && (r.headTurnDetected && !s.headTurnDetected ==> fed && HT.TurnDetected(r.headPositions))
  {
  }

  // ---------------------------------------------------------------------
  // Runs of ticks
  // ---------------------------------------------------------------------

  /** Every run of ticks keeps the invariant: the counter stays non-negative, the history within its cap. */
  lemma {:induction false} RunKeepsInv(s: EngineState, ticks: seq<TickInput>)
    requires Inv(s)
    ensures Inv(Run(s, ticks))
    decreases |ticks|
  {
    if ticks != [] {
      RunKeepsInv(Tick(s, ticks[0].video, ticks[0].timestamp, ticks[0].outcome), ticks[1..]);
    }
  }

  /** Within a session the head-turn latch never reverts to false. */
  lemma {:induction false} RunKeepsHeadTurn(s: EngineState, ticks: seq<TickInput>)
    requires Inv(s) && s.headTurnDetected
    ensures Run(s, ticks).headTurnDetected
    decreases |ticks|
  {
    if ticks != [] {
      var t := ticks[0];
      TickHeadTurn(s, t.video, t.timestamp, t.outcome);
      RunKeepsHeadTurn(Tick(s, t.video, t.timestamp, t.outcome), ticks[1..]);
    }
  }

  /** With the captured latch true, no tick of the session touches the history or the latch. */
  lemma {:induction false} RunStaleLatch(s: EngineState, ticks: seq<TickInput>)
    requires Inv(s) && s.capturedHeadTurn
    ensures Run(s, ticks).headPositions == s.headPositions
    ensures Run(s, ticks).headTurnDetected == s.headTurnDetected
    decreases |ticks|
  {
    if ticks != [] {
      var t := ticks[0];
      TickHeadTurn(s, t.video, t.timestamp, t.outcome);
      RunStaleLatch(Tick(s, t.video, t.timestamp, t.outcome), ticks[1..]);
    }
  }

  /**
   * Restarting after a latched session without a reset in between: start
   * clears the live latch but the new closure captured it as true, so no
   * tick of the new session can latch again.
   */
  lemma RestartAfterLatchNeverLatches(s: EngineState, ticks: seq<TickInput>)
    requires Inv(s) && s.headTurnDetected && s.isModelLoaded && s.hasDetector
    ensures !Run(Start(s), ticks).headTurnDetected
  {
    RunStaleLatch(Start(s), ticks);
  }

  /** After a reset, the next session captures a clear latch and feeds the tracker again. */
  lemma StartAfterResetFeedsTracker(s: EngineState)
    requires Reset(s).isModelLoaded && Reset(s).hasDetector
    ensures !Start(Reset(s)).capturedHeadTurn
  {
  }
}
