# Face presence and liveness engine, modelled in Dafny

This project models the presence-and-liveness engine of a school attendance
platform: the React hook `useFaceDetection` (`src/hooks/useFaceDetection.ts`). The hook samples a
video element ten times a second, asks a face detector for candidate faces,
and turns those noisy per-frame answers into two debounced signals:

- "face present" (`faceDetected`, with the current box `currentFace`). It
  takes three net present ticks to confirm and clears only when the counter
  drains back to zero.
- "head turned" (`headTurnDetected`), the anti-photo liveness latch. It is
  set once at least ten horizontal face centres are buffered and they spread
  over more than 40 pixels.

## Layout

- `wrappers.dfy`, module `Wrappers`: `Option` (JavaScript's `T | null`) and `Result` (an operation that may throw).
- `facebox_codec.dfy`, module `FaceBoxCodec`: the pure conversion `convertToFaceBox`. It works on exact reals, with `Math.round(v)` modelled as `(v + 0.5).Floor`.
- `head_turn_tracker.dfy`, module `HeadTurnTracker`: the bounded FIFO history of centres (cap 20), `Math.min`/`Math.max`, and the decision (at least 10 samples and range > 40).
- `confirmation_debouncer.dfy`, module `ConfirmationDebouncer`: the counter step (`++` on a present tick, `Math.max(0, c - 1)` on an absent one) and the threshold 3.
- `detection_loop.dfy`, module `DetectionLoop`: the whole engine state as a value (`EngineState`). It has one specification function per hook operation (`Load`, `Start`, `Tick`, `Stop`, `Reset`, `Cleanup`, `Track`), with `Tick` split into the skip guard `Processed` and the two branches `PresentTick` and `AbsentTick`, the invariant `Inv`, and lemmas about single ticks and about runs of ticks.
- `face_detection_engine.dfy`, module `FaceDetectionHook`: the class `FaceDetectionEngine`. Its fields are the hook's state and refs. Its methods update those fields in the hook's order, and each is proved to end in the state its specification function gives (`State() == Tick(old(State()), ...)`) while keeping `Valid()`. `CheckInSession` and `CheckInSessionEnds` drive one object through a short session.
- `scenarios.dfy`, module `Scenarios`: concrete runs. These are the codec example, a static face, a head-turn ramp, too few samples, and the present/present/absent/present/present sequence.

## Modelling decisions

- **Closure state.** The interval callback's closure holds two values: its own `lastTimestamp` (−1 at every start) and the value of `headTurnDetected` captured when `startDetection` was created (`src/hooks/useFaceDetection.ts:250`, dependencies at `src/hooks/useFaceDetection.ts:266`). These are the fields `lastTimestamp` and `capturedHeadTurn`. The model captures the live `headTurnDetected` at the moment `startDetection` is called, which is what the callback from the latest render sees. As a result, the tracker is fed only when the captured value is false. After a session that latched, a restart without a reset never feeds the tracker, so the new session can never latch (`DetectionLoop.RestartAfterLatchNeverLatches`). After a reset, a start that runs in a later render does feed the tracker (`DetectionLoop.StartAfterResetFeedsTracker`).
- **Write before a possible throw.** On a confirmed present tick, the counter and `faceDetected` are written before the box is converted. A detection with no categories makes the conversion throw (`Result.Failure`). The flag is then already true but `currentFace` keeps its old value. So the invariant is one-directional: `currentFace` set implies `faceDetected`.
- **Timestamp of a throwing tick.** When the detector call throws, the tick still records its timestamp, because that is assigned before the `try`. Everything else is kept (`DetectionLoop.TickThrows`).
- **Start guard.** `startDetection` proceeds only when the model is loaded and a detector is held (`src/hooks/useFaceDetection.ts:200`); otherwise it only sets the not-ready error.
- **When `faceDetected` is set.** The code sets `faceDetected` on every confirmed present tick, not only on the tick where the counter first reaches 3. Under the invariant the two readings agree: presence rises only when the counter goes from 2 to 3 (`DetectionLoop.TickPresenceEdges`).
- **What clears `headTurnDetected`.** Both `startDetection` and `resetDetection` clear it. Reset does not touch `error`, `isModelLoaded`, the detector, or the closure's timestamp and captured flag.
- **Failed load.** A failed `loadModels` leaves the detector reference as it was, because the code assigns it only on success.
- **When a tick can run.** The `Tick` method requires `timerActive`, because the interval callback fires only while its interval exists.

## Model

| member | source | states |
|---|---|---|
| FaceBoxCodec.Round | src/hooks/useFaceDetection.ts:130-133 | `Math.round`: the result is the unique integer r with r − 0.5 ≤ v < r + 0.5 (nearest, halves upward) |
| FaceBoxCodec.RoundToHundredths | src/hooks/useFaceDetection.ts:134 | the result is a whole number of hundredths within (v − 0.005, v + 0.005] |
| FaceBoxCodec.ConvertToFaceBox | src/hooks/useFaceDetection.ts:124-136 | succeeds exactly when the detection has a category; then x, y, w, h are the `Math.round` of originX, originY, width, height and the confidence is the first score rounded to two decimals; otherwise fails with MissingCategory |
| FaceBoxCodec.RoundOfInteger | src/hooks/useFaceDetection.ts:130-133 | rounding an integer gives it back |
| FaceBoxCodec.RoundToHundredthsOfHundredths | src/hooks/useFaceDetection.ts:134 | a value that already has two decimals is unchanged by the confidence rounding |
| FaceBoxCodec.IgnoresFrameSize | src/hooks/useFaceDetection.ts:124-136 | the result does not depend on videoWidth or videoHeight |
| FaceBoxCodec.RoundTrip | src/hooks/useFaceDetection.ts:124-136 | converting the exact detector record of a box with a two-decimal confidence gives that box back |
| FaceBoxCodec.ConvertIdempotent | src/hooks/useFaceDetection.ts:124-136 | re-encoding a converted box and converting again yields the same box |
| HeadTurnTracker.CenterX | src/hooks/useFaceDetection.ts:156 | for a box of non-negative width the centre lies between its left and right edges |
| HeadTurnTracker.Push | src/hooks/useFaceDetection.ts:159-165 | below the cap the centre is appended; at or above it the oldest entry is dropped and the centre appended, others keeping their order |
| HeadTurnTracker.SeqMaxIsMaximum | src/hooks/useFaceDetection.ts:171 | `Math.max` of a non-empty list is an element of the list and no element exceeds it |
| HeadTurnTracker.SeqMinIsMinimum | src/hooks/useFaceDetection.ts:170 | `Math.min` of a non-empty list is an element of the list and no element is below it |
| HeadTurnTracker.TurnMeansSpread | src/hooks/useFaceDetection.ts:168-183 | a turn is detected exactly when at least 10 centres are held and two of them are more than 40 px apart |
| HeadTurnTracker.NarrowBandNoTurn | src/hooks/useFaceDetection.ts:170-178 | centres confined to a band at most 40 px wide never latch |
| HeadTurnTracker.PushIsWindow | src/hooks/useFaceDetection.ts:159-165 | one append leaves exactly the last 20 values of the old history plus the new centre |
| HeadTurnTracker.PushAllIsWindow | src/hooks/useFaceDetection.ts:159-165 | after any sequence of appends the history is the most recent 20 values in arrival order, never more than 20 |
| HeadTurnTracker.PushAllFromEmpty | src/hooks/useFaceDetection.ts:159-165 | from an empty history, up to 20 appends leave exactly the appended centres in arrival order |
| HeadTurnTracker.PushGrows | src/hooks/useFaceDetection.ts:159-165 | an append keeps the history within 20, never shortens it, and ends it with the new centre |
| ConfirmationDebouncer.Next | src/hooks/useFaceDetection.ts:229-256 | a present tick adds one; an absent tick subtracts one, floored at 0; a non-negative counter stays non-negative |
| ConfirmationDebouncer.Confirmed | src/hooks/useFaceDetection.ts:235 | the confirmation threshold `>= 3` is reached only by a positive counter |
| ConfirmationDebouncer.Drained | src/hooks/useFaceDetection.ts:257 | a drained counter (`=== 0`) is never a confirmed one |
| ConfirmationDebouncer.NeverNegative | src/hooks/useFaceDetection.ts:256 | no run of outcomes drives the counter below zero |
| ConfirmationDebouncer.RiseBoundedByPresentTicks | src/hooks/useFaceDetection.ts:229-235 | the counter rises by at most the number of present ticks, so confirmation needs three present ticks from zero |
| DetectionLoop.Initial | src/hooks/useFaceDetection.ts:57-68 | the mounted state satisfies the invariant, with no model, no detector and no timer |
| DetectionLoop.Load | src/hooks/useFaceDetection.ts:80-110 | loading keeps the invariant |
| DetectionLoop.Start | src/hooks/useFaceDetection.ts:199-212 | starting keeps the invariant |
| DetectionLoop.Track | src/hooks/useFaceDetection.ts:153-186 | the history becomes the old one with the box's centre pushed (cap 20, oldest dropped); the latch becomes the old latch or the turn decision on the new history; presence, box and counter are untouched; the invariant is kept |
| DetectionLoop.PresentTick | src/hooks/useFaceDetection.ts:229-253 | a tick with a face adds one to the counter; presence becomes true once the counter is ≥ 3 and is otherwise kept; the box becomes the converted top detection on a confirmed tick whose conversion succeeds and is otherwise kept |
| DetectionLoop.AbsentTick | src/hooks/useFaceDetection.ts:254-260 | a tick without a face lowers the counter, floored at 0; presence and box are cleared exactly when it reaches 0; history, latch, timestamp and lifecycle fields are untouched; the invariant is kept |
| DetectionLoop.Tick | src/hooks/useFaceDetection.ts:216-265 | a tick never changes the model flag, detecting flag, error, captured latch, detector or timer; every tick keeps the invariant (counter ≥ 0; counter 0 ⇒ no face and no box; counter ≥ 3 ⇒ face; box ⇒ face; history ≤ 20; latch ⇒ ≥ 10 samples; timer ⇔ detecting; timer ⇒ detector) |
| DetectionLoop.Stop | src/hooks/useFaceDetection.ts:273-279 | stopping keeps the invariant |
| DetectionLoop.Reset | src/hooks/useFaceDetection.ts:286-293 | resetting keeps the invariant |
| DetectionLoop.Cleanup | src/hooks/useFaceDetection.ts:296-305 | cleanup keeps the invariant |
| DetectionLoop.LoadSucceeds | src/hooks/useFaceDetection.ts:82-103 | a successful load clears the error, installs the detector and sets isModelLoaded, changing nothing else |
| DetectionLoop.LoadFails | src/hooks/useFaceDetection.ts:105-109 | a failed load sets the load-failure message and isModelLoaded := false, changing nothing else |
| DetectionLoop.LoadRepeatable | src/hooks/useFaceDetection.ts:80-110 | repeating a load with the same outcome changes nothing more |
| DetectionLoop.CleanupReleases | src/hooks/useFaceDetection.ts:296-305 | cleanup stops the timer and releases the detector, touches nothing else, and is idempotent |
| DetectionLoop.NothingRunsAfterCleanup | src/hooks/useFaceDetection.ts:296-305 | after cleanup every run of ticks changes nothing and a start only sets the not-ready error |
| DetectionLoop.StartRefused | src/hooks/useFaceDetection.ts:200-203 | without a loaded model or without a detector, start only sets the not-ready error |
| DetectionLoop.StartClears | src/hooks/useFaceDetection.ts:205-212 | a successful start runs the timer, clears both flags, the box, the history and the counter, resets the closure's timestamp, captures the latch, and keeps model, detector and error |
| DetectionLoop.StopOnlyStops | src/hooks/useFaceDetection.ts:273-279 | stop touches only the timer and isDetecting, and is idempotent |
| DetectionLoop.ResetClears | src/hooks/useFaceDetection.ts:286-293 | reset is stop plus clearing flags, box, history and counter; it keeps model, error and detector, is idempotent, and equals reset after stop |
| DetectionLoop.TickSkipped | src/hooks/useFaceDetection.ts:217-223 | a paused or ended video, a missing detector or a repeated timestamp changes nothing |
| DetectionLoop.TickThrows | src/hooks/useFaceDetection.ts:223-264 | a throwing detector call keeps every field except the recorded timestamp |
| DetectionLoop.TickDeduplicates | src/hooks/useFaceDetection.ts:219-223 | once a tick with a playing video and a detector has run, a second tick with the same timestamp changes nothing |
| DetectionLoop.TickCounter | src/hooks/useFaceDetection.ts:229-256 | a present tick adds one to the counter; an absent one subtracts one, floored at 0; it stays ≥ 0 |
| DetectionLoop.TickPresence | src/hooks/useFaceDetection.ts:235-260 | faceDetected is set by a present tick reaching ≥ 3 and cleared by an absent tick reaching 0, and changes on no other tick |
| DetectionLoop.TickCurrentFace | src/hooks/useFaceDetection.ts:239-260 | currentFace becomes the top detection's box on a confirmed tick whose box converts, None when the counter drains, and is otherwise kept (also when conversion throws) |
| DetectionLoop.TickPresenceEdges | src/hooks/useFaceDetection.ts:229-260 | presence rises only as the counter goes 2 → 3 and falls only as it goes 1 → 0 |
| DetectionLoop.TickHeadTurn | src/hooks/useFaceDetection.ts:249-252 | the history gets the published box's centre exactly when a box is published and the captured latch is false, and is otherwise unchanged; on such a tick the latch becomes the old latch or the turn decision on the new history; a tick never clears the latch and sets it only when the new history shows a turn |
| DetectionLoop.RunKeepsInv | src/hooks/useFaceDetection.ts:216-265 | every run of ticks keeps the invariant |
| DetectionLoop.RunKeepsHeadTurn | src/hooks/useFaceDetection.ts:178-182 | within a session the latch never reverts to false |
| DetectionLoop.RunStaleLatch | src/hooks/useFaceDetection.ts:250-252 | with the captured latch true, no tick of the session touches the history or the latch |
| DetectionLoop.RestartAfterLatchNeverLatches | src/hooks/useFaceDetection.ts:199-266 | restarting after a latched session without reset leaves the latch false for every run of ticks |
| DetectionLoop.StartAfterResetFeedsTracker | src/hooks/useFaceDetection.ts:286-293 | a start after a reset captures a clear latch |
| FaceDetectionHook.FaceDetectionEngine.constructor | src/hooks/useFaceDetection.ts:57-68 | the object starts in the mounted state and is valid |
| FaceDetectionHook.FaceDetectionEngine.LoadModels | src/hooks/useFaceDetection.ts:80-110 | the new state is Load of the old one; validity is kept |
| FaceDetectionHook.FaceDetectionEngine.StartDetection | src/hooks/useFaceDetection.ts:199-212 | the new state is Start of the old one; validity is kept |
| FaceDetectionHook.FaceDetectionEngine.DetectHeadTurn | src/hooks/useFaceDetection.ts:153-186 | the new state is Track of the old one and the result is the turn decision on the new history |
| FaceDetectionHook.FaceDetectionEngine.Tick | src/hooks/useFaceDetection.ts:216-265 | the new state is Tick of the old one; validity is kept |
| FaceDetectionHook.FaceDetectionEngine.StopDetection | src/hooks/useFaceDetection.ts:273-279 | the new state is Stop of the old one; validity is kept |
| FaceDetectionHook.FaceDetectionEngine.ResetDetection | src/hooks/useFaceDetection.ts:286-293 | the new state is Reset of the old one; validity is kept |
| FaceDetectionHook.FaceDetectionEngine.Cleanup | src/hooks/useFaceDetection.ts:296-305 | the new state is Cleanup of the old one; validity is kept |
| FaceDetectionHook.CheckInSession | src/hooks/useFaceDetection.ts:199-253 | on a fresh object, a start before loading is refused; after load and start, two face frames, a throwing frame, a repeated timestamp and a third face frame leave the counter at 3 with presence and a box |
| Scenarios.CodecExample | src/hooks/useFaceDetection.ts:129-135 | {12.6, 8.2, 50.4, 60.9, 0.873} converts to [13, 8, 50, 61, 0.87] |
| Scenarios.CodecMissingCategory | src/hooks/useFaceDetection.ts:134 | a detection without categories fails to convert |
| Scenarios.StaticFaceDoesNotLatch | src/hooks/useFaceDetection.ts:168-183 | centres 100,101,99,100,102,98,101,99,100,101 (range 4) do not latch |
| Scenarios.RampLatchesOnTenthSample | src/hooks/useFaceDetection.ts:159-183 | feeding the ramp 100 … 150 latches on the tenth sample and on no earlier prefix |
| Scenarios.NineSamplesMakeNoDetermination | src/hooks/useFaceDetection.ts:168 | nine samples with range 100 make no determination |
| Scenarios.PresenceNeedsThreeNetTicks | src/hooks/useFaceDetection.ts:229-260 | present, present, absent, present, present gives counter 1, 2, 1, 2, 3, the face first reported at tick 5, the box [13, 8, 50, 61, 0.87], and one centre buffered |

## Left out

- MediaPipe internals. `FilesetResolver.forVisionTasks`, `FaceDetector.createFromOptions` (with its options: model path, GPU delegate, VIDEO mode, minimum confidence 0.5), `detectForVideo` and `close` are foreign calls. The load is a success flag; a detector call is a parameter, either `Throws` or a list of detections.
- Timing. The 100 ms period and `setInterval`/`clearInterval` are not modelled: the timer is the boolean `timerActive`, and a tick is a method call. `performance.now()` becomes the tick's `timestamp` parameter.
- A second `startDetection` without a stop overwrites the interval reference and leaves the old interval running (`src/hooks/useFaceDetection.ts:216`). The model keeps a single timer.
- React semantics. State updates are applied immediately and in order, with no batching and no re-renders. The closure capture of `headTurnDetected` is approximated by the live value at the call of `startDetection`. `isModelLoaded` is read live. So `resetDetection(); startDetection(video)` called in one handler is not modelled as the code behaves: there `startDetection` is still the previous render's closure, which sees `headTurnDetected` as true after a latched session, and the new session does not feed the tracker; the model's `Start(Reset(s))` captures false.
- Asynchrony of `loadModels`. A load is one atomic step: the state between clearing the error and the outcome, and overlapping loads, are not modelled. A successful reload replaces a detector without closing the old one; the model only records that a detector is held.
- A cancelled loop's late result. The tick body awaits nothing (`detectForVideo` returns synchronously), so a tick is atomic. There is no generation counter in the code, and none in the model.
- Console logging (`src/hooks/useFaceDetection.ts:104`, `src/hooks/useFaceDetection.ts:106`, `src/hooks/useFaceDetection.ts:179`, `src/hooks/useFaceDetection.ts:247`, `src/hooks/useFaceDetection.ts:263`). It is a side channel only.
- Floating point. Detector values, centres and confidences are exact reals. The double-precision rounding of `score * 100` and of `/ 100` is not modelled, and neither is NaN.
- JavaScript numbers. The counter is an unbounded integer; JavaScript numbers do not wrap at the counts a session reaches.
- The video element. Only `paused`, `ended`, `videoWidth` and `videoHeight` are read, passed in per tick as `VideoFrame`.
- The rest of the repository is not part of this model. That covers the admin, navigation and routing screens (`src/pages/SuperAdminPanel.tsx`, `src/components/layout/Navbar.tsx`, `src/components/layout/DashboardSidebar.tsx`, `src/pages/NotFound.tsx`, `src/App.tsx`), the authentication context (`src/contexts/AuthContext.tsx`), the HTTP handlers (`supabase/functions/*`) and the type declarations (`src/types/auth.ts`). These are UI, backend plumbing, database queries and string helpers over JavaScript library calls.
