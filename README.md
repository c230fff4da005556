# Gesture quiz model

A Dafny model of the camera-gesture quiz in `components/SmartGestureModal.tsx`. A child answers
multiple-choice questions by holding up fingers in front of the camera. The component works in three stages:

1. **Finger counting** (`FingerCount`). The hand detector returns landmarks for at most one hand
   (`numHands: 1`). The component reads only the first hand.
   - The index, middle, ring and pinky fingers count when the tip is more than 1.1 times as far
     from the wrist as the PIP joint. The model compares squared distances against 1.21.
     `SquaredTestMatchesDistanceTest` proves this agrees with the distance comparison `distTip > distPip * 1.1` over exact reals.
   - The thumb counts when its tip lies above its IP joint.
   - No hand means 0.
2. **Debouncing** (`GestureDebounce`). `handleStableGesture` keeps three refs: a candidate value,
   a run counter and the time of the last firing. A sample equal to the candidate increments the
   run; any other sample becomes the candidate with run 0. An action fires when all of these hold:
   - the run exceeds 20;
   - more than 1500 ms have passed since the last firing;
   - the count is 1..5.
   Firing records the time and resets the run. The model proves properties over whole sample sequences:
   - a firing sample and the 21 samples before it are all equal, 22 equal samples in all (`DwellBeforeFiring`);
   - any two firings are more than 20 samples and more than 1500 ms apart (`FiringsSpaced`, `FiringsSpacedInTime`);
   - 0 never fires;
   - a gesture held long enough does fire, after any earlier samples and firings (`HeldGestureFires`).
3. **Quiz** (`GestureQuiz`). The state is `currentQIndex`, `selectedOption` and `isSubmitted`.
   - Gestures 1..4 select options A..D, but only before submission.
   - Gesture 5 submits and judges the answer. Once submitted, it moves to the next question, or
     finishes with victory on the last one.
   - The sounds and the closing of the session are returned as a `Feedback` tag.

The pure transition functions mirror the component's functions:
- `GestureDebounce.Observe` models `handleStableGesture` (lines 158-176);
- `GestureQuiz.Trigger` models `triggerAction` (lines 178-193);
- `GestureQuiz.SubmitOrAdvance` models `handleSubmitNextAction` (lines 203-234);
- `StaleClosure.TriggerAsWritten` is `triggerAction` as the detection loop actually runs it, on the state captured when the loop started (see Findings).

`SmartGestureModal.GestureQuizSession` holds the component's six state fields as a class. Its
methods `HandleStableGesture`, `TriggerAction` and `HandleSubmitNextAction` are proved against the
pure transition functions. `PredictFrames` is the detection loop over a sequence of timestamped
frames. `SessionDecomposes` shows what the combined run amounts to: the debouncer runs on its own,
and the quiz sees exactly the fired gestures, in order.

The model follows the code as written:
- a new sample restarts the run at 0, not 1;
- only the first hand is counted, and counts from several hands are not summed;
- there is no "load more questions" gesture (value 6), no appended question batches and no per-question answer map.

Inputs that come from the browser are parameters:
- the clock reading `Date.now()` is carried by each frame;
- the detected landmarks are the frame's `hands`.

## Model

| member | source | states |
|---|---|---|
| `FingerCount.CountFingers` | components/SmartGestureModal.tsx:117-131 | the one-hand count is at most 5 and equals the number of fingers (thumb by the y rule, others by the 1.1× distance rule on pairs 8/6, 12/10, 16/14, 20/18) that are extended |
| `FingerCount.FrameFingers` | components/SmartGestureModal.tsx:90-131 | a frame's count is 0 when no hand is detected, otherwise the number of extended fingers of the first hand only; always within 0..5 |
| `FingerCount.SquaredTestMatchesDistanceTest` | components/SmartGestureModal.tsx:105-115 | the squared test `dTip² > 1.21·dPip²` holds exactly when `distTip > distPip * 1.1` for the non-negative distances |
| `GestureDebounce.Observe` | components/SmartGestureModal.tsx:158-176 | definition of one `handleStableGesture` call; characterised by `FiresExactlyWhen`, `ObserveUpdates`, `NonActionNeverFires` |
| `GestureDebounce.FiresExactlyWhen` | components/SmartGestureModal.tsx:161-174 | a sample fires exactly when it equals the candidate, the run was already at least 20, more than 1500 ms passed since the last firing, and it is 1..5 |
| `GestureDebounce.ObserveUpdates` | components/SmartGestureModal.tsx:161-174 | every sample becomes the candidate; an equal one extends the run, a different one restarts it at 0; firing sets the run to 0 and the last firing time to now, otherwise that time is kept |
| `GestureDebounce.NonActionNeverFires` | components/SmartGestureModal.tsx:170 | a count outside 1..5 (0 included) never fires, keeps the last firing time and, if equal to the candidate, still extends the run |
| `GestureDebounce.TrailingRun` | components/SmartGestureModal.tsx:161-166 | from the initial refs, the candidate is the latest sample and the last `run` samples all equal it; for a candidate other than the initial 0, the last `run + 1` samples do |
| `GestureDebounce.RunSinceFiring` | components/SmartGestureModal.tsx:169-174 | after a firing the run counts at most the samples fed since it |
| `GestureDebounce.LastFiredSince` | components/SmartGestureModal.tsx:172 | with no later firing, the recorded time is the time of the last firing |
| `GestureDebounce.DwellBeforeFiring` | components/SmartGestureModal.tsx:158-176 | a firing sample is 1..5, comes at index 21 or later, and it and the 21 samples before it are all equal (22 equal samples: the first sets the run to 0, the 21st repeat passes `> 20`) |
| `GestureDebounce.FiringsSpaced` | components/SmartGestureModal.tsx:169-174 | no double trigger: two firings are more than 20 samples apart; consecutive firings are more than 1500 ms apart |
| `GestureDebounce.FiringsSpacedInTime` | components/SmartGestureModal.tsx:169-172 | any two firings are more than 1500 ms apart, whatever the clock does between them |
| `GestureDebounce.HeldGestureFires` | components/SmartGestureModal.tsx:158-176 | after any earlier samples, 22 equal samples of an action, each read more than 1500 ms after the last firing, fire at least once within those 22 |
| `GestureQuiz.Trigger` | components/SmartGestureModal.tsx:178-193 | definition of `triggerAction`; characterised by `SelectAnswer`, `OtherCountsIgnored`, `TriggerPreservesValid` |
| `GestureQuiz.SubmitOrAdvance` | components/SmartGestureModal.tsx:203-234 | definition of `handleSubmitNextAction`; characterised by `SubmitJudges`, `AdvanceOrFinish` |
| `GestureQuiz.SelectAnswer` | components/SmartGestureModal.tsx:182-187 | gestures 1..4 before submission set the selection to `fingers - 1` (0..3) and click, changing nothing else; after submission they change nothing |
| `GestureQuiz.SubmitJudges` | components/SmartGestureModal.tsx:204-213 | gesture 5 before submission sets submitted, keeps index and selection, and reports correct exactly when the selection is the correct option; no selection is wrong |
| `GestureQuiz.AdvanceOrFinish` | components/SmartGestureModal.tsx:214-231 | gesture 5 after submission moves to the next question with the selection cleared, or on the last question keeps the index and ends with victory |
| `GestureQuiz.OtherCountsIgnored` | components/SmartGestureModal.tsx:178-193 | counts other than 1..5 leave the quiz unchanged and play nothing |
| `GestureQuiz.TriggerPreservesValid` | components/SmartGestureModal.tsx:178-234 | one transition keeps the index on a question and the selection within 0..3, and never moves the index back |
| `GestureQuiz.RunPreservesValid` | components/SmartGestureModal.tsx:216-229 | any gesture sequence keeps `0 <= currentQIndex < len` (for a non-empty list) and a valid selection, with the index never decreasing |
| `GestureQuiz.SubmittedUntilAdvance` | components/SmartGestureModal.tsx:204-229 | after an answer is judged, the question stays submitted until the index moves past it |
| `GestureQuiz.JudgedOncePerQuestion` | components/SmartGestureModal.tsx:203-234 | each question's answer is judged at most once: a later judgement is about a later question |
| `SmartGestureModal.Step` | components/SmartGestureModal.tsx:157-176 | definition of one frame's debouncer step followed by the fired action; characterised by `SilentUnlessFired`, `SessionDecomposes` |
| `SmartGestureModal.SessionRun` | components/SmartGestureModal.tsx:141-142 | one feedback per processed frame |
| `SmartGestureModal.SessionDecomposes` | components/SmartGestureModal.tsx:157-176 | the debouncer evolves independently of the quiz, the quiz receives exactly the fired gestures in order, and the quiz invariant holds throughout |
| `SmartGestureModal.SilentUnlessFired` | components/SmartGestureModal.tsx:169-175 | a frame that does not fire leaves the quiz unchanged and plays nothing |
| `SmartGestureModal.Samples` | components/SmartGestureModal.tsx:90-142 | each frame yields one sample: its finger count (0..5) and its clock reading |
| `SmartGestureModal.GestureQuizSession.constructor` | components/SmartGestureModal.tsx:17-26 | the session starts at question 0, nothing selected, not submitted, with all debounce refs 0 |
| `SmartGestureModal.GestureQuizSession.HandleSubmitNextAction` | components/SmartGestureModal.tsx:203-234 | the new quiz state and sound are those of the submit-or-advance transition; the refs are untouched |
| `SmartGestureModal.GestureQuizSession.TriggerAction` | components/SmartGestureModal.tsx:178-193 | the new quiz state and sound are those of the gesture transition; the refs are untouched |
| `SmartGestureModal.GestureQuizSession.HandleStableGesture` | components/SmartGestureModal.tsx:158-176 | refs updated as the debouncer step, and the quiz action run exactly when it fires |
| `SmartGestureModal.GestureQuizSession.PredictFrames` | components/SmartGestureModal.tsx:75-145 | after a sequence of frames the state and the sounds are those of the session run on the frames' samples; the quiz invariant is kept |
| `StaleClosure.TriggerAsWritten` | components/SmartGestureModal.tsx:58-155 | definition of `triggerAction` as the detection loop runs it, on captured state; characterised by `AgreesWhenFresh`, `CapturedAtStart` |
| `StaleClosure.AgreesWhenFresh` | components/SmartGestureModal.tsx:178-234 | the transition as run by the component equals the intended one when the state it captured is current |
| `StaleClosure.CapturedAtStart` | components/SmartGestureModal.tsx:58-155 | with the loop captured at the start, no submission plays correct and selections change even after submission |
| `StaleClosure.CorrectAnswerJudgedWrong` | components/SmartGestureModal.tsx:204-213 | a concrete right answer plays wrong as written and correct as intended |
| `StaleClosure.AnswerChangedAfterSubmit` | components/SmartGestureModal.tsx:182-187 | a concrete gesture after submission changes the locked answer as written and not as intended |

## Findings

| source | as written | input that shows it | evidently intended | confidence | as-written member | corrected member |
|---|---|---|---|---|---|---|
| components/SmartGestureModal.tsx:58-155 | The detection loop is created once, by an effect keyed only on `handLandmarker`. It keeps calling that render's `handleStableGesture`, so `triggerAction` and `handleSubmitNextAction` read `isSubmitted`, `selectedOption` and `question` from the first render. | Select the correct option A of question 1 with one finger, then hold five fingers: `selectedOption` in the captured closure is still `null`, so `wrong` plays. A later one-finger or two-finger gesture still changes the answer after submission. | The transitions read the current state. Submission then judges the current selection, and a submitted answer is locked. | medium, not executed | `StaleClosure.CorrectAnswerJudgedWrong` | `GestureQuiz.SubmitJudges` |

The rest of the model uses the intended transition `GestureQuiz.Trigger`. `StaleClosure.AnswerChangedAfterSubmit`
shows the lock being bypassed as written; `GestureQuiz.SelectAnswer` proves the lock for the intended transition.

## Left out

- Hand-detector loading (WASM, model file), `getUserMedia`, the `requestAnimationFrame` scheduling, canvas drawing and stopping camera tracks: browser I/O and a foreign library. Frames are an input sequence.
- The `video.currentTime > 0` guard: the model's frames are those that were processed.
- The `detectedFingerCount` and `gestureCount` displays and the 2000 ms reset of `gestureCount`: presentation only.
- The 500 ms `setTimeout` before advancing: modelled as an immediate transition.
- `alert`, `onClose` and `playSFX`: returned as a `Feedback` tag, with `Victory` standing for the sound and the closing.
- IEEE floating point in `Math.hypot`: modelled with exact `real` squared distances. The landmark `z` coordinate is carried but unused, as in the code.
- An empty question list: gesture 5 before submission reads a missing question and throws. The model reports `Crash` and leaves the quiz unchanged. What the thrown error then does to the rendered component is not modelled.
- The stale-closure behaviour is modelled only for a single transition, in `StaleClosure`. The session class and the frame loop use the intended, current-state transitions.
- App.tsx (image text extraction, clipboard and selection lookup), services/geminiService.ts (generative-AI calls), components/DefinitionModal.tsx (rendering) and the rest of types.ts: outside this model. Only `QuizQuestion` is mirrored, with `correctAnswer` as an option index 0..3.
