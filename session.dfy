/**
 * The gesture quiz component (components/SmartGestureModal.tsx) as one object:
 * the quiz state and the debouncer refs are fields, `handleStableGesture`,
 * `triggerAction` and `handleSubmitNextAction` are methods, and the
 * per-frame detection loop is a loop over a sequence of frames.
 */
module SmartGestureModal {
  import opened Wrappers
  import FingerCount
  import opened GestureDebounce
  import opened GestureQuiz

  /** One processed video frame: the detected hands and the clock reading `Date.now()`. */
  datatype TimedFrame = TimedFrame(hands: seq<FingerCount.Hand>, now: int)

  /** The whole state of a session: debouncer refs and quiz state. */
  datatype Session = Session(debouncer: Debouncer, quiz: QuizState)

  /** One frame's count fed to the debouncer; a firing triggers the quiz action. */
  function Step(qs: seq<QuizQuestion>, s: Session, sample: Sample): (Session, Feedback)
  {
    var (d', fired) := Observe(s.debouncer, sample.count, sample.now);
    if fired then
      var (q', fb) := Trigger(qs, s.quiz, sample.count);
      (Session(d', q'), fb)
    else
      (Session(d', s.quiz), Silent)
  }

  /** The session after feeding `samples` in order, with one feedback per sample. */
  function SessionRun(qs: seq<QuizQuestion>, s0: Session, samples: seq<Sample>): (r: (Session, seq<Feedback>))
    ensures |r.1| == |samples|
    decreases |samples|
  {
    if samples == [] then (s0, [])
    else
      var (s, sounds) := SessionRun(qs, s0, samples[..|samples| - 1]);
      var (s', fb) := Step(qs, s, samples[|samples| - 1]);
      (s', sounds + [fb])
  }

  /** The counts of the samples that fire, in order, starting from debouncer `d0`. */
  function FiredGestures(d0: Debouncer, samples: seq<Sample>): seq<int>
    decreases |samples|
  {
    if samples == [] then []
    else
      var prefix := samples[..|samples| - 1];
      var last := samples[|samples| - 1];
      FiredGestures(d0, prefix) + (if Observe(GestureDebounce.Run(d0, prefix), last.count, last.now).1 then [last.count] else [])
  }

  /**
   * The debouncer runs on its own, unaffected by the quiz, and the quiz sees
   * exactly the fired gestures, in order; so the quiz invariant holds throughout.
   */
  lemma {:induction false} SessionDecomposes(qs: seq<QuizQuestion>, s0: Session, samples: seq<Sample>)
    ensures SessionRun(qs, s0, samples).0.debouncer == GestureDebounce.Run(s0.debouncer, samples)
    ensures SessionRun(qs, s0, samples).0.quiz == GestureQuiz.Run(qs, s0.quiz, FiredGestures(s0.debouncer, samples))
    ensures GestureQuiz.Valid(qs, s0.quiz) ==> GestureQuiz.Valid(qs, SessionRun(qs, s0, samples).0.quiz)
    decreases |samples|
  {
    if samples != [] {
      var prefix := samples[..|samples| - 1];
      SessionDecomposes(qs, s0, prefix);
      var gs := FiredGestures(s0.debouncer, prefix);
      var last := samples[|samples| - 1];
      if Observe(GestureDebounce.Run(s0.debouncer, prefix), last.count, last.now).1 {
        assert FiredGestures(s0.debouncer, samples) == gs + [last.count];
        assert (gs + [last.count])[..|gs|] == gs;
      } else {
        assert FiredGestures(s0.debouncer, samples) == gs + [];
        assert gs + [] == gs;
      }
      if GestureQuiz.Valid(qs, s0.quiz) {
        RunPreservesValid(qs, s0.quiz, FiredGestures(s0.debouncer, samples));
      }
    }
  }

  /** A frame that does not fire a gesture leaves the quiz untouched and plays nothing. */
  lemma SilentUnlessFired(qs: seq<QuizQuestion>, s: Session, sample: Sample)
    requires !Observe(s.debouncer, sample.count, sample.now).1
    ensures Step(qs, s, sample).0.quiz == s.quiz && Step(qs, s, sample).1 == Silent
  {
  }

  predicate FramesWellFormed(frames: seq<TimedFrame>) {
    forall i :: 0 <= i < |frames| && |frames[i].hands| > 0 ==> FingerCount.WellFormed(frames[i].hands[0])
  }

  /** The debouncer samples produced by a sequence of frames. */
  function Samples(frames: seq<TimedFrame>): (r: seq<Sample>)
    requires FramesWellFormed(frames)
    ensures |r| == |frames|
    ensures forall i :: 0 <= i < |frames| ==>
      r[i].now == frames[i].now && r[i].count == FingerCount.FrameFingers(frames[i].hands) && 0 <= r[i].count <= 5
  {
    seq(|frames|, i requires 0 <= i < |frames| => Sample(FingerCount.FrameFingers(frames[i].hands), frames[i].now))
  }

  class GestureQuizSession {
    const questions: seq<QuizQuestion>
    var currentQIndex: nat
    var selectedOption: Option<nat>
    var isSubmitted: bool
    // Debounce refs
    var lastGestureTime: int
    var stableGestureCount: nat
    var currentStableGesture: int

    function QuizView(): QuizState
      reads this
    {
      QuizState(currentQIndex, selectedOption, isSubmitted)
    }

    function DebouncerView(): Debouncer
      reads this
    {
      Debouncer(currentStableGesture, stableGestureCount, lastGestureTime)
    }

    function SessionView(): Session
      reads this
    {
      Session(DebouncerView(), QuizView())
    }

    ghost predicate Valid()
      reads this
    {
      GestureQuiz.Valid(questions, QuizView())
    }

    constructor (questions: seq<QuizQuestion>)
      ensures this.questions == questions
      ensures QuizView() == Start && DebouncerView() == Initial && Valid()
    {
      this.questions := questions;
      currentQIndex := 0;
      selectedOption := None;
      isSubmitted := false;
      lastGestureTime := 0;
      stableGestureCount := 0;
      currentStableGesture := 0;
    }

    /** Submit the current answer, or move to the next question, or finish on the last one. */
    method HandleSubmitNextAction() returns (fb: Feedback)
      requires Valid()
      modifies this
      ensures Valid()
      ensures (QuizView(), fb) == SubmitOrAdvance(questions, old(QuizView()))
      ensures DebouncerView() == old(DebouncerView())
    {
      if !isSubmitted {
        if currentQIndex < |questions| {
          fb := if selectedOption == Some(questions[currentQIndex].correctAnswer as nat) then Correct else Wrong;
          isSubmitted := true;
        } else {
          fb := Crash;
        }
      } else {
        if currentQIndex < |questions| - 1 {
          isSubmitted := false;
          selectedOption := None;
          fb := Click;
          currentQIndex := currentQIndex + 1;
        } else {
          fb := Victory;
        }
      }
    }

    /** Apply a fired gesture to the quiz. */
    method TriggerAction(fingers: int) returns (fb: Feedback)
      requires Valid()
      modifies this
      ensures Valid()
      ensures (QuizView(), fb) == Trigger(questions, old(QuizView()), fingers)
      ensures DebouncerView() == old(DebouncerView())
    {
      fb := Silent;
      if 1 <= fingers <= 4 {
        if !isSubmitted {
          selectedOption := Some(fingers - 1);
          fb := Click;
        }
      } else if fingers == 5 {
        fb := HandleSubmitNextAction();
      }
    }

    /** Feed one frame's finger count to the debouncer and run the action it fires, if any. */
    method HandleStableGesture(count: int, now: int) returns (fb: Feedback)
      requires Valid()
      modifies this
      ensures Valid()
      ensures (SessionView(), fb) == Step(questions, old(SessionView()), Sample(count, now))
    {
      if count == currentStableGesture {
        stableGestureCount := stableGestureCount + 1;
      } else {
        stableGestureCount := 0;
        currentStableGesture := count;
      }
      fb := Silent;
      if stableGestureCount > DwellFrames && now - lastGestureTime > CooldownMs {
        if 1 <= count <= 5 {
          fb := TriggerAction(count);
          lastGestureTime := now;
          stableGestureCount := 0;
        }
      }
    }

    /** The detection loop: count the fingers of each frame and feed the count to the debouncer. */
    method PredictFrames(frames: seq<TimedFrame>) returns (sounds: seq<Feedback>)
      requires Valid() && FramesWellFormed(frames)
      modifies this
      ensures Valid()
      ensures (SessionView(), sounds) == SessionRun(questions, old(SessionView()), Samples(frames))
    {
      ghost var samples := Samples(frames);
      ghost var s0 := SessionView();
      sounds := [];
      var i := 0;
      while i < |frames|
        invariant 0 <= i <= |frames|
        invariant Valid()
        invariant (SessionView(), sounds) == SessionRun(questions, s0, samples[..i])
      {
        var fingers := FingerCount.FrameFingers(frames[i].hands);
        var fb := HandleStableGesture(fingers, frames[i].now);
        assert samples[..i + 1][..i] == samples[..i];
        sounds := sounds + [fb];
        i := i + 1;
      }
      assert samples[..i] == samples;
    }
  }
}
