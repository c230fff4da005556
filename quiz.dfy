/**
 * The quiz driven by gestures: `triggerAction` and `handleSubmitNextAction`
 * (components/SmartGestureModal.tsx) over the question list, with the state
 * `currentQIndex`, `selectedOption` and `isSubmitted`. The sounds played and
 * the closing of the session are returned as a feedback tag.
 */
module GestureQuiz {
  import opened Wrappers

  /** An option position 0..3 (A..D). */
  type AnswerIndex = i: nat | i < 4

  /** One question (types.ts `QuizQuestion`). */
  datatype QuizQuestion = QuizQuestion(
    id: int,
    question: string,
    options: seq<string>,
    correctAnswer: AnswerIndex,
    explanation: string)

  datatype QuizState = QuizState(index: nat, selected: Option<nat>, submitted: bool)

  /**
   * What a transition reports: the sound it plays (`click`, `correct`, `wrong`,
   * `victory`, where `victory` also closes the session), nothing, or `Crash`
   * when the component reads the correct answer of a question that does not exist.
   */
  datatype Feedback = Silent | Click | Correct | Wrong | Victory | Crash

  /** The state when the modal opens. */
  const Start: QuizState := QuizState(0, None, false)

  /** The index points at a question (or stays 0 for an empty list) and a selection is an option 0..3. */
  predicate Valid(qs: seq<QuizQuestion>, st: QuizState) {
    (st.index < |qs| || st.index == 0) &&
    (st.selected.Some? ==> st.selected.value < 4)
  }

  /** Gesture 5: submit the current answer, or move past a submitted question. */
  function SubmitOrAdvance(qs: seq<QuizQuestion>, st: QuizState): (QuizState, Feedback)
  {
    if !st.submitted then
      if st.index < |qs| then
        (st.(submitted := true), if st.selected == Some(qs[st.index].correctAnswer) then Correct else Wrong)
      else
        (st, Crash)
    else if st.index < |qs| - 1 then
      (QuizState(st.index + 1, None, false), Click)
    else
      (st, Victory)
  }

  /** A fired gesture: 1..4 select options A..D unless submitted, 5 submits or advances, anything else does nothing. */
  function Trigger(qs: seq<QuizQuestion>, st: QuizState, fingers: int): (QuizState, Feedback)
  {
    if 1 <= fingers <= 4 then
      if !st.submitted then (st.(selected := Some(fingers - 1)), Click) else (st, Silent)
    else if fingers == 5 then
      SubmitOrAdvance(qs, st)
    else
      (st, Silent)
  }

  /** Gestures 1..4 select option `fingers - 1` before submission and change nothing else; after submission they change nothing. */
  lemma SelectAnswer(qs: seq<QuizQuestion>, st: QuizState, fingers: int)
    requires 1 <= fingers <= 4
    ensures var (st', fb) := Trigger(qs, st, fingers);
      st'.index == st.index && st'.submitted == st.submitted &&
      (!st.submitted ==> st'.selected == Some(fingers - 1) && fingers - 1 < 4 && fb == Click) &&
      (st.submitted ==> st' == st && fb == Silent)
  {
  }

  /**
   * Gesture 5 before submission locks the answer, keeps index and selection,
   * and reports correct exactly when the selection is the correct option.
   */
  lemma SubmitJudges(qs: seq<QuizQuestion>, st: QuizState)
    requires Valid(qs, st) && |qs| > 0 && !st.submitted
    ensures var (st', fb) := Trigger(qs, st, 5);
      st' == QuizState(st.index, st.selected, true) &&
      (fb == Correct || fb == Wrong) &&
      (fb == Correct <==> st.selected == Some(qs[st.index].correctAnswer as nat)) &&
      (st.selected == None ==> fb == Wrong)
  {
  }

  /** Gesture 5 after submission moves to the next question, or on the last question ends the session with victory. */
  lemma AdvanceOrFinish(qs: seq<QuizQuestion>, st: QuizState)
    requires Valid(qs, st) && st.submitted
    ensures var (st', fb) := Trigger(qs, st, 5);
      (st.index + 1 < |qs| ==> st' == QuizState(st.index + 1, None, false) && fb == Click) &&
      (st.index + 1 >= |qs| ==> st' == st && fb == Victory) &&
      (|qs| > 0 && fb == Victory ==> st.index == |qs| - 1)
  {
  }

  /** Counts other than 1..5 do nothing. */
  lemma OtherCountsIgnored(qs: seq<QuizQuestion>, st: QuizState, fingers: int)
    requires !(1 <= fingers <= 5)
    ensures Trigger(qs, st, fingers) == (st, Silent)
  {
  }

  /** Every transition keeps the index on a question and the selection within 0..3, and never moves the index back. */
  lemma TriggerPreservesValid(qs: seq<QuizQuestion>, st: QuizState, fingers: int)
    requires Valid(qs, st)
    ensures Valid(qs, Trigger(qs, st, fingers).0)
    ensures Trigger(qs, st, fingers).0.index >= st.index
  {
  }

  /** The state after applying the fired gestures `gs`, in order, from `st0`. */
  function Run(qs: seq<QuizQuestion>, st0: QuizState, gs: seq<int>): QuizState
    decreases |gs|
  {
    if gs == [] then st0 else Trigger(qs, Run(qs, st0, gs[..|gs| - 1]), gs[|gs| - 1]).0
  }

  lemma RunPrefixStep(qs: seq<QuizQuestion>, st0: QuizState, gs: seq<int>, k: nat)
    requires 0 < k <= |gs|
    ensures Run(qs, st0, gs[..k]) == Trigger(qs, Run(qs, st0, gs[..k - 1]), gs[k - 1]).0
  {
    assert gs[..k][..k - 1] == gs[..k - 1];
  }

  /** Any sequence of gestures keeps the state valid and the index never decreases. */
  lemma {:induction false} RunPreservesValid(qs: seq<QuizQuestion>, st0: QuizState, gs: seq<int>)
    requires Valid(qs, st0)
    ensures Valid(qs, Run(qs, st0, gs))
    ensures Run(qs, st0, gs).index >= st0.index
    decreases |gs|
  {
    if gs != [] {
      var prev := gs[..|gs| - 1];
      RunPreservesValid(qs, st0, prev);
      TriggerPreservesValid(qs, Run(qs, st0, prev), gs[|gs| - 1]);
    }
  }

  /** Whether gesture `i` of `gs` judges an answer (plays correct or wrong). */
  predicate JudgedAt(qs: seq<QuizQuestion>, st0: QuizState, gs: seq<int>, i: nat)
    requires i < |gs|
  {
    var fb := Trigger(qs, Run(qs, st0, gs[..i]), gs[i]).1;
    fb == Correct || fb == Wrong
  }

  /** After a judgement, the question stays submitted until the index moves past it. */
  lemma {:induction false} SubmittedUntilAdvance(qs: seq<QuizQuestion>, st0: QuizState, gs: seq<int>, i: nat, k: nat)
    requires i < k <= |gs| && JudgedAt(qs, st0, gs, i)
    ensures var judged := Run(qs, st0, gs[..i]).index;
      var st := Run(qs, st0, gs[..k]);
      st.index > judged || (st.index == judged && st.submitted)
    decreases k
  {
    RunPrefixStep(qs, st0, gs, k);
    if k > i + 1 {
      SubmittedUntilAdvance(qs, st0, gs, i, k - 1);
    }
  }

  /** Each question is judged at most once: a later judgement is always about a later question. */
  lemma JudgedOncePerQuestion(qs: seq<QuizQuestion>, st0: QuizState, gs: seq<int>, i: nat, j: nat)
    requires i < j < |gs| && JudgedAt(qs, st0, gs, i) && JudgedAt(qs, st0, gs, j)
    ensures Run(qs, st0, gs[..i]).index < Run(qs, st0, gs[..j]).index
  {
    SubmittedUntilAdvance(qs, st0, gs, i, j);
  }
}
