/**
 * The quiz transition as the component actually runs it. The detection loop
 * is set up once, in the render where the hand detector became ready, and
 * keeps calling that render's `handleStableGesture`; its `triggerAction` and
 * `handleSubmitNextAction` therefore read `isSubmitted`, `selectedOption` and
 * `question` as they were then (`captured`), while the state updaters
 * (`setIsSubmitted(prev => ...)`, `setCurrentQIndex(current => ...)`) see the
 * current state. `GestureQuiz.Trigger` is the intended transition.
 */
module StaleClosure {
  import opened Wrappers
  import opened GestureQuiz

  function TriggerAsWritten(qs: seq<QuizQuestion>, captured: QuizState, current: QuizState, fingers: int): (QuizState, Feedback)
  {
    if 1 <= fingers <= 4 then
      if !captured.submitted then (current.(selected := Some(fingers - 1)), Click) else (current, Silent)
    else if fingers == 5 then
      if !current.submitted then
        if captured.index < |qs| then
          (current.(submitted := true),
           if captured.selected == Some(qs[captured.index].correctAnswer) then Correct else Wrong)
        else
          (current, Crash)
      else if current.index < |qs| - 1 then
        (QuizState(current.index + 1, None, false), Click)
      else
        (current, Victory)
    else
      (current, Silent)
  }

  /** When the captured state is the current one, the component behaves as intended. */
  lemma AgreesWhenFresh(qs: seq<QuizQuestion>, st: QuizState, fingers: int)
    ensures TriggerAsWritten(qs, st, st, fingers) == Trigger(qs, st, fingers)
  {
  }

  /**
   * With the loop captured at the start, a submission never plays `correct`,
   * and options can still be selected after submission.
   */
  lemma CapturedAtStart(qs: seq<QuizQuestion>, current: QuizState, fingers: int)
    requires 1 <= fingers <= 5
    ensures TriggerAsWritten(qs, Start, current, fingers).1 != Correct
    ensures fingers <= 4 ==> TriggerAsWritten(qs, Start, current, fingers).0.selected == Some(fingers - 1)
  {
  }

  /** One question whose answer is A. */
  const OneQuestion: seq<QuizQuestion> := [QuizQuestion(1, "q", ["a", "b", "c", "d"], 0, "e")]

  /** Selecting the right answer and submitting plays `wrong` as written, `correct` as intended. */
  lemma CorrectAnswerJudgedWrong()
    ensures TriggerAsWritten(OneQuestion, Start, QuizState(0, Some(0), false), 5).1 == Wrong
    ensures Trigger(OneQuestion, QuizState(0, Some(0), false), 5).1 == Correct
  {
  }

  /** After submission a gesture still changes the locked answer as written; as intended it does not. */
  lemma AnswerChangedAfterSubmit()
    ensures TriggerAsWritten(OneQuestion, Start, QuizState(0, Some(0), true), 2).0.selected == Some(1)
    ensures Trigger(OneQuestion, QuizState(0, Some(0), true), 2).0.selected == Some(0)
  {
  }
}
