/** The scored quiz of `QuizModal`: an answer earns 10, 5 or 2 points
    depending on how many wrong tries came before it on the same question; a
    correct answer locks the question until the next one is shown.

    A wrong answer schedules a reset of the feedback 1200 ms later. Time is
    not modelled: the scheduled resets are counted in `pendingResets`, and
    one of them firing is an event of its own that may come between any two
    clicks. */
module QuizModal {
  import opened Common

  datatype Question = Question(
    text: string,
    options: seq<string>,
    correctIndex: int,
    explanation: string)

  /** `currentQuestion`, `selectedAnswer`, `isCorrect`, `score`,
      `isCompleted` and `attemptsOnCurrent`, plus the scheduled resets. */
  datatype Modal = Modal(
    current: nat,
    selected: Option<int>,
    isCorrect: Option<bool>,
    score: nat,
    completed: bool,
    attempts: nat,
    pendingResets: nat)

  const InitialModal: Modal := Modal(0, None, None, 0, false, 0, 0)

  /** Points for a correct answer after `attempts` wrong ones. */
  function Points(attempts: nat): (p: nat)
    ensures attempts == 0 ==> p == 10
    ensures attempts == 1 ==> p == 5
    ensures attempts >= 2 ==> p == 2
  {
    if attempts == 0 then 10 else if attempts == 1 then 5 else 2
  }

  /** `handleAnswer`. */
  function HandleAnswer(st: Modal, qs: seq<Question>, index: int): (r: Modal)
    requires st.current < |qs|
    ensures st.isCorrect == Some(true) ==> r == st
    ensures st.isCorrect != Some(true) ==>
              && r.selected == Some(index)
              && r.current == st.current && r.completed == st.completed
    ensures st.isCorrect != Some(true) && index == qs[st.current].correctIndex ==>
              && r.isCorrect == Some(true)
              && r.score == st.score + Points(st.attempts)
              && r.attempts == st.attempts && r.pendingResets == st.pendingResets
    ensures st.isCorrect != Some(true) && index != qs[st.current].correctIndex ==>
              && r.isCorrect == Some(false)
              && r.score == st.score
              && r.attempts == st.attempts + 1
              && r.pendingResets == st.pendingResets + 1
  {
    if st.isCorrect == Some(true) then st
    else if index == qs[st.current].correctIndex then
      st.(selected := Some(index), isCorrect := Some(true), score := st.score + Points(st.attempts))
    else
      st.(selected := Some(index), isCorrect := Some(false), attempts := st.attempts + 1,
          pendingResets := st.pendingResets + 1)
  }

  /** The scheduled reset as written: it clears the selection and the
      feedback whatever has happened since it was scheduled. */
  function ResetFeedbackAsWritten(st: Modal): (r: Modal)
    requires st.pendingResets > 0
    ensures r.selected.None? && r.isCorrect.None?
    ensures r.pendingResets == st.pendingResets - 1
    ensures r.(selected := st.selected, isCorrect := st.isCorrect, pendingResets := st.pendingResets) == st
  {
    st.(selected := None, isCorrect := None, pendingResets := st.pendingResets - 1)
  }

  /** The scheduled reset as evidently intended: it clears the feedback of
      a wrong answer only, so a correct answer given before it fires stays
      locked. */
  function ResetFeedback(st: Modal): (r: Modal)
    requires st.pendingResets > 0
    ensures st.isCorrect != Some(true) ==> r.selected.None? && r.isCorrect.None?
    ensures st.isCorrect == Some(true) ==> r.selected == st.selected && r.isCorrect == st.isCorrect
    ensures r.pendingResets == st.pendingResets - 1
    ensures r.score == st.score && r.attempts == st.attempts
    ensures r.current == st.current && r.completed == st.completed
  {
    if st.isCorrect == Some(true) then st.(pendingResets := st.pendingResets - 1)
    else ResetFeedbackAsWritten(st)
  }

  /** `handleNext`: finish and report the score on the last question,
      otherwise move on with a fresh attempt counter. The second component
      is the score passed to `onComplete`, if it is called. */
  function HandleNext(st: Modal, qs: seq<Question>): (r: (Modal, Option<nat>))
    requires st.current < |qs|
    ensures st.current == |qs| - 1 ==>
              r.0 == st.(completed := true) && r.1 == Some(st.score)
    ensures st.current < |qs| - 1 ==>
              && r.1.None?
              && r.0.current == st.current + 1
              && r.0.selected.None? && r.0.isCorrect.None? && r.0.attempts == 0
              && r.0.score == st.score && r.0.completed == st.completed
              && r.0.pendingResets == st.pendingResets
  {
    if st.current == |qs| - 1 then (st.(completed := true), Some(st.score))
    else (st.(current := st.current + 1, selected := None, isCorrect := None, attempts := 0), None)
  }

  /** A click on an option, the 1200 ms timer firing, or a click on the
      next/finish button. */
  datatype ModalEvent = Answer(index: int) | TimerFires | Continue

  /** What the screen offers: option buttons while the question is not
      answered correctly, the next/finish button only after a correct
      answer, nothing but timers once completed. */
  predicate Enabled(st: Modal, e: ModalEvent): (b: bool)
    ensures st.completed ==> (b <==> e.TimerFires? && st.pendingResets > 0)
  {
    match e
    case Answer(_) => !st.completed && st.isCorrect != Some(true)
    case TimerFires => st.pendingResets > 0
    case Continue => !st.completed && st.isCorrect == Some(true)
  }

  /** Before completion the screen shows exactly one way forward: the
      options, or the next/finish button, never both. */
  lemma OneControl(st: Modal, index: int)
    requires !st.completed
    ensures Enabled(st, Answer(index)) <==> !Enabled(st, Continue)
  {
  }

  /** One event with the reset as written (`asWritten`) or as intended. */
  function Step(st: Modal, qs: seq<Question>, e: ModalEvent, asWritten: bool): Modal
    requires st.current < |qs|
  {
    if !Enabled(st, e) then st
    else match e
      case Answer(index) => HandleAnswer(st, qs, index)
      case TimerFires => if asWritten then ResetFeedbackAsWritten(st) else ResetFeedback(st)
      case Continue => HandleNext(st, qs).0
  }

  lemma StepKeepsIndex(st: Modal, qs: seq<Question>, e: ModalEvent, asWritten: bool)
    requires st.current < |qs|
    ensures Step(st, qs, e, asWritten).current < |qs|
  {
  }

  function Run(st: Modal, qs: seq<Question>, es: seq<ModalEvent>, asWritten: bool): Modal
    requires st.current < |qs|
    decreases |es|
  {
    if |es| == 0 then st
    else
      StepKeepsIndex(st, qs, es[0], asWritten);
      Run(Step(st, qs, es[0], asWritten), qs, es[1..], asWritten)
  }

  /** Questions cleared so far: those passed plus the current one when it is
      answered correctly. */
  function Cleared(st: Modal): nat {
    st.current + (if st.isCorrect == Some(true) then 1 else 0)
  }

  /** The score bound of every reachable state: each cleared question
      contributed between 2 and 10 points. */
  ghost predicate Inv(st: Modal, qs: seq<Question>) {
    && st.current < |qs|
    && 2 * Cleared(st) <= st.score <= 10 * Cleared(st)
    && (st.completed ==> st.isCorrect == Some(true) && st.current == |qs| - 1)
  }

  lemma StepKeepsInv(st: Modal, qs: seq<Question>, e: ModalEvent)
    requires Inv(st, qs)
    ensures Inv(Step(st, qs, e, false), qs)
  {
  }

  lemma {:induction false} RunKeepsInv(st: Modal, qs: seq<Question>, es: seq<ModalEvent>)
    requires Inv(st, qs)
    ensures Inv(Run(st, qs, es, false), qs)
    decreases |es|
  {
    if |es| > 0 {
      StepKeepsInv(st, qs, es[0]);
      RunKeepsInv(Step(st, qs, es[0], false), qs, es[1..]);
    }
  }

  /** With the intended reset, the score reported on finishing lies between
      2 and 10 points per question, whatever was clicked before. */
  lemma FinalScoreBounded(qs: seq<Question>, es: seq<ModalEvent>)
    requires |qs| > 0
    ensures var st := Run(InitialModal, qs, es, false);
            Enabled(st, Continue) && st.current == |qs| - 1 ==>
              var reported := HandleNext(st, qs).1;
              reported.Some? && 2 * |qs| <= reported.value <= 10 * |qs|
  {
    RunKeepsInv(InitialModal, qs, es);
  }

  /** As written, the bound fails. Two questions, option 0 correct in both:
      a wrong answer on the first schedules a reset; the first is then
      answered correctly (5 points) and the second too (10 points) before the
      reset fires; the reset unlocks the second question, which scores 10
      points again: 25 points out of a maximum of 20. */
  lemma AsWrittenScoreExceedsMaximum()
    ensures var qs := [Question("q1", ["a", "b"], 0, ""), Question("q2", ["a", "b"], 0, "")];
            var es := [Answer(1), Answer(0), Continue, Answer(0), TimerFires, Answer(0)];
            var st := Run(InitialModal, qs, es, true);
            st.score == 25 && st.score > 10 * |qs| && Enabled(st, Continue)
  {
    var qs := [Question("q1", ["a", "b"], 0, ""), Question("q2", ["a", "b"], 0, "")];
    var es := [Answer(1), Answer(0), Continue, Answer(0), TimerFires, Answer(0)];
    var s1 := Modal(0, Some(1), Some(false), 0, false, 1, 1);
    var s2 := Modal(0, Some(0), Some(true), 5, false, 1, 1);
    var s3 := Modal(1, None, None, 5, false, 0, 1);
    var s4 := Modal(1, Some(0), Some(true), 15, false, 0, 1);
    var s5 := Modal(1, None, None, 15, false, 0, 0);
    var s6 := Modal(1, Some(0), Some(true), 25, false, 0, 0);
    assert Step(InitialModal, qs, es[0], true) == s1;
    assert Step(s1, qs, es[1], true) == s2;
    assert Step(s2, qs, es[2], true) == s3;
    assert Step(s3, qs, es[3], true) == s4;
    assert Step(s4, qs, es[4], true) == s5;
    assert Step(s5, qs, es[5], true) == s6;
    assert Run(s6, qs, es[6..], true) == s6;
    assert Run(s5, qs, es[5..], true) == s6;
    assert Run(s4, qs, es[4..], true) == s6;
    assert Run(s3, qs, es[3..], true) == s6;
    assert Run(s2, qs, es[2..], true) == s6;
    assert Run(s1, qs, es[1..], true) == s6;
  }
}
