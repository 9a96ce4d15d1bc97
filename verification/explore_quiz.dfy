/** The stepping of the interest quiz (`ExploreQuiz`): pick one option per
    question, record its tags, and switch to the results after the last
    question. */
module ExploreQuiz {
  import opened Common
  import opened TagRanking

  datatype AnswerOption = AnswerOption(text: string, tags: seq<Tag>)
  datatype Question = Question(text: string, options: seq<AnswerOption>)

  /** `currentQuestion`, `selectedOption`, `answers` and `showResults`. */
  datatype QuizState = QuizState(
    current: nat,
    selected: Option<nat>,
    answers: seq<seq<Tag>>,
    showResults: bool)

  const InitialQuiz: QuizState := QuizState(0, None, [], false)

  /** `handleSelectOption`: the first selection sticks. */
  function SelectOption(st: QuizState, index: nat): (r: QuizState)
    ensures st.selected.Some? ==> r == st
    ensures st.selected.None? ==> r.selected == Some(index) && r.(selected := None) == st
  {
    if st.selected.Some? then st
    else st.(selected := Some(index))
  }

  /** `handleNext`: record the selected option's tags, then either show the
      results (last question) or move on with a cleared selection. */
  function Next(st: QuizState, qs: seq<Question>): (r: QuizState)
    requires st.current < |qs|
    requires st.selected.Some? ==> st.selected.value < |qs[st.current].options|
    ensures st.selected.None? ==> r == st
    ensures st.selected.Some? ==>
              r.answers == st.answers + [qs[st.current].options[st.selected.value].tags]
    ensures st.selected.Some? && st.current == |qs| - 1 ==>
              r.showResults && r.current == st.current && r.selected == st.selected
    ensures st.selected.Some? && st.current < |qs| - 1 ==>
              r.current == st.current + 1 && r.selected.None? && r.showResults == st.showResults
  {
    match st.selected
    case None => st
    case Some(sel) =>
      var answers := st.answers + [qs[st.current].options[sel].tags];
      if st.current == |qs| - 1 then st.(answers := answers, showResults := true)
      else st.(answers := answers, current := st.current + 1, selected := None)
  }

  /** What holds in every state the quiz screen can reach: the index is a
      question, a selection is one of its options, one tag list has been
      recorded per question passed, and each is the tag list of an option
      of that question. */
  ghost predicate Inv(st: QuizState, qs: seq<Question>) {
    && st.current < |qs|
    && (st.selected.Some? ==> st.selected.value < |qs[st.current].options|)
    && (!st.showResults ==> |st.answers| == st.current)
    && (st.showResults ==> |st.answers| == |qs| && st.current == |qs| - 1 && st.selected.Some?)
    && (forall i :: 0 <= i < |st.answers| ==> IsOptionTags(qs[i], st.answers[i]))
  }

  /** `tags` is the tag list of one of the question's options. */
  ghost predicate IsOptionTags(q: Question, tags: seq<Tag>) {
    exists o :: 0 <= o < |q.options| && tags == q.options[o].tags
  }

  /** A click on an option button or on the next button. */
  datatype QuizEvent = Pick(index: nat) | Advance

  /** The screen offers option buttons (for existing options) and the next
      button (once something is selected) only while the results are not
      shown; any other click has no effect. */
  predicate Enabled(st: QuizState, qs: seq<Question>, e: QuizEvent): (b: bool)
    requires st.current < |qs|
    ensures st.showResults ==> !b
  {
    && !st.showResults
    && match e
       case Pick(index) => st.selected.None? && index < |qs[st.current].options|
       case Advance => st.selected.Some?
  }

  /** While the questions show, the option buttons are live exactly when the
      next button is hidden. */
  lemma OneControl(st: QuizState, qs: seq<Question>, index: nat)
    requires st.current < |qs| && !st.showResults
    requires index < |qs[st.current].options|
    ensures Enabled(st, qs, Pick(index)) <==> !Enabled(st, qs, Advance)
  {
  }

  function Step(st: QuizState, qs: seq<Question>, e: QuizEvent): QuizState
    requires Inv(st, qs)
  {
    if !Enabled(st, qs, e) then st
    else match e
      case Pick(index) => SelectOption(st, index)
      case Advance => Next(st, qs)
  }

  lemma StepKeepsInv(st: QuizState, qs: seq<Question>, e: QuizEvent)
    requires Inv(st, qs)
    ensures Inv(Step(st, qs, e), qs)
  {
    var r := Step(st, qs, e);
    if Enabled(st, qs, e) && e.Advance? {
      var sel := st.selected.value;
      forall i | 0 <= i < |r.answers| ensures IsOptionTags(qs[i], r.answers[i]) {
        if i < |st.answers| {
          assert r.answers[i] == st.answers[i];
        } else {
          assert r.answers[i] == qs[i].options[sel].tags;
        }
      }
    } else {
      assert r.answers == st.answers;
    }
  }

  function Run(st: QuizState, qs: seq<Question>, es: seq<QuizEvent>): QuizState
    requires Inv(st, qs)
    decreases |es|
  {
    if |es| == 0 then st
    else
      StepKeepsInv(st, qs, es[0]);
      Run(Step(st, qs, es[0]), qs, es[1..])
  }

  /** From the first question, every sequence of clicks keeps the
      invariant; in particular the index stays below the question count and
      the results screen holds exactly one tag list per question. */
  lemma {:induction false} RunKeepsInv(st: QuizState, qs: seq<Question>, es: seq<QuizEvent>)
    requires Inv(st, qs)
    ensures Inv(Run(st, qs, es), qs)
    decreases |es|
  {
    if |es| > 0 {
      StepKeepsInv(st, qs, es[0]);
      RunKeepsInv(Step(st, qs, es[0]), qs, es[1..]);
    }
  }

  lemma InitialInv(qs: seq<Question>)
    requires |qs| > 0
    ensures Inv(InitialQuiz, qs)
  {
  }

  /** The recommendations shown once the results are reached. */
  function Results(st: QuizState, catalog: Catalog): (r: seq<Recommendation>)
    ensures |r| <= TopCount && DistinctTitles(r)
    ensures r == Greedy([], Candidates(TopTags(st.answers), catalog))
  {
    GetTopRoadmaps(st.answers, catalog)
  }
}
