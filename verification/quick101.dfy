/** The reader of a "Quick 101" pack (`Quick101Reader`): read a snippet,
    take its one-question quiz, retry after a wrong answer, move on after a
    right one, and finish after the last snippet. */
module Quick101 {
  import opened Common

  datatype QuizQuestion = QuizQuestion(question: string, options: seq<string>, correctIndex: int)
  datatype PackSnippet = PackSnippet(title: string, image: string, content: string, quiz: seq<QuizQuestion>)

  /** The `packSnippets` table: pack id to its snippets. */
  type Packs = map<string, seq<PackSnippet>>

  /** `packSnippets[packId] || []`. */
  function SnippetsOf(packs: Packs, packId: string): (r: seq<PackSnippet>)
    ensures packId !in packs ==> r == []
    ensures packId in packs ==> r == packs[packId]
  {
    if packId in packs then packs[packId] else []
  }

  /** `currentSnippet`, `showQuiz`, `selectedOption`, `isCorrect` and
      `completed`. */
  datatype Reader = Reader(
    current: nat,
    showQuiz: bool,
    selected: Option<int>,
    isCorrect: Option<bool>,
    completed: bool)

  const InitialReader: Reader := Reader(0, false, None, None, false)

  /** A pack the reader can show: at least one snippet, each with a quiz
      question (the reader reads `quiz[0]`). */
  predicate Readable(snips: seq<PackSnippet>) {
    |snips| > 0 && forall i :: 0 <= i < |snips| ==> |snips[i].quiz| > 0
  }

  /** The screen the state shows. */
  datatype Phase = Reading | Asking | AnsweredRight | AnsweredWrong | Done

  function PhaseOf(st: Reader): (p: Phase)
    ensures p == Done <==> st.completed
    ensures p == Reading <==> !st.completed && !st.showQuiz
    ensures p == Asking <==> !st.completed && st.showQuiz && st.selected.None?
    ensures p in {AnsweredRight, AnsweredWrong} <==> !st.completed && st.showQuiz && st.selected.Some?
  {
    if st.completed then Done
    else if !st.showQuiz then Reading
    else if st.selected.None? then Asking
    else if st.isCorrect == Some(true) then AnsweredRight
    else AnsweredWrong
  }

  /** `handleStartQuiz`. */
  function StartQuiz(st: Reader): (r: Reader)
    ensures r.showQuiz && r.selected.None? && r.isCorrect.None?
    ensures r.current == st.current && r.completed == st.completed
    ensures !st.completed ==> PhaseOf(r) == Asking
  {
    st.(showQuiz := true, selected := None, isCorrect := None)
  }

  /** `handleSelectOption`: the first selection is graded against the
      snippet's first quiz question; later ones are ignored. */
  function SelectOption(st: Reader, snips: seq<PackSnippet>, index: int): (r: Reader)
    requires st.current < |snips| && |snips[st.current].quiz| > 0
    ensures st.selected.Some? ==> r == st
    ensures st.selected.None? ==>
              && r.selected == Some(index)
              && r.isCorrect == Some(index == snips[st.current].quiz[0].correctIndex)
              && r.current == st.current && r.showQuiz == st.showQuiz && r.completed == st.completed
  {
    if st.selected.Some? then st
    else st.(selected := Some(index), isCorrect := Some(index == snips[st.current].quiz[0].correctIndex))
  }

  /** `handleNext`: complete on the last snippet, else go to the next
      snippet's text. */
  function Next(st: Reader, snips: seq<PackSnippet>): (r: Reader)
    ensures st.current == |snips| - 1 ==> r == st.(completed := true)
    ensures st.current != |snips| - 1 ==>
              && r.current == st.current + 1
              && !r.showQuiz && r.selected.None? && r.isCorrect.None?
              && r.completed == st.completed
  {
    if st.current == |snips| - 1 then st.(completed := true)
    else st.(current := st.current + 1, showQuiz := false, selected := None, isCorrect := None)
  }

  /** `handleRetry`: clear the answer, stay on the quiz. */
  function Retry(st: Reader): (r: Reader)
    ensures r.selected.None? && r.isCorrect.None?
    ensures r.(selected := st.selected, isCorrect := st.isCorrect) == st
  {
    st.(selected := None, isCorrect := None)
  }

  /** The "Back to reading" button: hide the quiz and nothing else. */
  function BackToReading(st: Reader): (r: Reader)
    ensures !r.showQuiz
    ensures r.(showQuiz := st.showQuiz) == st
  {
    st.(showQuiz := false)
  }

  datatype ReaderEvent = TakeQuiz | Pick(index: int) | Continue | TryAgain | Back

  /** The raw handlers, applied whether or not the screen offers them. */
  function Handle(st: Reader, snips: seq<PackSnippet>, e: ReaderEvent): Reader
    requires Readable(snips) && st.current < |snips|
  {
    match e
    case TakeQuiz => StartQuiz(st)
    case Pick(index) => SelectOption(st, snips, index)
    case Continue => Next(st, snips)
    case TryAgain => Retry(st)
    case Back => BackToReading(st)
  }

  /** Every handler keeps the index on a snippet and never clears
      `completed`. */
  lemma HandleKeepsIndexAndCompletion(st: Reader, snips: seq<PackSnippet>, e: ReaderEvent)
    requires Readable(snips) && st.current < |snips|
    ensures Handle(st, snips, e).current < |snips|
    ensures st.completed ==> Handle(st, snips, e).completed
  {
  }

  function HandleAll(st: Reader, snips: seq<PackSnippet>, es: seq<ReaderEvent>): Reader
    requires Readable(snips) && st.current < |snips|
    decreases |es|
  {
    if |es| == 0 then st
    else
      HandleKeepsIndexAndCompletion(st, snips, es[0]);
      HandleAll(Handle(st, snips, es[0]), snips, es[1..])
  }

  /** For any sequence of handler calls, the index stays in range and
      completion is never undone. */
  lemma {:induction false} HandleAllKeepsIndexAndCompletion(st: Reader, snips: seq<PackSnippet>, es: seq<ReaderEvent>)
    requires Readable(snips) && st.current < |snips|
    ensures HandleAll(st, snips, es).current < |snips|
    ensures st.completed ==> HandleAll(st, snips, es).completed
    decreases |es|
  {
    if |es| > 0 {
      HandleKeepsIndexAndCompletion(st, snips, es[0]);
      HandleAllKeepsIndexAndCompletion(Handle(st, snips, es[0]), snips, es[1..]);
    }
  }

  /** The buttons each screen shows: "Take Quick Quiz" while reading, the
      options and "Back to reading" on the quiz, "Next"/"Complete Pack" only
      after a right answer and "Try Again" only after a wrong one. */
  predicate Offered(st: Reader, e: ReaderEvent): (b: bool)
    ensures st.completed ==> !b
    ensures e.TakeQuiz? ==> (b <==> !st.completed && !st.showQuiz)
    ensures e.Back? ==> (b <==> !st.completed && st.showQuiz)
    ensures e.Continue? ==> (b <==> !st.completed && st.showQuiz && st.selected.Some? && st.isCorrect == Some(true))
    ensures e.TryAgain? ==> (b <==> !st.completed && st.showQuiz && st.selected.Some? && st.isCorrect != Some(true))
  {
    match e
    case TakeQuiz => PhaseOf(st) == Reading
    case Pick(_) => PhaseOf(st) == Asking
    case Continue => PhaseOf(st) == AnsweredRight
    case TryAgain => PhaseOf(st) == AnsweredWrong
    case Back => PhaseOf(st) in {Asking, AnsweredRight, AnsweredWrong}
  }

  /** A click; one on a button that is not shown does nothing. */
  function Click(st: Reader, snips: seq<PackSnippet>, e: ReaderEvent): Reader
    requires Readable(snips) && st.current < |snips|
  {
    if Offered(st, e) then Handle(st, snips, e) else st
  }

  /** The grade shown is the grade of the selected option. */
  ghost predicate Graded(st: Reader, snips: seq<PackSnippet>)
    requires Readable(snips) && st.current < |snips|
  {
    && (st.selected.Some? <==> st.isCorrect.Some?)
    && (st.selected.Some? ==>
          st.isCorrect.value == (st.selected.value == snips[st.current].quiz[0].correctIndex))
  }

  /** What holds on every screen reachable by clicking: the answer shown is
      graded, and a completed pack has its last question answered right. */
  ghost predicate Inv(st: Reader, snips: seq<PackSnippet>) {
    && Readable(snips)
    && st.current < |snips|
    && Graded(st, snips)
    && (st.completed ==> st.current == |snips| - 1 && st.isCorrect == Some(true))
  }

  lemma ClickKeepsInv(st: Reader, snips: seq<PackSnippet>, e: ReaderEvent)
    requires Inv(st, snips)
    ensures Inv(Click(st, snips, e), snips)
  {
  }

  function Clicks(st: Reader, snips: seq<PackSnippet>, es: seq<ReaderEvent>): Reader
    requires Inv(st, snips)
    decreases |es|
  {
    if |es| == 0 then st
    else
      ClickKeepsInv(st, snips, es[0]);
      Clicks(Click(st, snips, es[0]), snips, es[1..])
  }

  /** Completion through the screen implies that the last snippet's
      question was answered correctly. */
  lemma {:induction false} CompletionNeedsRightAnswer(st: Reader, snips: seq<PackSnippet>, es: seq<ReaderEvent>)
    requires Inv(st, snips)
    ensures var r := Clicks(st, snips, es);
            r.completed ==>
              && r.current == |snips| - 1
              && r.selected == Some(snips[|snips| - 1].quiz[0].correctIndex)
    decreases |es|
  {
    if |es| > 0 {
      ClickKeepsInv(st, snips, es[0]);
      CompletionNeedsRightAnswer(Click(st, snips, es[0]), snips, es[1..]);
    }
  }

  /** A click moves to another snippet, or completes the pack, only from a
      right answer on the current one. */
  lemma AdvanceNeedsRightAnswer(st: Reader, snips: seq<PackSnippet>, e: ReaderEvent)
    requires Inv(st, snips)
    ensures var r := Click(st, snips, e);
            (r.current != st.current || r.completed != st.completed) ==>
              && e == Continue
              && st.selected == Some(snips[st.current].quiz[0].correctIndex)
              && (r.current == st.current + 1 || r.completed)
  {
  }

  /** From the text of a snippet, taking the quiz, picking the right option
      and continuing reaches the next snippet's text, or completes the pack
      on the last one. */
  lemma {:induction false} RightAnswerPathAdvances(st: Reader, snips: seq<PackSnippet>)
    requires Inv(st, snips) && PhaseOf(st) == Reading
    ensures var r := Clicks(st, snips, [TakeQuiz, Pick(snips[st.current].quiz[0].correctIndex), Continue]);
            if st.current == |snips| - 1 then PhaseOf(r) == Done && r.current == st.current
            else PhaseOf(r) == Reading && r.current == st.current + 1
  {
    var c := snips[st.current].quiz[0].correctIndex;
    var es := [TakeQuiz, Pick(c), Continue];
    var s1 := Click(st, snips, TakeQuiz);
    assert PhaseOf(s1) == Asking;
    ClickKeepsInv(st, snips, TakeQuiz);
    var s2 := Click(s1, snips, Pick(c));
    assert PhaseOf(s2) == AnsweredRight;
    ClickKeepsInv(s1, snips, Pick(c));
    var s3 := Click(s2, snips, Continue);
    ClickKeepsInv(s2, snips, Continue);
    assert es[1..] == [Pick(c), Continue];
    assert [Pick(c), Continue][1..] == [Continue];
    assert Clicks(s2, snips, [Continue]) == Clicks(s3, snips, []) == s3;
    assert Clicks(s1, snips, [Pick(c), Continue]) == Clicks(s2, snips, [Continue]);
    assert Clicks(st, snips, es) == Clicks(s1, snips, es[1..]);
  }

  lemma InitialInv(snips: seq<PackSnippet>)
    requires Readable(snips)
    ensures Inv(InitialReader, snips)
  {
  }

  /** An unknown pack id yields nothing the reader can show; a known id
      whose snippets each carry a question opens on a screen where every
      invariant holds. */
  lemma PackOpens(packs: Packs, packId: string)
    ensures Readable(SnippetsOf(packs, packId)) <==> packId in packs && Readable(packs[packId])
    ensures Readable(SnippetsOf(packs, packId)) ==> Inv(InitialReader, SnippetsOf(packs, packId))
  {
    if Readable(SnippetsOf(packs, packId)) {
      InitialInv(SnippetsOf(packs, packId));
    }
  }
}
