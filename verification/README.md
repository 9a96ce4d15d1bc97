# Daily-focus learning app: streaks, bookmarks and quizzes

A Dafny model of the client-side logic of a daily micro-learning app. It
covers five pieces of state logic:

- **Streaks** (`src/hooks/useStreaks.ts`). A history of days on which a quiz
  was attempted, the current streak (the run of marked days ending today, or
  ending yesterday when today is not yet marked), the longest streak, a
  resume position in the last roadmap unit opened, and the seven-day strip shown on
  the streaks page. Loading a stored record is modelled twice: as written,
  and with the streak recomputed for today (see Findings).
- **Bookmarks** (`src/hooks/useBookmarks.ts`). A newest-first list of saved
  snippets, keyed by an id derived from topic and title: lower-case
  `topic-title`, each white-space run replaced by `-`. There are add, remove,
  toggle and is-bookmarked operations, and the guarded load from storage;
  a session pairs the list with the stored value across saves and remounts.
- **Interest quiz** (`src/components/explore/ExploreQuiz.tsx`). One option
  per question, recording the option's tags. At the end the tags are counted,
  ranked by count with a stable sort, and the top three tags are turned into
  at most three roadmap recommendations with distinct titles.
- **Snippet quiz modal** (`src/components/learning/QuizModal.tsx`). Scoring
  is 10, 5 or 2 points depending on earlier wrong attempts. A wrong answer is
  cleared by a 1200 ms timer. The final score is reported on finishing.
- **Quick 101 reader** (`src/components/explore/Quick101Reader.tsx`). Read a
  snippet, answer its one-question quiz, retry after a wrong answer, continue
  after a right one, and complete the pack after the last snippet.

Every handler is a pure function on an immutable state datatype. Each
component also has an event type and a `Run`/`Clicks` function that folds a
sequence of user events (and, for the modal, timer firings) over the state.
Lemmas state what holds after any such sequence. Calendar days are integers
(`today - 1` is yesterday). The storage read, the clock and the timestamp
are parameters.

Files:

| file | module | models |
|---|---|---|
| `common.dfy` | `Common` | `Option`, `Max`, `Min` |
| `streaks.dfy` | `Streaks` | `useStreaks` |
| `bookmarks.dfy` | `Bookmarks` | `useBookmarks` |
| `tag_ranking.dfy` | `TagRanking` | `getTopRoadmaps` of the interest quiz |
| `explore_quiz.dfy` | `ExploreQuiz` | the interest quiz screen |
| `quiz_modal.dfy` | `QuizModal` | the snippet quiz modal |
| `quick101.dfy` | `Quick101` | the Quick 101 reader |

## Model

| member | source | states |
|---|---|---|
| Common.Max | src/hooks/useStreaks.ts:86 | `Math.max` is an upper bound of both arguments and equals one of them |
| Streaks.Load | src/hooks/useStreaks.ts:28-41 | as written: no stored record gives the default (zero streaks, empty history, no roadmap); a stored record is kept as is, except that `quizAttemptedToday` is re-derived from whether today is marked in its history |
| Streaks.StaleStreakOnLoad | src/hooks/useStreaks.ts:35-38 | as written, one attempt on day t followed by a load on day t + 2 shows a current streak of 1 while the history supports 0 |
| Streaks.LoadFresh | src/hooks/useStreaks.ts:28-41 | the corrected load: no stored record gives the default; otherwise history and resume position are kept, `quizAttemptedToday` is today's mark, the current streak is the one `calculateStreak` gives for today's history, the longest streak is raised to it, and the counters are sound whatever was stored |
| Streaks.LoadFreshAgrees | src/hooks/useStreaks.ts:28-41 | when the stored streak is still current and its counters are sound, the corrected load and the load as written agree |
| Streaks.RunLength | src/hooks/useStreaks.ts:56-67 | walking back from a day while days are marked counts a maximal run ending on that day: every counted day is marked, and the day before the run is not |
| Streaks.CalculateStreak | src/hooks/useStreaks.ts:47-70 | the streak is 0 exactly when neither today nor yesterday is marked; otherwise it is the length of the maximal marked run ending today, or ending yesterday when today is unmarked |
| Streaks.RunLengthOnlySeesPast | src/hooks/useStreaks.ts:59-67 | the walk back from a day depends only on marks on or before that day |
| Streaks.RecordQuizAttempt | src/hooks/useStreaks.ts:73-91 | recording marks today and sets `quizAttemptedToday`; no other day changes and no day is forgotten; the resume position is kept; the current streak is at least 1 and is the maximal run ending today; the longest streak is the larger of the old longest and the new current |
| Streaks.RecordIgnoresSource | src/hooks/useStreaks.ts:73-78 | the `source` argument has no influence on the result |
| Streaks.RecordIdempotent | src/hooks/useStreaks.ts:72-87 | a second attempt on the same day changes nothing: only one attempt a day counts toward the streak |
| Streaks.RecordExtendsYesterday | src/hooks/useStreaks.ts:78-79 | after recording, the current streak is one more than the run that ended yesterday (1 when yesterday was not marked) |
| Streaks.UpdateLastActiveRoadmap | src/hooks/useStreaks.ts:93-101 | the resume position holds exactly the four arguments and every other field is unchanged |
| Streaks.WeeklyStreak | src/hooks/useStreaks.ts:103-118 | seven entries, oldest first, ending today; only the last is flagged as today; an entry is completed (1, else 0) and its goal met exactly when its day is marked |
| Streaks.WeekAgreesWithStreak | src/hooks/useStreaks.ts:103-118 | the strip and the streak agree: the days of the current run inside the week show as met, and the day just before the run, when inside the week, shows as not met |
| Streaks.RunPreservesSound | src/hooks/useStreaks.ts:81-87 | over any sequence of attempts, roadmap updates and (corrected) reloads, 0 <= current <= longest is kept, the longest streak never decreases and no marked day is unmarked |
| Streaks.ReloadShowsHistory | src/hooks/useStreaks.ts:28-41 | after any events, a (corrected) reload on a day shows the streak that day's history supports and whether that day was attempted |
| Bookmarks.AsciiSpaces | src/hooks/useBookmarks.ts:37 | the `\s` class matches, among ASCII characters, exactly space, tab, line feed, vertical tab, form feed and carriage return |
| Bookmarks.LowerChar | src/hooks/useBookmarks.ts:37 | lower-casing maps `A`..`Z` to `a`..`z` (code point + 32) and leaves every other character alone |
| Bookmarks.ToLower | src/hooks/useBookmarks.ts:37 | `toLowerCase` keeps the length and the white-space positions, leaves no upper-case letter, maps each upper-case letter to its lower-case partner (code point + 32) and leaves every other character as it is |
| Bookmarks.ToLowerConcat | src/hooks/useBookmarks.ts:37 | lower-casing `topic-title` is lower-casing each part and joining them |
| Bookmarks.DropSpaces | src/hooks/useBookmarks.ts:37 | skipping a white-space run yields a suffix whose dropped prefix is all white space and whose first character, if any, is not white space |
| Bookmarks.DropKeepsLetters | src/hooks/useBookmarks.ts:37 | skipping white space drops no other character |
| Bookmarks.CollapseSpaces | src/hooks/useBookmarks.ts:37 | `replace(/\s+/g, "-")` leaves no white space (as matched by `\s`), adds no upper case, and is the identity on strings without white space |
| Bookmarks.CollapseKeepsLetters | src/hooks/useBookmarks.ts:37 | the replacement keeps every character other than white space and `-`, in order |
| Bookmarks.CollapseFirstRun | src/hooks/useBookmarks.ts:37 | the first white-space run after a space-free prefix becomes exactly one `-`, and the rest is processed the same way |
| Bookmarks.BookmarkId | src/hooks/useBookmarks.ts:37 | a derived id has no white space and no upper case, and keeps the other characters of `topic-title` in order |
| Bookmarks.BookmarkIdJoins | src/hooks/useBookmarks.ts:37 | when topic and title have no white space, the id is exactly the lower-cased topic, `-`, and the lower-cased title |
| Bookmarks.HasId | src/hooks/useBookmarks.ts:40 | `some((b) => b.id === id)` holds exactly when some entry carries the id |
| Bookmarks.AddBookmark | src/hooks/useBookmarks.ts:36-50 | afterwards the id is present; if it already was, the list is unchanged; otherwise the new entry (fields of the snippet, the derived id, the given timestamp) is put in front of the unchanged old list; distinct ids stay distinct |
| Bookmarks.ConsUnique | src/hooks/useBookmarks.ts:49 | prepending keeps ids distinct exactly when the tail's ids are distinct and the new id is not among them |
| Bookmarks.RemoveBookmark | src/hooks/useBookmarks.ts:52-54 | afterwards no entry carries the id; an entry is kept exactly when it was present with another id; removing an absent id changes nothing |
| Bookmarks.RemoveKeepsUnique | src/hooks/useBookmarks.ts:52-54 | with distinct ids, removal keeps them distinct and drops exactly one entry when the id is present |
| Bookmarks.RemoveKeepsOrder | src/hooks/useBookmarks.ts:53 | filtering acts on each part of a split list separately, so the survivors keep their order |
| Bookmarks.IsBookmarked | src/hooks/useBookmarks.ts:56-59 | true exactly when some entry carries the id derived from topic and title |
| Bookmarks.ToggleBookmark | src/hooks/useBookmarks.ts:61-70 | toggling flips whether the snippet is bookmarked; membership of every entry with another id is unchanged; distinct ids stay distinct; a saved snippet is removed exactly as `removeBookmark` does, and an unsaved one is put at the front, ahead of the unchanged list |
| Bookmarks.ToggleTwiceRestores | src/hooks/useBookmarks.ts:61-70 | toggling an unsaved snippet twice gives back the original list |
| Bookmarks.LoadBookmarks | src/hooks/useBookmarks.ts:16-28 | the list starts empty; only a successfully parsed stored value replaces it; missing or unparseable storage leaves it empty |
| Bookmarks.OpsKeepIdsUnique | src/hooks/useBookmarks.ts:36-70 | any sequence of adds, removes and toggles keeps the ids pairwise distinct |
| Bookmarks.Open | src/hooks/useBookmarks.ts:16-28 | on mount the list is the stored list when it parses and empty otherwise; the storage is then read back as the list shown |
| Bookmarks.Step | src/hooks/useBookmarks.ts:31-70 | an operation that saves writes exactly the new list to storage; an add of an id already present returns before saving and changes nothing; a remount reloads from storage |
| Bookmarks.ReplayPersists | src/hooks/useBookmarks.ts:16-70 | across any mix of adds, removes, toggles and remounts, storage reads back as the list shown, so a remount never changes the list, and ids stay pairwise distinct |
| Bookmarks.OpenThenReplay | src/hooks/useBookmarks.ts:16-70 | from any stored value (a parsed list with distinct ids, or missing or unparseable storage), the same holds at every point after mounting |
| TagRanking.Flatten | src/components/explore/ExploreQuiz.tsx:257 | `answers.flat()` holds a tag exactly when some answer holds it |
| TagRanking.FlattenConcat | src/components/explore/ExploreQuiz.tsx:257 | `flat()` keeps order: it distributes over concatenation of the answer list, and a single answer flattens to its own tags |
| TagRanking.FirstAppearances | src/components/explore/ExploreQuiz.tsx:256-261 | the keys of `tagCounts`, in insertion order, are pairwise distinct, are exactly the picked tags, and list one tag before another exactly when it was first picked earlier |
| TagRanking.Bump | src/components/explore/ExploreQuiz.tsx:258 | incrementing a tag's count appends the tag to the keys when it is new and leaves the key order alone otherwise |
| TagRanking.BumpCounts | src/components/explore/ExploreQuiz.tsx:258 | incrementing adds one to that tag's count and nothing to any other |
| TagRanking.CountTags | src/components/explore/ExploreQuiz.tsx:256-259 | the counts object has the picked tags as keys in first-appearance order, and each tag's count is its number of occurrences among the picked tags |
| TagRanking.CountOf | src/components/explore/ExploreQuiz.tsx:258 | `tagCounts[tag] \|\| 0`: a tag that is not a key reads as 0, and a non-zero count is that of an entry for the tag |
| TagRanking.CountOfEntry | src/components/explore/ExploreQuiz.tsx:258 | with distinct keys, looking a key up finds its entry's count |
| TagRanking.CountTagsExact | src/components/explore/ExploreQuiz.tsx:256-261 | each entry of `Object.entries(tagCounts)` carries its tag's number of occurrences |
| TagRanking.InsertDesc | src/components/explore/ExploreQuiz.tsx:262 | inserting into the sorted list adds exactly the one entry |
| TagRanking.InsertSorted | src/components/explore/ExploreQuiz.tsx:262 | inserting keeps the list sorted by descending count |
| TagRanking.SortDesc | src/components/explore/ExploreQuiz.tsx:262 | `sort((a, b) => b[1] - a[1])` returns a permutation of its input, sorted by descending count |
| TagRanking.InsertKeepsTies | src/components/explore/ExploreQuiz.tsx:262 | insertion puts the entry ahead of the entries of equal count and keeps the others of each count in order |
| TagRanking.SortIsStable | src/components/explore/ExploreQuiz.tsx:262 | for every count, the entries with that count come out in the order they went in (the sort is stable) |
| TagRanking.Rank | src/components/explore/ExploreQuiz.tsx:261 | the position of a tag among the keys, equal to the key count exactly when the tag is not a key |
| TagRanking.InsertRanked | src/components/explore/ExploreQuiz.tsx:262 | inserting an entry that first appeared earlier than all listed entries keeps the list ordered by count, ties by first appearance |
| TagRanking.SortRanked | src/components/explore/ExploreQuiz.tsx:261-262 | sorting entries given in first-appearance order yields them by count, ties by first appearance |
| TagRanking.RankedTagsRanked | src/components/explore/ExploreQuiz.tsx:256-262 | the ranked entries are ordered by count with ties by first appearance, carry their tags' pick counts, and cover every picked tag |
| TagRanking.RankedPrefixAhead | src/components/explore/ExploreQuiz.tsx:261-264 | the tags of a prefix of the ranking are distinct, in ranking order, and each ranks ahead of every picked tag outside the prefix |
| TagRanking.TopTags | src/components/explore/ExploreQuiz.tsx:255-264 | `slice(0, 3)` keeps three tags, or all when fewer than three distinct tags were picked; they are distinct picked tags, best first (more picks, or as many and picked first earlier), and each ranks ahead of every picked tag left out |
| TagRanking.Lookup | src/components/explore/ExploreQuiz.tsx:268 | `recommendedRoadmaps[tag] \|\| []`: a tag missing from the catalog has no roadmaps |
| TagRanking.Candidates | src/components/explore/ExploreQuiz.tsx:266-275 | every roadmap the nested loops visit is labelled with one of the top tags and is a roadmap the catalog lists under that label, and every roadmap of each top tag is visited |
| TagRanking.CandidatesConcat | src/components/explore/ExploreQuiz.tsx:266-275 | the loops visit tag by tag: the candidates of two tag lists joined are those of the first followed by those of the second, and one tag contributes exactly its catalog roadmaps, in catalog order, labelled with the tag |
| TagRanking.GreedyConcat | src/components/explore/ExploreQuiz.tsx:267-274 | the greedy pass over a concatenation is the pass over the first part followed by the pass over the second, so nesting the loops is one pass over all candidates |
| TagRanking.Label | src/components/explore/ExploreQuiz.tsx:271 | each roadmap of a tag becomes a recommendation with the same title and description and that tag as category |
| TagRanking.SubseqConcat | src/components/explore/ExploreQuiz.tsx:267-274 | results gathered from consecutive parts of the candidates together form a subsequence of all candidates |
| TagRanking.SubseqMembers | src/components/explore/ExploreQuiz.tsx:267-274 | every recommendation of a subsequence is one of the candidates |
| TagRanking.Offer | src/components/explore/ExploreQuiz.tsx:270-272 | a roadmap is appended exactly when fewer than three are collected and its title is new; the list stays at most three long with distinct titles |
| TagRanking.OfferAll | src/components/explore/ExploreQuiz.tsx:268-273 | one tag's pass is the greedy pass over its labelled roadmaps: each in catalog order is appended exactly when fewer than three are collected and its title is new; it only appends; when fewer than three result, every roadmap title of the tag is present |
| TagRanking.Collect | src/components/explore/ExploreQuiz.tsx:267-274 | the nested loops are the greedy pass over all candidates in visiting order (append when fewer than three and the title is new); they only append a subsequence of the candidates; the list stays admissible; when fewer than three result, every candidate's title is present |
| TagRanking.GetTopRoadmaps | src/components/explore/ExploreQuiz.tsx:255-277 | the greedy pass over the roadmaps of the top tags: each candidate in visiting order is taken exactly when fewer than three are taken and its title is new; so at most three recommendations with distinct titles, fewer only when every candidate title is among them |
| ExploreQuiz.SelectOption | src/components/explore/ExploreQuiz.tsx:236-239 | the first selection is recorded and nothing else changes; once something is selected, further selections are ignored |
| ExploreQuiz.Next | src/components/explore/ExploreQuiz.tsx:241-253 | without a selection nothing happens; otherwise the selected option's tags are appended, and the last question shows the results while any other moves to the next question with the selection cleared |
| ExploreQuiz.Enabled | src/components/explore/ExploreQuiz.tsx:279-393 | the results screen replaces the questions, so no button acts there; an option button acts only while nothing is selected, the next button only once something is |
| ExploreQuiz.OneControl | src/components/explore/ExploreQuiz.tsx:365-393 | while the questions show, the option buttons are live exactly when the next button is hidden |
| ExploreQuiz.StepKeepsInv | src/components/explore/ExploreQuiz.tsx:236-253 | every click keeps the screen invariant: index in range, selection a real option, one recorded tag list per question passed, each the tags of an option of its question |
| ExploreQuiz.RunKeepsInv | src/components/explore/ExploreQuiz.tsx:236-253 | any click sequence keeps the invariant; on the results screen exactly one tag list per question has been recorded |
| ExploreQuiz.InitialInv | src/components/explore/ExploreQuiz.tsx:228-231 | the initial state satisfies the invariant for any non-empty question list |
| ExploreQuiz.Results | src/components/explore/ExploreQuiz.tsx:279-280 | the results screen shows the greedy pick over the roadmaps of the top tags of the recorded answers: at most three, with distinct titles |
| QuizModal.Points | src/components/learning/QuizModal.tsx:49 | 10 points on the first try, 5 on the second, 2 afterwards |
| QuizModal.HandleAnswer | src/components/learning/QuizModal.tsx:41-59 | once answered correctly, answers are ignored; otherwise a right answer locks the question and adds the points for the attempt count, and a wrong one adds nothing, counts an attempt and schedules a reset |
| QuizModal.ResetFeedbackAsWritten | src/components/learning/QuizModal.tsx:54-57 | the timer clears selection and feedback whatever happened since it was scheduled |
| QuizModal.ResetFeedback | src/components/learning/QuizModal.tsx:54-57 | the intended reset clears the feedback of a wrong answer only; a correct answer stays locked; score, attempts, index and completion are untouched |
| QuizModal.HandleNext | src/components/learning/QuizModal.tsx:61-71 | the last question completes the quiz and reports the current score; any other moves on with selection, feedback and attempt count cleared, the score kept, and a pending reset still pending (nothing cancels its timer) |
| QuizModal.Enabled | src/components/learning/QuizModal.tsx:73-212 | once completed, only a pending timer acts; before, the options act until a correct answer and the next/finish button only after one |
| QuizModal.OneControl | src/components/learning/QuizModal.tsx:153-212 | before completion the options are live exactly when the next/finish button is hidden |
| QuizModal.StepKeepsIndex | src/components/learning/QuizModal.tsx:61-71 | no event moves the index past the last question |
| QuizModal.StepKeepsInv | src/components/learning/QuizModal.tsx:41-71 | with the intended reset, every event keeps the score between 2 and 10 points per cleared question |
| QuizModal.RunKeepsInv | src/components/learning/QuizModal.tsx:41-71 | the same bound after any sequence of clicks and timer firings |
| QuizModal.FinalScoreBounded | src/components/learning/QuizModal.tsx:61-75 | with the intended reset, the score reported on finishing lies between 2 and 10 points per question, so never above `questions.length * 10` |
| QuizModal.AsWrittenScoreExceedsMaximum | src/components/learning/QuizModal.tsx:41-74 | with the reset as written, a concrete two-question click sequence ends with 25 points, above the maximum of 20 |
| Quick101.SnippetsOf | src/components/explore/Quick101Reader.tsx:173 | an unknown pack id gives no snippets; a known one gives its snippets |
| Quick101.PackOpens | src/components/explore/Quick101Reader.tsx:173-175 | the looked-up snippets are readable exactly when the pack id is known and its pack is readable; a readable pack opens on a state satisfying the invariant |
| Quick101.PhaseOf | src/components/explore/Quick101Reader.tsx:209-311 | the screen shown: the completion screen when completed, the text when the quiz is hidden, the bare question before a selection, feedback after one |
| Quick101.StartQuiz | src/components/explore/Quick101Reader.tsx:181-185 | the quiz is shown with no answer selected; snippet and completion are unchanged |
| Quick101.SelectOption | src/components/explore/Quick101Reader.tsx:187-191 | the first selection is graded against the snippet's first question; later selections are ignored |
| Quick101.Next | src/components/explore/Quick101Reader.tsx:193-202 | the last snippet completes the pack; any other moves to the next snippet's text with the answer cleared |
| Quick101.Retry | src/components/explore/Quick101Reader.tsx:204-207 | the answer is cleared and nothing else changes |
| Quick101.BackToReading | src/components/explore/Quick101Reader.tsx:248-249 | the quiz is hidden and nothing else changes, the answer included |
| Quick101.HandleKeepsIndexAndCompletion | src/components/explore/Quick101Reader.tsx:181-207 | every handler keeps the index on a snippet and never undoes completion |
| Quick101.HandleAllKeepsIndexAndCompletion | src/components/explore/Quick101Reader.tsx:181-207 | the same for any sequence of handler calls |
| Quick101.Offered | src/components/explore/Quick101Reader.tsx:209-311 | the completion screen offers none of the reader's buttons; "Take Quick Quiz" only on the text, "Back to reading" only on the quiz, "Next" only after a right answer and "Try Again" only after a wrong one |
| Quick101.ClickKeepsInv | src/components/explore/Quick101Reader.tsx:242-306 | clicking what the screen offers keeps the shown grade equal to the grade of the selected option, and completion only on the last snippet after a right answer |
| Quick101.CompletionNeedsRightAnswer | src/components/explore/Quick101Reader.tsx:193-202 | after any click sequence, a completed pack is on its last snippet with that snippet's correct option selected |
| Quick101.AdvanceNeedsRightAnswer | src/components/explore/Quick101Reader.tsx:296-306 | a click changes the snippet or completes the pack only when it is the continue button and the current question was answered right |
| Quick101.RightAnswerPathAdvances | src/components/explore/Quick101Reader.tsx:181-202 | from a snippet's text, taking the quiz, picking the right option and continuing reaches the next snippet's text, or completes the pack on the last snippet |
| Quick101.InitialInv | src/components/explore/Quick101Reader.tsx:165-170 | the initial state satisfies the invariant for any readable pack |

## Left out

- Dates and time zones. `date-fns` formatting, `new Date()` and `isToday` are replaced by integer day numbers; `today` is a parameter. Two readings of the clock that straddle midnight are not modelled.
- Storage and JSON. `localStorage`, `JSON.parse`/`stringify` are not modelled as text. A stored record is `Option<StreakData>` or the `Stored` datatype, and for bookmarks the saved value is the list itself (`Bookmarks.Session`). `if (stored)` treats an empty string as absent; that case folds into `None`/`Absent`.
- Bookmarks.LoadBookmarks: a stored value that parses but is not a list (`null`, `{}`, a number) is not modelled. The source would install it as the list, and the next `.some` in `addBookmark` or `isBookmarked` would throw. The model's `Stored` has only a parsed list, a parse failure and absence.
- Streaks.Load: a stored record that parses but has the wrong shape is not modelled. Its history is taken as a well-formed day-to-boolean map.
- Bookmarks.ToLower: only ASCII letters are lower-cased. JavaScript's `toLowerCase` applies the full Unicode case mapping, which lower-cases `É` to `é` and can also change length (e.g. `İ`).
- Bookmarks.LowerChar: maps only `A`..`Z`; every other character, `É` included, is left alone, unlike JavaScript.
- Bookmarks.BookmarkId: for a topic or title with non-ASCII upper-case letters the model's id keeps them upper-case, where the source's id would lower-case them; two such snippets differing only in that case get different ids in the model and the same id in the source.
- Bookmarks.AddBookmark: `savedAt` (`new Date().toISOString()`) is a parameter.
- Bookmarks.ToggleBookmark: models what toggling does to the current list. React's batching and stale closures are not modelled. Every handler below reads the list or index captured at its last render and is modelled as acting on the current state, as if each click came after a re-render.
- Bookmarks.AddBookmark: two adds before a re-render both read the old `bookmarks` (useBookmarks.ts:40, 49), so the second would overwrite the first; not modelled.
- Bookmarks.RemoveBookmark: the same for `bookmarks.filter` (useBookmarks.ts:53).
- ExploreQuiz.Next: the same for `[...answers, selectedTags]` and `currentQuestion + 1` (ExploreQuiz.tsx:245, 250).
- Quick101.Next: the same for `currentSnippet + 1` (Quick101Reader.tsx:197).
- TagRanking.CountOf: `tagCounts` is a plain `{}`, so a tag spelled like an inherited property (`constructor`, `toString`) reads a function rather than `undefined` at ExploreQuiz.tsx:258, and `|| 0` then yields a string; `__proto__` cannot be set at all. The model's map has no inherited keys, so such tags count like any other.
- TagRanking.Lookup: the same for `recommendedRoadmaps[tag] || []` at ExploreQuiz.tsx:268; an inherited-property tag reads a function and the following `forEach` throws, where the model gives `[]`.
- TagRanking.FirstAppearances: JavaScript objects enumerate integer-like keys first, in numeric order, before the other keys. The model uses insertion order throughout, which matches the tags the app uses (words such as `tech`, `finance`).
- The static content (quiz questions, the recommended-roadmap table, the Quick 101 packs) is a parameter (`qs`, `catalog`, `snips`), not the literal arrays.
- ExploreQuiz.Next requires the selection to be one of the current question's options. Only the option buttons set it, and an out-of-range index would make the source read `tags` of `undefined`.
- Quick101.Offered: a pick of any index is offered on the question screen, while the screen renders one button per option of the question. An index outside the options grades as wrong unless `correctIndex` itself lies outside them.
- Quick101: the reader renders `snippet.image` and `snippet.quiz[0]` for the current snippet. It therefore fails for an unknown or empty pack, and for a snippet without a quiz question. The click-level lemmas assume a readable pack (`Readable`); `SnippetsOf` models the `|| []` fallback itself.
- QuizModal.HandleAnswer: requires `st.current < |qs|`, as does `QuizModal.HandleNext`, so an empty question list is not modelled. The source reads `questions[0]` (QuizModal.tsx:38) and renders `question.question` (line 148), which throws for an empty list.
- Percentages and `Math.round` (`QuizModal.tsx:75`) are display only and are left out. Also left out: text-to-speech, authentication, theme and routing, scroll effects and all rendering.
- The timer's 1200 ms delay is not modelled as time. A pending reset is a count, and its firing is an event that may happen after any later click.
- The streaks page's description of daily goals and milestones has no counterpart in the hook: a day's goal is met exactly when a quiz was attempted. The model follows the hook.

## Findings

| source | as written | input that shows it | evidently intended | confidence | as-written member | corrected member |
|---|---|---|---|---|---|---|
| src/components/learning/QuizModal.tsx:54-57 | A wrong answer schedules a reset of `selectedAnswer` and `isCorrect` that is never cancelled. If a correct answer (on the same or the next question) comes before it fires, the reset unlocks that question, which can then be scored again. The reported score can exceed `questions.length * 10` (line 74). | Two questions, option 0 right in both. Click option 1, then option 0 (+5), Next, option 0 (+10), all within 1200 ms. The timer fires and clears the second question. Click option 0 again (+10): 25 points out of 20. | The reset clears only a wrong answer's feedback, so a correct answer stays locked. The final score is then between 2 and 10 points per question. | medium: not executed; needs three clicks within 1.2 s | QuizModal.ResetFeedbackAsWritten, QuizModal.AsWrittenScoreExceedsMaximum | QuizModal.ResetFeedback, QuizModal.FinalScoreBounded |
| src/hooks/useStreaks.ts:35-38 | Loading a stored record re-derives only `quizAttemptedToday`. The stored `currentStreak` is shown unchanged, and `calculateStreak` runs only inside `recordQuizAttempt`. | One attempt on day t (streak 1), then reopen the app on day t + 2 without attempting: the page shows a streak of 1, while neither day t + 2 nor day t + 1 is marked, so the history supports 0. | The streak shown after loading is the one the history supports today, the same computation `recordQuizAttempt` uses (lines 79, 86). | medium: not executed; depends on the page showing `currentStreak` before any attempt | Streaks.Load, Streaks.StaleStreakOnLoad | Streaks.LoadFresh, Streaks.ReloadShowsHistory |
