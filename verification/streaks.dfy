/** The streak bookkeeping of the `useStreaks` hook.

    A calendar day is an integer: `today` is passed in explicitly and
    "yesterday" is `today - 1`, which stands for `subDays(new Date(), 1)`
    formatted as a `yyyy-MM-dd` key. The stored history maps a day to a
    boolean meaning "a quiz was attempted that day"; an absent key reads as
    not attempted, like an `undefined` property in the source. */
module Streaks {
  import opened Common

  type Day = int
  type History = map<Day, bool>

  /** The most recently opened roadmap unit. */
  datatype ActiveUnit = ActiveUnit(
    categoryId: string,
    roadmapIndex: int,
    unitIndex: int,
    unitTitle: string)

  /** The persisted record of the hook. */
  datatype StreakData = StreakData(
    currentStreak: int,
    longestStreak: int,
    quizAttemptedToday: bool,
    history: History,
    lastActiveRoadmap: Option<ActiveUnit>)

  /** Where an attempt came from; informational only. */
  datatype Source = DailySource | RoadmapSource | SnippetSource

  /** `!!history[key]`: the day is present and marked attempted. */
  predicate Marked(h: History, d: Day) {
    d in h && h[d]
  }

  /** Streak counters that make sense together. */
  predicate Sound(s: StreakData) {
    0 <= s.currentStreak <= s.longestStreak
  }

  /** The state used when nothing is stored. */
  const DefaultStreakData: StreakData := StreakData(0, 0, false, map[], None)

  /** `n` is the length of the maximal run of marked days ending at `end`:
      every one of the `n` days up to `end` is marked and the day just before
      them is not. */
  ghost predicate MaximalRun(h: History, end: Day, n: nat) {
    && (forall k :: end - n < k <= end ==> Marked(h, k))
    && !Marked(h, end - n)
  }

  /** The keys of `h` that are not after `d`; a finite set that shrinks as the
      backward walk proceeds, so it bounds the walk. */
  function KeysUpTo(h: History, d: Day): set<Day> {
    set k | k in h && k <= d
  }

  /** The backward walk of `calculateStreak` from day `d`: count marked days
      until the first unmarked one. */
  function RunLength(h: History, d: Day): (n: nat)
    ensures MaximalRun(h, d, n)
    ensures n <= |KeysUpTo(h, d)|
    decreases |KeysUpTo(h, d)|
  {
    if Marked(h, d) then
      assert KeysUpTo(h, d) == KeysUpTo(h, d - 1) + {d};
      1 + RunLength(h, d - 1)
    else
      0
  }

  /** A maximal run ending at a given day has only one possible length. */
  lemma MaximalRunUnique(h: History, end: Day, n: nat, m: nat)
    requires MaximalRun(h, end, n) && MaximalRun(h, end, m)
    ensures n == m
  {
  }

  /** `calculateStreak`: zero unless today or yesterday is marked; otherwise
      the run ending today if today is marked, else the run ending yesterday. */
  function CalculateStreak(h: History, today: Day): (n: nat)
    ensures n == 0 <==> !Marked(h, today) && !Marked(h, today - 1)
    ensures Marked(h, today) ==> MaximalRun(h, today, n)
    ensures !Marked(h, today) ==> MaximalRun(h, today - 1, n)
  {
    var todayDone := Marked(h, today);
    var yesterdayDone := Marked(h, today - 1);
    if !todayDone && !yesterdayDone then 0
    else RunLength(h, if todayDone then today else today - 1)
  }

  /** The run ending at `d` depends only on the marks at or before `d`. */
  lemma RunLengthOnlySeesPast(h: History, h': History, d: Day)
    requires forall k :: k <= d ==> (Marked(h, k) <==> Marked(h', k))
    ensures RunLength(h, d) == RunLength(h', d)
  {
    var n := RunLength(h, d);
    var m := RunLength(h', d);
    assert MaximalRun(h', d, n) by {
      assert !Marked(h, d - n);
    }
    MaximalRunUnique(h', d, n, m);
  }

  /** Load-time reconciliation: absent storage gives the default state;
      stored state is kept as-is except that `quizAttemptedToday` is
      re-derived from today's mark. */
  function Load(stored: Option<StreakData>, today: Day): (r: StreakData)
    ensures stored.None? ==> r == DefaultStreakData
    ensures stored.Some? ==> r.quizAttemptedToday == Marked(stored.value.history, today)
    ensures stored.Some? ==> r.(quizAttemptedToday := stored.value.quizAttemptedToday) == stored.value
  {
    match stored
    case None => DefaultStreakData
    case Some(parsed) =>
      if !Marked(parsed.history, today) then parsed.(quizAttemptedToday := false)
      else parsed.(quizAttemptedToday := parsed.history[today])
  }

  /** The streak shown after a reload is the stored one, even when the days
      since the last visit have broken it: one attempt on day `t` and a
      reload two days later still show a streak of one, although the
      history supports none. */
  lemma StaleStreakOnLoad(t: Day)
    ensures var stored := RecordQuizAttempt(DefaultStreakData, t, SnippetSource);
            var r := Load(Some(stored), t + 2);
            r.currentStreak == 1 && CalculateStreak(r.history, t + 2) == 0
  {
    var stored := RecordQuizAttempt(DefaultStreakData, t, SnippetSource);
    assert stored.history == map[t := true];
    assert !Marked(stored.history, t + 2) && !Marked(stored.history, t + 1);
  }

  /** Load-time reconciliation that also brings the streak up to date: the
      stored history is kept, the current streak is recomputed for today
      the way `recordQuizAttempt` computes it, and the longest streak is
      raised to it when needed. */
  function LoadFresh(stored: Option<StreakData>, today: Day): (r: StreakData)
    ensures stored.None? ==> r == DefaultStreakData
    ensures r.currentStreak == CalculateStreak(r.history, today)
    ensures r.quizAttemptedToday == Marked(r.history, today)
    ensures Sound(r)
    ensures stored.Some? ==> && r.history == stored.value.history
                             && r.lastActiveRoadmap == stored.value.lastActiveRoadmap
                             && r.longestStreak == Max(stored.value.longestStreak, r.currentStreak)
  {
    match stored
    case None => DefaultStreakData
    case Some(parsed) =>
      var streak := CalculateStreak(parsed.history, today);
      parsed.(quizAttemptedToday := Marked(parsed.history, today),
              currentStreak := streak,
              longestStreak := Max(parsed.longestStreak, streak))
  }

  /** When the stored streak is still current and the counters are sound,
      the recomputing load agrees with the as-written one. */
  lemma LoadFreshAgrees(stored: StreakData, today: Day)
    requires Sound(stored)
    requires stored.currentStreak == CalculateStreak(stored.history, today)
    ensures LoadFresh(Some(stored), today) == Load(Some(stored), today)
  {
  }

  /** `recordQuizAttempt`: mark today, recompute the streak over the new
      history and raise the longest streak if needed. */
  function RecordQuizAttempt(s: StreakData, today: Day, source: Source): (r: StreakData)
    ensures Marked(r.history, today) && r.quizAttemptedToday
    ensures r.history.Keys == s.history.Keys + {today}
    ensures forall d :: d in s.history && d != today ==> r.history[d] == s.history[d]
    ensures r.lastActiveRoadmap == s.lastActiveRoadmap
    ensures r.currentStreak >= 1 && MaximalRun(r.history, today, r.currentStreak)
    ensures r.longestStreak >= s.longestStreak && r.longestStreak >= r.currentStreak
    ensures r.longestStreak == s.longestStreak || r.longestStreak == r.currentStreak
  {
    var newHistory := s.history[today := true];
    var newStreak := CalculateStreak(newHistory, today);
    s.(quizAttemptedToday := true,
       history := newHistory,
       currentStreak := newStreak,
       longestStreak := Max(s.longestStreak, newStreak))
  }

  /** The source tag never influences the result. */
  lemma RecordIgnoresSource(s: StreakData, today: Day, a: Source, b: Source)
    ensures RecordQuizAttempt(s, today, a) == RecordQuizAttempt(s, today, b)
  {
  }

  /** A second attempt on the same day changes nothing. */
  lemma RecordIdempotent(s: StreakData, today: Day, a: Source, b: Source)
    ensures var once := RecordQuizAttempt(s, today, a);
            RecordQuizAttempt(once, today, b) == once
  {
    var once := RecordQuizAttempt(s, today, a);
    assert once.history[today := true] == once.history;
  }

  /** Recording today extends yesterday's run by one day, and starts a fresh
      streak of one when yesterday was not marked. */
  lemma RecordExtendsYesterday(s: StreakData, today: Day, source: Source)
    ensures RecordQuizAttempt(s, today, source).currentStreak
            == 1 + RunLength(s.history, today - 1)
  {
    var h' := s.history[today := true];
    RunLengthOnlySeesPast(s.history, h', today - 1);
    assert Marked(h', today);
    assert RunLength(h', today) == 1 + RunLength(h', today - 1);
  }

  /** `updateLastActiveRoadmap`: overwrite the resume position with exactly the four
      arguments. */
  function UpdateLastActiveRoadmap(s: StreakData, categoryId: string, roadmapIndex: int,
                                   unitIndex: int, unitTitle: string): (r: StreakData)
    ensures r.lastActiveRoadmap.Some?
    ensures r.lastActiveRoadmap.value.categoryId == categoryId
    ensures r.lastActiveRoadmap.value.roadmapIndex == roadmapIndex
    ensures r.lastActiveRoadmap.value.unitIndex == unitIndex
    ensures r.lastActiveRoadmap.value.unitTitle == unitTitle
    ensures r.(lastActiveRoadmap := s.lastActiveRoadmap) == s
  {
    s.(lastActiveRoadmap := Some(ActiveUnit(categoryId, roadmapIndex, unitIndex, unitTitle)))
  }

  /** One entry of the weekly view. */
  datatype WeekDay = WeekDay(day: Day, completed: nat, isGoalMet: bool, isToday: bool)

  /** `getWeeklyStreak`: the seven days ending today, oldest first. */
  function WeeklyStreak(h: History, today: Day): (w: seq<WeekDay>)
    ensures |w| == 7
    ensures forall i :: 0 <= i < 7 ==> w[i].day == today - 6 + i
    ensures forall i :: 0 <= i < 7 ==> (w[i].isToday <==> i == 6)
    ensures forall i :: 0 <= i < 7 ==> w[i].completed <= 1
    ensures forall i :: 0 <= i < 7 ==> (w[i].completed == 1 <==> Marked(h, w[i].day))
    ensures forall i :: 0 <= i < 7 ==> (w[i].isGoalMet <==> w[i].completed == 1)
  {
    seq(7, i requires 0 <= i < 7 =>
      var d := today - 6 + i;
      var attempted := Marked(h, d);
      WeekDay(d, if attempted then 1 else 0, attempted, d == today))
  }

  /** The weekly view agrees with the streak: the last `currentStreak` days
      of the run (today's or yesterday's) show as met, and the day before the
      run, when it falls inside the week, shows as not met. */
  lemma WeekAgreesWithStreak(h: History, today: Day)
    ensures var w := WeeklyStreak(h, today);
            var n := CalculateStreak(h, today);
            var e := if Marked(h, today) then 6 else 5;
            && (forall i :: 0 <= i && e - n < i <= e ==> w[i].isGoalMet)
            && (n <= e ==> !w[e - n].isGoalMet)
  {
    var w := WeeklyStreak(h, today);
    var n := CalculateStreak(h, today);
    var e := if Marked(h, today) then 6 else 5;
    forall i: int | 0 <= i && e - n < i <= e
      ensures w[i].isGoalMet
    {
      assert Marked(h, today - 6 + i);
    }
    if n <= e {
      assert !Marked(h, today - 6 + (e - n));
    }
  }

  /** The state machine the hook exposes to the app, with the corrected
      reload (`LoadFresh`) in place of the stored-streak load. */
  datatype StreakEvent =
    | Attempt(day: Day, source: Source)
    | Resume(unit: ActiveUnit)
    | Reload(day: Day)

  function Apply(s: StreakData, e: StreakEvent): StreakData {
    match e
    case Attempt(day, source) => RecordQuizAttempt(s, day, source)
    case Resume(p) => UpdateLastActiveRoadmap(s, p.categoryId, p.roadmapIndex, p.unitIndex, p.unitTitle)
    case Reload(day) => LoadFresh(Some(s), day)
  }

  function Run(s: StreakData, es: seq<StreakEvent>): StreakData
    decreases |es|
  {
    if |es| == 0 then s else Run(Apply(s, es[0]), es[1..])
  }

  /** Across any sequence of events the counters stay sound, the longest
      streak never decreases and a marked day stays marked. */
  lemma {:induction false} RunPreservesSound(s: StreakData, es: seq<StreakEvent>)
    requires Sound(s)
    ensures Sound(Run(s, es))
    ensures Run(s, es).longestStreak >= s.longestStreak
    ensures forall d :: Marked(s.history, d) ==> Marked(Run(s, es).history, d)
    decreases |es|
  {
    if |es| > 0 {
      var s' := Apply(s, es[0]);
      assert forall d :: Marked(s.history, d) ==> Marked(s'.history, d);
      RunPreservesSound(s', es[1..]);
    }
  }

  /** Running `es` and then `e` is running `e` after `es`. */
  lemma {:induction false} RunSnoc(s: StreakData, es: seq<StreakEvent>, e: StreakEvent)
    ensures Run(s, es + [e]) == Apply(Run(s, es), e)
    decreases |es|
  {
    if |es| == 0 {
      assert es + [e] == [e];
    } else {
      assert (es + [e])[1..] == es[1..] + [e];
      RunSnoc(Apply(s, es[0]), es[1..], e);
    }
  }

  /** After any events, a reload on day `d` shows the streak the history
      supports on `d`, and whether `d` was attempted. */
  lemma ReloadShowsHistory(s: StreakData, es: seq<StreakEvent>, d: Day)
    ensures var r := Run(s, es + [Reload(d)]);
            r.currentStreak == CalculateStreak(r.history, d)
            && r.quizAttemptedToday == Marked(r.history, d)
  {
    RunSnoc(s, es, Reload(d));
  }
}
