/**
 * The daily and weekly completion counters of a user and the policy that
 * rolls them over (`User.reset_counters` and the increments of the
 * `complete` route).
 *
 * The clock is not read here: `today` is the JST date at the moment of the
 * call and `now` the instant written back as the new reset time. The source
 * reads the clock twice, so the two are separate parameters.
 */
module Counters {
  import opened Wrappers
  import opened Dates

  /** The three counter columns of a user row. */
  datatype CounterState = CounterState(today: int, week: int, lastReset: Option<Instant>)

  /** The invariant the data model promises: counters are never negative. */
  predicate NonNegative(c: CounterState)
  {
    c.today >= 0 && c.week >= 0
  }

  /** The date test guarding the daily reset. */
  predicate DailyStale(last: Option<Instant>, today: Day)
  {
    last.None? || JstDate(last.value) < today
  }

  /** The date test guarding the weekly reset: last reset before this week's Monday. */
  predicate WeeklyStale(last: Option<Instant>, today: Day)
  {
    last.None? || JstDate(last.value) < WeekStart(today)
  }

  /** `reset_counters`: the weekly test sits inside the daily one, as in the source. */
  function Reset(c: CounterState, today: Day, now: Instant): CounterState
  {
    if DailyStale(c.lastReset, today) then
      var week := if WeeklyStale(c.lastReset, today) then 0 else c.week;
      CounterState(0, week, Some(now))
    else
      c
  }

  /** The counter part of the `complete` route: reset, then one more of each. */
  function AfterCompletion(c: CounterState, today: Day, now: Instant): CounterState
  {
    var r := Reset(c, today, now);
    r.(today := r.today + 1, week := r.week + 1)
  }

  /** A stale daily counter is zeroed and the reset time moves to `now`; otherwise nothing changes. */
  lemma ResetDaily(c: CounterState, today: Day, now: Instant)
    ensures DailyStale(c.lastReset, today) ==>
      Reset(c, today, now).today == 0 && Reset(c, today, now).lastReset == Some(now)
    ensures !DailyStale(c.lastReset, today) ==> Reset(c, today, now) == c
  {
  }

  /** A last reset before this week's Monday is always also before today. */
  lemma WeeklyStaleImpliesDailyStale(last: Option<Instant>, today: Day)
    ensures WeeklyStale(last, today) ==> DailyStale(last, today)
  {
  }

  /**
   * The weekly counter is zeroed exactly when the last reset is missing or
   * before this week's Monday, and otherwise kept.
   */
  lemma ResetWeekly(c: CounterState, today: Day, now: Instant)
    ensures Reset(c, today, now).week == if WeeklyStale(c.lastReset, today) then 0 else c.week
  {
    WeeklyStaleImpliesDailyStale(c.lastReset, today);
  }

  /** A daily roll-over within the same week leaves the weekly counter as it was. */
  lemma DailyResetWithinWeek(c: CounterState, today: Day, now: Instant)
    requires c.lastReset.Some?
    requires WeekStart(today) <= JstDate(c.lastReset.value) < today
    ensures Reset(c, today, now) == CounterState(0, c.week, Some(now))
  {
  }

  /**
   * Idempotence within one calendar day: once `now` lies on `today`, a second
   * reset on the same day, at any instant, changes nothing.
   */
  lemma ResetIdempotent(c: CounterState, today: Day, now: Instant, later: Instant)
    requires JstDate(now) == today
    ensures Reset(Reset(c, today, now), today, later) == Reset(c, today, now)
  {
  }

  /** Resetting never makes a counter negative. */
  lemma ResetKeepsNonNegative(c: CounterState, today: Day, now: Instant)
    requires NonNegative(c)
    ensures NonNegative(Reset(c, today, now))
  {
  }

  /**
   * Completion adds exactly one to both counters after the reset; counters stay
   * non-negative and today's count is at least one.
   */
  lemma CompletionCounts(c: CounterState, today: Day, now: Instant)
    requires NonNegative(c)
    ensures AfterCompletion(c, today, now).today == Reset(c, today, now).today + 1
    ensures AfterCompletion(c, today, now).week == Reset(c, today, now).week + 1
    ensures AfterCompletion(c, today, now).lastReset == Reset(c, today, now).lastReset
    ensures NonNegative(AfterCompletion(c, today, now))
    ensures AfterCompletion(c, today, now).today >= 1
  {
  }

  /** Two completions on the same day count two: the second one does not reset. */
  lemma SameDayCompletionsAccumulate(c: CounterState, today: Day, now: Instant, later: Instant)
    requires JstDate(now) == today
    ensures AfterCompletion(AfterCompletion(c, today, now), today, later).today
         == AfterCompletion(c, today, now).today + 1
    ensures AfterCompletion(AfterCompletion(c, today, now), today, later).week
         == AfterCompletion(c, today, now).week + 1
  {
  }

  /** The first completion of a new week counts one for the week as well as for the day. */
  lemma FirstCompletionOfWeek(c: CounterState, today: Day, now: Instant)
    requires WeeklyStale(c.lastReset, today)
    ensures AfterCompletion(c, today, now).today == 1
    ensures AfterCompletion(c, today, now).week == 1
  {
    ResetWeekly(c, today, now);
  }

  /** 2025-05-30 (Friday) noon JST, as an instant. */
  const FridayNoon: Instant := 20238 * SecondsPerDay + 3 * 3600
  /** 2025-06-02, a Monday. */
  const June2: Day := 20241
  /** 2025-06-04, a Wednesday. */
  const June4: Day := 20243

  /** Last reset on Friday, evaluated the following Monday: both counters roll over. */
  lemma FridayThenMonday(today: int, week: int, now: Instant)
    ensures Reset(CounterState(today, week, Some(FridayNoon)), June2, now) == CounterState(0, 0, Some(now))
  {
    assert JstDate(FridayNoon) == 20238;
    assert WeekStart(June2) == June2 by {
      WeekStartUnique(June2, June2);
    }
  }

  /** Last reset on Monday, evaluated that Wednesday: only the daily counter rolls over. */
  lemma MondayThenWednesday(today: int, week: int, at: Instant, now: Instant)
    requires JstDate(at) == June2
    ensures Reset(CounterState(today, week, Some(at)), June4, now) == CounterState(0, week, Some(now))
  {
    assert WeekStart(June4) == June2 by {
      WeekStartUnique(June4, June2);
    }
  }

  /**
   * A user row with counters updated in place (`User` in the source). Identity
   * columns never change in the modelled operations, so they are constants.
   */
  class User {
    const id: int
    const username: string
    var nickname: string
    var tasksCompletedToday: int
    var tasksCompletedThisWeek: int
    var lastResetDate: Option<Instant>

    /** The counter columns as one value. */
    function State(): CounterState
      reads this
    {
      CounterState(tasksCompletedToday, tasksCompletedThisWeek, lastResetDate)
    }

    ghost predicate Valid()
      reads this
    {
      NonNegative(State())
    }

    /** A new row: counters default to 0 and the reset time to the insertion instant. */
    constructor (id: int, username: string, nickname: string, now: Instant)
      ensures this.id == id && this.username == username && this.nickname == nickname
      ensures State() == CounterState(0, 0, Some(now))
      ensures Valid()
    {
      this.id := id;
      this.username := username;
      this.nickname := nickname;
      tasksCompletedToday := 0;
      tasksCompletedThisWeek := 0;
      lastResetDate := Some(now);
    }

    /** `reset_counters`, with the clock passed in. */
    method ResetCounters(today: Day, now: Instant)
      requires Valid()
      modifies this
      ensures Valid()
      ensures State() == Reset(old(State()), today, now)
      ensures nickname == old(nickname)
    {
      if lastResetDate.None? || JstDate(lastResetDate.value) < today {
        tasksCompletedToday := 0;
        var weekStart := today - Weekday(today);
        if lastResetDate.None? || JstDate(lastResetDate.value) < weekStart {
          tasksCompletedThisWeek := 0;
        }
        lastResetDate := Some(now);
      }
    }

    /** The counter updates of the `complete` route: reset, then `+= 1` on both counters. */
    method CountCompletion(today: Day, now: Instant)
      requires Valid()
      modifies this
      ensures Valid()
      ensures State() == AfterCompletion(old(State()), today, now)
      ensures tasksCompletedToday >= 1
      ensures nickname == old(nickname)
    {
      ResetCounters(today, now);
      tasksCompletedToday := tasksCompletedToday + 1;
      tasksCompletedThisWeek := tasksCompletedThisWeek + 1;
    }
  }
}
