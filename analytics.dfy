/**
 * Same-day totals and the consecutive-day streak, computed over the records
 * the store returns.
 */
module Analytics {
  import opened Calendar
  import opened LogRecord

  datatype DailyStats = DailyStats(solvedToday: int, timeToday: int, streak: int)

  /** The distinct local days (as midnights) on which some record was logged. */
  ghost function LoggedDays(logs: seq<Log>): set<Instant>
  {
    set l | l in logs :: NormalizeDate(l.date)
  }

  /** The day a streak is counted back from: today if it has a record, else yesterday. */
  ghost function StreakStart(days: set<Instant>, now: Instant): Instant
  {
    var today := NormalizeDate(now);
    if today in days then today else PreviousDay(today)
  }

  /**
   * `n` is the streak: the `n` days counted back from the start day all have a
   * record and the day just before them has none.
   */
  ghost predicate IsStreak(days: set<Instant>, now: Instant, n: int)
  {
    var start := StreakStart(days, now);
    && n >= 0
    && (forall i :: 0 <= i < n ==> DaysBefore(start, i) in days)
    && DaysBefore(start, n) !in days
  }

  /** The characterisation of IsStreak leaves exactly one value. */
  lemma StreakDetermined(days: set<Instant>, now: Instant, n: int, k: int)
    requires IsStreak(days, now, n) && IsStreak(days, now, k)
    ensures n == k
  {
  }

  /** The days `d`, `d` minus one day, ..., `d` minus `n - 1` days. */
  ghost function Run(d: Instant, n: nat): set<Instant>
  {
    set i | 0 <= i < n :: DaysBefore(d, i)
  }

  lemma {:induction false} RunSize(d: Instant, n: nat)
    ensures |Run(d, n)| == n
  {
    if n > 0 {
      RunSize(d, n - 1);
      assert Run(d, n) == Run(d, n - 1) + {DaysBefore(d, n - 1)};
      if DaysBefore(d, n - 1) in Run(d, n - 1) {
        var i :| 0 <= i < n - 1 && DaysBefore(d, i) == DaysBefore(d, n - 1);
        DaysBeforeInjective(d, i, n - 1);
      }
    }
  }

  lemma {:induction false} SubsetSize<T>(a: set<T>, b: set<T>)
    requires a <= b
    ensures |a| <= |b|
  {
    if a != {} {
      var x :| x in a;
      SubsetSize(a - {x}, b - {x});
    }
  }

  /** A run of `n` logged days needs at least `n` distinct logged days. */
  lemma {:induction false} RunBoundedByDays(days: set<Instant>, d: Instant, n: nat)
    requires forall i :: 0 <= i < n ==> DaysBefore(d, i) in days
    ensures n <= |days|
  {
    RunSize(d, n);
    SubsetSize(Run(d, n), days);
  }

  /**
   * The streak of consecutive logged days ending today, or ending yesterday
   * when today has no record yet.
   */
  method CalculateStreak(logs: seq<Log>, now: Instant) returns (streak: int)
    ensures logs == [] ==> streak == 0
    ensures IsStreak(LoggedDays(logs), now, streak)
    ensures NormalizeDate(now) !in LoggedDays(logs) && PreviousDay(NormalizeDate(now)) !in LoggedDays(logs)
            ==> streak == 0
    ensures streak <= |LoggedDays(logs)|
  {
    if |logs| == 0 {
      return 0;
    }
    var uniqueDates: set<Instant> := {};
    for k := 0 to |logs|
      invariant uniqueDates == LoggedDays(logs[..k])
    {
      assert logs[..k + 1] == logs[..k] + [logs[k]];
      uniqueDates := uniqueDates + {NormalizeDate(logs[k].date)};
    }
    assert logs[..|logs|] == logs;
    streak := 0;
    var dayToCheck := NormalizeDate(now);
    if dayToCheck !in uniqueDates {
      dayToCheck := PreviousDay(dayToCheck);
    }
    ghost var start := dayToCheck;
    while dayToCheck in uniqueDates
      invariant 0 <= streak <= |uniqueDates|
      invariant dayToCheck == DaysBefore(start, streak)
      invariant forall i :: 0 <= i < streak ==> DaysBefore(start, i) in uniqueDates
      decreases |uniqueDates| - streak
    {
      RunBoundedByDays(uniqueDates, start, streak + 1);
      streak := streak + 1;
      dayToCheck := PreviousDay(dayToCheck);
    }
  }

  /** The records strictly after `startOfDay`, in their original order. */
  function TodayLogs(logs: seq<Log>, startOfDay: Instant): (r: seq<Log>)
    ensures |r| <= |logs|
    ensures forall l :: l in r <==> l in logs && l.date > startOfDay
  {
    if logs == [] then []
    else if logs[0].date > startOfDay then [logs[0]] + TodayLogs(logs[1..], startOfDay)
    else TodayLogs(logs[1..], startOfDay)
  }

  function TotalTime(logs: seq<Log>): int
  {
    if logs == [] then 0 else logs[0].timeSpent + TotalTime(logs[1..])
  }

  lemma {:induction false} TodayLogsAppend(logs: seq<Log>, l: Log, startOfDay: Instant)
    ensures TodayLogs(logs + [l], startOfDay)
         == TodayLogs(logs, startOfDay) + (if l.date > startOfDay then [l] else [])
  {
    if logs != [] {
      assert (logs + [l])[1..] == logs[1..] + [l];
      TodayLogsAppend(logs[1..], l, startOfDay);
    }
  }

  lemma {:induction false} TotalTimeAppend(logs: seq<Log>, extra: seq<Log>)
    ensures TotalTime(logs + extra) == TotalTime(logs) + TotalTime(extra)
  {
    if logs == [] {
      assert logs + extra == extra;
    } else {
      assert (logs + extra)[1..] == logs[1..] + extra;
      TotalTimeAppend(logs[1..], extra);
    }
  }

  /** A record stamped exactly at midnight does not count for that day. */
  lemma MidnightExcluded(logs: seq<Log>, now: Instant, l: Log)
    requires l.date == NormalizeDate(now)
    ensures l !in TodayLogs(logs, NormalizeDate(now))
  {
  }

  /**
   * The counting loop of the daily statistics: how many records fall strictly
   * after today's midnight and how many minutes they add up to.
   */
  method CountToday(logs: seq<Log>, now: Instant) returns (solvedToday: int, timeToday: int)
    ensures solvedToday == |TodayLogs(logs, NormalizeDate(now))|
    ensures timeToday == TotalTime(TodayLogs(logs, NormalizeDate(now)))
    ensures 0 <= solvedToday <= |logs|
  {
    var startOfDay := NormalizeDate(now);
    solvedToday, timeToday := 0, 0;
    for k := 0 to |logs|
      invariant solvedToday == |TodayLogs(logs[..k], startOfDay)|
      invariant timeToday == TotalTime(TodayLogs(logs[..k], startOfDay))
    {
      assert logs[..k + 1] == logs[..k] + [logs[k]];
      TodayLogsAppend(logs[..k], logs[k], startOfDay);
      if logs[k].date > startOfDay {
        TotalTimeAppend(TodayLogs(logs[..k], startOfDay), [logs[k]]);
        solvedToday := solvedToday + 1;
        timeToday := timeToday + logs[k].timeSpent;
      } else {
        assert TodayLogs(logs[..k], startOfDay) + [] == TodayLogs(logs[..k], startOfDay);
      }
    }
    assert logs[..|logs|] == logs;
  }
}
