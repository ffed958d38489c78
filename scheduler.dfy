/**
 * The daily reminder: at the reminder hour, at most once per calendar day,
 * send a reminder email when nothing has been solved today.
 */
module Scheduler {
  import opened Calendar
  import opened LogRecord
  import opened Analytics
  import opened Storage

  const ReminderHour: int := 2

  /** What one check did. */
  datatype Reminder =
    | OutsideReminderHour
    | AlreadyRemindedToday
    | StatsUnavailable
    | AlreadySolvedToday
    | ReminderAttempted(delivered: bool)

  /**
   * The decision of one check, given the last reminder time, the current
   * time, what reading the statistics gave (None when it failed) and whether
   * sending the email failed.
   */
  function Decide(last: Instant, now: Instant, solvedToday: Option<int>, sendFails: bool): (r: Reminder)
    ensures r.ReminderAttempted? <==>
              Hour(now) == ReminderHour && !SameDay(now, last) && solvedToday == Some(0)
    ensures r.ReminderAttempted? ==> r.delivered == !sendFails
    ensures r.OutsideReminderHour? <==> Hour(now) != ReminderHour
  {
    if Hour(now) != ReminderHour then OutsideReminderHour
    else if SameDay(now, last) then AlreadyRemindedToday
    else if solvedToday.None? then StatsUnavailable
    else if solvedToday.value == 0 then ReminderAttempted(!sendFails)
    else AlreadySolvedToday
  }

  /** The last reminder time after a check. */
  function LastAfter(last: Instant, now: Instant, outcome: Reminder): Instant
  {
    if outcome.ReminderAttempted? then now else last
  }

  /** One check as the scheduler sees it: when it ran and what it would read. */
  datatype Check = Check(now: Instant, solvedToday: Option<int>, sendFails: bool)

  /** The outcomes of a sequence of checks starting from `last`. */
  function Replay(last: Instant, checks: seq<Check>): (outcomes: seq<Reminder>)
    ensures |outcomes| == |checks|
    ensures forall i :: 0 <= i < |checks| ==>
              (outcomes[i].ReminderAttempted? ==>
                 Hour(checks[i].now) == ReminderHour && checks[i].solvedToday == Some(0))
    ensures forall i :: 0 <= i < |checks| ==>
              (outcomes[i].OutsideReminderHour? <==> Hour(checks[i].now) != ReminderHour)
    decreases checks
  {
    if checks == [] then []
    else
      var c := checks[0];
      var outcome := Decide(last, c.now, c.solvedToday, c.sendFails);
      [outcome] + Replay(LastAfter(last, c.now, outcome), checks[1..])
  }

  ghost predicate Chronological(checks: seq<Check>)
  {
    forall i, j :: 0 <= i < j < |checks| ==> checks[i].now <= checks[j].now
  }

  /** A check never attempts a reminder on the day of the last one. */
  lemma {:induction false} NoAttemptOnLastDay(last: Instant, checks: seq<Check>)
    requires Chronological(checks)
    requires forall i :: 0 <= i < |checks| ==> last <= checks[i].now
    ensures forall j :: 0 <= j < |checks| && Replay(last, checks)[j].ReminderAttempted? ==>
              !SameDay(checks[j].now, last)
    decreases checks
  {
    if checks != [] {
      var c := checks[0];
      var outcome := Decide(last, c.now, c.solvedToday, c.sendFails);
      var last' := LastAfter(last, c.now, outcome);
      var rest := checks[1..];
      NoAttemptOnLastDay(last', rest);
      forall j | 1 <= j < |checks| && Replay(last, checks)[j].ReminderAttempted?
        ensures !SameDay(checks[j].now, last)
      {
        assert Replay(last, checks)[j] == Replay(last', rest)[j - 1];
        if last' != last {
          NormalizeMonotone(last, c.now);
          NormalizeMonotone(c.now, checks[j].now);
        }
      }
    }
  }

  /** Over checks in time order, at most one reminder is attempted per calendar day. */
  lemma {:induction false} AtMostOnePerDay(last: Instant, checks: seq<Check>)
    requires Chronological(checks)
    ensures forall i, j :: 0 <= i < j < |checks| ==>
              (Replay(last, checks)[i].ReminderAttempted? && Replay(last, checks)[j].ReminderAttempted? ==>
               !SameDay(checks[i].now, checks[j].now))
    decreases checks
  {
    if checks != [] {
      var c := checks[0];
      var outcome := Decide(last, c.now, c.solvedToday, c.sendFails);
      var last' := LastAfter(last, c.now, outcome);
      var rest := checks[1..];
      AtMostOnePerDay(last', rest);
      if outcome.ReminderAttempted? {
        NoAttemptOnLastDay(c.now, rest);
      }
      forall i, j | 0 <= i < j < |checks| &&
          Replay(last, checks)[i].ReminderAttempted? && Replay(last, checks)[j].ReminderAttempted?
        ensures !SameDay(checks[i].now, checks[j].now)
      {
        assert Replay(last, checks)[j] == Replay(last', rest)[j - 1];
        if i > 0 {
          assert Replay(last, checks)[i] == Replay(last', rest)[i - 1];
        }
      }
    }
  }

  /** The reminder service, holding the time of the last reminder sent. */
  class ReminderService {
    var lastReminderSent: Instant

    constructor ()
      ensures lastReminderSent == ZeroTime
    {
      lastReminderSent := ZeroTime;
    }

    /**
     * One check at `now`: reads today's statistics from `store` (where
     * `txFails` makes that read fail) and sends the reminder email (where
     * `sendFails` makes the send fail).
     */
    method CheckAndSendReminder(now: Instant, store: LogStore, txFails: bool, sendFails: bool)
      returns (outcome: Reminder)
      modifies this
      ensures Hour(now) != ReminderHour ==>
                outcome == OutsideReminderHour && lastReminderSent == old(lastReminderSent)
      ensures Hour(now) == ReminderHour && SameDay(now, old(lastReminderSent)) ==>
                outcome == AlreadyRemindedToday && lastReminderSent == old(lastReminderSent)
      ensures Hour(now) == ReminderHour && !SameDay(now, old(lastReminderSent)) && txFails ==>
                outcome == StatsUnavailable && lastReminderSent == old(lastReminderSent)
      ensures Hour(now) == ReminderHour && !SameDay(now, old(lastReminderSent)) && !txFails ==>
                var solved := |TodayLogs(StoredLogs(store.bucket), NormalizeDate(now))|;
                && (solved == 0 ==> outcome == ReminderAttempted(!sendFails) && lastReminderSent == now)
                && (solved > 0 ==> outcome == AlreadySolvedToday && lastReminderSent == old(lastReminderSent))
      ensures outcome == Decide(old(lastReminderSent), now,
                                if txFails then None
                                else Some(|TodayLogs(StoredLogs(store.bucket), NormalizeDate(now))|),
                                sendFails)
      ensures lastReminderSent == LastAfter(old(lastReminderSent), now, outcome)
    {
      if Hour(now) != ReminderHour {
        return OutsideReminderHour;
      }
      if NormalizeDate(now) == NormalizeDate(lastReminderSent) {
        return AlreadyRemindedToday;
      }
      var stats := store.GetDailyStats(now, txFails);
      if stats.Failure? {
        return StatsUnavailable;
      }
      if stats.value.solvedToday == 0 {
        outcome := ReminderAttempted(!sendFails);
        lastReminderSent := now;
      } else {
        outcome := AlreadySolvedToday;
      }
    }
  }
}
