/**
 * Calendar arithmetic shared by the log store and the reminder scheduler.
 *
 * An instant is a count of nanoseconds of local wall-clock time since local
 * midnight of 1970-01-01, so a local calendar day is a half-open interval of
 * NanosPerDay instants that starts at a multiple of NanosPerDay.
 */
module Calendar {

  type Instant = int

  const NanosPerHour: int := 3_600_000_000_000
  const NanosPerDay: int := 24 * NanosPerHour

  /** The zero value of a Go time: midnight of 0001-01-01. */
  const ZeroTime: Instant := -62_135_596_800 * 1_000_000_000

  /** The first and one-past-last instants a timestamp key can encode (years 0 to 9999). */
  const FirstEncodable: Instant := -62_167_219_200 * 1_000_000_000
  const PastLastEncodable: Instant := 253_402_300_800 * 1_000_000_000

  /** Text marshalling of a timestamp fails for years outside [0, 9999]. */
  predicate KeyEncodable(t: Instant)
  {
    FirstEncodable <= t < PastLastEncodable
  }

  /** Midnight at the start of the local day that holds `t`. */
  function NormalizeDate(t: Instant): (m: Instant)
    ensures m <= t < m + NanosPerDay
    ensures m % NanosPerDay == 0
  {
    t - t % NanosPerDay
  }

  /** `AddDate(0, 0, -1)` on a midnight: the midnight of the day before. */
  function PreviousDay(d: Instant): (p: Instant)
    ensures p < d
    ensures d % NanosPerDay == 0 ==> p % NanosPerDay == 0
  {
    d - NanosPerDay
  }

  /** The midnight `i` days before the midnight `d`. */
  function DaysBefore(d: Instant, i: int): Instant
  {
    d - i * NanosPerDay
  }

  /** The local hour of the day, 0 to 23. */
  function Hour(t: Instant): (h: int)
    ensures 0 <= h < 24
    ensures NormalizeDate(t) + h * NanosPerHour <= t < NormalizeDate(t) + (h + 1) * NanosPerHour
  {
    (t - NormalizeDate(t)) / NanosPerHour
  }

  predicate SameDay(a: Instant, b: Instant)
  {
    NormalizeDate(a) == NormalizeDate(b)
  }

  /** The midnights are exactly the fixed points of NormalizeDate. */
  lemma NormalizeIdempotent(t: Instant)
    ensures NormalizeDate(NormalizeDate(t)) == NormalizeDate(t)
  {
  }

  /**
   * The day before a midnight is the adjacent day: its midnight is the one
   * that starts the day holding the last instant before `d`, and no
   * midnight lies strictly between the two.
   */
  lemma PreviousDayAdjacent(d: Instant)
    requires d % NanosPerDay == 0
    ensures PreviousDay(d) == NormalizeDate(d - 1)
    ensures forall m :: PreviousDay(d) < m < d ==> m % NanosPerDay != 0
  {
    NormalizeWithinDay(PreviousDay(d), d - 1);
    forall m | PreviousDay(d) < m < d
      ensures m % NanosPerDay != 0
    {
      if m % NanosPerDay == 0 {
        AlignedApart(m, d);
      }
    }
  }

  /** A midnight `m` is the normal form of every instant of the day it starts. */
  lemma {:induction false} NormalizeWithinDay(m: Instant, t: Instant)
    requires m % NanosPerDay == 0
    requires m <= t < m + NanosPerDay
    ensures NormalizeDate(t) == m
  {
    var n := NormalizeDate(t);
    if n != m {
      AlignedApart(m, n);
    }
  }

  /** Two distinct midnights are at least a day apart. */
  lemma {:induction false} AlignedApart(a: Instant, b: Instant)
    requires a % NanosPerDay == 0 && b % NanosPerDay == 0
    requires a != b
    ensures a + NanosPerDay <= b || b + NanosPerDay <= a
  {
    var qa, qb := a / NanosPerDay, b / NanosPerDay;
    assert a == qa * NanosPerDay;
    assert b == qb * NanosPerDay;
    if qa < qb {
      assert (qb - qa) * NanosPerDay >= NanosPerDay;
    } else {
      assert (qa - qb) * NanosPerDay >= NanosPerDay;
    }
  }

  /** Two instants are on the same day exactly when they lie in one midnight-aligned day. */
  lemma {:induction false} SameDayIff(a: Instant, b: Instant)
    ensures SameDay(a, b) <==>
      exists m :: m % NanosPerDay == 0 && m <= a < m + NanosPerDay && m <= b < m + NanosPerDay
  {
    if !SameDay(a, b) {
      forall m | m % NanosPerDay == 0 && m <= a < m + NanosPerDay
        ensures !(m <= b < m + NanosPerDay)
      {
        NormalizeWithinDay(m, a);
        if m <= b < m + NanosPerDay {
          NormalizeWithinDay(m, b);
        }
      }
    } else {
      var m := NormalizeDate(a);
      assert m <= b < m + NanosPerDay;
    }
  }

  /** A later instant never falls on an earlier day. */
  lemma {:induction false} NormalizeMonotone(a: Instant, b: Instant)
    requires a <= b
    ensures NormalizeDate(a) <= NormalizeDate(b)
  {
    if NormalizeDate(a) != NormalizeDate(b) {
      AlignedApart(NormalizeDate(a), NormalizeDate(b));
    }
  }

  /** The days before a midnight are pairwise distinct. */
  lemma {:induction false} DaysBeforeInjective(d: Instant, i: int, j: int)
    requires i != j
    ensures DaysBefore(d, i) != DaysBefore(d, j)
  {
    if i < j {
      assert DaysBefore(d, i) - DaysBefore(d, j) == (j - i) * NanosPerDay;
    } else {
      assert DaysBefore(d, j) - DaysBefore(d, i) == (i - j) * NanosPerDay;
    }
  }
}
