/**
 * Weekday and time-of-day helpers (src/utils/date.js).
 *
 * Instants are whole milliseconds since 1970-01-01T00:00 in a single fixed
 * time zone without daylight-saving changes, so every day is exactly
 * `DayMs` long. 1970-01-01 was a Thursday, hence the `+ 4` in `Weekday`
 * (Sunday is 0, Saturday is 6).
 */
module DateUtils {
  import opened Js

  const SecondMs: int := 1000
  const MinuteMs: int := 60_000
  const HourMs: int := 3_600_000
  const DayMs: int := 86_400_000

  /** Midnight at the start of the calendar day of `t`. */
  function DayStart(t: int): int {
    t - t % DayMs
  }

  /** Milliseconds since midnight. */
  function TimeOfDay(t: int): int {
    t % DayMs
  }

  /** `moment.day()`: 0 = Sunday .. 6 = Saturday. */
  function Weekday(t: int): int {
    (t / DayMs + 4) % 7
  }

  /** `moment.hour()`, `minute()`, `second()` and `milliseconds()`. */
  function Hour(t: int): int { t % DayMs / HourMs }
  function Minute(t: int): int { t % HourMs / MinuteMs }
  function Second(t: int): int { t % MinuteMs / SecondMs }
  function Millisecond(t: int): int { t % SecondMs }

  /** The calendar day of `dateTime` at the time of day of `time`. */
  function WithTimeOfDay(dateTime: int, time: int): int {
    DayStart(dateTime) + TimeOfDay(time)
  }

  /** A day list as `parseDays` produces it: ascending weekday indices. */
  predicate IsWeekdayList(days: seq<int>) {
    (forall i :: 0 <= i < |days| ==> 0 <= days[i] <= 6) &&
    (forall i, j :: 0 <= i <= j < |days| ==> days[i] <= days[j])
  }

  // ---------------------------------------------------------------------
  // Calendar arithmetic facts
  // ---------------------------------------------------------------------

  /** Euclidean division by a positive modulus is determined by any quotient/remainder pair. */
  lemma DivModUnique(t: int, m: int, q: int, r: int)
    requires m > 0 && t == q * m + r && 0 <= r < m
    ensures t / m == q && t % m == r
  {
    var k := q - t / m;
    assert k * m == t % m - r;
    assert k == 0;
  }

  /** Stepping an index modulo `n`. */
  lemma ModSucc(k: nat, n: int)
    requires n > 0
    ensures (k % n + 1) % n == (k + 1) % n
  {
    var q, r := k / n, k % n;
    assert k == q * n + r;
    if r + 1 < n {
      DivModUnique(k + 1, n, q, r + 1);
      DivModUnique(r + 1, n, 0, r + 1);
    } else {
      assert k + 1 == (q + 1) * n;
      DivModUnique(k + 1, n, q + 1, 0);
      DivModUnique(r + 1, n, 1, 0);
    }
  }

  /** An instant assembled from a day index and in-range clock components has exactly those parts. */
  lemma Compose(q: int, h: int, mi: int, s: int, ms: int)
    requires 0 <= h < 24 && 0 <= mi < 60 && 0 <= s < 60 && 0 <= ms < 1000
    ensures var t := q * DayMs + h * HourMs + mi * MinuteMs + s * SecondMs + ms;
      t / DayMs == q && DayStart(t) == q * DayMs &&
      TimeOfDay(t) == h * HourMs + mi * MinuteMs + s * SecondMs + ms &&
      Hour(t) == h && Minute(t) == mi && Second(t) == s && Millisecond(t) == ms
  {
    var t := q * DayMs + h * HourMs + mi * MinuteMs + s * SecondMs + ms;
    var r3 := s * SecondMs + ms;
    var r2 := mi * MinuteMs + r3;
    var r1 := h * HourMs + r2;
    DivModUnique(t, DayMs, q, r1);
    DivModUnique(r1, HourMs, h, r2);
    DivModUnique(t, HourMs, q * 24 + h, r2);
    DivModUnique(r2, MinuteMs, mi, r3);
    DivModUnique(t, MinuteMs, q * 1440 + h * 60 + mi, r3);
    DivModUnique(r3, SecondMs, s, ms);
    DivModUnique(t, SecondMs, q * 86400 + h * 3600 + mi * 60 + s, ms);
  }

  /** An instant is its day start plus its four clock components. */
  lemma Decompose(t: int)
    ensures 0 <= Hour(t) < 24 && 0 <= Minute(t) < 60
    ensures 0 <= Second(t) < 60 && 0 <= Millisecond(t) < 1000
    ensures TimeOfDay(t) == Hour(t) * HourMs + Minute(t) * MinuteMs + Second(t) * SecondMs + Millisecond(t)
    ensures t == DayStart(t) + TimeOfDay(t) && DayStart(t) == t / DayMs * DayMs
  {
    var tod := t % DayMs;
    var h, r2 := tod / HourMs, tod % HourMs;
    var mi, r3 := r2 / MinuteMs, r2 % MinuteMs;
    var s, ms := r3 / SecondMs, r3 % SecondMs;
    assert tod == h * HourMs + mi * MinuteMs + s * SecondMs + ms;
    Compose(t / DayMs, h, mi, s, ms);
  }

  /** A value written as day start plus an in-range offset has that day start and offset. */
  lemma DayStartOf(q: int, r: int)
    requires 0 <= r < DayMs
    ensures DayStart(q * DayMs + r) == q * DayMs
    ensures TimeOfDay(q * DayMs + r) == r
    ensures (q * DayMs + r) / DayMs == q
  {
    DivModUnique(q * DayMs + r, DayMs, q, r);
  }

  /** Adding whole days moves the day start and the weekday and keeps the time of day. */
  lemma AddWholeDays(t: int, k: int)
    ensures DayStart(t + k * DayMs) == DayStart(t) + k * DayMs
    ensures TimeOfDay(t + k * DayMs) == TimeOfDay(t)
    ensures Weekday(t + k * DayMs) == (Weekday(t) + k) % 7
  {
    var q := t / DayMs;
    DayStartOf(q + k, t % DayMs);
    assert t + k * DayMs == (q + k) * DayMs + t % DayMs;
    DivModUnique(q + 4, 7, (q + 4) / 7, Weekday(t));
    DivModUnique(q + k + 4, 7, (q + 4) / 7 + (Weekday(t) + k) / 7, (Weekday(t) + k) % 7);
  }

  /** The weekday and time of day of `WithTimeOfDay`. */
  lemma WithTimeOfDayParts(dateTime: int, time: int)
    ensures DayStart(WithTimeOfDay(dateTime, time)) == DayStart(dateTime)
    ensures TimeOfDay(WithTimeOfDay(dateTime, time)) == TimeOfDay(time)
    ensures Weekday(WithTimeOfDay(dateTime, time)) == Weekday(dateTime)
  {
    Decompose(dateTime);
    DayStartOf(dateTime / DayMs, time % DayMs);
  }

  /** Two instants with the same day start and the same clock components are equal. */
  lemma SameParts(a: int, b: int)
    requires DayStart(a) == DayStart(b)
    requires Hour(a) == Hour(b) && Minute(a) == Minute(b)
    requires Second(a) == Second(b) && Millisecond(a) == Millisecond(b)
    ensures a == b
  {
    Decompose(a);
    Decompose(b);
  }

  // ---------------------------------------------------------------------
  // The moment object and setTime (src/utils/date.js:39-46)
  // ---------------------------------------------------------------------

  /** A mutable `moment` instant. */
  class Moment {
    var epochMs: int

    constructor (ms: int)
      ensures epochMs == ms
    {
      epochMs := ms;
    }

    /** `moment.hour(h)`: same day, minute, second and millisecond; hour `h`. */
    method SetHour(h: int)
      requires 0 <= h < 24
      modifies this
      ensures DayStart(epochMs) == DayStart(old(epochMs))
      ensures Hour(epochMs) == h && Minute(epochMs) == Minute(old(epochMs))
      ensures Second(epochMs) == Second(old(epochMs)) && Millisecond(epochMs) == Millisecond(old(epochMs))
    {
      var t := epochMs;
      Decompose(t);
      Compose(t / DayMs, h, Minute(t), Second(t), Millisecond(t));
      epochMs := DayStart(t) + h * HourMs + Minute(t) * MinuteMs + Second(t) * SecondMs + Millisecond(t);
    }

    /** `moment.minute(m)`: same day, hour, second and millisecond; minute `m`. */
    method SetMinute(m: int)
      requires 0 <= m < 60
      modifies this
      ensures DayStart(epochMs) == DayStart(old(epochMs))
      ensures Hour(epochMs) == Hour(old(epochMs)) && Minute(epochMs) == m
      ensures Second(epochMs) == Second(old(epochMs)) && Millisecond(epochMs) == Millisecond(old(epochMs))
    {
      var t := epochMs;
      Decompose(t);
      Compose(t / DayMs, Hour(t), m, Second(t), Millisecond(t));
      epochMs := DayStart(t) + Hour(t) * HourMs + m * MinuteMs + Second(t) * SecondMs + Millisecond(t);
    }

    /** `moment.second(s)`: same day, hour, minute and millisecond; second `s`. */
    method SetSecond(s: int)
      requires 0 <= s < 60
      modifies this
      ensures DayStart(epochMs) == DayStart(old(epochMs))
      ensures Hour(epochMs) == Hour(old(epochMs)) && Minute(epochMs) == Minute(old(epochMs))
      ensures Second(epochMs) == s && Millisecond(epochMs) == Millisecond(old(epochMs))
    {
      var t := epochMs;
      Decompose(t);
      Compose(t / DayMs, Hour(t), Minute(t), s, Millisecond(t));
      epochMs := DayStart(t) + Hour(t) * HourMs + Minute(t) * MinuteMs + s * SecondMs + Millisecond(t);
    }

    /** `moment.milliseconds(ms)`: same day, hour, minute and second; milliseconds `ms`. */
    method SetMillisecond(ms: int)
      requires 0 <= ms < 1000
      modifies this
      ensures DayStart(epochMs) == DayStart(old(epochMs))
      ensures Hour(epochMs) == Hour(old(epochMs)) && Minute(epochMs) == Minute(old(epochMs))
      ensures Second(epochMs) == Second(old(epochMs)) && Millisecond(epochMs) == ms
    {
      var t := epochMs;
      Decompose(t);
      Compose(t / DayMs, Hour(t), Minute(t), Second(t), ms);
      epochMs := DayStart(t) + Hour(t) * HourMs + Minute(t) * MinuteMs + Second(t) * SecondMs + ms;
    }

    /** `moment.add(n, 'days')`. */
    method AddDays(n: int)
      modifies this
      ensures epochMs == old(epochMs) + n * DayMs
    {
      epochMs := epochMs + n * DayMs;
    }
  }

  /**
   * setTime: copies the hour, minute, second and millisecond of `time` into
   * `dateTime` in place and returns `dateTime` itself. The calendar day of
   * `dateTime` is kept.
   */
  method SetTime(dateTime: Moment, time: Moment) returns (r: Moment)
    modifies dateTime
    ensures r == dateTime
    ensures r.epochMs == WithTimeOfDay(old(dateTime.epochMs), old(time.epochMs))
  {
    ghost var d0, t0 := dateTime.epochMs, time.epochMs;
    Decompose(t0);
    dateTime.SetHour(Hour(time.epochMs));
    dateTime.SetMinute(Minute(time.epochMs));
    dateTime.SetSecond(Second(time.epochMs));
    dateTime.SetMillisecond(Millisecond(time.epochMs));
    Decompose(d0);
    Compose(d0 / DayMs, Hour(t0), Minute(t0), Second(t0), Millisecond(t0));
    SameParts(dateTime.epochMs, WithTimeOfDay(d0, t0));
    r := dateTime;
  }

  /** The result of setTime has `time`'s clock and `dateTime`'s calendar day. */
  lemma WithTimeOfDayKeepsDate(dateTime: int, time: int)
    ensures var r := WithTimeOfDay(dateTime, time);
      Hour(r) == Hour(time) && Minute(r) == Minute(time) &&
      Second(r) == Second(time) && Millisecond(r) == Millisecond(time) &&
      DayStart(r) == DayStart(dateTime) && Weekday(r) == Weekday(dateTime)
  {
    Decompose(dateTime);
    Decompose(time);
    Compose(dateTime / DayMs, Hour(time), Minute(time), Second(time), Millisecond(time));
    WithTimeOfDayParts(dateTime, time);
  }

  // ---------------------------------------------------------------------
  // isMidnight (src/utils/date.js:55-57)
  // ---------------------------------------------------------------------

  /** A time is midnight when it is present and its hour, minute and second are all zero. */
  predicate IsMidnight(time: Option<int>) {
    time.Some? && Hour(time.value) == 0 && Minute(time.value) == 0 && Second(time.value) == 0
  }

  /** Midnight means within the first second of the day; milliseconds are ignored. */
  lemma IsMidnightWithinFirstSecond(time: Option<int>)
    ensures IsMidnight(time) <==> time.Some? && 0 <= TimeOfDay(time.value) < SecondMs
  {
    if time.Some? {
      Decompose(time.value);
    }
  }

  // ---------------------------------------------------------------------
  // getFutureDay / getPastDay (src/utils/date.js:11-29)
  // ---------------------------------------------------------------------

  /** The first listed day that is not before `currentDay`, if any (list order, not numeric order). */
  function FirstAtLeast(days: seq<int>, currentDay: int): (r: Option<int>)
    ensures r.None? <==> forall i :: 0 <= i < |days| ==> days[i] < currentDay
    ensures r.Some? ==> exists k :: (0 <= k < |days| && days[k] == r.value &&
      currentDay <= r.value && forall j :: 0 <= j < k ==> days[j] < currentDay)
  {
    if |days| == 0 then None
    else if days[0] >= currentDay then Some(days[0])
    else
      var rest := FirstAtLeast(days[1..], currentDay);
      assert forall i :: 1 <= i < |days| ==> days[i] == days[1..][i - 1];
      if rest.Some? then
        ghost var k :| 0 <= k < |days[1..]| && days[1..][k] == rest.value &&
          currentDay <= rest.value && forall j :: 0 <= j < k ==> days[1..][j] < currentDay;
        assert days[k + 1] == rest.value;
        rest
      else rest
  }

  /** The last listed day that is not after `currentDay`, if any (list order, not numeric order). */
  function LastAtMost(days: seq<int>, currentDay: int): (r: Option<int>)
    ensures r.None? <==> forall i :: 0 <= i < |days| ==> days[i] > currentDay
    ensures r.Some? ==> exists k :: (0 <= k < |days| && days[k] == r.value &&
      r.value <= currentDay && forall j :: k < j < |days| ==> days[j] > currentDay)
  {
    if |days| == 0 then None
    else if days[|days| - 1] <= currentDay then Some(days[|days| - 1])
    else
      var front := days[..|days| - 1];
      var rest := LastAtMost(front, currentDay);
      assert forall i :: 0 <= i < |front| ==> days[i] == front[i];
      rest
  }

  /**
   * getFutureDay: the first listed day on or after `currentDay`, or the first
   * listed day. A found value that is falsy (day 0) also falls back to the
   * first listed day. `None` is the `undefined` of an empty list.
   */
  function FutureDay(days: seq<int>, currentDay: int): (r: Option<int>)
    ensures r.None? <==> |days| == 0
    ensures r.Some? ==> r.value in days
  {
    var found := FirstAtLeast(days, currentDay);
    if found.Some? && found.value != 0 then found
    else if |days| == 0 then None
    else Some(days[0])
  }

  /**
   * getPastDay: the last listed day on or before `currentDay`, or the last
   * listed day. A found value that is falsy (day 0) also falls back to the
   * last listed day.
   */
  function PastDay(days: seq<int>, currentDay: int): (r: Option<int>)
    ensures r.None? <==> |days| == 0
    ensures r.Some? ==> r.value in days
  {
    var found := LastAtMost(days, currentDay);
    if found.Some? && found.value != 0 then found
    else if |days| == 0 then None
    else Some(days[|days| - 1])
  }

  /**
   * On a weekday list, getFutureDay is the smallest listed day on or after
   * `currentDay` when there is one, and the first (smallest) listed day
   * otherwise.
   */
  lemma FutureDayIsNextListedDay(days: seq<int>, currentDay: int)
    requires IsWeekdayList(days) && |days| > 0
    ensures var x := FutureDay(days, currentDay).value;
      x in days &&
      ((exists i :: 0 <= i < |days| && days[i] >= currentDay) ==>
         currentDay <= x && forall i :: 0 <= i < |days| && days[i] >= currentDay ==> x <= days[i]) &&
      ((forall i :: 0 <= i < |days| ==> days[i] < currentDay) ==> x == days[0])
  {
    var found := FirstAtLeast(days, currentDay);
    if found.Some? {
      var k :| 0 <= k < |days| && days[k] == found.value &&
        currentDay <= found.value && forall j :: 0 <= j < k ==> days[j] < currentDay;
      if found.value == 0 {
        assert days[0] <= days[k];
      }
      forall i | 0 <= i < |days| && days[i] >= currentDay
        ensures found.value <= days[i]
      {
      }
    }
  }

  /**
   * On a weekday list, getPastDay is the largest listed day on or before
   * `currentDay` when some listed day in 1..currentDay exists, and the last
   * (largest) listed day otherwise. The second case includes the one where
   * the only listed day on or before `currentDay` is Sunday: `0 || last`.
   */
  lemma PastDayIsPreviousListedDay(days: seq<int>, currentDay: int)
    requires IsWeekdayList(days) && |days| > 0
    ensures var x := PastDay(days, currentDay).value;
      x in days &&
      ((exists i :: 0 <= i < |days| && 0 < days[i] <= currentDay) ==>
         x <= currentDay && forall i :: 0 <= i < |days| && days[i] <= currentDay ==> days[i] <= x) &&
      (!(exists i :: 0 <= i < |days| && 0 < days[i] <= currentDay) ==> x == days[|days| - 1])
  {
    var found := LastAtMost(days, currentDay);
    if found.Some? {
      var k :| 0 <= k < |days| && days[k] == found.value &&
        found.value <= currentDay && forall j :: k < j < |days| ==> days[j] > currentDay;
      forall i | 0 <= i < |days| && days[i] <= currentDay
        ensures days[i] <= found.value
      {
      }
      if exists i :: 0 <= i < |days| && 0 < days[i] <= currentDay {
        var i :| 0 <= i < |days| && 0 < days[i] <= currentDay;
        assert found.value != 0;
      }
    }
  }

  /** With Sunday and Wednesday listed, the past day of Monday is Wednesday, not Sunday. */
  lemma PastDaySundayIsFalsy()
    ensures PastDay([0, 3], 1) == Some(3)
    ensures FutureDay([0, 3], 0) == Some(0)
  {
    assert LastAtMost([0, 3], 1) == Some(0) by {
      assert [0, 3][..1] == [0];
    }
  }
}
