/**
 * Local wall-clock arithmetic on integer timestamps.
 *
 * An instant is a count of seconds in local time (no time zone, no daylight
 * saving time), so a minute is 60, an hour 3600 and a day 86400 seconds, the
 * local day starts at every multiple of 86400, and the `Date` getters are plain
 * Euclidean divisions.
 */
module LocalTime {

  /** `Date.getHours`: the local hour of day. */
  function Hour(t: int): (h: int)
    ensures 0 <= h < 24
  {
    (t / 3600) % 24
  }

  /** `Date.getMinutes`: the local minute of the hour. */
  function Minute(t: int): (m: int)
    ensures 0 <= m < 60
  {
    (t / 60) % 60
  }

  /** Local midnight of the day that contains `t`. */
  function DayStart(t: int): (d: int)
    ensures d % 86400 == 0
    ensures d <= t < d + 86400
  {
    t - t % 86400
  }

  /** `setHours(h, m, 0, 0)`: the instant `h:m:00.000` on the day of `t`. */
  function SetHours(t: int, h: int, m: int): (r: int)
    requires 0 <= h < 24 && 0 <= m < 60
    ensures DayStart(r) == DayStart(t)
    ensures Hour(r) == h && Minute(r) == m && r % 60 == 0
  {
    var r := DayStart(t) + h * 3600 + m * 60;
    SetHoursClock(t, h, m, r);
    r
  }

  /** `setDate(getDate() + n)`: the same wall-clock time `n` days later. */
  function AddDays(t: int, n: int): (r: int)
    ensures DayStart(r) == DayStart(t) + n * 86400
    ensures Hour(r) == Hour(t) && Minute(r) == Minute(t)
    ensures r % 86400 == t % 86400
  {
    var r := t + n * 86400;
    DivModUnique(r, 86400, t / 86400 + n, t % 86400);
    ClockOf(r);
    ClockOf(t);
    r
  }

  /**
   * `getTimeMinutes`: minutes since midnight, with the hours before 04:00
   * counted as hours 24..27 of the previous evening. Seconds are dropped.
   */
  function TimeMinutes(t: int): (r: int)
    ensures 240 <= r < 1680
  {
    var hours := Hour(t);
    var hours := if hours < 4 then hours + 24 else hours;
    hours * 60 + Minute(t)
  }

  /** Two-digit "HH:mm" label of the local wall-clock time of `t`. */
  function Label(t: int): (s: string)
    ensures |s| == 5 && s[2] == ':'
    ensures forall k | k in {0, 1, 3, 4} :: '0' <= s[k] <= '9'
    ensures DigitValue(s[0]) * 10 + DigitValue(s[1]) == Hour(t)
    ensures DigitValue(s[3]) * 10 + DigitValue(s[4]) == Minute(t)
  {
    [Digit(Hour(t) / 10), Digit(Hour(t) % 10), ':', Digit(Minute(t) / 10), Digit(Minute(t) % 10)]
  }

  function Digit(d: int): (c: char)
    requires 0 <= d < 10
    ensures '0' <= c <= '9' && DigitValue(c) == d
  {
    (48 + d) as char
  }

  function DigitValue(c: char): int
  {
    c as int - 48
  }

  // ---------------------------------------------------------------------
  // The normalisation

  /** The normalised minutes split back into the (shifted) hour and the minute. */
  lemma TimeMinutesParts(t: int)
    ensures TimeMinutes(t) % 60 == Minute(t)
    ensures Hour(t) < 4 ==> TimeMinutes(t) / 60 == Hour(t) + 24
    ensures Hour(t) >= 4 ==> TimeMinutes(t) / 60 == Hour(t)
  {
    var h := if Hour(t) < 4 then Hour(t) + 24 else Hour(t);
    DivModUnique(TimeMinutes(t), 60, h, Minute(t));
  }

  /**
   * Reference reading of `TimeMinutes`: 240 plus the whole minutes elapsed
   * since the most recent 04:00 (14400 s after midnight). So the
   * normalisation is one continuous clock from 04:00 to 03:59 of the next day.
   */
  lemma TimeMinutesSinceFour(t: int)
    ensures TimeMinutes(t) == 240 + ((t - 14400) % 86400) / 60
  {
    ClockOf(t);
    var k, r := t / 86400, t % 86400;
    if r >= 14400 {
      DivModUnique(t - 14400, 86400, k, r - 14400);
      DivModUnique(r - 14400, 60, r / 60 - 240, r % 60);
    } else {
      DivModUnique(t - 14400, 86400, k - 1, r + 72000);
      DivModUnique(r + 72000, 60, r / 60 + 1200, r % 60);
    }
  }

  /** The normalisation reads only the wall clock: shifting by whole days changes nothing. */
  lemma TimeMinutesPeriodic(t: int, n: int)
    ensures TimeMinutes(t + n * 86400) == TimeMinutes(t)
  {
    TimeMinutesSinceFour(t);
    TimeMinutesSinceFour(t + n * 86400);
    var x := t - 14400;
    DivModUnique(t + n * 86400 - 14400, 86400, x / 86400 + n, x % 86400);
  }

  /**
   * Within one 04:00-to-04:00 span the normalisation preserves order, and
   * only whole-minute differences are seen.
   */
  lemma TimeMinutesMonotone(t1: int, t2: int)
    requires (t1 - 14400) / 86400 == (t2 - 14400) / 86400
    requires t1 <= t2
    ensures TimeMinutes(t1) <= TimeMinutes(t2)
  {
    TimeMinutesSinceFour(t1);
    TimeMinutesSinceFour(t2);
    DivMonotone((t1 - 14400) % 86400, (t2 - 14400) % 86400, 60);
  }

  /** 00:30 normalises to 1470, after 18:00's 1080 on the evening before. */
  lemma HalfPastMidnight(midnight: int)
    requires midnight % 86400 == 0
    ensures TimeMinutes(midnight + 1800) == 1470
    ensures TimeMinutes(midnight - 21600) == 1080
  {
    DivModUnique(midnight + 1800, 86400, midnight / 86400, 1800);
    ClockOf(midnight + 1800);
    DivModUnique(midnight - 21600, 86400, midnight / 86400 - 1, 64800);
    ClockOf(midnight - 21600);
  }

  // ---------------------------------------------------------------------
  // Arithmetic of the day

  /** Euclidean division by a positive number is determined by quotient and remainder. */
  lemma DivModUnique(x: int, m: int, q: int, rem: int)
    requires m > 0 && 0 <= rem < m && x == m * q + rem
    ensures x / m == q && x % m == rem
  {
    var q', rem' := x / m, x % m;
    assert x == m * q' + rem';
    if q' < q {
      assert m * q - m * q' == m * (q - q');
      MulAtLeast(m, q - q');
    } else if q' > q {
      assert m * q' - m * q == m * (q' - q);
      MulAtLeast(m, q' - q);
    }
  }

  lemma MulAtLeast(m: int, k: int)
    requires m > 0 && k >= 1
    ensures m * k >= m
  {
  }

  lemma DivMonotone(a: int, b: int, m: int)
    requires 0 <= a <= b && m > 0
    ensures a / m <= b / m
  {
    if a / m > b / m {
      DivModUnique(a, m, a / m, a % m);
      DivModUnique(b, m, b / m, b % m);
      assert m * (a / m) - m * (b / m) == m * (a / m - b / m);
      MulAtLeast(m, a / m - b / m);
    }
  }

  /** The clock reading of an instant depends only on its offset into the day. */
  lemma ClockOf(t: int)
    ensures Hour(t) == (t % 86400) / 3600
    ensures Minute(t) == ((t % 86400) / 60) % 60
    ensures Hour(t) * 60 + Minute(t) == (t % 86400) / 60
  {
    var k, r := t / 86400, t % 86400;
    var h, rh := r / 3600, r % 3600;
    DivModUnique(t, 3600, 24 * k + h, rh);
    DivModUnique(24 * k + h, 24, k, h);
    var mi, mm := r / 60, rh / 60;
    DivModUnique(t, 60, 1440 * k + mi, r % 60);
    DivModUnique(r, 60, 60 * h + mm, rh % 60);
    DivModUnique(1440 * k + mi, 60, 24 * k + h, mm);
  }

  lemma SetHoursClock(t: int, h: int, m: int, r: int)
    requires 0 <= h < 24 && 0 <= m < 60
    requires r == DayStart(t) + h * 3600 + m * 60
    ensures DayStart(r) == DayStart(t)
    ensures Hour(r) == h && Minute(r) == m && r % 60 == 0
  {
    var k := t / 86400;
    var off := h * 3600 + m * 60;
    DivModUnique(r, 86400, k, off);
    ClockOf(r);
    DivModUnique(off, 3600, h, m * 60);
    DivModUnique(off, 60, 60 * h + m, 0);
    DivModUnique(60 * h + m, 60, h, m);
    DivModUnique(r, 60, 1440 * k + 60 * h + m, 0);
  }
}
