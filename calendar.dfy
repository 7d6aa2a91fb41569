/**
 * Local calendar arithmetic over millisecond timestamps, as the server's
 * `moment` calls use it: the calendar day and hour a timestamp falls in, the
 * hour of the day and the weekday (Sunday = 0). Local time is UTC shifted by
 * a fixed offset `tz` in milliseconds.
 */
module Calendar {

  const MS_PER_SECOND: int := 1000
  const MS_PER_HOUR: int := 3_600_000
  const MS_PER_DAY: int := 86_400_000

  /** The index of the local calendar day of `t` (day 0 is 1970-01-01). */
  function Day(tz: int, t: int): int {
    (t + tz) / MS_PER_DAY
  }

  /** The index of the local clock hour of `t`. */
  function Hour(tz: int, t: int): int {
    (t + tz) / MS_PER_HOUR
  }

  /** `moment(t).hour()`: the hour of the day, 0 to 23. */
  function HourOfDay(tz: int, t: int): (h: int)
    ensures 0 <= h < 24
    ensures Hour(tz, t) == Day(tz, t) * 24 + h
  {
    HourInDay(t + tz);
    Hour(tz, t) % 24
  }

  /** `moment(t).weekday()` in the default locale: Sunday is 0; day 0 was a Thursday. */
  function Weekday(tz: int, t: int): (w: int)
    ensures 0 <= w < 7
    ensures Day(tz, t) % 7 == 3 ==> w == 0
  {
    (Day(tz, t) + 4) % 7
  }

  lemma HourInDay(x: int)
    ensures x / MS_PER_HOUR == (x / MS_PER_DAY) * 24 + (x / MS_PER_HOUR) % 24
  {
    var d := x / MS_PER_DAY;
    var r := x % MS_PER_DAY;
    assert x == d * 24 * MS_PER_HOUR + r;
    assert x / MS_PER_HOUR == d * 24 + r / MS_PER_HOUR;
  }

  /** Later timestamps never fall on an earlier day or hour. */
  lemma Monotone(tz: int, t1: int, t2: int)
    requires t1 <= t2
    ensures Day(tz, t1) <= Day(tz, t2)
    ensures Hour(tz, t1) <= Hour(tz, t2)
  {
  }

  /** Elapsed time in seconds, as `moment.duration(end.diff(start)).asSeconds()` reports it. */
  function Seconds(start: int, end: int): real {
    (end - start) as real / MS_PER_SECOND as real
  }
}
