/**
 The UTC clock reading the dashboard samples on every refresh. The script reads
 it with `getUTCHours` and `getUTCMinutes`; here it is an explicit value.
 */
module Clock {

  /** An hour of the UTC day, as `getUTCHours` returns it. */
  type Hour = h: int | 0 <= h < 24

  /** A minute of the hour, as `getUTCMinutes` returns it. */
  type Minute = m: int | 0 <= m < 60

  datatype UtcTime = UtcTime(hour: Hour, minute: Minute)

  const MinutesPerDay: int := 24 * 60

  /** Minutes elapsed since 00:00 UTC; the numerator of the timeline marker. */
  function MinuteOfDay(t: UtcTime): (m: int)
    ensures 0 <= m < MinutesPerDay
    ensures m / 60 == t.hour && m % 60 == t.minute
  {
    t.hour * 60 + t.minute
  }
}
