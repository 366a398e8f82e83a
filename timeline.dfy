/**
 The arithmetic of `updateTimeline`: the position of the current-time marker
 and the start and width of each region's bar on a 24-hour axis.
 */
module Timeline {
  import opened Clock
  import opened DiscountTable
  import opened DiscountStatus

  /** A bar on the axis, in hours: it begins at `startHour` and is `widthHours` long. */
  datatype Bar = Bar(startHour: int, widthHours: int)

  /** The bar of a region; Asia's is hard-coded to start at 16 and last 8 hours. */
  function BarOf(e: Entry): (b: Bar)
    ensures e.key != AsiaKey ==> b.startHour + b.widthHours == e.window.utcEnd
    ensures e.key == AsiaKey ==> b.startHour + b.widthHours == 24
  {
    if e.key == AsiaKey then Bar(16, 8)
    else Bar(e.window.utcStart, e.window.utcEnd - e.window.utcStart)
  }

  predicate Covers(b: Bar, hour: int)
  {
    b.startHour <= hour < b.startHour + b.widthHours
  }

  /** A share of the 24-hour axis as an exact percentage. */
  function HoursToPercent(hours: int): (p: real)
    ensures p / 100.0 * 24.0 == hours as real
    ensures 0 <= hours <= 24 ==> 0.0 <= p <= 100.0
  {
    (hours as real / 24.0) * 100.0
  }

  /** The marker position as an exact percentage of the day. */
  function MarkerPercent(t: UtcTime): (p: real)
    ensures 0.0 <= p < 100.0
    ensures p / 100.0 * (MinutesPerDay as real) == MinuteOfDay(t) as real
  {
    (MinuteOfDay(t) as real / (MinutesPerDay as real)) * 100.0
  }

  /** The hard-coded Asia bar is the one its table entry describes, so every bar of
      the table starts at the window's start, is as wide as the window, and ends
      at the window's end. */
  lemma TableBarsMatchWindows(e: Entry)
    requires e in DiscountWindows
    ensures BarOf(e) == Bar(e.window.utcStart, e.window.utcEnd - e.window.utcStart)
    ensures BarOf(e).widthHours == DurationHours(e.window)
    ensures HoursToPercent(BarOf(e).startHour) + HoursToPercent(BarOf(e).widthHours)
      == HoursToPercent(e.window.utcEnd)
  {
  }

  /** A bar covers exactly the hours in which its region is active: for every
      region of the table, and for any non-wrapping window that is not Asia's. */
  lemma BarCoversActiveHours(e: Entry, hour: Hour)
    requires e in DiscountWindows || (e.key != AsiaKey && e.window.utcEnd > e.window.utcStart)
    ensures Covers(BarOf(e), hour) <==> IsDiscountActive(e, hour)
  {
  }

  /** The marker stands over a region's bar exactly when the region is active. */
  lemma MarkerOverBarIffActive(e: Entry, t: UtcTime)
    requires e in DiscountWindows
    ensures IsDiscountActive(e, t.hour) <==>
      BarOf(e).startHour * 60 <= MinuteOfDay(t) < (BarOf(e).startHour + BarOf(e).widthHours) * 60
  {
  }

  /** The generic bar formula does not draw a window that wraps past midnight:
      its width is not positive. */
  lemma WrappingBarIsEmpty(e: Entry, hour: Hour)
    requires e.key != AsiaKey && e.window.utcEnd <= e.window.utcStart
    ensures BarOf(e).widthHours <= 0 && !Covers(BarOf(e), hour)
  {
  }
}
