/**
 The static configuration of the dashboard: one discount window per region,
 given as UTC hours, in the order in which the script enumerates the regions.
 */
module DiscountTable {

  datatype Window = Window(
    name: string,
    timezone: string,
    utcStart: int,
    utcEnd: int,
    localStart: string,
    localEnd: string)

  /** A region key together with its window, as one property of the table object. */
  datatype Entry = Entry(key: string, window: Window)

  /** The one key that the script special-cases. */
  const AsiaKey: string := "asia"

  const Asia: Entry :=
    Entry(AsiaKey, Window("Asia (SG/ID/TH)", "Asia/Singapore", 16, 24, "12:00 AM", "8:00 AM"))
  const Europe: Entry :=
    Entry("europe", Window("Europe", "Europe/Berlin", 0, 8, "1:00 AM", "9:00 AM"))
  const UsEast: Entry :=
    Entry("us-east", Window("US East", "America/New_York", 1, 9, "8:00 PM", "4:00 AM"))

  /** The table in key order (`Object.keys` yields insertion order for these keys). */
  const DiscountWindows: seq<Entry> := [Asia, Europe, UsEast]

  /**
   A window whose start is an hour of the day and whose end is an hour mark
   0..24 (the Asia entry ends at 24, meaning midnight of the next day).
   */
  predicate WellFormed(w: Window)
  {
    0 <= w.utcStart < 24 && 0 <= w.utcEnd <= 24
  }

  predicate KeysDistinct(table: seq<Entry>)
  {
    forall i, j :: 0 <= i < j < |table| ==> table[i].key != table[j].key
  }

  /** The length of a window in hours, counted around the 24-hour circle. */
  function DurationHours(w: Window): int
  {
    if w.utcEnd > w.utcStart then w.utcEnd - w.utcStart else w.utcEnd - w.utcStart + 24
  }

  /**
   Reference membership test, independent of how the script branches: the hours
   elapsed since the window opened, on the 24-hour circle, are fewer than its length.
   */
  predicate OnCircle(w: Window, hour: int)
  {
    (hour - w.utcStart) % 24 < DurationHours(w)
  }

  lemma TableIsValid()
    ensures |DiscountWindows| == 3 && KeysDistinct(DiscountWindows)
    ensures forall e :: e in DiscountWindows ==> WellFormed(e.window)
    ensures forall e :: e in DiscountWindows ==> 1 <= DurationHours(e.window) <= 24
    ensures forall e :: e in DiscountWindows && e.key == AsiaKey ==> e == Asia
  {
  }
}
