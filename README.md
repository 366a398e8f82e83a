# Discount-window dashboard: a Dafny model of its logic

The dashboard in `js/script.js` shows, for three regions (Asia, Europe, US East),
whether an off-peak discount is active right now, how long until the window opens
or closes, where each window sits on a 24-hour timeline, and which region is the
next opportunity. This project models the logic behind those displays as Dafny
over an explicit UTC clock reading `(hour, minute)` instead of `new Date()`, and
proves what it promises.

Modules, one per part of the script:

- `Clock` (`clock.dfy`): the UTC reading, hour 0..23 and minute 0..59, and the minute of the day.
- `DiscountTable` (`discount_table.dfy`): the static table of windows, in key order, plus
  a reference notion of membership on the 24-hour circle (`OnCircle`).
- `DiscountStatus` (`discount_status.dfy`): `isDiscountActive` as a function. `getTimeUntilNext`
  is a method that follows the script step by step: the +24 lift, the subtraction and the
  minute-60 fix-up. It is proved equal to `CountdownAt`, which splits the remaining minutes
  by division instead.
- `Timeline` (`timeline.dfy`): the marker position and each bar's start and width, including
  Asia's hard-coded bar, in hours and as exact percentages.
- `NextOpportunity` (`next_opportunity.dfy`): one record per region built in a loop, an
  in-place stable sort with the script's comparator, and the choice of the first record.

Facts about the script that the model makes explicit:

- The countdown is exact to the minute. `hoursUntil*60 + minutesUntil` always equals the whole
  minutes from the current minute to the boundary. The minute-60 adjustment causes no off-by-one.
  The remaining time is 1..1440 minutes, never 0 (`CountdownIsForward`).
- The countdown runs out exactly when the region's status changes. Until the target hour the
  status stays as it is, and at the target hour it flips (`CountdownEndsAtChange`).
- The Asia entry ends at hour 24, so not every window end is an hour 0..23. Its special cases
  (the never-true `utcHour < 0`, the end hour 0, the 16/8 bar) agree with the generic rules for
  that entry.
- Bars use `utcEnd - utcStart` for every non-Asia window. For a window that wraps past midnight
  this width is zero or negative (`WrappingBarIsEmpty`). No window of the table wraps.
- Inactive regions are ranked by the hour field of their countdown only. At one instant the
  minute fields of all regions are equal, so this is the same order as ranking by remaining
  minutes (`InactiveOrderFollowsMinutes`).
- ECMAScript 2019 requires `Array.prototype.sort` to be stable. Any stable sort with this
  comparator gives the same order. The model does insertion by exchanging neighbours.

## Model

| member | source | states |
|---|---|---|
| `Clock.MinuteOfDay` | js/script.js:140 | the marker's minute of the day lies in 0..1439 and gives back the hour (by division by 60) and the minute (as remainder) |
| `DiscountTable.TableIsValid` | js/script.js:2-27 | the table has three entries with distinct keys; every start is an hour 0..23, every end is 0..24, every window is 1..24 hours long, and the only `asia` entry is the Asia window 16..24 |
| `DiscountStatus.IsDiscountActive` | js/script.js:54-68 | for Asia, active iff the hour is at or after the start (the `< 0` disjunct never holds); for any other region, the generic half-open, possibly wrapping rule |
| `DiscountStatus.NonWrappingMembership` | js/script.js:62-63 | for a non-Asia window with `utcEnd > utcStart`, active iff `utcStart <= hour < utcEnd` (upper bound exclusive) |
| `DiscountStatus.WrappingMembership` | js/script.js:64-66 | for a non-Asia window with `utcEnd <= utcStart`, active iff `hour >= utcStart` or `hour < utcEnd` |
| `DiscountStatus.AsiaRuleIsWindowRule` | js/script.js:59-61 | with `utcEnd = 24` the Asia special case gives the same answer as the generic rule |
| `DiscountStatus.MatchesCircularWindow` | js/script.js:54-68 | on every well-formed window, membership equals the reference: hours since the start, taken mod 24, are fewer than the window's length |
| `DiscountStatus.TableActiveHours` | js/script.js:2-27 | Asia is active iff hour >= 16, Europe iff hour < 8 (inactive at 8), US East iff 1 <= hour < 9 (inactive at 9) |
| `DiscountStatus.LiftIsNextOccurrence` | js/script.js:96-97 | for a boundary 0..24, the lifted hour is strictly after the current hour and at most 24 hours later, is the same hour of the day, and is the only such hour |
| `DiscountStatus.AsiaEndIsTableEnd` | js/script.js:80-83 | Asia's end special case (hour 0) leads to the same target hour as its table end 24 |
| `DiscountStatus.CountdownAt` | js/script.js:76-109 | hours*60 + minutes equals the minutes left to the target hour; the minute field lies in 0..59; the phase is "Ends in" exactly when the region is active, otherwise "Starts in" |
| `DiscountStatus.CountdownFields` | js/script.js:84-91 | the minute field is 0 at minute 0 and otherwise 60 - minute; the hour field is target - hour, minus one unless the minute is 0 |
| `DiscountStatus.CountdownIsForward` | js/script.js:83 | for a well-formed window the target is after the current hour and at most 24 hours later, the minutes left lie in 1..1440, and the hour field in 0..24 |
| `DiscountStatus.TimeUntilNext` | js/script.js:70-110 | the script's step-by-step computation (+24 lift, decrement, minute-60 fix-up) returns exactly `CountdownAt` |
| `DiscountStatus.EuropeAtEight` | js/script.js:94-108 | Europe is closed at 08:00 and its countdown reads "Starts in 16h 0m" |
| `DiscountStatus.UsEastAtEightFiftyNine` | js/script.js:78-93 | US East is active at 08:59 and its countdown reads "Ends in 0h 1m" |
| `DiscountStatus.BoundaryHour` | js/script.js:80-81 | the boundary is the end while active (Asia: hour 0) and the start otherwise; for a well-formed window it is an hour mark 0..24 |
| `DiscountStatus.Lift` | js/script.js:97 | the lifted boundary is the same hour of the day as the boundary, and it is after the current hour whenever the boundary is less than a day before it |
| `DiscountStatus.CountdownEndsAtChange` | js/script.js:78-108 | for every table region, the status stays the same for every hour before the countdown's target hour and differs at the target hour |
| `DiscountStatus.StatusAt` | js/script.js:54-68 | an hour mark 0..47 reduced mod 24 is the hour of the day, and each table region's status at it follows its window |
| `Timeline.BarOf` | js/script.js:150-157 | a non-Asia bar ends at the window's end hour; the hard-coded Asia bar ends at hour 24 |
| `NextOpportunity.RecordFor` | js/script.js:181-186 | the record carries the region's name and its countdown; it is active iff the countdown reads "Ends in"; an active record has sort value 0, and for a well-formed window the sort value lies in 0..24 |
| `Timeline.HoursToPercent` | js/script.js:155-156 | the percentage of the 24-hour axis maps back to the hours it came from, and hours 0..24 give 0..100 % |
| `Timeline.MarkerPercent` | js/script.js:140 | the marker lies in [0, 100) % and maps back to the minute of the day |
| `Timeline.TableBarsMatchWindows` | js/script.js:150-157 | every table bar, Asia's hard-coded 16/8 included, starts at the window's start, is as wide as the window, and its start and width percentages add up to the end's |
| `Timeline.BarCoversActiveHours` | js/script.js:148-157 | a bar covers exactly the hours in which its region is active, for every table region and for any non-wrapping non-Asia window |
| `Timeline.MarkerOverBarIffActive` | js/script.js:140-157 | the marker's minute lies within a table region's bar exactly when that region is active |
| `Timeline.WrappingBarIsEmpty` | js/script.js:154-157 | for a non-Asia window that wraps past midnight, the generic bar has non-positive width and covers no hour |
| `NextOpportunity.Compare` | js/script.js:190-194 | the comparator is zero iff the records have the same activity and sort value, and negative iff the first is active and the second is not, or both have the same activity and the first has the smaller sort value |
| `NextOpportunity.CompareTransitive` | js/script.js:190-194 | "not after" under the comparator is transitive |
| `NextOpportunity.SortedOrder` | js/script.js:189-194 | in a sorted list every active record precedes every inactive one, and the inactive ones are in ascending sort value |
| `NextOpportunity.SwapKeepsKeyOrder` | js/script.js:190 | exchanging two neighbours with different keys keeps the relative order of the records within each key |
| `NextOpportunity.InsertDown` | js/script.js:190-194 | moving one record down into a sorted prefix leaves the longer prefix sorted and the records after it in place; the array stays a permutation and every key keeps its order |
| `NextOpportunity.SortInPlace` | js/script.js:190-194 | the array ends sorted by the comparator, as a permutation of its old contents, with equal-key records in their old order (stable) |
| `NextOpportunity.InactiveOrderFollowsMinutes` | js/script.js:185 | for two inactive regions at the same instant, the hour-only sort value orders them exactly as their remaining minutes do |
| `NextOpportunity.HeadOfRanking` | js/script.js:196-199 | the head of a sorted permutation is one of the records; it is active iff some record is, and otherwise has the least sort value |
| `NextOpportunity.RecordsSortValue` | js/script.js:181-186 | every record's sort value is 0 when active and the countdown's hour field when inactive |
| `NextOpportunity.SomeRecordActive` | js/script.js:176-187 | some record is active iff some region of the table is active |
| `NextOpportunity.HeadOpensSoonest` | js/script.js:196-199 | when no region is active, the head's countdown is no longer than any region's remaining minutes |
| `NextOpportunity.RankingFacts` | js/script.js:176-199 | for any non-empty table: the ranking is as long as the table, sort values are as built, the head is active iff some region is, and otherwise the head opens soonest |
| `NextOpportunity.UpdateNextOpportunity` | js/script.js:174-199 | the ranked list is a permutation of one record per table region. It is sorted (active first, then by hour field) and stable. The chosen record is its head, active iff some region is active, and otherwise the region that opens soonest |

## Left out

- The clock reads (`new Date()`, `getUTCHours`, `getUTCMinutes`): the model takes the UTC hour and minute as parameters. Seconds are not read by the logic.
- All calls of one refresh are evaluated at a single instant `t`. The script reads the clock anew in `getTimeUntilNext`, in `updateTimeline` and in every `isDiscountActive` call (js/script.js:55, 71, 135), so within one refresh its reads can fall on either side of an hour. At US East 08:59:59.999, for example, the countdown can read 08:59 while the status reads 09:00, and the script then shows "Starts in 16h 1m". The model does not capture such mixed readings. "The phase is Ends iff active" and the ranking facts rely on the single instant.
- All DOM work: element lookups, class, style and text writes, and building the timeline hour labels. These are browser effects with no logic of their own.
- Local-time formatting with `Intl.DateTimeFormat` and the `toUTCString().slice(17, 25)` clock text. These are foreign library formatting.
- Notifications: the enabled flag and its toggle, `showNotification`, and the permission request. These are browser APIs.
- The `setInterval` refresh. Each refresh is one call of these functions at a new instant.
- Floating-point percentages. The model uses the integer hours and minutes and exact `real` percentages, not JavaScript doubles.
- The textual countdown (`Ends in Xh Ym`) and the regex/`parseInt` that reads the hours back from it. The model keeps the countdown as a value and uses its hour field directly as the sort value. The label strings are modelled (`Label`).
- The text of the next-opportunity banner. The model returns the chosen record it is built from.
- The engine's own sort algorithm (TimSort in V8, merge sort in other engines) is replaced by insertion by exchanging neighbours. ECMAScript 2019 requires `sort` to be stable, and every stable sort with this comparator produces the same order.
