/**
 Whether a region's discount is active at a UTC hour (`isDiscountActive`) and
 how long until its next boundary (`getTimeUntilNext`).
 */
module DiscountStatus {
  import opened Clock
  import opened DiscountTable

  /** The rule for a region that is not special-cased: a half-open window
      `[utcStart, utcEnd)`, read as wrapping past midnight when `utcEnd <= utcStart`. */
  predicate WindowRule(w: Window, hour: Hour)
  {
    if w.utcEnd > w.utcStart then hour >= w.utcStart && hour < w.utcEnd
    else hour >= w.utcStart || hour < w.utcEnd
  }

  /** `isDiscountActive`, with the clock read replaced by `hour`. */
  function IsDiscountActive(e: Entry, hour: Hour): (active: bool)
    // The `utcHour < 0` disjunct of the Asia branch never holds.
    ensures e.key == AsiaKey ==> (active <==> hour >= e.window.utcStart)
    ensures e.key != AsiaKey ==> active == WindowRule(e.window, hour)
  {
    if e.key == AsiaKey then hour >= e.window.utcStart || hour < 0
    else WindowRule(e.window, hour)
  }

  /** For a non-wrapping window the upper bound is exclusive. */
  lemma NonWrappingMembership(e: Entry, hour: Hour)
    requires e.key != AsiaKey && e.window.utcEnd > e.window.utcStart
    ensures IsDiscountActive(e, hour) <==> e.window.utcStart <= hour < e.window.utcEnd
  {
  }

  /** A window with `utcEnd <= utcStart` covers the hours from its start to midnight
      and from midnight up to (excluding) its end. */
  lemma WrappingMembership(e: Entry, hour: Hour)
    requires e.key != AsiaKey && e.window.utcEnd <= e.window.utcStart
    ensures IsDiscountActive(e, hour) <==> hour >= e.window.utcStart || hour < e.window.utcEnd
  {
  }

  /** The Asia special case agrees with the generic rule when the window ends at 24. */
  lemma AsiaRuleIsWindowRule(e: Entry, hour: Hour)
    requires e.key == AsiaKey && e.window.utcEnd == 24 && e.window.utcStart < 24
    ensures IsDiscountActive(e, hour) == WindowRule(e.window, hour)
  {
  }

  /** Both branches of the script agree with the circular reference `OnCircle`
      on every well-formed window (for Asia, on one that ends at 24). */
  lemma MatchesCircularWindow(e: Entry, hour: Hour)
    requires WellFormed(e.window)
    requires e.key == AsiaKey ==> e.window.utcEnd == 24
    ensures IsDiscountActive(e, hour) <==> OnCircle(e.window, hour)
  {
  }

  /** The membership of every region of the table, hour by hour. */
  lemma TableActiveHours(hour: Hour)
    ensures IsDiscountActive(Asia, hour) <==> hour >= 16
    ensures IsDiscountActive(Europe, hour) <==> hour < 8
    ensures IsDiscountActive(UsEast, hour) <==> 1 <= hour < 9
  {
  }

  datatype Phase = Ends | Starts

  /** The countdown `getTimeUntilNext` reports: "Ends in" or "Starts in", then
      `hoursUntil`h `minutesUntil`m. */
  datatype Countdown = Countdown(phase: Phase, hoursUntil: int, minutesUntil: int)

  function Label(p: Phase): string
  {
    match p
    case Ends => "Ends in"
    case Starts => "Starts in"
  }

  /** The whole minutes a countdown reads as. */
  function TotalMinutes(c: Countdown): int
  {
    c.hoursUntil * 60 + c.minutesUntil
  }

  /** The boundary the countdown runs to: the end while active (Asia: hour 0),
      the start otherwise. */
  function BoundaryHour(e: Entry, active: bool): (b: int)
    ensures WellFormed(e.window) ==> 0 <= b <= 24
  {
    if !active then e.window.utcStart
    else if e.key == AsiaKey then 0
    else e.window.utcEnd
  }

  /** A boundary hour that is not after the current hour is taken on the next day. */
  function Lift(boundary: int, hour: Hour): (r: int)
    ensures r % 24 == boundary % 24
    ensures boundary > hour - 24 ==> r > hour
  {
    if boundary <= hour then boundary + 24 else boundary
  }

  /** The lifted boundary is the first occurrence of that hour mark strictly after
      the current hour, and the only one in the next 24 hours. */
  lemma LiftIsNextOccurrence(boundary: int, hour: Hour)
    requires 0 <= boundary <= 24
    ensures hour < Lift(boundary, hour) <= hour + 24
    ensures Lift(boundary, hour) % 24 == boundary % 24
    ensures forall x :: hour < x <= hour + 24 && x % 24 == boundary % 24 ==> x == Lift(boundary, hour)
  {
  }

  /** The Asia end special case (hour 0) picks the same target as the table's end, 24. */
  lemma AsiaEndIsTableEnd(hour: Hour)
    ensures Lift(BoundaryHour(Asia, true), hour) == Lift(Asia.window.utcEnd, hour)
  {
  }

  function TargetHour(e: Entry, hour: Hour): int
  {
    Lift(BoundaryHour(e, IsDiscountActive(e, hour)), hour)
  }

  /** Whole minutes from the current minute to the target hour mark. */
  function MinutesUntilNext(e: Entry, t: UtcTime): int
  {
    TargetHour(e, t.hour) * 60 - MinuteOfDay(t)
  }

  /** The specification of `getTimeUntilNext`: the remaining minutes split into
      hours and minutes by division, labelled by the phase. */
  function CountdownAt(e: Entry, t: UtcTime): (c: Countdown)
    ensures TotalMinutes(c) == MinutesUntilNext(e, t)
    ensures 0 <= c.minutesUntil < 60
    ensures c.phase == Ends <==> IsDiscountActive(e, t.hour)
    ensures Label(c.phase) == if IsDiscountActive(e, t.hour) then "Ends in" else "Starts in"
  {
    var total := MinutesUntilNext(e, t);
    Countdown(if IsDiscountActive(e, t.hour) then Ends else Starts, total / 60, total % 60)
  }

  /** The fields of the countdown in terms of the clock: the minute field depends
      on the minute of the clock alone. */
  lemma CountdownFields(e: Entry, t: UtcTime)
    ensures CountdownAt(e, t).minutesUntil == if t.minute == 0 then 0 else 60 - t.minute
    ensures CountdownAt(e, t).hoursUntil ==
      TargetHour(e, t.hour) - t.hour - (if t.minute == 0 then 0 else 1)
  {
  }

  /** The countdown always looks forward: at least one and at most 1440 minutes,
      so the hour field lies in 0..24. */
  lemma CountdownIsForward(e: Entry, t: UtcTime)
    requires WellFormed(e.window)
    ensures 1 <= MinutesUntilNext(e, t) <= MinutesPerDay
    ensures 0 <= CountdownAt(e, t).hoursUntil <= 24
    ensures t.hour < TargetHour(e, t.hour) <= t.hour + 24
  {
  }

  /** `getTimeUntilNext`: the boundary is lifted by a day when needed, then the
      minutes are split with the minute-60 adjustment. */
  method TimeUntilNext(e: Entry, t: UtcTime) returns (c: Countdown)
    ensures c == CountdownAt(e, t)
  {
    var hoursUntil, minutesUntil;
    CountdownFields(e, t);
    if IsDiscountActive(e, t.hour) {
      var endHour := e.window.utcEnd;
      if e.key == AsiaKey {
        endHour := 0;
      }
      if endHour <= t.hour {
        endHour := endHour + 24;
      }
      hoursUntil := endHour - t.hour;
      minutesUntil := 60 - t.minute;
      if minutesUntil == 60 {
        minutesUntil := 0;
      } else {
        hoursUntil := hoursUntil - 1;
      }
      c := Countdown(Ends, hoursUntil, minutesUntil);
    } else {
      var startHour := e.window.utcStart;
      if startHour <= t.hour {
        startHour := startHour + 24;
      }
      hoursUntil := startHour - t.hour;
      minutesUntil := 60 - t.minute;
      if minutesUntil == 60 {
        minutesUntil := 0;
      } else {
        hoursUntil := hoursUntil - 1;
      }
      c := Countdown(Starts, hoursUntil, minutesUntil);
    }
  }

  /** The region keeps its status for `k` hours from the current hour on. */
  predicate SameStatusAfter(e: Entry, hour: Hour, k: nat)
  {
    IsDiscountActive(e, (hour + k) % 24) == IsDiscountActive(e, hour)
  }

  /** For every region of the table, the status stays as it is up to the target
      hour of the countdown and changes at that hour: the countdown runs out
      exactly when the window opens or closes. */
  lemma CountdownEndsAtChange(e: Entry, t: UtcTime)
    requires e in DiscountWindows
    ensures forall k: nat :: k < TargetHour(e, t.hour) - t.hour ==> SameStatusAfter(e, t.hour, k)
    ensures IsDiscountActive(e, TargetHour(e, t.hour) % 24) != IsDiscountActive(e, t.hour)
  {
    assert e == Asia || e == Europe || e == UsEast;
    var target := TargetHour(e, t.hour);
    TableActiveHours(t.hour);
    assert t.hour < target <= t.hour + 24 by {
      TableIsValid();
      CountdownIsForward(e, t);
    }
    forall k: nat | k < target - t.hour
      ensures SameStatusAfter(e, t.hour, k)
    {
      StatusAt(e, t.hour + k);
    }
    StatusAt(e, target);
  }

  /** The status of a table region at an hour mark 0..47, read on the clock. */
  lemma StatusAt(e: Entry, x: int)
    requires e == Asia || e == Europe || e == UsEast
    requires 0 <= x < 48
    ensures var h := if x < 24 then x else x - 24;
      x % 24 == h && (IsDiscountActive(e, x % 24) <==>
        if e == Asia then h >= 16 else if e == Europe then h < 8 else 1 <= h < 9)
  {
    var h: Hour := if x < 24 then x else x - 24;
    assert x % 24 == h;
    TableActiveHours(h);
  }

  /** Europe is closed at 08:00 and opens 16 hours later. */
  lemma EuropeAtEight()
    ensures !IsDiscountActive(Europe, 8)
    ensures CountdownAt(Europe, UtcTime(8, 0)) == Countdown(Starts, 16, 0)
  {
  }

  /** US East at 08:59 is active and closes in one minute. */
  lemma UsEastAtEightFiftyNine()
    ensures IsDiscountActive(UsEast, 8)
    ensures CountdownAt(UsEast, UtcTime(8, 59)) == Countdown(Ends, 0, 1)
  {
  }
}
