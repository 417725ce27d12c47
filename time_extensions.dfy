/**
 * Stepping a `Time` forward or back by one hour, minute or second
 * (src/PH.Time/PH.Time/TimeExtensions.cs). The source builds a
 * `DateTime` on 1970-01-01 UTC from the three fields, adds or subtracts the
 * unit, and reads the fields and the day of the result back. Here that
 * `DateTime` is its offset in seconds from 1970-01-01T00:00:00: the time of day
 * is the offset modulo 86400, and the day changed when the offset left
 * [0, 86400).
 */
module TimeExtensions {
  import opened Int32Arith
  import opened PHTime

  const SecondsPerDay: int := 86400

  /** A stepped time and whether it fell on another day (`onNextDay` / `onPreviousDay`). */
  datatype Stepped = Stepped(time: Time, otherDay: bool)

  /** Seconds from 00:00:00. */
  function SecondsOfDay(t: Time): int
  {
    t.Hours * 3600 + t.Minutes * 60 + t.Seconds
  }

  /** `GetTime()` of a `DateTime` `n` seconds after midnight: its `Hour`,
      `Minute` and `Second`. */
  function FromSecondsOfDay(n: int): (t: Time)
    requires 0 <= n < SecondsPerDay
    ensures Valid(t) && SecondsOfDay(t) == n
  {
    TimeOfDayFields(n);
    Time(n / 3600, n / 60 % 60, n % 60)
  }

  lemma SecondsOfDayRange(t: Time)
    requires Valid(t)
    ensures 0 <= SecondsOfDay(t) < SecondsPerDay
  {
  }

  /** A valid time is determined by its seconds of day. */
  lemma SecondsOfDayInjective(a: Time, b: Time)
    requires Valid(a) && Valid(b) && SecondsOfDay(a) == SecondsOfDay(b)
    ensures a == b
  {
  }

  /** The day of an offset from midnight is day 0 exactly when the offset lies in [0, 86400). */
  lemma DayOfOffset(offset: int)
    ensures 0 <= offset % SecondsPerDay < SecondsPerDay
    ensures offset / SecondsPerDay != 0 <==> offset < 0 || offset >= SecondsPerDay
  {
  }

  /** The hour, minute and second shown `n` seconds after midnight are in range and add up to `n`. */
  lemma TimeOfDayFields(n: int)
    requires 0 <= n < SecondsPerDay
    ensures 0 <= n / 3600 <= 23 && 0 <= n / 60 % 60 <= 59 && 0 <= n % 60 <= 59
    ensures (n / 3600) * 3600 + (n / 60 % 60) * 60 + n % 60 == n
  {
    var t := Time(n / 3600, n / 60 % 60, n % 60);
    assert Valid(t) && SecondsOfDay(t) == n;
  }

  /** Reduction modulo one day of an offset less than a day away from [0, 86400). */
  lemma ModDay(x: int)
    requires -SecondsPerDay <= x < 2 * SecondsPerDay
    ensures x % SecondsPerDay == if x < 0 then x + SecondsPerDay else if x >= SecondsPerDay then x - SecondsPerDay else x
  {
  }

  /** A step that reaches the valid time `e` by seconds of day yields exactly `e`. */
  lemma StepReaches(t: Time, delta: int, e: Time)
    requires Valid(t) && Valid(e) && -SecondsPerDay < delta < SecondsPerDay
    requires -SecondsPerDay <= SecondsOfDay(t) + delta < 2 * SecondsPerDay
    requires SecondsOfDay(e) == (if SecondsOfDay(t) + delta < 0 then SecondsOfDay(t) + delta + SecondsPerDay
                                 else if SecondsOfDay(t) + delta >= SecondsPerDay then SecondsOfDay(t) + delta - SecondsPerDay
                                 else SecondsOfDay(t) + delta)
    ensures AddSeconds(t, delta).value.time == e
  {
    ModDay(SecondsOfDay(t) + delta);
    SecondsOfDayInjective(AddSeconds(t, delta).value.time, e);
  }

  /** Two steps that land on the same offset from 1970-01-01T00:00:00 give the same result. */
  lemma SameOffset(a: Time, da: int, b: Time, db: int)
    requires Valid(a) && Valid(b) && SecondsOfDay(a) + da == SecondsOfDay(b) + db
    requires -SecondsPerDay < da < SecondsPerDay && -SecondsPerDay < db < SecondsPerDay
    ensures AddSeconds(a, da) == AddSeconds(b, db)
  {
  }

  /** Subtracting a step less than a day undoes adding it, and the other way round. */
  lemma AddSecondsRoundTrip(t: Time, d: int)
    requires Valid(t) && 0 < d < SecondsPerDay
    ensures var n := AddSeconds(t, d).value;
      AddSeconds(n.time, -d) == Ok(Stepped(t, n.otherDay))
    ensures var p := AddSeconds(t, -d).value;
      AddSeconds(p.time, d) == Ok(Stepped(t, p.otherDay))
  {
    AddThenSubtract(t, d);
    AddThenSubtract(t, -d);
  }

  lemma AddThenSubtract(t: Time, d: int)
    requires Valid(t) && -SecondsPerDay < d < SecondsPerDay
    ensures var n := AddSeconds(t, d).value;
      AddSeconds(n.time, -d) == Ok(Stepped(t, n.otherDay))
  {
    SecondsOfDayRange(t);
    ModDay(SecondsOfDay(t) + d);
    UndoStep(t, d, AddSeconds(t, d).value);
  }

  /** Stepping back by `d` from the time `n` that stepping `t` by `d` reached. */
  lemma UndoStep(t: Time, d: int, n: Stepped)
    requires Valid(t) && -SecondsPerDay < d < SecondsPerDay && Valid(n.time)
    requires 0 <= SecondsOfDay(t) < SecondsPerDay
    requires SecondsOfDay(n.time) == (if SecondsOfDay(t) + d < 0 then SecondsOfDay(t) + d + SecondsPerDay
                                      else if SecondsOfDay(t) + d >= SecondsPerDay then SecondsOfDay(t) + d - SecondsPerDay
                                      else SecondsOfDay(t) + d)
    requires n.otherDay <==> SecondsOfDay(t) + d < 0 || SecondsOfDay(t) + d >= SecondsPerDay
    ensures AddSeconds(n.time, -d) == Ok(Stepped(t, n.otherDay))
  {
    ModDay(SecondsOfDay(n.time) - d);
    SecondsOfDayInjective(AddSeconds(n.time, -d).value.time, t);
  }

  /** For valid times the order of `CompareTo` is the order of the seconds of day. */
  lemma CompareToMatchesSecondsOfDay(a: Time, b: Time)
    requires Valid(a) && Valid(b)
    ensures Lt(a, b) <==> SecondsOfDay(a) < SecondsOfDay(b)
    ensures Le(a, b) <==> SecondsOfDay(a) <= SecondsOfDay(b)
  {
    CompareToMatchesMillis(a, b);
    assert Millis(a) == 1000 * SecondsOfDay(a) && Millis(b) == 1000 * SecondsOfDay(b);
  }

  /** `GetTime(DateTime)` and `GetTime(DateTimeOffset)`: a `DateTime` always
      has its hour, minute and second in range, so the constructor cannot throw. */
  function GetTime(hour: int, minute: int, second: int): (r: Time)
    requires 0 <= hour <= 23 && 0 <= minute <= 59 && 0 <= second <= 59
    ensures Create(hour, minute, second) == Ok(r)
    ensures Valid(r) && r.Hours == hour && r.Minutes == minute && r.Seconds == second
  {
    Create(hour, minute, second).value
  }

  /**
   * `new DateTime(1970, 1, 1, h, m, s).AddSeconds(delta)` followed by
   * `GetTime()` and the `Day` comparison with 1970-01-01. The `DateTime`
   * constructor throws for a field out of range, which only a time changed
   * through the unchecked setters can have.
   */
  function AddSeconds(t: Time, delta: int): (r: Result<Stepped>)
    requires -SecondsPerDay < delta < SecondsPerDay
    ensures r.Ok? <==> Valid(t)
    ensures r.Err? ==> r.error == UnrepresentableDateTime
    ensures r.Ok? ==> Valid(r.value.time)
    ensures r.Ok? ==> SecondsOfDay(r.value.time) == (SecondsOfDay(t) + delta) % SecondsPerDay
    ensures r.Ok? ==> (r.value.otherDay <==> SecondsOfDay(t) + delta < 0 || SecondsOfDay(t) + delta >= SecondsPerDay)
  {
    if !Valid(t) then Err(UnrepresentableDateTime)
    else
      var offset := SecondsOfDay(t) + delta;   // dt1, as seconds after dt0
      var n := offset % SecondsPerDay;        // dt1's time of day
      DayOfOffset(offset);
      Ok(Stepped(FromSecondsOfDay(n), offset / SecondsPerDay != 0))
  }

  function NextHour(t: Time): (r: Result<Stepped>)
    ensures r.Ok? <==> Valid(t)
    ensures r.Ok? ==> r.value == Stepped(t.(Hours := (t.Hours + 1) % 24), t.Hours == 23)
  {
    if Valid(t) then
      StepReaches(t, 3600, t.(Hours := (t.Hours + 1) % 24));
      AddSeconds(t, 3600)
    else
      AddSeconds(t, 3600)
  }

  function NextMinute(t: Time): (r: Result<Stepped>)
    ensures r.Ok? <==> Valid(t)
    ensures r.Ok? && t.Minutes < 59 ==> r.value == Stepped(t.(Minutes := t.Minutes + 1), false)
    ensures r.Ok? && t.Minutes == 59 ==> r == NextHour(t.(Minutes := 0))
  {
    if !Valid(t) then
      AddSeconds(t, 60)
    else if t.Minutes < 59 then
      StepReaches(t, 60, t.(Minutes := t.Minutes + 1));
      AddSeconds(t, 60)
    else
      SameOffset(t, 60, t.(Minutes := 0), 3600);
      AddSeconds(t, 60)
  }

  function NextSecond(t: Time): (r: Result<Stepped>)
    ensures r.Ok? <==> Valid(t)
    ensures r.Ok? && t.Seconds < 59 ==> r.value == Stepped(t.(Seconds := t.Seconds + 1), false)
    ensures r.Ok? && t.Seconds == 59 ==> r == NextMinute(t.(Seconds := 0))
  {
    if !Valid(t) then
      AddSeconds(t, 1)
    else if t.Seconds < 59 then
      StepReaches(t, 1, t.(Seconds := t.Seconds + 1));
      AddSeconds(t, 1)
    else
      SameOffset(t, 1, t.(Seconds := 0), 60);
      AddSeconds(t, 1)
  }

  function PreviousHour(t: Time): (r: Result<Stepped>)
    ensures r.Ok? <==> Valid(t)
    ensures r.Ok? ==> r.value == Stepped(t.(Hours := if t.Hours == 0 then 23 else t.Hours - 1), t.Hours == 0)
  {
    if Valid(t) then
      StepReaches(t, -3600, t.(Hours := if t.Hours == 0 then 23 else t.Hours - 1));
      AddSeconds(t, -3600)
    else
      AddSeconds(t, -3600)
  }

  function PreviousMinute(t: Time): (r: Result<Stepped>)
    ensures r.Ok? <==> Valid(t)
    ensures r.Ok? && t.Minutes > 0 ==> r.value == Stepped(t.(Minutes := t.Minutes - 1), false)
    ensures r.Ok? && t.Minutes == 0 ==> r == PreviousHour(t.(Minutes := 59))
  {
    if !Valid(t) then
      AddSeconds(t, -60)
    else if t.Minutes > 0 then
      StepReaches(t, -60, t.(Minutes := t.Minutes - 1));
      AddSeconds(t, -60)
    else
      SameOffset(t, -60, t.(Minutes := 59), -3600);
      AddSeconds(t, -60)
  }

  function PreviousSecond(t: Time): (r: Result<Stepped>)
    ensures r.Ok? <==> Valid(t)
    ensures r.Ok? && t.Seconds > 0 ==> r.value == Stepped(t.(Seconds := t.Seconds - 1), false)
    ensures r.Ok? && t.Seconds == 0 ==> r == PreviousMinute(t.(Seconds := 59))
  {
    if !Valid(t) then
      AddSeconds(t, -1)
    else if t.Seconds > 0 then
      StepReaches(t, -1, t.(Seconds := t.Seconds - 1));
      AddSeconds(t, -1)
    else
      SameOffset(t, -1, t.(Seconds := 59), -60);
      AddSeconds(t, -1)
  }

  /** Seconds in the unit `Next` and `Previous` step by: `Seconds` and every undefined part step by one second. */
  function StepSeconds(part: TimePart): int
  {
    match part
    case Hours => 3600
    case Minutes => 60
    case _ => 1
  }

  /** `Next(part, out onNextDay)`. */
  function Next(t: Time, part: TimePart): (r: Result<Stepped>)
    ensures r.Ok? <==> Valid(t)
    ensures r.Ok? ==> Valid(r.value.time)
    ensures r.Ok? ==> SecondsOfDay(r.value.time) == (SecondsOfDay(t) + StepSeconds(part)) % SecondsPerDay
    ensures r.Ok? ==> (r.value.otherDay <==> SecondsOfDay(t) + StepSeconds(part) >= SecondsPerDay)
  {
    NextUnitIsAdd(t, part);
    match part
    case Hours => NextHour(t)
    case Minutes => NextMinute(t)
    case _ => NextSecond(t)
  }

  /** `Previous(part, out onPreviousDay)`. */
  function Previous(t: Time, part: TimePart): (r: Result<Stepped>)
    ensures r.Ok? <==> Valid(t)
    ensures r.Ok? ==> Valid(r.value.time)
    ensures r.Ok? ==> SecondsOfDay(r.value.time) == (SecondsOfDay(t) - StepSeconds(part)) % SecondsPerDay
    ensures r.Ok? ==> (r.value.otherDay <==> SecondsOfDay(t) - StepSeconds(part) < 0)
  {
    PreviousUnitIsAdd(t, part);
    match part
    case Hours => PreviousHour(t)
    case Minutes => PreviousMinute(t)
    case _ => PreviousSecond(t)
  }

  /** Each unit step adds its number of seconds, whichever branch it takes. */
  lemma NextUnitIsAdd(t: Time, part: TimePart)
    ensures (match part
             case Hours => NextHour(t)
             case Minutes => NextMinute(t)
             case _ => NextSecond(t)) == AddSeconds(t, StepSeconds(part))
    ensures Valid(t) ==> 0 <= SecondsOfDay(t) < SecondsPerDay
  {
  }

  lemma PreviousUnitIsAdd(t: Time, part: TimePart)
    ensures (match part
             case Hours => PreviousHour(t)
             case Minutes => PreviousMinute(t)
             case _ => PreviousSecond(t)) == AddSeconds(t, -StepSeconds(part))
    ensures Valid(t) ==> 0 <= SecondsOfDay(t) < SecondsPerDay
  {
  }

  lemma NextIsAddSeconds(t: Time, part: TimePart)
    ensures Next(t, part) == AddSeconds(t, StepSeconds(part))
    ensures Previous(t, part) == AddSeconds(t, -StepSeconds(part))
  {
  }

  /** Stepping back undoes stepping forward and the other way round, and both
      report the same day change. */
  lemma StepRoundTrip(t: Time, part: TimePart)
    requires Valid(t)
    ensures var n := Next(t, part).value;
      Previous(n.time, part) == Ok(Stepped(t, n.otherDay))
    ensures var p := Previous(t, part).value;
      Next(p.time, part) == Ok(Stepped(t, p.otherDay))
  {
    NextIsAddSeconds(t, part);
    NextIsAddSeconds(Next(t, part).value.time, part);
    NextIsAddSeconds(Previous(t, part).value.time, part);
    AddSecondsRoundTrip(t, StepSeconds(part));
  }

  /** Without a day change `Next` moves later and `Previous` earlier; with one, the other way round. */
  lemma StepOrder(t: Time, part: TimePart)
    requires Valid(t)
    ensures var n := Next(t, part).value;
      Valid(n.time) && (if n.otherDay then Lt(n.time, t) else Lt(t, n.time))
    ensures var p := Previous(t, part).value;
      Valid(p.time) && (if p.otherDay then Lt(t, p.time) else Lt(p.time, t))
  {
    NextOrder(t, part);
    PreviousOrder(t, part);
  }

  lemma NextOrder(t: Time, part: TimePart)
    requires Valid(t)
    ensures var n := Next(t, part).value;
      Valid(n.time) && (if n.otherDay then Lt(n.time, t) else Lt(t, n.time))
  {
    var n := Next(t, part).value;
    SecondsOfDayRange(t);
    ModDay(SecondsOfDay(t) + StepSeconds(part));
    CompareToMatchesSecondsOfDay(t, n.time);
    CompareToMatchesSecondsOfDay(n.time, t);
  }

  lemma PreviousOrder(t: Time, part: TimePart)
    requires Valid(t)
    ensures var p := Previous(t, part).value;
      Valid(p.time) && (if p.otherDay then Lt(t, p.time) else Lt(p.time, t))
  {
    var p := Previous(t, part).value;
    SecondsOfDayRange(t);
    ModDay(SecondsOfDay(t) - StepSeconds(part));
    CompareToMatchesSecondsOfDay(t, p.time);
    CompareToMatchesSecondsOfDay(p.time, t);
  }

  /** The last second of the day steps to midnight of the next day. */
  lemma MaxValueNextSecond()
    ensures NextSecond(MaxValue) == Ok(Stepped(MinValue, true))
  {
    assert NextHour(Time(23, 0, 0)).value == Stepped(MinValue, true);
    assert NextSecond(MaxValue) == NextMinute(Time(23, 59, 0)) == NextHour(Time(23, 0, 0));
  }

  /** One second before midnight is 23:59:59 on the previous day. */
  lemma MinValuePreviousSecond()
    ensures Previous(MinValue, Seconds) == Ok(Stepped(MaxValue, true))
  {
    assert PreviousSecond(MinValue) == PreviousMinute(Time(0, 0, 59)) == PreviousHour(Time(0, 59, 59));
    assert PreviousHour(Time(0, 59, 59)).value == Stepped(MaxValue, true);
  }

  /** The last hour of the day steps by hours to midnight of the next day. */
  lemma HourWrapsAtMidnight()
    ensures Next(Time(23, 0, 0), Hours) == Ok(Stepped(MinValue, true))
  {
    assert NextHour(Time(23, 0, 0)).value == Stepped(MinValue, true);
  }

  /** Worked values within the day: a carry through minutes into hours. */
  lemma CarryIntoHour()
    ensures NextSecond(Time(9, 59, 59)) == Ok(Stepped(Time(10, 0, 0), false))
  {
    assert NextSecond(Time(9, 59, 59)) == NextMinute(Time(9, 59, 0));
    assert NextMinute(Time(9, 59, 0)) == NextHour(Time(9, 0, 0));
    assert NextHour(Time(9, 0, 0)).value == Stepped(Time(10, 0, 0), false);
  }

  /** One step of each unit from midnight stays on the same day. */
  lemma HourFromMidnight(t: Time)
    requires Valid(t) && SecondsOfDay(t) == 0
    ensures Next(t, Hours) == Ok(Stepped(Time(1, 0, 0), false))
  {
    SecondsOfDayInjective(Next(t, Hours).value.time, Time(1, 0, 0));
  }

  lemma MinuteFromMidnight(t: Time)
    requires Valid(t) && SecondsOfDay(t) == 0
    ensures Next(t, Minutes) == Ok(Stepped(Time(0, 1, 0), false))
  {
    SecondsOfDayInjective(Next(t, Minutes).value.time, Time(0, 1, 0));
  }

  lemma SecondFromMidnight(t: Time)
    requires Valid(t) && SecondsOfDay(t) == 0
    ensures Next(t, Seconds) == Ok(Stepped(Time(0, 0, 1), false))
  {
    SecondsOfDayInjective(Next(t, Seconds).value.time, Time(0, 0, 1));
  }

  /** `MinValue.Next` by hours, minutes and seconds. */
  lemma StepsFromMinValue()
    ensures Next(MinValue, Hours) == Ok(Stepped(Time(1, 0, 0), false))
    ensures Next(MinValue, Minutes) == Ok(Stepped(Time(0, 1, 0), false))
    ensures Next(MinValue, Seconds) == Ok(Stepped(Time(0, 0, 1), false))
  {
    DayBounds();
    HourFromMidnight(MinValue);
    MinuteFromMidnight(MinValue);
    SecondFromMidnight(MinValue);
  }

  /** `MinValue` and `MaxValue` are the first and the last second of the day. */
  lemma DayBounds()
    ensures Valid(MinValue) && SecondsOfDay(MinValue) == 0
    ensures Valid(MaxValue) && SecondsOfDay(MaxValue) == SecondsPerDay - 1
  {
  }

  /** From a valid time whose stepped field is below its maximum, `Next`
      increments just that field. */
  lemma UnitStepWithinDay(t: Time, part: TimePart)
    requires Valid(t) && (part == Hours || part == Minutes || part == Seconds)
    requires part == Hours ==> t.Hours < 23
    requires part == Minutes ==> t.Minutes < 59
    requires part == Seconds ==> t.Seconds < 59
    ensures part == Hours ==> Next(t, part) == Ok(Stepped(t.(Hours := t.Hours + 1), false))
    ensures part == Minutes ==> Next(t, part) == Ok(Stepped(t.(Minutes := t.Minutes + 1), false))
    ensures part == Seconds ==> Next(t, part) == Ok(Stepped(t.(Seconds := t.Seconds + 1), false))
  {
  }

  lemma BorrowFromHour()
    ensures Previous(Time(9, 0, 0), Hours) == Ok(Stepped(Time(8, 0, 0), false))
    ensures Previous(Time(9, 0, 0), Minutes) == Ok(Stepped(Time(8, 59, 0), false))
  {
    assert PreviousHour(Time(9, 0, 0)).value == Stepped(Time(8, 0, 0), false);
    assert PreviousMinute(Time(9, 0, 0)) == PreviousHour(Time(9, 59, 0));
    assert PreviousHour(Time(9, 59, 0)).value == Stepped(Time(8, 59, 0), false);
  }
}
