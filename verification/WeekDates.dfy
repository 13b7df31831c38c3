/** Weekdays, dates named by weekday and index within a month, and ISO 8601 week dates, as `date.h` computes them. */
module WeekDates {
  import opened Machine
  import opened Calendar
  import opened WideInput

  /** `weekday`: 0 is Sunday. Only 0..6 are weekdays; other bytes can be stored. */
  type Weekday = uint8

  const MONDAY: Weekday := 1
  const THURSDAY: Weekday := 4

  predicate WeekdayOk(wd: Weekday) { wd <= 6 }

  /** `weekday(unsigned)`: both 0 and 7 mean Sunday. */
  function MakeWeekday(wd: uint32): Weekday {
    ToUint8((if wd != 7 then wd else 0) as int)
  }

  /** `weekday_from_days`: the day number is reinterpreted as unsigned, and both the cast and the sum wrap. */
  function WeekdayFromDays(z: int32): Weekday {
    var u: uint32 := (if 0 <= z then z as int else z as int + 0x1_0000_0000) as uint32;
    if -4 <= z then (((u as int + 4) % 0x1_0000_0000) % 7) as Weekday else (u % 7) as Weekday
  }

  /** Days from y forward to x, `operator-(weekday, weekday)`. */
  function WeekdayDifference(x: Weekday, y: Weekday): int32 {
    var wdu := x as int32 - y as int32;
    var wk := Quot(if 0 <= wdu then wdu as int else (wdu - 6) as int, 7) as int32;
    wdu - wk * 7
  }

  /** `operator+(weekday, days)` */
  function WeekdayPlus(x: Weekday, days: int32): Weekday {
    var wdu := x as int + days as int;
    var wk := Quot(if 0 <= wdu then wdu else wdu - 6, 7);
    MakeWeekday((wdu - wk * 7) as uint32)
  }

  /** The wrapping formula is the residue of z + 4, since 1970-01-01 was a Thursday, for every 32-bit z. */
  lemma WeekdayFromDaysIsResidue(z: int32)
    ensures WeekdayFromDays(z) as int == (z as int + 4) % 7
    ensures WeekdayOk(WeekdayFromDays(z))
  {
    if z < -4 {
      var u := z as int + 0x1_0000_0000;
      ResidueIs(z as int + 4, 7, u / 7 - 613566756, u % 7);
    } else if z < 0 {
      assert (z as int + 0x1_0000_0000 + 4) % 0x1_0000_0000 == z as int + 4;
    }
  }

  /** Adding days to a weekday, any number of them forwards or backwards, gives the weekday of the day that far away. */
  lemma WeekdayOfOtherDay(z: int32, n: int32)
    requires -0x8000_0000 <= z as int + n as int < 0x8000_0000
    ensures WeekdayFromDays(z + n) == WeekdayPlus(WeekdayFromDays(z), n)
  {
    hide WeekdayFromDays;
    WeekdayFromDaysIsResidue(z);
    WeekdayFromDaysIsResidue(z + n);
    var wd := WeekdayFromDays(z);
    WeekdayPlusIsResidue(wd, n);
    ResidueIs(wd as int + n as int, 7, (z as int + n as int + 4) / 7 - (z as int + 4) / 7, (z as int + n as int + 4) % 7);
  }

  lemma WeekdayPlusIsResidue(wd: Weekday, n: int32)
    ensures WeekdayPlus(wd, n) as int == (wd as int + n as int) % 7
  {
  }

  /** Weekday subtraction and addition are inverse, and a difference is 0..6 days forward. */
  lemma WeekdayDifferenceThenPlus(x: Weekday, y: Weekday)
    requires WeekdayOk(x) && WeekdayOk(y)
    ensures 0 <= WeekdayDifference(x, y) <= 6
    ensures WeekdayPlus(y, WeekdayDifference(x, y)) == x
  {
  }

  // ----- The n-th weekday of a month -----

  /** `year_month_weekday` */
  datatype YearMonthWeekday = YearMonthWeekday(year: int16, month: uint8, weekday: Weekday, index: uint8) {
    predicate Ok() {
      if year == -0x8000 || !(1 <= month <= 12) || !WeekdayOk(weekday) || index < 1 then false
      else if index <= 4 then true
      else
        var d2 := WeekdayDifference(weekday, WeekdayFromDays(ToDays(YearMonthDay(year, month, 1))))
                  + ((index as int32 - 1) * 7 + 1);
        d2 as int <= LastDay(year as int, month as int)
    }
  }

  /** `year_month_weekday::from_days` */
  function WeekdayOfMonthFromDays(days: int32): YearMonthWeekday
    requires days <= MAX_DAYS
  {
    var ymd := FromDays(days);
    assert 1 <= ymd.day;
    YearMonthWeekday(ymd.year, ymd.month, WeekdayFromDays(days), (ymd.day - 1) / 7 + 1)
  }

  /** `year_month_weekday::to_days` */
  function WeekdayOfMonthToDays(ymw: YearMonthWeekday): int32
    requires 1 <= ymw.month <= 12 && 1 <= ymw.index
  {
    var d := ToDays(YearMonthDay(ymw.year, ymw.month, 1));
    d + (WeekdayDifference(ymw.weekday, WeekdayFromDays(d)) + (ymw.index as int32 - 1) * 7)
  }

  /** Day numbers within a month run in step with the days of the month. */
  lemma DayWithinMonth(c: Civil)
    ensures Serial(c) == Serial(Civil(c.y, c.m, 1)) + c.d - 1
  {
  }

  lemma WeekdayShift(a: int32, b: int32)
    ensures WeekdayDifference(WeekdayFromDays(b), WeekdayFromDays(a)) as int == (b as int - a as int) % 7
  {
    WeekdayFromDaysIsResidue(a);
    WeekdayFromDaysIsResidue(b);
    var x, y := WeekdayFromDays(b) as int, WeekdayFromDays(a) as int;
    var qb, qa := (b as int + 4) / 7, (a as int + 4) / 7;
    if y <= x {
      ResidueIs(b as int - a as int, 7, qb - qa, x - y);
    } else {
      ResidueIs(b as int - a as int, 7, qb - qa - 1, x - y + 7);
    }
  }

  predicate Indexed(ymw: YearMonthWeekday) {
    ymw.year != -0x8000 && 1 <= ymw.month <= 12 && WeekdayOk(ymw.weekday) && 1 <= ymw.index < 16
  }

  function FirstOfMonth(ymw: YearMonthWeekday): (z: int32)
    requires 1 <= ymw.month <= 12
  {
    ToDays(YearMonthDay(ymw.year, ymw.month, 1))
  }

  /** The day of the month that a weekday and an index name, which may lie past the end of the month. */
  function NamedDay(ymw: YearMonthWeekday): (d: int)
    requires Indexed(ymw)
    ensures (d - 1) / 7 + 1 == ymw.index as int
  {
    WeekdayDifferenceThenPlus(ymw.weekday, WeekdayFromDays(FirstOfMonth(ymw)));
    WeekdayDifference(ymw.weekday, WeekdayFromDays(FirstOfMonth(ymw))) as int + (ymw.index as int - 1) * 7 + 1
  }

  function NamedCivil(ymw: YearMonthWeekday): Civil
    requires Indexed(ymw)
  {
    Civil(ymw.year as int, ymw.month as int, NamedDay(ymw))
  }

  lemma NamedDayProperties(ymw: YearMonthWeekday)
    requires Indexed(ymw)
    ensures ymw.Ok() <==> NamedCivil(ymw).Valid()
    ensures WeekdayOfMonthToDays(ymw) as int == Serial(NamedCivil(ymw))
    ensures -14_000_000 <= WeekdayOfMonthToDays(ymw) <= 14_000_000
  {
    var first := YearMonthDay(ymw.year, ymw.month, 1);
    WeekdayDifferenceThenPlus(ymw.weekday, WeekdayFromDays(FirstOfMonth(ymw)));
    ToDaysIsSerial(first);
    DayWithinMonth(NamedCivil(ymw));
  }

  lemma NamedDayFallsOnWeekday(ymw: YearMonthWeekday)
    requires Indexed(ymw)
    ensures WeekdayFromDays(WeekdayOfMonthToDays(ymw)) == ymw.weekday
  {
    var first, there := FirstOfMonth(ymw), WeekdayOfMonthToDays(ymw);
    var w, v := ymw.weekday as int, WeekdayFromDays(first) as int;
    WeekdayFromDaysIsResidue(first);
    WeekdayFromDaysIsResidue(there);
    WeekdayDifferenceThenPlus(ymw.weekday, WeekdayFromDays(first));
    var q := (first as int + 4) / 7;
    ResidueIs(there as int + 4, 7, q + (ymw.index as int - 1) + (if v <= w then 0 else 1), w);
  }

  /** A date of the month is the one its own weekday and index name. */
  lemma DateNamesItself(c: Civil, days: int32, ymw: YearMonthWeekday)
    requires c.Valid() && Serial(c) == days as int && ymw.year != -0x8000
    requires ymw.year as int == c.y && ymw.month as int == c.m
    requires ymw.weekday == WeekdayFromDays(days) && ymw.index as int == (c.d - 1) / 7 + 1
    ensures Indexed(ymw) && NamedCivil(ymw) == c
  {
    WeekdayFromDaysIsResidue(days);
    ToDaysIsSerial(YearMonthDay(ymw.year, ymw.month, 1));
    DayWithinMonth(c);
    WeekdayShift(FirstOfMonth(ymw), days);
  }

  /** A day number is recovered from its weekday and index if and only if its year fits in `date::year`. */
  lemma WeekdayOfMonthFromThenTo(days: int32)
    requires days <= MAX_DAYS
    ensures var ymw := WeekdayOfMonthFromDays(days);
            (ymw.Ok() && WeekdayOfMonthToDays(ymw) == days) <==> -32767 <= CivilFromDays(days).y <= 32767
  {
    var c, ymw := CivilFromDays(days), WeekdayOfMonthFromDays(days);
    WeekdayFromDaysIsResidue(days);
    if -32767 <= c.y <= 32767 {
      DateNamesItself(c, days, ymw);
      NamedDayProperties(ymw);
    } else if ymw.Ok() {
      NamedDayProperties(ymw);
      SerialIsMonotone(NamedCivil(ymw), c);
    }
  }

  /** The date an `ok` month weekday names exists, and converts back to it. */
  lemma WeekdayOfMonthToThenFrom(ymw: YearMonthWeekday)
    requires ymw.Ok() && ymw.index < 16
    ensures WeekdayOfMonthToDays(ymw) <= MAX_DAYS
    ensures WeekdayOfMonthFromDays(WeekdayOfMonthToDays(ymw)) == ymw
  {
    NamedDayProperties(ymw);
    NamedDayFallsOnWeekday(ymw);
    SerialIsMonotone(NamedCivil(ymw), CivilFromDays(WeekdayOfMonthToDays(ymw)));
  }

  /** `ok` accepts a weekday and index exactly when the month has a day that they name; so it accepts index 5
      exactly when there is a fifth such weekday. */
  lemma WeekdayOfMonthOkIffDayExists(ymw: YearMonthWeekday)
    requires ymw.year != -0x8000 && 1 <= ymw.month <= 12 && WeekdayOk(ymw.weekday) && ymw.index < 16
    ensures ymw.Ok() <==> exists d :: IsNamedDay(ymw, d)
  {
    if ymw.Ok() {
      NamedDayProperties(ymw);
      NamedDayFallsOnWeekday(ymw);
      var d := NamedDay(ymw) as uint8;
      ToDaysIsSerial(YearMonthDay(ymw.year, ymw.month, d));
      assert IsNamedDay(ymw, d);
    }
    if d :| IsNamedDay(ymw, d) {
      var ymd := YearMonthDay(ymw.year, ymw.month, d);
      ToDaysIsSerial(ymd);
      DateNamesItself(ymd.AsCivil(), ToDays(ymd), ymw);
      NamedDayProperties(ymw);
    }
  }

  predicate IsNamedDay(ymw: YearMonthWeekday, d: uint8) {
    var ymd := YearMonthDay(ymw.year, ymw.month, d);
    ymd.Ok() && WeekdayFromDays(ToDays(ymd)) == ymw.weekday && (d - 1) / 7 + 1 == ymw.index
  }

  // ----- ISO 8601 week dates -----

  /** `year_month_weekday_last::to_days` for the last Thursday of December. */
  function LastThursdayOfDecember(y: int16): (z: int32)
    ensures -13_000_300 <= z <= 13_000_300
  {
    var d := ToDays(YearMonthDay(y, 12, 31));
    d - WeekdayDifference(WeekdayFromDays(d), THURSDAY)
  }

  /** The day week 1 of year y starts on: the Monday after the last Thursday of the previous December. */
  function WeekOneStart(y: int16): (z: int32)
    ensures -13_000_400 <= z <= 13_000_400
  {
    LastThursdayOfDecember(ToInt16(y as int - 1)) + WeekdayDifference(MONDAY, THURSDAY)
  }

  datatype WeekDate = WeekDate(year: int16, week: int, weekday: Weekday)

  /** The week-year of a day, as `to_stream` finds it: the year three days later, or the one before. */
  function WeekYear(ld: int32): int16
    requires -13_000_000 <= ld <= 13_000_000
  {
    var y := FromDays(ld + 3).year;
    if ld < WeekOneStart(y) then ToInt16(y as int - 1) else y
  }

  /** The week-year, week number and weekday that `to_stream` prints for %G, %V and %u. */
  function ToWeekDate(ymd: YearMonthDay): WeekDate
    requires ymd.Ok()
  {
    var ld := ToDays(ymd);
    var y := WeekYear(ld);
    WeekDate(y, Quot((ld - WeekOneStart(y)) as int, 7) + 1, WeekdayFromDays(ld))
  }

  /** The values that mean "not set" when a week date is read. */
  const NOT_A_YEAR := -0x8000
  const NOT_A_WEEK_NUM := 100
  const NOT_A_WEEKDAY := 8

  /** The day number `from_stream` computes from a week-year, a week number and a weekday. */
  function DayOfWeekDate(G: int, V: int, wd: Weekday): (day: int)
    requires WeekdayOk(wd)
    ensures -13_000_400 + 7 * (V - 1) <= day <= 13_000_406 + 7 * (V - 1)
  {
    LastThursdayOfDecember(ToInt16(G - 1)) as int + WeekdayDifference(MONDAY, THURSDAY) as int
    + 7 * (V - 1) + WeekdayDifference(wd, MONDAY) as int
  }

  /** The week-date path of parsing, taken only when all three values are set. */
  function FromWeekDate(w: WeekDate): Option<int>
    requires WeekdayOk(w.weekday) || w.weekday as int == NOT_A_WEEKDAY
  {
    if w.year as int == NOT_A_YEAR || w.week == NOT_A_WEEK_NUM || w.weekday as int == NOT_A_WEEKDAY then None
    else Some(DayOfWeekDate(w.year as int, w.week, w.weekday))
  }

  function NewYear(y: int): int { Serial(Civil(y, 1, 1)) }

  lemma NewYearStep(y: int)
    ensures NewYear(y) + 365 <= NewYear(y + 1) <= NewYear(y) + 366
    ensures Serial(Civil(y, 12, 31)) == NewYear(y + 1) - 1
  {
    MarchYearLength(y - 1);
    SerialOfNext(Civil(y, 12, 31));
  }

  /** A day from one new year to another lies in a year between them. */
  lemma YearBetween(c: Civil, y: int, z: int)
    requires c.Valid()
    ensures NewYear(y) <= Serial(c) < NewYear(z) <==> y <= c.y < z
  {
    SerialIsMonotone(c, Civil(y, 1, 1));
    SerialIsMonotone(c, Civil(z, 1, 1));
  }

  /** The last Thursday of December lies within its last seven days. */
  lemma LastThursdayIsThursday(y: int16)
    ensures var z, newYear := LastThursdayOfDecember(y) as int, NewYear(y as int + 1);
            newYear - 7 <= z < newYear && (z + 4) % 7 == 4
  {
    var newYearsEve := YearMonthDay(y, 12, 31);
    var d := ToDays(newYearsEve);
    ToDaysIsSerial(newYearsEve);
    NewYearStep(y as int);
    WeekdayFromDaysIsResidue(d);
    ThursdayBefore(d);
  }

  lemma ThursdayBefore(d: int32)
    requires -13_000_000 <= d <= 13_000_000
    ensures var back := WeekdayDifference(WeekdayFromDays(d), THURSDAY);
            0 <= back <= 6 && (d as int - back as int + 4) % 7 == 4
  {
    WeekdayFromDaysIsResidue(d);
    var w, q := WeekdayFromDays(d) as int, (d as int + 4) / 7;
    var back := WeekdayDifference(WeekdayFromDays(d), THURSDAY) as int;
    ResidueIs(d as int - back + 4, 7, if 4 <= w then q else q - 1, 4);
  }

  /** Week 1 starts on the Monday on or before 4 January. */
  lemma WeekOneHoldsJanuaryFourth(y: int16)
    requires -0x8000 < y
    ensures NewYear(y as int) - 3 <= WeekOneStart(y) as int <= NewYear(y as int) + 3
    ensures (WeekOneStart(y) as int + 4) % 7 == 1
  {
    hide LastThursdayOfDecember, NewYear;
    LastThursdayIsThursday(y - 1);
    var z := LastThursdayOfDecember(y - 1) as int;
    ResidueIs(WeekOneStart(y) as int + 4, 7, (z + 4) / 7 + 1, 1);
  }

  lemma YearOfThirdDayOn(c: Civil, e: Civil)
    requires c.Valid() && e.Valid() && Serial(e) == Serial(c) + 3
    ensures c.y <= e.y <= c.y + 1
  {
    YearBetween(c, c.y, c.y + 1);
    NewYearStep(c.y + 1);
    YearBetween(e, c.y, c.y + 2);
  }

  /** The Thursday of the Monday-based week that holds day ld, of the weeks counted from start. */
  function ThursdayOfWeek(start: int32, ld: int32): int {
    start as int + (ld as int - start as int) / 7 * 7 + 3
  }

  predicate HoldsWeek(y: int16, ld: int32) {
    var start := WeekOneStart(y);
    start <= ld < start + 371 && NewYear(y as int) <= ThursdayOfWeek(start, ld) < NewYear(y as int + 1)
  }

  lemma LateDayInYear(newYear: int, nextNewYear: int, start: int, ld: int)
    requires newYear - 3 <= start <= newYear + 3 && newYear + 365 <= nextNewYear <= newYear + 366
    requires start <= ld < nextNewYear - 3
    ensures ld < start + 371 && newYear <= start + (ld - start) / 7 * 7 + 3 < nextNewYear
  {
  }

  lemma EarlyDayInPreviousYear(newYear: int, nextNewYear: int, start: int, nextStart: int, ld: int)
    requires newYear - 3 <= start <= newYear + 3 && newYear + 365 <= nextNewYear <= newYear + 366
    requires nextNewYear - 3 <= ld < nextStart <= nextNewYear + 3
    requires (start + 4) % 7 == 1 && (nextStart + 4) % 7 == 1
    ensures start <= ld < start + 371 && newYear <= start + (ld - start) / 7 * 7 + 3 < nextNewYear
  {
    var weeks := (nextStart + 4) / 7 - (start + 4) / 7;
    assert nextStart - start == 7 * weeks && weeks <= 53;
    assert (ld - start) / 7 <= weeks - 1;
  }

  lemma LateDayHoldsWeek(y: int16, ld: int32)
    requires -0x8000 < y && WeekOneStart(y) <= ld && ld as int + 3 < NewYear(y as int + 1)
    ensures HoldsWeek(y, ld)
  {
    WeekOneHoldsJanuaryFourth(y);
    NewYearStep(y as int);
    LateDayInYear(NewYear(y as int), NewYear(y as int + 1), WeekOneStart(y) as int, ld as int);
  }

  lemma EarlyDayHoldsWeek(y: int16, ld: int32)
    requires -0x7FFF < y && ld < WeekOneStart(y) && NewYear(y as int) <= ld as int + 3
    ensures HoldsWeek(y - 1, ld)
  {
    WeekOneHoldsJanuaryFourth(y);
    WeekOneHoldsJanuaryFourth(y - 1);
    NewYearStep(y as int - 1);
    EarlyDayInPreviousYear(NewYear(y as int - 1), NewYear(y as int),
                           WeekOneStart(y - 1) as int, WeekOneStart(y) as int, ld as int);
  }

  // ----- The ends of `date::year` -----

  /** The date lies in a week-year that `date::year` holds: not before the first Monday of the first year. */
  predicate WeekYearFits(ymd: YearMonthDay) { !ymd.Before(YearMonthDay(-32767, 1, 3)) }

  /** 1 January and the first Monday of the first year, and 1 January, a Monday, of the year after the last. */
  const FIRST_DAY := -12687428
  const FIRST_MONDAY := -12687426
  const END_DAY := 11248738

  lemma FirstNewYear()
    ensures NewYear(-32767) == FIRST_DAY
  {
  }

  lemma EndNewYear()
    ensures NewYear(32768) == END_DAY
  {
  }

  lemma FirstWeekStart()
    ensures WeekOneStart(-32767) as int == FIRST_MONDAY
  {
    hide WeekOneStart, NewYear;
    FirstNewYear();
    WeekOneHoldsJanuaryFourth(-32767);
    MondayNearSaturday(WeekOneStart(-32767) as int);
  }

  lemma MondayNearSaturday(z: int)
    requires FIRST_DAY - 3 <= z <= FIRST_DAY + 3 && (z + 4) % 7 == 1
    ensures z == FIRST_MONDAY
  {
  }

  /** The week-year before the first wraps round, and its first week to the end of the last year. */
  lemma WrappedWeekStart()
    ensures WeekOneStart(-32768) as int == END_DAY
  {
    hide LastThursdayOfDecember, NewYear;
    EndNewYear();
    LastThursdayIsThursday(32767);
    ThursdayBeforeEnd(LastThursdayOfDecember(32767) as int);
    WrapsAround();
    hide ToInt16;
  }

  lemma ThursdayBeforeEnd(z: int)
    requires END_DAY - 7 <= z < END_DAY && (z + 4) % 7 == 4
    ensures z == END_DAY - 4
  {
  }

  lemma WeekYearIs(ld: int32, y: int16)
    requires -13_000_000 <= ld <= 13_000_000 && FromDays(ld + 3).year == y
    ensures WeekYear(ld) == if ld < WeekOneStart(y) then ToInt16(y as int - 1) else y
  {
    hide FromDays, WeekOneStart;
  }

  lemma YearThreeDaysOn(ld: int32, y: int)
    requires -13_000_000 <= ld <= 13_000_000 && NewYear(y) <= ld as int + 3 < NewYear(y + 1)
    ensures FromDays(ld + 3).year == ToInt16(y)
  {
    hide NewYear, Serial;
    YearBetween(CivilFromDays(ld + 3), y, y + 1);
    hide CivilFromDays;
  }

  /** The last three days of the last year belong to it: their week ends with the year. The year three days later wraps to the
      least 16-bit year, whose computed first week starts after them, and the step back wraps to the last year. */
  lemma LastDaysHoldWeek(ld: int32)
    requires END_DAY - 3 <= ld as int < END_DAY
    ensures WeekYear(ld) == 32767 && HoldsWeek(32767, ld)
  {
    hide WeekYear, HoldsWeek, WeekOneStart, NewYear, FromDays;
    EndNewYear();
    NewYearStep(32768);
    YearThreeDaysOn(ld, 32768);
    WrapsAround();
    WeekYearIs(ld, -32768);
    WrappedWeekStart();
    WeekOneHoldsJanuaryFourth(32767);
    NewYearStep(32767);
    EarlyDayInPreviousYear(NewYear(32767), NewYear(32768), WeekOneStart(32767) as int, END_DAY, ld as int);
    HoldsWeekIs(32767, ld);
  }

  lemma WrapsAround()
    ensures ToInt16(32768) == -32768 && ToInt16(-32769) == 32767
  {
  }

  lemma HoldsWeekIs(y: int16, ld: int32)
    ensures var start := WeekOneStart(y) as int;
            HoldsWeek(y, ld) <==> start <= ld as int < start + 371
                                  && NewYear(y as int) <= start + (ld as int - start) / 7 * 7 + 3 < NewYear(y as int + 1)
  {
    hide WeekOneStart, NewYear;
  }

  /** The week-year's first week starts at most 53 weeks before the day, and the Thursday of the day's week lies in
      the week-year. */
  lemma WeekYearHoldsWeek(ld: int32)
    requires -13_000_000 <= ld <= 13_000_000
    requires -32767 <= CivilFromDays(ld).y <= 32767 && FIRST_MONDAY <= ld as int
    ensures -0x8000 < WeekYear(ld) && HoldsWeek(WeekYear(ld), ld)
  {
    FirstWeekStart();
    EndNewYear();
    hide CivilFromDays, WeekOneStart, HoldsWeek, NewYear, Serial;
    var c := CivilFromDays(ld + 3);
    YearOfThirdDayOn(CivilFromDays(ld), c);
    YearBetween(c, c.y, c.y + 1);
    if c.y == 32768 {
      YearBetween(CivilFromDays(ld), 32767, 32768);
      LastDaysHoldWeek(ld);
    } else {
      var y := c.y as int16;
      assert FromDays(ld + 3).year == y;
      if ld < WeekOneStart(y) {
        EarlyDayHoldsWeek(y, ld);
      } else {
        LateDayHoldsWeek(y, ld);
      }
    }
  }

  /** The first two days of the first year belong to a week-year that `date::year` does not hold; their week number is
      computed from the wrong end of its range. */
  lemma FirstDaysWrap(ld: int32)
    requires FIRST_DAY <= ld as int < FIRST_MONDAY
    ensures WeekYear(ld) == -32768
  {
    hide WeekYear, WeekOneStart, NewYear, FromDays;
    FirstNewYear();
    NewYearStep(-32767);
    YearThreeDaysOn(ld, -32767);
    WeekYearIs(ld, -32767);
    FirstWeekStart();
    FitsAsIs();
  }

  lemma FitsAsIs()
    ensures ToInt16(-32767) == -32767 && ToInt16(-32768) == -32768
  {
  }

  lemma YearOfOkDate(ymd: YearMonthDay)
    requires ymd.Ok()
    ensures CivilFromDays(ToDays(ymd)) == ymd.AsCivil()
  {
    ToDaysIsWalk(ymd);
    CivilFromDaysIsWalk(ToDays(ymd));
  }

  lemma OkDateInRange(ymd: YearMonthDay)
    requires ymd.Ok()
    ensures var ld := ToDays(ymd);
            -32767 <= CivilFromDays(ld).y <= 32767 && FIRST_DAY <= ld as int && (WeekYearFits(ymd) <==> FIRST_MONDAY <= ld as int)
  {
    YearOfOkDate(ymd);
    hide CivilFromDays, ToDays;
    FirstDayIs();
    FirstMondayIs();
    ToDaysIsMonotone(ymd, YearMonthDay(-32767, 1, 3));
    ToDaysIsMonotone(ymd, YearMonthDay(-32767, 1, 1));
  }

  lemma FirstDayIs()
    ensures ToDays(YearMonthDay(-32767, 1, 1)) as int == FIRST_DAY
  {
  }

  lemma FirstMondayIs()
    ensures ToDays(YearMonthDay(-32767, 1, 3)) as int == FIRST_MONDAY
  {
  }

  /** The week date that section 4.1.4 of ISO 8601:2004 gives a day: the week-year is the year of the Thursday of its week, and
      the week number counts the Thursdays of that year. */
  predicate IsIsoWeekDate(w: WeekDate, ld: int) {
    var monday := ld - (if w.weekday == 0 then 6 else w.weekday as int - 1);
    var thursday := monday + 3;
    && w.weekday as int == (ld + 4) % 7
    && NewYear(w.year as int) <= thursday < NewYear(w.year as int + 1)
    && w.week == (thursday - NewYear(w.year as int)) / 7 + 1
    && 1 <= w.week <= 53
  }

  /** The printed week date is the ISO 8601 one if and only if its week-year fits `date::year`, which only the first two days of
      the first year fail. */
  lemma WeekDateIsIso8601(ymd: YearMonthDay)
    requires ymd.Ok()
    ensures IsIsoWeekDate(ToWeekDate(ymd), ToDays(ymd) as int) <==> WeekYearFits(ymd)
  {
    hide CivilFromDays, ToDays, WeekOneStart, NewYear, WeekYear, WeekdayFromDays, WeekYearFits, ToWeekDate, HoldsWeek;
    OkDateInRange(ymd);
    var ld := ToDays(ymd);
    var y := WeekYear(ld);
    WeekdayFromDaysIsResidue(ld);
    WeekDateIs(ymd);
    if FIRST_MONDAY <= ld as int {
      WeekYearHoldsWeek(ld);
      HoldsWeekIs(y, ld);
      WeekOneHoldsJanuaryFourth(y);
      WeekOfThursday(WeekOneStart(y) as int, NewYear(y as int), NewYear(y as int + 1), ld as int);
    } else {
      FirstDaysWrap(ld);
      WrappedWeekStart();
      WeeksBackwards(ld as int);
    }
  }

  lemma WeekOfThursday(start: int, newYear: int, nextNewYear: int, ld: int)
    requires (start + 4) % 7 == 1 && newYear - 3 <= start <= newYear + 3 && start <= ld < start + 371
    requires newYear <= start + (ld - start) / 7 * 7 + 3 < nextNewYear
    ensures var wd := (ld + 4) % 7;
            var thursday := ld - (if wd == 0 then 6 else wd - 1) + 3;
            newYear <= thursday < nextNewYear && Quot(ld - start, 7) == (thursday - newYear) / 7 && 0 <= Quot(ld - start, 7) <= 52
  {
    MondayOfWeek(start, ld);
    var weeks := (ld - start) / 7;
    QuotientIs(start + weeks * 7 + 3 - newYear, 7, weeks);
  }

  /** Weeks counted backwards from the end of the last year. */
  lemma WeeksBackwards(ld: int)
    requires FIRST_DAY <= ld < FIRST_MONDAY
    ensures Quot(ld - END_DAY, 7) < 0
  {
  }

  lemma WeekDateIs(ymd: YearMonthDay)
    requires ymd.Ok()
    ensures var (w, ld, y) := (ToWeekDate(ymd), ToDays(ymd), WeekYear(ToDays(ymd)));
            w == WeekDate(y, Quot((ld - WeekOneStart(y)) as int, 7) + 1, WeekdayFromDays(ld))
  {
    hide ToDays, WeekYear, WeekOneStart, WeekdayFromDays;
  }

  lemma MondayOfWeek(start: int, ld: int)
    requires (start + 4) % 7 == 1 && start <= ld
    ensures var wd := (ld + 4) % 7;
            ld - (if wd == 0 then 6 else wd - 1) == start + (ld - start) / 7 * 7
  {
    var k, r := (ld - start) / 7, (ld - start) % 7;
    ResidueIs(ld + 4, 7, (start + 4) / 7 + k + (if r == 6 then 1 else 0), if r == 6 then 0 else r + 1);
  }

  lemma DayCountsFromWeekOne(w: WeekDate)
    requires WeekdayOk(w.weekday)
    ensures DayOfWeekDate(w.year as int, w.week, w.weekday)
            == WeekOneStart(w.year) as int + 7 * (w.week - 1) + if w.weekday == 0 then 6 else w.weekday as int - 1
  {
    hide LastThursdayOfDecember;
  }

  /** The week-date path of parsing leads from the computed week date back to the date if and only if its week-year fits
      `date::year`. For the first two days of the first year the week-year wraps to the value that means "not set", and the path
      is not taken. */
  lemma WeekDateRoundTrip(ymd: YearMonthDay)
    requires ymd.Ok()
    ensures WeekdayOk(ToWeekDate(ymd).weekday)
    ensures FromWeekDate(ToWeekDate(ymd)) == if WeekYearFits(ymd) then Some(ToDays(ymd) as int) else None
    ensures WeekYearFits(ymd) ==> FromDays(FromWeekDate(ToWeekDate(ymd)).value as int32) == ymd
  {
    hide CivilFromDays, ToDays, FromDays, DayOfWeekDate, WeekOneStart, NewYear, WeekYear, WeekdayFromDays, WeekYearFits, ToWeekDate,
         HoldsWeek;
    OkDateInRange(ymd);
    FromDaysOfToDays(ymd);
    var ld := ToDays(ymd);
    var start := WeekOneStart(WeekYear(ld)) as int;
    WeekdayFromDaysIsResidue(ld);
    WeekDateIs(ymd);
    if FIRST_MONDAY <= ld as int {
      DayCountsFromWeekOne(ToWeekDate(ymd));
      WeekYearHoldsWeek(ld);
      HoldsWeekIs(WeekYear(ld), ld);
      WeekOneHoldsJanuaryFourth(WeekYear(ld));
      MondayOfWeek(start, ld as int);
      assert Quot(ld as int - start, 7) == (ld as int - start) / 7;
    } else {
      FirstDaysWrap(ld);
    }
  }
}
