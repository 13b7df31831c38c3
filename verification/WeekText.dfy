/** Week dates as text, and what the assembly of a parsed date accepts: which registers make which date, and when the week
    number of a text is that of the date it makes. */
module WeekText {
  import opened Machine
  import opened DecimalText
  import opened Calendar
  import opened WeekDates
  import opened WideInput
  import opened FromStream
  import opened StringUtilities
  import TimePoint
  import IsoText

  // ----- Which registers make which date -----

  /** Year, month and day, as far as they are set, are those of a date. */
  predicate DateAgrees(regs: Registers, ymd: YearMonthDay) {
    && (YearHeld(regs.Y) == NOT_A_YEAR || YearHeld(regs.Y) == ymd.year as int)
    && (regs.m == NOT_A_MONTH || ToUint8(regs.m) == ymd.month)
    && (regs.d == NOT_A_DAY || ToUint8(regs.d) == ymd.day)
  }

  /** The registers that are set are those of a date. */
  predicate Agrees(regs: Registers, ymd: YearMonthDay)
    requires ymd.Ok()
  {
    DateAgrees(regs, ymd) && WeekdayAgrees(regs, ymd) && WeekAgrees(regs, ymd)
  }

  /** Year, month and day are set, or week-year, week and weekday are. */
  predicate Determines(regs: Registers) {
    HasWeekDate(regs) || (YearHeld(regs.Y) != NOT_A_YEAR && regs.m != NOT_A_MONTH && regs.d != NOT_A_DAY)
  }

  lemma WeekdayOfDate(ymd: YearMonthDay)
    requires ymd.Ok()
    ensures var wd := WeekdayDifference(WeekdayFromDays(ToDays(ymd)), 0) as int;
            0 <= wd <= 6 && wd == ToWeekDate(ymd).weekday as int
  {
    hide ToDays, WeekYear, WeekOneStart;
    WeekdayFromDaysIsResidue(ToDays(ymd));
    WeekDateIs(ymd);
    hide WeekdayFromDays, ToWeekDate;
  }

  /** A week date that agrees with a date makes that date. */
  lemma AgreeingWeekMakesDate(regs: Registers, ymd: YearMonthDay)
    requires ymd.Ok() && WeekInRange(regs) && HasWeekDate(regs) && WeekdayAgrees(regs, ymd) && WeekAgrees(regs, ymd)
    ensures DateOfWeek(regs) == ymd
  {
    WeekdayOfDate(ymd);
    WeekDateRoundTrip(ymd);
    hide ToDays, FromDays, DayOfWeekDate, ToWeekDate, WeekdayDifference, WeekdayFromDays, WeekYearFits;
  }

  lemma Narrowed(ymd: YearMonthDay)
    ensures ToInt16(ymd.year as int) == ymd.year && ToUint8(ymd.month as int) == ymd.month && ToUint8(ymd.day as int) == ymd.day
  {
  }

  lemma FilledMakesDate(held: Registers, ymd: YearMonthDay)
    requires WeekInRange(held) && (HasWeekDate(held) ==> DateOfWeek(held) == ymd)
    requires if held.Y == NOT_A_YEAR then HasWeekDate(held) else held.Y == ymd.year as int
    requires if held.m == NOT_A_MONTH then HasWeekDate(held) else ToUint8(held.m) == ymd.month
    requires if held.d == NOT_A_DAY then HasWeekDate(held) else ToUint8(held.d) == ymd.day
    ensures FilledByWeek(held).Some? && DateIn(FilledByWeek(held).value) == ymd
  {
    hide DateOfWeek, ToInt16, ToUint8;
    Narrowed(ymd);
  }

  /** Registers that agree with a date and determine it make it. */
  lemma AgreeingRegistersMakeDate(regs: Registers, ymd: YearMonthDay)
    requires WeekInRange(regs) && ymd.Ok() && Agrees(regs, ymd) && Determines(regs)
    ensures Assemble(regs).Some? && Assemble(regs).value.ymd == ymd
  {
    hide ToDays, ToWeekDate, WeekdayDifference, WeekdayFromDays, DateOfWeek, TimeIn, FilledByWeek, DateIn, LastDay, YearHeld;
    var held := regs.(Y := YearHeld(regs.Y));
    if HasWeekDate(regs) {
      AgreeingWeekMakesDate(regs, ymd);
      SameDateOfWeek(regs, held);
    }
    FilledMakesDate(held, ymd);
  }

  lemma SameDateOfWeek(a: Registers, b: Registers)
    requires WeekInRange(a) && WeekInRange(b) && a.G == b.G && a.V == b.V && a.wd == b.wd
    ensures HasWeekDate(a) ==> DateOfWeek(a) == DateOfWeek(b)
  {
    hide FromDays, DayOfWeekDate;
  }

  /** A date that was assembled agrees with year, month, day and weekday, and with week-year and week number unless these made
      it. */
  lemma AssembledAgrees(regs: Registers)
    requires WeekInRange(regs) && Assemble(regs).Some? && Assemble(regs).value.ymd.Ok()
    ensures var ymd := Assemble(regs).value.ymd;
            && DateAgrees(regs, ymd) && WeekdayAgrees(regs, ymd)
            && (if HasWeekDate(regs) then ymd == DateOfWeek(regs) else WeekAgrees(regs, ymd))
  {
    hide ToDays, ToWeekDate, WeekdayDifference, WeekdayFromDays, DateOfWeek, TimeIn, LastDay;
    var held := regs.(Y := YearHeld(regs.Y));
    SameDateOfWeek(regs, held);
    if HasWeekDate(regs) {
      Narrowed(DateOfWeek(regs));
      TimePoint.SameYmd(Assemble(regs).value.ymd, DateOfWeek(regs));
    }
  }

  // ----- Week numbers are not checked -----

  /** The number of weeks of a week-year. */
  function WeeksIn(G: int): int
    requires -32767 <= G < 32767
  {
    (WeekOneStart((G + 1) as int16) as int - WeekOneStart(G as int16) as int) / 7
  }

  lemma WeeksInIs(G: int)
    requires -32767 <= G < 32767
    ensures WeekOneStart((G + 1) as int16) as int == WeekOneStart(G as int16) as int + 7 * WeeksIn(G) && 52 <= WeeksIn(G) <= 53
  {
    hide WeekOneStart, NewYear;
    WeekOneHoldsJanuaryFourth(G as int16);
    WeekOneHoldsJanuaryFourth((G + 1) as int16);
    NewYearStep(G);
    WholeWeeks(WeekOneStart(G as int16) as int, WeekOneStart((G + 1) as int16) as int);
  }

  lemma WholeWeeks(a: int, b: int)
    requires (a + 4) % 7 == 1 && (b + 4) % 7 == 1 && 359 <= b - a <= 372
    ensures b == a + 7 * ((b - a) / 7) && 52 <= (b - a) / 7 <= 53
  {
    var k := (b + 4) / 7 - (a + 4) / 7;
    assert b - a == 7 * k;
    QuotientIs(b - a, 7, k);
  }

  /** The Monday of the week that a week date names lies in the week-year if and only if the week number is one of its weeks. */
  lemma MondayLiesInYear(G: int, V: int)
    requires -32767 <= G < 32767
    ensures var monday := WeekOneStart(G as int16) as int + 7 * (V - 1);
            WeekOneStart(G as int16) as int <= monday < WeekOneStart((G + 1) as int16) as int <==> 1 <= V <= WeeksIn(G)
  {
    WeeksInIs(G);
    hide WeekOneStart, WeeksIn;
  }

  /** The Monday of a date's week lies in the week-year of the date and in no other. */
  lemma MondayOfDateLiesInYear(ymd: YearMonthDay, G: int)
    requires ymd.Ok() && WeekYearFits(ymd) && -32767 <= G < 32767
    ensures var w := ToWeekDate(ymd);
            var monday := WeekOneStart(w.year) as int + 7 * (w.week - 1);
            WeekOneStart(G as int16) as int <= monday < WeekOneStart((G + 1) as int16) as int <==> w.year as int == G
  {
    hide ToDays, WeekOneStart, NewYear, WeekYear, WeekdayFromDays, WeekYearFits, ToWeekDate, DayOfWeekDate;
    var w := ToWeekDate(ymd);
    ThursdayOfDate(ymd);
    var thursday := WeekOneStart(w.year) as int + 7 * (w.week - 1) + 3;
    WeekOneHoldsJanuaryFourth(G as int16);
    WeekOneHoldsJanuaryFourth((G + 1) as int16);
    ThursdayInYear(WeekOneStart(G as int16) as int, WeekOneStart((G + 1) as int16) as int, NewYear(G), NewYear(G + 1), thursday);
    OneYearOnly(thursday, w.year as int, G);
  }

  lemma ThursdayOfDate(ymd: YearMonthDay)
    requires ymd.Ok() && WeekYearFits(ymd)
    ensures var w := ToWeekDate(ymd);
            var thursday := WeekOneStart(w.year) as int + 7 * (w.week - 1) + 3;
            (thursday + 4) % 7 == 4 && NewYear(w.year as int) <= thursday < NewYear(w.year as int + 1)
  {
    hide ToDays, WeekOneStart, NewYear, WeekYear, WeekdayFromDays, WeekYearFits, ToWeekDate, DayOfWeekDate, IsIsoWeekDate;
    var w := ToWeekDate(ymd);
    WeekYearIsFitting(ymd);
    WeekDateIsIso8601(ymd);
    WeekDateRoundTrip(ymd);
    DayCountsFromWeekOne(w);
    WeekOneHoldsJanuaryFourth(w.year);
    ThursdayOfMonday(WeekOneStart(w.year) as int, w.week - 1);
    ThursdayOfWeekDate(w, ToDays(ymd) as int, WeekOneStart(w.year) as int + 7 * (w.week - 1));
  }

  lemma ThursdayOfWeekDate(w: WeekDate, ld: int, monday: int)
    requires IsIsoWeekDate(w, ld) && ld == monday + if w.weekday == 0 then 6 else w.weekday as int - 1
    ensures NewYear(w.year as int) <= monday + 3 < NewYear(w.year as int + 1)
  {
    hide NewYear;
  }

  lemma ThursdayOfMonday(start: int, weeks: int)
    requires (start + 4) % 7 == 1
    ensures (start + 7 * weeks + 3 + 4) % 7 == 4
  {
  }

  lemma ThursdayInYear(start: int, nextStart: int, newYear: int, nextNewYear: int, thursday: int)
    requires newYear - 3 <= start <= newYear + 3 && nextNewYear - 3 <= nextStart <= nextNewYear + 3
    requires (start + 4) % 7 == 1 && (nextStart + 4) % 7 == 1
    ensures (thursday + 4) % 7 == 4 ==> (start <= thursday - 3 < nextStart <==> newYear <= thursday < nextNewYear)
  {
  }

  lemma OneYearOnly(day: int, y: int, z: int)
    requires NewYear(y) <= day < NewYear(y + 1)
    ensures NewYear(z) <= day < NewYear(z + 1) <==> y == z
  {
    hide Serial;
    SerialIsMonotone(Civil(y + 1, 1, 1), Civil(z, 1, 1));
    SerialIsMonotone(Civil(z + 1, 1, 1), Civil(y, 1, 1));
  }

  lemma DateOfWeekIsDay(regs: Registers)
    requires WeekInRange(regs) && HasWeekDate(regs) && -32767 < regs.G < 32766
    ensures DateOfWeek(regs).Ok() && ToDays(DateOfWeek(regs)) as int == DayOfWeekDate(regs.G, regs.V, regs.wd as Weekday)
    ensures WeekYearFits(DateOfWeek(regs))
  {
    var day := DayOfWeekDate(regs.G, regs.V, regs.wd as Weekday);
    DayInRange(regs.G, regs.V, regs.wd as Weekday);
    hide DayOfWeekDate, FromDays, ToDays, CivilFromDays;
    ToDaysOfFromDays(day as int32);
    OkDateInRange(DateOfWeek(regs));
  }

  lemma DayInRange(G: int, V: int, wd: Weekday)
    requires -32767 < G < 32766 && 0 <= V < 100 && WeekdayOk(wd)
    ensures var day := DayOfWeekDate(G, V, wd);
            FIRST_MONDAY <= day <= 13_000_000 && -32767 <= CivilFromDays(day as int32).y <= 32767
  {
    hide WeekOneStart, NewYear, DayOfWeekDate, CivilFromDays, Serial;
    DayCountsFromWeekOne(WeekDate(G as int16, V, wd));
    WeekOneHoldsJanuaryFourth(G as int16);
    NewYearStep(G - 1);
    NewYearStep(G);
    NewYearStep(G + 1);
    NewYearIsMonotone(-32767, G - 1);
    NewYearIsMonotone(G + 2, 32768);
    FirstNewYear();
    EndNewYear();
    var day := DayOfWeekDate(G, V, wd);
    YearBetween(CivilFromDays(day as int32), G - 1, G + 2);
  }

  lemma NewYearIsMonotone(y: int, z: int)
    requires y <= z
    ensures NewYear(y) <= NewYear(z)
  {
    hide Serial;
    SerialIsMonotone(Civil(y, 1, 1), Civil(z, 1, 1));
  }

  /** The date that a complete week date makes has that week-year and week number if and only if the week-year has that week:
      other numbers, 00 and 53 or 54 to 99, are taken all the same and name a day of another week-year. */
  lemma WeekDateIsKeptIff(regs: Registers)
    requires WeekInRange(regs) && HasWeekDate(regs) && -32767 < regs.G < 32766
    ensures DateOfWeek(regs).Ok()
    ensures WeekAgrees(regs, DateOfWeek(regs)) <==> 1 <= regs.V <= WeeksIn(regs.G)
  {
    hide ToDays, WeekOneStart, WeekYear, WeekdayFromDays, WeekYearFits, ToWeekDate, DateOfWeek, DayOfWeekDate, WeeksIn, FromDays,
         LastDay;
    DateOfWeekIsDay(regs);
    var (ymd, wd) := (DateOfWeek(regs), regs.wd as Weekday);
    WeekDateRoundTrip(ymd);
    var w := ToWeekDate(ymd);
    DayCountsFromWeekOne(w);
    DayCountsFromWeekOne(WeekDate(regs.G as int16, regs.V, wd));
    WeekdayIsKept(regs);
    MondayOfDateLiesInYear(ymd, regs.G);
    MondayLiesInYear(regs.G, regs.V);
  }

  lemma WeekdayIsKept(regs: Registers)
    requires WeekInRange(regs) && HasWeekDate(regs) && -32767 < regs.G < 32766
    ensures DateOfWeek(regs).Ok() && ToWeekDate(DateOfWeek(regs)).weekday as int == regs.wd
  {
    hide ToDays, WeekOneStart, WeekYear, WeekdayFromDays, ToWeekDate, DateOfWeek, DayOfWeekDate, FromDays, LastDay, WeekYearFits;
    DateOfWeekIsDay(regs);
    var ymd := DateOfWeek(regs);
    WeekDateIs(ymd);
    WeekdayFromDaysIsResidue(ToDays(ymd));
    DayCountsFromWeekOne(WeekDate(regs.G as int16, regs.V, regs.wd as Weekday));
    WeekOneHoldsJanuaryFourth(regs.G as int16);
    DaysOfWeekFromMonday(WeekOneStart(regs.G as int16) as int, regs.V, regs.wd);
  }

  lemma DaysOfWeekFromMonday(start: int, V: int, wd: int)
    requires (start + 4) % 7 == 1 && 0 <= wd <= 6
    ensures (start + 7 * (V - 1) + (if wd == 0 then 6 else wd - 1) + 4) % 7 == wd
  {
  }

  /** Every week-year of four digits, week number of two and weekday make some date. */
  lemma AnyWeekMakesDate(regs: Registers)
    requires WeekInRange(regs) && HasWeekDate(regs) && -9999 <= regs.G <= 9999
    requires YearHeld(regs.Y) == NOT_A_YEAR && regs.m == NOT_A_MONTH && regs.d == NOT_A_DAY
    ensures Assemble(regs).Some? && Assemble(regs).value.ymd == DateOfWeek(regs) && DateOfWeek(regs).Ok()
  {
    hide ToDays, ToWeekDate, WeekdayDifference, WeekdayFromDays, DateOfWeek, TimeIn, FilledByWeek, DateIn, LastDay, YearHeld,
         FromDays, DayOfWeekDate, WeekYearFits;
    DateOfWeekIsDay(regs);
    WeekdayIsKept(regs);
    WeekdayOfDate(DateOfWeek(regs));
    var held := regs.(Y := YearHeld(regs.Y));
    SameDateOfWeek(regs, held);
    FilledMakesDate(held, DateOfWeek(regs));
  }

  /** The exit at `broken` is taken exactly when a complete week date makes another date than the year, month or day that is set,
      or, without one, when the date that is set has another weekday, week-year or week number. */
  lemma BrokenIff(regs: Registers)
    requires WeekInRange(regs) && (HasWeekDate(regs) ==> -32767 < regs.G < 32766)
    ensures Assemble(regs) == None <==>
            var date := DateIn(regs.(Y := YearHeld(regs.Y)));
            if HasWeekDate(regs) then !DateAgrees(regs, DateOfWeek(regs))
            else date.Ok() && !(WeekdayAgrees(regs, date) && WeekAgrees(regs, date))
  {
    if HasWeekDate(regs) {
      hide Assemble, WeekdayAgrees, WeekAgrees, DateIn, DateAgrees, DateOfWeek, WeekInRange;
      BrokenWithWeek(regs);
    } else {
      hide ToDays, ToWeekDate, WeekdayDifference, WeekdayFromDays, TimeIn, LastDay, YearHeld, WeekAgrees, WeekdayAgrees;
      SameWithoutWeek(regs);
    }
  }

  lemma SameWithoutWeek(regs: Registers)
    requires WeekInRange(regs)
    ensures var held := regs.(Y := YearHeld(regs.Y));
            forall ymd: YearMonthDay :: ymd.Ok() ==>
              (WeekdayAgrees(held, ymd) <==> WeekdayAgrees(regs, ymd)) && (WeekAgrees(held, ymd) <==> WeekAgrees(regs, ymd))
  {
    hide ToDays, ToWeekDate, WeekdayDifference, WeekdayFromDays, LastDay, YearHeld;
  }

  lemma BrokenWithWeek(regs: Registers)
    requires WeekInRange(regs) && HasWeekDate(regs) && -32767 < regs.G < 32766
    ensures Assemble(regs) == None <==> !DateAgrees(regs, DateOfWeek(regs))
  {
    hide ToDays, ToWeekDate, WeekdayDifference, WeekdayFromDays, DateOfWeek, TimeIn, LastDay, FromDays, DayOfWeekDate,
         WeekYearFits, WeekYear, WeekOneStart, YearHeld, ToInt16, ToUint8, DateIn;
    var held := regs.(Y := YearHeld(regs.Y));
    SameDateOfWeek(regs, held);
    DateOfWeekIsDay(regs);
    WeekdayIsKept(regs);
    WeekdayOfDate(DateOfWeek(regs));
    YearHeldIs(regs.Y);
    if DateAgrees(regs, DateOfWeek(regs)) { FilledMakesDate(held, DateOfWeek(regs)); }
  }

  lemma YearHeldIs(Y: int)
    ensures YearHeld(Y) != NOT_A_YEAR ==> ToInt16(YearHeld(Y)) as int == YearHeld(Y)
  {
  }

  // ----- Printing and reading back -----

  const WEEK_FORMAT := "%G-W%V-%u"

  /** `operator<<` for `year`: at least four digits after a sign. */
  function YearText(y: int16): string {
    YearSign(y) + YearDigits(y) + if y == -0x8000 then " is not a valid year" else ""
  }

  function YearSign(y: int16): string { if y < 0 then "-" else "" }

  function YearDigits(y: int16): string {
    var n := if y < 0 then -(y as int) else y as int;
    if n < 10000 then Padded(n, 4) else NatText(n)
  }

  function WeekNumberText(week: int): string { (if week < 10 then "0" else "") + IntText(week) }

  function WeekdayDigit(wd: Weekday): int { if wd == 0 then 7 else wd as int }

  function TextOfWeekDate(ymd: YearMonthDay): string
    requires ymd.Ok()
  {
    var w := ToWeekDate(ymd);
    YearText(w.year) + "-W" + WeekNumberText(w.week) + "-" + IntText(WeekdayDigit(w.weekday))
  }

  /** `to_stream` of a date under that format. */
  method PrintWeekDate(ymd: YearMonthDay) returns (os: string)
    requires ymd.Ok()
    ensures os == TextOfWeekDate(ymd)
  {
    hide YearText, IntText, ToDays, WeekOneStart, FromDays, LastThursdayOfDecember, WeekdayFromDays, WeekYear, ToWeekDate,
         ToInt16;
    var ld := ToDays(ymd);
    var y := FromDays(ld + 3).year;
    WeekDateIs(ymd);
    WeekYearIs(ld, y);
    var st := LastThursdayOfDecember(ToInt16(y as int - 1)) + WeekdayDifference(MONDAY, THURSDAY);
    WeekStartIs(y);
    if ld < st {
      y := ToInt16(y as int - 1);
      st := LastThursdayOfDecember(ToInt16(y as int - 1)) + WeekdayDifference(MONDAY, THURSDAY);
      WeekStartIs(y);
    }
    os := YearText(y);
    os := os + "-W";
    var wn := Quot((ld - st) as int, 7) + 1;
    if wn < 10 { os := os + "0"; }
    os := os + IntText(wn);
    os := os + "-";
    var wd := WeekdayFromDays(ld);
    os := os + IntText(WeekdayDigit(wd));
  }

  lemma WeekStartIs(y: int16)
    ensures WeekOneStart(y) == LastThursdayOfDecember(ToInt16(y as int - 1)) + WeekdayDifference(MONDAY, THURSDAY)
  {
    hide LastThursdayOfDecember, WeekdayDifference;
  }

  lemma WeekFormatIsSupported()
    ensures Supported(WEEK_FORMAT, 0, false)
  {
    assert WEEK_FORMAT == ['%', 'G', '-', 'W', '%', 'V', '-', '%', 'u'];
    assert Supported(WEEK_FORMAT, 9, false);
    assert Supported(WEEK_FORMAT, 7, false) by { assert Supported(WEEK_FORMAT, 8, true); }
    assert Supported(WEEK_FORMAT, 4, false) by {
      assert Supported(WEEK_FORMAT, 6, false);
      assert Supported(WEEK_FORMAT, 5, true);
    }
    assert Supported(WEEK_FORMAT, 2, false) by { assert Supported(WEEK_FORMAT, 3, false); }
    assert Supported(WEEK_FORMAT, 1, true);
  }

  /** `from_stream` of a date under that format. */
  function ParseWeekDate(text: string): Option<YearMonthDay> {
    WeekFormatIsSupported();
    ParseDate(text, WEEK_FORMAT)
  }

  /** A parse is decided by the state after the format. */
  lemma ParseWeekDateIs(text: string)
    ensures Supported(WEEK_FORMAT, 0, false) && WeekInRange(Interpret(text, WEEK_FORMAT, 0, false, START).regs)
    ensures var st := Interpret(text, WEEK_FORMAT, 0, false, START);
            && (st.at.fail ==> ParseWeekDate(text) == None)
            && (!st.at.fail ==>
                  ParseWeekDate(text) == match Assemble(st.regs)
                                         case None => None
                                         case Some(f) => if f.ymd.Ok() then Some(f.ymd) else None)
  {
    WeekFormatIsSupported();
    RangeOfUnset();
    hide Interpret, Supported, Assemble, WeekInRange;
    InterpretKeepsRange(text, WEEK_FORMAT, 0, false, START);
  }

  /** Interpreting the format is reading a week-year, "-W", a week number, '-' and a weekday, stopping at the first failure. */
  lemma InterpretWeek(text: string)
    ensures var r := Interpret(text, WEEK_FORMAT, 0, false, START);
            var y := WeekYearStep(text, START);
            if y.at.fail then r == y else
            var k1 := Literal(text, y.at, '-');
            if k1.fail then r.at.fail else
            var k2 := Literal(text, k1, 'W');
            if k2.fail then r.at.fail else
            var w := WeekStep(text, State(k2, y.regs));
            if w.at.fail then r.at.fail else
            var k3 := Literal(text, w.at, '-');
            if k3.fail then r.at.fail else r == WeekdayStep(text, State(k3, w.regs))
  {
    hide WeekYearStep, WeekStep, WeekdayStep, Literal;
    assert WEEK_FORMAT == ['%', 'G', '-', 'W', '%', 'V', '-', '%', 'u'];
    var y := WeekYearStep(text, START);
    assert Interpret(text, WEEK_FORMAT, 0, false, START) == Interpret(text, WEEK_FORMAT, 1, true, START);
    assert Interpret(text, WEEK_FORMAT, 1, true, START) == Interpret(text, WEEK_FORMAT, 2, false, y);
    if !y.at.fail {
      var s1 := State(Literal(text, y.at, '-'), y.regs);
      assert Interpret(text, WEEK_FORMAT, 2, false, y) == Interpret(text, WEEK_FORMAT, 3, false, s1);
      if !s1.at.fail {
        var s2 := State(Literal(text, s1.at, 'W'), y.regs);
        assert Interpret(text, WEEK_FORMAT, 3, false, s1) == Interpret(text, WEEK_FORMAT, 4, false, s2);
        if !s2.at.fail { InterpretWeekEnd(text, s2); }
      }
    }
  }

  lemma InterpretWeekEnd(text: string, s2: State)
    requires s2.at.On(text) && !s2.at.fail
    ensures var r := Interpret(text, WEEK_FORMAT, 4, false, s2);
            var w := WeekStep(text, s2);
            if w.at.fail then r.at.fail else
            var k3 := Literal(text, w.at, '-');
            if k3.fail then r.at.fail else r == WeekdayStep(text, State(k3, w.regs))
  {
    hide WeekStep, WeekdayStep, Literal;
    assert WEEK_FORMAT == ['%', 'G', '-', 'W', '%', 'V', '-', '%', 'u'];
    var w := WeekStep(text, s2);
    assert Interpret(text, WEEK_FORMAT, 4, false, s2) == Interpret(text, WEEK_FORMAT, 5, true, s2);
    assert Interpret(text, WEEK_FORMAT, 5, true, s2) == Interpret(text, WEEK_FORMAT, 6, false, w);
    if !w.at.fail {
      var s3 := State(Literal(text, w.at, '-'), w.regs);
      assert Interpret(text, WEEK_FORMAT, 6, false, w) == Interpret(text, WEEK_FORMAT, 7, false, s3);
      if !s3.at.fail {
        assert Interpret(text, WEEK_FORMAT, 7, false, s3) == Interpret(text, WEEK_FORMAT, 8, true, s3);
      }
    }
  }

  lemma YearThere(text: string, p: nat, digits: string, rest: string)
    requires IsoText.Left(text, p, digits + ("-" + rest)) && IsoText.IsNumber(digits, 4)
    ensures var q := p + |digits|;
            && q < |text| && !DigitAt(text, q) && IsoText.Left(text, q, "-" + rest)
            && IsoText.NumberAt(text, p, q, 4) && IsoText.NumberIn(text, p, q) == Value(digits)
  {
    hide Value, Literal, IsoText.Left, IsoText.NumberAt, IsoText.NumberIn, IsoText.IsNumber;
    IsoText.NumberThere(text, p, digits, "-" + rest, 4);
    IsoText.ReadsLiteral(text, p + |digits|, '-', rest);
  }

  lemma SignIs(sign: string)
    requires sign == "" || sign == "-"
    ensures IsoText.IsSign(sign) && (sign != "" ==> |sign| == 1 && sign[0] == '-')
  {
  }

  lemma SignedReadsYear(text: string, sign: string, digits: string, rest: string)
    requires text == sign + (digits + ("-" + rest)) && (sign == "" || sign == "-") && AllDigits(digits) && 1 <= |digits| <= 4
    ensures var (r, p) := (Signed(text, Cursor(0, false, false), 1, 4), |sign| + |digits|);
            && r == Reading(Cursor(p, false, false), if sign == "-" then 0 - Value(digits) else Value(digits))
            && IsoText.Left(text, p, "-" + rest)
  {
    hide Signed, Value, AllDigits, DigitAt, Narrow, IsoText.Left, IsoText.NumberAt, IsoText.NumberIn, IsoText.IsSign;
    SignIs(sign);
    IsoText.SignThere(text, sign, digits + ("-" + rest));
    YearThere(text, |sign|, digits, rest);
    IsoText.SignedAt(text, |sign|, |sign| + |digits|);
  }

  lemma WeekYearStepIs(text: string, p: nat, y: int)
    requires Signed(text, Cursor(0, false, false), 1, 4) == Reading(Cursor(p, false, false), y)
    ensures WeekYearStep(text, START) == State(Cursor(p, false, false), UNSET.(G := y))
  {
    hide Signed;
  }

  lemma ReadsWeek(text: string, p: nat, regs: Registers, digits: string, rest: string)
    requires IsoText.Left(text, p, digits + ("-" + rest)) && AllDigits(digits) && 1 <= |digits| <= 2
    requires regs.V == NOT_A_WEEK_NUM
    ensures WeekStep(text, State(Cursor(p, false, false), regs))
            == State(Cursor(p + |digits|, false, false), regs.(V := Value(digits)))
    ensures IsoText.Left(text, p + |digits|, "-" + rest)
  {
    hide Unsigned, Value, Digits, Literal, IsoText.Left, IsoText.NumberAt, IsoText.NumberIn;
    IsoText.NumberThere(text, p, digits, "-" + rest, 2);
    IsoText.ReadsLiteral(text, p + |digits|, '-', rest);
    IsoText.UnsignedAt(text, p, p + |digits|, 2);
  }

  lemma ReadsWeekday(text: string, p: nat, regs: Registers, u: int)
    requires IsoText.Left(text, p, IntText(u)) && 1 <= u <= 7 && regs.wd == NOT_A_WEEKDAY
    ensures WeekdayStep(text, State(Cursor(p, false, false), regs))
            == State(Cursor(p + 1, false, false), regs.(wd := if u == 7 then 0 else u))
  {
    var digits := IntText(u);
    LengthOfNatText(u);
    ValueOfNatText(u);
    hide NatText, Value, DigitRun, Digits, AllDigits;
    assert digits + "" == digits;
    IsoText.PieceIsDigitRun(text, p, digits, "");
    DigitRunIs(text, p, 1, 1);
  }

  lemma YearDigitsAre(y: int16)
    ensures AllDigits(YearDigits(y)) && YearDigits(y) != ""
    ensures 4 <= |YearDigits(y)| && (4 < |YearDigits(y)| ==> YearDigits(y)[0] != '0')
    ensures |YearDigits(y)| <= 4 <==> -9999 <= y <= 9999
    ensures Value(YearDigits(y)) == if y < 0 then -(y as int) else y as int
  {
    var n := if y < 0 then -(y as int) else y as int;
    hide NatText, Padded, Value, AllDigits;
    ValueOfNatText(n);
    FourDigits(n);
    SmallPowers();
    NoLeadingZero(n);
    if n < 10000 { ValueOfPadded(n, 4); }
  }

  /** The printed week date: after its sign a year of at least four digits, with more only as needed, a weekday of one digit, and
      a week number of two wherever the week-year fits. */
  lemma WeekTextShape(ymd: YearMonthDay)
    requires ymd.Ok()
    ensures exists year, week, day: string :: IsWeekText(ymd, year, week, day)
  {
    hide ToDays, ToWeekDate, WeekYearFits, NewYear, NatText, Value, AllDigits, YearDigits, WeekdayDifference, WeekdayFromDays,
         WeekNumberText, TwoDigits;
    var w := ToWeekDate(ymd);
    YearDigitsAre(w.year);
    WeekDateIsIso8601(ymd);
    if WeekYearFits(ymd) { WeekNumberIsTwoDigits(w.week); }
    LengthOfNatText(WeekdayDigit(w.weekday));
    ValueOfNatText(WeekdayDigit(w.weekday));
    WeekDateIs(ymd);
    WeekdayFromDaysIsResidue(ToDays(ymd));
    assert IsWeekText(ymd, YearDigits(w.year), WeekNumberText(w.week), NatText(WeekdayDigit(w.weekday)));
  }

  ghost predicate IsWeekText(ymd: YearMonthDay, year: string, week: string, day: string)
    requires ymd.Ok()
  {
    var w := ToWeekDate(ymd);
    && AllDigits(year) && 4 <= |year| && (4 < |year| ==> year[0] != '0')
    && Value(year) == (if w.year < 0 then -(w.year as int) else w.year as int)
    && (WeekYearFits(ymd) ==> AllDigits(week) && |week| == 2 && Value(week) == w.week)
    && AllDigits(day) && |day| == 1 && Value(day) == (if w.weekday == 0 then 7 else w.weekday as int)
    && TextOfWeekDate(ymd) == (if w.year < 0 then "-" else "") + year
                              + (if w.year == -0x8000 then " is not a valid year" else "") + "-W" + week + "-" + day
  }

  lemma WeekNumberIsTwoDigits(week: int)
    requires 1 <= week <= 53
    ensures WeekNumberText(week) == TwoDigits(week)
    ensures |TwoDigits(week)| == 2 && AllDigits(TwoDigits(week)) && Value(TwoDigits(week)) == week
  {
    TwoDigitsShape(week);
    hide NatText, Value, AllDigits;
  }

  lemma NestWeek(sign: string, y: string, w: string, u: string)
    ensures sign + y + "" + "-W" + w + "-" + u == sign + (y + ("-" + ("W" + (w + ("-" + u)))))
  {
    assert "-W" == "-" + "W";
    var a := sign + y;
    assert a + "" == a && a + "-W" + w + "-" + u == a + ("-W" + (w + ("-" + u)));
  }

  /** In week-years of at most four digits the printed week date reads back as the date. */
  lemma ShortWeekDateParses(ymd: YearMonthDay)
    requires ymd.Ok() && -9999 <= ToWeekDate(ymd).year <= 9999
    ensures ParseWeekDate(TextOfWeekDate(ymd)) == Some(ymd)
  {
    hide ToDays, ToWeekDate, WeekYearFits, NewYear, IntText, NatText, Value, AllDigits, TwoDigits, WeekYearStep, WeekStep, WeekdayStep, Signed,
         Literal, Interpret, Assemble, YearDigits, WeekNumberText, WeekdayDifference, WeekdayFromDays, LastDay, ParseWeekDate;
    var w := ToWeekDate(ymd);
    WeekYearIsFitting(ymd);
    WeekDateIsIso8601(ymd);
    WeekdayOfDate(ymd);
    var (sign, y, v, u) := (YearSign(w.year), YearDigits(w.year), TwoDigits(w.week), WeekdayDigit(w.weekday));
    YearDigitsAre(w.year);
    WeekNumberIsTwoDigits(w.week);
    var text := TextOfWeekDate(ymd);
    NestWeek(sign, y, v, IntText(u));
    var r3 := v + ("-" + IntText(u));
    SignedReadsYear(text, sign, y, "W" + r3);
    var p := |sign| + |y|;
    WeekYearStepIs(text, p, w.year as int);
    var regs := UNSET.(G := w.year as int);
    IsoText.ReadsLiteral(text, p, '-', "W" + r3);
    IsoText.ReadsLiteral(text, p + 1, 'W', r3);
    ReadsWeek(text, p + 2, regs, v, IntText(u));
    IsoText.ReadsLiteral(text, p + 4, '-', IntText(u));
    ReadsWeekday(text, p + 5, regs.(V := w.week), u);
    InterpretWeek(text);
    var last := UNSET.(G := w.year as int, V := w.week, wd := w.weekday as int);
    ParseWeekDateIs(text);
    AgreeingRegistersMakeDate(last, ymd);
  }

  lemma WeekYearIsFitting(ymd: YearMonthDay)
    requires ymd.Ok()
    ensures WeekYearFits(ymd) <==> ToWeekDate(ymd).year != -0x8000
  {
    hide ToDays, ToWeekDate, WeekYearFits, DayOfWeekDate, CivilFromDays, WeekYear, WeekOneStart, WeekdayFromDays;
    OkDateInRange(ymd);
    WeekDateIs(ymd);
    if FIRST_MONDAY <= ToDays(ymd) as int {
      WeekYearHoldsWeek(ToDays(ymd));
    } else {
      FirstDaysWrap(ToDays(ymd));
    }
  }

  lemma LongWeekYearFails(text: string, sign: string, digits: string, rest: string)
    requires text == sign + (digits + rest) && (sign == "" || sign == "-") && AllDigits(digits) && 5 <= |digits|
    ensures Interpret(text, WEEK_FORMAT, 0, false, START).at.fail
  {
    hide Value, AllDigits, Unsigned, Literal, Interpret;
    assert text[0..] == text && IsoText.Left(text, 0, sign + (digits + rest));
    IsoText.LeftAfter(text, 0, sign, digits + rest);
    IsoText.FourthDigitIsNotLast(text, |sign|, digits, rest);
    if sign == "-" { assert text[0 + 0] == '-' && Narrow('-') == '-'; }
    InterpretWeek(text);
  }

  /** The printed week date of a date reads back as that date if and only if its week-year has at most four digits; otherwise it
      does not parse. */
  lemma WeekTextRoundTripIff(ymd: YearMonthDay)
    requires ymd.Ok()
    ensures ParseWeekDate(TextOfWeekDate(ymd)) == if -9999 <= ToWeekDate(ymd).year <= 9999 then Some(ymd) else None
  {
    hide ToDays, ToWeekDate, IntText, Interpret, Assemble, YearDigits, WeekNumberText, LastDay, ParseWeekDate, Supported;
    var w := ToWeekDate(ymd);
    if -9999 <= w.year <= 9999 {
      ShortWeekDateParses(ymd);
    } else {
      YearDigitsAre(w.year);
      var note := if w.year == -0x8000 then " is not a valid year" else "";
      var rest := note + "-W" + WeekNumberText(w.week) + "-" + IntText(WeekdayDigit(w.weekday));
      NestNote(YearSign(w.year), YearDigits(w.year), note, WeekNumberText(w.week), IntText(WeekdayDigit(w.weekday)));
      LongWeekYearFails(TextOfWeekDate(ymd), YearSign(w.year), YearDigits(w.year), rest);
      ParseWeekDateIs(TextOfWeekDate(ymd));
    }
  }

  lemma NestNote(sign: string, y: string, note: string, w: string, u: string)
    ensures sign + y + note + "-W" + w + "-" + u == sign + (y + (note + "-W" + w + "-" + u))
  {
    var a := sign + y;
    assert a + note + "-W" + w + "-" + u == a + (note + "-W" + w + "-" + u);
  }
}
