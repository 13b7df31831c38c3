/** The proleptic Gregorian calendar of `date.h`: closed-form conversions between civil dates and day
    numbers, and the day-by-day calendar they are measured against. */
module Calendar {
  import opened Machine

  // ----- The naive calendar: month lengths and "the next day" -----

  predicate IsLeap(y: int) {
    y % 4 == 0 && (y % 100 != 0 || y % 400 == 0)
  }

  function LastDay(y: int, m: int): int
    requires 1 <= m <= 12
  {
    if m == 2 && IsLeap(y) then 29
    else [31, 28, 31, 30, 31, 30, 31, 31, 30, 31, 30, 31][m - 1]
  }

  /** A date with an unbounded year. */
  datatype Civil = Civil(y: int, m: int, d: int) {
    predicate Valid() {
      1 <= m <= 12 && 1 <= d <= LastDay(y, m)
    }

    predicate Less(that: Civil) {
      y < that.y || (y == that.y && (m < that.m || (m == that.m && d < that.d)))
    }

    function Next(): (n: Civil)
      requires Valid()
      ensures n.Valid()
    {
      if d < LastDay(y, m) then Civil(y, m, d + 1)
      else if m < 12 then Civil(y, m + 1, 1)
      else Civil(y + 1, 1, 1)
    }

    function Previous(): (p: Civil)
      requires Valid()
      ensures p.Valid() && p.Next() == this
    {
      if 1 < d then Civil(y, m, d - 1)
      else if 1 < m then Civil(y, m - 1, LastDay(y, m - 1))
      else Civil(y - 1, 12, 31)
    }
  }

  const EPOCH := Civil(1970, 1, 1)

  /** The date reached from 1970-01-01 by walking n days, one day at a time. */
  function Walk(n: int): (c: Civil)
    ensures c.Valid()
    decreases if n < 0 then -n else n
  {
    if n == 0 then EPOCH
    else if 0 < n then Walk(n - 1).Next()
    else Walk(n + 1).Previous()
  }

  // ----- The library's dates and closed forms -----

  /** `year_month_day`: a 16-bit year and two unsigned bytes, not necessarily a date that exists. */
  datatype YearMonthDay = YearMonthDay(year: int16, month: uint8, day: uint8) {
    predicate Ok() {
      && year != -0x8000
      && 1 <= month <= 12
      && 1 <= day as int <= LastDay(year as int, month as int)
    }

    function AsCivil(): Civil {
      Civil(year as int, month as int, day as int)
    }

    /** `operator<` */
    predicate Before(that: YearMonthDay) {
      if year < that.year then true
      else if that.year < year then false
      else if month < that.month then true
      else if that.month < month then false
      else day < that.day
    }
  }

  lemma YearOfEraInRange(y: int)
    requires -40000 <= y <= 40000
    ensures var era := Quot(if 0 <= y then y else y - 399, 400); 0 <= y - era * 400 <= 399 && -100 <= era <= 100
  {
  }

  lemma DayOfYearInRange(monthFromMarch: int)
    requires 0 <= monthFromMarch <= 11
    ensures 0 <= (153 * monthFromMarch + 2) / 5 <= 337
  {
  }

  /** `year_month_day::to_days`. The newtypes make the verifier check that no signed expression overflows and
      no unsigned one underflows. */
  function ToDays(ymd: YearMonthDay): (days: int32)
    requires 1 <= ymd.month <= 12 && 1 <= ymd.day
    ensures -13_000_000 <= days <= 13_000_000
  {
    var y: int32 := ymd.year as int32 - (if ymd.month <= 2 then 1 else 0);
    YearOfEraInRange(y as int);
    DayOfYearInRange(if 2 < ymd.month then ymd.month as int - 3 else ymd.month as int + 9);
    var m: uint32 := ymd.month as uint32;
    var d: uint32 := ymd.day as uint32;
    var era: int32 := Quot(if 0 <= y then y as int else (y - 399) as int, 400) as int32;
    var yoe: uint32 := (y - era * 400) as uint32;
    var doy: uint32 := (153 * (if 2 < m then m - 3 else m + 9) + 2) / 5 + d - 1;
    var doe: uint32 := yoe * 365 + yoe / 4 - yoe / 100 + doy;
    era * 146097 + doe as int32 - 719468
  }

  const MAX_DAYS: int32 := 0x7FFF_FFFF - 719468

  /** The fields `year_month_day::from_days` computes, before the year is narrowed to 16 bits. */
  function CivilFromDays(days: int32): (c: Civil)
    requires days <= MAX_DAYS
    ensures c.Valid() && Serial(c) == days as int
  {
    var z: int32 := days + 719468;
    var era: int32 := Quot(if 0 <= z then z as int else (z - 146096) as int, 146097) as int32;
    var doe: uint32 := (z - era * 146097) as uint32;
    DateOfEra(era, doe)
  }

  /** `from_days` continued: the date a given day of a given era falls on. */
  function DateOfEra(era: int32, doe: uint32): (c: Civil)
    requires -20000 <= era <= 20000 && doe <= 146096
    ensures c.Valid() && Serial(c) == era as int * 146097 + doe as int - 719468
  {
    DayOfEraSplits(doe as int);
    var yoe: uint32 := (doe - doe / 1460 + doe / 36524 - doe / 146096) / 365;
    assert yoe as int == YearOfEra(doe as int);
    EraStart(era as int, yoe as int);
    EraLeap(era as int, yoe as int + 1);
    var doy: uint32 := doe - (365 * yoe + yoe / 4 - yoe / 100);
    DateOfMarchYear(yoe as int32 + era * 400, doy)
  }

  /** `from_days` concluded: the date a given day of a year that starts in March falls on. */
  function DateOfMarchYear(y: int32, doy: uint32): (c: Civil)
    requires -0x7FFF_FFFF <= y < 0x7FFF_FFFF
    requires doy <= 365 && (doy == 365 ==> IsLeap(y as int + 1))
    ensures c.Valid() && Serial(c) == MarchYearStart(y as int) + doy as int - 719468
  {
    MonthOfYear(y as int, doy as int);
    var mp: uint32 := (5 * doy + 2) / 153;
    var d: uint32 := doy - (153 * mp + 2) / 5 + 1;
    var m: uint32 := if mp < 10 then mp + 3 else mp - 9;
    Civil((y + if m <= 2 then 1 else 0) as int, m as int, d as int)
  }

  /** `year_month_day::from_days` */
  function FromDays(days: int32): (ymd: YearMonthDay)
    requires days <= MAX_DAYS
  {
    var c := CivilFromDays(days);
    YearMonthDay(ToInt16(c.y), ToUint8(c.m), ToUint8(c.d))
  }

  // ----- Day numbers over unbounded years -----

  /** Days before 1 March of year y, counted from 1 March of year 0. */
  function MarchYearStart(y: int): int {
    365 * y + y / 4 - y / 100 + y / 400
  }

  function MarchYear(c: Civil): int {
    if c.m <= 2 then c.y - 1 else c.y
  }

  /** The day of the year that starts in March, from 0. */
  function MarchDay(c: Civil): int {
    (153 * (if 2 < c.m then c.m - 3 else c.m + 9) + 2) / 5 + c.d - 1
  }

  /** The day number of a date, over unbounded integers. */
  function Serial(c: Civil): int {
    MarchYearStart(MarchYear(c)) + MarchDay(c) - 719468
  }

  function YearOfEra(doe: int): int {
    (doe - doe / 1460 + doe / 36524 - doe / 146096) / 365
  }

  /** An era is 400 years: 4 centuries c, of 25 four-year cycles b, of 4 years a. */
  lemma YearOfEraOfParts(c: int, b: int, a: int, x: int)
    requires 0 <= c <= 3 && 0 <= b <= 24 && 0 <= a <= 3
    requires 0 <= x <= 365
    requires x == 365 ==> a == 3 && (b == 24 ==> c == 3)
    ensures YearOfEra(36524 * c + 1461 * b + 365 * a + x) == 100 * c + 4 * b + a
  {
    var doe, n := 36524 * c + 1461 * b + 365 * a + x, 100 * c + 4 * b + a;
    var carry := if 1460 <= 24 * c + b + 365 * a + x then 1 else 0;
    var last := if doe == 146096 then 1 else 0;
    QuotientIs(doe, 1460, 25 * c + b + carry);
    QuotientIs(doe, 36524, c + last);
    QuotientIs(doe, 146096, last);
    QuotientIs(doe - (25 * c + b + carry) + (c + last) - last, 365, n);
  }

  lemma DaysBeforeYearOfEra(c: int, b: int, a: int)
    requires 0 <= c <= 3 && 0 <= b <= 24 && 0 <= a <= 3
    ensures var n := 100 * c + 4 * b + a; 365 * n + n / 4 - n / 100 == 36524 * c + 1461 * b + 365 * a
  {
    var n := 100 * c + 4 * b + a;
    QuotientIs(n, 4, 25 * c + b);
    QuotientIs(n, 100, c);
  }

  /** The closed form finds the year of the era a day falls in; day 365 exists only in a leap year. */
  lemma DayOfEraSplits(doe: int)
    requires 0 <= doe <= 146096
    ensures var n := YearOfEra(doe); var x := doe - (365 * n + n / 4 - n / 100);
            0 <= n <= 399 && 0 <= x <= 365 && (x == 365 ==> IsLeap(n + 1))
  {
    var c := if doe / 36524 == 4 then 3 else doe / 36524;
    var inCentury := doe - 36524 * c;
    var b := inCentury / 1461;
    var inCycle := inCentury - 1461 * b;
    var a := if inCycle / 365 == 4 then 3 else inCycle / 365;
    YearOfEraOfParts(c, b, a, inCycle - 365 * a);
    DaysBeforeYearOfEra(c, b, a);
    if inCycle - 365 * a == 365 {
      var n := 100 * c + 4 * b + a;
      assert (n + 1) / 4 * 4 == n + 1;
      if b == 24 { assert n + 1 == 400; } else { QuotientIs(n + 1, 100, c); }
    }
  }

  lemma EraStart(era: int, yoe: int)
    requires 0 <= yoe <= 399
    ensures MarchYearStart(yoe + era * 400) == era * 146097 + 365 * yoe + yoe / 4 - yoe / 100
  {
    var y := yoe + era * 400;
    QuotientIs(y, 4, 100 * era + yoe / 4);
    QuotientIs(y, 100, 4 * era + yoe / 100);
    QuotientIs(y, 400, era);
  }

  /** Leap years repeat every 400 years. */
  lemma EraLeap(era: int, n: int)
    ensures IsLeap(n + era * 400) <==> IsLeap(n)
  {
    var y := n + era * 400;
    ResidueIs(y, 4, 100 * era + n / 4, n % 4);
    ResidueIs(y, 100, 4 * era + n / 100, n % 100);
    ResidueIs(y, 400, era + n / 400, n % 400);
  }

  lemma MonthOfYear(y: int, doy: int)
    requires 0 <= doy <= 365 && (doy == 365 ==> IsLeap(y + 1))
    ensures var mp := (5 * doy + 2) / 153;
            var d := doy - (153 * mp + 2) / 5 + 1;
            var m := if mp < 10 then mp + 3 else mp - 9;
            var c := Civil(y + (if m <= 2 then 1 else 0), m, d);
            c.Valid() && MarchYear(c) == y && MarchDay(c) == doy
  {
  }

  // ----- The closed forms agree with the naive calendar -----

  lemma ToDaysIsSerial(ymd: YearMonthDay)
    requires 1 <= ymd.month <= 12 && 1 <= ymd.day
    ensures ToDays(ymd) as int == Serial(ymd.AsCivil())
  {
    var y := MarchYear(ymd.AsCivil());
    var era := Quot(if 0 <= y then y else y - 399, 400);
    EraStart(era, y - era * 400);
  }

  /** A quotient grows by one exactly when the divisor divides the new dividend. */
  lemma QuotientStep(y: int, b: int)
    requires 1 < b
    ensures (y + 1) / b == y / b + if (y + 1) % b == 0 then 1 else 0
  {
    var q, r := y / b, y % b;
    assert y + 1 == b * q + (r + 1);
    if r + 1 < b {
      QuotientIs(y + 1, b, q);
    } else {
      QuotientIs(y + 1, b, q + 1);
    }
  }

  lemma MarchYearLength(y: int)
    ensures MarchYearStart(y + 1) - MarchYearStart(y) == if IsLeap(y + 1) then 366 else 365
  {
    QuotientStep(y, 4);
    QuotientStep(y, 100);
    QuotientStep(y, 400);
    assert (y + 1) % 400 == 0 ==> (y + 1) % 100 == 0;
    assert (y + 1) % 100 == 0 ==> (y + 1) % 4 == 0;
  }

  /** Stepping over the end of a month moves on by one day of the year that starts in March. */
  lemma MarchDayOfNext(c: Civil)
    requires c.Valid() && !(c.m == 2 && c.d == LastDay(c.y, 2))
    ensures MarchYear(c.Next()) == MarchYear(c) && MarchDay(c.Next()) == MarchDay(c) + 1
  {
  }

  /** The day number of the next day is one more. */
  lemma SerialOfNext(c: Civil)
    requires c.Valid()
    ensures Serial(c.Next()) == Serial(c) + 1
  {
    hide MarchYearStart, IsLeap;
    if c.m == 2 && c.d == LastDay(c.y, 2) {
      MarchYearLength(MarchYear(c));
    } else {
      MarchDayOfNext(c);
    }
  }

  /** Day numbers count the steps of the naive calendar from 1970-01-01, forwards and backwards. */
  lemma {:induction false} SerialOfWalk(n: int)
    ensures Serial(Walk(n)) == n
    decreases if n < 0 then -n else n
  {
    if n == 0 {
      FirstSerial();
    }
    hide *;
    if n != 0 {
      if 0 < n {
        WalkSteps(n - 1);
        SerialOfWalk(n - 1);
        SerialOfNext(Walk(n - 1));
      } else {
        WalkSteps(n);
        SerialOfWalk(n + 1);
        SerialOfNext(Walk(n));
      }
    }
  }

  lemma FirstSerial()
    ensures Serial(Walk(0)) == 0
  {
  }

  lemma WalkSteps(n: int)
    ensures Walk(n).Next() == Walk(n + 1)
  {
  }

  lemma {:induction false} MarchYearStartIsMonotone(y: int, z: int)
    requires y < z
    ensures MarchYearStart(y) + 365 <= MarchYearStart(z)
    decreases z - y
  {
    MarchYearLength(z - 1);
    if y < z - 1 { MarchYearStartIsMonotone(y, z - 1); }
  }

  lemma MarchDayInYear(c: Civil)
    requires c.Valid()
    ensures 0 <= MarchDay(c) && Serial(c) < MarchYearStart(MarchYear(c) + 1) - 719468
  {
    MarchYearLength(MarchYear(c));
  }

  lemma MarchDayIsMonotone(c: Civil, e: Civil)
    requires c.Valid() && e.Valid() && c.Less(e) && MarchYear(e) <= MarchYear(c)
    ensures MarchYear(c) == MarchYear(e) && MarchDay(c) < MarchDay(e)
  {
  }

  lemma LessImpliesSerialLess(c: Civil, e: Civil)
    requires c.Valid() && e.Valid() && c.Less(e)
    ensures Serial(c) < Serial(e)
  {
    if MarchYear(c) < MarchYear(e) {
      MarchDayInYear(c);
      MarchDayInYear(e);
      if MarchYear(c) + 1 < MarchYear(e) {
        MarchYearStartIsMonotone(MarchYear(c) + 1, MarchYear(e));
      }
    } else {
      MarchDayIsMonotone(c, e);
    }
  }

  /** The order of dates is the order of their day numbers, so no two dates share one. */
  lemma SerialIsMonotone(c: Civil, e: Civil)
    requires c.Valid() && e.Valid()
    ensures c.Less(e) <==> Serial(c) < Serial(e)
    ensures c == e <==> Serial(c) == Serial(e)
  {
    if c.Less(e) { LessImpliesSerialLess(c, e); }
    if e.Less(c) { LessImpliesSerialLess(e, c); }
  }

  lemma ToDaysIsMonotone(x: YearMonthDay, y: YearMonthDay)
    requires x.Ok() && y.Ok()
    ensures x.Before(y) <==> ToDays(x) < ToDays(y)
  {
    hide ToDays, Serial;
    ToDaysIsSerial(x);
    ToDaysIsSerial(y);
    SerialIsMonotone(x.AsCivil(), y.AsCivil());
  }

  /** `from_days` lands on the date the naive calendar reaches, for every day number it can be given. */
  lemma CivilFromDaysIsWalk(days: int32)
    requires days <= MAX_DAYS
    ensures CivilFromDays(days) == Walk(days as int)
  {
    SerialOfWalk(days as int);
    SerialIsMonotone(CivilFromDays(days), Walk(days as int));
  }

  lemma ToDaysIsWalk(ymd: YearMonthDay)
    requires ymd.Ok()
    ensures Walk(ToDays(ymd) as int) == ymd.AsCivil()
  {
    ToDaysIsSerial(ymd);
    SerialOfWalk(ToDays(ymd) as int);
    SerialIsMonotone(Walk(ToDays(ymd) as int), ymd.AsCivil());
  }

  lemma FromDaysOfToDays(ymd: YearMonthDay)
    requires ymd.Ok()
    ensures ToDays(ymd) <= MAX_DAYS && FromDays(ToDays(ymd)) == ymd
  {
    ToDaysIsWalk(ymd);
    CivilFromDaysIsWalk(ToDays(ymd));
  }

  /** `to_days` undoes `from_days` on a day number if and only if the year fits in `date::year`. */
  lemma ToDaysOfFromDays(days: int32)
    requires days <= MAX_DAYS
    ensures var ymd := FromDays(days);
            (ymd.Ok() && ToDays(ymd) == days) <==> -32767 <= CivilFromDays(days).y <= 32767
  {
    var c, ymd := CivilFromDays(days), FromDays(days);
    hide ToDays, Serial, CivilFromDays;
    ToDaysIsSerial(ymd);
    if ymd.Ok() { SerialIsMonotone(ymd.AsCivil(), c); }
  }

  /** `from_days` is the date that many days from the epoch, on its whole domain; only its year is narrowed to 16 bits. */
  lemma FromDaysIsWalk(days: int32)
    requires days <= MAX_DAYS
    ensures var (ymd, c) := (FromDays(days), Walk(days as int));
            ymd.month as int == c.m && ymd.day as int == c.d && (ymd.year as int - c.y) % 0x1_0000 == 0
  {
    CivilFromDaysIsWalk(days);
  }
}
