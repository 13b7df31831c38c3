/** `TimePoint`: seconds since 1970-01-01T00:00:00Z, and its ISO 8601 text in both directions. */
module TimePoint {
  import opened Machine
  import opened DecimalText
  import opened Calendar
  import opened TimeOfDay
  import opened WideInput
  import opened FromStream
  import opened IsoText

  /** Second counts whose day number fits the `int` that `date::days` holds, with room for the shift `from_days` adds. */
  predicate Representable(t: int64) {
    -0x8000_0000 <= FloorDays(t) <= MAX_DAYS as int
  }

  /** The civil year of a second count. */
  function CivilYear(t: int64): int
    requires Representable(t)
  {
    CivilFromDays(FloorDays(t) as int32).y
  }

  /** `operator<<` for `year_month_day`: the year is not padded. */
  function DateText(ymd: YearMonthDay): string {
    IntText(ymd.year as int) + "-" + TwoDigits(ymd.month as nat) + "-" + TwoDigits(ymd.day as nat)
    + if ymd.Ok() then "" else " is not a valid year_month_day"
  }

  /** `operator<<` for `hh_mm_ss` of whole seconds. */
  function TimeText(tod: HhMmSs): string
    requires 0 <= tod.h && 0 <= tod.m && 0 <= tod.s
  {
    (if tod.neg then "-" else "") + TwoDigits(tod.h) + ":" + TwoDigits(tod.m) + ":" + TwoDigits(tod.s)
  }

  /** `SystemTime` */
  method SystemTime(t: int64) returns (ss: string)
    requires Representable(t)
    ensures ss == SystemTimeText(t)
  {
    hide DateText, TimeText, FromDays, MakeTime, FloorDays;
    var tp := FloorDays(t) as int32;
    MakeTimeRebuilds(t - FloorDays(t) * DAY);
    ss := DateText(FromDays(tp));
    ss := ss + "T";
    ss := ss + TimeText(MakeTime(t - tp as int * DAY));
    ss := ss + "Z";
  }

  function SystemTimeText(t: int64): string
    requires Representable(t)
  {
    MakeTimeRebuilds(t - FloorDays(t) * DAY);
    DateText(FromDays(FloorDays(t) as int32)) + "T" + TimeText(MakeTime(t - FloorDays(t) * DAY)) + "Z"
  }

  /** What `FromSystemTime` yields: a failed parse leaves the time stamp at the epoch. */
  function TimeOfText(text: string): int {
    match ParseTime(text)
    case Some(t) => t
    case None => 0
  }

  /** `FromSystemTime` */
  method FromSystemTime(text: string) returns (t: int)
    ensures t == TimeOfText(text)
  {
    hide Interpret, Assemble, ToDays;
    var stream := new WideStream(text);
    t := 0;
    var fields, broken := ReadFields(stream, ISO_FORMAT);
    NeverBroken(text, ISO_FORMAT);
    if !fields.ymd.Ok() || !fields.tod.InConventionalRange() {
      stream.fail := true;
    }
    if !stream.fail {
      t := ToDays(fields.ymd) as int * DAY + fields.tod.ToDuration();
    }
  }

  // ----- Every text -----

  /** A parsed time lies on the date and at the time of day that were read, so in a year of at most four digits. */
  lemma SecondsOfSplits(regs: Registers)
    requires InBounds(regs) && SecondsOf(regs).Some?
    ensures var t := SecondsOf(regs).value;
            && -0x8000_0000_0000_0000 <= t < 0x8000_0000_0000_0000 && Representable(t)
            && CivilYear(t) == regs.Y
            && FromDays(FloorDays(t) as int32) == YearMonthDay(regs.Y as int16, regs.m as uint8, regs.d as uint8)
            && MakeTime(t - FloorDays(t) * DAY) == HhMmSs(regs.H, regs.M, regs.s, false)
  {
    hide ToDays, FromDays, CivilFromDays, MakeTime, FloorDays;
    var ymd := YearMonthDay(regs.Y as int16, regs.m as uint8, regs.d as uint8);
    SplitIsUnique(SecondsOf(regs).value, ToDays(ymd) as int, HhMmSs(regs.H, regs.M, regs.s, false));
    FromDaysOfToDays(ymd);
    ToDaysIsWalk(ymd);
    CivilFromDaysIsWalk(ToDays(ymd));
  }

  // ----- The round trip -----

  function PartsOf(t: int64): IsoParts
    requires Representable(t)
  {
    MakeTimeRebuilds(t - FloorDays(t) * DAY);
    var ymd, tod := FromDays(FloorDays(t) as int32), MakeTime(t - FloorDays(t) * DAY);
    var y := ymd.year as int;
    IsoParts(if y < 0 then "-" else "", NatText(if y < 0 then -y else y),
             TwoDigits(ymd.month as nat), TwoDigits(ymd.day as nat),
             TwoDigits(tod.h), TwoDigits(tod.m), TwoDigits(tod.s))
  }

  lemma SystemTimeTextIsPartsText(t: int64)
    requires Representable(t) && FromDays(FloorDays(t) as int32).Ok()
    ensures SystemTimeText(t) == PartsOf(t).Text("")
  {
    hide FromDays, FloorDays, MakeTime, NatText, TwoDigits;
    FloorDaysBrackets(t);
    MakeTimeRebuilds(t - FloorDays(t) * DAY);
    var p := PartsOf(t);
    var date := p.sign + p.year + "-" + p.month + "-" + p.day;
    var time := p.hour + ":" + p.minute + ":" + p.second;
    var ymd := FromDays(FloorDays(t) as int32);
    assert DateText(ymd) == date by {
      assert IntText(ymd.year as int) == p.sign + p.year;
    }
    assert TimeText(MakeTime(t - FloorDays(t) * DAY)) == time;
    assert date + "T" + time + "Z" == date + ("T" + (time + "Z"));
    NestTime(p.hour, p.minute, p.second);
    NestDate(p.sign, p.year, p.month, p.day, p.Clock(""));
  }

  lemma NestTime(h: string, m: string, s: string)
    ensures h + ":" + m + ":" + s + "Z" == h + (":" + (m + (":" + (s + ("Z" + "")))))
  {
  }

  lemma NestDate(sign: string, y: string, m: string, d: string, rest: string)
    ensures sign + y + "-" + m + "-" + d + rest == sign + (y + ("-" + (m + ("-" + (d + rest)))))
  {
    var a := sign + y + "-" + m + "-";
    assert a + d + rest == a + (d + rest);
    var b := sign + y + "-";
    assert b + m + "-" + (d + rest) == b + (m + ("-" + (d + rest)));
  }

  /** The parts of a time in a year that `date::year` holds name its date. */
  lemma PartsOfYear(t: int64)
    requires Representable(t) && -32767 <= CivilYear(t) <= 32767
    ensures var ymd, p := FromDays(FloorDays(t) as int32), PartsOf(t);
            && ymd.Ok() && ToDays(ymd) as int == FloorDays(t) && ymd.year as int == CivilYear(t)
            && AllDigits(p.year) && p.year != "" && (|p.year| <= 4 <==> -9999 <= CivilYear(t) <= 9999)
            && AllDigits(p.month) && |p.month| == 2 && AllDigits(p.day) && |p.day| == 2
            && (if p.sign == "-" then 0 - Value(p.year) else Value(p.year)) == ymd.year as int
            && Value(p.month) == ymd.month as int && Value(p.day) == ymd.day as int
  {
    hide ToDays, CivilFromDays, FloorDays, MakeTime, Value, NatText, TwoDigits, AllDigits;
    var ymd := FromDays(FloorDays(t) as int32);
    ToDaysOfFromDays(FloorDays(t) as int32);
    var y := ymd.year as int;
    var n := if y < 0 then -y else y;
    FourDigits(n);
    ValueOfNatText(n);
    TwoDigitsShape(ymd.month as nat);
    TwoDigitsShape(ymd.day as nat);
  }

  /** The text of a time in a year of at most four digits names its date and time of day. */
  lemma PartsOfShortYear(t: int64)
    requires Representable(t) && -9999 <= CivilYear(t) <= 9999
    ensures var ymd := FromDays(FloorDays(t) as int32);
            ymd.Ok() && ToDays(ymd) as int == FloorDays(t)
            && PartsOf(t).WellFormed()
            && PartsOf(t).Registers().Y == ymd.year as int
            && PartsOf(t).Registers().m == ymd.month as int && PartsOf(t).Registers().d == ymd.day as int
  {
    hide ToDays, CivilFromDays, FromDays, FloorDays, MakeTime, Value, NatText, TwoDigits, AllDigits;
    PartsOfYear(t);
    TimeDigits(t);
  }

  lemma TimeDigits(t: int64)
    requires Representable(t)
    ensures var p, tod := PartsOf(t), MakeTime(t - FloorDays(t) * DAY);
            && IsNumber(p.hour, 2) && IsNumber(p.minute, 2) && IsNumber(p.second, 2)
            && tod.InConventionalRange()
            && Value(p.hour) == tod.h && Value(p.minute) == tod.m && Value(p.second) == tod.s
            && tod.ToDuration() == t - FloorDays(t) * DAY
  {
    hide FromDays, FloorDays, MakeTime, Value, NatText, TwoDigits, AllDigits;
    FloorDaysBrackets(t);
    var tod := MakeTime(t - FloorDays(t) * DAY);
    MakeTimeRebuilds(t - FloorDays(t) * DAY);
    TwoDigitsShape(tod.h);
    TwoDigitsShape(tod.m);
    TwoDigitsShape(tod.s);
  }

  /** How a time is written: the year with as many digits as it has and a '-' in front if it is negative, two digits for every
      other part, and nothing behind the 'Z'. */
  ghost predicate IsWritten(t: int64, p: IsoParts)
    requires Representable(t)
  {
    var (c, tod) := (CivilFromDays(FloorDays(t) as int32), MakeTime(t - FloorDays(t) * DAY));
    && SystemTimeText(t) == p.Text("")
    && p.sign == (if c.y < 0 then "-" else "")
    && AllDigits(p.year) && p.year != "" && (p.year[0] == '0' ==> p.year == "0")
    && Value(p.year) == (if c.y < 0 then -c.y else c.y)
    && IsPadded(p.month, c.m) && IsPadded(p.day, c.d)
    && IsPadded(p.hour, tod.h) && IsPadded(p.minute, tod.m) && IsPadded(p.second, tod.s)
  }

  predicate IsPadded(s: string, n: int) { AllDigits(s) && |s| == 2 && Value(s) == n }

  lemma SystemTimeIsWritten(t: int64)
    requires Representable(t) && -32767 <= CivilYear(t) <= 32767
    ensures exists p :: IsWritten(t, p)
  {
    hide ToDays, CivilFromDays, FloorDays, MakeTime, Value, NatText, TwoDigits, AllDigits, SystemTimeText, IsoParts.Text;
    PartsOfYear(t);
    TimeDigits(t);
    TwoDigitTimes(t);
    SystemTimeTextIsPartsText(t);
    YearOfParts(t);
    assert IsWritten(t, PartsOf(t));
  }

  lemma YearOfParts(t: int64)
    requires Representable(t) && -32767 <= CivilYear(t) <= 32767
    ensures var (c, p, ymd) := (CivilFromDays(FloorDays(t) as int32), PartsOf(t), FromDays(FloorDays(t) as int32));
            && p.sign == (if c.y < 0 then "-" else "") && p.year != "" && (p.year[0] == '0' ==> p.year == "0")
            && ymd.month as int == c.m && ymd.day as int == c.d
  {
    hide CivilFromDays, FloorDays, MakeTime, TwoDigits;
    var y := CivilYear(t);
    NoLeadingZero(if y < 0 then -y else y);
  }

  lemma ShortYearRoundTrip(t: int64)
    requires Representable(t) && -9999 <= CivilYear(t) <= 9999
    ensures ParseTime(SystemTimeText(t)) == Some(t)
  {
    hide ToDays, CivilFromDays, FloorDays, MakeTime, Value, FromDays, ParseTime, SystemTimeText, AllDigits, PartsOf;
    PartsOfShortYear(t);
    SystemTimeTextIsPartsText(t);
    ParsesIsoText(PartsOf(t), "");
    TimeDigits(t);
    SameDate(PartsOf(t).Registers(), FromDays(FloorDays(t) as int32));
  }

  lemma SameDate(regs: Registers, ymd: YearMonthDay)
    requires -9999 <= regs.Y <= 9999 && 0 <= regs.m < 100 && 0 <= regs.d < 100
    requires regs.Y == ymd.year as int && regs.m == ymd.month as int && regs.d == ymd.day as int
    ensures YearMonthDay(regs.Y as int16, regs.m as uint8, regs.d as uint8) == ymd
  {
  }

  /** A time that parsing yields lies in a year of at most four digits. */
  lemma TimeOfTextHasShortYear(text: string)
    ensures var t := TimeOfText(text);
            && -0x8000_0000_0000_0000 <= t < 0x8000_0000_0000_0000 && Representable(t)
            && -9999 <= CivilYear(t) <= 9999
  {
    hide ToDays, CivilFromDays, FloorDays, ParseTime;
    ParseTimeIs(text);
    if ParseTime(text).Some? {
      SecondsOfSplits(IsoRegisters(text).value);
    } else {
      EpochYear();
    }
  }

  lemma EpochYear()
    ensures FloorDays(0) == 0 && CivilYear(0) == 1970
  {
    CivilFromDaysIsWalk(0);
  }

  /** Writing a time and parsing the text gives the time back if and only if its year has at most four digits. */
  lemma RoundTripIff(t: int64)
    requires Representable(t)
    ensures TimeOfText(SystemTimeText(t)) == t <==> -9999 <= CivilYear(t) <= 9999
  {
    hide ParseTime, SystemTimeText, CivilYear, Representable;
    if -9999 <= CivilYear(t) <= 9999 {
      ShortYearRoundTrip(t);
    } else {
      TimeOfTextHasShortYear(SystemTimeText(t));
    }
  }

  /** Whatever the text, what it parses to survives being written and parsed again. */
  lemma ParsingIsIdempotent(text: string)
    ensures var t := TimeOfText(text);
            && -0x8000_0000_0000_0000 <= t < 0x8000_0000_0000_0000 && Representable(t)
            && TimeOfText(SystemTimeText(t)) == t
  {
    hide TimeOfText, SystemTimeText, CivilYear, Representable;
    TimeOfTextHasShortYear(text);
    RoundTripIff(TimeOfText(text));
  }

  lemma SameSplit(a: string, b: string, c: string, d: string)
    requires a + b == c + d && |a| == |c|
    ensures a == c && b == d
  {
    assert (a + b)[..|a|] == a && (a + b)[|a|..] == b;
    assert (c + d)[..|c|] == c && (c + d)[|c|..] == d;
  }

  lemma SameDigits(a: string, b: string, c: string, d: string)
    requires AllDigits(a) && AllDigits(c) && a + ("-" + b) == c + ("-" + d)
    ensures a == c && b == d
  {
    var s := a + ("-" + b);
    assert s[|a|] == '-' && s[|c|] == '-';
    assert forall k :: 0 <= k < |a| ==> s[k] == a[k] && IsDigit(s[k]);
    assert forall k :: 0 <= k < |c| ==> s[k] == c[k] && IsDigit(s[k]);
    SameSplit(a, "-" + b, c, "-" + d);
    SameSplit("-", b, "-", d);
  }

  predicate FixedWidth(p: IsoParts) {
    && (p.sign == "" || p.sign == "-") && AllDigits(p.year) && p.year != ""
    && |p.month| == 2 && |p.day| == 2 && |p.hour| == 2 && |p.minute| == 2 && |p.second| == 2
  }

  lemma TextDeterminesClock(p: IsoParts, q: IsoParts)
    requires FixedWidth(p) && FixedWidth(q) && p.Clock("") == q.Clock("")
    ensures p.hour == q.hour && p.minute == q.minute && p.second == q.second
  {
    SameSplit("T", p.hour + (":" + (p.minute + (":" + (p.second + ("Z" + ""))))),
              "T", q.hour + (":" + (q.minute + (":" + (q.second + ("Z" + ""))))));
    SameSplit(p.hour, ":" + (p.minute + (":" + (p.second + ("Z" + "")))),
              q.hour, ":" + (q.minute + (":" + (q.second + ("Z" + "")))));
    SameSplit(":", p.minute + (":" + (p.second + ("Z" + ""))), ":", q.minute + (":" + (q.second + ("Z" + ""))));
    SameSplit(p.minute, ":" + (p.second + ("Z" + "")), q.minute, ":" + (q.second + ("Z" + "")));
    SameSplit(":", p.second + ("Z" + ""), ":", q.second + ("Z" + ""));
    SameSplit(p.second, "Z" + "", q.second, "Z" + "");
  }

  lemma TextDeterminesDate(p: IsoParts, q: IsoParts)
    requires FixedWidth(p) && FixedWidth(q) && p.Text("") == q.Text("")
    ensures p.sign == q.sign && p.year == q.year && p.month == q.month && p.day == q.day && p.Clock("") == q.Clock("")
  {
    var (pc, qc) := (p.Clock(""), q.Clock(""));
    var (pr, qr) := (p.month + ("-" + (p.day + pc)), q.month + ("-" + (q.day + qc)));
    assert p.sign + (p.year + ("-" + pr)) == q.sign + (q.year + ("-" + qr));
    SameSign(p.sign, p.year, pr, q.sign, q.year, qr);
    SameSplit(p.sign, p.year + ("-" + pr), q.sign, q.year + ("-" + qr));
    SameDigits(p.year, pr, q.year, qr);
    SameSplit(p.month, "-" + (p.day + pc), q.month, "-" + (q.day + qc));
    SameSplit("-", p.day + pc, "-", q.day + qc);
    SameSplit(p.day, pc, q.day, qc);
  }

  lemma SameSign(s: string, y: string, r: string, t: string, z: string, u: string)
    requires (s == "" || s == "-") && (t == "" || t == "-") && y != "" && z != "" && AllDigits(y) && AllDigits(z)
    requires s + (y + ("-" + r)) == t + (z + ("-" + u))
    ensures s == t
  {
    assert (s + (y + ("-" + r)))[0] == if s == "" then y[0] else '-';
    assert (t + (z + ("-" + u)))[0] == if t == "" then z[0] else '-';
    assert IsDigit(y[0]) && IsDigit(z[0]);
  }

  /** Times in years that `date::year` holds have different texts, even where the texts do not parse. */
  lemma SystemTimeTextIsInjective(t: int64, u: int64)
    requires Representable(t) && -32767 <= CivilYear(t) <= 32767
    requires Representable(u) && -32767 <= CivilYear(u) <= 32767
    ensures SystemTimeText(t) == SystemTimeText(u) <==> t == u
  {
    hide ToDays, CivilFromDays, FromDays, FloorDays, MakeTime, Value, SystemTimeText, CivilYear, Representable, PartsOf;
    hide AllDigits, NatText, TwoDigits;
    if SystemTimeText(t) == SystemTimeText(u) {
      PartsOfYear(t);
      PartsOfYear(u);
      SystemTimeTextIsPartsText(t);
      SystemTimeTextIsPartsText(u);
      TimeDigits(t);
      TimeDigits(u);
      TwoDigitTimes(t);
      TwoDigitTimes(u);
      SignIsPlain(t);
      SignIsPlain(u);
      TextDeterminesDate(PartsOf(t), PartsOf(u));
      TextDeterminesClock(PartsOf(t), PartsOf(u));
      var (a, b) := (FromDays(FloorDays(t) as int32), FromDays(FloorDays(u) as int32));
      SameYmd(a, b);
    }
  }

  lemma SameYmd(a: YearMonthDay, b: YearMonthDay)
    requires a.year as int == b.year as int && a.month as int == b.month as int && a.day as int == b.day as int
    ensures a == b
  {
  }

  lemma SignIsPlain(t: int64)
    requires Representable(t)
    ensures PartsOf(t).sign == "" || PartsOf(t).sign == "-"
  {
    hide FromDays, FloorDays, MakeTime, NatText, TwoDigits;
  }

  lemma TwoDigitTimes(t: int64)
    requires Representable(t)
    ensures |PartsOf(t).hour| == 2 && |PartsOf(t).minute| == 2 && |PartsOf(t).second| == 2
  {
    hide FromDays, FloorDays, MakeTime, NatText, TwoDigits;
    TimeDigits(t);
    var tod := MakeTime(t - FloorDays(t) * DAY);
    TwoDigitsShape(tod.h);
    TwoDigitsShape(tod.m);
    TwoDigitsShape(tod.s);
  }

  /** The text that follows the digits of the year. */
  function AfterYear(ymd: YearMonthDay, time: string): string {
    var note := if ymd.Ok() then "" else " is not a valid year_month_day";
    "-" + TwoDigits(ymd.month as nat) + "-" + TwoDigits(ymd.day as nat) + note + "T" + time + "Z"
  }

  lemma DateTextStartsWithYear(ymd: YearMonthDay, sign: string, year: string, time: string)
    requires sign + year == IntText(ymd.year as int)
    ensures DateText(ymd) + "T" + time + "Z" == sign + (year + AfterYear(ymd, time))
  {
    hide TwoDigits, IntText;
    var month, day := TwoDigits(ymd.month as nat), TwoDigits(ymd.day as nat);
    var note := if ymd.Ok() then "" else " is not a valid year_month_day";
    assert DateText(ymd) == sign + year + "-" + month + "-" + day + note;
    NestAfterYear(sign, year, month, day, note, time);
  }

  lemma TextStartsWithYear(t: int64)
    requires Representable(t)
    ensures exists rest: string :: SystemTimeText(t) == PartsOf(t).sign + (PartsOf(t).year + rest)
  {
    hide FromDays, FloorDays, MakeTime, NatText, TwoDigits, TimeText, AfterYear, DateText;
    MakeTimeRebuilds(t - FloorDays(t) * DAY);
    var ymd := FromDays(FloorDays(t) as int32);
    var time := TimeText(MakeTime(t - FloorDays(t) * DAY));
    DateTextStartsWithYear(ymd, PartsOf(t).sign, PartsOf(t).year, time);
  }

  lemma NestAfterYear(sign: string, y: string, m: string, d: string, note: string, time: string)
    ensures sign + y + "-" + m + "-" + d + note + "T" + time + "Z"
            == sign + (y + ("-" + m + "-" + d + note + "T" + time + "Z"))
  {
    var year := sign + y;
    var date := year + "-" + m + "-" + d;
    assert date == year + ("-" + m + "-" + d);
    assert date + note + "T" + time + "Z" == date + (note + "T" + time + "Z");
    var tail := note + "T" + time + "Z";
    assert year + ("-" + m + "-" + d) + tail == year + (("-" + m + "-" + d) + tail);
    assert ("-" + m + "-" + d) + tail == "-" + m + "-" + d + note + "T" + time + "Z";
  }

  /** %F stops after four digits of a longer year, in front of a digit where it wants '-'. */
  lemma LongYearFails(text: string, sign: string, year: string, rest: string)
    requires text == sign + (year + rest) && sign in ["", "-"] && AllDigits(year) && 5 <= |year|
    ensures DateStep(text, START).at.fail
  {
    hide Value, AllDigits, Unsigned, Literal, MonthStep;
    assert text[0..] == text && Left(text, 0, sign + (year + rest));
    LeftAfter(text, 0, sign, year + rest);
    FourthDigitIsNotLast(text, |sign|, year, rest);
    if sign == "-" { assert text[0 + 0] == '-' && Narrow('-') == '-'; }
    FailedLiteralStops(text, START.regs, Signed(text, START.at, 1, 4));
  }

  lemma FailedLiteralStops(text: string, regs: Registers, y: Reading<int>)
    requires y.at.On(text) && Literal(text, y.at, '-').fail
    ensures MonthStep(text, Literal(text, y.at, '-'), regs, y.value).at.fail
  {
  }

  /** Beyond four digits, but within the years `date::year` holds, the text does not parse and the epoch is returned. */
  lemma LongYearParsesToEpoch(t: int64)
    requires Representable(t) && -32767 <= CivilYear(t) <= 32767 && !(-9999 <= CivilYear(t) <= 9999)
    ensures ParseTime(SystemTimeText(t)) == None && TimeOfText(SystemTimeText(t)) == 0
  {
    hide ToDays, CivilFromDays, FloorDays, MakeTime, NatText, TwoDigits, SystemTimeText, DateStep, ParseTime, AllDigits;
    TextStartsWithYear(t);
    var y := FromDays(FloorDays(t) as int32).year as int;
    FourDigits(if y < 0 then -y else y);
    var rest :| SystemTimeText(t) == PartsOf(t).sign + (PartsOf(t).year + rest);
    LongYearFails(SystemTimeText(t), PartsOf(t).sign, PartsOf(t).year, rest);
    ParseTimeIs(SystemTimeText(t));
  }
}
