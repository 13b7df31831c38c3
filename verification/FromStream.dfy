/** The format interpreter `from_stream` of `date.h`, for formats made of %F, %T, the week-date directives %G, %V and %u, %% and
    literal characters, and the assembly of what it read into a date and a time of day. */
module FromStream {
  import opened Machine
  import opened DecimalText
  import opened Calendar
  import opened WeekDates
  import opened TimeOfDay
  import opened WideInput

  const NOT_A_MONTH := 0
  const NOT_A_DAY := 0
  const NOT_A_HOUR := -0x8000_0000
  const NOT_A_MINUTE := NOT_A_HOUR
  const NOT_A_SECOND := -0x8000_0000_0000_0000

  /** What the directives have set so far; each register starts at its "not set" value. */
  datatype Registers = Registers(Y: int, m: int, d: int, wd: int, H: int, M: int, s: int, G: int, V: int)

  const UNSET := Registers(NOT_A_YEAR, NOT_A_MONTH, NOT_A_DAY, NOT_A_WEEKDAY, NOT_A_HOUR, NOT_A_MINUTE, NOT_A_SECOND,
                           NOT_A_YEAR, NOT_A_WEEK_NUM)

  datatype State = State(at: Cursor, regs: Registers)

  /** `fields`: the parsed date, weekday and time of day. */
  datatype Fields = Fields(ymd: YearMonthDay, wd: Weekday, tod: HhMmSs)

  const NO_FIELDS := Fields(YearMonthDay(-0x8000, 0, 0), 8, HhMmSs(0, 0, 0, false))

  /** `checked_set`: a register is set once, and must agree with every later reading. */
  function CheckedSet(at: Cursor, value: int, from: int, notAValue: int): (r: Reading<int>)
    ensures !r.at.fail <==> !at.fail && (value == notAValue || value == from)
    ensures r == Reading(r.at, if r.at.fail then value else from) && r.at == at.(fail := r.at.fail)
  {
    if at.fail then Reading(at, value)
    else if value == notAValue then Reading(at, from)
    else if value != from then Reading(Cursor(at.pos, at.eof, true), value)
    else Reading(at, value)
  }

  function SetDate(at: Cursor, regs: Registers, tY: int, tm: int, td: int): State {
    var Y := CheckedSet(at, regs.Y, tY, NOT_A_YEAR);
    var m := CheckedSet(Y.at, regs.m, tm, NOT_A_MONTH);
    var d := CheckedSet(m.at, regs.d, td, NOT_A_DAY);
    State(d.at, regs.(Y := Y.value, m := m.value, d := d.value))
  }

  function SetTime(at: Cursor, regs: Registers, tH: int, tM: int, ts: int): State {
    var H := CheckedSet(at, regs.H, tH, NOT_A_HOUR);
    var M := CheckedSet(H.at, regs.M, tM, NOT_A_MINUTE);
    var s := CheckedSet(M.at, regs.s, ts, NOT_A_SECOND);
    State(s.at, regs.(H := H.value, M := M.value, s := s.value))
  }

  /** `round_i`: rounding to a whole number, ties to the even neighbour. */
  function RoundToEven(x: real): (r: int)
    ensures 0.0 <= x ==> 0 <= r
    ensures -0.5 <= r as real - x <= 0.5
    ensures r as real - x == 0.5 || x - r as real == 0.5 ==> r % 2 == 0
  {
    var below := x.Floor;
    var above := below + 1;
    var (diff0, diff1) := (x - below as real, above as real - x);
    if diff0 == diff1 then (if below % 2 == 0 then below else above)
    else if diff0 < diff1 then below
    else above
  }

  function RoundDecimals(d: Decimals): (r: int)
    requires d.Valid()
    ensures 0 <= r
  {
    RoundToEven(DecimalOf(d))
  }

  /** %F: a year of up to four digits with an optional sign, '-', a month and '-', a day of up to two digits. */
  function DateStep(text: string, st: State): (r: State)
    requires st.at.On(text)
    ensures r.at.On(text)
  {
    var y := Signed(text, st.at, 1, 4);
    if y.at.fail then State(y.at, st.regs)
    else MonthStep(text, Literal(text, y.at, '-'), st.regs, y.value)
  }

  function MonthStep(text: string, k: Cursor, regs: Registers, tY: int): (r: State)
    requires k.On(text)
    ensures r.at.On(text)
  {
    if k.fail then State(k, regs) else
    var m := Unsigned(text, k, 1, 2);
    if m.at.fail then State(m.at, regs)
    else DayStep(text, Literal(text, m.at, '-'), regs, tY, m.value)
  }

  function DayStep(text: string, k: Cursor, regs: Registers, tY: int, tm: int): (r: State)
    requires k.On(text)
    ensures r.at.On(text)
  {
    if k.fail then State(k, regs) else
    var d := Unsigned(text, k, 1, 2);
    if d.at.fail then State(d.at, regs) else SetDate(d.at, regs, tY, tm, d.value)
  }

  /** %T: hours, ':', minutes, ':' and seconds, two characters at most each; a decimal point is one of them. */
  function TimeStep(text: string, st: State): (r: State)
    requires st.at.On(text)
    ensures r.at.On(text)
  {
    var h := Unsigned(text, st.at, 1, 2);
    if h.at.fail then State(h.at, st.regs)
    else MinuteStep(text, Literal(text, h.at, ':'), st.regs, h.value)
  }

  function MinuteStep(text: string, k: Cursor, regs: Registers, tH: int): (r: State)
    requires k.On(text)
    ensures r.at.On(text)
  {
    if k.fail then State(k, regs) else
    var m := Unsigned(text, k, 1, 2);
    if m.at.fail then State(m.at, regs)
    else SecondStep(text, Literal(text, m.at, ':'), regs, tH, m.value)
  }

  function SecondStep(text: string, k: Cursor, regs: Registers, tH: int, tM: int): (r: State)
    requires k.On(text)
    ensures r.at.On(text)
  {
    if k.fail then State(k, regs) else
    var s := LongDecimal(text, k, 1, 2);
    if s.at.fail then State(s.at, regs) else SetTime(s.at, regs, tH, tM, RoundDecimals(s.value))
  }

  /** %G: a week-year of up to four digits with an optional sign. */
  function WeekYearStep(text: string, st: State): (r: State)
    requires st.at.On(text)
    ensures r.at.On(text)
  {
    var y := Signed(text, st.at, 1, 4);
    if y.at.fail then State(y.at, st.regs) else
    var G := CheckedSet(y.at, st.regs.G, y.value, NOT_A_YEAR);
    State(G.at, st.regs.(G := G.value))
  }

  /** %V: a week number of up to two digits, whatever its value. */
  function WeekStep(text: string, st: State): (r: State)
    requires st.at.On(text)
    ensures r.at.On(text)
  {
    var w := Unsigned(text, st.at, 1, 2);
    if w.at.fail then State(w.at, st.regs) else
    var V := CheckedSet(w.at, st.regs.V, w.value, NOT_A_WEEK_NUM);
    State(V.at, st.regs.(V := V.value))
  }

  /** %u: one digit from 1, Monday, to 7, Sunday. */
  function WeekdayStep(text: string, st: State): (r: State)
    requires st.at.On(text)
    ensures r.at.On(text)
  {
    var u := Unsigned(text, st.at, 1, 1);
    if u.at.fail then State(u.at, st.regs)
    else if !(1 <= u.value <= 7) then State(Cursor(u.at.pos, u.at.eof, true), st.regs)
    else
      var wd := CheckedSet(u.at, st.regs.wd, if u.value == 7 then 0 else u.value, NOT_A_WEEKDAY);
      State(wd.at, st.regs.(wd := wd.value))
  }

  predicate IsSpace(c: char) { c == ' ' || '\t' <= c <= '\r' }

  /** The formats modelled: %F, %T, %G, %V, %u, %% and literal characters. */
  predicate Supported(fmt: string, i: nat, command: bool)
    requires i <= |fmt|
    decreases |fmt| - i
  {
    if i == |fmt| then !command
    else if command then fmt[i] in "FTGVu%" && Supported(fmt, i + 1, false)
    else !IsSpace(fmt[i]) && Supported(fmt, i + 1, fmt[i] == '%')
  }

  /** What the rest of a format, from position i on, does to the stream and the registers. */
  function Interpret(text: string, fmt: string, i: nat, command: bool, st: State): (r: State)
    requires i <= |fmt| && Supported(fmt, i, command) && st.at.On(text)
    ensures r.at.On(text)
    decreases |fmt| - i
  {
    if i == |fmt| || st.at.fail then st
    else if command && fmt[i] == 'F' then Interpret(text, fmt, i + 1, false, DateStep(text, st))
    else if command && fmt[i] == 'T' then Interpret(text, fmt, i + 1, false, TimeStep(text, st))
    else if command && fmt[i] == 'G' then Interpret(text, fmt, i + 1, false, WeekYearStep(text, st))
    else if command && fmt[i] == 'V' then Interpret(text, fmt, i + 1, false, WeekStep(text, st))
    else if command && fmt[i] == 'u' then Interpret(text, fmt, i + 1, false, WeekdayStep(text, st))
    else if !command && fmt[i] == '%' then Interpret(text, fmt, i + 1, true, st)
    else Interpret(text, fmt, i + 1, false, State(Literal(text, st.at, fmt[i]), st.regs))
  }

  // ----- Assembly -----

  /** Week numbers of two digits and weekdays, or the values that mean "not set". */
  predicate WeekInRange(regs: Registers) {
    0 <= regs.V <= NOT_A_WEEK_NUM && (0 <= regs.wd <= 6 || regs.wd == NOT_A_WEEKDAY)
  }

  /** Week-year, week number and weekday are all set. */
  predicate HasWeekDate(regs: Registers) {
    regs.G != NOT_A_YEAR && regs.V != NOT_A_WEEK_NUM && regs.wd != NOT_A_WEEKDAY
  }

  /** A year that `date::year` does not hold counts as not set. */
  function YearHeld(Y: int): int { if Y < -32767 || 32767 < Y then NOT_A_YEAR else Y }

  /** The date of a complete week date. */
  function DateOfWeek(regs: Registers): YearMonthDay
    requires WeekInRange(regs) && HasWeekDate(regs)
  {
    FromDays(DayOfWeekDate(regs.G, regs.V, regs.wd as Weekday) as int32)
  }

  /** A complete week date sets the year, month and day that are not set, and must agree with those that are. */
  function FilledByWeek(regs: Registers): Option<Registers>
    requires WeekInRange(regs)
  {
    if !HasWeekDate(regs) then Some(regs) else
    var trial := DateOfWeek(regs);
    if regs.Y != NOT_A_YEAR && ToInt16(regs.Y) != trial.year then None
    else if regs.m != NOT_A_MONTH && ToUint8(regs.m) != trial.month then None
    else if regs.d != NOT_A_DAY && ToUint8(regs.d) != trial.day then None
    else Some(regs.(Y := if regs.Y == NOT_A_YEAR then trial.year as int else regs.Y,
                    m := if regs.m == NOT_A_MONTH then trial.month as int else regs.m,
                    d := if regs.d == NOT_A_DAY then trial.day as int else regs.d))
  }

  function DateIn(regs: Registers): YearMonthDay {
    YearMonthDay(ToInt16(regs.Y), ToUint8(regs.m), ToUint8(regs.d))
  }

  /** A week-year or week number that did not make the date must be those of the date. */
  predicate WeekAgrees(regs: Registers, ymd: YearMonthDay)
    requires ymd.Ok()
  {
    && (regs.G == NOT_A_YEAR || regs.G == ToWeekDate(ymd).year as int)
    && (regs.V == NOT_A_WEEK_NUM || regs.V == ToWeekDate(ymd).week)
  }

  predicate WeekdayAgrees(regs: Registers, ymd: YearMonthDay)
    requires ymd.Ok()
  {
    regs.wd == NOT_A_WEEKDAY || regs.wd == WeekdayDifference(WeekdayFromDays(ToDays(ymd)), 0) as int
  }

  function TimeIn(regs: Registers): HhMmSs {
    var tod := if regs.H != NOT_A_HOUR then MakeTime(regs.H * 3600) else NO_FIELDS.tod;
    var tod := if regs.M != NOT_A_MINUTE then tod.(m := regs.M) else tod;
    if regs.s != NOT_A_SECOND then tod.(s := regs.s) else tod
  }

  /** The fields of a successful parse, or nothing when the registers contradict each other. */
  function Assemble(regs: Registers): Option<Fields>
    requires WeekInRange(regs)
  {
    var held := regs.(Y := YearHeld(regs.Y));
    match FilledByWeek(held)
    case None => None
    case Some(filled) =>
      var ymd := DateIn(filled);
      if ymd.Ok() && !(WeekdayAgrees(held, ymd) && (HasWeekDate(held) || WeekAgrees(held, ymd))) then None
      else
        var wd := if ymd.Ok() then WeekdayDifference(WeekdayFromDays(ToDays(ymd)), 0) as int else regs.wd;
        Some(Fields(ymd, if wd != NOT_A_WEEKDAY then MakeWeekday(ToUint8(wd) as uint32) else 8, TimeIn(regs)))
  }

  lemma {:induction false} InterpretKeepsRange(text: string, fmt: string, i: nat, command: bool, st: State)
    requires i <= |fmt| && Supported(fmt, i, command) && st.at.On(text) && WeekInRange(st.regs)
    ensures WeekInRange(Interpret(text, fmt, i, command, st).regs)
    decreases |fmt| - i
  {
    hide Signed, Unsigned, LongDecimal, Literal, DateStep, TimeStep, WeekYearStep, WeekStep, WeekdayStep, WeekInRange;
    if i == |fmt| || st.at.fail {
    } else if command && fmt[i] == 'F' {
      DateKeepsWeek(text, st);
      InterpretKeepsRange(text, fmt, i + 1, false, DateStep(text, st));
    } else if command && fmt[i] == 'T' {
      TimeKeepsWeek(text, st);
      InterpretKeepsRange(text, fmt, i + 1, false, TimeStep(text, st));
    } else if command && fmt[i] == 'G' {
      WeekStepsKeepRange(text, st);
      InterpretKeepsRange(text, fmt, i + 1, false, WeekYearStep(text, st));
    } else if command && fmt[i] == 'V' {
      WeekStepsKeepRange(text, st);
      InterpretKeepsRange(text, fmt, i + 1, false, WeekStep(text, st));
    } else if command && fmt[i] == 'u' {
      WeekStepsKeepRange(text, st);
      InterpretKeepsRange(text, fmt, i + 1, false, WeekdayStep(text, st));
    } else if !command && fmt[i] == '%' {
      InterpretKeepsRange(text, fmt, i + 1, true, st);
    } else {
      InterpretKeepsRange(text, fmt, i + 1, false, State(Literal(text, st.at, fmt[i]), st.regs));
    }
  }

  lemma DateKeepsWeek(text: string, st: State)
    requires st.at.On(text)
    ensures var r := DateStep(text, st).regs; r.V == st.regs.V && r.wd == st.regs.wd && r.G == st.regs.G
    ensures WeekInRange(st.regs) ==> WeekInRange(DateStep(text, st).regs)
  {
    hide Signed, Unsigned, Literal, CheckedSet;
  }

  lemma TimeKeepsWeek(text: string, st: State)
    requires st.at.On(text)
    ensures var r := TimeStep(text, st).regs; r.V == st.regs.V && r.wd == st.regs.wd && r.G == st.regs.G
    ensures WeekInRange(st.regs) ==> WeekInRange(TimeStep(text, st).regs)
  {
    hide Unsigned, Literal, LongDecimal, CheckedSet, RoundDecimals;
  }

  lemma WeekStepsKeepRange(text: string, st: State)
    requires st.at.On(text) && WeekInRange(st.regs)
    ensures WeekInRange(WeekYearStep(text, st).regs) && WeekInRange(WeekStep(text, st).regs)
    ensures WeekInRange(WeekdayStep(text, st).regs)
  {
    UnsignedHasTwoDigits(text, st.at);
    hide Signed, Unsigned;
  }

  /** Every register that was set has kept its value. */
  predicate Keeps(before: Registers, after: Registers) {
    && (before.Y == NOT_A_YEAR || after.Y == before.Y) && (before.m == NOT_A_MONTH || after.m == before.m)
    && (before.d == NOT_A_DAY || after.d == before.d) && (before.wd == NOT_A_WEEKDAY || after.wd == before.wd)
    && (before.H == NOT_A_HOUR || after.H == before.H) && (before.M == NOT_A_MINUTE || after.M == before.M)
    && (before.s == NOT_A_SECOND || after.s == before.s) && (before.G == NOT_A_YEAR || after.G == before.G)
    && (before.V == NOT_A_WEEK_NUM || after.V == before.V)
  }

  /** Under any format: what one directive has set, no later one changes; a different value is a failure. */
  lemma {:induction false} SetRegistersStay(text: string, fmt: string, i: nat, command: bool, st: State)
    requires i <= |fmt| && Supported(fmt, i, command) && st.at.On(text)
    ensures var r := Interpret(text, fmt, i, command, st); !r.at.fail ==> !st.at.fail && Keeps(st.regs, r.regs)
    decreases |fmt| - i
  {
    hide Literal, DateStep, TimeStep, WeekYearStep, WeekStep, WeekdayStep, Keeps;
    KeepsItself(st.regs);
    if i == |fmt| || st.at.fail {
    } else if command && fmt[i] in "FTGVu" {
      var next := if fmt[i] == 'F' then DateStep(text, st) else if fmt[i] == 'T' then TimeStep(text, st)
                  else if fmt[i] == 'G' then WeekYearStep(text, st) else if fmt[i] == 'V' then WeekStep(text, st)
                  else WeekdayStep(text, st);
      StepsKeep(text, st);
      SetRegistersStay(text, fmt, i + 1, false, next);
      KeepsTwice(st.regs, next.regs, Interpret(text, fmt, i + 1, false, next).regs);
    } else if !command && fmt[i] == '%' {
      SetRegistersStay(text, fmt, i + 1, true, st);
    } else {
      SetRegistersStay(text, fmt, i + 1, false, State(Literal(text, st.at, fmt[i]), st.regs));
    }
  }

  lemma KeepsItself(regs: Registers)
    ensures Keeps(regs, regs)
  {
  }

  lemma KeepsTwice(a: Registers, b: Registers, c: Registers)
    ensures Keeps(a, b) && Keeps(b, c) ==> Keeps(a, c)
  {
  }

  lemma StepsKeep(text: string, st: State)
    requires st.at.On(text)
    ensures !DateStep(text, st).at.fail ==> Keeps(st.regs, DateStep(text, st).regs)
    ensures !TimeStep(text, st).at.fail ==> Keeps(st.regs, TimeStep(text, st).regs)
    ensures !WeekYearStep(text, st).at.fail ==> Keeps(st.regs, WeekYearStep(text, st).regs)
    ensures !WeekStep(text, st).at.fail ==> Keeps(st.regs, WeekStep(text, st).regs)
    ensures !WeekdayStep(text, st).at.fail ==> Keeps(st.regs, WeekdayStep(text, st).regs)
  {
    hide Signed, Unsigned, Literal, LongDecimal, RoundDecimals, CheckedSet;
  }

  const START := State(Cursor(0, false, false), UNSET)

  /** The state after a whole format. */
  function Interpreted(text: string, fmt: string): (st: State)
    requires Supported(fmt, 0, false)
    ensures WeekInRange(st.regs)
  {
    hide Interpret;
    InterpretKeepsRange(text, fmt, 0, false, START);
    Interpret(text, fmt, 0, false, START)
  }

  /** `from_stream` for a time point: the seconds a text stands for under a format, or nothing when it fails. */
  function ParseSeconds(text: string, fmt: string): Option<int>
    requires Supported(fmt, 0, false)
  {
    var st := Interpreted(text, fmt);
    if st.at.fail then None
    else
      match Assemble(st.regs)
      case None => None
      case Some(f) =>
        if !f.ymd.Ok() || !f.tod.InConventionalRange() then None
        else Some(ToDays(f.ymd) as int * DAY + f.tod.ToDuration())
  }

  /** `from_stream` for a date. */
  function ParseDate(text: string, fmt: string): Option<YearMonthDay>
    requires Supported(fmt, 0, false)
  {
    var st := Interpreted(text, fmt);
    if st.at.fail then None
    else
      match Assemble(st.regs)
      case None => None
      case Some(f) => if f.ymd.Ok() then Some(f.ymd) else None
  }

  // ----- The methods -----

  /** The reads of %F followed by its three `checked_set`s. */
  method ReadDate(stream: WideStream, regs: Registers) returns (r: Registers)
    requires stream.Valid()
    modifies stream
    ensures stream.Valid() && State(stream.At(), r) == DateStep(stream.text, State(old(stream.At()), regs))
  {
    hide Signed, Unsigned, Literal, CheckedSet;
    SignedHasFourDigits(stream.text, stream.At());
    var tY := stream.ReadSigned(1, 4);
    if stream.fail { return regs; }
    stream.ReadLiteral('-');
    if stream.fail { return regs; }
    UnsignedHasTwoDigits(stream.text, stream.At());
    var tm := stream.ReadUnsigned(1, 2);
    if stream.fail { return regs; }
    stream.ReadLiteral('-');
    if stream.fail { return regs; }
    UnsignedHasTwoDigits(stream.text, stream.At());
    var td := stream.ReadUnsigned(1, 2);
    if stream.fail { return regs; }
    var Y := SetRegister(stream, regs.Y, tY as int, NOT_A_YEAR);
    var m := SetRegister(stream, regs.m, tm as int, NOT_A_MONTH);
    var d := SetRegister(stream, regs.d, td as int, NOT_A_DAY);
    r := regs.(Y := Y, m := m, d := d);
  }

  /** The reads of %T followed by its three `checked_set`s. */
  method ReadTime(stream: WideStream, regs: Registers) returns (r: Registers)
    requires stream.Valid()
    modifies stream
    ensures stream.Valid() && State(stream.At(), r) == TimeStep(stream.text, State(old(stream.At()), regs))
  {
    hide Unsigned, Literal, LongDecimal, CheckedSet, RoundToEven, Value, Pow10, AllDigits, DecimalOf;
    UnsignedHasTwoDigits(stream.text, stream.At());
    var tH := stream.ReadUnsigned(1, 2);
    if stream.fail { return regs; }
    stream.ReadLiteral(':');
    if stream.fail { return regs; }
    UnsignedHasTwoDigits(stream.text, stream.At());
    var tM := stream.ReadUnsigned(1, 2);
    if stream.fail { return regs; }
    stream.ReadLiteral(':');
    if stream.fail { return regs; }
    var S := stream.ReadLongDouble(1, 2);
    if stream.fail { return regs; }
    var H := SetRegister(stream, regs.H, tH as int, NOT_A_HOUR);
    var M := SetRegister(stream, regs.M, tM as int, NOT_A_MINUTE);
    var s := SetRegister(stream, regs.s, RoundToEven(S), NOT_A_SECOND);
    r := regs.(H := H, M := M, s := s);
  }

  /** The read of %G followed by its `checked_set`. */
  method ReadWeekYear(stream: WideStream, regs: Registers) returns (r: Registers)
    requires stream.Valid()
    modifies stream
    ensures stream.Valid() && State(stream.At(), r) == WeekYearStep(stream.text, State(old(stream.At()), regs))
  {
    hide Signed, CheckedSet;
    SignedHasFourDigits(stream.text, stream.At());
    var tG := stream.ReadSigned(1, 4);
    if stream.fail { return regs; }
    var G := SetRegister(stream, regs.G, tG as int, NOT_A_YEAR);
    r := regs.(G := G);
  }

  /** The read of %V followed by its `checked_set`. */
  method ReadWeek(stream: WideStream, regs: Registers) returns (r: Registers)
    requires stream.Valid()
    modifies stream
    ensures stream.Valid() && State(stream.At(), r) == WeekStep(stream.text, State(old(stream.At()), regs))
  {
    hide Unsigned, CheckedSet;
    UnsignedHasTwoDigits(stream.text, stream.At());
    var tV := stream.ReadUnsigned(1, 2);
    if stream.fail { return regs; }
    var V := SetRegister(stream, regs.V, tV as int, NOT_A_WEEK_NUM);
    r := regs.(V := V);
  }

  /** The read of %u, the check of its range, and its `checked_set`. */
  method ReadWeekday(stream: WideStream, regs: Registers) returns (r: Registers)
    requires stream.Valid()
    modifies stream
    ensures stream.Valid() && State(stream.At(), r) == WeekdayStep(stream.text, State(old(stream.At()), regs))
  {
    hide Unsigned, CheckedSet;
    UnsignedHasOneDigit(stream.text, stream.At());
    var trial := stream.ReadUnsigned(1, 1);
    if stream.fail { return regs; }
    if !(1 <= trial <= 7) {
      stream.fail := true;
      return regs;
    }
    if trial == 7 { trial := 0; }
    var wd := SetRegister(stream, regs.wd, trial as int, NOT_A_WEEKDAY);
    r := regs.(wd := wd);
  }

  method SetRegister(stream: WideStream, value: int, from: int, notAValue: int) returns (r: int)
    requires stream.Valid()
    modifies stream
    ensures stream.Valid() && Reading(stream.At(), r) == CheckedSet(old(stream.At()), value, from, notAValue)
  {
    r := value;
    if !stream.fail {
      if value == notAValue {
        r := from;
      } else if value != from {
        stream.fail := true;
      }
    }
  }

  /** `from_stream` over `fields`. */
  method ReadFields(stream: WideStream, fmt: string) returns (fields: Fields, broken: bool)
    requires stream.Valid() && Supported(fmt, 0, false)
    modifies stream
    ensures stream.Valid()
    ensures var st := Interpret(stream.text, fmt, 0, false, State(old(stream.At()), UNSET));
            WeekInRange(st.regs) &&
            if st.at.fail then stream.At() == st.at && !broken && fields == NO_FIELDS
            else if Assemble(st.regs) == None then stream.fail && broken
            else stream.At() == st.at && !broken && fields == Assemble(st.regs).value
  {
    hide DateStep, TimeStep, WeekYearStep, WeekStep, WeekdayStep, Literal, WeekInRange, Assemble;
    RangeOfUnset();
    InterpretKeepsRange(stream.text, fmt, 0, false, State(stream.At(), UNSET));
    fields, broken := NO_FIELDS, false;
    var regs := UNSET;
    var command := false;
    var i := 0;
    ghost var k := stream.At();
    while i < |fmt| && !stream.fail
      invariant stream.Valid() && 0 <= i <= |fmt| && Supported(fmt, i, command)
      invariant Interpret(stream.text, fmt, i, command, State(stream.At(), regs))
             == Interpret(stream.text, fmt, 0, false, State(k, UNSET))
      decreases |fmt| - i
    {
      match fmt[i] {
      case 'F' =>
        if command {
          regs := ReadDate(stream, regs);
          command := false;
        } else {
          stream.ReadLiteral('F');
        }
      case 'T' =>
        if command {
          regs := ReadTime(stream, regs);
          command := false;
        } else {
          stream.ReadLiteral('T');
        }
      case 'G' =>
        if command {
          regs := ReadWeekYear(stream, regs);
          command := false;
        } else {
          stream.ReadLiteral('G');
        }
      case 'V' =>
        if command {
          regs := ReadWeek(stream, regs);
          command := false;
        } else {
          stream.ReadLiteral('V');
        }
      case 'u' =>
        if command {
          regs := ReadWeekday(stream, regs);
          command := false;
        } else {
          stream.ReadLiteral('u');
        }
      case '%' =>
        if command {
          stream.ReadLiteral('%');
          command := false;
        } else {
          command := true;
        }
      case c =>
        stream.ReadLiteral(c);
      }
      i := i + 1;
    }
    if !stream.fail {
      match Assemble(regs)
      case Some(f) => fields := f;
      case None => broken, stream.fail := true, true;
    }
  }

  // ----- Literal characters -----

  /** A format that stands for a text itself: every '%' is doubled. */
  function LiteralFormat(s: string): string
    ensures forall k :: 0 <= k < |LiteralFormat(s)| ==> LiteralFormat(s)[k] in s
  {
    if s == "" then "" else (if s[0] == '%' then "%%" else [s[0]]) + LiteralFormat(s[1..])
  }

  lemma {:induction false} LiteralFormatIsSupported(s: string, fmt: string, i: nat)
    requires i <= |fmt| && fmt[i..] == LiteralFormat(s) && forall k :: 0 <= k < |s| ==> !IsSpace(s[k])
    ensures Supported(fmt, i, false)
    decreases s
  {
    if s != "" {
      var n := if s[0] == '%' then 2 else 1;
      assert fmt[i] == s[0] && fmt[i..][n..] == fmt[i + n..] == LiteralFormat(s[1..]);
      if n == 2 { assert fmt[i + 1] == fmt[i..][1] == '%'; }
      LiteralFormatIsSupported(s[1..], fmt, i + n);
    }
  }

  /** Literal characters, with %% for '%', read exactly themselves. */
  lemma {:induction false} LiteralFormatReads(text: string, s: string, fmt: string, i: nat, st: State)
    requires i <= |fmt| && fmt[i..] == LiteralFormat(s) && Supported(fmt, i, false)
    requires st.at.On(text) && st.at.Good()
    ensures var r := Interpret(text, fmt, i, false, st);
            && r.regs == st.regs
            && (!r.at.fail <==> s <= text[st.at.pos..])
            && (!r.at.fail ==> r.at == Cursor(st.at.pos + |s|, false, false))
    decreases s
  {
    hide DateStep, TimeStep, WeekYearStep, WeekStep, WeekdayStep;
    if s != "" {
      var n := if s[0] == '%' then 2 else 1;
      assert fmt[i] == s[0] && fmt[i..][n..] == fmt[i + n..] == LiteralFormat(s[1..]);
      if n == 2 { assert fmt[i + 1] == fmt[i..][1] == '%'; }
      var next := State(Literal(text, st.at, s[0]), st.regs);
      assert Interpret(text, fmt, i, false, st) == Interpret(text, fmt, i + n, false, next);
      StartsIff(text, st.at.pos, s);
      if !next.at.fail { LiteralFormatReads(text, s[1..], fmt, i + n, next); }
    }
  }

  lemma StartsIff(text: string, p: nat, s: string)
    requires p <= |text| && s != ""
    ensures s <= text[p..] <==> p < |text| && text[p] == s[0] && s[1..] <= text[p + 1..]
  {
    if p < |text| { assert text[p..] == [text[p]] + text[p + 1..] && s == [s[0]] + s[1..]; }
    if s <= text[p..] { assert text[p..][0] == s[0]; }
  }

  // ----- What any parse sets -----

  lemma RangeOfUnset()
    ensures WeekInRange(UNSET)
  {
  }

  /** No week-date directive from position i on. */
  predicate WithoutWeek(fmt: string, i: nat, command: bool)
    requires i <= |fmt|
    decreases |fmt| - i
  {
    i == |fmt| || (!(command && fmt[i] in "GVu") && WithoutWeek(fmt, i + 1, !command && fmt[i] == '%'))
  }

  /** Without week-date directives the week registers stay unset. */
  lemma {:induction false} InterpretKeepsWeek(text: string, fmt: string, i: nat, command: bool, st: State)
    requires i <= |fmt| && Supported(fmt, i, command) && WithoutWeek(fmt, i, command) && st.at.On(text)
    ensures var r := Interpret(text, fmt, i, command, st).regs; r.wd == st.regs.wd && r.G == st.regs.G && r.V == st.regs.V
    decreases |fmt| - i
  {
    hide Literal, DateStep, TimeStep;
    if i == |fmt| || st.at.fail {
    } else if command && fmt[i] == 'F' {
      DateKeepsWeek(text, st);
      InterpretKeepsWeek(text, fmt, i + 1, false, DateStep(text, st));
    } else if command && fmt[i] == 'T' {
      TimeKeepsWeek(text, st);
      InterpretKeepsWeek(text, fmt, i + 1, false, TimeStep(text, st));
    } else if !command && fmt[i] == '%' {
      InterpretKeepsWeek(text, fmt, i + 1, true, st);
    } else {
      InterpretKeepsWeek(text, fmt, i + 1, false, State(Literal(text, st.at, fmt[i]), st.regs));
    }
  }

  /** The exit at `broken` is taken for no text and no format without week-date directives. */
  lemma NeverBroken(text: string, fmt: string)
    requires Supported(fmt, 0, false) && WithoutWeek(fmt, 0, false)
    ensures Assemble(Interpreted(text, fmt).regs) != None
  {
    hide Interpret, ToDays, WeekdayFromDays, ToWeekDate;
    InterpretKeepsWeek(text, fmt, 0, false, START);
  }

  lemma SignedHasFourDigits(text: string, k: Cursor)
    requires k.On(text)
    ensures -9999 <= Signed(text, k, 1, 4).value <= 9999
  {
    hide Unsigned, Pow10;
    SmallPowers();
    UnsignedIsSmall(text, k, 1, 4);
    if k.pos < |text| { UnsignedIsSmall(text, Cursor(k.pos + 1, false, false), 1, 4); }
  }

  lemma UnsignedHasTwoDigits(text: string, k: Cursor)
    requires k.On(text)
    ensures 0 <= Unsigned(text, k, 1, 2).value < 100
  {
    hide Pow10;
    SmallPowers();
    UnsignedIsSmall(text, k, 1, 2);
  }

  lemma UnsignedHasOneDigit(text: string, k: Cursor)
    requires k.On(text)
    ensures 0 <= Unsigned(text, k, 1, 1).value < 10
  {
    hide Pow10;
    SmallPowers();
    UnsignedIsSmall(text, k, 1, 1);
  }

  /** A successful %F leaves a year of at most four digits and two-digit months and days. */
  lemma DateStepBounds(text: string, st: State)
    requires st.at.On(text) && st.regs == UNSET && !DateStep(text, st).at.fail
    ensures var r := DateStep(text, st).regs;
            r == UNSET.(Y := r.Y, m := r.m, d := r.d) && -9999 <= r.Y <= 9999 && 0 <= r.m < 100 && 0 <= r.d < 100
  {
    hide Signed, Unsigned, Literal;
    var y := Signed(text, st.at, 1, 4);
    SignedHasFourDigits(text, st.at);
    var k1 := Literal(text, y.at, '-');
    UnsignedHasTwoDigits(text, k1);
    var k2 := Literal(text, Unsigned(text, k1, 1, 2).at, '-');
    UnsignedHasTwoDigits(text, k2);
  }

  /** A successful %T leaves two-digit hours and minutes and keeps the date. */
  lemma TimeStepBounds(text: string, st: State)
    requires st.at.On(text) && !TimeStep(text, st).at.fail
    requires st.regs.H == NOT_A_HOUR && st.regs.M == NOT_A_MINUTE && st.regs.s == NOT_A_SECOND
    ensures var r := TimeStep(text, st).regs;
            r == st.regs.(H := r.H, M := r.M, s := r.s) && 0 <= r.H < 100 && 0 <= r.M < 100 && 0 <= r.s
  {
    hide Unsigned, Literal, LongDecimal, RoundDecimals;
    var h := Unsigned(text, st.at, 1, 2);
    UnsignedHasTwoDigits(text, st.at);
    UnsignedHasTwoDigits(text, Literal(text, h.at, ':'));
  }

  /** Registers in those bounds become a date and a time of day unchanged. */
  lemma AssembleInBounds(regs: Registers)
    requires regs.wd == NOT_A_WEEKDAY && regs.G == NOT_A_YEAR && regs.V == NOT_A_WEEK_NUM
    requires -9999 <= regs.Y <= 9999 && 0 <= regs.m < 100 && 0 <= regs.d < 100
    requires 0 <= regs.H < 100 && 0 <= regs.M < 100 && 0 <= regs.s
    ensures Assemble(regs).Some?
    ensures Assemble(regs).value.ymd == YearMonthDay(regs.Y as int16, regs.m as uint8, regs.d as uint8)
    ensures Assemble(regs).value.tod == HhMmSs(regs.H, regs.M, regs.s, false)
  {
    hide ToDays, WeekdayFromDays;
    assert regs.H * 3600 / 60 == regs.H * 60;
  }
}
