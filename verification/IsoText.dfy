/** Parsing a text as an ISO 8601 time: exactly which texts `FromSystemTime` accepts, where each part of a time stands in them,
    and what it means. */
module IsoText {
  import opened Machine
  import opened DecimalText
  import opened Calendar
  import opened TimeOfDay
  import opened WideInput
  import opened FromStream
  import opened WeekDates

  const ISO_FORMAT := "%FT%TZ"

  /** The second count a text parses to, or nothing. */
  function ParseTime(text: string): Option<int> {
    ParseSeconds(text, ISO_FORMAT)
  }

  // ----- The ISO format, directive by directive -----

  /** Interpreting the ISO format is reading a date, 'T', a time and 'Z', stopping at the first failure. */
  lemma InterpretIso(text: string)
    ensures var r := Interpret(text, ISO_FORMAT, 0, false, START);
            var date := DateStep(text, START);
            if date.at.fail then r == date else
            var k := Literal(text, date.at, 'T');
            if k.fail then r == State(k, date.regs) else
            var time := TimeStep(text, State(k, date.regs));
            if time.at.fail then r == time else r == State(Literal(text, time.at, 'Z'), time.regs)
  {
    hide DateStep, TimeStep, Literal;
    assert ISO_FORMAT == ['%', 'F', 'T', '%', 'T', 'Z'];
    var date := DateStep(text, START);
    assert Interpret(text, ISO_FORMAT, 0, false, START) == Interpret(text, ISO_FORMAT, 1, true, START);
    assert Interpret(text, ISO_FORMAT, 1, true, START) == Interpret(text, ISO_FORMAT, 2, false, date);
    var afterT := State(Literal(text, date.at, 'T'), date.regs);
    if !date.at.fail {
      assert Interpret(text, ISO_FORMAT, 2, false, date) == Interpret(text, ISO_FORMAT, 3, false, afterT);
      if !afterT.at.fail {
        assert Interpret(text, ISO_FORMAT, 3, false, afterT) == Interpret(text, ISO_FORMAT, 4, true, afterT);
        var time := TimeStep(text, afterT);
        assert Interpret(text, ISO_FORMAT, 4, true, afterT) == Interpret(text, ISO_FORMAT, 5, false, time);
      }
    }
  }

  // ----- Registers and seconds -----

  /** The second count that registers in bounds stand for, if their date exists and their time is conventional. */
  function SecondsOf(regs: Registers): Option<int>
    requires -9999 <= regs.Y <= 9999 && 0 <= regs.m < 100 && 0 <= regs.d < 100
  {
    var ymd := YearMonthDay(regs.Y as int16, regs.m as uint8, regs.d as uint8);
    if ymd.Ok() && regs.H < 24 && regs.M < 60 && regs.s < 60
    then Some(ToDays(ymd) as int * DAY + regs.H * 3600 + regs.M * 60 + regs.s)
    else None
  }

  predicate InBounds(regs: Registers) {
    && -9999 <= regs.Y <= 9999 && 0 <= regs.m < 100 && 0 <= regs.d < 100
    && 0 <= regs.H < 100 && 0 <= regs.M < 100 && 0 <= regs.s
  }

  /** The registers after the whole format, when every read succeeds. */
  function IsoRegisters(text: string): Option<Registers> {
    var date := DateStep(text, START);
    if date.at.fail then None else
    var k := Literal(text, date.at, 'T');
    if k.fail then None else
    var time := TimeStep(text, State(k, date.regs));
    if time.at.fail || Literal(text, time.at, 'Z').fail then None else Some(time.regs)
  }

  lemma IsoRegistersInBounds(text: string)
    ensures var r := IsoRegisters(text);
            r.Some? ==> InBounds(r.value) && r.value.wd == NOT_A_WEEKDAY && r.value.G == NOT_A_YEAR && r.value.V == NOT_A_WEEK_NUM
  {
    hide DateStep, TimeStep, Literal;
    var date := DateStep(text, START);
    if !date.at.fail {
      DateStepBounds(text, START);
      var k := Literal(text, date.at, 'T');
      if !k.fail && !TimeStep(text, State(k, date.regs)).at.fail {
        TimeStepBounds(text, State(k, date.regs));
      }
    }
  }

  /** A text parses to the seconds its registers stand for, and to nothing when a read fails, the date does not exist
      or the time of day is not conventional. */
  lemma ParseTimeIs(text: string)
    ensures var r := IsoRegisters(text);
            (r.Some? ==> InBounds(r.value)) && ParseTime(text) == if r.Some? then SecondsOf(r.value) else None
  {
    hide DateStep, TimeStep, Literal, Interpret, Assemble, ToDays;
    IsoRegistersInBounds(text);
    InterpretIso(text);
    var r := IsoRegisters(text);
    if r.Some? { AssembleInBounds(r.value); }
  }

  // ----- Where the parts of a time stand -----

  predicate NumberAt(text: string, p: nat, q: nat, width: nat) {
    p < q <= |text| && q - p <= width && forall j :: p <= j < q ==> DigitAt(text, j)
  }

  function NumberIn(text: string, p: nat, q: nat): nat
    requires p <= q <= |text| && forall j :: p <= j < q ==> DigitAt(text, j)
  {
    Value(Digits(text, p, q))
  }

  /** Seconds: one or two characters, digits and at most one decimal point. */
  predicate SecondsAt(text: string, p: nat, q: nat) {
    && p < q <= |text| && q - p <= 2
    && (forall j :: p <= j < q ==> DigitAt(text, j) || text[j] == '.')
    && (q == p + 2 ==> text[p] != '.' || text[p + 1] != '.')
  }

  /** Whole seconds; a tenth of a second is rounded away up to five tenths and counts as a second above. */
  function SecondsIn(text: string, p: nat, q: nat): nat
    requires SecondsAt(text, p, q)
  {
    if text[p] == '.' then (if q == p + 2 && '5' < Narrow(text[p + 1]) then 1 else 0)
    else if q == p + 2 && text[p + 1] == '.' then NumberIn(text, p, p + 1)
    else NumberIn(text, p, q)
  }

  /** Where the numbers of a time begin in a text, each behind its separator, and where the closing 'Z' is. */
  datatype Layout = Layout(year: nat, month: nat, day: nat, hour: nat, minute: nat, second: nat, end: nat) {
    predicate Describes(text: string) {
      && year < month < day < hour < minute < second < end < |text|
      && (year == 0 || (year == 1 && (Narrow(text[0]) == '-' || Narrow(text[0]) == '+')))
      && NumberAt(text, year, month - 1, 4) && text[month - 1] == '-'
      && NumberAt(text, month, day - 1, 2) && text[day - 1] == '-'
      && NumberAt(text, day, hour - 1, 2) && text[hour - 1] == 'T'
      && NumberAt(text, hour, minute - 1, 2) && text[minute - 1] == ':'
      && NumberAt(text, minute, second - 1, 2) && text[second - 1] == ':'
      && SecondsAt(text, second, end) && text[end] == 'Z'
    }

    function Registers(text: string): Registers
      requires Describes(text)
    {
      var y := NumberIn(text, year, month - 1);
      UNSET.(Y := if year == 1 && Narrow(text[0]) == '-' then 0 - y else y,
             m := NumberIn(text, month, day - 1), d := NumberIn(text, day, hour - 1),
             H := NumberIn(text, hour, minute - 1), M := NumberIn(text, minute, second - 1),
             s := SecondsIn(text, second, end))
    }
  }

  // ----- One read -----

  lemma UnsignedAt(text: string, p: nat, q: nat, width: nat)
    requires 1 <= width && NumberAt(text, p, q, width) && q < |text| && !DigitAt(text, q)
    ensures Unsigned(text, Cursor(p, false, false), 1, width) == Reading(Cursor(q, false, false), NumberIn(text, p, q))
  {
    hide Value, Digits;
    DigitRunIs(text, p, width, q - p);
  }

  /** A number that was read in front of more text stands where it was read, and nothing follows that it could have taken. */
  lemma UnsignedStands(text: string, k: Cursor, width: nat)
    requires k.On(text) && 1 <= width && !Unsigned(text, k, 1, width).at.fail
    ensures var r := Unsigned(text, k, 1, width);
            k.Good() && NumberAt(text, k.pos, r.at.pos, width) && r.value == NumberIn(text, k.pos, r.at.pos)
  {
    hide Value, Digits;
  }

  lemma LiteralStands(text: string, k: Cursor, c: char)
    requires k.On(text)
    ensures !Literal(text, k, c).fail <==> k.Good() && k.pos < |text| && text[k.pos] == c
    ensures !Literal(text, k, c).fail ==> Literal(text, k, c) == Cursor(k.pos + 1, false, false)
  {
  }

  lemma SignedAt(text: string, y: nat, q: nat)
    requires y == 0 || (y == 1 && text != "" && (Narrow(text[0]) == '-' || Narrow(text[0]) == '+'))
    requires NumberAt(text, y, q, 4) && q < |text| && !DigitAt(text, q)
    ensures var n := NumberIn(text, y, q);
            Signed(text, START.at, 1, 4)
            == Reading(Cursor(q, false, false), if y == 1 && Narrow(text[0]) == '-' then 0 - n else n)
  {
    hide Value, Digits, DigitRun, Unsigned, Narrow;
    UnsignedAt(text, y, q, 4);
    if y == 0 { assert DigitAt(text, 0); }
  }

  lemma SignedStands(text: string)
    requires !Signed(text, START.at, 1, 4).at.fail
    ensures var r := Signed(text, START.at, 1, 4);
            var y := if DigitAt(text, 0) then 0 else 1;
            && text != "" && (y == 0 || Narrow(text[0]) == '-' || Narrow(text[0]) == '+')
            && NumberAt(text, y, r.at.pos, 4)
            && r.value == if y == 1 && Narrow(text[0]) == '-' then 0 - NumberIn(text, y, r.at.pos)
                          else NumberIn(text, y, r.at.pos)
  {
    hide Value, Digits, DigitRun, Unsigned, Narrow;
    if text != "" {
      var y := if DigitAt(text, 0) then 0 else 1;
      if !Unsigned(text, Cursor(y, false, false), 1, 4).at.fail { UnsignedStands(text, Cursor(y, false, false), 4); }
    }
  }

  // ----- Seconds -----

  /** The characters and the digits that a read of seconds takes. */
  lemma SecondsRun(text: string, p: nat, q: nat)
    requires SecondsAt(text, p, q) && q < |text| && !DigitAt(text, q) && text[q] != '.'
    ensures var d := DecimalRun(text, p, 2, false);
            && d.length == q - p
            && (text[p] == '.' ==> d.whole == "" && d.fraction == if q == p + 1 then "" else [Narrow(text[p + 1])])
            && (text[p] != '.' && q == p + 2 && text[p + 1] == '.' ==> d.whole == Digits(text, p, p + 1) && d.fraction == "")
            && (text[p] != '.' && !(q == p + 2 && text[p + 1] == '.') ==> d.whole == Digits(text, p, q) && d.fraction == "")
  {
    hide Narrow, NarrowText;
    OneCharacter(text, p + 1, text[p] == '.');
    assert DecimalRun(text, p + 1, 1, text[p] == '.').length == q - p - 1;
    if text[p] != '.' {
      assert Digits(text, p, p + 1) == [Narrow(text[p])] by { DigitsAre(text, p, p + 1); }
      if q == p + 2 && text[p + 1] != '.' {
        assert Digits(text, p, q) == [Narrow(text[p]), Narrow(text[p + 1])] by { DigitsAre(text, p, q); }
      }
    }
  }

  lemma DigitsAre(text: string, p: nat, q: nat)
    requires p <= q <= |text| && forall j :: p <= j < q ==> DigitAt(text, j)
    ensures forall j :: 0 <= j < q - p ==> Digits(text, p, q)[j] == Narrow(text[p + j])
  {
  }

  lemma OneCharacter(text: string, p: nat, pointSeen: bool)
    requires p <= |text|
    ensures DecimalRun(text, p, 1, pointSeen) ==
            if p < |text| && text[p] == '.' && !pointSeen then Decimals(1, "", "")
            else if !DigitAt(text, p) then Decimals(0, "", "")
            else if pointSeen then Decimals(1, "", [Narrow(text[p])])
            else Decimals(1, [Narrow(text[p])], "")
  {
    hide Narrow;
    if p < |text| {
      assert DecimalRun(text, p + 1, 0, true) == DecimalRun(text, p + 1, 0, false) == Decimals(0, "", "");
    }
  }

  lemma WholeSeconds(length: nat, digits: string)
    requires AllDigits(digits) && |digits| <= 2
    ensures RoundDecimals(Decimals(length, digits, "")) == Value(digits)
  {
    SmallPowers();
    ValueBound(digits);
    Pow10IsMonotone(|digits|, 2);
    hide Pow10;
    assert Value("") == 0;
    assert DecimalOf(Decimals(length, digits, "")) == Value(digits) as real;
  }

  /** A tenth is rounded to the nearer second, five tenths to the even one. */
  lemma TenthsRound(c: char)
    requires IsDigit(c)
    ensures RoundDecimals(Decimals(2, "", [c])) == if '5' < c then 1 else 0
  {
    SmallPowers();
    ValueOfNothing();
    ValueOfAppend("", c);
    assert "" + [c] == [c];
    hide Value, Pow10, RoundToEven;
    var v := c as int - '0' as int;
    assert DecimalOf(Decimals(2, "", [c])) == v as real / 10.0;
  }

  lemma SecondsRead(text: string, p: nat, q: nat)
    requires SecondsAt(text, p, q) && q < |text| && !DigitAt(text, q) && text[q] != '.'
    ensures LongDecimal(text, Cursor(p, false, false), 1, 2).at == Cursor(q, false, false)
    ensures RoundDecimals(LongDecimal(text, Cursor(p, false, false), 1, 2).value) == SecondsIn(text, p, q)
  {
    hide RoundDecimals, Value, DecimalRun, Digits, Narrow;
    SecondsRun(text, p, q);
    var d := DecimalRun(text, p, 2, false);
    if d.fraction == "" {
      WholeSeconds(d.length, d.whole);
      ValueOfNothing();
    } else {
      TenthsRound(d.fraction[0]);
    }
  }

  lemma SecondsStand(text: string, k: Cursor)
    requires k.On(text) && !LongDecimal(text, k, 1, 2).at.fail
    ensures k.Good() && SecondsAt(text, k.pos, LongDecimal(text, k, 1, 2).at.pos)
  {
    hide Narrow;
    if k.Good() && k.pos < |text| { OneCharacter(text, k.pos + 1, text[k.pos] == '.'); }
  }

  // ----- The whole text -----

  lemma DateAt(text: string, l: Layout)
    requires l.Describes(text)
    ensures var r := l.Registers(text);
            DateStep(text, START) == State(Cursor(l.hour - 1, false, false), UNSET.(Y := r.Y, m := r.m, d := r.d))
  {
    hide Signed, Unsigned, Literal, NumberIn, Narrow;
    SeparatorIsNoDigit();
    SignedAt(text, l.year, l.month - 1);
    LiteralStands(text, Cursor(l.month - 1, false, false), '-');
    UnsignedAt(text, l.month, l.day - 1, 2);
    LiteralStands(text, Cursor(l.day - 1, false, false), '-');
    UnsignedAt(text, l.day, l.hour - 1, 2);
  }

  lemma SeparatorIsNoDigit()
    ensures forall c <- "-T:Z" :: !IsDigit(Narrow(c)) && c != '.'
  {
  }

  lemma TimeAt(text: string, l: Layout, regs: Registers)
    requires l.Describes(text) && regs.H == NOT_A_HOUR && regs.M == NOT_A_MINUTE && regs.s == NOT_A_SECOND
    ensures var r := l.Registers(text);
            TimeStep(text, State(Cursor(l.hour, false, false), regs))
            == State(Cursor(l.end, false, false), regs.(H := r.H, M := r.M, s := r.s))
  {
    hide LongDecimal, Unsigned, Literal, NumberIn, Narrow, RoundDecimals, SecondsIn;
    SeparatorIsNoDigit();
    UnsignedAt(text, l.hour, l.minute - 1, 2);
    LiteralStands(text, Cursor(l.minute - 1, false, false), ':');
    UnsignedAt(text, l.minute, l.second - 1, 2);
    LiteralStands(text, Cursor(l.second - 1, false, false), ':');
    SecondsRead(text, l.second, l.end);
  }

  /** A text with the parts of a time at their places parses to the seconds they stand for, whatever follows the 'Z'. */
  lemma LayoutParses(text: string, l: Layout)
    requires l.Describes(text)
    ensures IsoRegisters(text) == Some(l.Registers(text))
    ensures InBounds(l.Registers(text)) && ParseTime(text) == SecondsOf(l.Registers(text))
  {
    hide DateStep, TimeStep, Literal, ParseTime, SecondsOf, InBounds;
    DateAt(text, l);
    var date := DateStep(text, START);
    LiteralStands(text, date.at, 'T');
    TimeAt(text, l, date.regs);
    LiteralStands(text, Cursor(l.end, false, false), 'Z');
    ParseTimeIs(text);
  }

  lemma DateStands(text: string) returns (l: Layout)
    requires !DateStep(text, START).at.fail
    ensures var p := DateStep(text, START).at.pos;
            && l.year < l.month < l.day < p
            && (l.year == 0 || (l.year == 1 && (Narrow(text[0]) == '-' || Narrow(text[0]) == '+')))
            && NumberAt(text, l.year, l.month - 1, 4) && text[l.month - 1] == '-'
            && NumberAt(text, l.month, l.day - 1, 2) && text[l.day - 1] == '-'
            && NumberAt(text, l.day, p, 2)
  {
    hide Signed, Unsigned, Literal, Narrow, NumberIn;
    var y := Signed(text, START.at, 1, 4);
    SignedStands(text);
    LiteralStands(text, y.at, '-');
    var k1 := Literal(text, y.at, '-');
    var m := Unsigned(text, k1, 1, 2);
    UnsignedStands(text, k1, 2);
    LiteralStands(text, m.at, '-');
    var k2 := Literal(text, m.at, '-');
    UnsignedStands(text, k2, 2);
    l := Layout(if DigitAt(text, 0) then 0 else 1, k1.pos, k2.pos, 0, 0, 0, 0);
  }

  lemma TimeStands(text: string, st: State) returns (minute: nat, second: nat)
    requires st.at.On(text) && !TimeStep(text, st).at.fail
    requires st.regs.H == NOT_A_HOUR && st.regs.M == NOT_A_MINUTE && st.regs.s == NOT_A_SECOND
    ensures var p := TimeStep(text, st).at.pos;
            && st.at.pos < minute < second < p
            && NumberAt(text, st.at.pos, minute - 1, 2) && text[minute - 1] == ':'
            && NumberAt(text, minute, second - 1, 2) && text[second - 1] == ':'
            && SecondsAt(text, second, p)
  {
    hide Unsigned, Literal, LongDecimal, Narrow, NumberIn, RoundDecimals;
    var h := Unsigned(text, st.at, 1, 2);
    UnsignedStands(text, st.at, 2);
    LiteralStands(text, h.at, ':');
    var k1 := Literal(text, h.at, ':');
    var m := Unsigned(text, k1, 1, 2);
    UnsignedStands(text, k1, 2);
    LiteralStands(text, m.at, ':');
    var k2 := Literal(text, m.at, ':');
    SecondsStand(text, k2);
    minute, second := k1.pos, k2.pos;
  }

  /** Nothing else is read: a text whose reads all succeed has the parts of a time at their places. */
  lemma ReadsHaveLayout(text: string) returns (l: Layout)
    requires IsoRegisters(text).Some?
    ensures l.Describes(text)
  {
    hide DateStep, TimeStep, Literal, Narrow;
    var date := DateStep(text, START);
    l := DateStands(text);
    DateStepBounds(text, START);
    LiteralStands(text, date.at, 'T');
    var st := State(Literal(text, date.at, 'T'), date.regs);
    var minute, second := TimeStands(text, st);
    var time := TimeStep(text, st);
    LiteralStands(text, time.at, 'Z');
    l := Layout(l.year, l.month, l.day, st.at.pos, minute, second, time.at.pos);
  }

  ghost predicate Names(l: Layout, text: string, t: int) {
    l.Describes(text) && InBounds(l.Registers(text)) && SecondsOf(l.Registers(text)) == Some(t)
  }

  /** A text parses to a second if and only if the parts of a time are at their places in it and name that second. */
  lemma ParsesIff(text: string, t: int)
    ensures ParseTime(text) == Some(t) <==> exists l: Layout :: Names(l, text, t)
  {
    hide IsoRegisters, ParseTime, SecondsOf;
    if l: Layout :| Names(l, text, t) {
      LayoutParses(text, l);
    } else if ParseTime(text) == Some(t) {
      ParseTimeIs(text);
      var l := ReadsHaveLayout(text);
      LayoutParses(text, l);
      assert Names(l, text, t);
    }
  }

  // ----- Texts put together from parts -----

  /** What is left of a text at a position. */
  predicate Left(text: string, p: nat, rest: string) {
    p <= |text| && text[p..] == rest
  }

  lemma LeftAfter(text: string, p: nat, piece: string, rest: string)
    requires Left(text, p, piece + rest)
    ensures Left(text, p + |piece|, rest)
    ensures forall j :: 0 <= j < |piece| ==> text[p + j] == piece[j]
    ensures rest != "" ==> p + |piece| < |text| && text[p + |piece|] == rest[0]
  {
    assert text[p..][|piece|..] == rest;
    assert forall j :: 0 <= j < |piece| ==> text[p..][j] == piece[j];
    assert rest != "" ==> text[p..][|piece|] == rest[0];
  }

  lemma PieceIsDigitRun(text: string, p: nat, digits: string, rest: string)
    requires Left(text, p, digits + rest) && AllDigits(digits)
    ensures p + |digits| <= |text| && forall j :: p <= j < p + |digits| ==> DigitAt(text, j)
    ensures Digits(text, p, p + |digits|) == digits
  {
    LeftAfter(text, p, digits, rest);
    forall j | p <= j < p + |digits| ensures DigitAt(text, j) && Narrow(text[j]) == digits[j - p] {
      assert text[p + (j - p)] == digits[j - p] && IsDigit(digits[j - p]);
    }
  }

  lemma ReadsLiteral(text: string, p: nat, c: char, rest: string)
    requires Left(text, p, [c] + rest)
    ensures Literal(text, Cursor(p, false, false), c) == Cursor(p + 1, false, false)
    ensures p < |text| && text[p] == c && Left(text, p + 1, rest)
  {
    LeftAfter(text, p, [c], rest);
  }

  lemma NumberThere(text: string, p: nat, digits: string, rest: string, width: nat)
    requires Left(text, p, digits + rest) && IsNumber(digits, width)
    ensures NumberAt(text, p, p + |digits|, width) && NumberIn(text, p, p + |digits|) == Value(digits)
    ensures Left(text, p + |digits|, rest)
  {
    hide Value, DigitAt, Digits;
    PieceIsDigitRun(text, p, digits, rest);
    LeftAfter(text, p, digits, rest);
  }

  /** The pieces of an ISO 8601 date and time of day. */
  datatype IsoParts = IsoParts(sign: string, year: string, month: string, day: string,
                               hour: string, minute: string, second: string) {
    /** Digits throughout: one to four for the year, one or two for the rest, and an optional sign. */
    predicate WellFormed() {
      && IsSign(sign) && IsNumber(year, 4) && IsNumber(month, 2) && IsNumber(day, 2)
      && IsNumber(hour, 2) && IsNumber(minute, 2) && IsNumber(second, 2)
    }

    function Clock(tail: string): string
    {
      "T" + (hour + (":" + (minute + (":" + (second + ("Z" + tail))))))
    }

    /** The text, followed by anything. */
    function Text(tail: string): string {
      sign + (year + ("-" + (month + ("-" + (day + Clock(tail))))))
    }

    function Registers(): Registers
      requires WellFormed()
    {
      UNSET.(Y := if sign == "-" then 0 - Value(year) else Value(year), m := Value(month), d := Value(day),
             H := Value(hour), M := Value(minute), s := Value(second))
    }
  }

  predicate IsSign(s: string) { s == "" || s == "-" || s == "+" }

  predicate IsNumber(s: string, width: nat) { AllDigits(s) && 1 <= |s| <= width }

  lemma FourthDigitIsNotLast(text: string, p: nat, year: string, rest: string)
    requires Left(text, p, year + rest) && AllDigits(year) && 5 <= |year|
    ensures p + 4 < |text| && DigitAt(text, p) && IsDigit(text[p + 4])
    ensures var r := Unsigned(text, Cursor(p, false, false), 1, 4);
            r.at == Cursor(p + 4, false, false) && Literal(text, r.at, '-').fail
  {
    hide Value, Digits;
    PieceIsDigitRun(text, p, year, rest);
    DigitRunIs(text, p, 4, 4);
    LeftAfter(text, p, year, rest);
    assert text[p + 4] == year[4];
  }

  /** Every part but the seconds is well formed, and the seconds may have a decimal point. */
  predicate IsTime(parts: IsoParts) {
    parts.(second := "0").WellFormed() && SecondsAt(parts.second, 0, |parts.second|)
  }

  function TimeRegisters(parts: IsoParts): Registers
    requires IsTime(parts)
  {
    parts.(second := "0").Registers().(s := SecondsIn(parts.second, 0, |parts.second|))
  }

  function LayoutOf(parts: IsoParts): Layout {
    var month := |parts.sign| + |parts.year| + 1;
    var day := month + |parts.month| + 1;
    var hour := day + |parts.day| + 1;
    var minute := hour + |parts.hour| + 1;
    var second := minute + |parts.minute| + 1;
    Layout(|parts.sign|, month, day, hour, minute, second, second + |parts.second|)
  }

  lemma DateHasLayout(parts: IsoParts, text: string, clock: string)
    requires parts.(second := "0").WellFormed()
    requires text == parts.sign + (parts.year + ("-" + (parts.month + ("-" + (parts.day + clock)))))
    ensures var l := LayoutOf(parts);
            && l.hour - 1 <= |text| && Left(text, l.hour - 1, clock)
            && (parts.sign != "" ==> l.year == 1 && Narrow(text[0]) == parts.sign[0])
            && NumberAt(text, l.year, l.month - 1, 4) && text[l.month - 1] == '-'
            && NumberAt(text, l.month, l.day - 1, 2) && text[l.day - 1] == '-' && NumberAt(text, l.day, l.hour - 1, 2)
            && NumberIn(text, l.year, l.month - 1) == Value(parts.year)
            && NumberIn(text, l.month, l.day - 1) == Value(parts.month)
            && NumberIn(text, l.day, l.hour - 1) == Value(parts.day)
  {
    hide Value, NumberAt, NumberIn, IsNumber, IsSign, Left, Literal, Narrow;
    var l := LayoutOf(parts);
    var s3 := parts.day + clock;
    var s2 := parts.month + ("-" + s3);
    SignThere(text, parts.sign, parts.year + ("-" + s2));
    NumberThere(text, l.year, parts.year, "-" + s2, 4);
    ReadsLiteral(text, l.month - 1, '-', s2);
    NumberThere(text, l.month, parts.month, "-" + s3, 2);
    ReadsLiteral(text, l.day - 1, '-', s3);
    NumberThere(text, l.day, parts.day, clock, 2);
  }

  lemma SignThere(text: string, sign: string, rest: string)
    requires text == sign + rest && IsSign(sign)
    ensures Left(text, |sign|, rest) && (sign != "" ==> |sign| == 1 && Narrow(text[0]) == sign[0])
  {
  }

  lemma ClockHasLayout(parts: IsoParts, text: string, p: nat, tail: string)
    requires IsTime(parts) && LayoutOf(parts).hour == p + 1 && Left(text, p, parts.Clock(tail))
    ensures var l := LayoutOf(parts);
            && l.second < l.end < |text| && text[p] == 'T'
            && NumberAt(text, l.hour, l.minute - 1, 2) && text[l.minute - 1] == ':'
            && NumberAt(text, l.minute, l.second - 1, 2) && text[l.second - 1] == ':'
            && SecondsAt(text, l.second, l.end) && text[l.end] == 'Z'
            && NumberIn(text, l.hour, l.minute - 1) == Value(parts.hour)
            && NumberIn(text, l.minute, l.second - 1) == Value(parts.minute)
            && SecondsIn(text, l.second, l.end) == SecondsIn(parts.second, 0, |parts.second|)
  {
    hide Value, NumberAt, NumberIn, IsNumber, Left, Literal, SecondsIn, SecondsAt;
    var l := LayoutOf(parts);
    assert parts.second != "" by { SecondsNotEmpty(parts.second); }
    var s3 := parts.second + ("Z" + tail);
    var s2 := parts.minute + (":" + s3);
    var s1 := parts.hour + (":" + s2);
    ReadsLiteral(text, p, 'T', s1);
    NumberThere(text, l.hour, parts.hour, ":" + s2, 2);
    ReadsLiteral(text, l.minute - 1, ':', s2);
    NumberThere(text, l.minute, parts.minute, ":" + s3, 2);
    ReadsLiteral(text, l.second - 1, ':', s3);
    SecondsThere(text, l.second, parts.second, "Z" + tail);
    ReadsLiteral(text, l.end, 'Z', tail);
  }

  lemma SecondsNotEmpty(seconds: string)
    requires SecondsAt(seconds, 0, |seconds|)
    ensures seconds != ""
  {
  }

  lemma SecondsThere(text: string, p: nat, seconds: string, rest: string)
    requires Left(text, p, seconds + rest) && SecondsAt(seconds, 0, |seconds|)
    ensures SecondsAt(text, p, p + |seconds|) && SecondsIn(text, p, p + |seconds|) == SecondsIn(seconds, 0, |seconds|)
    ensures Left(text, p + |seconds|, rest)
  {
    LeftAfter(text, p, seconds, rest);
    hide Value, Narrow, Left;
    var q := p + |seconds|;
    assert forall j :: 0 <= j < |seconds| ==> text[p + j] == seconds[j];
    assert forall j :: p <= j < q ==> text[j] == seconds[j - p];
    SameNumber(text, p, seconds, 1);
    SameNumber(text, p, seconds, |seconds|);
  }

  lemma SameNumber(text: string, p: nat, piece: string, n: nat)
    requires n <= |piece| && p + |piece| <= |text| && forall j :: 0 <= j < n ==> text[p + j] == piece[j]
    ensures (forall j :: p <= j < p + n ==> DigitAt(text, j)) <==> (forall j :: 0 <= j < n ==> DigitAt(piece, j))
    ensures (forall j :: 0 <= j < n ==> DigitAt(piece, j)) ==> NumberIn(text, p, p + n) == NumberIn(piece, 0, n)
  {
    hide Value;
    assert forall j :: p <= j < p + n ==> text[j] == piece[j - p];
    assert forall j :: 0 <= j < n ==> DigitAt(piece, j) == DigitAt(text, p + j);
    if forall j :: 0 <= j < n ==> DigitAt(piece, j) {
      forall j | p <= j < p + n ensures DigitAt(text, j) { assert DigitAt(piece, j - p); }
      assert Digits(text, p, p + n) == Digits(piece, 0, n);
    }
  }

  lemma TextHasLayout(parts: IsoParts, tail: string)
    requires IsTime(parts)
    ensures LayoutOf(parts).Describes(parts.Text(tail))
    ensures LayoutOf(parts).Registers(parts.Text(tail)) == TimeRegisters(parts)
  {
    hide Value, NumberAt, NumberIn, IsNumber, Left, SecondsIn, SecondsAt, Narrow, IsoParts.Clock;
    assert parts.sign != "" ==> parts.sign[0] == '-' || parts.sign[0] == '+';
    DateHasLayout(parts, parts.Text(tail), parts.Clock(tail));
    ClockHasLayout(parts, parts.Text(tail), LayoutOf(parts).hour - 1, tail);
  }

  /** Every text of that shape, padded or not, with or without a sign and whatever follows, parses to the seconds its
      numbers stand for, or to nothing when they name no date or no conventional time of day. */
  lemma ParsesIsoText(parts: IsoParts, tail: string)
    requires parts.WellFormed()
    ensures InBounds(parts.Registers()) && ParseTime(parts.Text(tail)) == SecondsOf(parts.Registers())
  {
    hide ParseTime, InBounds, SecondsOf, NumberIn, IsoParts.Text, IsTime, TimeRegisters, LayoutOf, Layout.Describes,
         Layout.Registers;
    WellFormedIsTime(parts);
    TextHasLayout(parts, tail);
    LayoutParses(parts.Text(tail), LayoutOf(parts));
  }

  lemma WellFormedIsTime(parts: IsoParts)
    requires parts.WellFormed()
    ensures IsTime(parts) && TimeRegisters(parts) == parts.Registers()
  {
    hide Value, SecondsIn, SecondsAt;
    WholeSecondsAt(parts.second);
  }

  lemma WholeSecondsAt(seconds: string)
    requires IsNumber(seconds, 2)
    ensures SecondsAt(seconds, 0, |seconds|) && SecondsIn(seconds, 0, |seconds|) == Value(seconds)
  {
    hide Value, Digits, NarrowText;
    assert seconds[0..] == seconds && seconds + "" == seconds && Left(seconds, 0, seconds + "");
    PieceIsDigitRun(seconds, 0, seconds, "");
  }

  /** Seconds with a decimal point: a tenth counts as the nearer second, five tenths as none, and a point after a digit or alone
      adds nothing. */
  lemma PointInSeconds(parts: IsoParts, d: char, tail: string)
    requires parts.WellFormed() && IsDigit(d)
    ensures ParseTime(parts.(second := "." + [d]).Text(tail))
            == ParseTime(parts.(second := if d <= '5' then "0" else "1").Text(tail))
    ensures ParseTime(parts.(second := [d] + ".").Text(tail)) == ParseTime(parts.(second := [d]).Text(tail))
    ensures ParseTime(parts.(second := ".").Text(tail)) == ParseTime(parts.(second := "0").Text(tail))
  {
    hide ParseTime, InBounds, SecondsOf, IsoParts.Text, Value;
    PointSeconds(d);
    assert parts.(second := "." + [d]).(second := "0") == parts.(second := "0");
    ParsesAsWhole(parts, "." + [d], if d <= '5' then "0" else "1", tail);
    ParsesAsWhole(parts, [d] + ".", [d], tail);
    ParsesAsWhole(parts, ".", "0", tail);
  }

  lemma ParsesAsWhole(parts: IsoParts, seconds: string, whole: string, tail: string)
    requires parts.WellFormed() && IsNumber(whole, 2)
    requires SecondsAt(seconds, 0, |seconds|) && SecondsIn(seconds, 0, |seconds|) == Value(whole)
    ensures ParseTime(parts.(second := seconds).Text(tail)) == ParseTime(parts.(second := whole).Text(tail))
  {
    hide ParseTime, InBounds, SecondsOf, IsoParts.Text, Value, SecondsIn, SecondsAt, IsNumber;
    WholeSecondsAt(whole);
    var p, q := parts.(second := seconds), parts.(second := whole);
    assert p.(second := "0") == q.(second := "0") == parts.(second := "0");
    ZeroIsNumber();
    TextHasLayout(p, tail);
    LayoutParses(p.Text(tail), LayoutOf(p));
    TextHasLayout(q, tail);
    LayoutParses(q.Text(tail), LayoutOf(q));
  }

  lemma ZeroIsNumber()
    ensures IsNumber("0", 2)
  {
  }

  lemma PointSeconds(d: char)
    requires IsDigit(d)
    ensures SecondsAt("." + [d], 0, 2) && SecondsIn("." + [d], 0, 2) == Value(if d <= '5' then "0" else "1")
    ensures SecondsAt([d] + ".", 0, 2) && SecondsIn([d] + ".", 0, 2) == Value([d])
    ensures SecondsAt(".", 0, 1) && SecondsIn(".", 0, 1) == Value("0")
  {
    ValueOfAppend("", '0');
    ValueOfAppend("", '1');
    assert "" + ['0'] == "0" && "" + ['1'] == "1";
    assert Digits([d] + ".", 0, 1) == [d];
    hide Value;
  }

  // ----- Texts of ordinary characters -----

  predicate IsNarrow(text: string) { forall k :: 0 <= k < |text| ==> text[k] < 0x100 as char }

  lemma NarrowIsSame(c: char)
    requires c < 0x100 as char
    ensures Narrow(c) == c
  {
  }

  lemma NumberIsDigits(text: string, p: nat, q: nat, width: nat)
    requires IsNarrow(text) && NumberAt(text, p, q, width)
    ensures IsNumber(text[p..q], width)
  {
    hide Narrow;
    forall k | 0 <= k < q - p ensures IsDigit(text[p..q][k]) {
      assert DigitAt(text, p + k);
      NarrowIsSame(text[p + k]);
    }
  }

  lemma SecondsAreDigits(text: string, p: nat, q: nat)
    requires IsNarrow(text) && '.' !in text && SecondsAt(text, p, q)
    ensures IsNumber(text[p..q], 2)
  {
    hide DigitAt;
    assert forall j :: p <= j < q ==> text[j] in text;
    NumberIsDigits(text, p, q, 2);
  }

  /** A text is a piece of it, a separator and the rest. */
  lemma CutAt(text: string, p: nat, q: nat, c: char)
    requires p <= q < |text| && text[q] == c
    ensures text[p..] == text[p..q] + ([c] + text[q + 1..])
  {
  }

  function PartsIn(text: string, l: Layout): IsoParts
    requires l.Describes(text)
  {
    IsoParts(text[..l.year], text[l.year..l.month - 1], text[l.month..l.day - 1], text[l.day..l.hour - 1],
             text[l.hour..l.minute - 1], text[l.minute..l.second - 1], text[l.second..l.end])
  }

  lemma PartsAreWellFormed(text: string, l: Layout)
    requires l.Describes(text) && IsNarrow(text) && '.' !in text
    ensures PartsIn(text, l).WellFormed()
  {
    hide NumberAt, SecondsAt, IsNumber, Narrow;
    NumberIsDigits(text, l.year, l.month - 1, 4);
    NumberIsDigits(text, l.month, l.day - 1, 2);
    NumberIsDigits(text, l.day, l.hour - 1, 2);
    NumberIsDigits(text, l.hour, l.minute - 1, 2);
    NumberIsDigits(text, l.minute, l.second - 1, 2);
    SecondsAreDigits(text, l.second, l.end);
    NarrowIsSame(text[0]);
    assert l.year == 1 ==> text[..1] == [text[0]];
  }

  lemma PartsMakeText(text: string, l: Layout)
    requires l.Describes(text)
    ensures text == PartsIn(text, l).Text(text[l.end + 1..])
  {
    hide IsoParts.Clock, IsoParts.Text, Layout.Describes, PartsIn;
    LayoutIsOrdered(text, l);
    SignAndRest(text, l);
    YearAndRest(text, l);
    MonthAndRest(text, l);
    DayAndRest(text, l);
    NestDate(PartsIn(text, l), text[l.end + 1..], text[l.year..], text[l.month..], text[l.day..]);
  }

  lemma SignAndRest(text: string, l: Layout)
    requires l.Describes(text)
    ensures text == PartsIn(text, l).sign + text[l.year..]
  {
    CutStart(text, l.year);
  }

  lemma YearAndRest(text: string, l: Layout)
    requires l.Describes(text)
    ensures text[l.year..] == PartsIn(text, l).year + ("-" + text[l.month..])
  {
    hide NumberAt, SecondsAt, Narrow;
    CutAt(text, l.year, l.month - 1, '-');
  }

  lemma MonthAndRest(text: string, l: Layout)
    requires l.Describes(text)
    ensures text[l.month..] == PartsIn(text, l).month + ("-" + text[l.day..])
  {
    CutAt(text, l.month, l.day - 1, '-');
  }

  lemma DayAndRest(text: string, l: Layout)
    requires l.Describes(text)
    ensures text[l.day..] == PartsIn(text, l).day + PartsIn(text, l).Clock(text[l.end + 1..])
  {
    hide IsoParts.Clock;
    ClockIsRest(text, l);
    CutBefore(text, l.day, l.hour);
  }

  lemma LayoutIsOrdered(text: string, l: Layout)
    requires l.Describes(text)
    ensures l.year < l.month < l.day < l.hour < l.minute < l.second < l.end < |text|
    ensures text[l.month - 1] == '-' && text[l.day - 1] == '-' && text[l.hour - 1] == 'T'
    ensures text[l.minute - 1] == ':' && text[l.second - 1] == ':' && text[l.end] == 'Z'
  {
  }

  lemma StartsWith(text: string, p: nat, rest: string)
    requires p <= |text| && text[p..] == text[p..p] + rest
    ensures text[p..] == rest
  {
  }

  lemma CutStart(text: string, p: nat)
    requires p <= |text|
    ensures text == text[..p] + text[p..]
  {
  }

  lemma CutBefore(text: string, p: nat, q: nat)
    requires p < q <= |text|
    ensures text[p..] == text[p..q - 1] + text[q - 1..]
  {
  }

  lemma ClockIsRest(text: string, l: Layout)
    requires l.Describes(text)
    ensures text[l.hour - 1..] == PartsIn(text, l).Clock(text[l.end + 1..])
  {
    hide Layout.Describes, PartsIn, IsoParts.Clock;
    LayoutIsOrdered(text, l);
    HourAndRest(text, l);
    MinuteAndRest(text, l);
    SecondAndRest(text, l);
    CutAt(text, l.hour - 1, l.hour - 1, 'T');
    StartsWith(text, l.hour - 1, "T" + text[l.hour..]);
    NestClock(PartsIn(text, l), text[l.end + 1..], text[l.hour..], text[l.minute..], text[l.second..]);
  }

  lemma HourAndRest(text: string, l: Layout)
    requires l.Describes(text)
    ensures text[l.hour..] == PartsIn(text, l).hour + (":" + text[l.minute..])
  {
    hide NumberAt, SecondsAt, Narrow;
    CutAt(text, l.hour, l.minute - 1, ':');
  }

  lemma MinuteAndRest(text: string, l: Layout)
    requires l.Describes(text)
    ensures text[l.minute..] == PartsIn(text, l).minute + (":" + text[l.second..])
  {
    hide NumberAt, SecondsAt, Narrow;
    CutAt(text, l.minute, l.second - 1, ':');
  }

  lemma SecondAndRest(text: string, l: Layout)
    requires l.Describes(text)
    ensures text[l.second..] == PartsIn(text, l).second + ("Z" + text[l.end + 1..])
  {
    hide NumberAt, SecondsAt, Narrow;
    CutAt(text, l.second, l.end, 'Z');
  }

  lemma NestClock(p: IsoParts, tail: string, h: string, m: string, s: string)
    requires h == p.hour + (":" + m) && m == p.minute + (":" + s) && s == p.second + ("Z" + tail)
    ensures "T" + h == p.Clock(tail)
  {
  }

  lemma NestDate(p: IsoParts, tail: string, y: string, m: string, d: string)
    requires y == p.year + ("-" + m) && m == p.month + ("-" + d) && d == p.day + p.Clock(tail)
    ensures p.sign + y == p.Text(tail)
  {
  }

  ghost predicate Spells(parts: IsoParts, tail: string, text: string, t: int) {
    && parts.WellFormed() && text == parts.Text(tail)
    && InBounds(parts.Registers()) && SecondsOf(parts.Registers()) == Some(t)
  }

  /** Without wide characters and points, the texts that parse are those of that shape whose numbers name a second. */
  lemma NarrowTextParsesIff(text: string, t: int)
    requires IsNarrow(text) && '.' !in text
    ensures ParseTime(text) == Some(t) <==> exists parts, tail :: Spells(parts, tail, text, t)
  {
    hide IsoRegisters, ParseTime, SecondsOf, Narrow, IsNarrow, InBounds, IsoParts.Text, IsoParts.WellFormed, IsoParts.Registers;
    if parts, tail :| Spells(parts, tail, text, t) {
      ParsesIsoText(parts, tail);
    } else if ParseTime(text) == Some(t) {
      ParseTimeIs(text);
      var l := ReadsHaveLayout(text);
      PartsAreWellFormed(text, l);
      PartsMakeText(text, l);
      ParsesIsoText(PartsIn(text, l), text[l.end + 1..]);
      assert Spells(PartsIn(text, l), text[l.end + 1..], text, t);
    }
  }
}
