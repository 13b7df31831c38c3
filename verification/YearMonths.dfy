/** Month arithmetic: adding months to a year and month, and the months between two of them. */
module YearMonths {
  import opened Machine

  datatype YearMonth = YearMonth(year: int16, month: uint8) {
    predicate MonthOk() { 1 <= month <= 12 }

    /** Months counted from January of the year 0. */
    function Index(): int { 12 * year as int + month as int - 1 }
  }

  /** `operator+`: the year is narrowed to 16 bits. The newtypes make the verifier check the `int` arithmetic. */
  function Plus(ym: YearMonth, dm: int32): YearMonth
    requires -0x8000_0000 + 11 <= ym.month as int - 1 + dm as int < 0x8000_0000
  {
    var dmi: int32 := (ym.month as int - 1 + dm as int) as int32;
    var dy: int32 := Quot(if 0 <= dmi then dmi as int else (dmi - 11) as int, 12) as int32;
    var m: int32 := dmi - dy * 12 + 1;
    YearMonth(ToInt16(ym.year as int + dy as int), ToUint8(m as int))
  }

  /** `operator-`: the months are subtracted unsigned and wrap. */
  function Difference(x: YearMonth, y: YearMonth): int32 {
    var wrapped: uint32 := ((x.month as int - y.month as int) % 0x1_0000_0000) as uint32;
    ((x.year as int - y.year as int) * 12 + ToInt32(wrapped as int) as int) as int32
  }

  /** Adding months moves that many months along, if the year still fits, and always to a month of 1..12; a year that does not fit
      wraps round, by whole cycles of 2^16 years. */
  lemma PlusMoves(ym: YearMonth, dm: int32)
    requires -0x8000_0000 + 11 <= ym.month as int - 1 + dm as int < 0x8000_0000
    ensures Plus(ym, dm).MonthOk()
    ensures Plus(ym, dm).Index() == ym.Index() + dm as int
            <==> -0x8000 * 12 <= ym.Index() + dm as int < 0x8000 * 12
    ensures exists k :: Plus(ym, dm).Index() == ym.Index() + dm as int + k * (0x1_0000 * 12)
  {
    var dmi := ym.month as int - 1 + dm as int;
    var dy := Quot(if 0 <= dmi then dmi else dmi - 11, 12);
    assert 0 <= dmi - dy * 12 <= 11;
    var k := (Plus(ym, dm).year as int - (ym.year as int + dy)) / 0x1_0000;
    assert Plus(ym, dm).Index() == ym.Index() + dm as int + k * (0x1_0000 * 12);
  }

  /** The months from one to another, added to it, lead to the other if its month is one. */
  lemma DifferenceThenPlus(x: YearMonth, y: YearMonth)
    ensures Difference(x, y) as int == x.Index() - y.Index()
    ensures Plus(y, Difference(x, y)) == x <==> x.MonthOk()
  {
    assert Difference(x, y) as int == x.Index() - y.Index();
    hide Difference, Plus;
    PlusMoves(y, Difference(x, y));
    if x.MonthOk() { SameIndex(x, Plus(y, Difference(x, y))); }
  }

  /** Taking the difference after adding months gives them back if and only if the year still fits. */
  lemma PlusThenDifference(ym: YearMonth, dm: int32)
    requires ym.MonthOk() && -0x8000_0000 + 11 <= ym.month as int - 1 + dm as int < 0x8000_0000
    ensures Difference(Plus(ym, dm), ym) == dm <==> -0x8000 * 12 <= ym.Index() + dm as int < 0x8000 * 12
  {
    PlusMoves(ym, dm);
    DifferenceThenPlus(Plus(ym, dm), ym);
  }

  lemma SameIndex(x: YearMonth, y: YearMonth)
    requires x.MonthOk() && y.MonthOk() && x.Index() == y.Index()
    ensures x == y
  {
  }

  /** Adding in two steps is adding at once, even where the year wraps round in between. */
  lemma PlusIsAdditive(ym: YearMonth, a: int32, b: int32)
    requires -0x8000_0000 + 11 <= ym.month as int - 1 + a as int < 0x8000_0000
    requires -0x8000_0000 + 11 <= b as int < 0x8000_0000 - 11
    requires -0x8000_0000 <= a as int + b as int < 0x8000_0000
    requires -0x8000_0000 + 11 <= ym.month as int - 1 + a as int + b as int < 0x8000_0000
    ensures Plus(Plus(ym, a), b) == Plus(ym, a + b)
  {
    hide Plus;
    PlusMoves(ym, a);
    PlusMoves(Plus(ym, a), b);
    PlusMoves(ym, a + b);
    var j :| Plus(ym, a).Index() == ym.Index() + a as int + j * (0x1_0000 * 12);
    var k :| Plus(Plus(ym, a), b).Index() == Plus(ym, a).Index() + b as int + k * (0x1_0000 * 12);
    var l :| Plus(ym, a + b).Index() == ym.Index() + (a + b) as int + l * (0x1_0000 * 12);
    SameCycle(Plus(Plus(ym, a), b), Plus(ym, a + b), j + k - l);
  }

  lemma SameCycle(x: YearMonth, y: YearMonth, k: int)
    requires x.MonthOk() && y.MonthOk() && x.Index() == y.Index() + k * (0x1_0000 * 12)
    ensures x == y
  {
    assert k == 0;
    SameIndex(x, y);
  }
}
