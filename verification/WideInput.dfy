/** The character stream that `date.h` parses from: a cursor over wide text, the end-of-file and fail bits, and the
    digit-by-digit readers of namespace `detail`. */
module WideInput {
  import opened Machine
  import opened DecimalText

  datatype Option<T> = None | Some(value: T)

  /** The state of the stream apart from its text. */
  datatype Cursor = Cursor(pos: nat, eof: bool, fail: bool) {
    predicate Good() { !eof && !fail }

    predicate On(text: string) { pos <= |text| }
  }

  /** A value read, and where the stream is afterwards. */
  datatype Reading<T> = Reading(at: Cursor, value: T)

  // ----- What the readers compute -----

  /** `static_cast<char>` of a wide character keeps its low byte. */
  function Narrow(c: char): (n: char)
    ensures n < 0x100 as char && (c as int - n as int) % 0x100 == 0
  {
    (c as int % 0x100) as char
  }

  function NarrowText(s: string): (n: string)
    ensures |n| == |s|
    ensures forall k :: 0 <= k < |s| ==> n[k] == Narrow(s[k])
  {
    seq(|s|, k requires 0 <= k < |s| => Narrow(s[k]))
  }

  predicate DigitAt(text: string, k: int) {
    0 <= k < |text| && IsDigit(Narrow(text[k]))
  }

  /** The number of characters from p on, at most M, whose low byte is a digit. */
  function DigitRun(text: string, p: nat, M: nat): (n: nat)
    requires p <= |text|
    ensures n <= M && p + n <= |text|
    ensures forall j :: p <= j < p + n ==> DigitAt(text, j)
    ensures n < M ==> !DigitAt(text, p + n)
    decreases M
  {
    if M == 0 || !DigitAt(text, p) then 0 else DigitRun(text, p + 1, M - 1) + 1
  }

  /** A digit run ends where it must. */
  lemma {:induction false} DigitRunIs(text: string, p: nat, M: nat, n: nat)
    requires p + n <= |text| && n <= M
    requires forall j :: p <= j < p + n ==> DigitAt(text, j)
    requires n < M ==> !DigitAt(text, p + n)
    ensures DigitRun(text, p, M) == n
    decreases n
  {
    if 0 < n { DigitRunIs(text, p + 1, M - 1, n - 1); }
  }

  /** The digits of a run, as ordinary characters. */
  function Digits(text: string, p: nat, q: nat): (s: string)
    requires p <= q <= |text| && forall j :: p <= j < q ==> DigitAt(text, j)
    ensures AllDigits(s) && |s| == q - p
  {
    assert forall j :: 0 <= j < q - p ==> NarrowText(text[p..q])[j] == Narrow(text[p + j]) && DigitAt(text, p + j);
    NarrowText(text[p..q])
  }

  /** How many digits a width limit admits; a limit of 0 is never reached, so it admits all. */
  function Limit(text: string, M: nat): nat { if M == 0 then |text| + 1 else M }

  /** An unsigned number of m to M digits: the longest run of digits, up to M. */
  function Unsigned(text: string, k: Cursor, m: nat, M: nat): (r: Reading<nat>)
    requires k.On(text)
    ensures r.at.On(text)
    ensures !r.at.fail ==> m <= r.at.pos - k.pos <= Limit(text, M)
  {
    if !k.Good() then Reading(Cursor(k.pos, k.eof, true), 0)
    else
      var n := DigitRun(text, k.pos, Limit(text, M));
      Reading(Cursor(k.pos + n, n < Limit(text, M) && k.pos + n == |text|, n < m), Value(Digits(text, k.pos, k.pos + n)))
  }

  /** An optional sign and an unsigned number; nothing at all is a failure unless m is 0. */
  function Signed(text: string, k: Cursor, m: nat, M: nat): (r: Reading<int>)
    requires k.On(text)
    ensures r.at.On(text)
    ensures !r.at.fail ==> m <= r.at.pos - k.pos
  {
    if !k.Good() then Reading(Cursor(k.pos, k.eof, true), 0)
    else if k.pos == |text| then Reading(Cursor(k.pos, true, 0 < m), 0)
    else
      var c := Narrow(text[k.pos]);
      if IsDigit(c) then
        var r := Unsigned(text, k, if m == 0 then 1 else m, M);
        Reading(r.at, if r.at.fail then 0 else r.value)
      else if c == '-' || c == '+' then
        var r := Unsigned(text, Cursor(k.pos + 1, false, false), if m == 0 then 1 else m, M);
        Reading(r.at, if r.at.fail then 0 else if c == '-' then 0 - r.value else r.value)
      else Reading(Cursor(k.pos, false, 0 < m), 0)
  }

  /** A decimal number as read: how many characters it took, and the digits before and after its point. */
  datatype Decimals = Decimals(length: nat, whole: string, fraction: string) {
    predicate Valid() { AllDigits(whole) && AllDigits(fraction) }
  }

  /** The longest run of at most M characters made of digits and at most one decimal point. */
  function DecimalRun(text: string, p: nat, M: nat, pointSeen: bool): (d: Decimals)
    requires p <= |text|
    ensures d.Valid() && d.length <= M && p + d.length <= |text|
    ensures pointSeen ==> d.whole == ""
    ensures |d.whole| + |d.fraction| <= d.length
    ensures d.length < M ==> !DigitAt(text, p + d.length)
    decreases M
  {
    if M == 0 || p == |text| then Decimals(0, "", "")
    else if text[p] == '.' && !pointSeen then
      var d := DecimalRun(text, p + 1, M - 1, true);
      Decimals(d.length + 1, "", d.fraction)
    else if DigitAt(text, p) then
      var d := DecimalRun(text, p + 1, M - 1, pointSeen);
      var c := Narrow(text[p]);
      if pointSeen then Decimals(d.length + 1, "", [c] + d.fraction)
      else Decimals(d.length + 1, [c] + d.whole, d.fraction)
    else Decimals(0, "", "")
  }

  /** A decimal number of m to M characters. */
  function LongDecimal(text: string, k: Cursor, m: nat, M: nat): (r: Reading<Decimals>)
    requires k.On(text)
    ensures r.at.On(text) && r.value.Valid()
  {
    if !k.Good() then Reading(Cursor(k.pos, k.eof, true), Decimals(0, "", ""))
    else
      var d := DecimalRun(text, k.pos, M, false);
      Reading(Cursor(k.pos + d.length, d.length < M && k.pos + d.length == |text|, d.length < m), d)
  }

  /** One literal character. */
  function Literal(text: string, k: Cursor, c: char): (at: Cursor)
    requires k.On(text)
    ensures at.On(text)
  {
    if !k.Good() then Cursor(k.pos, true, true)
    else if k.pos == |text| then Cursor(k.pos, true, true)
    else if text[k.pos] != c then Cursor(k.pos, false, true)
    else Cursor(k.pos + 1, false, false)
  }

  // ----- The stream -----

  class WideStream {
    const text: string
    var pos: nat
    var eof: bool
    var fail: bool

    ghost predicate Valid()
      reads this
    {
      pos <= |text|
    }

    function At(): Cursor
      reads this
    {
      Cursor(pos, eof, fail)
    }

    constructor (text: string)
      ensures Valid() && this.text == text && At() == Cursor(0, false, false)
    {
      this.text := text;
      pos, eof, fail := 0, false, false;
    }

    /** `peek`: looking at a stream that is not good sets the fail bit, looking past the end the end-of-file bit. */
    method Peek() returns (c: Option<char>)
      requires Valid()
      modifies this
      ensures Valid() && pos == old(pos)
      ensures c == if old(At()).Good() && pos < |text| then Some(text[pos]) else None
      ensures fail == (old(fail) || !old(At()).Good())
      ensures eof == (old(eof) || (old(At()).Good() && pos == |text|))
    {
      if eof || fail {
        fail := true;
        return None;
      } else if pos == |text| {
        eof := true;
        return None;
      } else {
        return Some(text[pos]);
      }
    }

    /** `get`, after a successful peek. */
    method Get()
      requires Valid() && At().Good() && pos < |text|
      modifies this`pos
      ensures Valid() && pos == old(pos) + 1
    {
      pos := pos + 1;
    }

    /** `read_unsigned`; the value wraps round at 32 bits. */
    method ReadUnsigned(m: nat, M: nat) returns (x: uint32)
      requires Valid()
      modifies this
      ensures Valid()
      ensures At() == Unsigned(text, old(At()), m, M).at
      ensures x as nat == Unsigned(text, old(At()), m, M).value % 0x1_0000_0000
    {
      hide Value, NarrowText, Digits, AllDigits;
      ghost var k := At();
      ValueOfNoDigits(text, pos);
      x := 0;
      var count := 0;
      while true
        invariant Valid() && 0 <= count < Limit(text, M) && pos == k.pos + count
        invariant eof == k.eof && fail == k.fail
        invariant !k.Good() ==> count == 0
        invariant k.Good() ==> forall j :: k.pos <= j < pos ==> DigitAt(text, j)
        invariant x as nat == if k.Good() then Value(Digits(text, k.pos, pos)) % 0x1_0000_0000 else 0
        decreases |text| - pos
      {
        var ic := Peek();
        if ic == None { break; }
        var c := Narrow(ic.value);
        if !IsDigit(c) { break; }
        ValueOfLongerRun(text, k.pos, pos);
        WrappedStep(Value(Digits(text, k.pos, pos)), c as int - '0' as int, 0x1_0000_0000);
        Get();
        count := count + 1;
        x := ((10 * x as int + (c as int - '0' as int)) % 0x1_0000_0000) as uint32;
        if count == M { break; }
      }
      if k.Good() { DigitRunIs(text, k.pos, Limit(text, M), count); }
      if count < m {
        fail := true;
      }
    }

    /** `read_signed`; the value wraps round at 32 bits. Negating the least `int` is undefined. */
    method ReadSigned(m: nat, M: nat) returns (r: int32)
      requires Valid()
      requires var v := Signed(text, At(), m, M).value; v < 0 ==> v % 0x1_0000_0000 != 0x8000_0000
      modifies this
      ensures Valid()
      ensures At() == Signed(text, old(At()), m, M).at
      ensures r == ToInt32(Signed(text, old(At()), m, M).value)
    {
      hide DigitRun, Digits, Value, Unsigned, ToInt32;
      ghost var v := Signed(text, At(), m, M).value;
      var ic := Peek();
      if ic != None {
        var c := Narrow(ic.value);
        if IsDigit(c) || c == '-' || c == '+' {
          if c == '-' || c == '+' {
            Get();
          }
          ghost var u := Unsigned(text, At(), if m == 0 then 1 else m, M).value;
          var x := ReadUnsigned(if m == 0 then 1 else m, M);
          WrappedInt(u);
          if !fail {
            r := ToInt32(x as int);
            if c == '-' {
              r := 0 - r;
            }
            return;
          }
        }
      }
      if m > 0 {
        fail := true;
      }
      WrappedInt(0);
      return 0;
    }

    /** `read` of one character of the format. */
    method ReadLiteral(c: char)
      requires Valid()
      modifies this
      ensures Valid()
      ensures At() == Literal(text, old(At()), c)
    {
      var ic := Peek();
      if ic == None {
        fail, eof := true, true;
        return;
      }
      if ic.value != c {
        fail := true;
        return;
      }
      Get();
    }

    /** `read_long_double`: two digit accumulators, which wrap round at 64 bits, and the length of the fraction. The arithmetic on
        `long double` is exact here. */
    method ReadLongDouble(m: nat, M: nat) returns (x: real)
      requires Valid() && 1 <= M < 0x1_0000_0000
      modifies this
      ensures Valid()
      ensures var r := LongDecimal(text, old(At()), m, M);
              && At() == r.at
              && (!fail ==> x == DecimalOf(r.value))
    {
      hide Value, AllDigits, Narrow, DecimalRun, Extends, LongDecimal, Accumulates, WithPoint, WithDigit;
      NothingRead();
      ghost var k := At();
      ghost var d := if k.Good() then DecimalRun(text, pos, M, false) else Decimals(0, "", "");
      ghost var read := Decimals(0, "", "");
      var count, parsingFraction := 0, false;
      var i: uint64, f: uint64, fcount: uint32 := 0, 0, 0;
      if k.Good() { ExtendsAtStart(text, pos, M); }
      while true
        invariant Valid() && 0 <= count < M && pos == k.pos + count && count == read.length
        invariant eof == k.eof && fail == k.fail
        invariant Accumulates(i as nat, f as nat, fcount as nat, read) && fcount as nat <= count
        invariant !k.Good() ==> count == 0
        invariant k.Good() ==> Extends(text, pos, M - count, parsingFraction, d, read)
        decreases M - count
      {
        var ic := Peek();
        if ic == None {
          if k.Good() { ExtendsAtEnd(text, pos, M - count, parsingFraction, d, read); }
          break;
        }
        ExtendsByOne(text, pos, M - count, parsingFraction, d, read);
        if ic.value == '.' && !parsingFraction {
          parsingFraction := true;
          AccumulatesPoint(i as nat, f as nat, fcount as nat, read);
          read := WithPoint(read);
        } else {
          var c := Narrow(ic.value);
          if !IsDigit(c) {
            ExtendsAtEnd(text, pos, M - count, parsingFraction, d, read);
            break;
          }
          AccumulatesDigit(i as nat, f as nat, fcount as nat, read, c, parsingFraction);
          read := WithDigit(read, c, parsingFraction);
          if !parsingFraction {
            i := ((10 * i as int + (c as int - '0' as int)) % WRAP64) as uint64;
          } else {
            f := ((10 * f as int + (c as int - '0' as int)) % WRAP64) as uint64;
            fcount := fcount + 1;
          }
        }
        Get();
        count := count + 1;
        if count == M {
          ExtendsAtEnd(text, pos, 0, parsingFraction, d, read);
          break;
        }
      }
      LongDecimalIs(text, k, m, M);
      AccumulatesValues(i as nat, f as nat, fcount as nat, read);
      if count < m {
        fail := true;
        return 0.0;
      }
      return i as real + f as real / Pow10(fcount as nat) as real;
    }
  }

  /** The number that a whole part and a fraction of digits stand for, with the accumulators wrapped. */
  function DecimalOf(d: Decimals): (x: real)
    requires d.Valid()
    ensures 0.0 <= x
  {
    (Value(d.whole) % WRAP64) as real + (Value(d.fraction) % WRAP64) as real / Pow10(|d.fraction|) as real
  }

  function WithPoint(read: Decimals): (r: Decimals)
    ensures r.length == read.length + 1
  {
    Decimals(read.length + 1, read.whole, read.fraction)
  }

  function WithDigit(read: Decimals, c: char, pointSeen: bool): (r: Decimals)
    ensures r.length == read.length + 1
  {
    if pointSeen then Decimals(read.length + 1, read.whole, read.fraction + [c])
    else Decimals(read.length + 1, read.whole + [c], read.fraction)
  }

  const WRAP64: nat := 0x1_0000_0000_0000_0000

  /** The accumulators hold the digits read so far, wrapped. */
  ghost predicate Accumulates(i: nat, f: nat, fcount: nat, read: Decimals) {
    && AllDigits(read.whole) && AllDigits(read.fraction)
    && i == Value(read.whole) % WRAP64 && f == Value(read.fraction) % WRAP64 && fcount == |read.fraction|
  }

  lemma NothingRead()
    ensures Accumulates(0, 0, 0, Decimals(0, "", ""))
  {
    ValueOfNothing();
  }

  lemma AccumulatesPoint(i: nat, f: nat, fcount: nat, read: Decimals)
    requires Accumulates(i, f, fcount, read)
    ensures Accumulates(i, f, fcount, WithPoint(read))
  {
    hide Value, AllDigits;
  }

  lemma AccumulatesDigit(i: nat, f: nat, fcount: nat, read: Decimals, c: char, pointSeen: bool)
    requires Accumulates(i, f, fcount, read) && IsDigit(c)
    ensures var digit := c as int - '0' as int;
            if pointSeen then Accumulates(i, (10 * f + digit) % WRAP64, fcount + 1, WithDigit(read, c, true))
            else Accumulates((10 * i + digit) % WRAP64, f, fcount, WithDigit(read, c, false))
  {
    hide Value, AllDigits;
    WrappedStep(Value(read.whole), c as int - '0' as int, WRAP64);
    WrappedStep(Value(read.fraction), c as int - '0' as int, WRAP64);
    ValueOfAppend(read.whole, c);
    ValueOfAppend(read.fraction, c);
  }

  lemma AccumulatesValues(i: nat, f: nat, fcount: nat, read: Decimals)
    requires Accumulates(i, f, fcount, read)
    ensures AllDigits(read.whole) && AllDigits(read.fraction)
    ensures i == Value(read.whole) % WRAP64 && f == Value(read.fraction) % WRAP64 && fcount == |read.fraction|
  {
  }

  lemma LongDecimalIs(text: string, k: Cursor, m: nat, M: nat)
    requires k.On(text)
    ensures var r := LongDecimal(text, k, m, M);
            if !k.Good() then r == Reading(Cursor(k.pos, k.eof, true), Decimals(0, "", ""))
            else var d := DecimalRun(text, k.pos, M, false);
                 r == Reading(Cursor(k.pos + d.length, d.length < M && k.pos + d.length == |text|, d.length < m), d)
  {
    hide DecimalRun;
  }

  /** A decimal run d is what was read so far and the rest of the run. */
  ghost predicate Extends(text: string, p: nat, M: nat, pointSeen: bool, d: Decimals, read: Decimals) {
    p <= |text|
    && var rest := DecimalRun(text, p, M, pointSeen);
    d == Decimals(read.length + rest.length, read.whole + rest.whole, read.fraction + rest.fraction)
  }

  lemma ExtendsAtStart(text: string, p: nat, M: nat)
    requires p <= |text|
    ensures Extends(text, p, M, false, DecimalRun(text, p, M, false), Decimals(0, "", ""))
  {
    var d := DecimalRun(text, p, M, false);
    assert "" + d.whole == d.whole && "" + d.fraction == d.fraction;
  }

  lemma ExtendsByOne(text: string, p: nat, M: nat, pointSeen: bool, d: Decimals, read: Decimals)
    requires p < |text| && 0 < M && Extends(text, p, M, pointSeen, d, read)
    ensures var c := Narrow(text[p]);
            if text[p] == '.' && !pointSeen then Extends(text, p + 1, M - 1, true, d, WithPoint(read))
            else IsDigit(c) ==> Extends(text, p + 1, M - 1, pointSeen, d, WithDigit(read, c, pointSeen))
  {
    var c := Narrow(text[p]);
    if text[p] == '.' && !pointSeen {
    } else if IsDigit(c) {
      var rest := DecimalRun(text, p + 1, M - 1, pointSeen);
      assert read.whole + ([c] + rest.whole) == (read.whole + [c]) + rest.whole;
      assert read.fraction + ([c] + rest.fraction) == (read.fraction + [c]) + rest.fraction;
    }
  }

  lemma ExtendsAtEnd(text: string, p: nat, M: nat, pointSeen: bool, d: Decimals, read: Decimals)
    requires p <= |text| && Extends(text, p, M, pointSeen, d, read)
    requires M == 0 || p == |text| || (!IsDigit(Narrow(text[p])) && (text[p] == '.' ==> pointSeen))
    ensures d == read
  {
  }

  lemma ValueOfNothing()
    ensures AllDigits("") && Value("") == 0
  {
  }

  lemma ValueOfAppend(s: string, c: char)
    requires AllDigits(s) && IsDigit(c)
    ensures AllDigits(s + [c]) && Value(s + [c]) == 10 * Value(s) + (c as int - '0' as int)
  {
    assert (s + [c])[..|s + [c]| - 1] == s;
  }

  /** A number of at most nine digits fits every integer type the readers use. */
  lemma UnsignedIsSmall(text: string, k: Cursor, m: nat, M: nat)
    requires k.On(text) && 1 <= M <= 9
    ensures Unsigned(text, k, m, M).value < Pow10(M) <= 1_000_000_000
  {
    hide Pow10, Value, DigitRun, Digits, AllDigits;
    if k.Good() {
      var n := DigitRun(text, k.pos, M);
      ValueBound(Digits(text, k.pos, k.pos + n));
      Pow10IsMonotone(n, M);
    }
    Pow10IsMonotone(M, 9);
    NinthPower();
  }

  lemma NinthPower()
    ensures Pow10(9) == 1_000_000_000
  {
    SmallPowers();
    assert Pow10(9) == 10 * Pow10(8) && Pow10(8) == 10 * Pow10(7);
  }

  lemma ValueOfNoDigits(text: string, p: nat)
    requires p <= |text|
    ensures Value(Digits(text, p, p)) == 0
  {
  }

  lemma ValueOfLongerRun(text: string, p: nat, q: nat)
    requires p <= q < |text| && forall j :: p <= j <= q ==> DigitAt(text, j)
    ensures Value(Digits(text, p, q + 1)) == 10 * Value(Digits(text, p, q)) + (Narrow(text[q]) as int - '0' as int)
  {
    var s, t := Digits(text, p, q), Digits(text, p, q + 1);
    assert t[..|t| - 1] == s;
  }

  lemma MultipleVanishes(n: int, k: int, a: int)
    requires 0 < n
    ensures (n * k + a) % n == a % n
  {
    var q, r := a / n, a % n;
    assert n * k + a == n * (k + q) + r;
    ResidueIs(n * k + a, n, k + q, r);
  }

  /** Appending a digit to a number that has wrapped is appending it and then wrapping. */
  lemma WrappedStep(v: nat, digit: int, n: int)
    requires 0 < n
    ensures (10 * (v % n) + digit) % n == (10 * v + digit) % n
  {
    assert 10 * v + digit == n * (10 * (v / n)) + (10 * (v % n) + digit);
    MultipleVanishes(n, 10 * (v / n), 10 * (v % n) + digit);
  }

  /** A number that wrapped as unsigned is the same `int`, and so is its negation unless it wraps to the least one. */
  lemma WrappedInt(u: nat)
    ensures ToInt32(u % 0x1_0000_0000) == ToInt32(u) && ToInt32(0) == 0
    ensures (0 - u) % 0x1_0000_0000 != 0x8000_0000 ==>
              ToInt32(u) != -0x8000_0000 && ToInt32(0 - u) as int == 0 - ToInt32(u) as int
  {
  }
}
