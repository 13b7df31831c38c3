/** Conversions between numbers and text, and joining and erasing: `StringUtilities` and `Like::Remove`. Reals are whole
    numbers of millionths, the precision `std::to_string` prints. */
module StringUtilities {
  import opened Machine
  import opened DecimalText
  import opened WideInput

  // ----- Integers -----

  /** `FromInt` */
  function FromInt(v: int): string { IntText(v) }

  /** The number of leading digits of a text. */
  function LeadingDigits(s: string): (n: nat)
    ensures n <= |s| && AllDigits(s[..n])
    ensures n < |s| ==> !IsDigit(s[n])
  {
    if s == "" || !IsDigit(s[0]) then 0
    else
      var n := LeadingDigits(s[1..]);
      assert s[..n + 1] == [s[0]] + s[1..][..n];
      n + 1
  }

  function SkipSpaces(s: string): string {
    if s != "" && (s[0] == ' ' || '\t' <= s[0] <= '\r') then SkipSpaces(s[1..]) else s
  }

  /** The number the leading digits stand for, if there are any. */
  function LeadingValue(s: string): Option<nat> {
    var n := LeadingDigits(s);
    if n == 0 then None else Some(Value(s[..n]))
  }

  /** `std::stoi`: leading spaces, a sign and digits; nothing when there are no digits or the value is no `int`. */
  function Stoi(s: string): Option<int> {
    var t := SkipSpaces(s);
    var neg := t != "" && t[0] == '-';
    match LeadingValue(if t != "" && (t[0] == '-' || t[0] == '+') then t[1..] else t)
    case None => None
    case Some(n) =>
      var v := if neg then 0 - n else n as int;
      if FitsInt32(v) then Some(v) else None
  }

  /** `ToInt`: a text that is no `int` counts as 0. */
  function ToInt(s: string): int {
    match Stoi(s)
    case Some(v) => v
    case None => 0
  }

  lemma LeadingDigitsOfAll(s: string)
    requires AllDigits(s)
    ensures LeadingDigits(s) == |s|
  {
  }

  lemma LeadingValueOfNatText(n: nat)
    ensures LeadingValue(NatText(n)) == Some(n) && IsDigit(NatText(n)[0])
  {
    hide Value;
    LeadingDigitsOfAll(NatText(n));
    ValueOfNatText(n);
    assert NatText(n)[..|NatText(n)|] == NatText(n);
  }

  /** Reading back the text of an integer gives it if it is an `int`, and 0 otherwise. */
  lemma ToIntOfFromInt(v: int)
    ensures ToInt(FromInt(v)) == if FitsInt32(v) then v else 0
  {
    hide NatText, LeadingValue;
    LeadingValueOfNatText(if v < 0 then -v else v);
    if v < 0 { assert ("-" + NatText(-v))[1..] == NatText(-v); }
  }

  predicate AllSpaces(s: string) { forall k :: 0 <= k < |s| ==> s[k] == ' ' || '\t' <= s[k] <= '\r' }

  lemma {:induction false} SpacesAreSkipped(spaces: string, rest: string)
    requires AllSpaces(spaces) && (rest != "" ==> rest[0] != ' ' && !('\t' <= rest[0] <= '\r'))
    ensures SkipSpaces(spaces + rest) == rest
  {
    if spaces == "" {
      assert spaces + rest == rest;
    } else {
      assert (spaces + rest)[1..] == spaces[1..] + rest;
      SpacesAreSkipped(spaces[1..], rest);
    }
  }

  /** `ToInt` reads the digits behind spaces and a sign, whatever follows them; a number that is no `int` counts as 0. */
  lemma ToIntReads(spaces: string, sign: string, digits: string, rest: string)
    requires AllSpaces(spaces) && (sign == "" || sign == "-" || sign == "+")
    requires AllDigits(digits) && digits != "" && (rest != "" ==> !IsDigit(rest[0]))
    ensures var v := if sign == "-" then 0 - Value(digits) else Value(digits);
            ToInt(spaces + (sign + (digits + rest))) == if FitsInt32(v) then v else 0
  {
    hide Value, SkipSpaces;
    var t := sign + (digits + rest);
    assert IsDigit(digits[0]) && t[0] == if sign == "" then digits[0] else sign[0];
    SpacesAreSkipped(spaces, t);
    LeadingDigitsUntil(digits, rest);
    if sign == "" { assert t == digits + rest; } else { assert t[1..] == digits + rest; }
  }

  /** A text without digits behind its spaces and sign counts as 0. */
  lemma ToIntOfNoDigits(spaces: string, sign: string, rest: string)
    requires AllSpaces(spaces) && (sign == "" || sign == "-" || sign == "+")
    requires rest != "" ==> !IsDigit(rest[0])
    requires sign == "" && rest != "" ==> rest[0] != ' ' && !('\t' <= rest[0] <= '\r') && rest[0] != '-' && rest[0] != '+'
    ensures ToInt(spaces + (sign + rest)) == 0
  {
    hide Value, SkipSpaces;
    var t := sign + rest;
    SpacesAreSkipped(spaces, t);
    if sign == "" { assert t == rest; } else { assert t[1..] == rest; }
  }

  // ----- Reals in millionths -----

  /** A number printed with a fixed number of digits. */
  function Padded(n: nat, width: nat): (s: string)
    ensures AllDigits(s) && |s| == width
  {
    if width == 0 then "" else Padded(n / 10, width - 1) + [DigitChar(n % 10)]
  }

  /** `std::to_string` of a double. */
  function RealText(micro: int): string {
    var n := if micro < 0 then -micro else micro;
    (if micro < 0 then "-" else "") + NatText(n / 1_000_000) + "." + Padded(n % 1_000_000, 6)
  }

  /** r is s without the zeros at its end. */
  ghost predicate IsTrimmed(s: string, r: string) {
    && r <= s
    && (forall k :: |r| <= k < |s| ==> s[k] == '0')
    && (r == "" || r[|r| - 1] != '0')
  }

  /** `FromDouble`: the text of the real, with the zeros at the end of its fraction erased one at a time. */
  method FromDouble(micro: int) returns (text: string)
    ensures IsTrimmed(RealText(micro), text)
    ensures text == TrimmedReal(micro)
  {
    text := RealText(micro);
    RealTextHasPoint(micro);
    if '.' in text {
      while 0 < |text| && text[|text| - 1] == '0'
        invariant text <= RealText(micro)
        invariant forall k :: |text| <= k < |RealText(micro)| ==> RealText(micro)[k] == '0'
      {
        text := text[..|text| - 1];
      }
    }
    TrimIsUnique(RealText(micro), text);
  }

  lemma RealTextHasPoint(micro: int)
    ensures var s := RealText(micro); '.' in s
  {
    var n := if micro < 0 then -micro else micro;
    var head := (if micro < 0 then "-" else "") + NatText(n / 1_000_000);
    assert RealText(micro)[|head|] == '.';
  }

  function Trim(s: string): (r: string)
    ensures IsTrimmed(s, r)
  {
    if s != "" && s[|s| - 1] == '0' then Trim(s[..|s| - 1]) else s
  }

  function TrimmedReal(micro: int): string { Trim(RealText(micro)) }

  lemma TrimIsUnique(s: string, r: string)
    requires IsTrimmed(s, r)
    ensures r == Trim(s)
  {
    var q := Trim(s);
    assert r == s[..|r|] && q == s[..|q|];
  }

  /** The millionths that digits after a point stand for. */
  function Fraction(digits: string): nat
    requires AllDigits(digits) && |digits| <= 6
  {
    Value(digits) * Pow10(6 - |digits|)
  }

  /** Digits, a point and at most six digits, in millionths. */
  function ParseMagnitude(u: string): Option<nat> {
    var n := LeadingDigits(u);
    if n == 0 || n == |u| || u[n] != '.' then None else
    var digits := u[n + 1..];
    if LeadingDigits(digits) != |digits| || 6 < |digits| then None else
    assert digits[..|digits|] == digits;
    Some(Value(u[..n]) * 1_000_000 + Fraction(digits))
  }

  /** A real in plain decimal form, with an optional '-'. */
  function ParseReal(s: string): Option<int> {
    if s != "" && s[0] == '-' then
      match ParseMagnitude(s[1..])
      case Some(v) => Some(0 - v)
      case None => None
    else
      match ParseMagnitude(s)
      case Some(v) => Some(v)
      case None => None
  }

  /** `ToDouble` of a text in that form; any other counts as 0. */
  function ToDouble(s: string): int {
    match ParseReal(s)
    case Some(v) => v
    case None => 0
  }

  lemma LeadingDigitsUntil(digits: string, rest: string)
    requires AllDigits(digits) && (rest != "" ==> !IsDigit(rest[0]))
    ensures LeadingDigits(digits + rest) == |digits| && (digits + rest)[..|digits|] == digits
  {
    if digits == "" {
      assert digits + rest == rest;
    } else {
      assert (digits + rest)[1..] == digits[1..] + rest;
      LeadingDigitsUntil(digits[1..], rest);
    }
  }

  /** Zeros at the end of a digit string multiply by ten. */
  lemma {:induction false} ValueOfTrailingZeros(s: string, j: nat)
    requires AllDigits(s) && j <= |s| && forall k :: j <= k < |s| ==> s[k] == '0'
    ensures Value(s) == Value(s[..j]) * Pow10(|s| - j)
    decreases |s|
  {
    if j == |s| {
      assert s[..j] == s;
    } else {
      var t := s[..|s| - 1];
      ValueOfTrailingZeros(t, j);
      assert t[..j] == s[..j];
    }
  }

  lemma ParsesMagnitude(whole: string, digits: string)
    requires AllDigits(whole) && whole != "" && AllDigits(digits) && |digits| <= 6
    ensures ParseMagnitude(whole + "." + digits) == Some(Value(whole) * 1_000_000 + Fraction(digits))
  {
    hide Value, Pow10, Fraction;
    var u := whole + "." + digits;
    assert u == whole + ("." + digits);
    LeadingDigitsUntil(whole, "." + digits);
    assert u[|whole|] == '.' && u[|whole| + 1..] == digits;
    LeadingDigitsOfAll(digits);
  }

  lemma ParsesDecimal(neg: bool, whole: string, digits: string)
    requires AllDigits(whole) && whole != "" && AllDigits(digits) && |digits| <= 6
    ensures var v := Value(whole) * 1_000_000 + Fraction(digits);
            ParseReal((if neg then "-" else "") + whole + "." + digits) == Some(if neg then 0 - v else v as int)
  {
    hide Value, Pow10, Fraction, ParseMagnitude;
    var u := whole + "." + digits;
    ParsesMagnitude(whole, digits);
    assert IsDigit(whole[0]) && u[0] == whole[0];
    if neg {
      assert "-" + whole + "." + digits == "-" + u && ("-" + u)[1..] == u;
    } else {
      assert "" + whole + "." + digits == u;
    }
  }

  lemma {:induction false} ValueOfPadded(n: nat, width: nat)
    requires n < Pow10(width)
    ensures Value(Padded(n, width)) == n
  {
    if width != 0 {
      var s := Padded(n, width);
      assert s[..|s| - 1] == Padded(n / 10, width - 1);
      ValueOfPadded(n / 10, width - 1);
    }
  }

  /** The whole part and the six digits of a real's text. */
  lemma RealTextParts(micro: int)
    ensures var n := if micro < 0 then -micro else micro;
            var whole, six := NatText(n / 1_000_000), Padded(n % 1_000_000, 6);
            && RealText(micro) == (if micro < 0 then "-" else "") + whole + "." + six
            && Value(whole) * 1_000_000 + Value(six) == n
  {
    hide Value, NatText, Padded, Pow10;
    var n := if micro < 0 then -micro else micro;
    ValueOfNatText(n / 1_000_000);
    SmallPowers();
    ValueOfPadded(n % 1_000_000, 6);
  }

  /** The text of a real: a whole part without needless zeros in front, a point and exactly six digits. */
  lemma RealTextShape(micro: int)
    ensures exists whole, six: string ::
              && AllDigits(whole) && whole != "" && (whole[0] == '0' ==> whole == "0") && AllDigits(six) && |six| == 6
              && RealText(micro) == (if micro < 0 then "-" else "") + whole + "." + six
              && Value(whole) * 1_000_000 + Value(six) == if micro < 0 then -micro else micro
  {
    hide Value, Padded;
    var n := if micro < 0 then -micro else micro;
    RealTextParts(micro);
    NoLeadingZero(n / 1_000_000);
    assert RealText(micro) == (if micro < 0 then "-" else "") + NatText(n / 1_000_000) + "." + Padded(n % 1_000_000, 6);
  }

  /** Trimming stops at the point at the latest. */
  lemma TrimKeepsPoint(head: string, six: string) returns (j: nat)
    ensures j <= |six| && Trim(head + "." + six) == head + "." + six[..j]
    ensures forall k :: j <= k < |six| ==> six[k] == '0'
    ensures j == 0 || six[j - 1] != '0'
  {
    var s := head + "." + six;
    var r := Trim(s);
    assert s[|head|] == '.';
    assert |head| < |r|;
    j := |r| - |head| - 1;
    assert r == s[..|r|] == head + "." + six[..j];
    assert forall k :: j <= k < |six| ==> six[k] == s[|head| + 1 + k];
    if 0 < j { assert r[|r| - 1] == six[j - 1]; }
  }

  /** The trimmed text stands for the same real, keeps its point, and is not trimmed further. */
  lemma TrimmedRealParses(micro: int)
    ensures ParseReal(TrimmedReal(micro)) == Some(micro)
    ensures '.' in TrimmedReal(micro)
    ensures Trim(TrimmedReal(micro)) == TrimmedReal(micro)
  {
    hide Value, NatText, Padded, Pow10, ParseReal, Trim, RealText;
    var n := if micro < 0 then -micro else micro;
    var sign, whole, six := if micro < 0 then "-" else "", NatText(n / 1_000_000), Padded(n % 1_000_000, 6);
    RealTextParts(micro);
    var j := TrimKeepsPoint(sign + whole, six);
    ValueOfTrailingZeros(six, j);
    ParsesDecimal(micro < 0, whole, six[..j]);
    assert TrimmedReal(micro)[|sign + whole|] == '.';
    TrimIsUnique(TrimmedReal(micro), TrimmedReal(micro));
  }

  /** The untrimmed text, which a real column gives back, stands for the real. */
  lemma RealTextParses(micro: int)
    ensures ParseReal(RealText(micro)) == Some(micro)
  {
    hide Value, NatText, Padded, Pow10, ParseReal, RealText;
    var n := if micro < 0 then -micro else micro;
    var six := Padded(n % 1_000_000, 6);
    RealTextParts(micro);
    ParsesDecimal(micro < 0, NatText(n / 1_000_000), six);
    ValueOfTrailingZeros(six, 6);
    assert six[..6] == six;
  }

  // ----- Joining and erasing -----

  /** `Join`: a left fold from the first element. */
  function Join(list: seq<string>, separator: string): string {
    if list == [] then "" else JoinOnto(list[0], list[1..], separator)
  }

  function JoinOnto(sum: string, rest: seq<string>, separator: string): string
    decreases rest
  {
    if rest == [] then sum else JoinOnto(sum + separator + rest[0], rest[1..], separator)
  }

  lemma {:induction false} JoinOntoPrefix(a: string, b: string, rest: seq<string>, separator: string)
    ensures JoinOnto(a + b, rest, separator) == a + JoinOnto(b, rest, separator)
    decreases rest
  {
    if rest != [] {
      assert a + b + separator + rest[0] == a + (b + separator + rest[0]);
      JoinOntoPrefix(a, b + separator + rest[0], rest[1..], separator);
    }
  }

  /** The fold puts a separator between every two elements. */
  lemma JoinOfMore(first: string, rest: seq<string>, separator: string)
    requires rest != []
    ensures Join([first] + rest, separator) == first + (separator + Join(rest, separator))
    ensures Join([], separator) == "" && Join([first], separator) == first
  {
    assert first + separator + rest[0] == (first + separator) + rest[0];
    JoinOntoPrefix(first + separator, rest[0], rest[1..], separator);
    assert (first + separator) + Join(rest, separator) == first + (separator + Join(rest, separator));
  }

  predicate OccursAt(s: string, sub: string, i: nat) {
    i + |sub| <= |s| && s[i..i + |sub|] == sub
  }

  /** `std::string::find`: the first occurrence, if any. */
  method Find(s: string, sub: string) returns (i: Option<nat>)
    ensures i.Some? ==> OccursAt(s, sub, i.value) && forall k :: 0 <= k < i.value ==> !OccursAt(s, sub, k)
    ensures i.None? ==> forall k: nat :: !OccursAt(s, sub, k)
  {
    var k := 0;
    while k + |sub| <= |s|
      invariant forall j: nat :: j < k ==> !OccursAt(s, sub, j)
    {
      if s[k..k + |sub|] == sub { return Some(k); }
      k := k + 1;
    }
    return None;
  }

  /** s without the character c. */
  function Without(s: string, c: char): (r: string)
    ensures c !in r
  {
    if s == "" then "" else (if s[0] == c then "" else [s[0]]) + Without(s[1..], c)
  }

  lemma {:induction false} WithoutSplit(a: string, b: string, c: char)
    ensures Without(a + [c] + b, c) == Without(a + b, c)
  {
    if a == "" {
      assert "" + [c] + b == [c] + b && ([c] + b)[1..] == b && "" + b == b;
    } else {
      assert (a + [c] + b)[1..] == a[1..] + [c] + b && (a + b)[1..] == a[1..] + b;
      WithoutSplit(a[1..], b, c);
    }
  }

  lemma WithoutNothing(s: string, c: char)
    requires c !in s
    ensures Without(s, c) == s
  {
  }

  /** `Like::Remove`: erase the first occurrence until there is none. */
  method Remove(source: string, substring: string) returns (copy: string)
    requires substring != ""
    ensures forall k: nat :: !OccursAt(copy, substring, k)
    ensures |substring| == 1 ==> copy == Without(source, substring[0])
  {
    copy := source;
    var it := Find(copy, substring);
    while it != None
      invariant it.Some? ==> OccursAt(copy, substring, it.value)
      invariant it.None? ==> forall k: nat :: !OccursAt(copy, substring, k)
      invariant |substring| == 1 ==> Without(copy, substring[0]) == Without(source, substring[0])
      decreases |copy|, it.Some?
    {
      var i := it.value;
      if |substring| == 1 {
        assert copy == copy[..i] + [substring[0]] + copy[i + 1..];
        WithoutSplit(copy[..i], copy[i + 1..], substring[0]);
      }
      copy := copy[..i] + copy[i + |substring|..];
      it := Find(copy, substring);
    }
    if |substring| == 1 {
      if substring[0] in copy {
        var k :| 0 <= k < |copy| && copy[k] == substring[0];
        assert OccursAt(copy, substring, k);
      }
      WithoutNothing(copy, substring[0]);
    }
  }
}
