/** Member values of a record: the text they are written as, the cell SQLite keeps, and what is read back. */
module Records {
  import opened Machine
  import opened DecimalText
  import opened WideInput
  import opened StringUtilities
  import opened Reflection
  import opened TimePoint
  import opened SqlEngine

  /** A value of one of the five storage classes; reals are whole millionths, times are seconds since 1970. */
  datatype FieldValue =
    | IntField(v: int64)
    | RealField(micro: int)
    | TextField(s: string)
    | DateField(t: int64)
    | BoolField(b: bool)

  /** The members of a struct, in the order of its metadata. */
  type Record = seq<FieldValue>

  predicate HasClass(f: FieldValue, c: StorageClass) {
    match c
    case KInt => f.IntField?
    case KReal => f.RealField?
    case KText => f.TextField?
    case KDateTime => f.DateField?
    case KBool => f.BoolField?
  }

  /** Text is wrapped in quotes, not escaped, and handed on as a C string; times must have a day number and a year that
      `date::year` holds. */
  predicate Storable(f: FieldValue) {
    && (f.TextField? ==> '\'' !in f.s && '\0' !in f.s)
    && (f.DateField? ==> Representable(f.t) && -32767 <= CivilYear(f.t) <= 32767)
  }

  /** The text `GetValues` puts between quotes. */
  function ContentOf(f: FieldValue): string
    requires Storable(f)
  {
    match f
    case IntField(v) => FromInt(v)
    case BoolField(b) => FromInt(if b then 1 else 0)
    case RealField(m) => TrimmedReal(m)
    case TextField(s) => s
    case DateField(t) => SystemTimeText(t)
  }

  /** The cell a member value becomes in its column. */
  function CellOf(f: FieldValue): Cell
    requires Storable(f)
  {
    match f
    case IntField(v) => Integer(v)
    case BoolField(b) => Integer(if b then 1 else 0)
    case RealField(m) => Real(m)
    case TextField(s) => Text(s)
    case DateField(t) => Text(SystemTimeText(t))
  }

  /** `GetColumnValue`: integers are read as 32 bits, reals printed with six decimals. */
  function CellText(c: Cell): string {
    match c
    case Integer(n) => FromInt(ToInt32(n) as int)
    case Real(m) => RealText(m)
    case Text(s) => s
    case Null => ""
  }

  /** One column of `Hydrate`: empty text leaves the member as it was. */
  function FieldOfText(c: StorageClass, content: string, was: FieldValue): FieldValue {
    if content == "" then was else
    match c
    case KInt => IntField(ToInt(content))
    case KBool => BoolField(ToInt(content) == 1)
    case KReal => RealField(ToDouble(content))
    case KText => TextField(content)
    case KDateTime => DateField(TimeRead(content))
  }

  function TimeRead(content: string): (t: int64) {
    TimeOfTextHasShortYear(content);
    TimeOfText(content)
  }

  /** What a saved member value is when it is fetched. */
  function ReadBack(f: FieldValue): FieldValue
    requires Storable(f)
  {
    match f
    case IntField(v) => IntField(ToInt32(v) as int)
    case DateField(t) => DateField(TimeRead(SystemTimeText(t)))
    case _ => f
  }

  /** Integers of 32 bits and times in years of at most four digits. */
  predicate Faithful(f: FieldValue)
    requires Storable(f)
  {
    match f
    case IntField(v) => FitsInt32(v)
    case DateField(t) => -9999 <= CivilYear(t) <= 9999
    case _ => true
  }

  /** A member value survives saving and fetching if and only if it is faithful. */
  lemma ReadBackIff(f: FieldValue)
    requires Storable(f)
    ensures ReadBack(f) == f <==> Faithful(f)
  {
    hide TimeOfText, SystemTimeText, Representable, CivilYear;
    if f.DateField? { RoundTripIff(f.t); }
  }

  // ----- Texts that are numbers, and texts that are not -----

  lemma WholeTextParses(v: int)
    ensures ParseWhole(IntText(v)) == Some(v)
  {
    hide Value, NatText, AllDigits, LeadingDigits;
    var d := NatText(if v < 0 then -v else v);
    LeadingDigitsOfAll(d);
    ValueOfNatText(if v < 0 then -v else v);
    if v < 0 {
      assert ("-" + d)[1..] == d;
    } else {
      FirstIsDigit(v);
    }
  }

  lemma FirstIsDigit(n: nat)
    ensures NatText(n)[0] != '-'
  {
    assert IsDigit(NatText(n)[0]);
  }

  lemma NotAllLeadingDigits(u: string, k: nat)
    requires k < |u| && !IsDigit(u[k])
    ensures LeadingDigits(u) != |u|
  {
    var digits := u[..LeadingDigits(u)];
    assert forall j :: 0 <= j < |digits| ==> digits[j] == u[j] && IsDigit(digits[j]);
  }

  lemma PointIsNotWhole(s: string)
    requires '.' in s
    ensures ParseWhole(s) == None
  {
    var u := if s != "" && s[0] == '-' then s[1..] else s;
    var k :| 0 <= k < |u| && u[k] == '.';
    NotAllLeadingDigits(u, k);
  }

  lemma LastCharRulesOutMagnitude(u: string)
    requires u != "" ==> !IsDigit(u[|u| - 1]) && u[|u| - 1] != '.'
    ensures ParseMagnitude(u) == None && (u != "" ==> LeadingDigits(u) != |u|)
  {
    hide Value, Fraction, LeadingDigits;
    if u != "" {
      NotAllLeadingDigits(u, |u| - 1);
      var n := LeadingDigits(u);
      if u[n] == '.' {
        var digits := u[n + 1..];
        assert digits[|digits| - 1] == u[|u| - 1];
        NotAllLeadingDigits(digits, |digits| - 1);
      }
    }
  }

  /** A text that ends in neither a digit nor a point is no number. */
  lemma LastCharRulesOutNumber(s: string)
    requires s != "" && !IsDigit(s[|s| - 1]) && s[|s| - 1] != '.'
    ensures ParseWhole(s) == None && ParseReal(s) == None
  {
    hide ParseMagnitude, LeadingDigits;
    LastCharRulesOutMagnitude(s);
    LastCharRulesOutMagnitude(s[1..]);
  }

  lemma TimeTextEndsInZ(t: int64)
    requires Representable(t)
    ensures var s := SystemTimeText(t); s != "" && s[|s| - 1] == 'Z'
  {
  }

  // ----- Through a column and back -----

  /** The declared types: no two classes share one, apart from integers and booleans, and only times are left to the affinity of
      unknown names. */
  lemma ColumnTypesDiffer(c: StorageClass, d: StorageClass)
    ensures ColumnType(c) == ColumnType(d) <==> c == d || (c in {KInt, KBool} && d in {KInt, KBool})
    ensures AffinityOf(ColumnType(c)) == NumericAffinity <==> c == KDateTime
  {
  }

  /** The quoted text of a member value turns into its cell under the affinity of its column. */
  lemma ContentConverts(f: FieldValue, c: StorageClass)
    requires Storable(f) && HasClass(f, c)
    ensures Convert(ContentOf(f), AffinityOf(ColumnType(c))) == CellOf(f)
  {
    hide ParseWhole, ParseReal, IntText, TrimmedReal, SystemTimeText, Representable, CivilYear;
    match f
    case IntField(v) => WholeTextParses(v);
    case BoolField(b) => WholeTextParses(if b then 1 else 0);
    case RealField(m) =>
      TrimmedRealParses(m);
      PointIsNotWhole(TrimmedReal(m));
    case TextField(s) =>
    case DateField(t) =>
      TimeTextEndsInZ(t);
      LastCharRulesOutNumber(SystemTimeText(t));
  }

  /** Reading the cell's text gives the member value back, up to what `ReadBack` loses. */
  lemma CellHydrates(f: FieldValue, c: StorageClass, was: FieldValue)
    requires Storable(f) && HasClass(f, c) && (c == KText ==> was == TextField(""))
    ensures FieldOfText(c, CellText(CellOf(f)), was) == ReadBack(f)
  {
    hide ToInt, ParseReal, RealText, SystemTimeText, TimeRead, IntText;
    match f
    case IntField(v) =>
      ToIntOfFromInt(ToInt32(v) as int);
      IntTextNotEmpty(ToInt32(v) as int);
    case BoolField(b) =>
      ToIntOfFromInt(if b then 1 else 0);
      IntTextNotEmpty(if b then 1 else 0);
    case RealField(m) =>
      RealTextParses(m);
      RealTextHasPoint(m);
    case TextField(s) =>
    case DateField(t) => TimeTextEndsInZ(t);
  }

  /** Reading any cell: NULL and empty text keep the member, integers are read as 32 bits and are true only as 1, and a text in a
      date column is parsed. */
  lemma CellReads(c: StorageClass, v: Cell, was: FieldValue)
    ensures v == Null || v == Text("") ==> FieldOfText(c, CellText(v), was) == was
    ensures v.Integer? && c == KInt ==> FieldOfText(c, CellText(v), was) == IntField(ToInt32(v.n) as int)
    ensures v.Integer? && c == KBool ==> FieldOfText(c, CellText(v), was) == BoolField(ToInt32(v.n) == 1)
    ensures v.Real? && c == KReal ==> FieldOfText(c, CellText(v), was) == RealField(v.micro)
    ensures v.Text? && v.s != "" && c == KText ==> FieldOfText(c, CellText(v), was) == TextField(v.s)
    ensures v.Text? && v.s != "" && c == KDateTime ==> FieldOfText(c, CellText(v), was) == DateField(TimeRead(v.s))
  {
    hide ToInt, ParseReal, RealText, TimeRead, IntText, ToInt32;
    match v
    case Integer(n) =>
      ToIntOfFromInt(ToInt32(n) as int);
      IntTextNotEmpty(ToInt32(n) as int);
    case Real(m) =>
      RealTextParses(m);
      RealTextHasPoint(m);
    case _ =>
  }

  lemma IntTextNotEmpty(v: int)
    ensures IntText(v) != ""
  {
  }
}
