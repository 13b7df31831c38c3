/** An abstract SQLite connection: tables as maps from integer primary keys to rows, column affinities, comparisons, and
    transactions whose statements may fail for reasons outside the model. */
module SqlEngine {
  import opened DecimalText
  import opened WideInput
  import opened StringUtilities
  import opened SqlLexer
  import opened SqlParser

  // ----- Values and columns -----

  /** A stored value; reals are whole millionths. */
  datatype Cell = Null | Integer(n: int) | Real(micro: int) | Text(s: string)

  datatype Affinity = IntegerAffinity | RealAffinity | TextAffinity | NumericAffinity

  /** Column affinity, for the type names the library writes: DATETIME, like any unknown name, is numeric. */
  function AffinityOf(typeName: string): Affinity {
    if typeName == "INTEGER" then IntegerAffinity
    else if typeName == "REAL" then RealAffinity
    else if typeName == "TEXT" then TextAffinity
    else NumericAffinity
  }

  /** A whole number in plain decimal form. */
  function ParseWhole(s: string): Option<int> {
    var u := if s != "" && s[0] == '-' then s[1..] else s;
    if u == "" || LeadingDigits(u) != |u| then None else
    assert u[..|u|] == u;
    Some(if u != s then 0 - Value(u) else Value(u) as int)
  }

  /** The value a text takes in a column: text that is a number becomes one, except in a text column. */
  function Convert(s: string, a: Affinity): Cell {
    if a == TextAffinity then Text(s) else
    match ParseWhole(s)
    case Some(n) => if a == RealAffinity || !(-0x8000_0000_0000_0000 <= n < 0x8000_0000_0000_0000)
                    then Real(n * 1_000_000) else Integer(n)
    case None =>
      match ParseReal(s)
      case Some(m) => if a != RealAffinity && m % 1_000_000 == 0 then Integer(m / 1_000_000) else Real(m)
      case None => Text(s)
  }

  function Micros(v: Cell): int
    requires v.Integer? || v.Real?
  {
    if v.Integer? then v.n * 1_000_000 else v.micro
  }

  predicate TextLess(s: string, t: string) {
    t != "" && (s == "" || s[0] < t[0] || (s[0] == t[0] && TextLess(s[1..], t[1..])))
  }

  /** Numbers come before text; NULL compares with nothing. */
  predicate Less(v: Cell, w: Cell) {
    match (v, w)
    case (Null, _) => false
    case (_, Null) => false
    case (Text(s), Text(t)) => TextLess(s, t)
    case (Text(_), _) => false
    case (_, Text(_)) => true
    case _ => Micros(v) < Micros(w)
  }

  predicate Same(v: Cell, w: Cell) {
    match (v, w)
    case (Null, _) => false
    case (_, Null) => false
    case (Text(s), Text(t)) => s == t
    case (Text(_), _) => false
    case (_, Text(_)) => false
    case _ => Micros(v) == Micros(w)
  }

  /** The text of a value, as LIKE sees it; a real keeps one digit after its point. */
  function TextOf(v: Cell): string {
    match v
    case Null => ""
    case Integer(n) => IntText(n)
    case Real(m) => var t := TrimmedReal(m); if t != "" && t[|t| - 1] == '.' then t + "0" else t
    case Text(s) => s
  }

  function Fold(c: char): char {
    if 'A' <= c <= 'Z' then c - 'A' + 'a' else c
  }

  /** LIKE: '%' stands for any text, '_' for any character, and ASCII letters match in either case. */
  predicate LikeMatches(pattern: string, s: string)
    decreases |pattern| + |s|
  {
    if pattern == "" then s == ""
    else if pattern[0] == '%' then LikeMatches(pattern[1..], s) || (s != "" && LikeMatches(pattern, s[1..]))
    else s != "" && (pattern[0] == '_' || Fold(pattern[0]) == Fold(s[0])) && LikeMatches(pattern[1..], s[1..])
  }

  /** Only the two cases of one ASCII letter are folded together. */
  lemma FoldedTogether(c: char, d: char)
    ensures Fold(c) == Fold(d) <==>
            c == d || ('A' <= c <= 'Z' && d as int == c as int + 32) || ('A' <= d <= 'Z' && c as int == d as int + 32)
  {
  }

  /** Names that are the same in upper case are those that differ in the case of ASCII letters alone. */
  lemma {:induction false} UpperTogether(s: string, t: string)
    ensures Upper(s) == Upper(t) <==> |s| == |t| && forall k :: 0 <= k < |s| ==> Fold(s[k]) == Fold(t[k])
  {
    if s != "" && t != "" {
      UpperTogether(s[1..], t[1..]);
      assert Upper(s)[1..] == Upper(s[1..]) && Upper(t)[1..] == Upper(t[1..]);
      assert Upper(s) == [Upper(s)[0]] + Upper(s[1..]) && Upper(t) == [Upper(t)[0]] + Upper(t[1..]);
      if |s| == |t| && forall k :: 0 <= k < |s| ==> Fold(s[k]) == Fold(t[k]) {
        assert forall k :: 0 <= k < |s| - 1 ==> s[1..][k] == s[k + 1] && t[1..][k] == t[k + 1];
        assert Fold(s[0]) == Fold(t[0]);
      }
      if Upper(s) == Upper(t) {
        assert Upper(s)[0] == Upper(t)[0];
        forall k | 0 <= k < |s| ensures Fold(s[k]) == Fold(t[k]) {
          if 0 < k { assert s[1..][k - 1] == s[k] && t[1..][k - 1] == t[k]; }
        }
      }
    }
  }

  /** LIKE sees a real as the shortest decimal with a digit behind its point. */
  lemma TextOfRealParses(m: int)
    ensures var t := TextOf(Real(m));
            && TrimmedReal(m) <= t && ParseReal(t) == Some(m)
            && t != "" && IsDigit(t[|t| - 1]) && (t != TrimmedReal(m) ==> t == TrimmedReal(m) + "0")
  {
    hide Value, NatText, Padded, Pow10, ParseReal, Trim, RealText, TextOf, AllDigits;
    var n := if m < 0 then -m else m;
    var (sign, whole, six) := (if m < 0 then "-" else "", NatText(n / 1_000_000), Padded(n % 1_000_000, 6));
    RealTextParts(m);
    var j := TrimKeepsPoint(sign + whole, six);
    PointIsFilled(m, sign + whole, six, j);
    var i := if j == 0 then 1 else j;
    ValueOfTrailingZeros(six, i);
    ParsesDecimal(m < 0, whole, six[..i]);
  }

  lemma PointIsFilled(m: int, head: string, six: string, j: nat)
    requires |six| == 6 && AllDigits(six) && j <= 6 && (forall k :: j <= k < 6 ==> six[k] == '0')
    requires TrimmedReal(m) == head + "." + six[..j]
    ensures var i := if j == 0 then 1 else j;
            && TextOf(Real(m)) == head + "." + six[..i] && AllDigits(six[..i]) && forall k :: i <= k < 6 ==> six[k] == '0'
    ensures var t := TextOf(Real(m));
            && TrimmedReal(m) <= t && t != "" && IsDigit(t[|t| - 1]) && (t != TrimmedReal(m) ==> t == TrimmedReal(m) + "0")
  {
    hide TrimmedReal;
    var t := TrimmedReal(m);
    if j == 0 {
      assert t[|t| - 1] == '.' && six[..1] == "0";
      assert t + "0" == head + "." + six[..1];
    } else {
      assert t[|t| - 1] == six[j - 1];
    }
  }

  /** A comparison of a stored value with a literal, to which the column's kind of affinity is applied first. */
  predicate Compares(op: Comparison, v: Cell, a: Affinity, l: Literal) {
    var w := Convert(l.text, if a == TextAffinity then TextAffinity else NumericAffinity);
    match op
    case Eq => Same(v, w)
    case Ne => v != Null && !Same(v, w)
    case Lt => Less(v, w)
    case Le => Less(v, w) || Same(v, w)
    case Gt => Less(w, v)
    case Ge => Less(w, v) || Same(v, w)
    case LikePattern => v != Null && LikeMatches(l.text, TextOf(v))
  }

  // ----- Tables -----

  datatype Column = Column(name: string, affinity: Affinity)

  type Row = seq<Cell>

  /** Rows by the value of the first column, the INTEGER PRIMARY KEY. */
  datatype Table = Table(columns: seq<Column>, rows: map<int, Row>)

  type Tables = map<string, Table>

  /** The first of some names that equals a name in any case. */
  function IndexOf(names: seq<string>, name: string): (i: Option<nat>)
    ensures i.Some? ==> i.value < |names| && Upper(names[i.value]) == Upper(name)
  {
    if names == [] then None
    else if Upper(names[0]) == Upper(name) then Some(0)
    else
      match IndexOf(names[1..], name)
      case Some(i) => Some(i + 1)
      case None => None
  }

  function NamesOf(columns: seq<Column>): (ns: seq<string>)
    ensures |ns| == |columns|
  {
    seq(|columns|, j requires 0 <= j < |columns| => columns[j].name)
  }

  predicate Knows(columns: seq<Column>, c: Condition) {
    match c
    case Compare(name, _, _) => IndexOf(NamesOf(columns), name).Some?
    case And(l, r) => Knows(columns, l) && Knows(columns, r)
    case Or(l, r) => Knows(columns, l) && Knows(columns, r)
  }

  predicate Holds(columns: seq<Column>, row: Row, c: Condition)
    requires |row| == |columns| && Knows(columns, c)
  {
    match c
    case Compare(name, op, literal) =>
      var i := IndexOf(NamesOf(columns), name).value;
      Compares(op, row[i], columns[i].affinity, literal)
    case And(l, r) => Holds(columns, row, l) && Holds(columns, row, r)
    case Or(l, r) => Holds(columns, row, l) || Holds(columns, row, r)
  }

  predicate WellShaped(t: Table) {
    forall id :: id in t.rows ==> |t.rows[id]| == |t.columns|
  }

  // ----- Statements -----

  predicate DistinctNames(names: seq<string>) {
    forall i, j :: 0 <= i < j < |names| ==> Upper(names[i]) != Upper(names[j])
  }

  predicate ValidDefinition(defs: seq<ColumnDef>) {
    && defs != [] && defs[0].primaryKey && defs[0].typeName == "INTEGER"
    && (forall j :: 1 <= j < |defs| ==> !defs[j].primaryKey)
    && (forall i, j :: 0 <= i < j < |defs| ==> Upper(defs[i].name) != Upper(defs[j].name))
  }

  function ColumnsOf(defs: seq<ColumnDef>): seq<Column> {
    seq(|defs|, j requires 0 <= j < |defs| => Column(defs[j].name, AffinityOf(defs[j].typeName)))
  }

  /** The row an INSERT makes: each column takes the value listed for its name, converted, or NULL. */
  function InsertedRow(columns: seq<Column>, names: seq<string>, values: seq<Literal>): (row: Row)
    requires |names| == |values|
    ensures |row| == |columns|
  {
    seq(|columns|, j requires 0 <= j < |columns| =>
      match IndexOf(names, columns[j].name)
      case Some(k) => Convert(values[k].text, columns[j].affinity)
      case None => Null)
  }

  function AssignmentNames(a: seq<Assignment>): (ns: seq<string>)
    ensures |ns| == |a|
  {
    seq(|a|, j requires 0 <= j < |a| => a[j].column)
  }

  function UpdatedRow(columns: seq<Column>, assignments: seq<Assignment>, row: Row): (r: Row)
    requires |row| == |columns|
    ensures |r| == |columns|
  {
    seq(|columns|, j requires 0 <= j < |columns| =>
      match IndexOf(AssignmentNames(assignments), columns[j].name)
      case Some(k) => Convert(assignments[k].literal.text, columns[j].affinity)
      case None => row[j])
  }

  /** What a statement makes of the tables, or nothing when it violates a constraint or names something unknown. Tables
      without a leading INTEGER PRIMARY KEY, and updates of that key, are outside the model and rejected. */
  function Run(ts: Tables, st: Statement): Option<Tables> {
    match st
    case CreateTable(name, defs) =>
      if Upper(name) in ts then Some(ts)
      else if ValidDefinition(defs) then Some(ts[Upper(name) := Table(ColumnsOf(defs), map[])])
      else None
    case Insert(name, names, values) =>
      if Upper(name) !in ts || |names| != |values| then None else
      var t := ts[Upper(name)];
      if exists k :: 0 <= k < |names| && IndexOf(NamesOf(t.columns), names[k]).None? then None else
      var row := InsertedRow(t.columns, names, values);
      if row == [] || !row[0].Integer? || row[0].n in t.rows then None
      else Some(ts[Upper(name) := t.(rows := t.rows[row[0].n := row])])
    case Update(name, assignments, where) =>
      if Upper(name) !in ts then None else
      var t := ts[Upper(name)];
      if !WellShaped(t) || t.columns == [] || !Knows(t.columns, where)
         || IndexOf(AssignmentNames(assignments), t.columns[0].name).Some?
         || exists k :: 0 <= k < |assignments| && IndexOf(NamesOf(t.columns), assignments[k].column).None?
      then None
      else Some(ts[Upper(name) := t.(rows := map id | id in t.rows ::
             if Holds(t.columns, t.rows[id], where) then UpdatedRow(t.columns, assignments, t.rows[id])
             else t.rows[id])])
    case Delete(name, where) =>
      if Upper(name) !in ts then None else
      var t := ts[Upper(name)];
      if !WellShaped(t) || !Knows(t.columns, where) then None
      else Some(ts[Upper(name) := t.(rows := map id | id in t.rows && !Holds(t.columns, t.rows[id], where) :: t.rows[id])])
    case _ => None
  }

  // ----- Queries -----

  lemma {:induction false} HasLeast(keys: set<int>)
    requires keys != {}
    ensures exists m :: m in keys && forall k :: k in keys ==> m <= k
  {
    assert exists k :: k in keys by {
      assert (forall k :: k !in keys) ==> keys == {};
    }
    var x :| x in keys;
    if keys - {x} == {} {
      assert keys == {x};
    } else {
      HasLeast(keys - {x});
      var m :| m in keys - {x} && forall k :: k in keys - {x} ==> m <= k;
      var least := if x <= m then x else m;
      assert forall k :: k in keys ==> k == x || k in keys - {x};
      assert least in keys && forall k :: k in keys ==> least <= k;
    }
  }

  function Least(keys: set<int>): (m: int)
    requires keys != {}
    ensures m in keys && forall k :: k in keys ==> m <= k
  {
    HasLeast(keys);
    var m :| m in keys && forall k :: k in keys ==> m <= k;
    m
  }

  /** The keys in the order a scan visits them. */
  function Ascending(keys: set<int>): (s: seq<int>)
    ensures |s| == |keys|
    ensures forall k :: k in s <==> k in keys
    ensures forall i, j :: 0 <= i < j < |s| ==> s[i] < s[j]
    decreases |keys|
  {
    if keys == {} then []
    else
      var m := Least(keys);
      var rest := Ascending(keys - {m});
      assert forall i :: 0 <= i < |rest| ==> rest[i] in rest;
      assert forall k :: k in [m] + rest <==> k == m || k in rest;
      [m] + rest
  }

  /** The keys of the rows that satisfy a filter. */
  function Selected(t: Table, filter: Option<Condition>): set<int>
    requires WellShaped(t) && (filter.Some? ==> Knows(t.columns, filter.value))
  {
    set id | id in t.rows && (filter.Some? ==> Holds(t.columns, t.rows[id], filter.value))
  }

  /** The rows a SELECT * yields, or nothing when it cannot be prepared. */
  function Query(ts: Tables, st: Statement): Option<seq<Row>> {
    if !st.SelectAll? || Upper(st.table) !in ts then None else
    var t := ts[Upper(st.table)];
    if !WellShaped(t) || (st.filter.Some? && !Knows(t.columns, st.filter.value)) then None else
    var keys := Ascending(Selected(t, st.filter));
    assert forall i :: 0 <= i < |keys| ==> keys[i] in keys;
    Some(seq(|keys|, i requires 0 <= i < |keys| => t.rows[keys[i]]))
  }

  /** The value SELECT MAX(key) yields: NULL for an empty table. */
  function QueryMax(ts: Tables, st: Statement): Option<Cell> {
    if !st.SelectMax? || Upper(st.table) !in ts then None else
    var t := ts[Upper(st.table)];
    if t.columns == [] || Upper(t.columns[0].name) != Upper(st.column) then None else
    var keys := Ascending(t.rows.Keys);
    Some(if keys == [] then Null else Integer(keys[|keys| - 1]))
  }

  // ----- Transactions -----

  /** A failure that comes from outside: a lock, a full disk. Some failures also end the open transaction. */
  datatype Fault = NoFault | Fails | FailsAndRollsBack

  datatype Transaction = AutoCommit | Open(saved: Tables)

  /** The state of a connection: the tables it sees, its transaction, and the faults that await its next statements. */
  datatype Connection = Connection(tables: Tables, txn: Transaction, faults: seq<Fault>) {
    /** The tables as other connections see them. */
    function Committed(): Tables {
      if txn.Open? then txn.saved else tables
    }

    function RolledBack(): Connection {
      Connection(Committed(), AutoCommit, faults)
    }
  }

  datatype Outcome = Outcome(after: Connection, ok: bool)

  /** `sqlite3_exec` of one statement. */
  function Exec(c: Connection, sql: string): Outcome {
    var fault := if c.faults == [] then NoFault else c.faults[0];
    var c := c.(faults := if c.faults == [] then [] else c.faults[1..]);
    if fault == Fails then Outcome(c, false)
    else if fault == FailsAndRollsBack then Outcome(c.RolledBack(), false)
    else
      match ParseStatement(Lex(sql))
      case None => Outcome(c, false)
      case Some(Begin) =>
        if c.txn.Open? then Outcome(c, false) else Outcome(c.(txn := Open(c.tables)), true)
      case Some(Commit) =>
        if c.txn.Open? then Outcome(c.(txn := AutoCommit), true) else Outcome(c, false)
      case Some(Rollback) =>
        if c.txn.Open? then Outcome(c.RolledBack(), true) else Outcome(c, false)
      case Some(st) =>
        match Run(c.tables, st)
        case None => Outcome(c, false)
        case Some(ts) => Outcome(c.(tables := ts), true)
  }

  class Sqlite {
    var tables: Tables
    var txn: Transaction
    var faults: seq<Fault>
    /** A closed connection may not be used again. */
    var open: bool

    function State(): Connection
      reads this
    {
      Connection(tables, txn, faults)
    }

    constructor (tables: Tables, faults: seq<Fault>)
      ensures State() == Connection(tables, AutoCommit, faults) && open
    {
      this.tables, this.txn, this.faults, open := tables, AutoCommit, faults, true;
    }

    /** `sqlite3_exec`; its result is 0 exactly when the statement succeeded. */
    method ExecSql(sql: string) returns (rc: int)
      requires open
      modifies this`tables, this`txn, this`faults
      ensures State() == Exec(old(State()), sql).after
      ensures rc == 0 <==> Exec(old(State()), sql).ok
    {
      var r := Exec(State(), sql);
      tables, txn, faults := r.after.tables, r.after.txn, r.after.faults;
      rc := if r.ok then 0 else 1;
    }

    /** `sqlite3_close` */
    method Close()
      requires open
      modifies this`open
      ensures !open
    {
      open := false;
    }
  }
}
