/** The statements of the SQL subset the library writes, and their parser: AND binds tighter than OR, parentheses group
    (section 8.12 of SQL-92). */
module SqlParser {
  import opened WideInput
  import opened SqlLexer

  datatype Literal = NumberLiteral(text: string) | TextLiteral(text: string)

  datatype Comparison = Eq | Ne | Lt | Le | Gt | Ge | LikePattern

  datatype Condition =
    | Compare(column: string, op: Comparison, literal: Literal)
    | And(left: Condition, right: Condition)
    | Or(left: Condition, right: Condition)

  datatype ColumnDef = ColumnDef(name: string, typeName: string, primaryKey: bool)

  datatype Assignment = Assignment(column: string, literal: Literal)

  datatype Statement =
    | CreateTable(table: string, columns: seq<ColumnDef>)
    | Insert(table: string, names: seq<string>, values: seq<Literal>)
    | Update(table: string, assignments: seq<Assignment>, where: Condition)
    | Delete(table: string, where: Condition)
    | SelectAll(table: string, filter: Option<Condition>)
    | SelectMax(column: string, table: string)
    | Begin
    | Commit
    | Rollback

  function Upper(s: string): (u: string)
    ensures |u| == |s|
  {
    if s == "" then "" else [if 'a' <= s[0] <= 'z' then s[0] - 'a' + 'A' else s[0]] + Upper(s[1..])
  }

  /** The keywords of the subset. */
  function Keywords(): seq<string> {
    ["CREATE", "TABLE", "IF", "NOT", "EXISTS", "PRIMARY", "KEY", "INSERT", "INTO", "VALUES", "UPDATE", "SET",
     "DELETE", "FROM", "SELECT", "WHERE", "AND", "OR", "LIKE", "BEGIN", "TRANSACTION", "COMMIT", "ROLLBACK"]
  }

  /** The words beyond the subset that SQLite keeps from names. */
  function Reserved(): seq<string> {
    ["ADD", "ALL", "ALTER", "AS", "AUTOINCREMENT", "BETWEEN", "CASE", "CHECK", "COLLATE", "CONSTRAINT", "DEFAULT",
     "DEFERRABLE", "DISTINCT", "DROP", "ELSE", "ESCAPE", "EXCEPT", "FOREIGN", "GROUP", "HAVING", "IN", "INDEX",
     "INTERSECT", "IS", "ISNULL", "JOIN", "LIMIT", "NOTHING", "NOTNULL", "NULL", "ON", "ORDER", "REFERENCES",
     "RETURNING", "THEN", "TO", "UNION", "UNIQUE", "USING", "WHEN"]
  }

  /** The words that SQLite takes for something else than a column in a condition. */
  function Expressions(): seq<string> {
    ["CAST", "CURRENT_DATE", "CURRENT_TIME", "CURRENT_TIMESTAMP", "RAISE"]
  }

  /** What a table or a column may be called. */
  predicate IsName(s: string) { IsIdentifier(s) && !IsWord(Upper(s)) }

  predicate IsWord(u: string) {
    (exists w <- Keywords() :: w == u) || (exists w <- Reserved() :: w == u) || (exists w <- Expressions() :: w == u)
  }

  lemma KeywordIsWord(k: nat)
    requires k < |Keywords()|
    ensures IsWord(Keywords()[k])
  {
    hide Keywords;
    assert Keywords()[k] in Keywords();
  }

  lemma ClauseKeywords()
    ensures |Keywords()| == 23 && Keywords()[15] == "WHERE" && Keywords()[16] == "AND" && Keywords()[17] == "OR"
  {
  }

  datatype Parse<T> = Failed | Parsed(value: T, rest: seq<Token>)

  // ----- Conditions -----

  function ComparisonOf(t: Token): Option<Comparison> {
    match t
    case Symbol("=") => Some(Eq)
    case Symbol("!=") => Some(Ne)
    case Symbol("<") => Some(Lt)
    case Symbol("<=") => Some(Le)
    case Symbol(">") => Some(Gt)
    case Symbol(">=") => Some(Ge)
    case Word("LIKE") => Some(LikePattern)
    case _ => None
  }

  function LiteralOf(t: Token): Option<Literal> {
    match t
    case Number(s) => Some(NumberLiteral(s))
    case Quoted(s) => Some(TextLiteral(s))
    case _ => None
  }

  /** column comparison literal, or a condition in parentheses */
  function ParsePrimary(ts: seq<Token>): (p: Parse<Condition>)
    ensures p.Parsed? ==> |p.rest| < |ts|
    decreases |ts|, 0
  {
    if ts == [] then Failed
    else if ts[0] == Symbol("(") then
      match ParseOr(ts[1..])
      case Failed => Failed
      case Parsed(c, rest) => if rest != [] && rest[0] == Symbol(")") then Parsed(c, rest[1..]) else Failed
    else if ts[0].Word? && IsName(ts[0].text) && 3 <= |ts| then
      match (ComparisonOf(ts[1]), LiteralOf(ts[2]))
      case (Some(op), Some(literal)) => Parsed(Compare(ts[0].text, op, literal), ts[3..])
      case _ => Failed
    else Failed
  }

  function ParseAnd(ts: seq<Token>): (p: Parse<Condition>)
    ensures p.Parsed? ==> |p.rest| < |ts|
    decreases |ts|, 1
  {
    match ParsePrimary(ts)
    case Failed => Failed
    case Parsed(c, rest) => AndTail(c, rest)
  }

  function AndTail(left: Condition, ts: seq<Token>): (p: Parse<Condition>)
    ensures p.Parsed? ==> |p.rest| <= |ts|
    decreases |ts|, 1
  {
    if ts == [] || ts[0] != Word("AND") then Parsed(left, ts)
    else
      match ParsePrimary(ts[1..])
      case Failed => Failed
      case Parsed(c, rest) => AndTail(And(left, c), rest)
  }

  function ParseOr(ts: seq<Token>): (p: Parse<Condition>)
    ensures p.Parsed? ==> |p.rest| < |ts|
    decreases |ts|, 2
  {
    match ParseAnd(ts)
    case Failed => Failed
    case Parsed(c, rest) => OrTail(c, rest)
  }

  function OrTail(left: Condition, ts: seq<Token>): (p: Parse<Condition>)
    ensures p.Parsed? ==> |p.rest| <= |ts|
    decreases |ts|, 2
  {
    if ts == [] || ts[0] != Word("OR") then Parsed(left, ts)
    else
      match ParseAnd(ts[1..])
      case Failed => Failed
      case Parsed(c, rest) => OrTail(Or(left, c), rest)
  }

  // ----- Lists -----

  const COMMA := Symbol(",")

  predicate EndsList(t: Token) { t == Symbol(")") || t == Word("WHERE") || t == Symbol(";") }

  datatype Items = Items(items: seq<seq<Token>>, rest: seq<Token>)

  /** The comma-separated items up to the end of a list. */
  function SplitItems(ts: seq<Token>): (r: Items)
    ensures 1 <= |r.items|
  {
    if ts == [] || EndsList(ts[0]) then Items([[]], ts)
    else
      var r := SplitItems(ts[1..]);
      if ts[0] == COMMA then Items([[]] + r.items, r.rest)
      else Items([[ts[0]] + r.items[0]] + r.items[1..], r.rest)
  }

  /** Applies a parser of one item to all of them; one failure fails the list. */
  function All<T>(items: seq<seq<Token>>, f: seq<Token> -> Option<T>): Option<seq<T>> {
    if items == [] then Some([])
    else
      match (f(items[0]), All(items[1..], f))
      case (Some(x), Some(xs)) => Some([x] + xs)
      case _ => None
  }

  function NameItem(item: seq<Token>): Option<string> {
    if |item| == 1 && item[0].Word? && IsName(item[0].text) then Some(item[0].text) else None
  }

  function LiteralItem(item: seq<Token>): Option<Literal> {
    if |item| == 1 then LiteralOf(item[0]) else None
  }

  function ColumnItem(item: seq<Token>): Option<ColumnDef> {
    if |item| < 2 || !item[0].Word? || !IsName(item[0].text) || !item[1].Word? then None
    else if |item| == 2 then Some(ColumnDef(item[0].text, item[1].text, false))
    else if item[2..] == [Word("PRIMARY"), Word("KEY")] then Some(ColumnDef(item[0].text, item[1].text, true))
    else None
  }

  function AssignmentItem(item: seq<Token>): Option<Assignment> {
    if |item| != 3 || !item[0].Word? || !IsName(item[0].text) || item[1] != Symbol("=") then None
    else
      match LiteralOf(item[2])
      case Some(l) => Some(Assignment(item[0].text, l))
      case None => None
  }

  // ----- Statements -----

  /** A fixed run of tokens followed by a name. */
  function NameAfter(ts: seq<Token>, prefix: seq<Token>): Parse<string> {
    if prefix <= ts && |prefix| < |ts| && ts[|prefix|].Word? && IsName(ts[|prefix|].text)
    then Parsed(ts[|prefix|].text, ts[|prefix| + 1..])
    else Failed
  }

  /** A list in parentheses, and what follows it. */
  function Parenthesised(ts: seq<Token>): Parse<seq<seq<Token>>> {
    if ts == [] || ts[0] != Symbol("(") then Failed else
    var r := SplitItems(ts[1..]);
    if r.rest != [] && r.rest[0] == Symbol(")") then Parsed(r.items, r.rest[1..]) else Failed
  }

  /** WHERE, a condition and the end of the statement. */
  function WhereClause(ts: seq<Token>): Option<Condition> {
    if ts == [] || ts[0] != Word("WHERE") then None else
    match ParseOr(ts[1..])
    case Parsed(c, rest) => if rest == END then Some(c) else None
    case Failed => None
  }

  const CREATE := [Word("CREATE"), Word("TABLE"), Word("IF"), Word("NOT"), Word("EXISTS")]
  const INSERT := [Word("INSERT"), Word("INTO")]
  const UPDATE := [Word("UPDATE")]
  const DELETE := [Word("DELETE"), Word("FROM")]
  const SELECT_ALL := [Word("SELECT"), Symbol("*"), Word("FROM")]
  const SELECT_MAX := [Word("SELECT"), Word("MAX"), Symbol("(")]
  const END := [Symbol(";")]

  function ParseCreate(ts: seq<Token>): Option<Statement> {
    match NameAfter(ts, CREATE)
    case Failed => None
    case Parsed(table, r1) =>
      match Parenthesised(r1)
      case Failed => None
      case Parsed(items, r2) =>
        match All(items, ColumnItem)
        case None => None
        case Some(columns) => if r2 == END then Some(CreateTable(table, columns)) else None
  }

  function ParseInsert(ts: seq<Token>): Option<Statement> {
    match NameAfter(ts, INSERT)
    case Failed => None
    case Parsed(table, r1) =>
      match Parenthesised(r1)
      case Failed => None
      case Parsed(nameItems, r2) =>
        if r2 == [] || r2[0] != Word("VALUES") then None else
        match Parenthesised(r2[1..])
        case Failed => None
        case Parsed(valueItems, r3) =>
          match (All(nameItems, NameItem), All(valueItems, LiteralItem))
          case (Some(names), Some(values)) => if r3 == END then Some(Insert(table, names, values)) else None
          case _ => None
  }

  function ParseUpdate(ts: seq<Token>): Option<Statement> {
    match NameAfter(ts, UPDATE)
    case Failed => None
    case Parsed(table, r1) =>
      if r1 == [] || r1[0] != Word("SET") then None else
      var r := SplitItems(r1[1..]);
      match (All(r.items, AssignmentItem), WhereClause(r.rest))
      case (Some(assignments), Some(where)) => Some(Update(table, assignments, where))
      case _ => None
  }

  function ParseDelete(ts: seq<Token>): Option<Statement> {
    match NameAfter(ts, DELETE)
    case Failed => None
    case Parsed(table, r1) =>
      match WhereClause(r1)
      case Some(where) => Some(Delete(table, where))
      case None => None
  }

  function ParseSelect(ts: seq<Token>): Option<Statement> {
    match NameAfter(ts, SELECT_ALL)
    case Parsed(table, r1) =>
      if r1 == END then Some(SelectAll(table, None))
      else
        (match WhereClause(r1)
         case Some(where) => Some(SelectAll(table, Some(where)))
         case None => None)
    case Failed =>
      match NameAfter(ts, SELECT_MAX)
      case Failed => None
      case Parsed(column, r1) =>
        match NameAfter(r1, [Symbol(")"), Word("FROM")])
        case Failed => None
        case Parsed(table, r2) => if r2 == END then Some(SelectMax(column, table)) else None
  }

  function ParseStatement(ts: seq<Token>): Option<Statement> {
    if ts == [Word("BEGIN"), Word("TRANSACTION")] + END then Some(Begin)
    else if ts == [Word("COMMIT")] + END then Some(Commit)
    else if ts == [Word("ROLLBACK")] + END then Some(Rollback)
    else if ts == [] then None
    else
      match ts[0]
      case Word("CREATE") => ParseCreate(ts)
      case Word("INSERT") => ParseInsert(ts)
      case Word("UPDATE") => ParseUpdate(ts)
      case Word("DELETE") => ParseDelete(ts)
      case Word("SELECT") => ParseSelect(ts)
      case _ => None
  }

  // ----- Conditions survive parsing -----

  function ComparisonToken(op: Comparison): (t: Token)
    ensures ComparisonOf(t) == Some(op)
  {
    match op
    case Eq => Symbol("=")
    case Ne => Symbol("!=")
    case Lt => Symbol("<")
    case Le => Symbol("<=")
    case Gt => Symbol(">")
    case Ge => Symbol(">=")
    case LikePattern => Word("LIKE")
  }

  function LiteralToken(l: Literal): (t: Token)
    ensures LiteralOf(t) == Some(l)
  {
    match l
    case NumberLiteral(s) => Number(s)
    case TextLiteral(s) => Quoted(s)
  }

  predicate Named(c: Condition) {
    match c
    case Compare(column, _, _) => IsName(column)
    case And(l, r) => Named(l) && Named(r)
    case Or(l, r) => Named(l) && Named(r)
  }

  /** The tokens of a condition with every connective in parentheses. */
  function ConditionTokens(c: Condition): (ts: seq<Token>)
    ensures ts != []
  {
    match c
    case Compare(column, op, literal) => [Word(column), ComparisonToken(op), LiteralToken(literal)]
    case And(l, r) => [Symbol("(")] + ConditionTokens(l) + [Word("AND")] + ConditionTokens(r) + [Symbol(")")]
    case Or(l, r) => [Symbol("(")] + ConditionTokens(l) + [Word("OR")] + ConditionTokens(r) + [Symbol(")")]
  }

  predicate Follows(rest: seq<Token>, keyword: string) {
    rest != [] && rest[0] == Word(keyword)
  }

  lemma OneConjunct(ts: seq<Token>, c: Condition, rest: seq<Token>)
    requires ParsePrimary(ts) == Parsed(c, rest) && !Follows(rest, "AND")
    ensures ParseAnd(ts) == Parsed(c, rest)
  {
  }

  lemma TwoConjuncts(ts: seq<Token>, l: Condition, mid: seq<Token>, r: Condition, rest: seq<Token>)
    requires ParsePrimary(ts) == Parsed(l, [Word("AND")] + mid)
    requires ParsePrimary(mid) == Parsed(r, rest) && !Follows(rest, "AND")
    ensures ParseAnd(ts) == Parsed(And(l, r), rest)
  {
    hide ParsePrimary;
    var tail := [Word("AND")] + mid;
    assert tail[1..] == mid;
    assert AndTail(l, tail) == AndTail(And(l, r), rest);
  }

  lemma OneDisjunct(ts: seq<Token>, c: Condition, rest: seq<Token>)
    requires ParseAnd(ts) == Parsed(c, rest) && !Follows(rest, "OR")
    ensures ParseOr(ts) == Parsed(c, rest)
  {
  }

  lemma TwoDisjuncts(ts: seq<Token>, l: Condition, mid: seq<Token>, r: Condition, rest: seq<Token>)
    requires ParseAnd(ts) == Parsed(l, [Word("OR")] + mid)
    requires ParseAnd(mid) == Parsed(r, rest) && !Follows(rest, "OR")
    ensures ParseOr(ts) == Parsed(Or(l, r), rest)
  {
    hide ParseAnd;
    var tail := [Word("OR")] + mid;
    assert tail[1..] == mid;
    assert OrTail(l, tail) == OrTail(Or(l, r), rest);
  }

  lemma Grouped(inner: seq<Token>, c: Condition, rest: seq<Token>)
    requires ParseOr(inner) == Parsed(c, [Symbol(")")] + rest)
    ensures ParsePrimary([Symbol("(")] + inner) == Parsed(c, rest)
  {
    hide ParseOr;
    assert ([Symbol("(")] + inner)[1..] == inner;
    assert ([Symbol(")")] + rest)[1..] == rest;
  }

  lemma ComparisonPrimary(column: string, op: Comparison, literal: Literal, rest: seq<Token>)
    requires IsName(column)
    ensures ParsePrimary([Word(column), ComparisonToken(op), LiteralToken(literal)] + rest)
            == Parsed(Compare(column, op, literal), rest)
  {
    hide IsName, ComparisonOf, ComparisonToken, LiteralOf, LiteralToken;
    var ts := [Word(column), ComparisonToken(op), LiteralToken(literal)] + rest;
    assert ts[0] == Word(column) && ts[1] == ComparisonToken(op) && ts[2] == LiteralToken(literal) && ts[3..] == rest;
  }

  lemma NestGroup(l: seq<Token>, op: Token, r: seq<Token>, rest: seq<Token>)
    ensures [Symbol("(")] + l + [op] + r + [Symbol(")")] + rest
            == [Symbol("(")] + (l + ([op] + (r + ([Symbol(")")] + rest))))
  {
  }

  /** Fully parenthesised tokens parse to the condition they were made from, whatever follows. */
  lemma {:induction false} PrimaryOfTokens(c: Condition, rest: seq<Token>)
    requires Named(c)
    ensures ParsePrimary(ConditionTokens(c) + rest) == Parsed(c, rest)
    decreases c
  {
    hide ParsePrimary, ParseAnd, ParseOr, AndTail, OrTail, IsName;
    match c
    case Compare(column, op, literal) =>
      ComparisonPrimary(column, op, literal, rest);
    case And(l, r) =>
      var afterR := [Symbol(")")] + rest;
      var right := ConditionTokens(r) + afterR;
      var inner := ConditionTokens(l) + ([Word("AND")] + right);
      PrimaryOfTokens(l, [Word("AND")] + right);
      PrimaryOfTokens(r, afterR);
      TwoConjuncts(inner, l, right, r, afterR);
      OneDisjunct(inner, c, afterR);
      Grouped(inner, c, rest);
      NestGroup(ConditionTokens(l), Word("AND"), ConditionTokens(r), rest);
    case Or(l, r) =>
      var afterR := [Symbol(")")] + rest;
      var right := ConditionTokens(r) + afterR;
      var inner := ConditionTokens(l) + ([Word("OR")] + right);
      PrimaryOfTokens(l, [Word("OR")] + right);
      PrimaryOfTokens(r, afterR);
      OneConjunct(inner, l, [Word("OR")] + right);
      OneConjunct(right, r, afterR);
      TwoDisjuncts(inner, l, right, r, afterR);
      Grouped(inner, c, rest);
      NestGroup(ConditionTokens(l), Word("OR"), ConditionTokens(r), rest);
  }

  lemma ConditionOfTokens(c: Condition, rest: seq<Token>)
    requires Named(c) && !Follows(rest, "AND") && !Follows(rest, "OR")
    ensures ParseOr(ConditionTokens(c) + rest) == Parsed(c, rest)
  {
    hide ParsePrimary, ParseAnd, ParseOr;
    PrimaryOfTokens(c, rest);
    OneConjunct(ConditionTokens(c) + rest, c, rest);
    OneDisjunct(ConditionTokens(c) + rest, c, rest);
  }

  /** Without the parentheses AND would bind tighter: this is how "a OR b AND c" parses. */
  lemma AndBindsTighter(a: Condition, b: Condition, c: Condition)
    requires Named(a) && Named(b) && Named(c)
    ensures ParseOr(ConditionTokens(a) + ([Word("OR")] + (ConditionTokens(b) + ([Word("AND")] + (ConditionTokens(c) + [])))))
            == Parsed(Or(a, And(b, c)), [])
  {
    hide ParsePrimary, ParseAnd, ParseOr, ConditionTokens;
    var tc := ConditionTokens(c) + [];
    var tb := ConditionTokens(b) + ([Word("AND")] + tc);
    var ta := ConditionTokens(a) + ([Word("OR")] + tb);
    PrimaryOfTokens(a, [Word("OR")] + tb);
    PrimaryOfTokens(b, [Word("AND")] + tc);
    PrimaryOfTokens(c, []);
    OneConjunct(ta, a, [Word("OR")] + tb);
    TwoConjuncts(tb, b, tc, c, []);
    TwoDisjuncts(ta, a, tb, And(b, c), []);
  }

  // ----- Lists survive parsing -----

  predicate PlainItem(item: seq<Token>) {
    item != [] && forall k :: 0 <= k < |item| ==> item[k] != COMMA && !EndsList(item[k])
  }

  function JoinItems(items: seq<seq<Token>>): seq<Token> {
    if items == [] then [] else if |items| == 1 then items[0] else items[0] + ([COMMA] + JoinItems(items[1..]))
  }

  lemma {:induction false} SplitOneItem(item: seq<Token>, rest: seq<Token>)
    requires forall k :: 0 <= k < |item| ==> item[k] != COMMA && !EndsList(item[k])
    ensures var r := SplitItems(rest);
            SplitItems(item + rest) == Items([item + r.items[0]] + r.items[1..], r.rest)
    decreases item
  {
    var r := SplitItems(rest);
    if item == [] {
      assert item + rest == rest && item + r.items[0] == r.items[0];
      assert [r.items[0]] + r.items[1..] == r.items;
    } else {
      assert (item + rest)[1..] == item[1..] + rest;
      SplitOneItem(item[1..], rest);
      assert [item[0]] + (item[1..] + r.items[0]) == item + r.items[0];
    }
  }

  /** Joined items are split again. */
  lemma {:induction false} SplitOfJoin(items: seq<seq<Token>>, rest: seq<Token>)
    requires items != [] && forall k :: 0 <= k < |items| ==> PlainItem(items[k])
    requires rest != [] && EndsList(rest[0])
    ensures SplitItems(JoinItems(items) + rest) == Items(items, rest)
    decreases items
  {
    if |items| == 1 {
      SplitOneItem(items[0], rest);
      assert items[0] + [] == items[0] && [items[0]] == items;
    } else {
      var more := JoinItems(items[1..]) + rest;
      var tail := [COMMA] + more;
      assert JoinItems(items) + rest == items[0] + tail;
      assert tail[1..] == more;
      SplitOfJoin(items[1..], rest);
      assert SplitItems(tail) == Items([[]] + items[1..], rest);
      SplitOneItem(items[0], tail);
      assert items[0] + [] == items[0] && ([[]] + items[1..])[1..] == items[1..];
      assert [items[0]] + items[1..] == items;
    }
  }

  lemma {:induction false} AllOf<T>(items: seq<seq<Token>>, f: seq<Token> -> Option<T>, values: seq<T>)
    requires |items| == |values| && forall k :: 0 <= k < |items| ==> f(items[k]) == Some(values[k])
    ensures All(items, f) == Some(values)
    decreases items
  {
    if items != [] {
      AllOf(items[1..], f, values[1..]);
      assert [values[0]] + values[1..] == values;
    }
  }
}
