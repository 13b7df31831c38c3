/** The SQL each query prepares, and the statement it is to the engine. */
module Queries {
  import opened DecimalText
  import opened WideInput
  import opened StringUtilities
  import opened Reflection
  import TimePoint
  import opened SqlLexer
  import opened SqlParser
  import opened SqlEngine
  import opened Records
  import opened QueryPredicates

  /** A registered type that can be a table: legal, distinct names, `id` first, and at least one more member. Names that
      start with "sqlite_" belong to SQLite. */
  predicate ValidType(r: Reflected) {
    && IsName(r.name) && !("SQLITE_" <= Upper(r.name)) && 2 <= |r.members|
    && r.members[0].name == ID && r.members[0].class_ == KInt
    && (forall k :: 0 <= k < |r.members| ==> IsName(r.members[k].name))
    && DistinctMembers(r.members)
  }

  // ----- The prepared texts -----

  /** `Query::GetRecordColumnNames` */
  function ColumnNames(r: Reflected): (names: seq<string>)
    ensures |names| == |r.members|
  {
    seq(|r.members|, k requires 0 <= k < |r.members| => r.members[k].name)
  }

  /** `CreateTableQuery::CustomizedColumnName` for every column. */
  function ColumnDefinitions(r: Reflected): (defs: seq<string>)
    ensures |defs| == |r.members|
  {
    seq(|r.members|, k requires 0 <= k < |r.members| =>
      r.members[k].name + " " + r.members[k].ColumnTypeName() + (if r.members[k].name == ID then " PRIMARY KEY" else ""))
  }

  /** `ExecutionQuery::GetValues` */
  method GetValues(record: Record, r: Reflected) returns (values: seq<string>)
    requires FitsMembers(record, r.members)
    ensures values == QuotedValues(record)
  {
    hide NatText, TrimmedReal, TimePoint.SystemTimeText, TimePoint.Representable, TimePoint.CivilYear, IsName;
    values := [];
    var j := 0;
    while j < |r.members|
      invariant 0 <= j <= |record| && values == QuotedValues(record)[..j]
    {
      var content := "";
      match record[j] {
        case IntField(v) => content := FromInt(v);
        case BoolField(b) => content := FromInt(if b then 1 else 0);
        case RealField(m) => content := FromDouble(m);
        case TextField(s) => content := s;
        case DateField(t) => content := TimePoint.SystemTime(t);
      }
      values := values + ["'" + content + "'"];
      j := j + 1;
    }
  }

  function QuotedValues(record: Record): (values: seq<string>)
    requires forall k :: 0 <= k < |record| ==> Storable(record[k])
    ensures |values| == |record|
  {
    seq(|record|, k requires 0 <= k < |record| => "'" + ContentOf(record[k]) + "'")
  }

  function PrepareCreate(r: Reflected): string {
    "CREATE TABLE IF NOT EXISTS " + r.name + " (" + Join(ColumnDefinitions(r), ", ") + ");"
  }

  function InsertText(r: Reflected, values: seq<string>): string {
    "INSERT INTO " + r.name + " (" + Join(ColumnNames(r), ", ") + ") VALUES (" + Join(values, ", ") + ");"
  }

  function PrepareInsert(r: Reflected, record: Record): string
    requires FitsMembers(record, r.members)
  {
    InsertText(r, QuotedValues(record))
  }

  /** The assignments of an UPDATE: every column but the first, with the value at the same position. */
  function AssignmentTexts(columns: seq<string>, values: seq<string>): (ts: seq<string>)
    requires |columns| == |values| && 1 <= |columns|
    ensures |ts| == |columns| - 1
  {
    seq(|columns| - 1, k requires 0 <= k < |columns| - 1 => columns[k + 1] + "=" + values[k + 1])
  }

  function PrepareUpdate(r: Reflected, record: Record): string
    requires FitsMembers(record, r.members) && 1 <= |r.members|
  {
    var columns, values := ColumnNames(r), QuotedValues(record);
    "UPDATE " + r.name + " SET " + Join(AssignmentTexts(columns, values), ", ")
    + (" WHERE " + (columns[0] + "=" + values[0])) + ";"
  }

  function PrepareDelete(r: Reflected, p: Predicate): string {
    "DELETE FROM " + r.name + " WHERE " + Evaluate(p) + ";"
  }

  function PrepareFetch(r: Reflected, p: Predicate): string {
    "SELECT * FROM " + r.name + (if Evaluate(p) != "" then " WHERE " + Evaluate(p) else "") + ";"
  }

  function PrepareMax(r: Reflected): string {
    "SELECT MAX(id) FROM " + r.name + ";"
  }

  /** `InsertQuery::PrepareSql` */
  method InsertSql(r: Reflected, record: Record) returns (sql: string)
    requires FitsMembers(record, r.members)
    ensures sql == PrepareInsert(r, record)
  {
    hide Join, QuotedValues, ColumnNames;
    sql := "INSERT INTO ";
    sql := sql + (r.name + " (" + Join(ColumnNames(r), ", ") + ") VALUES (");
    var values := GetValues(record, r);
    sql := sql + (Join(values, ", ") + ");");
  }

  /** `UpdateQuery::PrepareSql` */
  method UpdateSql(r: Reflected, record: Record) returns (sql: string)
    requires FitsMembers(record, r.members) && 1 <= |r.members|
    ensures sql == PrepareUpdate(r, record)
  {
    hide Join, QuotedValues, ColumnNames;
    sql := "UPDATE " + r.name + " SET ";
    var columns := ColumnNames(r);
    var values := GetValues(record, r);
    var columnsWithValues := [];
    var k := 1;
    while k < |columns|
      invariant 1 <= k <= |columns| && columnsWithValues == AssignmentTexts(columns, values)[..k - 1]
    {
      columnsWithValues := columnsWithValues + [columns[k] + "=" + values[k]];
      k := k + 1;
    }
    assert columnsWithValues == AssignmentTexts(columns, values);
    sql := sql + Join(columnsWithValues, ", ");
    sql := sql + (" WHERE " + columns[0] + "=" + values[0]);
    sql := sql + ";";
  }

  // ----- How the fixed parts lex -----

  lemma TwoWordsLex(a: string, b: string)
    requires IsIdentifier(a) && IsIdentifier(b)
    ensures Lexes(a + " " + b + " ", [Word(a), Word(b)], true)
  {
    hide Lexes, IsIdentifier;
    WordSpaceLexes(a);
    WordSpaceLexes(b);
    LexesThen(a + " ", [Word(a)], true, b + " ", [Word(b)], true);
    assert a + " " + (b + " ") == a + " " + b + " ";
    assert [Word(a)] + [Word(b)] == [Word(a), Word(b)];
  }

  lemma SpacedWordLexes(w: string)
    requires IsIdentifier(w)
    ensures Lexes(" " + w + " ", [Word(w)], true)
  {
    hide Lexes, IsIdentifier;
    SpaceLexes();
    WordSpaceLexes(w);
    LexesThen(" ", [], true, w + " ", [Word(w)], true);
    assert [] + [Word(w)] == [Word(w)] && " " + (w + " ") == " " + w + " ";
  }

  lemma OpeningLexes()
    ensures Lexes(" (", [Symbol("(")], true)
  {
    hide Lexes;
    SpaceLexes();
    SymbolLexes('(');
    LexesThen(" ", [], true, "(", [Symbol("(")], true);
    assert [] + [Symbol("(")] == [Symbol("(")] && " " + "(" == " (";
  }

  lemma ClosingLexes()
    ensures Lexes(");", [Symbol(")"), Symbol(";")], true)
  {
    hide Lexes;
    SymbolLexes(')');
    SymbolLexes(';');
    LexesThen(")", [Symbol(")")], true, ";", [Symbol(";")], true);
    assert [Symbol(")")] + [Symbol(";")] == [Symbol(")"), Symbol(";")] && ")" + ";" == ");";
  }

  lemma CommaLexes()
    ensures Lexes(", ", [COMMA], true)
  {
    hide Lexes;
    SymbolLexes(',');
    SpaceLexes();
    LexesThen(",", [COMMA], true, " ", [], true);
    assert [COMMA] + [] == [COMMA] && "," + " " == ", ";
  }

  /** Texts joined with ", " lex to their items joined with commas. */
  lemma {:induction false} JoinLexes(texts: seq<string>, items: seq<seq<Token>>)
    requires texts != [] && |texts| == |items|
    requires forall k :: 0 <= k < |texts| ==> Lexes(texts[k], items[k], false)
    ensures Lexes(Join(texts, ", "), JoinItems(items), false)
    decreases texts
  {
    hide Lexes;
    if |texts| == 1 {
    } else {
      JoinLexes(texts[1..], items[1..]);
      CommaLexes();
      var tail := Join(texts[1..], ", ");
      LexesThen(", ", [COMMA], true, tail, JoinItems(items[1..]), false);
      LexesThen(texts[0], items[0], false, ", " + tail, [COMMA] + JoinItems(items[1..]), false);
      JoinOfMore(texts[0], texts[1..], ", ");
      assert [texts[0]] + texts[1..] == texts;
    }
  }

  // ----- Written values hold no quote -----

  lemma ContentIsPlain(f: FieldValue)
    requires Storable(f)
    ensures '\'' !in ContentOf(f)
  {
    hide NatText, TrimmedReal, TimePoint.SystemTimeText, TimePoint.Representable;
    match f
    case IntField(v) => IntTextIsPlain(v);
    case BoolField(b) => IntTextIsPlain(if b then 1 else 0);
    case RealField(m) => RealIsPlain(m);
    case TextField(s) =>
    case DateField(t) => TimeIsUnquoted(t);
  }

  // ----- INSERT -----

  function NameItems(r: Reflected): (items: seq<seq<Token>>)
    ensures |items| == |r.members|
  {
    seq(|r.members|, k requires 0 <= k < |r.members| => [Word(r.members[k].name)])
  }

  function ValueItems(record: Record): (items: seq<seq<Token>>)
    requires forall k :: 0 <= k < |record| ==> Storable(record[k])
    ensures |items| == |record|
  {
    seq(|record|, k requires 0 <= k < |record| => [Quoted(ContentOf(record[k]))])
  }

  function LiteralsOf(record: Record): (ls: seq<Literal>)
    requires forall k :: 0 <= k < |record| ==> Storable(record[k])
    ensures |ls| == |record|
  {
    seq(|record|, k requires 0 <= k < |record| => TextLiteral(ContentOf(record[k])))
  }

  function InsertStatement(r: Reflected, record: Record): Statement
    requires FitsMembers(record, r.members)
  {
    Insert(r.name, ColumnNames(r), LiteralsOf(record))
  }

  lemma ColumnListLexes(r: Reflected)
    requires ValidType(r)
    ensures Lexes(Join(ColumnNames(r), ", "), JoinItems(NameItems(r)), false)
  {
    hide Lexes, Join, JoinItems, IsIdentifier;
    forall k | 0 <= k < |r.members| ensures Lexes(ColumnNames(r)[k], NameItems(r)[k], false) {
      NameIsIdentifier(r.members[k].name);
      WordLexes(r.members[k].name);
    }
    JoinLexes(ColumnNames(r), NameItems(r));
  }

  lemma ValuesLex(record: Record)
    requires forall k :: 0 <= k < |record| ==> Storable(record[k])
    ensures forall k :: 0 <= k < |record| ==> Lexes(QuotedValues(record)[k], ValueItems(record)[k], false)
  {
    hide Lexes, ContentOf;
    forall k | 0 <= k < |record| ensures Lexes(QuotedValues(record)[k], ValueItems(record)[k], false) {
      ContentIsPlain(record[k]);
      QuotedLexes(ContentOf(record[k]));
    }
  }

  /** The tokens of an INSERT whose values are given as items. */
  function InsertTokens(r: Reflected, items: seq<seq<Token>>): seq<Token> {
    INSERT + [Word(r.name)] + [Symbol("(")] + JoinItems(NameItems(r))
    + [Symbol(")"), Word("VALUES"), Symbol("(")] + JoinItems(items) + [Symbol(")"), Symbol(";")]
  }

  lemma ValuesKeywordLexes()
    ensures Lexes(") VALUES (", [Symbol(")"), Word("VALUES"), Symbol("(")], true)
  {
    hide Lexes;
    SymbolLexes(')');
    SpacedWordLexes("VALUES");
    SymbolLexes('(');
    assert " " + "VALUES" + " " == " VALUES ";
    LexesThen(")", [Symbol(")")], true, " VALUES ", [Word("VALUES")], true);
    LexesThen(")" + " VALUES ", [Symbol(")")] + [Word("VALUES")], true, "(", [Symbol("(")], true);
    assert [Symbol(")")] + [Word("VALUES")] + [Symbol("(")] == [Symbol(")"), Word("VALUES"), Symbol("(")];
    assert ")" + " VALUES " + "(" == ") VALUES (";
  }

  /** A fixed start of a statement followed by the type's name. */
  lemma StartLexes(a: string, b: string, r: Reflected)
    requires IsIdentifier(a) && IsIdentifier(b) && ValidType(r)
    ensures Lexes(a + " " + b + " " + r.name, [Word(a), Word(b)] + [Word(r.name)], false)
  {
    hide Lexes, IsIdentifier;
    TwoWordsLex(a, b);
    NameIsIdentifier(r.name);
    WordLexes(r.name);
    LexesThen(a + " " + b + " ", [Word(a), Word(b)], true, r.name, [Word(r.name)], false);
  }

  const MIDDLE := [Symbol(")"), Word("VALUES"), Symbol("(")]

  function InsertStart(r: Reflected): string { "INSERT INTO " + r.name + " (" + Join(ColumnNames(r), ", ") + ") VALUES (" }

  function InsertStartTokens(r: Reflected): seq<Token> {
    INSERT + [Word(r.name)] + [Symbol("(")] + JoinItems(NameItems(r)) + MIDDLE
  }

  lemma InsertStartLexes(r: Reflected)
    requires ValidType(r)
    ensures Lexes(InsertStart(r), InsertStartTokens(r), true)
  {
    hide Lexes, Join, JoinItems, ColumnNames, NameItems;
    StartLexes("INSERT", "INTO", r);
    assert "INSERT" + " " + "INTO" + " " == "INSERT INTO ";
    OpeningLexes();
    ColumnListLexes(r);
    ValuesKeywordLexes();
    var (t1, k1) := ("INSERT INTO " + r.name, INSERT + [Word(r.name)]);
    var (cols, kCols) := (Join(ColumnNames(r), ", "), JoinItems(NameItems(r)));
    LexesThen(t1, k1, false, " (", [Symbol("(")], true);
    LexesThen(t1 + " (", k1 + [Symbol("(")], true, cols, kCols, false);
    LexesThen(t1 + " (" + cols, k1 + [Symbol("(")] + kCols, false, ") VALUES (", MIDDLE, true);
  }

  lemma InsertLexes(r: Reflected, values: seq<string>, items: seq<seq<Token>>)
    requires ValidType(r) && values != [] && |values| == |items|
    requires forall k :: 0 <= k < |values| ==> Lexes(values[k], items[k], false)
    ensures Lex(InsertText(r, values)) == InsertTokens(r, items)
  {
    hide Lexes, Join, JoinItems, ColumnNames, NameItems, ValidType;
    InsertStartLexes(r);
    JoinLexes(values, items);
    ClosingLexes();
    var (t1, k1) := (InsertStart(r), InsertStartTokens(r));
    var (vals, kVals) := (Join(values, ", "), JoinItems(items));
    LexesThen(t1, k1, true, vals, kVals, false);
    LexesThen(t1 + vals, k1 + kVals, false, ");", [Symbol(")"), Symbol(";")], true);
    LexesAlone(t1 + vals + ");", k1 + kVals + [Symbol(")"), Symbol(";")], true);
  }

  // ----- The pieces of a statement parse -----

  lemma NameAfterPrefix(prefix: seq<Token>, name: string, rest: seq<Token>)
    requires IsName(name)
    ensures NameAfter(prefix + [Word(name)] + rest, prefix) == Parsed(name, rest)
  {
    hide IsName;
    var ts := prefix + [Word(name)] + rest;
    assert ts[..|prefix|] == prefix && ts[|prefix|] == Word(name) && ts[|prefix| + 1..] == rest;
  }

  lemma ParenthesisedList(items: seq<seq<Token>>, rest: seq<Token>)
    requires items != [] && forall k :: 0 <= k < |items| ==> PlainItem(items[k])
    ensures Parenthesised([Symbol("(")] + (JoinItems(items) + ([Symbol(")")] + rest))) == Parsed(items, rest)
  {
    hide SplitItems, JoinItems, PlainItem;
    var tail := [Symbol(")")] + rest;
    var ts := [Symbol("(")] + (JoinItems(items) + tail);
    assert ts[1..] == JoinItems(items) + tail;
    SplitOfJoin(items, tail);
    assert tail[1..] == rest;
  }

  lemma NamesParse(r: Reflected)
    requires ValidType(r)
    ensures All(NameItems(r), NameItem) == Some(ColumnNames(r))
    ensures forall k :: 0 <= k < |NameItems(r)| ==> PlainItem(NameItems(r)[k])
  {
    forall k | 0 <= k < |r.members|
      ensures NameItem(NameItems(r)[k]) == Some(ColumnNames(r)[k]) && PlainItem(NameItems(r)[k])
    {
      NameIsNoWhere(r.members[k].name);
    }
    AllOf(NameItems(r), NameItem, ColumnNames(r));
  }

  lemma NameIsNoWhere(name: string)
    requires IsName(name)
    ensures name != "WHERE"
  {
    hide IsWord, Keywords, Upper, IsIdentifier;
    UpperOfWhere();
    ClauseKeywords();
    KeywordIsWord(15);
  }

  lemma UpperOfWhere()
    ensures Upper("WHERE") == "WHERE"
  {
    assert "WHERE"[1..] == "HERE" && "HERE"[1..] == "ERE" && "ERE"[1..] == "RE" && "RE"[1..] == "E" && "E"[1..] == "";
    assert Upper("E") == "E" && Upper("RE") == "RE" && Upper("ERE") == "ERE" && Upper("HERE") == "HERE";
  }

  lemma ValuesParse(record: Record)
    requires forall k :: 0 <= k < |record| ==> Storable(record[k])
    ensures All(ValueItems(record), LiteralItem) == Some(LiteralsOf(record))
    ensures forall k :: 0 <= k < |record| ==> PlainItem(ValueItems(record)[k])
  {
    hide ContentOf, Storable;
    AllOf(ValueItems(record), LiteralItem, LiteralsOf(record));
  }

  /** An INSERT gives every column, in order, the literal of the item at its position. */
  lemma InsertTokensParse(r: Reflected, items: seq<seq<Token>>, literals: seq<Literal>)
    requires ValidType(r) && items != [] && All(items, LiteralItem) == Some(literals)
    requires forall k :: 0 <= k < |items| ==> PlainItem(items[k])
    ensures ParseStatement(InsertTokens(r, items)) == Some(Insert(r.name, ColumnNames(r), literals))
  {
    hide JoinItems, NameAfter, Parenthesised, All, NameItems, ColumnNames, IsName, DistinctMembers, PlainItem, InsertTokens,
         ParseStatement, LiteralItem, NameItem;
    var vals := JoinItems(items) + ([Symbol(")")] + END);
    var r2 := [Word("VALUES")] + ([Symbol("(")] + vals);
    var r1 := [Symbol("(")] + (JoinItems(NameItems(r)) + ([Symbol(")")] + r2));
    var ts := INSERT + [Word(r.name)] + r1;
    InsertTokensNest(r, items);
    NameAfterPrefix(INSERT, r.name, r1);
    NamesParse(r);
    ParenthesisedList(NameItems(r), r2);
    assert r2[1..] == [Symbol("(")] + vals;
    ParenthesisedList(items, END);
    assert ts[0] == Word("INSERT") && |ts| > 3;
    InsertIsParsed(ts);
  }

  lemma InsertIsParsed(ts: seq<Token>)
    requires 3 < |ts| && ts[0] == Word("INSERT")
    ensures ParseStatement(ts) == ParseInsert(ts)
  {
    hide ParseCreate, ParseInsert, ParseUpdate, ParseDelete, ParseSelect;
  }

  lemma InsertTokensNest(r: Reflected, items: seq<seq<Token>>)
    ensures InsertTokens(r, items) ==
            INSERT + [Word(r.name)]
            + ([Symbol("(")] + (JoinItems(NameItems(r)) + ([Symbol(")")]
               + ([Word("VALUES")] + ([Symbol("(")] + (JoinItems(items) + ([Symbol(")")] + END)))))))
  {
    hide JoinItems, NameItems;
    NestInsert(INSERT + [Word(r.name)], JoinItems(NameItems(r)), JoinItems(items));
  }

  /** The INSERT that is prepared names every column in order and gives it the quoted value of the same member. */
  lemma InsertParses(r: Reflected, record: Record)
    requires ValidType(r) && FitsMembers(record, r.members)
    ensures ParseStatement(Lex(PrepareInsert(r, record))) == Some(InsertStatement(r, record))
  {
    ValuesLex(record);
    ValuesParse(record);
    assert |record| >= 2;
    hide Lex, Lexes, InsertText, InsertTokens, ParseStatement, QuotedValues, ValueItems, LiteralsOf, ColumnNames, ValidType, All,
         PlainItem, FitsMembers;
    InsertLexes(r, QuotedValues(record), ValueItems(record));
    InsertTokensParse(r, ValueItems(record), LiteralsOf(record));
  }

  lemma NestInsert(start: seq<Token>, n: seq<Token>, v: seq<Token>)
    ensures start + [Symbol("(")] + n + [Symbol(")"), Word("VALUES"), Symbol("(")] + v + [Symbol(")"), Symbol(";")]
            == start + ([Symbol("(")] + (n + ([Symbol(")")] + ([Word("VALUES")] + ([Symbol("(")] + (v + ([Symbol(")")] + END)))))))
  {
    var tail := [Symbol(")")] + ([Word("VALUES")] + ([Symbol("(")] + (v + ([Symbol(")")] + END))));
    assert [Symbol(")"), Word("VALUES"), Symbol("(")] + (v + [Symbol(")"), Symbol(";")]) == tail;
    var head := start + [Symbol("(")] + n;
    assert head + [Symbol(")"), Word("VALUES"), Symbol("(")] + v + [Symbol(")"), Symbol(";")] == head + tail;
    assert head + tail == start + ([Symbol("(")] + (n + tail));
  }

  // ----- CREATE TABLE -----

  function DefinitionsOf(r: Reflected): (defs: seq<ColumnDef>)
    ensures |defs| == |r.members|
  {
    seq(|r.members|, k requires 0 <= k < |r.members| =>
      ColumnDef(r.members[k].name, r.members[k].ColumnTypeName(), r.members[k].name == ID))
  }

  function DefinitionItem(m: Member): seq<Token> {
    [Word(m.name), Word(m.ColumnTypeName())] + (if m.name == ID then [Word("PRIMARY"), Word("KEY")] else [])
  }

  function DefinitionItems(r: Reflected): (items: seq<seq<Token>>)
    ensures |items| == |r.members|
  {
    seq(|r.members|, k requires 0 <= k < |r.members| => DefinitionItem(r.members[k]))
  }

  lemma DefinitionLexes(m: Member)
    requires IsName(m.name)
    ensures Lexes(m.name + " " + m.ColumnTypeName() + (if m.name == ID then " PRIMARY KEY" else ""), DefinitionItem(m), false)
  {
    hide Lexes, IsName, IsIdentifier;
    var type_ := m.ColumnTypeName();
    NameIsIdentifier(m.name);
    assert IsIdentifier(type_) by { TypeNameIsWord(m.class_); }
    WordSpaceLexes(m.name);
    WordLexes(type_);
    LexesThen(m.name + " ", [Word(m.name)], true, type_, [Word(type_)], false);
    assert [Word(m.name)] + [Word(type_)] == [Word(m.name), Word(type_)];
    if m.name == ID {
      PrimaryKeyLexes();
      LexesThen(m.name + " " + type_, [Word(m.name), Word(type_)], false, " PRIMARY KEY", [Word("PRIMARY"), Word("KEY")], false);
    } else {
      assert m.name + " " + type_ + "" == m.name + " " + type_;
      assert [Word(m.name), Word(type_)] + [] == [Word(m.name), Word(type_)];
    }
  }

  lemma PrimaryKeyLexes()
    ensures Lexes(" PRIMARY KEY", [Word("PRIMARY"), Word("KEY")], false)
  {
    hide Lexes;
    SpacedWordLexes("PRIMARY");
    assert " " + "PRIMARY" + " " == " PRIMARY ";
    WordLexes("KEY");
    LexesThen(" PRIMARY ", [Word("PRIMARY")], true, "KEY", [Word("KEY")], false);
    assert " PRIMARY " + "KEY" == " PRIMARY KEY" && [Word("PRIMARY")] + [Word("KEY")] == [Word("PRIMARY"), Word("KEY")];
  }

  lemma TypeNameIsWord(c: StorageClass)
    ensures IsIdentifier(ColumnType(c)) && ColumnType(c) != "WHERE"
  {
  }

  function CreateTokens(r: Reflected): seq<Token> {
    CREATE + [Word(r.name)] + ([Symbol("(")] + (JoinItems(DefinitionItems(r)) + ([Symbol(")")] + END)))
  }

  lemma CreateStartLexes()
    ensures Lexes("CREATE TABLE IF NOT EXISTS ", CREATE, true)
  {
    hide Lexes;
    TwoWordsLex("CREATE", "TABLE");
    TwoWordsLex("IF", "NOT");
    WordSpaceLexes("EXISTS");
    assert "CREATE" + " " + "TABLE" + " " == "CREATE TABLE " && "IF" + " " + "NOT" + " " == "IF NOT ";
    assert "EXISTS" + " " == "EXISTS " && "IF NOT " + "EXISTS " == "IF NOT EXISTS ";
    assert "CREATE TABLE " + "IF NOT EXISTS " == "CREATE TABLE IF NOT EXISTS ";
    var (a, b, c) := ([Word("CREATE"), Word("TABLE")], [Word("IF"), Word("NOT")], [Word("EXISTS")]);
    LexesThen("IF NOT ", b, true, "EXISTS ", c, true);
    LexesThen("CREATE TABLE ", a, true, "IF NOT EXISTS ", b + c, true);
    assert a + (b + c) == CREATE;
  }

  lemma ListStatementLexes(start: string, kStart: seq<Token>, r: Reflected, list: string, kList: seq<Token>)
    requires ValidType(r) && Lexes(start, kStart, true) && Lexes(list, kList, false)
    ensures Lex(start + r.name + " (" + list + ");") == kStart + [Word(r.name)] + ([Symbol("(")] + (kList + ([Symbol(")")] + END)))
  {
    hide Lexes, IsName, IsIdentifier, DistinctMembers;
    NameIsIdentifier(r.name);
    WordLexes(r.name);
    OpeningLexes();
    ClosingLexes();
    var (t1, k1) := (start + r.name, kStart + [Word(r.name)]);
    LexesThen(start, kStart, true, r.name, [Word(r.name)], false);
    LexesThen(t1, k1, false, " (", [Symbol("(")], true);
    LexesThen(t1 + " (", k1 + [Symbol("(")], true, list, kList, false);
    LexesThen(t1 + " (" + list, k1 + [Symbol("(")] + kList, false, ");", [Symbol(")"), Symbol(";")], true);
    LexesAlone(t1 + " (" + list + ");", k1 + [Symbol("(")] + kList + [Symbol(")"), Symbol(";")], true);
    NestCreate(k1, kList);
  }

  lemma NestCreate(k: seq<Token>, list: seq<Token>)
    ensures k + [Symbol("(")] + list + [Symbol(")"), Symbol(";")] == k + ([Symbol("(")] + (list + ([Symbol(")")] + END)))
  {
  }

  lemma CreateLexes(r: Reflected)
    requires ValidType(r)
    ensures Lex(PrepareCreate(r)) == CreateTokens(r)
  {
    hide Lexes, Join, JoinItems, DefinitionItem, IsIdentifier, IsName, DistinctMembers;
    CreateStartLexes();
    forall k | 0 <= k < |r.members| ensures Lexes(ColumnDefinitions(r)[k], DefinitionItems(r)[k], false) {
      DefinitionLexes(r.members[k]);
    }
    JoinLexes(ColumnDefinitions(r), DefinitionItems(r));
    ListStatementLexes("CREATE TABLE IF NOT EXISTS ", CREATE, r, Join(ColumnDefinitions(r), ", "), JoinItems(DefinitionItems(r)));
  }

  /** The CREATE TABLE that is prepared declares every member with the type of its storage class, and `id` as the key. */
  lemma CreateParses(r: Reflected)
    requires ValidType(r)
    ensures ParseStatement(Lex(PrepareCreate(r))) == Some(CreateTable(r.name, DefinitionsOf(r)))
    ensures ValidDefinition(DefinitionsOf(r)) && ColumnsOf(DefinitionsOf(r)) == ColumnsFor(r.members)
  {
    hide Lex, JoinItems, NameAfter, Parenthesised, All, PrepareCreate, IsName, PlainItem, DefinitionItem;
    CreateLexes(r);
    var r1 := [Symbol("(")] + (JoinItems(DefinitionItems(r)) + ([Symbol(")")] + END));
    NameAfterPrefix(CREATE, r.name, r1);
    forall k | 0 <= k < |r.members|
      ensures ColumnItem(DefinitionItems(r)[k]) == Some(DefinitionsOf(r)[k]) && PlainItem(DefinitionItems(r)[k])
    {
      DefinitionItemParses(r.members[k]);
    }
    AllOf(DefinitionItems(r), ColumnItem, DefinitionsOf(r));
    ParenthesisedList(DefinitionItems(r), END);
    var ts := CREATE + [Word(r.name)] + r1;
    assert ts[0] == Word("CREATE") && |ts| > 5;
    OnlyFirstIsId(r);
  }

  lemma DefinitionItemParses(m: Member)
    requires IsName(m.name)
    ensures ColumnItem(DefinitionItem(m)) == Some(ColumnDef(m.name, m.ColumnTypeName(), m.name == ID))
    ensures PlainItem(DefinitionItem(m))
  {
    NameIsNoWhere(m.name);
    hide IsName;
    TypeNameIsWord(m.class_);
    var item := DefinitionItem(m);
    assert m.name == ID ==> item[2..] == [Word("PRIMARY"), Word("KEY")];
  }

  lemma OnlyFirstIsId(r: Reflected)
    requires ValidType(r)
    ensures forall k :: 0 <= k < |r.members| ==> (r.members[k].name == ID <==> k == 0)
  {
    hide IsName;
    forall k | 1 <= k < |r.members| ensures r.members[k].name != ID {
      assert Upper(r.members[0].name) != Upper(r.members[k].name);
    }
  }

  // ----- UPDATE -----

  function AssignmentsOf(r: Reflected, record: Record): (a: seq<Assignment>)
    requires FitsMembers(record, r.members) && 1 <= |r.members|
    ensures |a| == |r.members| - 1
  {
    seq(|r.members| - 1, k requires 0 <= k < |r.members| - 1 =>
      Assignment(r.members[k + 1].name, TextLiteral(ContentOf(record[k + 1]))))
  }

  function AssignmentItems(r: Reflected, record: Record): (items: seq<seq<Token>>)
    requires FitsMembers(record, r.members) && 1 <= |r.members|
    ensures |items| == |r.members| - 1
  {
    seq(|r.members| - 1, k requires 0 <= k < |r.members| - 1 =>
      [Word(r.members[k + 1].name), Symbol("="), Quoted(ContentOf(record[k + 1]))])
  }

  function IdCondition(r: Reflected, record: Record): Condition
    requires FitsMembers(record, r.members) && 1 <= |r.members|
  {
    Compare(r.members[0].name, Eq, TextLiteral(ContentOf(record[0])))
  }

  function UpdateStatement(r: Reflected, record: Record): Statement
    requires FitsMembers(record, r.members) && 1 <= |r.members|
  {
    Update(r.name, AssignmentsOf(r, record), IdCondition(r, record))
  }

  lemma AssignmentLexes(name: string, f: FieldValue)
    requires IsName(name) && Storable(f)
    ensures Lexes(name + "=" + ("'" + ContentOf(f) + "'"), [Word(name), Symbol("="), Quoted(ContentOf(f))], false)
  {
    hide Lexes, IsName, IsIdentifier, ContentOf;
    NameIsIdentifier(name);
    WordLexes(name);
    SymbolLexes('=');
    ContentIsPlain(f);
    QuotedLexes(ContentOf(f));
    LexesThen(name, [Word(name)], false, "=", [Symbol("=")], true);
    LexesThen(name + "=", [Word(name)] + [Symbol("=")], true, "'" + ContentOf(f) + "'", [Quoted(ContentOf(f))], false);
    assert [Word(name)] + [Symbol("=")] + [Quoted(ContentOf(f))] == [Word(name), Symbol("="), Quoted(ContentOf(f))];
  }

  function UpdateTokens(r: Reflected, record: Record): seq<Token>
    requires FitsMembers(record, r.members) && 1 <= |r.members|
  {
    UPDATE + [Word(r.name)]
    + ([Word("SET")] + (JoinItems(AssignmentItems(r, record))
       + ([Word("WHERE")] + (ConditionTokens(IdCondition(r, record)) + END))))
  }

  lemma UpdateLexes(r: Reflected, record: Record)
    requires ValidType(r) && FitsMembers(record, r.members)
    ensures Lex(PrepareUpdate(r, record)) == UpdateTokens(r, record)
  {
    hide Lexes, Join, JoinItems, IsName, IsIdentifier, ContentOf, DistinctMembers;
    var (columns, values) := (ColumnNames(r), QuotedValues(record));
    var (texts, items) := (AssignmentTexts(columns, values), AssignmentItems(r, record));
    forall k | 0 <= k < |texts| ensures Lexes(texts[k], items[k], false) {
      AssignmentLexes(r.members[k + 1].name, record[k + 1]);
    }
    JoinLexes(texts, items);
    AssignmentLexes(r.members[0].name, record[0]);
    var id := [Word(r.members[0].name), Symbol("="), Quoted(ContentOf(record[0]))];
    assert columns[0] + "=" + values[0] == r.members[0].name + "=" + ("'" + ContentOf(record[0]) + "'");
    UpdateTextLexes(r, Join(texts, ", "), JoinItems(items), columns[0] + "=" + values[0], id);
    assert id == ConditionTokens(IdCondition(r, record));
  }

  lemma UpdateTextLexes(r: Reflected, sets: string, kSets: seq<Token>, id: string, kId: seq<Token>)
    requires ValidType(r) && Lexes(sets, kSets, false) && Lexes(id, kId, false)
    ensures Lex("UPDATE " + r.name + " SET " + sets + (" WHERE " + id) + ";")
            == UPDATE + [Word(r.name)] + ([Word("SET")] + (kSets + ([Word("WHERE")] + (kId + END))))
  {
    hide Lexes, IsIdentifier;
    UpdateWords();
    NameIsIdentifier(r.name);
    WordLexes(r.name);
    WordSpaceLexes("UPDATE");
    SpacedWordLexes("SET");
    SpacedWordLexes("WHERE");
    assert " " + "SET" + " " == " SET " && " " + "WHERE" + " " == " WHERE " && "UPDATE" + " " == "UPDATE ";
    SymbolLexes(';');
    var (t1, k1) := ("UPDATE " + r.name, UPDATE + [Word(r.name)]);
    LexesThen("UPDATE ", UPDATE, true, r.name, [Word(r.name)], false);
    LexesThen(t1, k1, false, " SET ", [Word("SET")], true);
    LexesThen(t1 + " SET ", k1 + [Word("SET")], true, sets, kSets, false);
    LexesThen(" WHERE ", [Word("WHERE")], true, id, kId, false);
    var (t2, k2) := (t1 + " SET " + sets, k1 + [Word("SET")] + kSets);
    LexesThen(t2, k2, false, " WHERE " + id, [Word("WHERE")] + kId, false);
    LexesThen(t2 + (" WHERE " + id), k2 + ([Word("WHERE")] + kId), false, ";", [Symbol(";")], true);
    LexesAlone(t2 + (" WHERE " + id) + ";", k2 + ([Word("WHERE")] + kId) + [Symbol(";")], true);
  }

  lemma UpdateWords()
    ensures IsIdentifier("UPDATE") && IsIdentifier("SET") && IsIdentifier("WHERE")
  {
  }

  lemma WhereClauseOf(c: Condition)
    requires Named(c)
    ensures WhereClause([Word("WHERE")] + (ConditionTokens(c) + END)) == Some(c)
  {
    hide ParseOr, ConditionTokens, Named;
    ConditionOfTokens(c, END);
    assert ([Word("WHERE")] + (ConditionTokens(c) + END))[1..] == ConditionTokens(c) + END;
  }

  /** The UPDATE that is prepared assigns every member but `id`, each its own value, where the id is the record's. */
  lemma UpdateParses(r: Reflected, record: Record)
    requires ValidType(r) && FitsMembers(record, r.members)
    ensures ParseStatement(Lex(PrepareUpdate(r, record))) == Some(UpdateStatement(r, record))
  {
    hide Lex, JoinItems, NameAfter, SplitItems, All, PrepareUpdate, IsName, PlainItem, ContentOf, WhereClause,
         ConditionTokens, DistinctMembers;
    UpdateLexes(r, record);
    var items := AssignmentItems(r, record);
    var where := [Word("WHERE")] + (ConditionTokens(IdCondition(r, record)) + END);
    var r1 := [Word("SET")] + (JoinItems(items) + where);
    NameAfterPrefix(UPDATE, r.name, r1);
    assert r1[1..] == JoinItems(items) + where;
    forall k | 0 <= k < |items|
      ensures AssignmentItem(items[k]) == Some(AssignmentsOf(r, record)[k]) && PlainItem(items[k])
    {
      AssignmentItemParses(r.members[k + 1].name, ContentOf(record[k + 1]));
    }
    SplitOfJoin(items, where);
    AllOf(items, AssignmentItem, AssignmentsOf(r, record));
    WhereClauseOf(IdCondition(r, record));
    var ts := UPDATE + [Word(r.name)] + r1;
    assert ts[0] == Word("UPDATE") && |ts| > 3;
  }

  lemma AssignmentItemParses(name: string, content: string)
    requires IsName(name)
    ensures var item := [Word(name), Symbol("="), Quoted(content)];
            AssignmentItem(item) == Some(Assignment(name, TextLiteral(content))) && PlainItem(item)
  {
    NameIsNoWhere(name);
  }

  // ----- DELETE and SELECT -----

  /** A start, the type's name, WHERE and a predicate. */
  lemma FilteredLexes(start: string, kStart: seq<Token>, r: Reflected, p: Predicate)
    requires ValidType(r) && Lexes(start, kStart, true) && WellFormed(p)
    ensures Lex(start + r.name + " WHERE " + Evaluate(p) + ";")
            == kStart + [Word(r.name)] + ([Word("WHERE")] + (Tokens(p) + END))
  {
    hide Lexes, IsName, IsIdentifier, DistinctMembers, WellFormed, Evaluate, Tokens;
    UpdateWords();
    NameIsIdentifier(r.name);
    WordLexes(r.name);
    SpacedWordLexes("WHERE");
    assert " " + "WHERE" + " " == " WHERE ";
    EvaluateLexes(p);
    SymbolLexes(';');
    var (t1, k1) := (start + r.name, kStart + [Word(r.name)]);
    var (t2, k2) := (t1 + " WHERE ", k1 + [Word("WHERE")]);
    LexesThen(start, kStart, true, r.name, [Word(r.name)], false);
    LexesThen(t1, k1, false, " WHERE ", [Word("WHERE")], true);
    LexesThen(t2, k2, true, Evaluate(p), Tokens(p), false);
    LexesThen(t2 + Evaluate(p), k2 + Tokens(p), false, ";", [Symbol(";")], true);
    LexesAlone(t2 + Evaluate(p) + ";", k2 + Tokens(p) + [Symbol(";")], true);
    NestWhere(k1, Tokens(p));
  }

  lemma NestWhere(k: seq<Token>, c: seq<Token>)
    ensures k + [Word("WHERE")] + c + [Symbol(";")] == k + ([Word("WHERE")] + (c + END))
  {
  }

  /** The clause of a well-formed predicate is its tree, or unreadable when a part of it is empty. */
  lemma ClauseOfPredicate(p: Predicate)
    requires WellFormed(p)
    ensures WhereClause([Word("WHERE")] + (Tokens(p) + END)) == if HasEmpty(p) then None else Some(ConditionOf(p))
  {
    hide ParseOr, ConditionTokens, Named, Tokens, WellFormed;
    if HasEmpty(p) {
      EmptyOperandFails(p, END);
      FailedPrimaryFailsOr(Tokens(p) + END);
      assert ([Word("WHERE")] + (Tokens(p) + END))[1..] == Tokens(p) + END;
    } else {
      TokensOfCondition(p);
      WhereClauseOf(ConditionOf(p));
    }
  }

  /** The DELETE that is prepared removes where the predicate's tree holds; with an empty part it does not parse. */
  lemma DeleteParses(r: Reflected, p: Predicate)
    requires ValidType(r) && WellFormed(p)
    ensures ParseStatement(Lex(PrepareDelete(r, p))) == if HasEmpty(p) then None else Some(Delete(r.name, ConditionOf(p)))
  {
    hide Lex, Lexes, NameAfter, IsName, WhereClause, DistinctMembers, WellFormed, Tokens, Evaluate;
    assert Lexes("DELETE FROM ", DELETE, true) by {
      TwoWordsLex("DELETE", "FROM") by { DeleteWords(); }
      assert "DELETE" + " " + "FROM" + " " == "DELETE FROM ";
    }
    FilteredLexes("DELETE FROM ", DELETE, r, p);
    var r1 := [Word("WHERE")] + (Tokens(p) + END);
    NameAfterPrefix(DELETE, r.name, r1);
    ClauseOfPredicate(p);
    var ts := DELETE + [Word(r.name)] + r1;
    assert ts[0] == Word("DELETE") && |ts| > 3;
  }

  lemma DeleteWords()
    ensures IsIdentifier("DELETE") && IsIdentifier("FROM") && IsIdentifier("SELECT") && IsIdentifier("MAX") && IsIdentifier("id")
  {
  }

  lemma SelectStartLexes()
    ensures Lexes("SELECT * FROM ", SELECT_ALL, true)
  {
    hide Lexes, IsIdentifier;
    DeleteWords();
    WordSpaceLexes("SELECT");
    SymbolLexes('*');
    SpacedWordLexes("FROM");
    assert "SELECT" + " " == "SELECT " && " " + "FROM" + " " == " FROM ";
    assert "SELECT " + "*" + " FROM " == "SELECT * FROM ";
    LexesThen("SELECT ", [Word("SELECT")], true, "*", [Symbol("*")], true);
    LexesThen("SELECT " + "*", [Word("SELECT")] + [Symbol("*")], true, " FROM ", [Word("FROM")], true);
    assert [Word("SELECT")] + [Symbol("*")] + [Word("FROM")] == SELECT_ALL;
  }

  /** A start, the type's name and the end. */
  lemma WholeTableLexes(start: string, kStart: seq<Token>, r: Reflected)
    requires ValidType(r) && Lexes(start, kStart, true)
    ensures Lex(start + r.name + ";") == kStart + [Word(r.name)] + END
  {
    hide Lexes, IsName, IsIdentifier, DistinctMembers;
    NameIsIdentifier(r.name);
    WordLexes(r.name);
    SymbolLexes(';');
    LexesThen(start, kStart, true, r.name, [Word(r.name)], false);
    LexesThen(start + r.name, kStart + [Word(r.name)], false, ";", [Symbol(";")], true);
    LexesAlone(start + r.name + ";", kStart + [Word(r.name)] + [Symbol(";")], true);
  }

  lemma OnlyEmptyEvaluatesEmpty(p: Predicate)
    ensures Evaluate(p) == "" <==> p.EmptyPredicate?
  {
  }

  /** The SELECT that is prepared reads the whole table for the empty predicate, else where the predicate's tree holds; with
      an empty operand it does not parse. */
  lemma FetchParses(r: Reflected, p: Predicate)
    requires ValidType(r) && WellFormed(p)
    ensures ParseStatement(Lex(PrepareFetch(r, p))) ==
            if p.EmptyPredicate? then Some(SelectAll(r.name, None))
            else if HasEmpty(p) then None
            else Some(SelectAll(r.name, Some(ConditionOf(p))))
  {
    hide Lex, Lexes, NameAfter, IsName, WhereClause, DistinctMembers, WellFormed, Tokens, Evaluate;
    OnlyEmptyEvaluatesEmpty(p);
    SelectStartLexes();
    if p.EmptyPredicate? {
      assert "SELECT * FROM " + r.name + "" + ";" == "SELECT * FROM " + r.name + ";";
      WholeTableLexes("SELECT * FROM ", SELECT_ALL, r);
      NameAfterPrefix(SELECT_ALL, r.name, END);
      var ts := SELECT_ALL + [Word(r.name)] + END;
      assert ts[0] == Word("SELECT") && |ts| > 3;
    } else {
      assert "SELECT * FROM " + r.name + (" WHERE " + Evaluate(p)) + ";" == "SELECT * FROM " + r.name + " WHERE " + Evaluate(p) + ";";
      FilteredLexes("SELECT * FROM ", SELECT_ALL, r, p);
      var r1 := [Word("WHERE")] + (Tokens(p) + END);
      NameAfterPrefix(SELECT_ALL, r.name, r1);
      ClauseOfPredicate(p);
      var ts := SELECT_ALL + [Word(r.name)] + r1;
      assert ts[0] == Word("SELECT") && |ts| > 3;
      assert r1[0] == Word("WHERE");
    }
  }

  /** Whatever the predicate prints, the SELECT reads the type's own table or does not parse. */
  lemma AnyFetchReads(r: Reflected, p: Predicate)
    requires ValidType(r)
    ensures var st := ParseStatement(Lex(PrepareFetch(r, p)));
            st.Some? ==> st.value.SelectAll? && st.value.table == r.name
  {
    hide Lex, Lexes, NameAfter, IsName, IsIdentifier, WhereClause, DistinctMembers, Evaluate;
    SelectStartLexes();
    if Evaluate(p) == "" {
      assert "SELECT * FROM " + r.name + "" + ";" == "SELECT * FROM " + r.name + ";";
      WholeTableLexes("SELECT * FROM ", SELECT_ALL, r);
      SelectReads(r.name, END);
    } else {
      UpdateWords();
      NameIsIdentifier(r.name);
      WordLexes(r.name);
      SpacedWordLexes("WHERE");
      assert " " + "WHERE" + " " == " WHERE ";
      var (t1, k1) := ("SELECT * FROM " + r.name, SELECT_ALL + [Word(r.name)]);
      LexesThen("SELECT * FROM ", SELECT_ALL, true, r.name, [Word(r.name)], false);
      LexesThen(t1, k1, false, " WHERE ", [Word("WHERE")], true);
      LexesBefore(t1 + " WHERE ", k1 + [Word("WHERE")], Evaluate(p) + ";");
      assert PrepareFetch(r, p) == t1 + " WHERE " + (Evaluate(p) + ";");
      assert k1 + [Word("WHERE")] + Lex(Evaluate(p) + ";") == k1 + ([Word("WHERE")] + Lex(Evaluate(p) + ";"));
      SelectReads(r.name, [Word("WHERE")] + Lex(Evaluate(p) + ";"));
    }
  }

  lemma LexesBefore(text: string, tokens: seq<Token>, rest: string)
    requires Lexes(text, tokens, true)
    ensures Lex(text + rest) == tokens + Lex(rest)
  {
    hide Lex;
  }

  lemma SelectReads(name: string, rest: seq<Token>)
    requires IsName(name)
    ensures var st := ParseStatement(SELECT_ALL + [Word(name)] + rest);
            st.Some? ==> st.value.SelectAll? && st.value.table == name
  {
    hide NameAfter, IsName, WhereClause;
    NameAfterPrefix(SELECT_ALL, name, rest);
    var ts := SELECT_ALL + [Word(name)] + rest;
    assert ts[0] == Word("SELECT") && |ts| > 3;
  }

  const MAX_OF_ID := [Word("SELECT"), Word("MAX"), Symbol("("), Word("id"), Symbol(")"), Word("FROM")]

  lemma MaxStartLexes()
    ensures Lexes("SELECT MAX(id) FROM ", MAX_OF_ID, true)
  {
    hide Lexes, IsIdentifier;
    DeleteWords();
    WordSpaceLexes("SELECT");
    WordLexes("MAX");
    SymbolLexes('(');
    WordLexes("id");
    SymbolLexes(')');
    SpacedWordLexes("FROM");
    assert "SELECT" + " " == "SELECT " && " " + "FROM" + " " == " FROM ";
    LexesThen("SELECT ", [Word("SELECT")], true, "MAX", [Word("MAX")], false);
    LexesThen("SELECT " + "MAX", [Word("SELECT")] + [Word("MAX")], false, "(", [Symbol("(")], true);
    LexesThen("id", [Word("id")], false, ")", [Symbol(")")], true);
    LexesThen("id" + ")", [Word("id")] + [Symbol(")")], true, " FROM ", [Word("FROM")], true);
    var (t, k) := ("SELECT " + "MAX" + "(", [Word("SELECT")] + [Word("MAX")] + [Symbol("(")]);
    LexesThen(t, k, true, "id" + ")" + " FROM ", [Word("id")] + [Symbol(")")] + [Word("FROM")], true);
    assert t == "SELECT MAX(" && "id" + ")" + " FROM " == "id) FROM " && "SELECT MAX(" + "id) FROM " == "SELECT MAX(id) FROM ";
    assert k + ([Word("id")] + [Symbol(")")] + [Word("FROM")]) == MAX_OF_ID;
  }

  /** The query for the greatest id reads the `id` column of the type's table. */
  lemma MaxParses(r: Reflected)
    requires ValidType(r)
    ensures ParseStatement(Lex(PrepareMax(r))) == Some(SelectMax(ID, r.name))
  {
    hide Lex, Lexes, NameAfter, IsName, DistinctMembers;
    MaxStartLexes();
    WholeTableLexes("SELECT MAX(id) FROM ", MAX_OF_ID, r);
    var ts := MAX_OF_ID + [Word(r.name)] + END;
    var middle := [Symbol(")"), Word("FROM")];
    var r1 := middle + [Word(r.name)] + END;
    assert ts == SELECT_MAX + [Word(ID)] + r1;
    assert NameAfter(ts, SELECT_ALL) == Failed by { NotSelectAll(r.name); }
    NameAfterPrefix(SELECT_MAX, ID, r1) by { IdIsName(r); }
    NameAfterPrefix(middle, r.name, END);
    assert ts[0] == Word("SELECT") && |ts| > 3;
  }

  lemma NotSelectAll(name: string)
    ensures NameAfter(MAX_OF_ID + [Word(name)] + END, SELECT_ALL) == Failed
  {
    assert SELECT_ALL[1] == Symbol("*");
  }

  lemma IdIsName(r: Reflected)
    requires ValidType(r)
    ensures IsName(ID)
  {
  }
}
