/** Reading records back: the texts of a result, the members they hydrate, and the greatest id. */
module Fetching {
  import opened Machine
  import opened WideInput
  import opened Reflection
  import opened SqlLexer
  import opened SqlParser
  import opened SqlEngine
  import opened Records
  import opened QueryPredicates
  import opened Queries
  import opened RecordTables

  datatype FetchQueryResults = FetchQueryResults(columnNames: seq<string>, rowValues: seq<seq<string>>)

  function TextsOf(row: Row): (texts: seq<string>)
    ensures |texts| == |row|
  {
    seq(|row|, col requires 0 <= col < |row| => CellText(row[col]))
  }

  function AllTexts(rows: seq<Row>): (texts: seq<seq<string>>)
    ensures |texts| == |rows|
  {
    seq(|rows|, i requires 0 <= i < |rows| => TextsOf(rows[i]))
  }

  /** What a SELECT * returns as texts; nothing when it cannot be prepared, which is an exception. */
  function ResultsOf(ts: Tables, sql: string): Option<FetchQueryResults> {
    match ParseStatement(Lex(sql))
    case None => None
    case Some(st) =>
      match Query(ts, st)
      case None => None
      case Some(rows) => Some(FetchQueryResults(NamesOf(ts[Upper(st.table)].columns), AllTexts(rows)))
  }

  /** `FetchRecordsQuery::GetResults`: it steps through the rows and takes the text of every column. A statement that cannot
      be prepared closes the connection for good. */
  method GetResults(db: Sqlite, r: Reflected, p: Predicate) returns (results: Option<FetchQueryResults>)
    requires db.open
    modifies db`open
    ensures results == ResultsOf(db.tables, PrepareFetch(r, p))
    ensures db.open <==> results.Some?
  {
    hide Lex, ParseStatement, PrepareFetch, CellText;
    var prepared := ParseStatement(Lex(PrepareFetch(r, p)));
    if prepared.None? {
      db.Close();
      return None;
    }
    var stepped := Query(db.tables, prepared.value);
    if stepped.None? {
      db.Close();
      return None;
    }
    var rows, rowValues := stepped.value, [];
    var step := 0;
    while step < |rows|
      invariant 0 <= step <= |rows| && rowValues == AllTexts(rows[..step])
    {
      var row := [];
      var col := 0;
      while col < |rows[step]|
        invariant 0 <= col <= |rows[step]| && row == TextsOf(rows[step][..col])
      {
        row := row + [CellText(rows[step][col])];
        col := col + 1;
      }
      assert rows[step][..col] == rows[step];
      rowValues := rowValues + [row];
      step := step + 1;
    }
    assert rows[..step] == rows;
    return Some(FetchQueryResults(NamesOf(db.tables[Upper(prepared.value.table)].columns), rowValues));
  }

  /** A model after one row of texts has been read into it. */
  function Hydrated(was: Record, members: seq<Member>, texts: seq<string>): (record: Record)
    requires |was| == |members| == |texts|
    ensures |record| == |was|
  {
    seq(|was|, j requires 0 <= j < |was| => FieldOfText(members[j].class_, texts[j], was[j]))
  }

  /** `FetchRecordsQuery::Hydrate` */
  method Hydrate(model: array<FieldValue>, results: FetchQueryResults, record: Reflected, i: nat)
    requires |results.columnNames| == |record.members| == model.Length
    requires i < |results.rowValues| && |results.rowValues[i]| == model.Length
    modifies model
    ensures model[..] == Hydrated(old(model[..]), record.members, results.rowValues[i])
  {
    hide FieldOfText;
    var j := 0;
    while j < |results.columnNames|
      invariant 0 <= j <= model.Length
      invariant forall k :: 0 <= k < j ==>
        model[k] == FieldOfText(record.members[k].class_, results.rowValues[i][k], old(model[k]))
      invariant forall k :: j <= k < model.Length ==> model[k] == old(model[k])
    {
      var content := results.rowValues[i][j];
      if content != "" {
        HydrateMember(model, j, record.members[j].class_, content);
      } else {
        EmptyKeeps(record.members[j].class_, model[j]);
      }
      j := j + 1;
    }
  }

  lemma EmptyKeeps(c: StorageClass, was: FieldValue)
    ensures FieldOfText(c, "", was) == was
  {
  }

  method HydrateMember(model: array<FieldValue>, j: nat, c: StorageClass, content: string)
    requires j < model.Length && content != ""
    modifies model
    ensures model[j] == FieldOfText(c, content, old(model[j]))
    ensures forall k :: 0 <= k < model.Length && k != j ==> model[k] == old(model[k])
  {
    match c {
      case KInt => model[j] := IntField(StringUtilities.ToInt(content));
      case KBool => model[j] := BoolField(StringUtilities.ToInt(content) == 1);
      case KReal => model[j] := RealField(StringUtilities.ToDouble(content));
      case KText => model[j] := TextField(content);
      case KDateTime =>
        TimePoint.TimeOfTextHasShortYear(content);
        var t := TimePoint.FromSystemTime(content);
        model[j] := DateField(t);
    }
  }

  /** What the results hold for a type: a text for each member in every row. */
  predicate FitsResults(results: FetchQueryResults, members: seq<Member>) {
    && |results.columnNames| == |members|
    && forall i :: 0 <= i < |results.rowValues| ==> |results.rowValues[i]| == |members|
  }

  /** `Database::Hydrate`: a new model for every row. */
  method HydrateAll(results: FetchQueryResults, record: Reflected, blank: Record) returns (models: seq<Record>)
    requires FitsResults(results, record.members) && |blank| == |record.members|
    ensures |models| == |results.rowValues|
    ensures forall i :: 0 <= i < |models| ==> models[i] == Hydrated(blank, record.members, results.rowValues[i])
  {
    models := [];
    var i := 0;
    while i < |results.rowValues|
      invariant 0 <= i == |models| <= |results.rowValues|
      invariant forall k :: 0 <= k < i ==> models[k] == Hydrated(blank, record.members, results.rowValues[k])
    {
      var model := new FieldValue[|blank|](j requires 0 <= j < |blank| => blank[j]);
      assert model[..] == blank;
      Hydrate(model, results, record, i);
      models := models + [model[..]];
      i := i + 1;
    }
  }

  /** What a saved record is when it is fetched. */
  function Recovered(record: Record): (back: Record)
    requires forall j :: 0 <= j < |record| ==> Storable(record[j])
    ensures |back| == |record|
  {
    seq(|record|, j requires 0 <= j < |record| => ReadBack(record[j]))
  }

  /** A record is fetched as it was saved if and only if all its values are faithful. */
  lemma RecoveredIff(record: Record)
    requires forall j :: 0 <= j < |record| ==> Storable(record[j])
    ensures Recovered(record) == record <==> forall j :: 0 <= j < |record| ==> Faithful(record[j])
  {
    hide ReadBack, Faithful, Storable;
    forall j | 0 <= j < |record| ensures ReadBack(record[j]) == record[j] <==> Faithful(record[j]) {
      ReadBackIff(record[j]);
    }
    if forall j :: 0 <= j < |record| ==> Faithful(record[j]) {
      assert forall j :: 0 <= j < |record| ==> Recovered(record)[j] == record[j];
    } else {
      var j :| 0 <= j < |record| && !Faithful(record[j]);
      assert Recovered(record)[j] != record[j];
    }
  }

  /** A new model: its members have their classes and its texts are empty, and the rest may hold anything. */
  predicate IsBlank(blank: Record, members: seq<Member>) {
    && |blank| == |members|
    && forall j :: 0 <= j < |blank| ==> HasClass(blank[j], members[j].class_) && (blank[j].TextField? ==> blank[j].s == "")
  }

  /** Hydrating a new model from the texts of a record's row recovers the record, whatever the model held. */
  lemma HydratedIsRecovered(blank: Record, record: Record, members: seq<Member>)
    requires FitsMembers(record, members) && IsBlank(blank, members)
    ensures Hydrated(blank, members, TextsOf(RowOf(record))) == Recovered(record)
  {
    hide FieldOfText, CellText, CellOf, ReadBack, Storable;
    var hydrated := Hydrated(blank, members, TextsOf(RowOf(record)));
    forall j | 0 <= j < |record| ensures hydrated[j] == Recovered(record)[j] {
      CellHydrates(record[j], members[j].class_, blank[j]);
    }
  }

  lemma SelectStatementIs(r: Reflected, f: Filter)
    requires ValidType(r) && f.Fits(r.members)
    ensures ParseStatement(Lex(PrepareFetch(r, f.Predicate(r.members)))) == Some(SelectStatement(r, f))
  {
    hide Lex, ParseStatement, PrepareFetch, Build, ConditionOf, IsName, DistinctMembers, WellFormed, HasEmpty;
    BuildIsWellFormedFor(r, f);
    FetchParses(r, f.Predicate(r.members));
    if f.Only? { OnlyEmptyIsEmpty(f, r.members); }
  }

  lemma OnlyEmptyIsEmpty(f: Filter, members: seq<Member>)
    requires f.Only? && f.Fits(members)
    ensures !f.Predicate(members).EmptyPredicate?
  {
    hide ValueText;
  }

  /** A fetch returns exactly the admitted records in the order of their ids, each as it is recovered. */
  lemma FetchYields(ts: Tables, r: Reflected, m: RecordMap, f: Filter, blank: Record)
    requires ValidType(r) && KeyedById(m, r) && f.Fits(r.members) && IsBlank(blank, r.members)
    requires Upper(r.name) in ts && ts[Upper(r.name)] == TableOf(m, r)
    ensures var results, ids := ResultsOf(ts, PrepareFetch(r, f.Predicate(r.members))), Matches(m, r, f);
            && results.Some? && results.value.columnNames == ColumnNames(r)
            && FitsResults(results.value, r.members) && |results.value.rowValues| == |ids|
            && forall i :: 0 <= i < |ids| ==>
                 FitsMembers(m[ids[i]], r.members)
                 && Hydrated(blank, r.members, results.value.rowValues[i]) == Recovered(m[ids[i]])
  {
    hide Lex, ParseStatement, PrepareFetch, Query, SelectStatement, TextsOf, RowOf, Hydrated, Recovered, Upper, IsName,
         DistinctMembers, Matches, Storable;
    SelectStatementIs(r, f);
    SelectRuns(ts, r, m, f);
    var ids := Matches(m, r, f);
    forall i | 0 <= i < |ids|
      ensures FitsMembers(m[ids[i]], r.members)
              && Hydrated(blank, r.members, TextsOf(RowOf(m[ids[i]]))) == Recovered(m[ids[i]])
    {
      HydratedIsRecovered(blank, m[ids[i]], r.members);
    }
    SelectStatementReads(r, f);
  }

  lemma SelectStatementReads(r: Reflected, f: Filter)
    requires f.Fits(r.members)
    ensures SelectStatement(r, f).SelectAll? && SelectStatement(r, f).table == r.name
  {
    hide Allowed;
  }

  /** The models a fetch returns; nothing when its statement cannot be prepared. */
  function ModelsOf(ts: Tables, r: Reflected, p: Predicate, blank: Record): Option<seq<Record>> {
    match ResultsOf(ts, PrepareFetch(r, p))
    case None => None
    case Some(results) =>
      if !FitsResults(results, r.members) || |blank| != |r.members| then None
      else Some(seq(|results.rowValues|, i requires 0 <= i < |results.rowValues| =>
             Hydrated(blank, r.members, results.rowValues[i])))
  }

  /** Whatever the predicate, the rows of a type's table have a text for every member. */
  lemma ResultsFit(ts: Tables, r: Reflected, m: RecordMap, p: Predicate)
    requires ValidType(r) && KeyedById(m, r) && Upper(r.name) in ts && ts[Upper(r.name)] == TableOf(m, r)
    ensures var results := ResultsOf(ts, PrepareFetch(r, p)); results.Some? ==> FitsResults(results.value, r.members)
  {
    AnyFetchReads(r, p);
    hide Lex, ParseStatement, PrepareFetch, Upper, ValidType, KeyedById, Query, CellText, TableOf;
    var st := ParseStatement(Lex(PrepareFetch(r, p)));
    if st.Some? { QueryRowsFit(ts, r, m, st.value); }
  }

  lemma QueryRowsFit(ts: Tables, r: Reflected, m: RecordMap, st: Statement)
    requires KeyedById(m, r) && Upper(r.name) in ts && ts[Upper(r.name)] == TableOf(m, r)
    requires st.SelectAll? && st.table == r.name
    ensures |TableOf(m, r).columns| == |r.members|
    ensures var rows := Query(ts, st); rows.Some? ==> forall i :: 0 <= i < |rows.value| ==> |rows.value[i]| == |r.members|
  {
    hide KeyedById, RowOf, Holds, Knows, Ascending, Upper;
    var t, rows := TableOf(m, r), Query(ts, st);
    if rows.Some? {
      var keys := Ascending(Selected(t, st.filter));
      forall i | 0 <= i < |rows.value| ensures |rows.value[i]| == |r.members| {
        assert keys[i] in keys && rows.value[i] == t.rows[keys[i]];
      }
    }
  }

  lemma ModelsOfResults(ts: Tables, r: Reflected, p: Predicate, blank: Record, models: seq<Record>)
    requires |blank| == |r.members|
    requires var results := ResultsOf(ts, PrepareFetch(r, p));
             && results.Some? && FitsResults(results.value, r.members) && |models| == |results.value.rowValues|
             && forall i :: 0 <= i < |models| ==> models[i] == Hydrated(blank, r.members, results.value.rowValues[i])
    ensures ModelsOf(ts, r, p, blank) == Some(models)
  {
    hide ResultsOf, PrepareFetch, Hydrated;
    assert models == ModelsOf(ts, r, p, blank).value;
  }

  /** The models of a fetch are exactly the admitted records in the order of their ids, each as it is recovered. */
  lemma ModelsAre(ts: Tables, r: Reflected, m: RecordMap, f: Filter, blank: Record)
    requires ValidType(r) && KeyedById(m, r) && f.Fits(r.members) && IsBlank(blank, r.members)
    requires Upper(r.name) in ts && ts[Upper(r.name)] == TableOf(m, r)
    ensures var models, ids := ModelsOf(ts, r, f.Predicate(r.members), blank), Matches(m, r, f);
            && models.Some? && |models.value| == |ids|
            && forall i :: 0 <= i < |ids| ==>
                 FitsMembers(m[ids[i]], r.members) && models.value[i] == Recovered(m[ids[i]])
  {
    hide PrepareFetch, ResultsOf, Hydrated, Recovered, Upper, ValidType, Matches, FitsMembers, KeyedById, Build, Allowed;
    FetchYields(ts, r, m, f, blank);
    assert |blank| == |r.members|;
  }

  /** What a fetch by id makes of the models: an exception unless there is exactly one. */
  function OnlyOne(models: Option<seq<Record>>): Option<Record> {
    if models.Some? && |models.value| == 1 then Some(models.value[0]) else None
  }

  /** A fetch that demands one record succeeds if and only if exactly one is admitted, and returns it recovered. */
  lemma OnlyOneIff(ts: Tables, r: Reflected, m: RecordMap, f: Filter, blank: Record)
    requires ValidType(r) && KeyedById(m, r) && f.Fits(r.members) && IsBlank(blank, r.members)
    requires Upper(r.name) in ts && ts[Upper(r.name)] == TableOf(m, r)
    ensures forall id :: id in m ==> FitsMembers(m[id], r.members)
    ensures var model := OnlyOne(ModelsOf(ts, r, f.Predicate(r.members), blank));
            && (model.Some? <==> exists id :: id in m && IsOnly(m, r, f, id))
            && forall id :: id in m && IsOnly(m, r, f, id) ==> model == Some(Recovered(m[id]))
  {
    hide ModelsOf, Recovered, Upper, ValidType, TableOf, FitsMembers, IsBlank, IsOnly, Matches, Filter.Predicate, Filter.Fits;
    ModelsAre(ts, r, m, f, blank);
    OneMatch(m, r, f);
  }

  lemma OneMatch(m: RecordMap, r: Reflected, f: Filter)
    requires KeyedById(m, r) && f.Fits(r.members)
    ensures |Matches(m, r, f)| == 1 <==> exists id :: id in m && IsOnly(m, r, f, id)
    ensures forall id :: id in m && IsOnly(m, r, f, id) ==> Matches(m, r, f) == [id]
  {
    hide FitsMembers, Filter.Admits;
    var ids := Matches(m, r, f);
    if |ids| == 1 { assert IsOnly(m, r, f, ids[0]); }
    forall id | id in m && IsOnly(m, r, f, id) ensures ids == [id] {
      assert id in ids;
      assert forall i :: 0 <= i < |ids| ==> ids[i] in ids;
    }
  }

  ghost predicate IsOnly(m: RecordMap, r: Reflected, f: Filter, id: int)
    requires KeyedById(m, r) && f.Fits(r.members) && id in m
  {
    f.Admits(m[id], r.members) && forall other :: other in m && f.Admits(m[other], r.members) ==> other == id
  }

  // ----- The greatest id -----

  /** The greatest id as `GetMaxId` returns it: read as 32 bits, 0 for NULL; nothing when the query cannot be prepared. */
  function MaxIdOf(ts: Tables, sql: string): (id: Option<int>)
    ensures id.Some? ==> FitsInt32(id.value)
  {
    match ParseStatement(Lex(sql))
    case None => None
    case Some(st) =>
      match QueryMax(ts, st)
      case None => None
      case Some(v) => Some(if v.Integer? then ToInt32(v.n) as int else 0)
  }

  /** `GetMaxId`; a query that cannot be prepared closes the connection for good. */
  method GetMaxId(db: Sqlite, r: Reflected) returns (maxId: Option<int>)
    requires db.open
    modifies db`open
    ensures maxId == MaxIdOf(db.tables, PrepareMax(r))
    ensures db.open <==> maxId.Some?
  {
    hide Lex, ParseStatement, PrepareMax;
    var prepared := ParseStatement(Lex(PrepareMax(r)));
    if prepared.None? {
      db.Close();
      return None;
    }
    var stepped := QueryMax(db.tables, prepared.value);
    if stepped.None? {
      db.Close();
      return None;
    }
    return Some(if stepped.value.Integer? then ToInt32(stepped.value.n) as int else 0);
  }

  predicate IsMax(m: RecordMap, id: int) { id in m && forall k :: k in m ==> k <= id }

  /** It is the greatest id of the type if that fits 32 bits, and 0 for a type without records. */
  lemma MaxIdIs(ts: Tables, r: Reflected, m: RecordMap)
    requires ValidType(r) && KeyedById(m, r)
    requires Upper(r.name) in ts && ts[Upper(r.name)] == TableOf(m, r)
    ensures var max := MaxIdOf(ts, PrepareMax(r));
            && max.Some? && FitsInt32(max.value)
            && (m == map[] ==> max.value == 0)
            && (m != map[] ==> exists id :: IsMax(m, id) && max.value == ToInt32(id) as int)
  {
    hide Lex, ParseStatement, PrepareMax, QueryMax, Upper, IsName, DistinctMembers, TableOf, KeyedById;
    MaxParses(r);
    MaxRuns(ts, r, m);
    if m != map[] {
      assert IsMax(m, QueryMax(ts, SelectMax(ID, r.name)).value.n);
    }
  }

  /** The id after it is greater than every id of the type if and only if they are all below 2^31. */
  lemma NextIdIsFreshIff(ts: Tables, r: Reflected, m: RecordMap)
    requires ValidType(r) && KeyedById(m, r)
    requires Upper(r.name) in ts && ts[Upper(r.name)] == TableOf(m, r)
    ensures var max := MaxIdOf(ts, PrepareMax(r));
            max.Some? && ((forall id :: id in m ==> id < max.value + 1) <==> (forall id :: id in m ==> id < 0x8000_0000))
  {
    hide MaxIdOf, PrepareMax, Upper, IsName, DistinctMembers, TableOf, KeyedById;
    MaxIdIs(ts, r, m);
    if m != map[] {
      var top :| IsMax(m, top) && MaxIdOf(ts, PrepareMax(r)).value == ToInt32(top) as int;
      Int32Below(top);
      assert top in m;
    }
  }

  lemma Int32Below(n: int)
    ensures n <= ToInt32(n) as int <==> n < 0x8000_0000
  {
  }
}
