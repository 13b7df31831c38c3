/** The predicate of an id as the library makes it, from a pointer to the member `id`: when it selects the record with that
    id, and what it selects otherwise. */
module IdPredicates {
  import opened Machine
  import opened WideInput
  import opened Reflection
  import opened SqlLexer
  import opened SqlParser
  import opened SqlEngine
  import opened Records
  import opened QueryPredicates
  import opened Queries
  import opened RecordTables
  import opened Fetching
  import opened Transactions
  import TimePoint

  // ----- The comparison that is meant -----

  /** The record with an id. */
  function ById(id: int64): Filter { Only(Where(IsEqual, 0, IntField(id))) }

  lemma ByIdFits(r: Reflected, id: int64)
    requires ValidType(r)
    ensures ById(id).Fits(r.members)
  {
  }

  /** The comparison of `id` with a number admits exactly the record with that id. */
  lemma ByIdAdmits(r: Reflected, m: RecordMap, id: int64)
    requires ValidType(r) && KeyedById(m, r)
    ensures ById(id).Fits(r.members)
    ensures Matches(m, r, ById(id)) == if id in m then [id] else []
    ensures Remaining(m, r, ById(id).criterion) == m - {id}
  {
    ByIdFits(r, id);
    forall k | k in m ensures FitsMembers(m[k], r.members) && (ById(id).Admits(m[k], r.members) <==> k == id) {
      AdmittedById(m[k], r, id);
    }
    hide Ascending, Satisfies, Allowed, FitsMembers, IsName, Upper, DistinctMembers;
    OneMatch(Matches(m, r, ById(id)), m.Keys, id);
    assert Remaining(m, r, ById(id).criterion).Keys == (m - {id}).Keys;
  }

  lemma AdmittedById(record: Record, r: Reflected, id: int64)
    requires ValidType(r) && FitsMembers(record, r.members) && record != [] && record[0].IntField?
    ensures ById(id).Fits(r.members)
    ensures ById(id).Admits(record, r.members) <==> record[0].v == id
  {
    ByIdFits(r, id);
  }

  lemma FirstTwo(ids: seq<int>, id: int)
    requires forall i :: 0 <= i < |ids| ==> ids[i] == id
    ensures 2 <= |ids| ==> ids[0] == ids[1]
  {
  }

  lemma OneMatch(ids: seq<int>, keys: set<int>, id: int)
    requires forall k :: k in ids <==> k in keys && k == id
    requires forall i, j :: 0 <= i < j < |ids| ==> ids[i] < ids[j]
    ensures ids == if id in keys then [id] else []
  {
    forall i | 0 <= i < |ids| ensures ids[i] == id && id in keys { assert ids[i] in ids; }
    FirstTwo(ids, id);
    assert ids != [] ==> ids[0] == id && id in keys;
    if id in keys {
      assert id in ids;
      assert ids == [id];
    }
  }

  // ----- The predicate that is made -----

  /** `Equal(&T::id, id)` */
  function IdPredicate(r: Reflected, id: int64, misread: Misreading): Predicate
    requires r.members != []
  {
    PredicateFor(r.members, PointerTo(r.members[0]), IsEqual, IntField(id), misread)
  }

  /** The offset of `id` survives the copy of its pointer. */
  predicate IdReadable(r: Reflected)
    requires r.members != []
  {
    NoGap(PointerTo(r.members[0]))
  }

  /** The predicate made is the comparison meant if and only if the offset of `id` survives. */
  lemma IdPredicateIs(r: Reflected, id: int64, misread: Misreading)
    requires ValidType(r) && ValidOffsets(r.members)
    ensures ById(id).Fits(r.members)
    ensures IdPredicate(r, id, misread) == ById(id).Predicate(r.members) <==> IdReadable(r)
    ensures FoundFrom(r.members[0], r.members) == Some(0) <==> IdReadable(r)
  {
    ByIdFits(r, id);
    hide IsName, Upper, PredicateFor, NoGap, PointerTo, ValueText, DistinctMembers, IndexOfOffset, LittleEndian, CString;
    MemberPointerBuildsIff(r.members, 0, IsEqual, IntField(id), misread);
    PointerHolds(r.members[0]);
    PointerNamesMemberIff(r.members, 0, PointerTo(r.members[0]));
  }

  // ----- Statements with any comparison -----

  /** The rows a condition does not hold of. */
  function KeptRows(t: Table, c: Condition): map<int, Row>
    requires WellShaped(t) && Knows(t.columns, c)
  {
    map id | id in t.rows && !Holds(t.columns, t.rows[id], c) :: t.rows[id]
  }

  lemma RunDelete(ts: Tables, name: string, c: Condition)
    requires Upper(name) in ts && WellShaped(ts[Upper(name)]) && Knows(ts[Upper(name)].columns, c)
    ensures SqlEngine.Run(ts, Delete(name, c)) ==
            Some(ts[Upper(name) := ts[Upper(name)].(rows := KeptRows(ts[Upper(name)], c))])
  {
    hide Holds, Knows, Upper;
    var t := ts[Upper(name)];
    var rows := map id | id in t.rows && !Holds(t.columns, t.rows[id], c) :: t.rows[id];
    assert rows == KeptRows(t, c);
  }

  /** What a well-formed predicate without an empty part deletes, row by row. */
  lemma DeleteByCondition(ts: Tables, r: Reflected, m: RecordMap, p: Predicate)
    requires ValidType(r) && KeyedById(m, r) && Upper(r.name) in ts && ts[Upper(r.name)] == TableOf(m, r)
    requires WellFormed(p) && !HasEmpty(p) && Knows(ColumnsFor(r.members), ConditionOf(p))
    ensures var t := TableOf(m, r);
            Effect(ts, PrepareDelete(r, p)) == Some(ts[Upper(r.name) := t.(rows := KeptRows(t, ConditionOf(p)))])
  {
    hide Lex, ParseStatement, PrepareDelete, ValidType, KeyedById, Upper, Knows, ConditionOf, WellFormed, HasEmpty, RowOf,
         KeptRows, SqlEngine.Run;
    DeleteParses(r, p);
    RunDelete(ts, r.name, ConditionOf(p));
  }

  /** What a well-formed predicate without an empty part fetches. */
  lemma FetchByCondition(ts: Tables, r: Reflected, m: RecordMap, p: Predicate)
    requires ValidType(r) && KeyedById(m, r) && Upper(r.name) in ts && ts[Upper(r.name)] == TableOf(m, r)
    requires WellFormed(p) && !HasEmpty(p) && Knows(ColumnsFor(r.members), ConditionOf(p))
    ensures var results := ResultsOf(ts, PrepareFetch(r, p));
            && results.Some?
            && |results.value.rowValues| == |Selected(TableOf(m, r), Some(ConditionOf(p)))|
  {
    hide Lex, ParseStatement, PrepareFetch, ValidType, KeyedById, Upper, Holds, Knows, ConditionOf, WellFormed, HasEmpty, RowOf,
         Selected;
    FetchParses(r, p);
    assert !p.EmptyPredicate? by { NotEmpty(p); }
  }

  lemma NotEmpty(p: Predicate)
    requires !HasEmpty(p)
    ensures !p.EmptyPredicate?
  {
  }

  /** A predicate whose pointer found no member prints no column; its statements do not parse. */
  lemma NamelessLexes(start: string, kStart: seq<Token>, r: Reflected)
    requires ValidType(r) && Lexes(start, kStart, true)
    ensures Lex(start + r.name + " WHERE " + Evaluate(QueryPredicate("=", "", "")) + ";")
            == kStart + [Word(r.name)] + ([Word("WHERE")] + ([Symbol("=")] + END))
  {
    hide Lexes, IsName, IsIdentifier, DistinctMembers;
    UpdateWords();
    NameIsIdentifier(r.name);
    WordLexes(r.name);
    SpacedWordLexes("WHERE");
    assert " " + "WHERE" + " " == " WHERE ";
    assert Evaluate(QueryPredicate("=", "", "")) == " = ";
    SpaceLexes();
    SymbolLexes('=');
    LexesThen("=", [Symbol("=")], true, " ", [], true);
    LexesThen(" ", [], true, "=" + " ", [Symbol("=")] + [], true);
    assert " " + ("=" + " ") == " = " && [] + ([Symbol("=")] + []) == [Symbol("=")];
    SymbolLexes(';');
    var (t1, k1) := (start + r.name, kStart + [Word(r.name)]);
    var (t2, k2) := (t1 + " WHERE ", k1 + [Word("WHERE")]);
    LexesThen(start, kStart, true, r.name, [Word(r.name)], false);
    LexesThen(t1, k1, false, " WHERE ", [Word("WHERE")], true);
    LexesThen(t2, k2, true, " = ", [Symbol("=")], true);
    LexesThen(t2 + " = ", k2 + [Symbol("=")], true, ";", [Symbol(";")], true);
    LexesAlone(t2 + " = " + ";", k2 + [Symbol("=")] + [Symbol(";")], true);
    NestWhere(k1, [Symbol("=")]);
  }

  lemma NamelessClause()
    ensures WhereClause([Word("WHERE")] + ([Symbol("=")] + END)) == None
  {
    var ts := [Symbol("=")] + END;
    assert ([Word("WHERE")] + ts)[1..] == ts;
    assert ParsePrimary(ts) == Failed;
    FailedPrimaryFailsOr(ts);
  }

  lemma NamelessFails(ts: Tables, r: Reflected)
    requires ValidType(r)
    ensures Effect(ts, PrepareDelete(r, QueryPredicate("=", "", ""))) == None
    ensures ResultsOf(ts, PrepareFetch(r, QueryPredicate("=", "", ""))) == None
  {
    hide Lex, Lexes, NameAfter, IsName, WhereClause, DistinctMembers, Upper;
    var p := QueryPredicate("=", "", "");
    var r1 := [Word("WHERE")] + ([Symbol("=")] + END);
    NamelessClause();
    assert Lexes("DELETE FROM ", DELETE, true) by {
      TwoWordsLex("DELETE", "FROM") by { DeleteWords(); }
      assert "DELETE" + " " + "FROM" + " " == "DELETE FROM ";
    }
    NamelessLexes("DELETE FROM ", DELETE, r);
    NameAfterPrefix(DELETE, r.name, r1);
    assert (DELETE + [Word(r.name)] + r1)[0] == Word("DELETE") && |DELETE + [Word(r.name)] + r1| > 3;
    assert ParseStatement(Lex(PrepareDelete(r, p))) == None;
    SelectStartLexes();
    NamelessLexes("SELECT * FROM ", SELECT_ALL, r);
    NameAfterPrefix(SELECT_ALL, r.name, r1);
    assert (SELECT_ALL + [Word(r.name)] + r1)[0] == Word("SELECT") && |SELECT_ALL + [Word(r.name)] + r1| > 3;
    assert r1[0] == Word("WHERE");
    assert "SELECT * FROM " + r.name + (" WHERE " + Evaluate(p)) + ";" == "SELECT * FROM " + r.name + " WHERE " + Evaluate(p) + ";";
    assert ParseStatement(Lex(PrepareFetch(r, p))) == None;
  }

  // ----- A record that is missed -----

  /** Two values of a class whose cells no literal equals both. */
  function OtherValue(c: StorageClass): (f: FieldValue)
    ensures HasClass(f, c) && Storable(f)
  {
    match c
    case KInt => IntField(1)
    case KBool => BoolField(true)
    case KReal => RealField(1_000_000)
    case KText => TextField("a")
    case KDateTime => SecondIsStorable(); DateField(1)
  }

  lemma SecondIsStorable()
    ensures Storable(DateField(1))
  {
    TimePoint.EpochYear();
  }

  lemma NotBoth(c: StorageClass, a: Affinity, l: Literal)
    ensures !(Compares(Eq, CellOf(SampleValue(c)), a, l) && Compares(Eq, CellOf(OtherValue(c)), a, l))
  {
    hide Convert, TimePoint.SystemTimeText, TimePoint.Representable, TimePoint.CivilYear;
    if c == KDateTime {
      SampleTime();
      SecondIsStorable();
      TimePoint.SystemTimeTextIsInjective(0, 1);
    }
  }

  /** The sample record with id 1 and a given value at a position. */
  function Witness(members: seq<Member>, j: nat, f: FieldValue): (record: Record)
    requires 0 < j < |members| && members[0].class_ == KInt && HasClass(f, members[j].class_) && Storable(f)
    ensures FitsMembers(record, members) && record[0] == IntField(1) && record[j] == f
  {
    SampleRecord(members)[0 := IntField(1)][j := f]
  }

  /** A predicate on another member misses some record with id 1. */
  lemma MissesRecord(r: Reflected, j: nat, l: Literal) returns (record: Record)
    requires ValidType(r) && 0 < j < |r.members|
    ensures FitsMembers(record, r.members) && record[0] == IntField(1)
    ensures Knows(ColumnsFor(r.members), Compare(r.members[j].name, Eq, l))
    ensures !Holds(ColumnsFor(r.members), RowOf(record), Compare(r.members[j].name, Eq, l))
  {
    var c := r.members[j].class_;
    var (a, b) := (Witness(r.members, j, SampleValue(c)), Witness(r.members, j, OtherValue(c)));
    hide IsName, Upper, Compares, CellOf, DistinctMembers, Storable, Witness, SampleValue, OtherValue;
    IndexOfMember(r.members, j);
    var columns := ColumnsFor(r.members);
    NotBoth(c, columns[j].affinity, l);
    HoldsOfCompare(columns, RowOf(a), r.members[j].name, Eq, l, j);
    HoldsOfCompare(columns, RowOf(b), r.members[j].name, Eq, l, j);
    if Holds(columns, RowOf(a), Compare(r.members[j].name, Eq, l)) { record := b; } else { record := a; }
  }

  // ----- Exactly when ids work -----

  ghost predicate HoldsRecords(ts: Tables, r: Reflected, m: RecordMap) {
    KeyedById(m, r) && Upper(r.name) in ts && ts[Upper(r.name)] == TableOf(m, r)
  }

  /** Deleting an id removes its record and nothing else. */
  ghost predicate DeletesJust(ts: Tables, r: Reflected, m: RecordMap, id: int64, misread: Misreading)
    requires r.members != []
  {
    HoldsRecords(ts, r, m) ==>
      Effect(ts, PrepareDelete(r, IdPredicate(r, id, misread))) == Some(ts[Upper(r.name) := TableOf(m - {id}, r)])
  }

  /** Fetching an id reads its record and nothing else. */
  ghost predicate FetchesJust(ts: Tables, r: Reflected, m: RecordMap, id: int64, misread: Misreading)
    requires r.members != []
  {
    HoldsRecords(ts, r, m) ==>
      var results := ResultsOf(ts, PrepareFetch(r, IdPredicate(r, id, misread)));
      && results.Some? && |results.value.rowValues| == (if id in m then 1 else 0)
      && (id in m ==> results.value.rowValues[0] == TextsOf(TableOf(m, r).rows[id]))
  }

  lemma ReadableDeletesJust(ts: Tables, r: Reflected, m: RecordMap, id: int64, misread: Misreading)
    requires ValidType(r) && ValidOffsets(r.members) && IdReadable(r)
    ensures DeletesJust(ts, r, m, id, misread)
  {
    IdPredicateIs(r, id, misread);
    if HoldsRecords(ts, r, m) {
      ByIdAdmits(r, m, id);
      hide Lex, ParseStatement, PrepareDelete, Build, TableOf, Upper, ValidType, IdPredicate, SqlEngine.Run, Remaining, KeyedById;
      DeleteParses(r, ById(id).Predicate(r.members)) by { DeleteRuns(ts, r, m, ById(id).criterion); }
      DeleteRuns(ts, r, m, ById(id).criterion);
    }
  }

  lemma ReadableFetchesJust(ts: Tables, r: Reflected, m: RecordMap, id: int64, misread: Misreading)
    requires ValidType(r) && ValidOffsets(r.members) && IdReadable(r)
    ensures FetchesJust(ts, r, m, id, misread)
  {
    IdPredicateIs(r, id, misread);
    if HoldsRecords(ts, r, m) {
      ByIdAdmits(r, m, id);
      hide Lex, ParseStatement, PrepareFetch, Build, TableOf, Upper, ValidType, IdPredicate, Query, Matches, KeyedById, TextsOf,
           SelectStatement, NamesOf;
      SelectStatementIs(r, ById(id));
      SelectRuns(ts, r, m, ById(id));
      SelectStatementReads(r, ById(id));
    }
  }

  /** With an offset that does not survive, some record is missed by its own id: the statement finds nothing to do, or does not
      parse. */
  lemma UnreadableMisses(r: Reflected, misread: Misreading) returns (record: Record)
    requires ValidType(r) && ValidOffsets(r.members) && !IdReadable(r) && YieldsLiterals(misread)
    ensures FitsMembers(record, r.members) && record[0] == IntField(1)
    ensures KeyedById(map[1 := record], r)
    ensures forall ts :: HoldsRecords(ts, r, map[1 := record]) ==>
              && Effect(ts, PrepareDelete(r, IdPredicate(r, 1, misread))) in [None, Some(ts)]
              && var results := ResultsOf(ts, PrepareFetch(r, IdPredicate(r, 1, misread)));
                 results.Some? ==> results.value.rowValues == []
  {
    IdPredicateIs(r, 1, misread);
    var found := FoundFrom(r.members[0], r.members);
    if found == None {
      record := Witness(r.members, 1, SampleValue(r.members[1].class_));
      hide *;
      forall ts: Tables
        ensures Effect(ts, PrepareDelete(r, IdPredicate(r, 1, misread))) == None
        ensures ResultsOf(ts, PrepareFetch(r, IdPredicate(r, 1, misread))) == None
      {
        NamelessFails(ts, r);
        NotFoundIsNameless(r, misread);
      }
      OneIsKeyed(r, record);
    } else {
      var j := found.value;
      var p := IdPredicate(r, 1, misread);
      FoundIsComparison(r, j, misread);
      record := MissesRecord(r, j, LiteralOfValue(p.value));
      hide *;
      OneIsKeyed(r, record);
      forall ts | HoldsRecords(ts, r, map[1 := record])
        ensures Effect(ts, PrepareDelete(r, p)) == Some(ts)
        ensures ResultsOf(ts, PrepareFetch(r, p)).Some? && ResultsOf(ts, PrepareFetch(r, p)).value.rowValues == []
      {
        MissedIsKept(ts, r, record, p, j);
      }
    }
  }

  lemma OneIsKeyed(r: Reflected, record: Record)
    requires ValidType(r) && FitsMembers(record, r.members) && record[0] == IntField(1)
    ensures KeyedById(map[1 := record], r)
  {
    hide Storable, IsName, Upper;
  }

  lemma NotFoundIsNameless(r: Reflected, misread: Misreading)
    requires r.members != [] && FoundFrom(r.members[0], r.members) == None
    ensures IdPredicate(r, 1, misread) == QueryPredicate("=", "", "")
  {
    hide PointerTo, IndexOfOffset, LittleEndian, CString;
  }

  lemma FoundIsComparison(r: Reflected, j: nat, misread: Misreading)
    requires ValidType(r) && YieldsLiterals(misread) && FoundFrom(r.members[0], r.members) == Some(j)
    ensures var p := IdPredicate(r, 1, misread);
            && p.QueryPredicate? && WellFormed(p) && !HasEmpty(p)
            && ConditionOf(p) == Compare(r.members[j].name, Eq, LiteralOfValue(p.value))
  {
    hide PointerTo, IndexOfOffset, LittleEndian, CString, IsNumberText, IsQuotedText, Upper, IsIdentifier, LiteralOfValue;
    IntTextIsNumber(1);
    OperatorOfSymbol(IsEqual);
  }

  lemma MissedIsKept(ts: Tables, r: Reflected, record: Record, p: Predicate, j: nat)
    requires ValidType(r) && FitsMembers(record, r.members) && record[0] == IntField(1)
    requires KeyedById(map[1 := record], r) && HoldsRecords(ts, r, map[1 := record])
    requires p.QueryPredicate? && WellFormed(p) && !HasEmpty(p) && j < |r.members|
    requires ConditionOf(p) == Compare(r.members[j].name, Eq, LiteralOfValue(p.value))
    requires Knows(ColumnsFor(r.members), ConditionOf(p))
    requires !Holds(ColumnsFor(r.members), RowOf(record), ConditionOf(p))
    ensures Effect(ts, PrepareDelete(r, p)) == Some(ts)
    ensures ResultsOf(ts, PrepareFetch(r, p)).Some? && ResultsOf(ts, PrepareFetch(r, p)).value.rowValues == []
  {
    var m := map[1 := record];
    hide PrepareDelete, PrepareFetch, ResultsOf, Effect, ValidType, FitsMembers, ConditionOf, Holds, Knows, WellFormed, HasEmpty,
         RowOf, Upper, KeyedById, TableOf, KeptRows, Selected;
    DeleteByCondition(ts, r, m, p);
    FetchByCondition(ts, r, m, p);
    NothingHolds(r, record, ConditionOf(p));
    SameTables(ts, Upper(r.name));
  }

  lemma SameTables(ts: Tables, n: string)
    requires n in ts
    ensures ts[n := ts[n]] == ts && ts[n].(rows := ts[n].rows) == ts[n]
  {
  }

  lemma NothingHolds(r: Reflected, record: Record, c: Condition)
    requires FitsMembers(record, r.members) && KeyedById(map[1 := record], r)
    requires Knows(ColumnsFor(r.members), c) && !Holds(ColumnsFor(r.members), RowOf(record), c)
    ensures TableOf(map[1 := record], r).columns == ColumnsFor(r.members)
    ensures KeptRows(TableOf(map[1 := record], r), c) == TableOf(map[1 := record], r).rows
    ensures Selected(TableOf(map[1 := record], r), Some(c)) == {}
  {
    hide Holds, Knows, RowOf, KeyedById, Storable;
    var t := TableOf(map[1 := record], r);
    assert forall id <- t.rows.Keys :: id == 1 && t.rows[id] == RowOf(record);
    assert KeptRows(t, c).Keys == t.rows.Keys;
    SameRows(KeptRows(t, c), t.rows);
  }

  /** Deleting by id removes exactly the record with that id, for all tables of the type and all ids, if and only if the offset
      of `id` survives the copy of its pointer. */
  lemma DeleteByIdIff(r: Reflected, misread: Misreading)
    requires ValidType(r) && ValidOffsets(r.members) && YieldsLiterals(misread)
    ensures (forall ts, m, id: int64 :: DeletesJust(ts, r, m, id, misread)) <==> IdReadable(r)
  {
    if IdReadable(r) {
      forall ts, m, id: int64 ensures DeletesJust(ts, r, m, id, misread) { ReadableDeletesJust(ts, r, m, id, misread); }
    } else {
      var record := UnreadableMisses(r, misread);
      hide *;
      UnreadableKeeps(r, record, misread);
    }
  }

  lemma UnreadableKeeps(r: Reflected, record: Record, misread: Misreading)
    requires r.members != [] && KeyedById(map[1 := record], r)
    requires forall ts :: HoldsRecords(ts, r, map[1 := record]) ==>
               Effect(ts, PrepareDelete(r, IdPredicate(r, 1, misread))) in [None, Some(ts)]
    ensures exists ts, m, id: int64 :: !DeletesJust(ts, r, m, id, misread)
  {
    var m := map[1 := record];
    assert KeyedById(m - {1}, r);
    hide Effect, PrepareDelete, IdPredicate, KeyedById, Upper, RowOf;
    var ts: Tables := map[Upper(r.name) := TableOf(m, r)];
    assert HoldsRecords(ts, r, m);
    assert 1 in TableOf(m, r).rows && 1 !in TableOf(m - {1}, r).rows;
    assert ts[Upper(r.name) := TableOf(m - {1}, r)][Upper(r.name)] != ts[Upper(r.name)];
    assert !DeletesJust(ts, r, m, 1, misread);
  }

  /** Fetching by id reads exactly the record with that id, for all tables of the type and all ids, if and only if the offset of
      `id` survives the copy of its pointer. */
  lemma FetchByIdIff(r: Reflected, misread: Misreading)
    requires ValidType(r) && ValidOffsets(r.members) && YieldsLiterals(misread)
    ensures (forall ts, m, id: int64 :: FetchesJust(ts, r, m, id, misread)) <==> IdReadable(r)
  {
    if IdReadable(r) {
      forall ts, m, id: int64 ensures FetchesJust(ts, r, m, id, misread) { ReadableFetchesJust(ts, r, m, id, misread); }
    } else {
      var record := UnreadableMisses(r, misread);
      hide *;
      UnreadableReads(r, record, misread);
    }
  }

  lemma UnreadableReads(r: Reflected, record: Record, misread: Misreading)
    requires r.members != [] && KeyedById(map[1 := record], r)
    requires forall ts :: HoldsRecords(ts, r, map[1 := record]) ==>
               var results := ResultsOf(ts, PrepareFetch(r, IdPredicate(r, 1, misread)));
               results.Some? ==> results.value.rowValues == []
    ensures exists ts, m, id: int64 :: !FetchesJust(ts, r, m, id, misread)
  {
    hide ResultsOf, PrepareFetch, IdPredicate, KeyedById, Upper, RowOf;
    var m := map[1 := record];
    var ts: Tables := map[Upper(r.name) := TableOf(m, r)];
    assert HoldsRecords(ts, r, m);
    assert !FetchesJust(ts, r, m, 1, misread);
  }

  // ----- What else is deleted -----

  /** When the pointer to `id` finds another integer member, deleting an id removes exactly the records in which that member
      holds the number, whatever their ids. */
  lemma DeleteByIdMisdirected(ts: Tables, r: Reflected, m: RecordMap, id: int64, j: nat, misread: Misreading)
    requires ValidType(r) && FoundFrom(r.members[0], r.members) == Some(j) && r.members[j].class_ == KInt
    requires HoldsRecords(ts, r, m)
    ensures Allowed(Where(IsEqual, j, IntField(id)), r.members)
    ensures Effect(ts, PrepareDelete(r, IdPredicate(r, id, misread))) ==
            Some(ts[Upper(r.name) := TableOf(Remaining(m, r, Where(IsEqual, j, IntField(id))), r)])
    ensures forall k :: k in m ==> (k !in Remaining(m, r, Where(IsEqual, j, IntField(id))) <==> m[k][j] == IntField(id))
  {
    var c := Where(IsEqual, j, IntField(id));
    assert IdPredicate(r, id, misread) == Build(c, r.members) by {
      hide PointerTo, IndexOfOffset, LittleEndian, CString, IsName, Upper, DistinctMembers;
    }
    DeleteRuns(ts, r, m, c);
    hide Lex, ParseStatement, PrepareDelete, Build, TableOf, Upper, ValidType, IdPredicate, SqlEngine.Run, IsName;
    DeleteParses(r, Build(c, r.members));
  }

  /** The input: `id` at offset 256 behind an integer field at offset 0, one record with id 1 whose field holds 2. Deleting id 2,
      which no record has, removes the record; deleting id 1 keeps it. */
  lemma OffsetOf256DeletesAnother(ts: Tables, r: Reflected, record: Record, misread: Misreading)
    requires ValidType(r) && r.members[0].offset == 0x100 && r.members[1].offset == 0 && r.members[1].class_ == KInt
    requires FitsMembers(record, r.members) && record[0] == IntField(1) && record[1] == IntField(2)
    requires HoldsRecords(ts, r, map[1 := record])
    ensures KeyedById(map[], r)
    ensures Effect(ts, PrepareDelete(r, IdPredicate(r, 2, misread))) == Some(ts[Upper(r.name) := TableOf(map[], r)])
    ensures Effect(ts, PrepareDelete(r, IdPredicate(r, 1, misread))) == Some(ts)
  {
    FoundAt256(r);
    NoneIsKeyed(r);
    HeldTable(ts, r, map[1 := record]);
    hide *;
    DeleteByIdMisdirected(ts, r, map[1 := record], 2, 1, misread);
    DeleteByIdMisdirected(ts, r, map[1 := record], 1, 1, misread);
    RemainingOfOne(r, record, 2);
    RemainingOfOne(r, record, 1);
    SameTables(ts, Upper(r.name));
  }

  lemma HeldTable(ts: Tables, r: Reflected, m: RecordMap)
    requires HoldsRecords(ts, r, m)
    ensures KeyedById(m, r) && Upper(r.name) in ts && ts[Upper(r.name)] == TableOf(m, r)
  {
    hide KeyedById, TableOf, Upper;
  }

  lemma NoneIsKeyed(r: Reflected)
    ensures KeyedById(map[], r)
  {
  }

  lemma RemainingOfOne(r: Reflected, record: Record, id: int64)
    requires KeyedById(map[1 := record], r) && FitsMembers(record, r.members) && 2 <= |r.members|
    requires Allowed(Where(IsEqual, 1, IntField(id)), r.members)
    ensures Remaining(map[1 := record], r, Where(IsEqual, 1, IntField(id))) ==
            if record[1] == IntField(id) then map[] else map[1 := record]
  {
    hide Storable, IsName;
  }

  lemma FoundAt256(r: Reflected)
    requires 2 <= |r.members| && r.members[0].offset == 0x100 && r.members[1].offset == 0
    ensures FoundFrom(r.members[0], r.members) == Some(1)
  {
    var b := PointerTo(r.members[0]);
    assert b[0] == 0;
    assert CString(b) == [];
    assert IndexOfOffset(r.members, 0, 1) == Some(1);
  }
}
