/** The table a type's records are kept in, and what each prepared statement does to the records. */
module RecordTables {
  import opened Machine
  import opened WideInput
  import opened DecimalText
  import opened StringUtilities
  import opened Reflection
  import opened SqlParser
  import opened SqlEngine
  import opened Records
  import opened QueryPredicates
  import opened Queries

  /** The records of one type by id. */
  type RecordMap = map<int, Record>

  predicate KeyedById(m: RecordMap, r: Reflected) {
    forall id :: id in m ==> FitsMembers(m[id], r.members) && m[id] != [] && m[id][0].IntField? && m[id][0].v == id
  }

  /** The table that holds exactly these records. */
  function TableOf(m: RecordMap, r: Reflected): (t: Table)
    requires KeyedById(m, r)
    ensures WellShaped(t)
  {
    Table(ColumnsFor(r.members), map id | id in m :: RowOf(m[id]))
  }

  lemma SameRows(a: map<int, Row>, b: map<int, Row>)
    requires a.Keys == b.Keys
    requires forall id <- a.Keys :: a[id] == b[id]
    ensures a == b
  {
    assert forall id <- a.Keys :: a[id] == b[id];
  }

  function IdOf(record: Record): int64
    requires record != [] && record[0].IntField?
  {
    record[0].v
  }

  // ----- INSERT -----

  function Inserted(m: RecordMap, record: Record): RecordMap
    requires record != [] && record[0].IntField?
  {
    m[IdOf(record) := record]
  }

  lemma ColumnNamesAreDistinct(r: Reflected)
    requires ValidType(r)
    ensures DistinctNames(ColumnNames(r)) && NamesOf(ColumnsFor(r.members)) == ColumnNames(r)
  {
    hide IsName, Upper;
  }

  lemma FirstIsInt(r: Reflected, record: Record)
    requires ValidType(r) && FitsMembers(record, r.members)
    ensures record != [] && record[0].IntField?
  {
  }

  /** The row that an INSERT makes is the record's. */
  lemma InsertedRowIs(r: Reflected, record: Record)
    requires ValidType(r) && FitsMembers(record, r.members)
    ensures InsertedRow(ColumnsFor(r.members), ColumnNames(r), LiteralsOf(record)) == RowOf(record)
  {
    hide IsName, Upper, Convert, ContentOf, CellOf, IndexOf, DistinctNames, DistinctMembers, Storable;
    var columns := ColumnsFor(r.members);
    ColumnNamesAreDistinct(r);
    forall j | 0 <= j < |record|
      ensures InsertedRow(columns, ColumnNames(r), LiteralsOf(record))[j] == RowOf(record)[j]
    {
      assert columns[j].name == ColumnNames(r)[j];
      IndexOfDistinct(ColumnNames(r), j);
      ContentConverts(record[j], r.members[j].class_);
    }
  }

  /** INSERT adds the record under its id, unless the id is taken. */
  lemma InsertRuns(ts: Tables, r: Reflected, m: RecordMap, record: Record)
    requires ValidType(r) && KeyedById(m, r) && FitsMembers(record, r.members)
    requires Upper(r.name) in ts && ts[Upper(r.name)] == TableOf(m, r)
    ensures record != [] && record[0].IntField?
    ensures IdOf(record) !in m ==> KeyedById(Inserted(m, record), r)
    ensures Run(ts, InsertStatement(r, record)) ==
            if IdOf(record) in m then None else Some(ts[Upper(r.name) := TableOf(Inserted(m, record), r)])
  {
    FirstIsInt(r, record);
    hide IsName, Upper, IndexOf, DistinctNames, DistinctMembers, InsertedRow, LiteralsOf, ColumnNames, FitsMembers;
    ColumnNamesAreDistinct(r);
    forall k | 0 <= k < |ColumnNames(r)| ensures IndexOf(NamesOf(ColumnsFor(r.members)), ColumnNames(r)[k]).Some? {
      IndexOfDistinct(ColumnNames(r), k);
    }
    InsertedRowIs(r, record);
    assert RowOf(record)[0] == Integer(IdOf(record));
    if IdOf(record) !in m {
      SameRows(TableOf(m, r).rows[IdOf(record) := RowOf(record)], TableOf(Inserted(m, record), r).rows);
    }
  }

  // ----- UPDATE -----

  /** Replaces the record with the same id; nothing happens when there is none. */
  function Updated(m: RecordMap, record: Record): RecordMap
    requires record != [] && record[0].IntField?
  {
    if IdOf(record) in m then m[IdOf(record) := record] else m
  }

  lemma {:induction false} NotAmong(names: seq<string>, name: string)
    requires forall k :: 0 <= k < |names| ==> Upper(names[k]) != Upper(name)
    ensures IndexOf(names, name) == None
    decreases names
  {
    hide Upper;
    if names != [] { NotAmong(names[1..], name); }
  }

  lemma AssignedColumns(r: Reflected, record: Record)
    requires ValidType(r) && FitsMembers(record, r.members)
    ensures var names := AssignmentNames(AssignmentsOf(r, record));
            && IndexOf(names, r.members[0].name) == None
            && forall j :: 1 <= j < |r.members| ==> IndexOf(names, r.members[j].name) == Some(j - 1)
  {
    hide IsName, Upper, IndexOf, ContentOf;
    var names := AssignmentNames(AssignmentsOf(r, record));
    assert forall k :: 0 <= k < |names| ==> names[k] == r.members[k + 1].name;
    NotAmong(names, r.members[0].name);
    forall j | 1 <= j < |r.members| ensures IndexOf(names, r.members[j].name) == Some(j - 1) {
      IndexOfDistinct(names, j - 1);
    }
  }

  /** Updating the row of a record with the same id makes it the new record's row. */
  lemma UpdatedRowIs(r: Reflected, record: Record, row: Row)
    requires ValidType(r) && FitsMembers(record, r.members) && |row| == |r.members| && row[0] == RowOf(record)[0]
    ensures UpdatedRow(ColumnsFor(r.members), AssignmentsOf(r, record), row) == RowOf(record)
  {
    hide IsName, Upper, Convert, ContentOf, CellOf, IndexOf, DistinctNames, DistinctMembers, Storable;
    AssignedColumns(r, record);
    var columns := ColumnsFor(r.members);
    var updated := UpdatedRow(columns, AssignmentsOf(r, record), row);
    forall j | 0 <= j < |record| ensures updated[j] == RowOf(record)[j] {
      assert columns[j].name == r.members[j].name;
      ContentConverts(record[j], r.members[j].class_);
    }
  }

  /** The id of an UPDATE's condition, a quoted text, selects by the number it spells. */
  lemma IdConditionHolds(r: Reflected, record: Record, row: Row)
    requires ValidType(r) && FitsMembers(record, r.members) && |row| == |r.members| && row[0].Integer?
    ensures record != [] && record[0].IntField?
    ensures Knows(ColumnsFor(r.members), IdCondition(r, record))
    ensures Holds(ColumnsFor(r.members), row, IdCondition(r, record)) <==> row[0].n == IdOf(record)
  {
    FirstIsInt(r, record);
    var (columns, literal) := (ColumnsFor(r.members), TextLiteral(ContentOf(record[0])));
    assert IdCondition(r, record) == Compare(r.members[0].name, Eq, literal);
    IndexOfMember(r.members, 0);
    IdLiteralSelects(record[0], row[0]);
    HoldsOfCompare(columns, row, r.members[0].name, Eq, literal, 0);
  }

  lemma HoldsOfCompare(columns: seq<Column>, row: Row, name: string, op: Comparison, l: Literal, i: nat)
    requires |row| == |columns| && IndexOf(NamesOf(columns), name) == Some(i)
    ensures i < |columns| && Knows(columns, Compare(name, op, l))
    ensures Holds(columns, row, Compare(name, op, l)) <==> Compares(op, row[i], columns[i].affinity, l)
  {
    hide IndexOf, Compares;
  }

  lemma IdLiteralSelects(f: FieldValue, v: Cell)
    requires f.IntField? && v.Integer?
    ensures Compares(Eq, v, IntegerAffinity, TextLiteral(ContentOf(f))) <==> v.n == f.v
  {
    hide ParseWhole, ParseReal, IntText;
    WholeTextParses(f.v);
  }

  /** UPDATE gives exactly the record with that id its new values, and keeps every other record. */
  lemma UpdateRuns(ts: Tables, r: Reflected, m: RecordMap, record: Record)
    requires ValidType(r) && KeyedById(m, r) && FitsMembers(record, r.members)
    requires Upper(r.name) in ts && ts[Upper(r.name)] == TableOf(m, r)
    ensures record != [] && record[0].IntField?
    ensures KeyedById(Updated(m, record), r)
    ensures Run(ts, UpdateStatement(r, record)) == Some(ts[Upper(r.name) := TableOf(Updated(m, record), r)])
  {
    FirstIsInt(r, record);
    UpdatedIsKeyed(m, r, record);
    hide IsName, Upper, IndexOf, Holds, Knows, UpdatedRow, RowOf, FitsMembers, DistinctMembers, KeyedById;
    var (columns, t, next) := (ColumnsFor(r.members), TableOf(m, r), Updated(m, record));
    AssignedColumns(r, record);
    AssignedAreKnown(r, record);
    assert Knows(columns, IdCondition(r, record)) by { SomeRow(r, record); }
    assert next.Keys == m.Keys;
    forall id | id in m
      ensures (if Holds(columns, t.rows[id], IdCondition(r, record))
               then UpdatedRow(columns, AssignmentsOf(r, record), t.rows[id]) else t.rows[id]) == RowOf(next[id])
    {
      RowAfterUpdate(r, m, record, id);
    }
    UpdateRunsTo(ts, r, m, record, next);
  }

  lemma AssignedAreKnown(r: Reflected, record: Record)
    requires ValidType(r) && FitsMembers(record, r.members)
    ensures forall k :: 0 <= k < |AssignmentsOf(r, record)| ==>
              IndexOf(NamesOf(ColumnsFor(r.members)), AssignmentsOf(r, record)[k].column).Some?
  {
    hide IsName, Upper, IndexOf, ContentOf, Storable;
    forall k | 0 <= k < |AssignmentsOf(r, record)|
      ensures IndexOf(NamesOf(ColumnsFor(r.members)), AssignmentsOf(r, record)[k].column).Some?
    {
      IndexOfMember(r.members, k + 1);
    }
  }

  lemma UpdatedIsKeyed(m: RecordMap, r: Reflected, record: Record)
    requires KeyedById(m, r) && FitsMembers(record, r.members) && record != [] && record[0].IntField?
    ensures KeyedById(Updated(m, record), r)
  {
  }

  lemma RowAfterUpdate(r: Reflected, m: RecordMap, record: Record, id: int)
    requires ValidType(r) && KeyedById(m, r) && FitsMembers(record, r.members) && id in m
    ensures record != [] && record[0].IntField?
    ensures KeyedById(Updated(m, record), r) && Knows(ColumnsFor(r.members), IdCondition(r, record))
    ensures var row := TableOf(m, r).rows[id];
            (if Holds(ColumnsFor(r.members), row, IdCondition(r, record))
             then UpdatedRow(ColumnsFor(r.members), AssignmentsOf(r, record), row) else row)
            == RowOf(Updated(m, record)[id])
  {
    FirstIsInt(r, record);
    hide IsName, Upper, IndexOf, Holds, Knows, UpdatedRow, CellOf, ContentOf, Storable;
    var row := TableOf(m, r).rows[id];
    IdCell(m, r, id);
    IdConditionHolds(r, record, row);
    if id == IdOf(record) {
      IntCell(record[0]);
      UpdatedRowIs(r, record, row);
    }
  }

  lemma SomeRow(r: Reflected, record: Record)
    requires ValidType(r) && FitsMembers(record, r.members)
    ensures Knows(ColumnsFor(r.members), IdCondition(r, record))
  {
    hide CellOf, Knows, IsName, Upper;
    FirstIsInt(r, record);
    IntCell(record[0]);
    IdConditionHolds(r, record, RowOf(record));
  }

  lemma IntCell(f: FieldValue)
    requires f.IntField?
    ensures CellOf(f) == Integer(f.v)
  {
  }

  lemma IdCell(m: RecordMap, r: Reflected, id: int)
    requires KeyedById(m, r) && id in m
    ensures TableOf(m, r).rows[id][0] == Integer(id)
  {
  }

  lemma UpdateRunsTo(ts: Tables, r: Reflected, m: RecordMap, record: Record, next: RecordMap)
    requires ValidType(r) && KeyedById(m, r) && FitsMembers(record, r.members) && KeyedById(next, r) && next.Keys == m.Keys
    requires Upper(r.name) in ts && ts[Upper(r.name)] == TableOf(m, r)
    requires Knows(ColumnsFor(r.members), IdCondition(r, record))
    requires IndexOf(AssignmentNames(AssignmentsOf(r, record)), r.members[0].name) == None
    requires forall k :: 0 <= k < |AssignmentsOf(r, record)| ==>
               IndexOf(NamesOf(ColumnsFor(r.members)), AssignmentsOf(r, record)[k].column).Some?
    requires forall id :: id in m ==>
               (if Holds(ColumnsFor(r.members), TableOf(m, r).rows[id], IdCondition(r, record))
                then UpdatedRow(ColumnsFor(r.members), AssignmentsOf(r, record), TableOf(m, r).rows[id])
                else TableOf(m, r).rows[id]) == RowOf(next[id])
    ensures Run(ts, UpdateStatement(r, record)) == Some(ts[Upper(r.name) := TableOf(next, r)])
  {
    hide IsName, Upper, IndexOf, Holds, Knows, UpdatedRow, RowOf, AssignmentsOf, IdCondition, DistinctMembers, FitsMembers;
    var (columns, t, where) := (ColumnsFor(r.members), TableOf(m, r), IdCondition(r, record));
    assert columns[0].name == r.members[0].name;
    var rows := map id | id in t.rows ::
      if Holds(columns, t.rows[id], where) then UpdatedRow(columns, AssignmentsOf(r, record), t.rows[id]) else t.rows[id];
    SameRows(rows, TableOf(next, r).rows);
  }

  // ----- DELETE and SELECT -----

  /** Everything, or the records that satisfy a criterion. */
  datatype Filter = Everything | Only(criterion: Criterion) {
    predicate Fits(members: seq<Member>) { Only? ==> Allowed(criterion, members) }

    predicate Admits(record: Record, members: seq<Member>)
      requires Fits(members) && FitsMembers(record, members)
    {
      Only? ==> Satisfies(record, criterion, members)
    }

    /** The predicate a caller passes. */
    function Predicate(members: seq<Member>): Predicate
      requires Fits(members)
    {
      if Everything? then EmptyPredicate else Build(criterion, members)
    }
  }

  function Remaining(m: RecordMap, r: Reflected, c: Criterion): RecordMap
    requires KeyedById(m, r) && Allowed(c, r.members)
  {
    map id | id in m && !Satisfies(m[id], c, r.members) :: m[id]
  }

  lemma RowMeaning(r: Reflected, m: RecordMap, c: Criterion)
    requires ValidType(r) && KeyedById(m, r) && Allowed(c, r.members)
    ensures WellFormed(Build(c, r.members)) && !HasEmpty(Build(c, r.members))
    ensures Knows(ColumnsFor(r.members), ConditionOf(Build(c, r.members)))
    ensures forall id :: id in m ==>
              (Holds(ColumnsFor(r.members), TableOf(m, r).rows[id], ConditionOf(Build(c, r.members)))
               <==> Satisfies(m[id], c, r.members))
  {
    hide IsName, Upper, Holds, Knows, Satisfies, Build, ConditionOf, WellFormed, RowOf, DistinctMembers;
    MeaningPreserved(SampleRecord(r.members), c, r.members);
    forall id | id in m
      ensures Holds(ColumnsFor(r.members), TableOf(m, r).rows[id], ConditionOf(Build(c, r.members)))
              <==> Satisfies(m[id], c, r.members)
    {
      MeaningPreserved(m[id], c, r.members);
    }
  }

  function SampleValue(c: StorageClass): (f: FieldValue)
    ensures HasClass(f, c) && Storable(f)
  {
    match c
    case KInt => IntField(0)
    case KBool => BoolField(false)
    case KReal => RealField(0)
    case KText => TextField("")
    case KDateTime => SampleTime(); DateField(0)
  }

  lemma SampleTime()
    ensures Storable(DateField(0))
  {
    TimePoint.EpochYear();
  }

  function SampleRecord(members: seq<Member>): (record: Record)
    ensures FitsMembers(record, members)
  {
    seq(|members|, k requires 0 <= k < |members| => SampleValue(members[k].class_))
  }

  /** DELETE removes exactly the records that satisfy the criterion. */
  lemma DeleteRuns(ts: Tables, r: Reflected, m: RecordMap, c: Criterion)
    requires ValidType(r) && KeyedById(m, r) && Allowed(c, r.members)
    requires Upper(r.name) in ts && ts[Upper(r.name)] == TableOf(m, r)
    ensures WellFormed(Build(c, r.members)) && !HasEmpty(Build(c, r.members))
    ensures Run(ts, Delete(r.name, ConditionOf(Build(c, r.members)))) ==
            Some(ts[Upper(r.name) := TableOf(Remaining(m, r, c), r)])
  {
    hide IsName, Upper, Holds, Knows, Satisfies, Build, ConditionOf, WellFormed, RowOf, DistinctMembers, FitsMembers;
    RowMeaning(r, m, c);
    var (t, where) := (TableOf(m, r), ConditionOf(Build(c, r.members)));
    var rows := map id | id in t.rows && !Holds(t.columns, t.rows[id], where) :: t.rows[id];
    var next := Remaining(m, r, c);
    assert forall id :: id in rows.Keys <==> id in next.Keys;
    SameRows(rows, TableOf(next, r).rows);
  }

  /** The ids of the admitted records in ascending order. */
  function Matches(m: RecordMap, r: Reflected, f: Filter): (ids: seq<int>)
    requires KeyedById(m, r) && f.Fits(r.members)
    ensures forall id :: id in ids <==> id in m && f.Admits(m[id], r.members)
    ensures forall i :: 0 <= i < |ids| ==> ids[i] in m
    ensures forall i, j :: 0 <= i < j < |ids| ==> ids[i] < ids[j]
  {
    var ids := Ascending(set id | id in m && f.Admits(m[id], r.members));
    assert forall i :: 0 <= i < |ids| ==> ids[i] in ids;
    ids
  }

  function RowsOf(m: RecordMap, r: Reflected, ids: seq<int>): (rows: seq<Row>)
    requires KeyedById(m, r) && forall i :: 0 <= i < |ids| ==> ids[i] in m
    ensures |rows| == |ids|
  {
    seq(|ids|, i requires 0 <= i < |ids| => TableOf(m, r).rows[ids[i]])
  }

  function SelectStatement(r: Reflected, f: Filter): Statement
    requires f.Fits(r.members)
  {
    BuildIsWellFormedFor(r, f);
    SelectAll(r.name, if f.Everything? then None else Some(ConditionOf(Build(f.criterion, r.members))))
  }

  lemma BuildIsWellFormedFor(r: Reflected, f: Filter)
    requires f.Fits(r.members)
    ensures WellFormed(f.Predicate(r.members))
    ensures HasEmpty(f.Predicate(r.members)) <==> f.Everything?
  {
    hide IsName;
    if f.Only? {
      hide WellFormed, HasEmpty;
      BuildIsWellFormed(f.criterion, r.members);
    }
  }

  /** SELECT yields the rows of exactly the admitted records, in the order of their ids. */
  lemma SelectRuns(ts: Tables, r: Reflected, m: RecordMap, f: Filter)
    requires ValidType(r) && KeyedById(m, r) && f.Fits(r.members)
    requires Upper(r.name) in ts && ts[Upper(r.name)] == TableOf(m, r)
    ensures var ids := Matches(m, r, f);
            Query(ts, SelectStatement(r, f)) == Some(RowsOf(m, r, ids))
  {
    hide IsName, Upper, Holds, Knows, Satisfies, Build, ConditionOf, WellFormed, RowOf, DistinctMembers, FitsMembers, Ascending;
    var (t, ids, st) := (TableOf(m, r), Matches(m, r, f), SelectStatement(r, f));
    if f.Only? { RowMeaning(r, m, f.criterion); }
    var admitted := set id | id in m && f.Admits(m[id], r.members);
    assert forall id :: id in Selected(t, st.filter) <==> id in admitted;
    assert Selected(t, st.filter) == admitted;
    assert Ascending(Selected(t, st.filter)) == ids;
    assert RowsOf(m, r, ids) == seq(|ids|, i requires 0 <= i < |ids| => t.rows[ids[i]]);
  }

  /** The greatest id, NULL without records. */
  lemma MaxRuns(ts: Tables, r: Reflected, m: RecordMap)
    requires ValidType(r) && KeyedById(m, r)
    requires Upper(r.name) in ts && ts[Upper(r.name)] == TableOf(m, r)
    ensures var max := QueryMax(ts, SelectMax(ID, r.name));
            && (m == map[] ==> max == Some(Null))
            && (m != map[] ==> max.Some? && max.value.Integer? && max.value.n in m && forall id :: id in m ==> id <= max.value.n)
  {
    hide IsName, Upper, RowOf, DistinctMembers, FitsMembers, Ascending;
    var t := TableOf(m, r);
    var keys := Ascending(t.rows.Keys);
    assert t.rows.Keys == m.Keys;
    assert t.columns[0].name == ID;
    if m != map[] {
      assert m.Keys != {};
      assert exists id :: id in m.Keys;
      assert keys != [];
      assert keys[|keys| - 1] in keys;
      forall id | id in m ensures id <= keys[|keys| - 1] {
        assert id in keys;
      }
    } else {
      assert m.Keys == {};
      assert keys == Ascending({});
    }
  }
}
