/** What the library keeps: a map of records for each type, and the changes its statements make to it. */
module RecordStore {
  import opened WideInput
  import opened Reflection
  import opened SqlLexer
  import opened SqlParser
  import opened SqlEngine
  import opened Records
  import opened QueryPredicates
  import opened Queries
  import opened RecordTables
  import opened Transactions

  /** The registered types by type id. */
  type Types = map<string, Reflected>

  ghost predicate ValidTypes(types: Types) {
    && (forall t :: t in types ==> ValidType(types[t]))
    && (forall t, u :: t in types && u in types && t != u ==> Upper(types[t].name) != Upper(types[u].name))
  }

  // ----- The types a register holds -----

  /** A struct that can be saved: legal names, distinct from each other and from `id`, at real offsets. */
  predicate LegalStruct(s: Struct) {
    && IsName(s.name) && !("SQLITE_" <= Upper(s.name)) && 1 <= |s.fields|
    && (forall k :: 0 <= k < |s.fields| ==> IsName(s.fields[k].name) && Upper(s.fields[k].name) != Upper(ID))
    && DistinctMembers(s.fields) && ValidOffsets(Describe(s).members)
  }

  lemma IdIsLegal()
    ensures IsName(ID)
  {
    assert Upper(ID) == "ID" by { assert ID[1..] == "d" && "d"[1..] == ""; }
    IdIsNoKeyword();
    IdIsNotReserved();
    IdIsNoExpression();
    hide Keywords, Reserved, Expressions;
  }

  lemma IdIsNoExpression()
    ensures "ID" !in Expressions()
  {
  }

  lemma IdIsNoKeyword()
    ensures "ID" !in Keywords()
  {
  }

  lemma IdIsNotReserved()
    ensures "ID" !in Reserved()
  {
  }

  /** Registration makes a table type of every legal struct, with `id` first. */
  lemma DescribedIsValid(s: Struct)
    requires LegalStruct(s)
    ensures ValidType(Describe(s)) && ValidOffsets(Describe(s).members)
    ensures Describe(s).name == s.name && |Describe(s).members| == |s.fields| + 1
    ensures forall i :: 0 <= i < |s.fields| ==> Describe(s).members[i + 1] == s.fields[i]
  {
    IdIsLegal();
    hide IsName, Upper, ValidOffsets;
    var members := Describe(s).members;
    assert forall k :: 1 <= k < |members| ==> members[k] == s.fields[k - 1];
  }

  lemma {:induction false} OnlyDescriptions(structs: seq<Struct>)
    ensures forall t :: t in AfterAll(map[], structs) ==>
              exists k :: 0 <= k < |structs| && structs[k].typeId == t && AfterAll(map[], structs)[t] == Describe(structs[k])
  {
    if structs != [] {
      var (earlier, last) := (structs[..|structs| - 1], structs[|structs| - 1]);
      OnlyDescriptions(earlier);
      var before := AfterAll(map[], earlier);
      forall t | t in AfterAll(map[], structs)
        ensures exists k :: 0 <= k < |structs| && structs[k].typeId == t && AfterAll(map[], structs)[t] == Describe(structs[k])
      {
        if t in before {
          var k :| 0 <= k < |earlier| && earlier[k].typeId == t && before[t] == Describe(earlier[k]);
          assert structs[k] == earlier[k];
        } else {
          assert structs[|structs| - 1] == last && last.typeId == t;
        }
      }
    }
  }

  /** Whatever the order and number of registrations, a register of legal structs with different names for different types
      holds types the database can work with. */
  lemma RegisteredTypesAreValid(structs: seq<Struct>)
    requires forall k :: 0 <= k < |structs| ==> LegalStruct(structs[k])
    requires forall j, k :: 0 <= j < |structs| && 0 <= k < |structs| && structs[j].typeId != structs[k].typeId ==>
               Upper(structs[j].name) != Upper(structs[k].name)
    ensures ValidTypes(AfterAll(map[], structs))
    ensures forall t :: t in AfterAll(map[], structs) ==> ValidOffsets(AfterAll(map[], structs)[t].members)
  {
    OnlyDescriptions(structs);
    var types := AfterAll(map[], structs);
    hide AfterAll, LegalStruct, ValidType, ValidOffsets, Upper;
    forall t | t in types ensures ValidType(types[t]) && ValidOffsets(types[t].members) {
      var k :| 0 <= k < |structs| && structs[k].typeId == t && types[t] == Describe(structs[k]);
      DescribedIsValid(structs[k]);
    }
    forall t, u | t in types && u in types && t != u ensures Upper(types[t].name) != Upper(types[u].name) {
      var j :| 0 <= j < |structs| && structs[j].typeId == t && types[t] == Describe(structs[j]);
      var k :| 0 <= k < |structs| && structs[k].typeId == u && types[u] == Describe(structs[k]);
    }
  }

  type Store = map<string, RecordMap>

  ghost predicate ValidStore(store: Store, types: Types) {
    forall t :: t in types ==> t in store && KeyedById(store[t], types[t])
  }

  /** The tables hold exactly the records of the store. */
  ghost predicate Represents(ts: Tables, types: Types, store: Store)
    requires ValidStore(store, types)
  {
    forall t :: t in types ==> Upper(types[t].name) in ts && ts[Upper(types[t].name)] == TableOf(store[t], types[t])
  }

  // ----- Changes -----

  datatype Change =
    | Insertion(typeId: string, record: Record)
    | Replacement(typeId: string, record: Record)
    | Removal(typeId: string, filter: Filter)

  predicate Legal(change: Change, types: Types) {
    && change.typeId in types
    && match change
       case Removal(t, filter) => filter.Fits(types[t].members)
       case _ => FitsMembers(change.record, types[change.typeId].members)
  }

  function SqlOf(types: Types, change: Change): string
    requires Legal(change, types) && 1 <= |types[change.typeId].members|
  {
    var r := types[change.typeId];
    match change
    case Insertion(_, record) => PrepareInsert(r, record)
    case Replacement(_, record) => PrepareUpdate(r, record)
    case Removal(_, filter) => PrepareDelete(r, filter.Predicate(r.members))
  }

  /** What a change makes of the records of its type; an id that is taken and a removal without criterion fail. */
  function ApplyTo(m: RecordMap, r: Reflected, change: Change): Option<RecordMap>
    requires KeyedById(m, r)
    requires !change.Removal? ==> change.record != [] && change.record[0].IntField?
    requires change.Removal? ==> change.filter.Fits(r.members)
  {
    match change
    case Insertion(_, record) => if IdOf(record) in m then None else Some(Inserted(m, record))
    case Replacement(_, record) => Some(Updated(m, record))
    case Removal(_, filter) => if filter.Everything? then None else Some(Remaining(m, r, filter.criterion))
  }

  lemma LegalHasId(change: Change, types: Types)
    requires ValidTypes(types) && Legal(change, types)
    ensures ValidType(types[change.typeId]) && 1 <= |types[change.typeId].members|
    ensures !change.Removal? ==>
              change.record != [] && change.record[0].IntField? && FitsMembers(change.record, types[change.typeId].members)
    ensures change.Removal? ==> change.filter.Fits(types[change.typeId].members)
  {
    hide IsName, Upper, DistinctMembers, Storable;
  }

  /** The statement of a change does to a type's table what the change does to its records. */
  lemma ChangeRuns(ts: Tables, r: Reflected, m: RecordMap, change: Change, types: Types)
    requires ValidTypes(types) && Legal(change, types) && r == types[change.typeId] && 1 <= |r.members| && ValidType(r)
    requires KeyedById(m, r) && Upper(r.name) in ts && ts[Upper(r.name)] == TableOf(m, r)
    ensures !change.Removal? ==> change.record != [] && change.record[0].IntField?
    ensures change.Removal? ==> change.filter.Fits(r.members)
    ensures IsData(SqlOf(types, change))
    ensures var effect, next := Effect(ts, SqlOf(types, change)), ApplyTo(m, r, change);
            && (next.Some? ==> KeyedById(next.value, r))
            && effect == if next.None? then None else Some(ts[Upper(r.name) := TableOf(next.value, r)])
  {
    LegalHasId(change, types);
    hide Lex, ParseStatement, PrepareInsert, PrepareUpdate, PrepareDelete, Run, ValidType, KeyedById, Upper, TableOf,
         FitsMembers, Build, WellFormed, HasEmpty, ConditionOf, Allowed, ValidTypes;
    hide Effect, IsData;
    match change
    case Insertion(_, record) =>
      InsertParses(r, record);
      InsertRuns(ts, r, m, record);
      EffectIs(ts, PrepareInsert(r, record), InsertStatement(r, record));
    case Replacement(_, record) =>
      UpdateParses(r, record);
      UpdateRuns(ts, r, m, record);
      EffectIs(ts, PrepareUpdate(r, record), UpdateStatement(r, record));
    case Removal(_, filter) => RemovalRuns(ts, r, m, filter);
  }

  lemma EffectIs(ts: Tables, sql: string, st: Statement)
    requires ParseStatement(Lex(sql)) == Some(st) && !st.Begin? && !st.Commit? && !st.Rollback?
    ensures IsData(sql) && Effect(ts, sql) == SqlEngine.Run(ts, st)
  {
    hide Lex, ParseStatement, Run;
  }

  lemma RemovalRuns(ts: Tables, r: Reflected, m: RecordMap, filter: Filter)
    requires ValidType(r) && KeyedById(m, r) && filter.Fits(r.members)
    requires Upper(r.name) in ts && ts[Upper(r.name)] == TableOf(m, r)
    ensures IsData(PrepareDelete(r, filter.Predicate(r.members)))
    ensures filter.Only? ==> KeyedById(Remaining(m, r, filter.criterion), r)
    ensures Effect(ts, PrepareDelete(r, filter.Predicate(r.members))) ==
            if filter.Everything? then None else Some(ts[Upper(r.name) := TableOf(Remaining(m, r, filter.criterion), r)])
  {
    hide Lex, ParseStatement, PrepareDelete, Run, ValidType, KeyedById, Upper, TableOf, Build, WellFormed, HasEmpty, ConditionOf,
         Allowed, Remaining;
    BuildIsWellFormedFor(r, filter);
    DeleteParses(r, filter.Predicate(r.members));
    if filter.Only? {
      DeleteRuns(ts, r, m, filter.criterion);
      RemainingIsKeyed(m, r, filter.criterion);
    }
  }

  lemma RemainingIsKeyed(m: RecordMap, r: Reflected, c: Criterion)
    requires KeyedById(m, r) && Allowed(c, r.members)
    ensures KeyedById(Remaining(m, r, c), r)
  {
    hide FitsMembers, Satisfies, Allowed;
  }

  function Apply(store: Store, types: Types, change: Change): Option<Store>
    requires ValidTypes(types) && ValidStore(store, types) && Legal(change, types)
  {
    LegalHasId(change, types);
    var t := change.typeId;
    match ApplyTo(store[t], types[t], change)
    case None => None
    case Some(m) => Some(store[t := m])
  }

  lemma ApplyIsValid(store: Store, types: Types, change: Change)
    requires ValidTypes(types) && ValidStore(store, types) && Legal(change, types)
    ensures var next := Apply(store, types, change); next.Some? ==> ValidStore(next.value, types)
  {
    LegalHasId(change, types);
    hide ApplyTo, KeyedById, ValidType, Legal;
    ApplyToIsKeyed(store[change.typeId], types[change.typeId], change);
  }

  lemma ApplyToIsKeyed(m: RecordMap, r: Reflected, change: Change)
    requires KeyedById(m, r)
    requires !change.Removal? ==> change.record != [] && change.record[0].IntField? && FitsMembers(change.record, r.members)
    requires change.Removal? ==> change.filter.Fits(r.members)
    ensures var next := ApplyTo(m, r, change); next.Some? ==> KeyedById(next.value, r)
  {
    hide FitsMembers, Allowed, Satisfies;
  }

  lemma RepresentsAfter(ts: Tables, types: Types, store: Store, t: string, m: RecordMap)
    requires ValidTypes(types) && ValidStore(store, types) && Represents(ts, types, store)
    requires t in types && KeyedById(m, types[t])
    ensures ValidStore(store[t := m], types)
    ensures Represents(ts[Upper(types[t].name) := TableOf(m, types[t])], types, store[t := m])
  {
    hide ValidType, KeyedById, TableOf, Upper;
  }

  /** The statement of a change refines the change: it fails if and only if the change does, and then the tables still
      represent the same records; otherwise they represent the changed ones, those of every other type untouched. */
  lemma ChangeRefines(ts: Tables, types: Types, store: Store, change: Change)
    requires ValidTypes(types) && ValidStore(store, types) && Represents(ts, types, store) && Legal(change, types)
    ensures 1 <= |types[change.typeId].members| && IsData(SqlOf(types, change))
    ensures var effect, next := Effect(ts, SqlOf(types, change)), Apply(store, types, change);
            && (effect.Some? <==> next.Some?)
            && (next.Some? ==> ValidStore(next.value, types) && Represents(effect.value, types, next.value))
  {
    LegalHasId(change, types);
    var (t, r) := (change.typeId, types[change.typeId]);
    ChangeRuns(ts, r, store[t], change, types);
    hide ApplyTo, KeyedById, ValidType, Legal, Effect, SqlOf, IsData, TableOf, Upper;
    var next := ApplyTo(store[t], r, change);
    if next.Some? {
      RepresentsAfter(ts, types, store, t, next.value);
    }
  }

  /** Changes one after another; nothing when one of them fails. */
  function ApplyAll(store: Store, types: Types, changes: seq<Change>): (next: Option<Store>)
    requires ValidTypes(types) && ValidStore(store, types) && forall k :: 0 <= k < |changes| ==> Legal(changes[k], types)
    ensures next.Some? ==> ValidStore(next.value, types)
    decreases |changes|
  {
    hide Apply, Legal, ValidTypes, ValidStore;
    if changes == [] then Some(store) else
    ApplyIsValid(store, types, changes[0]);
    match Apply(store, types, changes[0])
    case None => None
    case Some(next) => ApplyAll(next, types, changes[1..])
  }

  lemma {:induction false} ApplyAllOfConcat(store: Store, types: Types, a: seq<Change>, b: seq<Change>)
    requires ValidTypes(types) && ValidStore(store, types)
    requires forall k :: 0 <= k < |a + b| ==> Legal((a + b)[k], types)
    requires forall k :: 0 <= k < |a| ==> Legal(a[k], types)
    requires forall k :: 0 <= k < |b| ==> Legal(b[k], types)
    ensures var first := ApplyAll(store, types, a);
            ApplyAll(store, types, a + b) == if first.None? then None else ApplyAll(first.value, types, b)
    decreases a
  {
    hide Apply, Legal, ValidTypes, ValidStore;
    if a == [] {
      assert a + b == b;
    } else {
      assert (a + b)[1..] == a[1..] + b;
      ApplyIsValid(store, types, a[0]);
      var next := Apply(store, types, a[0]);
      if next.Some? { ApplyAllOfConcat(next.value, types, a[1..], b); }
    }
  }

  /** The changes of one type. */
  function OfType(changes: seq<Change>, t: string): (own: seq<Change>)
    ensures forall k :: 0 <= k < |own| ==> own[k] in changes && own[k].typeId == t
  {
    if changes == [] then []
    else if changes[0].typeId == t then [changes[0]] + OfType(changes[1..], t)
    else OfType(changes[1..], t)
  }

  /** Types do not interfere: the records of a type are what its own changes alone make of them. */
  lemma {:induction false} TypesAreIsolated(store: Store, other: Store, types: Types, changes: seq<Change>, t: string)
    requires ValidTypes(types) && ValidStore(store, types) && ValidStore(other, types) && t in types && other[t] == store[t]
    requires forall k :: 0 <= k < |changes| ==> Legal(changes[k], types)
    requires forall k :: 0 <= k < |OfType(changes, t)| ==> Legal(OfType(changes, t)[k], types)
    requires ApplyAll(store, types, changes).Some?
    ensures var own := ApplyAll(other, types, OfType(changes, t));
            own.Some? && own.value[t] == ApplyAll(store, types, changes).value[t]
    decreases changes
  {
    hide ApplyTo, Legal, ValidTypes;
    if changes != [] {
      var next := Apply(store, types, changes[0]).value;
      var rest := OfType(changes[1..], t);
      if changes[0].typeId == t {
        var own := [changes[0]] + rest;
        assert OfType(changes, t) == own && own[1..] == rest;
        assert forall k :: 0 <= k < |rest| ==> rest[k] == own[k + 1];
        ApplyIsValid(store, types, changes[0]);
        ApplyIsValid(other, types, changes[0]);
        TypesAreIsolated(next, Apply(other, types, changes[0]).value, types, changes[1..], t);
      } else {
        ApplyIsValid(store, types, changes[0]);
        TypesAreIsolated(next, other, types, changes[1..], t);
      }
    }
  }
}
