/** The persistence promise as a whole: what a new database holds, that saved records are fetched, which ids batches get,
    and what fetching sees after any run. */
module Persistence {
  import opened Machine
  import opened WideInput
  import opened Reflection
  import opened SqlLexer
  import opened SqlParser
  import opened SqlEngine
  import opened Records
  import opened QueryPredicates
  import opened Queries
  import opened RecordTables
  import opened Transactions
  import opened Fetching
  import opened RecordStore
  import opened Requests
  import opened RecordDatabase
  import opened IdPredicates

  // ----- A new database -----

  /** Tables that hold the records of a store, as far as they exist; types without a table have no records. */
  ghost predicate Opens(ts: Tables, types: Types, store: Store)
    requires ValidStore(store, types)
  {
    forall t :: t in types ==>
      if Upper(types[t].name) in ts then ts[Upper(types[t].name)] == TableOf(store[t], types[t]) else store[t] == map[]
  }

  /** CREATE TABLE makes an empty table of the type's columns, or changes nothing when there is a table. */
  lemma CreateRuns(ts: Tables, r: Reflected)
    requires ValidType(r)
    ensures IsData(PrepareCreate(r)) && KeyedById(map[], r)
    ensures Effect(ts, PrepareCreate(r)) ==
            Some(if Upper(r.name) in ts then ts else ts[Upper(r.name) := TableOf(map[], r)])
  {
    CreateParses(r);
    hide Lex, ParseStatement, PrepareCreate, ValidType, Upper;
    SameRows(TableOf(map[], r).rows, map[]);
  }

  lemma CreateOpens(ts: Tables, types: Types, store: Store, t: string)
    requires ValidTypes(types) && ValidStore(store, types) && Opens(ts, types, store) && t in types
    ensures IsData(PrepareCreate(types[t]))
    ensures var effect := Effect(ts, PrepareCreate(types[t]));
            && effect.Some? && Opens(effect.value, types, store)
            && Upper(types[t].name) in effect.value && forall n :: n in ts ==> n in effect.value
  {
    CreateRuns(ts, types[t]);
    hide Effect, PrepareCreate, IsData, ValidType, TableOf, Upper, KeyedById;
  }

  /** Opening a database keeps the records it has, and once every type's statement is done each has a table. */
  lemma {:induction false} CreationRefines(c: Connection, types: Types, store: Store, order: seq<string>)
    requires ValidTypes(types) && ValidStore(store, types) && Opens(c.Committed(), types, store)
    requires forall i :: 0 <= i < |order| ==> order[i] in types
    ensures var b := ExecutedWhile(c, CreateSqls(types, order));
            && Opens(b.after.Committed(), types, store)
            && (forall n :: n in c.Committed() ==> n in b.after.Committed())
            && (forall i :: 0 <= i < b.done ==> Upper(types[order[i]].name) in b.after.Committed())
            && (c.txn == AutoCommit && c.faults == [] ==>
                  b.done == |order| && b.after.txn == AutoCommit && b.after.faults == [])
    decreases order
  {
    hide Executed, Effect, IsData, PrepareCreate, ValidTypes, Opens, Upper;
    if order != [] {
      var (sqls, t) := (CreateSqls(types, order), order[0]);
      var x := Executed(c, sqls[0]);
      CreateOpens(c.Committed(), types, store, t);
      ExecutedIsAtomic(c, sqls[0]);
      FaultsShrink(c, sqls[0]);
      assert x.after.faults != [] ==> x.after.faults[0] in x.after.faults;
      if c.txn == AutoCommit { ExecutedByFaults(c, sqls[0]); }
      if x.ending == Done {
        assert sqls[1..] == CreateSqls(types, order[1..]);
        CreationRefines(x.after, types, store, order[1..]);
        var rest := ExecutedWhile(x.after, sqls[1..]);
        forall i | 0 <= i < rest.done + 1 ensures Upper(types[order[i]].name) in rest.after.Committed() {
          if i > 0 { assert order[i] == order[1..][i - 1]; }
        }
      }
    }
  }

  lemma EmptyOpens(types: Types, store: Store)
    requires forall t :: t in types ==> t in store && store[t] == map[]
    ensures ValidStore(store, types) && Opens(map[], types, store)
  {
  }

  /** A new database, without faults, ends up with an empty table for every type. */
  lemma NewDatabaseIsEmpty(types: Types, order: seq<string>)
    requires ValidTypes(types) && (forall i :: 0 <= i < |order| ==> order[i] in types) && forall t :: t in types ==> t in order
    ensures var store: Store := map t | t in types :: map[];
            var b := ExecutedWhile(Connection(map[], AutoCommit, []), CreateSqls(types, order));
            b.done == |order| && b.after.txn == AutoCommit
            && ValidStore(store, types) && Represents(b.after.tables, types, store)
  {
    var store: Store := map t | t in types :: map[];
    var c := Connection(map[], AutoCommit, []);
    EmptyOpens(types, store);
    CreationRefines(c, types, store, order);
    hide ExecutedWhile, ValidTypes, TableOf, Upper, Opens, Represents, CreateSqls, KeyedById;
    var b := ExecutedWhile(c, CreateSqls(types, order));
    forall t | t in types ensures Upper(types[t].name) in b.after.tables {
      var i :| 0 <= i < |order| && order[i] == t;
    }
    AllOpened(b.after.tables, types, store);
  }

  lemma AllOpened(ts: Tables, types: Types, store: Store)
    requires ValidStore(store, types) && Opens(ts, types, store)
    requires forall t :: t in types ==> Upper(types[t].name) in ts
    ensures Represents(ts, types, store)
  {
    hide TableOf, Upper, KeyedById;
  }

  // ----- Save, then fetch -----

  /** `Save(record)` */
  function Saved(c: Connection, types: Types, t: string, record: Record): Batch
    requires ValidTypes(types) && t in types && FitsMembers(record, types[t].members)
  {
    hide ValidTypes, FitsMembers;
    assert LegalRequest(SaveModels(t, [record], false), types);
    Performed(c, types, SaveModels(t, [record], false))
  }

  /** Saving one record succeeds exactly when no transaction is open, none of its three statements meets a fault, and its
      id is free. */
  lemma SaveSucceedsIff(c: Connection, types: Types, store: Store, t: string, record: Record)
    requires ValidTypes(types) && ValidStore(store, types) && Represents(c.Committed(), types, store)
    requires t in types && FitsMembers(record, types[t].members)
    ensures record != [] && record[0].IntField?
    ensures var b := Saved(c, types, t, record);
            && (b.done == 1 <==> c.txn == AutoCommit && IdOf(record) !in store[t]
                                 && FaultAt(c, 0) == NoFault && FaultAt(c, 1) == NoFault && FaultAt(c, 2) == NoFault)
            && (b.done == 1 ==>
                  b.after.txn == AutoCommit
                  && var next := store[t := Inserted(store[t], record)];
                     ValidStore(next, types) && Represents(b.after.tables, types, next))
            && (b.done != 1 ==> Represents(b.after.Committed(), types, store))
  {
    var (q, change) := (SaveModels(t, [record], false), Insertion(t, record));
    FirstIsInt(types[t], record);
    SaveIsOneInsertion(c.tables, types, t, record, false);
    OneExecuted(c, types, q, change);
    ChangeRefines(c.Committed(), types, store, change);
    hide Executed, Effect, Represents, ValidTypes, SqlOf, IsData, KeyedById, FitsMembers, Performed, ValidStore;
    StepRefines(c, types, store, change);
    ExecutedIsAtomic(c, SqlOf(types, change));
    if c.txn == AutoCommit { ExecutedByFaults(c, SqlOf(types, change)); }
  }

  /** What a fetch by id returns. */
  function FetchedOne(c: Connection, r: Reflected, id: int64, misread: Misreading, blank: Record): Option<Record>
    requires r.members != []
  {
    OnlyOne(ModelsOf(c.tables, r, IdPredicate(r, id, misread), blank))
  }

  /** A record that was saved is what its id fetches, for every list of members in which the offset of `id` survives and every
      storable value: recovered, which is equal if and only if every value is faithful. */
  lemma SavedIsFetched(c: Connection, types: Types, store: Store, t: string, record: Record, misread: Misreading, blank: Record)
    requires ValidTypes(types) && ValidStore(store, types) && Represents(c.Committed(), types, store)
    requires t in types && FitsMembers(record, types[t].members) && IsBlank(blank, types[t].members)
    requires ValidOffsets(types[t].members) && types[t].members != [] && IdReadable(types[t])
    requires Saved(c, types, t, record).done == 1
    ensures record != [] && record[0].IntField?
    ensures FetchedOne(Saved(c, types, t, record).after, types[t], IdOf(record), misread, blank) == Some(Recovered(record))
    ensures Recovered(record) == record <==> forall j :: 0 <= j < |record| ==> Faithful(record[j])
  {
    SaveSucceedsIff(c, types, store, t, record);
    RecoveredFits(record, types[t].members);
    InsertedHolds(store, t, record);
    hide *;
    var next := store[t := Inserted(store[t], record)];
    FetchedById(Saved(c, types, t, record).after, types, next, t, IdOf(record), misread, blank);
    FetchedOneIs(Saved(c, types, t, record).after, types[t], IdOf(record), misread, blank);
  }

  lemma FetchedOneIs(c: Connection, r: Reflected, id: int64, misread: Misreading, blank: Record)
    requires r.members != []
    ensures FetchedOne(c, r, id, misread, blank) == OnlyOne(ModelsOf(c.tables, r, IdPredicate(r, id, misread), blank))
  {
    hide OnlyOne, ModelsOf, IdPredicate;
  }

  lemma RecoveredFits(record: Record, members: seq<Member>)
    requires FitsMembers(record, members)
    ensures Recovered(record) == record <==> forall j :: 0 <= j < |record| ==> Faithful(record[j])
  {
    RecoveredIff(record);
  }

  lemma InsertedHolds(store: Store, t: string, record: Record)
    requires t in store && record != [] && record[0].IntField?
    ensures var next := store[t := Inserted(store[t], record)];
            IdOf(record) in next[t] && next[t][IdOf(record)] == record
  {
  }

  /** Saving a record into an empty table makes it what its id fetches. */
  ghost predicate SaveThenFetchWorks(c: Connection, types: Types, t: string, record: Record, misread: Misreading, blank: Record)
    requires ValidTypes(types) && t in types && types[t].members != []
  {
    FitsMembers(record, types[t].members) && record[0].IntField? ==>
      FetchedOne(Saved(c, types, t, record).after, types[t], IdOf(record), misread, blank) == Some(Recovered(record))
  }

  /** For a type without records, every record that is saved without faults is what its id fetches if and only if the offset of
      `id` survives the copy of its pointer. */
  lemma SavedIsFetchedIff(c: Connection, types: Types, store: Store, t: string, misread: Misreading, blank: Record)
    requires ValidTypes(types) && ValidStore(store, types) && Represents(c.tables, types, store)
    requires c.txn == AutoCommit && c.faults == [] && t in types && store[t] == map[]
    requires IsBlank(blank, types[t].members) && ValidOffsets(types[t].members) && YieldsLiterals(misread)
    ensures types[t].members != []
    ensures (forall record :: SaveThenFetchWorks(c, types, t, record, misread, blank)) <==> IdReadable(types[t])
  {
    hide *;
    TypeIsValid(types, t);
    if IdReadable(types[t]) {
      forall record ensures SaveThenFetchWorks(c, types, t, record, misread, blank) {
        ReadableSaveIsFetched(c, types, store, t, record, misread, blank);
      }
    } else {
      var record := UnreadableSaveIsMissed(c, types, store, t, misread, blank);
    }
  }

  lemma ReadableSaveIsFetched(c: Connection, types: Types, store: Store, t: string, record: Record, misread: Misreading,
                              blank: Record)
    requires ValidTypes(types) && ValidStore(store, types) && Represents(c.tables, types, store)
    requires c.txn == AutoCommit && c.faults == [] && t in types && store[t] == map[] && types[t].members != []
    requires IsBlank(blank, types[t].members) && ValidOffsets(types[t].members) && IdReadable(types[t])
    ensures SaveThenFetchWorks(c, types, t, record, misread, blank)
  {
    hide *;
    TableIs(c.tables, types, store, t);
    AllFaultless(c, store, t);
    SaveThenFetchIs(c, types, t, record, misread, blank);
    if FitsMembers(record, types[t].members) {
      SaveSucceedsIff(c, types, store, t, record);
      SavedIsFetched(c, types, store, t, record, misread, blank);
    }
  }

  lemma UnreadableSaveIsMissed(c: Connection, types: Types, store: Store, t: string, misread: Misreading, blank: Record)
    returns (record: Record)
    requires ValidTypes(types) && ValidStore(store, types) && Represents(c.tables, types, store)
    requires c.txn == AutoCommit && c.faults == [] && t in types && store[t] == map[] && types[t].members != []
    requires IsBlank(blank, types[t].members) && ValidOffsets(types[t].members) && YieldsLiterals(misread)
    requires !IdReadable(types[t])
    ensures !SaveThenFetchWorks(c, types, t, record, misread, blank)
  {
    hide *;
    TypeIsValid(types, t);
    TableIs(c.tables, types, store, t);
    AllFaultless(c, store, t);
    record := UnreadableMisses(types[t], misread);
    SaveSucceedsIff(c, types, store, t, record);
    MissedIsNotFetched(Saved(c, types, t, record).after, types, store, t, record, misread, blank);
    SaveThenFetchIs(c, types, t, record, misread, blank);
  }

  lemma AllFaultless(c: Connection, store: Store, t: string)
    requires c.txn == AutoCommit && c.faults == [] && t in store && store[t] == map[]
    ensures c.Committed() == c.tables && forall n :: FaultAt(c, n) == NoFault
    ensures forall id :: id !in store[t]
  {
  }

  lemma SaveThenFetchIs(c: Connection, types: Types, t: string, record: Record, misread: Misreading, blank: Record)
    requires ValidTypes(types) && t in types && types[t].members != []
    ensures SaveThenFetchWorks(c, types, t, record, misread, blank) <==>
            (FitsMembers(record, types[t].members) && record[0].IntField? ==>
               FetchedOne(Saved(c, types, t, record).after, types[t], IdOf(record), misread, blank) == Some(Recovered(record)))
  {
    hide Saved, FetchedOne, Recovered, ValidTypes;
  }

  lemma MissedIsNotFetched(c: Connection, types: Types, store: Store, t: string, record: Record, misread: Misreading, blank: Record)
    requires ValidTypes(types) && ValidStore(store, types) && t in types && types[t].members != [] && record != []
    requires store[t] == map[] && FitsMembers(record, types[t].members) && record[0] == IntField(1)
    requires ValidStore(store[t := Inserted(store[t], record)], types)
    requires Represents(c.tables, types, store[t := Inserted(store[t], record)])
    requires forall ts :: HoldsRecords(ts, types[t], map[1 := record]) ==>
               var results := ResultsOf(ts, PrepareFetch(types[t], IdPredicate(types[t], 1, misread)));
               results.Some? ==> results.value.rowValues == []
    ensures FetchedOne(c, types[t], 1, misread, blank) == None && IdOf(record) == 1
  {
    hide ResultsOf, PrepareFetch, IdPredicate, ValidTypes, KeyedById, TableOf, Upper, FitsMembers;
    assert Inserted(store[t], record) == map[1 := record];
    assert HoldsRecords(c.tables, types[t], map[1 := record]);
  }

  // ----- After any run -----

  /** What a fetch returns after any run, whatever failed in it, as long as no transaction stays open: exactly the admitted
      records that the changes done in the run make of the store. */
  lemma FetchAfterRun(c: Connection, types: Types, store: Store, requests: seq<Request>, t: string, f: Filter, blank: Record)
    requires ValidTypes(types) && forall k :: 0 <= k < |requests| ==> LegalRequest(requests[k], types)
    requires ValidStore(store, types) && Represents(c.Committed(), types, store)
    requires t in types && f.Fits(types[t].members) && IsBlank(blank, types[t].members)
    requires RunOf(c, types, requests).after.txn == AutoCommit
    ensures AllLegal(RunOf(c, types, requests).log, types) && ApplyAll(store, types, RunOf(c, types, requests).log).Some?
    ensures var run, r := RunOf(c, types, requests), types[t];
            var m := ApplyAll(store, types, run.log).value[t];
            var models := ModelsOf(run.after.tables, r, f.Predicate(r.members), blank);
            && KeyedById(m, r) && models.Some? && |models.value| == |Matches(m, r, f)|
            && forall i :: 0 <= i < |Matches(m, r, f)| ==>
                 FitsMembers(m[Matches(m, r, f)[i]], r.members)
                 && models.value[i] == Recovered(m[Matches(m, r, f)[i]])
  {
    RunRefines(c, types, store, requests);
    var run := RunOf(c, types, requests);
    var last := ApplyAll(store, types, run.log).value;
    hide *;
    FetchedModels(run.after, types, last, t, f, blank);
  }

  lemma OfTypeIsLegal(changes: seq<Change>, types: Types, t: string)
    requires AllLegal(changes, types)
    ensures AllLegal(OfType(changes, t), types)
    ensures forall k :: 0 <= k < |changes| ==> Legal(changes[k], types)
    ensures forall k :: 0 <= k < |OfType(changes, t)| ==> Legal(OfType(changes, t)[k], types)
  {
    hide Legal, ValidTypes, OfType;
    var own := OfType(changes, t);
    forall k | 0 <= k < |own| ensures own[k] in changes { }
  }

  /** What a run leaves of a type is what the run's changes to that type alone would have left. */
  lemma RunIsolates(c: Connection, types: Types, store: Store, requests: seq<Request>, t: string)
    requires ValidTypes(types) && forall k :: 0 <= k < |requests| ==> LegalRequest(requests[k], types)
    requires ValidStore(store, types) && Represents(c.Committed(), types, store) && t in types
    ensures var log := RunOf(c, types, requests).log;
            && AllLegal(log, types) && AllLegal(OfType(log, t), types)
            && var (all, own) := (ApplyAll(store, types, log), ApplyAll(store, types, OfType(log, t)));
               all.Some? && own.Some? && own.value[t] == all.value[t]
  {
    hide *;
    RunRefines(c, types, store, requests);
    var log := RunOf(c, types, requests).log;
    OfTypeIsLegal(log, types, t);
    TypesAreIsolated(store, store, types, log, t);
  }
}
