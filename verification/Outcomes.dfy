/** What saves, updates and deletions leave in the store, in terms of the models and criteria alone. */
module Outcomes {
  import opened WideInput
  import opened SqlEngine
  import opened Records
  import opened QueryPredicates
  import opened Queries
  import opened RecordTables
  import opened Fetching
  import opened RecordStore
  import opened Requests
  import opened RecordDatabase
  import opened Increments
  import opened ReferenceModel

  // ----- Saves -----

  /** The first new id of an auto-incrementing save; otherwise the models keep their ids. */
  function FirstId(ts: Tables, types: Types, t: string, auto: bool): Option<int>
    requires t in types
  {
    if !auto then None else
    match MaxIdOf(ts, PrepareMax(types[t]))
    case None => None
    case Some(max) => Some(max + 1)
  }

  lemma SavesAre(ts: Tables, types: Types, t: string, models: seq<Record>, auto: bool)
    requires ValidTypes(types) && t in types && LegalRequest(SaveModels(t, models, auto), types)
    requires auto ==> MaxIdOf(ts, PrepareMax(types[t])).Some?
    ensures ChangesOf(ts, types, SaveModels(t, models, auto)).Some?
    ensures var (changes, first) := (ChangesOf(ts, types, SaveModels(t, models, auto)).value, FirstId(ts, types, t, auto));
            && AllLegal(changes, types) && AreInsertions(changes, t) && HaveIds(models) && KeepModels(changes, models)
            && |changes| == |models|
            && forall i :: 0 <= i < |models| ==> IdAt(changes, i) == SavedId(models, first, i)
  {
    SavedModelsFit(types, t, models, auto);
    SaveIsInsertions(ts, types, t, models, auto);
    ChangesAreLegal(ts, types, SaveModels(t, models, auto));
    ModelsHaveIds(types, t, models, auto);
    hide ValidTypes, MaxIdOf, PrepareMax, LegalRequest, ChangesOf, FitsMembers, AllLegal;
  }

  lemma ModelsHaveIds(types: Types, t: string, models: seq<Record>, auto: bool)
    requires ValidTypes(types) && t in types && LegalRequest(SaveModels(t, models, auto), types)
    ensures HaveIds(models)
  {
    TypeIsValid(types, t);
    hide ValidTypes, FitsMembers;
    forall i | 0 <= i < |models| ensures models[i] != [] && models[i][0].IntField? { FirstIsInt(types[t], models[i]); }
  }

  /** The store after the first n models of a save: they are there under their own or new ids, with all other members, next to
      every record that was, and no other type has changed. */
  ghost predicate AfterSaves(before: Store, t: string, models: seq<Record>, first: Option<int>, n: nat, after: Store)
    requires t in before && HaveIds(models) && n <= |models|
  {
    && t in after && HoldsModels(before[t], models, first, n, after[t])
    && forall u :: u in before && u != t ==> u in after && after[u] == before[u]
  }

  /** Saving models, whatever the faults: the models that were saved are in the store as they were given, apart from a new id, and
      nothing else changes; without faults the save stops only in front of an id that is taken. */
  lemma SavesAreStored(c: Connection, types: Types, store: Store, t: string, models: seq<Record>, auto: bool) returns (next: Store)
    requires ValidTypes(types) && ValidStore(store, types) && Represents(c.Committed(), types, store) && t in types && t in store
    requires LegalRequest(SaveModels(t, models, auto), types)
    requires auto ==> MaxIdOf(c.tables, PrepareMax(types[t])).Some?
    ensures HaveIds(models)
    ensures var (b, first) := (Performed(c, types, SaveModels(t, models, auto)), FirstId(c.tables, types, t, auto));
            && b.done <= |models| && ValidStore(next, types) && Represents(b.after.Committed(), types, next)
            && AfterSaves(store, t, models, first, b.done, next)
            && (c.txn == AutoCommit && c.faults == [] && b.done < |models| ==> SavedId(models, first, b.done) in next[t])
  {
    hide AllLegal, ValidTypes, ValidStore, Represents, LegalRequest, ChangesOf, Performed, ExecutedWhile, ApplyAll, Apply, SqlsOf,
         MaxIdOf, PrepareMax, FirstId, AreInsertions, HaveIds, KeepModels, IdAt, SavedId, Clashes, HoldsInsertions, HoldsModels;
    SavesAre(c.tables, types, t, models, auto);
    var q := SaveModels(t, models, auto);
    var changes := ChangesOf(c.tables, types, q).value;
    PerformedIs(c, types, q);
    SameSqls(types, changes);
    BatchRefines(c, types, store, changes);
    var n := ExecutedWhile(c, SqlsOf(types, changes)).done;
    InsertionsApplyUpTo(store, types, t, changes, n);
    next := ApplyAll(store, types, changes[..n]).value;
    InsertionsHoldModels(store[t], models, FirstId(c.tables, types, t, auto), changes, t, n, next[t]);
    if c.txn == AutoCommit && c.faults == [] && n < |models| {
      StopsAtTaken(store, next, types, t, changes, n);
    }
  }

  lemma StopsAtTaken(store: Store, next: Store, types: Types, t: string, changes: seq<Change>, n: nat)
    requires AllLegal(changes, types) && ValidStore(next, types) && t in types && t in next && AreInsertions(changes, t)
    requires n < |changes| && Apply(next, types, changes[n]) == None
    ensures IdAt(changes, n) in next[t]
  {
    hide Legal, ValidTypes, ValidStore;
    assert changes[n] == Insertion(t, changes[n].record);
    ApplyInsertion(next, types, t, changes[n].record);
  }

  /** Saving one model: once it is done, the store has it under its own or a new id that was free, with all other members. */
  lemma SaveIsStored(c: Connection, types: Types, store: Store, t: string, model: Record, auto: bool) returns (next: Store)
    requires ValidTypes(types) && ValidStore(store, types) && Represents(c.Committed(), types, store) && t in types && t in store
    requires LegalRequest(SaveModels(t, [model], auto), types)
    requires Performed(c, types, SaveModels(t, [model], auto)).done == 1
    requires auto ==> MaxIdOf(c.tables, PrepareMax(types[t])).Some?
    ensures model != [] && model[0].IntField?
    ensures var after := Performed(c, types, SaveModels(t, [model], auto)).after;
            ValidStore(next, types) && Represents(after.Committed(), types, next)
    ensures var id := if auto then MaxIdOf(c.tables, PrepareMax(types[t])).value + 1 else model[0].v;
            && id !in store[t] && t in next && (forall k :: k in next[t] <==> k in store[t] || k == id)
            && next[t][id][0].IntField? && next[t][id][0].v == id && next[t][id][1..] == model[1..]
    ensures forall id :: id in store[t] ==> next[t][id] == store[t][id]
    ensures forall u :: u in store && u != t ==> u in next && next[u] == store[u]
  {
    hide AllLegal, ValidTypes, ValidStore, Represents, LegalRequest, ChangesOf, Performed, MaxIdOf, PrepareMax;
    next := SavesAreStored(c, types, store, t, [model], auto);
    assert [model][0] == model;
    var id := SavedId([model], FirstId(c.tables, types, t, auto), 0);
    assert id in next[t] && forall k :: k in next[t] ==> k in store[t] || k == id;
  }

  // ----- Updates -----

  /** The records after n updates: the ids that were there, each with the last model of its id, or as it was without one. */
  predicate HoldsUpdates(before: RecordMap, models: seq<Record>, n: nat, after: RecordMap)
    requires HaveIds(models) && n <= |models|
  {
    && after.Keys == before.Keys
    && (forall id :: id in before ==> (forall i :: 0 <= i < n ==> models[i][0].v != id) ==> after[id] == before[id])
    && (forall i :: 0 <= i < n && models[i][0].v in before ==>
          (forall j :: i < j < n ==> models[j][0].v != models[i][0].v) ==> after[models[i][0].v] == models[i])
  }

  predicate AreReplacements(changes: seq<Change>, t: string, models: seq<Record>) {
    |changes| == |models| && forall i :: 0 <= i < |models| ==> changes[i] == Replacement(t, models[i])
  }

  lemma OneMoreUpdate(m: RecordMap, models: seq<Record>, n: nat, after: RecordMap)
    requires HaveIds(models) && n < |models| && HoldsUpdates(m, models, n, after)
    ensures HoldsUpdates(m, models, n + 1, Updated(after, models[n]))
  {
  }

  lemma ApplyReplacement(store: Store, types: Types, t: string, record: Record)
    requires ValidTypes(types) && ValidStore(store, types) && Legal(Replacement(t, record), types) && t in store
    ensures record != [] && record[0].IntField?
    ensures Apply(store, types, Replacement(t, record)) == Some(store[t := Updated(store[t], record)])
  {
    LegalHasId(Replacement(t, record), types);
    hide Legal, ValidTypes, ValidStore;
  }

  lemma {:induction false} ReplacementsApply(store: Store, types: Types, t: string, changes: seq<Change>, models: seq<Record>,
                                             n: nat)
    requires ValidStore(store, types) && AllLegal(changes, types) && t in types && t in store
    requires HaveIds(models) && AreReplacements(changes, t, models) && n <= |models|
    ensures AllLegal(changes[..n], types)
    ensures var next := ApplyAll(store, types, changes[..n]);
            && next.Some? && t in next.value && HoldsUpdates(store[t], models, n, next.value[t])
            && forall u :: u in store && u != t ==> u in next.value && next.value[u] == store[u]
    decreases n
  {
    if n == 0 {
      hide Legal, ValidTypes, ValidStore, Apply;
    } else {
      hide Legal, ValidTypes, ValidStore, Apply, ApplyAll, HoldsUpdates;
      var (earlier, last) := (changes[..n - 1], changes[n - 1]);
      assert earlier + [last] == changes[..n];
      ReplacementsApply(store, types, t, changes, models, n - 1);
      LastChange(store, types, earlier, last);
      var middle := ApplyAll(store, types, earlier).value;
      ApplyReplacement(middle, types, t, models[n - 1]);
      OneMoreUpdate(store[t], models, n - 1, middle[t]);
    }
  }

  /** Updating models, whatever the faults: each id that was there has the last model of its id that was done, ids that were not
      there stay away, and nothing else changes; without faults every update is done. */
  lemma UpdatesAreStored(c: Connection, types: Types, store: Store, t: string, models: seq<Record>) returns (next: Store)
    requires ValidTypes(types) && ValidStore(store, types) && Represents(c.Committed(), types, store) && t in types && t in store
    requires LegalRequest(UpdateModels(t, models), types)
    ensures HaveIds(models)
    ensures var b := Performed(c, types, UpdateModels(t, models));
            && b.done <= |models| && ValidStore(next, types) && Represents(b.after.Committed(), types, next)
            && t in next && HoldsUpdates(store[t], models, b.done, next[t])
            && (forall u :: u in store && u != t ==> u in next && next[u] == store[u])
            && (c.txn == AutoCommit && c.faults == [] ==> b.done == |models|)
  {
    hide AllLegal, ValidTypes, ValidStore, Represents, LegalRequest, ChangesOf, Performed, ExecutedWhile, ApplyAll, Apply, SqlsOf,
         HaveIds, HoldsUpdates;
    var q := UpdateModels(t, models);
    UpdatesAre(c.tables, types, t, models);
    var changes := ChangesOf(c.tables, types, q).value;
    PerformedIs(c, types, q);
    SameSqls(types, changes);
    BatchRefines(c, types, store, changes);
    var n := ExecutedWhile(c, SqlsOf(types, changes)).done;
    ReplacementsApply(store, types, t, changes, models, n);
    next := ApplyAll(store, types, changes[..n]).value;
    if n < |models| { ApplyReplacement(next, types, t, models[n]); }
  }

  lemma UpdatesAre(ts: Tables, types: Types, t: string, models: seq<Record>)
    requires ValidTypes(types) && t in types && LegalRequest(UpdateModels(t, models), types)
    ensures HaveIds(models) && ChangesOf(ts, types, UpdateModels(t, models)).Some?
    ensures var changes := ChangesOf(ts, types, UpdateModels(t, models)).value;
            && AllLegal(changes, types) && AreReplacements(changes, t, models)
            && forall i :: 0 <= i < |models| ==> Legal(Replacement(t, models[i]), types)
  {
    UpdateIsReplacements(ts, types, t, models);
    ChangesAreLegal(ts, types, UpdateModels(t, models));
    TypeIsValid(types, t);
    hide ValidTypes, FitsMembers, LegalRequest, ChangesOf;
    forall i | 0 <= i < |models| ensures models[i] != [] && models[i][0].IntField? { FirstIsInt(types[t], models[i]); }
  }

  // ----- Deletions -----

  /** Deleting, whatever the faults: once it is done exactly the records that satisfy the criterion are gone, and otherwise nothing
      has changed; without faults it is done unless there is no criterion. */
  lemma DeletionIsStored(c: Connection, types: Types, store: Store, t: string, filter: Filter) returns (next: Store)
    requires ValidTypes(types) && ValidStore(store, types) && Represents(c.Committed(), types, store) && t in types && t in store
    requires LegalRequest(DeleteModels(t, filter), types)
    ensures KeyedById(store[t], types[t]) && filter.Fits(types[t].members)
    ensures var b := Performed(c, types, DeleteModels(t, filter));
            && b.done <= 1 && ValidStore(next, types) && Represents(b.after.Committed(), types, next)
            && (b.done == 0 ==> next == store)
            && (b.done == 1 ==>
                  && filter.Only? && t in next
                  && (forall id :: id in next[t] <==>
                                   id in store[t] && !Satisfies(store[t][id], filter.criterion, types[t].members))
                  && (forall id :: id in next[t] ==> next[t][id] == store[t][id])
                  && forall u :: u in store && u != t ==> u in next && next[u] == store[u])
            && (c.txn == AutoCommit && c.faults == [] ==> (b.done == 1 <==> filter.Only?))
  {
    hide AllLegal, ValidTypes, ValidStore, Represents, Legal, ChangesOf, Performed, ExecutedWhile, Apply, SqlsOf, Satisfies,
         Allowed, FitsMembers;
    var (q, change) := (DeleteModels(t, filter), Removal(t, filter));
    RemovalIs(c.tables, types, store, t, filter);
    PerformedIs(c, types, q);
    SameSqls(types, [change]);
    BatchRefines(c, types, store, [change]);
    var n := ExecutedWhile(c, SqlsOf(types, [change])).done;
    assert n == 1 ==> [change][..n] == [change];
    next := ApplyAll(store, types, [change][..n]).value;
  }

  lemma RemovalIs(ts: Tables, types: Types, store: Store, t: string, filter: Filter)
    requires ValidTypes(types) && ValidStore(store, types) && t in types && t in store
    requires LegalRequest(DeleteModels(t, filter), types)
    ensures KeyedById(store[t], types[t]) && Legal(Removal(t, filter), types) && AllLegal([Removal(t, filter)], types)
    ensures ChangesOf(ts, types, DeleteModels(t, filter)) == Some([Removal(t, filter)])
    ensures Apply(store, types, Removal(t, filter)) ==
            if filter.Everything? then None else Some(store[t := Remaining(store[t], types[t], filter.criterion)])
  {
    ChangesAreLegal(ts, types, DeleteModels(t, filter));
    LegalHasId(Removal(t, filter), types);
    hide ValidTypes, Remaining, FitsMembers, Allowed;
  }
}
