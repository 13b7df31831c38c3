/** The database wrapper, and the persistence it promises: what is saved is what is fetched. */
module RecordDatabase {
  import opened Machine
  import opened WideInput
  import opened Reflection
  import opened SqlParser
  import opened SqlEngine
  import opened Records
  import opened QueryPredicates
  import opened Queries
  import opened RecordTables
  import opened Transactions
  import opened Fetching
  import opened RecordStore
  import opened Requests
  import opened IdPredicates

  // ----- The wrapper -----

  function CreateSqls(types: Types, order: seq<string>): (sqls: seq<string>)
    requires forall i :: 0 <= i < |order| ==> order[i] in types
    ensures |sqls| == |order|
  {
    seq(|order|, i requires 0 <= i < |order| => PrepareCreate(types[order[i]]))
  }

  lemma CreateSqlAt(types: Types, order: seq<string>, i: nat)
    requires i < |order| && forall j :: 0 <= j < |order| ==> order[j] in types
    ensures CreateSqls(types, order)[i] == PrepareCreate(types[order[i]])
  {
  }

  /** The first i statements of a batch are done, and have led from one connection to another. */
  ghost predicate Progress(before: Connection, sqls: seq<string>, i: nat, now: Connection) {
    i <= |sqls|
    && ExecutedWhile(before, sqls) == Batch(ExecutedWhile(now, sqls[i..]).after, i + ExecutedWhile(now, sqls[i..]).done)
  }

  lemma ProgressStarts(c: Connection, sqls: seq<string>)
    ensures Progress(c, sqls, 0, c)
  {
    assert sqls[0..] == sqls;
  }

  lemma ProgressSteps(before: Connection, sqls: seq<string>, i: nat, now: Connection)
    requires Progress(before, sqls, i, now) && i < |sqls|
    ensures var x := Executed(now, sqls[i]);
            if x.ending == Done then Progress(before, sqls, i + 1, x.after)
            else ExecutedWhile(before, sqls) == Batch(x.after, i)
  {
    hide Executed;
    assert sqls[i..][1..] == sqls[i + 1..];
  }

  lemma ProgressEnds(before: Connection, sqls: seq<string>, now: Connection)
    requires Progress(before, sqls, |sqls|, now)
    ensures ExecutedWhile(before, sqls) == Batch(now, |sqls|)
  {
  }

  lemma OneExecuted(c: Connection, types: Types, q: Request, change: Change)
    requires ValidTypes(types) && LegalRequest(q, types) && ChangesOf(c.tables, types, q) == Some([change])
    ensures Legal(change, types) && 1 <= |types[change.typeId].members|
    ensures var x := Executed(c, SqlOf(types, change));
            Performed(c, types, q) == Batch(x.after, if x.ending == Done then 1 else 0)
  {
    hide Executed, SqlOf, ChangesOf, Legal, LegalRequest, ValidTypes;
    ChangesAreLegal(c.tables, types, q);
    assert AllLegal([change], types) && [change][0] == change;
    var sqls := SqlsOf(types, [change]);
    assert sqls == [SqlOf(types, change)] && sqls[1..] == [];
    var after := Executed(c, sqls[0]).after;
    assert ExecutedWhile(after, sqls[1..]) == Batch(after, 0);
  }

  lemma NotRegistered(c: Connection, types: Types, q: Request)
    requires ValidTypes(types) && LegalRequest(q, types) && q.typeId !in types
    ensures Performed(c, types, q) == Batch(c, 0) && ChangesOf(c.tables, types, q).None?
  {
  }

  lemma Unreadable(c: Connection, types: Types, q: Request)
    requires ValidTypes(types) && LegalRequest(q, types) && ChangesOf(c.tables, types, q).None?
    ensures Performed(c, types, q) == Batch(c, 0)
  {
    hide ChangesOf;
  }

  /** A model to be saved, under its own id or a new one, is one insertion. */
  lemma SaveIsOneInsertion(ts: Tables, types: Types, t: string, model: Record, auto: bool)
    requires ValidTypes(types) && t in types && LegalRequest(SaveModels(t, [model], auto), types)
    ensures FitsMembers(model, types[t].members) && model != []
    ensures forall id: int64 :: FitsMembers(WithId(model, id), types[t].members)
    ensures var max := MaxIdOf(ts, PrepareMax(types[t]));
            ChangesOf(ts, types, SaveModels(t, [model], auto)) ==
            if !auto then Some([Insertion(t, model)])
            else if max.None? then None
            else Some([Insertion(t, WithId(model, max.value + 1))])
  {
    hide MaxIdOf, PrepareMax, FitsMembers, WithId, IsName, Upper, DistinctMembers;
    assert [model][0] == model;
    assert ValidType(types[t]);
    forall id: int64 ensures model != [] && FitsMembers(WithId(model, id), types[t].members) {
      WithIdFits(model, types[t].members, id);
    }
    var max := MaxIdOf(ts, PrepareMax(types[t]));
    WithIdFits(model, types[t].members, 0);
    if auto && max.Some? {
      assert Numbered(types, t, [model], max.value) == [Insertion(t, WithId(model, max.value + 1))];
    } else {
      assert seq(1, i requires 0 <= i < 1 => Insertion(t, [model][i])) == [Insertion(t, model)];
    }
  }

  lemma SavedModelsFit(types: Types, t: string, models: seq<Record>, auto: bool)
    requires ValidTypes(types) && t in types && LegalRequest(SaveModels(t, models, auto), types)
    ensures |models| < 0x8000_0000
    ensures forall i :: 0 <= i < |models| ==>
              models[i] != [] && FitsMembers(models[i], types[t].members)
              && (forall id: int64 :: FitsMembers(WithId(models[i], id), types[t].members))
  {
    assert ValidType(types[t]);
    hide FitsMembers, WithId, IsName, Upper, DistinctMembers;
    forall i | 0 <= i < |models|
      ensures models[i] != [] && FitsMembers(models[i], types[t].members)
              && forall id: int64 :: FitsMembers(WithId(models[i], id), types[t].members)
    {
      WithIdFits(models[i], types[t].members, 0);
      forall id: int64 ensures FitsMembers(WithId(models[i], id), types[t].members) {
        WithIdFits(models[i], types[t].members, id);
      }
    }
  }

  /** The i-th model of a batch and the statement that saves it. */
  lemma SaveIsInsertions(ts: Tables, types: Types, t: string, models: seq<Record>, auto: bool)
    requires ValidTypes(types) && t in types && LegalRequest(SaveModels(t, models, auto), types)
    requires |models| < 0x8000_0000 && forall i :: 0 <= i < |models| ==> models[i] != []
    ensures var changes, max := ChangesOf(ts, types, SaveModels(t, models, auto)), MaxIdOf(ts, PrepareMax(types[t]));
            && (changes.None? <==> auto && max.None?)
            && (changes.Some? ==>
                  && |changes.value| == |models|
                  && forall i :: 0 <= i < |models| ==>
                       changes.value[i] == Insertion(t, if auto then WithId(models[i], max.value + i + 1) else models[i]))
  {
    hide MaxIdOf, PrepareMax, FitsMembers, WithId, ValidTypes, LegalRequest;
  }

  lemma UpdateIsReplacements(ts: Tables, types: Types, t: string, models: seq<Record>)
    requires ValidTypes(types) && t in types && LegalRequest(UpdateModels(t, models), types)
    ensures forall i :: 0 <= i < |models| ==> FitsMembers(models[i], types[t].members)
    ensures 2 <= |types[t].members|
    ensures var changes := ChangesOf(ts, types, UpdateModels(t, models));
            && changes.Some? && |changes.value| == |models|
            && forall i :: 0 <= i < |models| ==> changes.value[i] == Replacement(t, models[i])
  {
    assert ValidType(types[t]);
    hide FitsMembers, IsName, Upper, DistinctMembers;
  }

  lemma TypeIsValid(types: Types, t: string)
    requires ValidTypes(types) && t in types
    ensures ValidType(types[t]) && types[t].members != []
  {
    hide IsName, Upper, DistinctMembers;
  }

  lemma TableIs(ts: Tables, types: Types, store: Store, t: string)
    requires ValidStore(store, types) && Represents(ts, types, store) && t in types
    ensures t in store && KeyedById(store[t], types[t])
    ensures Upper(types[t].name) in ts && ts[Upper(types[t].name)] == TableOf(store[t], types[t])
  {
    hide KeyedById, TableOf, Upper;
  }

  lemma NoModels(ts: Tables, r: Reflected, p: Predicate, blank: Record)
    requires ResultsOf(ts, PrepareFetch(r, p)).None?
    ensures ModelsOf(ts, r, p, blank) == None
  {
    hide ResultsOf, PrepareFetch;
  }

  lemma PointerOfId(r: Reflected)
    requires r.members != [] && ValidOffsets(r.members)
    ensures PointerTo(r.members[0]) != [] && PointerTo(r.members[0])[|PointerTo(r.members[0])| - 1] == 0
  {
    hide PointerTo;
    PointerHolds(r.members[0]);
  }

  lemma MadeIsIdPredicate(r: Reflected, id: int64, misread: Misreading)
    requires r.members != []
    ensures PredicateFor(r.members, PointerTo(r.members[0]), IsEqual, IntField(id), misread) == IdPredicate(r, id, misread)
  {
    hide PointerTo, PredicateFor;
  }

  /** Deleting by the predicate of a filter is the request to delete what the filter admits. */
  lemma DeletionIsRequest(c: Connection, types: Types, t: string, f: Filter)
    requires ValidTypes(types) && t in types && f.Fits(types[t].members)
    ensures LegalRequest(DeleteModels(t, f), types)
    ensures var x := Executed(c, PrepareDelete(types[t], f.Predicate(types[t].members)));
            Performed(c, types, DeleteModels(t, f)) == Batch(x.after, if x.ending == Done then 1 else 0)
  {
    hide Executed, ValidTypes, PrepareDelete, Performed, Build, Allowed;
    OneExecuted(c, types, DeleteModels(t, f), Removal(t, f));
  }

  /** Fetching by the predicate of a filter returns exactly what the filter admits, in the order of the ids. */
  lemma FetchedModels(c: Connection, types: Types, store: Store, t: string, f: Filter, blank: Record)
    requires ValidTypes(types) && ValidStore(store, types) && Represents(c.tables, types, store)
    requires t in types && f.Fits(types[t].members) && IsBlank(blank, types[t].members)
    ensures KeyedById(store[t], types[t])
    ensures var models := ModelsOf(c.tables, types[t], f.Predicate(types[t].members), blank);
            var ids := Matches(store[t], types[t], f);
            && models.Some? && |models.value| == |ids|
            && forall i :: 0 <= i < |ids| ==>
                 FitsMembers(store[t][ids[i]], types[t].members) && models.value[i] == Recovered(store[t][ids[i]])
  {
    TypeIsValid(types, t);
    hide ModelsOf, Recovered, KeyedById, Matches, TableOf, FitsMembers, ValidType, Upper, Build, Allowed;
    ModelsAre(c.tables, types[t], store[t], f, blank);
  }

  lemma AllMatch(m: RecordMap, r: Reflected)
    requires KeyedById(m, r)
    ensures |Matches(m, r, Everything)| == |m|
  {
    hide FitsMembers, Ascending;
    assert (set id | id in m && Everything.Admits(m[id], r.members)) == m.Keys;
  }

  /** Fetching an id reads the record that the tables hold under it, and nothing else, if the offset of `id` survives. */
  lemma FetchedById(c: Connection, types: Types, store: Store, t: string, id: int64, misread: Misreading, blank: Record)
    requires ValidTypes(types) && ValidStore(store, types) && Represents(c.tables, types, store)
    requires t in types && IsBlank(blank, types[t].members) && ValidOffsets(types[t].members)
    ensures types[t].members != []
    ensures IdReadable(types[t]) ==>
              var models := ModelsOf(c.tables, types[t], IdPredicate(types[t], id, misread), blank);
              var model := OnlyOne(models);
              models.Some? &&
              if id in store[t]
              then FitsMembers(store[t][id], types[t].members) && model == Some(Recovered(store[t][id]))
              else model == None
  {
    TypeIsValid(types, t);
    assert KeyedById(store[t], types[t]);
    if IdReadable(types[t]) {
      ByIdAdmits(types[t], store[t], id);
      IdPredicateIs(types[t], id, misread);
      FetchedModels(c, types, store, t, ById(id), blank);
      hide ModelsOf, Recovered, KeyedById, Matches, TableOf, FitsMembers, ValidTypes, Represents, ValidType, IdPredicate, ById;
    }
  }

  class Database {
    const db: Sqlite
    const types: Types
    /** How many tables the constructor got to; an exception leaves it when these are not all. */
    var created: nat

    ghost predicate Valid() { ValidTypes(types) }

    /** Every registered type gets a table, in the order of the register. */
    constructor (db: Sqlite, types: Types, order: seq<string>)
      requires db.open && forall i :: 0 <= i < |order| ==> order[i] in types
      modifies db`tables, db`txn, db`faults
      ensures this.db == db && this.types == types
      ensures Batch(db.State(), created) == ExecutedWhile(old(db.State()), CreateSqls(types, order))
    {
      this.db, this.types, created := db, types, 0;
      new;
      hide *;
      ghost var sqls := CreateSqls(types, order);
      ProgressStarts(db.State(), sqls);
      while created < |order|
        invariant created <= |order| && this.db == db && this.types == types
        invariant Progress(old(db.State()), sqls, created, db.State())
        decreases |order| - created
      {
        ProgressSteps(old(db.State()), sqls, created, db.State());
        CreateSqlAt(types, order, created);
        var ending := Execute(db, PrepareCreate(types[order[created]]));
        if ending != Done { return; }
        created := created + 1;
      }
      ProgressEnds(old(db.State()), sqls, db.State());
    }

    /** Save of one model, with or without a new id; ok is false when an exception leaves it. */
    method Save(typeId: string, model: Record, autoIncrement: bool) returns (ok: bool)
      requires Valid() && db.open && LegalRequest(SaveModels(typeId, [model], autoIncrement), types)
      modifies db
      ensures Batch(db.State(), if ok then 1 else 0)
              == Performed(old(db.State()), types, SaveModels(typeId, [model], autoIncrement))
      ensures db.open <==> !(autoIncrement && typeId in types && MaxIdOf(old(db.tables), PrepareMax(types[typeId])).None?)
    {
      hide Executed, MaxIdOf, ValidTypes, PrepareInsert, PrepareMax, ChangesOf, Performed, FitsMembers, WithId, LegalRequest;
      if typeId !in types {
        NotRegistered(db.State(), types, SaveModels(typeId, [model], autoIncrement));
        return false;
      }
      var r := types[typeId];
      SaveIsOneInsertion(db.tables, types, typeId, model, autoIncrement);
      var saved := model;
      if autoIncrement {
        var max := GetMaxId(db, r);
        if max.None? {
          Unreadable(db.State(), types, SaveModels(typeId, [model], autoIncrement));
          return false;
        }
        saved := WithId(model, max.value + 1);
      }
      OneExecuted(db.State(), types, SaveModels(typeId, [model], autoIncrement), Insertion(typeId, saved));
      var sql := InsertSql(r, saved);
      var ending := Execute(db, sql);
      ok := ending == Done;
    }

    /** Save of many models: one after another, up to the first whose exception leaves it. */
    method SaveAll(typeId: string, models: seq<Record>, autoIncrement: bool) returns (saved: nat, ok: bool)
      requires Valid() && db.open && LegalRequest(SaveModels(typeId, models, autoIncrement), types)
      modifies db
      ensures Batch(db.State(), saved) == Performed(old(db.State()), types, SaveModels(typeId, models, autoIncrement))
      ensures ok <==> ChangesOf(old(db.tables), types, SaveModels(typeId, models, autoIncrement)).Some? && saved == |models|
      ensures db.open <==> !(autoIncrement && typeId in types && MaxIdOf(old(db.tables), PrepareMax(types[typeId])).None?)
    {
      hide Executed, ExecutedWhile, MaxIdOf, ValidTypes, PrepareInsert, PrepareMax, ChangesOf, FitsMembers, WithId, Legal,
           LegalRequest, Progress;
      ghost var q := SaveModels(typeId, models, autoIncrement);
      saved, ok := 0, false;
      if typeId !in types {
        NotRegistered(db.State(), types, q);
        return;
      }
      var r := types[typeId];
      SavedModelsFit(types, typeId, models, autoIncrement);
      SaveIsInsertions(db.tables, types, typeId, models, autoIncrement);
      ChangesAreLegal(db.tables, types, q);
      var max := Some(0);
      if autoIncrement { max := GetMaxId(db, r); }
      if max.None? {
        Unreadable(db.State(), types, q);
        return;
      }
      ghost var changes := ChangesOf(db.tables, types, q).value;
      ghost var sqls := SqlsOf(types, changes);
      ProgressStarts(db.State(), sqls);
      while saved < |models|
        invariant saved <= |models| && db.open
        invariant Progress(old(db.State()), sqls, saved, db.State())
        decreases |models| - saved
      {
        var model := models[saved];
        if autoIncrement { model := WithId(model, max.value + saved + 1); }
        assert changes[saved] == Insertion(typeId, model);
        ProgressSteps(old(db.State()), sqls, saved, db.State());
        var sql := InsertSql(r, model);
        var ending := Execute(db, sql);
        if ending != Done { return; }
        saved := saved + 1;
      }
      ProgressEnds(old(db.State()), sqls, db.State());
      ok := true;
    }

    method UpdateAll(typeId: string, models: seq<Record>) returns (updated: nat, ok: bool)
      requires Valid() && db.open && LegalRequest(UpdateModels(typeId, models), types)
      modifies db`tables, db`txn, db`faults
      ensures Batch(db.State(), updated) == Performed(old(db.State()), types, UpdateModels(typeId, models))
      ensures ok <==> typeId in types && updated == |models|
    {
      hide Executed, ExecutedWhile, ValidTypes, PrepareUpdate, ChangesOf, FitsMembers, Legal, LegalRequest, Progress;
      ghost var q := UpdateModels(typeId, models);
      updated, ok := 0, false;
      if typeId !in types {
        NotRegistered(db.State(), types, q);
        return;
      }
      var r := types[typeId];
      UpdateIsReplacements(db.tables, types, typeId, models);
      ChangesAreLegal(db.tables, types, q);
      ghost var changes := ChangesOf(db.tables, types, q).value;
      ghost var sqls := SqlsOf(types, changes);
      ProgressStarts(db.State(), sqls);
      while updated < |models|
        invariant updated <= |models|
        invariant Progress(old(db.State()), sqls, updated, db.State())
        decreases |models| - updated
      {
        assert changes[updated] == Replacement(typeId, models[updated]);
        ProgressSteps(old(db.State()), sqls, updated, db.State());
        var sql := UpdateSql(r, models[updated]);
        var ending := Execute(db, sql);
        if ending != Done { return; }
        updated := updated + 1;
      }
      ProgressEnds(old(db.State()), sqls, db.State());
      ok := true;
    }

    method Update(typeId: string, model: Record) returns (ok: bool)
      requires Valid() && db.open && LegalRequest(UpdateModels(typeId, [model]), types)
      modifies db`tables, db`txn, db`faults
      ensures Batch(db.State(), if ok then 1 else 0)
              == Performed(old(db.State()), types, UpdateModels(typeId, [model]))
    {
      hide Executed, ValidTypes, PrepareUpdate, ChangesOf, Performed, FitsMembers, LegalRequest;
      if typeId !in types {
        NotRegistered(db.State(), types, UpdateModels(typeId, [model]));
        return false;
      }
      UpdateIsReplacements(db.tables, types, typeId, [model]);
      assert [model][0] == model;
      assert ChangesOf(db.tables, types, UpdateModels(typeId, [model])).value == [Replacement(typeId, model)];
      OneExecuted(db.State(), types, UpdateModels(typeId, [model]), Replacement(typeId, model));
      var sql := UpdateSql(types[typeId], model);
      var ending := Execute(db, sql);
      ok := ending == Done;
    }

    /** Delete of the records that satisfy a predicate. */
    method Delete(typeId: string, p: Predicate) returns (ok: bool)
      requires Valid() && db.open
      modifies db`tables, db`txn, db`faults
      ensures typeId !in types ==> !ok && db.State() == old(db.State())
      ensures typeId in types ==>
                var x := Executed(old(db.State()), PrepareDelete(types[typeId], p));
                db.State() == x.after && (ok <==> x.ending == Done)
    {
      hide Executed, ValidTypes, PrepareDelete;
      if typeId !in types { return false; }
      var ending := Execute(db, PrepareDelete(types[typeId], p));
      ok := ending == Done;
    }

    /** Delete of the record with an id, by the predicate made from a pointer to the member `id`. */
    method DeleteById(typeId: string, id: int64, misread: Misreading) returns (ok: bool)
      requires Valid() && db.open && (typeId in types ==> ValidOffsets(types[typeId].members))
      modifies db`tables, db`txn, db`faults
      ensures typeId !in types ==> !ok && db.State() == old(db.State())
      ensures typeId in types ==>
                && types[typeId].members != [] && ById(id).Fits(types[typeId].members)
                && (var x := Executed(old(db.State()), PrepareDelete(types[typeId], IdPredicate(types[typeId], id, misread)));
                    db.State() == x.after && (ok <==> x.ending == Done))
                && (IdReadable(types[typeId]) ==>
                      Batch(db.State(), if ok then 1 else 0)
                      == Performed(old(db.State()), types, DeleteModels(typeId, ById(id))))
    {
      hide Executed, ValidTypes, PrepareDelete, Performed, Build, IdPredicate, PointerTo, PredicateFor, ValidType, ById, NoGap,
           ValidOffsets;
      if typeId !in types { return false; }
      var r := types[typeId];
      TypeIsValid(types, typeId);
      PointerOfId(r);
      var p := MakePredicate(r, PointerTo(r.members[0]), IsEqual, IntField(id), misread);
      IdPredicateIs(r, id, misread);
      MadeIsIdPredicate(r, id, misread);
      DeletionIsRequest(db.State(), types, typeId, ById(id));
      ok := Delete(typeId, p);
    }

    /** Delete of the record with the id of a model. */
    method DeleteModel(typeId: string, model: Record, misread: Misreading) returns (ok: bool)
      requires Valid() && db.open && (typeId in types ==> ValidOffsets(types[typeId].members) && FitsMembers(model, types[typeId].members))
      modifies db`tables, db`txn, db`faults
      ensures typeId !in types ==> !ok && db.State() == old(db.State())
      ensures typeId in types ==>
                && types[typeId].members != [] && model != [] && model[0].IntField?
                && ById(IdOf(model)).Fits(types[typeId].members)
                && (var x := Executed(old(db.State()), PrepareDelete(types[typeId], IdPredicate(types[typeId], IdOf(model), misread)));
                    db.State() == x.after && (ok <==> x.ending == Done))
                && (IdReadable(types[typeId]) ==>
                      Batch(db.State(), if ok then 1 else 0)
                      == Performed(old(db.State()), types, DeleteModels(typeId, ById(IdOf(model)))))
    {
      hide Executed, ValidTypes, PrepareDelete, Performed, IdPredicate, ValidType, ById, IdReadable, ValidOffsets, FitsMembers;
      if typeId !in types { return false; }
      TypeIsValid(types, typeId);
      FirstIsInt(types[typeId], model);
      ok := DeleteById(typeId, IdOf(model), misread);
    }

    /** Fetch of the records that satisfy a predicate, from tables that hold the records of a store. */
    method Fetch(typeId: string, p: Predicate, blank: Record, ghost store: Store) returns (models: Option<seq<Record>>)
      requires Valid() && db.open && ValidStore(store, types) && Represents(db.tables, types, store)
      requires typeId in types ==> IsBlank(blank, types[typeId].members)
      modifies db`open
      ensures db.open <==> typeId !in types || models.Some?
      ensures models == if typeId in types then ModelsOf(db.tables, types[typeId], p, blank) else None
    {
      if typeId !in types { return None; }
      var r := types[typeId];
      hide ValidTypes, PrepareFetch, ResultsOf, KeyedById, Hydrated, ValidType, TableOf, Upper, Represents, ValidStore, ModelsOf;
      TypeIsValid(types, typeId);
      TableIs(db.tables, types, store, typeId);
      ResultsFit(db.tables, r, store[typeId], p);
      var results := GetResults(db, r, p);
      if results.None? {
        NoModels(db.tables, r, p, blank);
        return None;
      }
      var hydrated := HydrateAll(results.value, r, blank);
      ModelsOfResults(db.tables, r, p, blank, hydrated);
      return Some(hydrated);
    }

    method FetchAll(typeId: string, blank: Record, ghost store: Store) returns (models: Option<seq<Record>>)
      requires Valid() && db.open && ValidStore(store, types) && Represents(db.tables, types, store)
      requires typeId in types ==> IsBlank(blank, types[typeId].members)
      modifies db`open
      ensures db.open
      ensures typeId !in types ==> models == None
      ensures typeId in types ==>
                KeyedById(store[typeId], types[typeId])
                && var ids := Matches(store[typeId], types[typeId], Everything);
                   && models.Some? && |models.value| == |ids| == |store[typeId]|
                   && forall i :: 0 <= i < |ids| ==>
                        FitsMembers(store[typeId][ids[i]], types[typeId].members)
                        && models.value[i] == Recovered(store[typeId][ids[i]])
    {
      hide ValidTypes, ModelsOf, Represents, KeyedById, Recovered, FitsMembers;
      models := Fetch(typeId, EmptyPredicate, blank, store);
      if typeId in types {
        FetchedModels(db.State(), types, store, typeId, Everything, blank);
        AllMatch(store[typeId], types[typeId]);
      }
    }

    /** Fetch of the record with an id, by the predicate made from a pointer to the member `id`: an exception unless there is
        exactly one. */
    method FetchOne(typeId: string, id: int64, misread: Misreading, blank: Record, ghost store: Store)
      returns (model: Option<Record>)
      requires Valid() && db.open && ValidStore(store, types) && Represents(db.tables, types, store)
      requires typeId in types ==> IsBlank(blank, types[typeId].members) && ValidOffsets(types[typeId].members)
      modifies db`open
      ensures typeId !in types || IdReadable(types[typeId]) ==> db.open
      ensures typeId !in types ==> model == None
      ensures typeId in types ==>
                && types[typeId].members != []
                && model == OnlyOne(ModelsOf(db.tables, types[typeId], IdPredicate(types[typeId], id, misread), blank))
                && (IdReadable(types[typeId]) ==>
                      if id in store[typeId]
                      then FitsMembers(store[typeId][id], types[typeId].members) && model == Some(Recovered(store[typeId][id]))
                      else model == None)
    {
      hide ValidTypes, ModelsOf, Represents, FitsMembers, Recovered, PointerTo, PredicateFor, ValidType, IdPredicate, IdReadable,
           ValidOffsets, IsBlank, ValidStore;
      if typeId !in types { return None; }
      var r := types[typeId];
      TypeIsValid(types, typeId);
      PointerOfId(r);
      var p := MakePredicate(r, PointerTo(r.members[0]), IsEqual, IntField(id), misread);
      MadeIsIdPredicate(r, id, misread);
      var models := Fetch(typeId, p, blank, store);
      if IdReadable(r) { FetchedById(db.State(), types, store, typeId, id, misread, blank); }
      return if models.Some? && |models.value| == 1 then Some(models.value[0]) else None;
    }
  }
}
