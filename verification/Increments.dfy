/** Batches of saves: which records they leave, where they stop, and the ids that auto-increment gives. */
module Increments {
  import opened Machine
  import opened WideInput
  import opened SqlEngine
  import opened Records
  import opened QueryPredicates
  import opened Queries
  import opened RecordTables
  import opened Fetching
  import opened RecordStore
  import opened Requests
  import opened RecordDatabase

  // ----- Insertions -----

  predicate AreInsertions(changes: seq<Change>, t: string) {
    forall i :: 0 <= i < |changes| ==>
      changes[i].Insertion? && changes[i].typeId == t && changes[i].record != [] && changes[i].record[0].IntField?
  }

  function IdAt(changes: seq<Change>, i: nat): int64
    requires i < |changes| && changes[i].Insertion? && changes[i].record != [] && changes[i].record[0].IntField?
  {
    IdOf(changes[i].record)
  }

  /** The i-th insertion finds its id taken: by a record that is there, or by an earlier one of the batch. */
  predicate Clashes(m: RecordMap, changes: seq<Change>, t: string, i: nat)
    requires AreInsertions(changes, t) && i < |changes|
  {
    IdAt(changes, i) in m || exists j :: 0 <= j < i && IdAt(changes, j) == IdAt(changes, i)
  }

  /** The records after the first n insertions: those that were there, and each new one under its id. */
  predicate HoldsInsertions(before: RecordMap, changes: seq<Change>, t: string, n: nat, after: RecordMap)
    requires AreInsertions(changes, t) && n <= |changes|
  {
    && (forall id :: id in after ==> id in before || exists i :: 0 <= i < n && IdAt(changes, i) == id)
    && (forall id :: id in before ==> id in after && after[id] == before[id])
    && (forall i :: 0 <= i < n ==> IdAt(changes, i) in after && after[IdAt(changes, i)] == changes[i].record)
  }

  lemma LastChange(store: Store, types: Types, changes: seq<Change>, last: Change)
    requires AllLegal(changes, types) && Legal(last, types) && ValidStore(store, types)
    ensures AllLegal(changes + [last], types)
    ensures var earlier := ApplyAll(store, types, changes);
            ApplyAll(store, types, changes + [last]) ==
            if earlier.None? then None else Apply(earlier.value, types, last)
  {
    LegalHasId(last, types);
    hide Legal, ValidTypes, ValidStore, Apply;
    assert forall k :: 0 <= k < |[last]| ==> Legal([last][k], types);
    ApplyAllOfConcat(store, types, changes, [last]);
    OneChange(ApplyAll(store, types, changes), types, last);
  }

  lemma OneChange(store: Option<Store>, types: Types, last: Change)
    requires ValidTypes(types) && Legal(last, types) && (store.Some? ==> ValidStore(store.value, types))
    ensures forall k :: 0 <= k < |[last]| ==> Legal([last][k], types)
    ensures store.Some? ==> ApplyAll(store.value, types, [last]) == Apply(store.value, types, last)
  {
    hide Legal, ValidTypes, ValidStore, Apply;
    assert [last][0] == last && [last][1..] == [];
    if store.Some? {
      var next := Apply(store.value, types, last);
      ApplyIsValid(store.value, types, last);
      assert next.Some? ==> ApplyAll(next.value, types, []) == next;
    }
  }

  /** After the insertions before it, an id is taken exactly if the insertion clashes. */
  lemma TakenIffClashes(m: RecordMap, changes: seq<Change>, t: string, n: nat, after: RecordMap)
    requires AreInsertions(changes, t) && n < |changes| && HoldsInsertions(m, changes, t, n, after)
    ensures IdAt(changes, n) in after <==> Clashes(m, changes, t, n)
  {
    hide IdAt;
  }

  lemma OneMoreHeld(m: RecordMap, changes: seq<Change>, t: string, n: nat, after: RecordMap)
    requires AreInsertions(changes, t) && n < |changes| && HoldsInsertions(m, changes, t, n, after)
    requires IdAt(changes, n) !in after
    ensures HoldsInsertions(m, changes, t, n + 1, after[IdAt(changes, n) := changes[n].record])
  {
    hide IdAt;
  }

  lemma ApplyInsertion(store: Store, types: Types, t: string, record: Record)
    requires ValidTypes(types) && ValidStore(store, types) && Legal(Insertion(t, record), types) && t in store
    ensures record != [] && record[0].IntField?
    ensures Apply(store, types, Insertion(t, record)) ==
            if IdOf(record) in store[t] then None else Some(store[t := Inserted(store[t], record)])
  {
    LegalHasId(Insertion(t, record), types);
    hide Legal, ValidTypes, ValidStore;
  }

  lemma {:induction false} InsertionsApplyUpTo(store: Store, types: Types, t: string, changes: seq<Change>, n: nat)
    requires ValidStore(store, types) && AllLegal(changes, types) && t in types && t in store && AreInsertions(changes, t)
    requires n <= |changes|
    ensures AllLegal(changes[..n], types)
    ensures var next := ApplyAll(store, types, changes[..n]);
            && (next.Some? <==> forall i :: 0 <= i < n ==> !Clashes(store[t], changes, t, i))
            && (next.Some? ==>
                  && next.value.Keys == store.Keys && HoldsInsertions(store[t], changes, t, n, next.value[t])
                  && forall u :: u in store && u != t ==> next.value[u] == store[u])
    decreases n
  {
    if n == 0 {
      hide Legal, ValidTypes, ValidStore, Apply, Clashes;
    } else {
      hide Legal, ValidTypes, ValidStore, HoldsInsertions, Clashes, Apply, ApplyAll;
      var (earlier, last) := (changes[..n - 1], changes[n - 1]);
      assert earlier + [last] == changes[..n];
      InsertionsApplyUpTo(store, types, t, changes, n - 1);
      LastChange(store, types, earlier, last);
      var middle := ApplyAll(store, types, earlier);
      if middle.Some? {
        TakenIffClashes(store[t], changes, t, n - 1, middle.value[t]);
        assert last == Insertion(t, last.record);
        ApplyInsertion(middle.value, types, t, last.record);
        if IdAt(changes, n - 1) !in middle.value[t] { OneMoreHeld(store[t], changes, t, n - 1, middle.value[t]); }
      }
    }
  }

  /** Insertions without a clash all succeed; they add their records and leave every other record and type as it was. */
  lemma InsertionsApply(store: Store, types: Types, t: string, changes: seq<Change>)
    requires ValidStore(store, types) && AllLegal(changes, types) && t in types && t in store && AreInsertions(changes, t)
    ensures var next := ApplyAll(store, types, changes);
            && (next.Some? <==> forall i :: 0 <= i < |changes| ==> !Clashes(store[t], changes, t, i))
            && (next.Some? ==>
                  && next.value.Keys == store.Keys && HoldsInsertions(store[t], changes, t, |changes|, next.value[t])
                  && forall u :: u in store && u != t ==> next.value[u] == store[u])
  {
    InsertionsApplyUpTo(store, types, t, changes, |changes|);
    hide *;
    assert changes[..|changes|] == changes;
  }

  // ----- Where a batch stops -----

  /** Without faults a batch of saves stops exactly at its first clash: the records before it are kept, and nothing else
      changes. */
  lemma BatchStopsAtFirstClash(c: Connection, types: Types, store: Store, t: string, changes: seq<Change>)
    requires AllLegal(changes, types) && ValidStore(store, types) && Represents(c.tables, types, store)
    requires c.txn == AutoCommit && c.faults == [] && t in types && t in store && AreInsertions(changes, t)
    ensures var b := ExecutedWhile(c, SqlsOf(types, changes));
            && b.done <= |changes| && b.after.txn == AutoCommit
            && (forall i :: 0 <= i < b.done ==> !Clashes(store[t], changes, t, i))
            && (b.done < |changes| ==> Clashes(store[t], changes, t, b.done))
            && AllLegal(changes[..b.done], types)
            && var next := ApplyAll(store, types, changes[..b.done]);
               && next.Some? && Represents(b.after.tables, types, next.value) && t in next.value
               && HoldsInsertions(store[t], changes, t, b.done, next.value[t])
               && forall u :: u in store && u != t ==> u in next.value && next.value[u] == store[u]
  {
    BatchRefines(c, types, store, changes);
    var k := ExecutedWhile(c, SqlsOf(types, changes)).done;
    InsertionsApplyUpTo(store, types, t, changes, k);
    hide Legal, ValidTypes, ValidStore, HoldsInsertions, Clashes, Apply, ApplyAll, ExecutedWhile, Represents, SqlsOf;
    if k < |changes| {
      var middle := ApplyAll(store, types, changes[..k]).value;
      assert changes[k] == Insertion(t, changes[k].record);
      ApplyInsertion(middle, types, t, changes[k].record);
      TakenIffClashes(store[t], changes, t, k, middle[t]);
    }
  }

  // ----- Auto-increment -----

  /** The insertions of an auto-incrementing batch. */
  function AutoInsertions(ts: Tables, types: Types, t: string, models: seq<Record>): (changes: seq<Change>)
    requires ValidTypes(types) && t in types && LegalRequest(SaveModels(t, models, true), types)
    requires MaxIdOf(ts, PrepareMax(types[t])).Some?
  {
    hide ValidTypes, MaxIdOf, PrepareMax;
    ChangesOf(ts, types, SaveModels(t, models, true)).value
  }

  /** Whatever ids they are given, the models keep their other members. */
  predicate KeepModels(changes: seq<Change>, models: seq<Record>) {
    && |changes| == |models|
    && forall i :: 0 <= i < |models| ==>
         !changes[i].Removal? && models[i] != [] && changes[i].record != [] && changes[i].record[1..] == models[i][1..]
  }

  /** The id the i-th model is saved under: its own, or the i-th from the first new one. */
  function SavedId(models: seq<Record>, first: Option<int>, i: nat): int
    requires i < |models| && models[i] != [] && models[i][0].IntField?
  {
    if first.Some? then first.value + i else models[i][0].v
  }

  predicate HaveIds(models: seq<Record>) { forall i :: 0 <= i < |models| ==> models[i] != [] && models[i][0].IntField? }

  /** A record with an id, and all other members of a model. */
  predicate IsModelWithId(record: Record, id: int, model: Record) {
    record != [] && model != [] && record[0].IntField? && record[0].v == id && record[1..] == model[1..]
  }

  /** The records after n models are saved: those that were there, and each model under an id that was free. */
  predicate HoldsModels(before: RecordMap, models: seq<Record>, first: Option<int>, n: nat, after: RecordMap)
    requires HaveIds(models) && n <= |models|
  {
    && (forall id :: id in after ==> id in before || exists i :: 0 <= i < n && SavedId(models, first, i) == id)
    && (forall id :: id in before ==> id in after && after[id] == before[id])
    && (forall i, j :: 0 <= i < j < n ==> SavedId(models, first, i) != SavedId(models, first, j))
    && (forall i :: 0 <= i < n ==>
          var id := SavedId(models, first, i);
          id !in before && id in after && IsModelWithId(after[id], id, models[i]))
  }

  /** Insertions that keep the models leave them in the store. */
  lemma InsertionsHoldModels(m: RecordMap, models: seq<Record>, first: Option<int>, changes: seq<Change>, t: string, n: nat,
                             after: RecordMap)
    requires AreInsertions(changes, t) && HaveIds(models) && KeepModels(changes, models) && n <= |changes|
    requires forall i :: 0 <= i < n ==> IdAt(changes, i) == SavedId(models, first, i) && !Clashes(m, changes, t, i)
    requires HoldsInsertions(m, changes, t, n, after)
    ensures HoldsModels(m, models, first, n, after)
  {
    hide SavedId;
    assert forall i :: 0 <= i < n ==> IdOf(changes[i].record) == IdAt(changes, i);
  }

  lemma AutoInsertionsAre(ts: Tables, types: Types, t: string, models: seq<Record>)
    requires ValidTypes(types) && t in types && LegalRequest(SaveModels(t, models, true), types)
    requires MaxIdOf(ts, PrepareMax(types[t])).Some?
    ensures var changes := AutoInsertions(ts, types, t, models);
            && AllLegal(changes, types) && AreInsertions(changes, t) && |changes| == |models|
            && (forall i :: 0 <= i < |models| ==> IdAt(changes, i) == MaxIdOf(ts, PrepareMax(types[t])).value + 1 + i)
            && HaveIds(models) && KeepModels(changes, models)
  {
    SavedModelsFit(types, t, models, true);
    SaveIsInsertions(ts, types, t, models, true);
    ChangesAreLegal(ts, types, SaveModels(t, models, true));
    hide ValidTypes, MaxIdOf, PrepareMax, LegalRequest, ChangesOf, FitsMembers, AllLegal;
  }

  predicate Below31Bits(m: RecordMap) { forall id :: id in m ==> id < 0x8000_0000 }

  /** The ids that auto-increment gives are consecutive, from 1 when there are no records; the first, and so every one, is
      greater than all ids that are there if and only if those are below 2^31, and then no insertion of the batch fails. */
  lemma AutoIncrementIsFresh(ts: Tables, types: Types, store: Store, t: string, models: seq<Record>)
    requires ValidTypes(types) && ValidStore(store, types) && Represents(ts, types, store) && t in types && t in store
    requires LegalRequest(SaveModels(t, models, true), types) && models != []
    ensures MaxIdOf(ts, PrepareMax(types[t])).Some?
    ensures var changes := AutoInsertions(ts, types, t, models);
            && AllLegal(changes, types) && AreInsertions(changes, t) && |changes| == |models|
            && (forall i :: 0 <= i < |models| ==> IdAt(changes, i) == IdAt(changes, 0) + i)
            && HaveIds(models) && KeepModels(changes, models)
            && (store[t] == map[] ==> IdAt(changes, 0) == 1)
            && ((forall id :: id in store[t] ==> id < IdAt(changes, 0)) <==> Below31Bits(store[t]))
            && (Below31Bits(store[t]) ==>
                  var next := ApplyAll(store, types, changes);
                  && next.Some? && t in next.value
                  && HoldsModels(store[t], models, Some(IdAt(changes, 0)), |models|, next.value[t]))
  {
    assert ValidType(types[t]) && KeyedById(store[t], types[t]);
    MaxIdIs(ts, types[t], store[t]);
    NextIdIsFreshIff(ts, types[t], store[t]);
    AutoInsertionsAre(ts, types, t, models);
    var changes := AutoInsertions(ts, types, t, models);
    InsertionsApply(store, types, t, changes);
    hide ValidTypes, ValidStore, Represents, MaxIdOf, PrepareMax, AutoInsertions, LegalRequest, AllLegal, ApplyAll, IdAt,
         AreInsertions;
    if Below31Bits(store[t]) {
      forall i | 0 <= i < |changes| ensures !Clashes(store[t], changes, t, i) { }
      var next := ApplyAll(store, types, changes).value;
      InsertionsHoldModels(store[t], models, Some(IdAt(changes, 0)), changes, t, |models|, next[t]);
    }
  }

  /** The id that auto-increment gives one model. */
  function AutoId(ts: Tables, types: Types, t: string): int
    requires t in types && MaxIdOf(ts, PrepareMax(types[t])).Some?
  {
    MaxIdOf(ts, PrepareMax(types[t])).value + 1
  }

  /** With an id of 2^31 or more the ids start over: once one model is saved, the next is given the same id and fails. */
  lemma AutoIncrementRepeats(before: Tables, after: Tables, types: Types, store: Store, t: string, saved: Record, top: int)
    requires ValidTypes(types) && ValidStore(store, types) && Represents(before, types, store) && t in types && t in store
    requires IsMax(store[t], top) && 0x8000_0000 <= top
    requires MaxIdOf(before, PrepareMax(types[t])).Some?
    requires FitsMembers(saved, types[t].members) && saved != [] && saved[0] == IntField(AutoId(before, types, t))
    requires ValidStore(store[t := Inserted(store[t], saved)], types)
    requires Represents(after, types, store[t := Inserted(store[t], saved)])
    ensures MaxIdOf(after, PrepareMax(types[t])).Some?
    ensures AutoId(after, types, t) == AutoId(before, types, t) && AutoId(after, types, t) in store[t := Inserted(store[t], saved)][t]
  {
    assert ValidType(types[t]) && KeyedById(store[t], types[t]);
    var next := store[t := Inserted(store[t], saved)];
    MaxIdIs(before, types[t], store[t]);
    MaxIdIs(after, types[t], next[t]);
    hide ValidTypes, ValidStore, Represents, MaxIdOf, PrepareMax, ValidType, KeyedById, FitsMembers;
    assert forall id :: id in next[t] ==> id in store[t] || id == saved[0].v;
    assert IsMax(next[t], top);
    SameMax(store[t], top);
    SameMax(next[t], top);
  }

  lemma SameMax(m: RecordMap, top: int)
    requires IsMax(m, top)
    ensures forall id :: IsMax(m, id) ==> id == top
  {
  }
}
