/** The simplest model of the database: a map of records for each type, with no text, no tables and no transactions; and the
    proof that without faults the database is that model. */
module ReferenceModel {
  import opened Machine
  import opened WideInput
  import opened Reflection
  import opened SqlParser
  import opened SqlEngine
  import opened QueryPredicates
  import opened Queries
  import opened RecordTables
  import opened Fetching
  import opened RecordStore
  import opened Requests

  /** The greatest id, read as 32 bits; 0 without records. */
  function GreatestId(m: RecordMap): (id: int)
    ensures FitsInt32(id)
  {
    var ids := Ascending(m.Keys);
    if ids == [] then 0 else ToInt32(ids[|ids| - 1]) as int
  }

  /** What a request means to do. */
  function Planned(store: Store, types: Types, q: Request): Option<seq<Change>>
    requires ValidTypes(types) && ValidStore(store, types) && LegalRequest(q, types)
  {
    if q.typeId !in types then None else
    match q
    case UpdateModels(t, models) => Some(seq(|models|, i requires 0 <= i < |models| => Replacement(t, models[i])))
    case DeleteModels(t, filter) => Some([Removal(t, filter)])
    case SaveModels(t, models, auto) =>
      Some(if auto then Numbered(types, t, models, GreatestId(store[t]))
           else seq(|models|, i requires 0 <= i < |models| => Insertion(t, models[i])))
  }

  /** Changes in order, up to the first that fails. */
  function AppliedWhile(store: Store, types: Types, changes: seq<Change>): (next: Store)
    requires AllLegal(changes, types) && ValidStore(store, types)
    ensures ValidStore(next, types)
    decreases |changes|
  {
    hide Apply, Legal, ValidTypes, ValidStore;
    if changes == [] then store else
    ApplyIsValid(store, types, changes[0]);
    match Apply(store, types, changes[0])
    case None => store
    case Some(next) => AppliedWhile(next, types, changes[1..])
  }

  function Served(store: Store, types: Types, q: Request): (next: Store)
    requires ValidTypes(types) && ValidStore(store, types) && LegalRequest(q, types)
    ensures ValidStore(next, types)
  {
    PlannedIsLegal(store, types, q);
    match Planned(store, types, q)
    case None => store
    case Some(changes) => AppliedWhile(store, types, changes)
  }

  function ServedAll(store: Store, types: Types, requests: seq<Request>): (next: Store)
    requires ValidTypes(types) && ValidStore(store, types)
    requires forall k :: 0 <= k < |requests| ==> LegalRequest(requests[k], types)
    ensures ValidStore(next, types)
    decreases |requests|
  {
    hide LegalRequest, ValidTypes, ValidStore;
    if requests == [] then store else ServedAll(Served(store, types, requests[0]), types, requests[1..])
  }

  lemma PlannedIsLegal(store: Store, types: Types, q: Request)
    requires ValidTypes(types) && ValidStore(store, types) && LegalRequest(q, types)
    ensures Planned(store, types, q).Some? ==> AllLegal(Planned(store, types, q).value, types)
  {
    hide FitsMembers, GreatestId, IsName, Upper, DistinctMembers, KeyedById;
    if q.SaveModels? && q.typeId in types {
      forall i, id: int64 | 0 <= i < |q.models|
        ensures q.models[i] != [] && FitsMembers(WithId(q.models[i], id), types[q.typeId].members)
      {
        WithIdFits(q.models[i], types[q.typeId].members, id);
      }
    }
  }

  /** The query for the greatest id finds the model's. */
  lemma MaxIsGreatest(ts: Tables, r: Reflected, m: RecordMap)
    requires ValidType(r) && KeyedById(m, r)
    requires Upper(r.name) in ts && ts[Upper(r.name)] == TableOf(m, r)
    ensures MaxIdOf(ts, PrepareMax(r)) == Some(GreatestId(m))
  {
    hide *;
    MaxIdIs(ts, r, m);
    if m == map[] {
      GreatestOfNone(m);
    } else {
      var top :| IsMax(m, top) && MaxIdOf(ts, PrepareMax(r)).value == ToInt32(top) as int;
      GreatestIs(m, top);
    }
  }

  lemma GreatestOfNone(m: RecordMap)
    requires m == map[]
    ensures GreatestId(m) == 0
  {
    assert m.Keys == {};
  }

  lemma GreatestIs(m: RecordMap, top: int)
    requires IsMax(m, top)
    ensures GreatestId(m) == ToInt32(top) as int
  {
    hide Ascending, ToInt32;
    var ids := Ascending(m.Keys);
    assert top in m.Keys && top in ids;
    assert ids[|ids| - 1] in ids;
  }

  /** The statements of a request are those of the model. */
  lemma ChangesArePlanned(ts: Tables, types: Types, store: Store, q: Request)
    requires ValidTypes(types) && ValidStore(store, types) && Represents(ts, types, store) && LegalRequest(q, types)
    ensures ChangesOf(ts, types, q) == Planned(store, types, q)
  {
    if q.SaveModels? && q.autoIncrement && q.typeId in types {
      assert ValidType(types[q.typeId]) && KeyedById(store[q.typeId], types[q.typeId]);
      MaxIsGreatest(ts, types[q.typeId], store[q.typeId]);
    }
    hide ValidTypes, ValidStore, Represents, LegalRequest, GreatestId, MaxIdOf, PrepareMax, Numbered;
  }

  /** The changes before the first that fails determine the model's next state. */
  lemma {:induction false} PrefixDetermines(store: Store, types: Types, changes: seq<Change>, k: nat)
    requires AllLegal(changes, types) && ValidStore(store, types) && k <= |changes|
    requires AllLegal(changes[..k], types)
    requires var next := ApplyAll(store, types, changes[..k]);
             next.Some? && (k < |changes| ==> Apply(next.value, types, changes[k]) == None)
    ensures Some(AppliedWhile(store, types, changes)) == ApplyAll(store, types, changes[..k])
    decreases changes
  {
    hide Apply, Legal, ValidTypes, ValidStore;
    if k > 0 {
      var next := Apply(store, types, changes[0]);
      ApplyIsValid(store, types, changes[0]);
      assert changes[..k][0] == changes[0] && changes[..k][1..] == changes[1..][..k - 1];
      PrefixDetermines(next.value, types, changes[1..], k - 1);
    }
  }

  lemma RequestIsServed(c: Connection, types: Types, store: Store, q: Request)
    requires ValidTypes(types) && ValidStore(store, types) && Represents(c.tables, types, store) && LegalRequest(q, types)
    requires c.txn == AutoCommit && c.faults == []
    ensures var after := Performed(c, types, q).after;
            after.txn == AutoCommit && after.faults == [] && Represents(after.tables, types, Served(store, types, q))
  {
    hide *;
    ChangesArePlanned(c.tables, types, store, q);
    PlannedIsLegal(store, types, q);
    ChangesAreLegal(c.tables, types, q);
    ServedIs(store, types, q);
    PerformedIs(c, types, q);
    CommittedIs(c);
    var plan := Planned(store, types, q);
    if plan.Some? {
      SameSqls(types, plan.value);
      BatchRefines(c, types, store, plan.value);
      PrefixDetermines(store, types, plan.value, ExecutedWhile(c, SqlsOf(types, plan.value)).done);
      CommittedIs(Performed(c, types, q).after);
    }
  }

  lemma CommittedIs(c: Connection)
    requires c.txn == AutoCommit
    ensures c.Committed() == c.tables
  {
  }

  lemma ServedIs(store: Store, types: Types, q: Request)
    requires ValidTypes(types) && ValidStore(store, types) && LegalRequest(q, types)
    ensures var plan := Planned(store, types, q);
            && (plan.None? ==> Served(store, types, q) == store)
            && (plan.Some? ==> AllLegal(plan.value, types) && Served(store, types, q) == AppliedWhile(store, types, plan.value))
  {
    PlannedIsLegal(store, types, q);
    hide ValidTypes, ValidStore, LegalRequest, Planned, AppliedWhile, AllLegal;
  }

  lemma PerformedIs(c: Connection, types: Types, q: Request)
    requires ValidTypes(types) && LegalRequest(q, types)
    ensures var changes := ChangesOf(c.tables, types, q);
            && (changes.None? ==> Performed(c, types, q) == Batch(c, 0))
            && (changes.Some? ==> AllLegal(changes.value, types)
                                  && Performed(c, types, q) == ExecutedWhile(c, SqlsOf(types, changes.value)))
  {
    ChangesAreLegal(c.tables, types, q);
    hide ValidTypes, LegalRequest, ChangesOf, ExecutedWhile, SqlsOf;
  }

  lemma SameSqls(types: Types, changes: seq<Change>)
    requires AllLegal(changes, types)
    ensures forall k :: 0 <= k < |changes| ==> Legal(changes[k], types) && 1 <= |types[changes[k].typeId].members|
  {
    hide Legal, ValidTypes;
  }

  /** Without faults, any run of requests leaves tables that hold exactly what the model holds after the same requests: no
      request is lost, stopped early or done twice. */
  lemma {:induction false} FaultlessRunIsModel(c: Connection, types: Types, store: Store, requests: seq<Request>)
    requires ValidTypes(types) && forall k :: 0 <= k < |requests| ==> LegalRequest(requests[k], types)
    requires ValidStore(store, types) && Represents(c.tables, types, store)
    requires c.txn == AutoCommit && c.faults == []
    ensures var after := RunOf(c, types, requests).after;
            after.txn == AutoCommit && Represents(after.tables, types, ServedAll(store, types, requests))
    decreases requests
  {
    hide Served, Performed, DoneOf, LegalRequest, ValidTypes, ValidStore, Represents;
    if requests != [] {
      RequestIsServed(c, types, store, requests[0]);
      FaultlessRunIsModel(Performed(c, types, requests[0]).after, types, Served(store, types, requests[0]), requests[1..]);
    }
  }
}
