/** Requests to the database as batches of statements: what one batch and any run of them leave in the tables. */
module Requests {
  import opened Machine
  import opened WideInput
  import opened Reflection
  import opened SqlParser
  import opened SqlEngine
  import opened Records
  import opened QueryPredicates
  import opened Queries
  import opened RecordTables
  import opened Transactions
  import opened Fetching
  import opened RecordStore

  // ----- Batches -----

  /** How far a batch got: the number of statements done, and the connection after them and a possible failed one. */
  datatype Batch = Batch(after: Connection, done: nat)

  /** Executions in order, up to the first that fails. */
  function ExecutedWhile(c: Connection, sqls: seq<string>): (b: Batch)
    ensures b.done <= |sqls|
    decreases |sqls|
  {
    hide Executed;
    if sqls == [] then Batch(c, 0) else
    var x := Executed(c, sqls[0]);
    if x.ending != Done then Batch(x.after, 0) else
    var rest := ExecutedWhile(x.after, sqls[1..]);
    Batch(rest.after, rest.done + 1)
  }

  ghost predicate AllLegal(changes: seq<Change>, types: Types) {
    && ValidTypes(types)
    && forall k :: 0 <= k < |changes| ==> Legal(changes[k], types) && 1 <= |types[changes[k].typeId].members|
  }

  function SqlsOf(types: Types, changes: seq<Change>): (sqls: seq<string>)
    requires forall k :: 0 <= k < |changes| ==> Legal(changes[k], types) && 1 <= |types[changes[k].typeId].members|
    ensures |sqls| == |changes|
  {
    seq(|changes|, k requires 0 <= k < |changes| => SqlOf(types, changes[k]))
  }

  lemma StepRefines(c: Connection, types: Types, store: Store, change: Change)
    requires ValidTypes(types) && ValidStore(store, types) && Legal(change, types)
    requires Represents(c.Committed(), types, store)
    ensures 1 <= |types[change.typeId].members|
    ensures var x, next := Executed(c, SqlOf(types, change)), Apply(store, types, change);
            && (x.ending == Done ==>
                  c.txn == AutoCommit && x.after.txn == AutoCommit
                  && next.Some? && ValidStore(next.value, types) && Represents(x.after.tables, types, next.value))
            && (x.ending != Done ==> Represents(x.after.Committed(), types, store))
            && (c.txn == AutoCommit && c.faults == [] ==>
                  (x.ending == Done <==> next.Some?) && x.after.txn == AutoCommit && x.after.faults == [])
  {
    hide Executed, Effect, Apply, Legal, SqlOf, IsData, ValidTypes, ValidStore, Represents;
    ChangeRefines(c.Committed(), types, store, change);
    ExecutedIsAtomic(c, SqlOf(types, change));
    FaultsShrink(c, SqlOf(types, change));
    if c.txn == AutoCommit {
      ExecutedByFaults(c, SqlOf(types, change));
    }
    var left := Executed(c, SqlOf(types, change)).after.faults;
    assert left != [] ==> left[0] in left;
  }

  /** A batch of changes leaves exactly those before its first failure committed, whatever the faults and whatever state it
      starts in; without faults, that failure is the first change that cannot be applied. */
  lemma {:induction false} BatchRefines(c: Connection, types: Types, store: Store, changes: seq<Change>)
    requires AllLegal(changes, types) && ValidStore(store, types) && Represents(c.Committed(), types, store)
    ensures var b := ExecutedWhile(c, SqlsOf(types, changes));
            && b.done <= |changes| && AllLegal(changes[..b.done], types)
            && var next := ApplyAll(store, types, changes[..b.done]);
               && next.Some? && Represents(b.after.Committed(), types, next.value)
               && (c.txn == AutoCommit && b.done == |changes| ==> b.after.txn == AutoCommit)
               && (c.txn == AutoCommit && c.faults == [] ==>
                     b.after.txn == AutoCommit && b.after.faults == []
                     && (b.done < |changes| ==> Apply(next.value, types, changes[b.done]) == None))
    decreases changes
  {
    hide Executed, Apply, Legal, SqlOf, ValidTypes, Represents, ValidStore;
    if changes != [] {
      var (sqls, head, tail) := (SqlsOf(types, changes), changes[0], changes[1..]);
      StepRefines(c, types, store, head);
      assert sqls[0] == SqlOf(types, head) && sqls[1..] == SqlsOf(types, tail);
      var x := Executed(c, sqls[0]);
      if x.ending == Done {
        var next := Apply(store, types, head).value;
        BatchRefines(x.after, types, next, tail);
        var k := ExecutedWhile(x.after, sqls[1..]).done;
        assert changes[..k + 1][0] == head && changes[..k + 1][1..] == tail[..k];
      }
    }
  }

  // ----- Requests -----

  datatype Request =
    | SaveModels(typeId: string, models: seq<Record>, autoIncrement: bool)
    | UpdateModels(typeId: string, models: seq<Record>)
    | DeleteModels(typeId: string, filter: Filter)

  /** Vectors are indexed with an `int`. */
  predicate LegalRequest(q: Request, types: Types) {
    q.typeId in types ==>
      var members := types[q.typeId].members;
      if q.DeleteModels? then q.filter.Fits(members)
      else |q.models| < 0x8000_0000 && forall i :: 0 <= i < |q.models| ==> FitsMembers(q.models[i], members)
  }

  function WithId(model: Record, id: int64): (saved: Record)
    requires model != []
  {
    model[0 := IntField(id)]
  }

  lemma WithIdFits(model: Record, members: seq<Member>, id: int64)
    requires FitsMembers(model, members) && members != [] && members[0].class_ == KInt
    ensures model != [] && FitsMembers(WithId(model, id), members)
  {
  }

  /** The statements a request executes; nothing when the type is not registered or its greatest id cannot be read. */
  function ChangesOf(ts: Tables, types: Types, q: Request): Option<seq<Change>>
    requires ValidTypes(types) && LegalRequest(q, types)
  {
    if q.typeId !in types then None else
    match q
    case UpdateModels(t, models) => Some(seq(|models|, i requires 0 <= i < |models| => Replacement(t, models[i])))
    case DeleteModels(t, filter) => Some([Removal(t, filter)])
    case SaveModels(t, models, auto) =>
      if !auto then Some(seq(|models|, i requires 0 <= i < |models| => Insertion(t, models[i]))) else
      match MaxIdOf(ts, PrepareMax(types[t]))
      case None => None
      case Some(max) => Some(Numbered(types, t, models, max))
  }

  /** Insertions under the ids that follow max. */
  function Numbered(types: Types, t: string, models: seq<Record>, max: int): (changes: seq<Change>)
    requires ValidTypes(types) && t in types && FitsInt32(max) && |models| < 0x8000_0000
    requires forall i :: 0 <= i < |models| ==> FitsMembers(models[i], types[t].members)
    ensures |changes| == |models|
  {
    assert ValidType(types[t]);
    assert forall i :: 0 <= i < |models| ==> FitsMembers(models[i], types[t].members) && models[i] != [];
    seq(|models|, i requires 0 <= i < |models| => Insertion(t, WithId(models[i], max + i + 1)))
  }

  lemma ChangesAreLegal(ts: Tables, types: Types, q: Request)
    requires ValidTypes(types) && LegalRequest(q, types)
    ensures ChangesOf(ts, types, q).Some? ==> AllLegal(ChangesOf(ts, types, q).value, types)
  {
    hide FitsMembers, MaxIdOf, IsName, Upper, DistinctMembers;
    if q.SaveModels? && q.typeId in types {
      forall i, id: int64 | 0 <= i < |q.models|
        ensures q.models[i] != [] && FitsMembers(WithId(q.models[i], id), types[q.typeId].members)
      {
        WithIdFits(q.models[i], types[q.typeId].members, id);
      }
    }
  }

  function Performed(c: Connection, types: Types, q: Request): Batch
    requires ValidTypes(types) && LegalRequest(q, types)
  {
    ChangesAreLegal(c.tables, types, q);
    match ChangesOf(c.tables, types, q)
    case None => Batch(c, 0)
    case Some(changes) => ExecutedWhile(c, SqlsOf(types, changes))
  }

  // ----- Runs -----

  datatype Run = Run(after: Connection, log: seq<Change>)

  /** The requests of a program in order, each whether or not those before it failed, with the changes that were done. */
  function RunOf(c: Connection, types: Types, requests: seq<Request>): Run
    requires ValidTypes(types) && forall k :: 0 <= k < |requests| ==> LegalRequest(requests[k], types)
    decreases |requests|
  {
    hide ExecutedWhile, ChangesOf, LegalRequest, ValidTypes;
    if requests == [] then Run(c, []) else
    var b := Performed(c, types, requests[0]);
    var rest := RunOf(b.after, types, requests[1..]);
    Run(rest.after, DoneOf(c, types, requests[0]) + rest.log)
  }

  /** The changes of a request that were done. */
  function DoneOf(c: Connection, types: Types, q: Request): seq<Change>
    requires ValidTypes(types) && LegalRequest(q, types)
  {
    ChangesAreLegal(c.tables, types, q);
    match ChangesOf(c.tables, types, q)
    case None => []
    case Some(changes) => changes[..Performed(c, types, q).done]
  }

  /** Over every run, with any faults at any point, what is committed is the store that the log of done changes makes: the
      database refines a map of records for each type. */
  lemma {:induction false} RunRefines(c: Connection, types: Types, store: Store, requests: seq<Request>)
    requires ValidTypes(types) && forall k :: 0 <= k < |requests| ==> LegalRequest(requests[k], types)
    requires ValidStore(store, types) && Represents(c.Committed(), types, store)
    ensures var run := RunOf(c, types, requests);
            && AllLegal(run.log, types)
            && var next := ApplyAll(store, types, run.log);
               next.Some? && Represents(run.after.Committed(), types, next.value)
               && (c.txn == AutoCommit && c.faults == [] ==> run.after.txn == AutoCommit && run.after.faults == [])
    decreases requests
  {
    hide Apply, Legal, ValidTypes, ExecutedWhile, ChangesOf, LegalRequest, Represents, ValidStore;
    if requests != [] {
      var b, done := Performed(c, types, requests[0]), DoneOf(c, types, requests[0]);
      ChangesAreLegal(c.tables, types, requests[0]);
      var changes := ChangesOf(c.tables, types, requests[0]);
      if changes.Some? { BatchRefines(c, types, store, changes.value); }
      assert AllLegal(done, types);
      var middle := ApplyAll(store, types, done).value;
      RunRefines(b.after, types, middle, requests[1..]);
      var rest := RunOf(b.after, types, requests[1..]).log;
      assert AllLegal(done + rest, types);
      ApplyAllOfConcat(store, types, done, rest);
    }
  }
}
