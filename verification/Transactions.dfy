/** How a query is executed: one transaction around one statement. */
module Transactions {
  import opened WideInput
  import opened SqlLexer
  import opened SqlParser
  import opened SqlEngine

  const BEGIN := "BEGIN TRANSACTION;"
  const COMMIT := "COMMIT;"
  const ROLLBACK := "ROLLBACK;"

  /** How `Execute` ends: normally, or with one of its three exceptions. */
  datatype Ending = Done | StartFailed | StatementFailed | CommitFailed

  datatype Execution = Execution(after: Connection, ending: Ending)

  /** `ExecutionQuery::Execute` */
  function Executed(c: Connection, sql: string): Execution {
    var b := Exec(c, BEGIN);
    if !b.ok then Execution(b.after, StartFailed) else
    var s := Exec(b.after, sql);
    if !s.ok then Execution(Exec(s.after, ROLLBACK).after, StatementFailed) else
    var e := Exec(s.after, COMMIT);
    Execution(e.after, if e.ok then Done else CommitFailed)
  }

  method Execute(db: Sqlite, sql: string) returns (ending: Ending)
    requires db.open
    modifies db`tables, db`txn, db`faults
    ensures Execution(db.State(), ending) == Executed(old(db.State()), sql)
  {
    var rc := db.ExecSql(BEGIN);
    if rc != 0 { return StartFailed; }
    rc := db.ExecSql(sql);
    if rc != 0 {
      rc := db.ExecSql(ROLLBACK);
      return StatementFailed;
    }
    rc := db.ExecSql(COMMIT);
    if rc != 0 { return CommitFailed; }
    return Done;
  }

  /** A statement that is not itself about transactions. */
  predicate IsData(sql: string) {
    var st := ParseStatement(Lex(sql));
    st.Some? ==> !st.value.Begin? && !st.value.Commit? && !st.value.Rollback?
  }

  /** What a statement makes of the tables. */
  function Effect(ts: Tables, sql: string): Option<Tables> {
    match ParseStatement(Lex(sql))
    case None => None
    case Some(st) => Run(ts, st)
  }

  /** The fault that awaits the n-th statement from now. */
  function FaultAt(c: Connection, n: nat): Fault {
    if n < |c.faults| then c.faults[n] else NoFault
  }

  function Without(c: Connection, n: nat): seq<Fault> {
    if n <= |c.faults| then c.faults[n..] else []
  }

  lemma BeginParses()
    ensures ParseStatement(Lex(BEGIN)) == Some(Begin)
  {
    hide Lex;
    BeginLexes();
  }

  lemma CommitParses()
    ensures ParseStatement(Lex(COMMIT)) == Some(Commit)
  {
    hide Lex;
    WordStatementLexes("COMMIT");
    assert "COMMIT" + ";" == COMMIT;
  }

  lemma RollbackParses()
    ensures ParseStatement(Lex(ROLLBACK)) == Some(Rollback)
  {
    hide Lex;
    WordStatementLexes("ROLLBACK");
    assert "ROLLBACK" + ";" == ROLLBACK;
    assert ([Word("ROLLBACK")] + END)[0] == Word("ROLLBACK") && ([Word("COMMIT")] + END)[0] == Word("COMMIT");
  }

  function Next(c: Connection): Connection { c.(faults := Without(c, 1)) }

  lemma ExecBegins(c: Connection)
    ensures var x := Exec(c, BEGIN);
            && (x.ok <==> FaultAt(c, 0) == NoFault && c.txn == AutoCommit)
            && x.after == if x.ok then Next(c).(txn := Open(c.tables))
                          else if FaultAt(c, 0) == FailsAndRollsBack then Next(c).RolledBack() else Next(c)
  {
    BeginParses();
    hide Lex, ParseStatement, Run;
  }

  lemma ExecCommits(c: Connection)
    requires c.txn.Open?
    ensures var x := Exec(c, COMMIT);
            && (x.ok <==> FaultAt(c, 0) == NoFault)
            && x.after == if x.ok then Next(c).(txn := AutoCommit)
                          else if FaultAt(c, 0) == FailsAndRollsBack then Next(c).RolledBack() else Next(c)
  {
    CommitParses();
    hide Lex, ParseStatement, Run;
  }

  lemma ExecRollsBack(c: Connection)
    ensures var x := Exec(c, ROLLBACK);
            x.after == if FaultAt(c, 0) == Fails then Next(c) else Next(c).RolledBack()
  {
    RollbackParses();
    hide Lex, ParseStatement, Run;
  }

  lemma ExecRuns(c: Connection, sql: string)
    requires IsData(sql)
    ensures var x, effect := Exec(c, sql), Effect(c.tables, sql);
            && (x.ok <==> FaultAt(c, 0) == NoFault && effect.Some?)
            && x.after == if x.ok then Next(c).(tables := effect.value)
                          else if FaultAt(c, 0) == FailsAndRollsBack then Next(c).RolledBack() else Next(c)
  {
    hide Lex, ParseStatement, Run;
  }

  lemma WordStatementLexes(w: string)
    requires IsIdentifier(w)
    ensures Lex(w + ";") == [Word(w)] + END
  {
    hide Lexes, IsIdentifier;
    WordLexes(w);
    SymbolLexes(';');
    LexesThen(w, [Word(w)], false, ";", END, true);
    LexesAlone(w + ";", [Word(w)] + END, true);
  }

  lemma BeginLexes()
    ensures Lex(BEGIN) == [Word("BEGIN"), Word("TRANSACTION")] + END
  {
    hide Lexes;
    WordSpaceLexes("BEGIN");
    WordLexes("TRANSACTION");
    SymbolLexes(';');
    LexesThen("TRANSACTION", [Word("TRANSACTION")], false, ";", END, true);
    LexesThen("BEGIN" + " ", [Word("BEGIN")], true, "TRANSACTION" + ";", [Word("TRANSACTION")] + END, true);
    assert "BEGIN" + " " + ("TRANSACTION" + ";") == BEGIN;
    assert [Word("BEGIN")] + ([Word("TRANSACTION")] + END) == [Word("BEGIN"), Word("TRANSACTION")] + END;
    LexesAlone(BEGIN, [Word("BEGIN"), Word("TRANSACTION")] + END, true);
  }

  /** Every outcome of an execution outside a transaction: by the faults of its three statements and the statement's own
      effect. */
  lemma ExecutedByFaults(c: Connection, sql: string)
    requires c.txn == AutoCommit && IsData(sql)
    ensures var x, f0, f1, f2, effect := Executed(c, sql), FaultAt(c, 0), FaultAt(c, 1), FaultAt(c, 2), Effect(c.tables, sql);
            && (x.ending == Done <==> f0 == NoFault && f1 == NoFault && effect.Some? && f2 == NoFault)
            && (x.ending == Done ==> x.after == Connection(effect.value, AutoCommit, Without(c, 3)))
            && (x.ending != Done ==> x.after.Committed() == c.tables)
            && (x.after.txn.Open? <==> f0 == NoFault && f1 != FailsAndRollsBack && f2 == Fails)
            && (x.ending == StartFailed <==> f0 != NoFault)
            && (x.ending == CommitFailed <==> f0 == NoFault && f1 == NoFault && effect.Some? && f2 != NoFault)
  {
    hide Exec, Effect, IsData;
    var b := Exec(c, BEGIN).after;
    var d := Exec(b, sql).after;
    ExecBegins(c);
    ExecRuns(b, sql);
    if d.txn.Open? { ExecCommits(d); }
    ExecRollsBack(d);
  }

  /** Inside a transaction nothing is executed: it cannot start. The transaction stays open unless the failure ends it. */
  lemma ExecutedInTransaction(c: Connection, sql: string)
    requires c.txn.Open?
    ensures var x := Executed(c, sql);
            && x.ending == StartFailed && x.after.Committed() == c.Committed()
            && (x.after.txn.Open? <==> FaultAt(c, 0) != FailsAndRollsBack)
            && (x.after.txn.Open? ==> x.after.tables == c.tables)
            && x.after.faults == Without(c, 1)
  {
    hide Exec;
    ExecBegins(c);
  }

  /** An execution applies its whole statement or leaves what is committed as it was, whatever state it starts in. */
  lemma ExecutedIsAtomic(c: Connection, sql: string)
    requires IsData(sql)
    ensures var x := Executed(c, sql);
            if x.ending == Done
            then c.txn == AutoCommit && Some(x.after.tables) == Effect(c.tables, sql) && x.after.txn == AutoCommit
            else x.after.Committed() == c.Committed()
  {
    hide Executed, Effect, Lex, ParseStatement;
    if c.txn.Open? { ExecutedInTransaction(c, sql); } else { ExecutedByFaults(c, sql); }
  }

  /** When COMMIT fails and leaves its transaction open, the caller gets an exception, other connections see nothing, and
      this one sees the statement's whole effect. */
  lemma FailedCommitIsVisible(c: Connection, sql: string)
    requires c.txn == AutoCommit && IsData(sql) && Effect(c.tables, sql).Some?
    requires FaultAt(c, 0) == NoFault && FaultAt(c, 1) == NoFault && FaultAt(c, 2) == Fails
    ensures var x := Executed(c, sql);
            && x.ending == CommitFailed && x.after.txn == Open(c.tables)
            && Some(x.after.tables) == Effect(c.tables, sql)
  {
    hide Exec, Effect, IsData;
    var b := Exec(c, BEGIN).after;
    var d := Exec(b, sql).after;
    ExecBegins(c);
    ExecRuns(b, sql);
    if d.txn.Open? { ExecCommits(d); }
    ExecRollsBack(d);
  }

  /** One execution after another, whether they succeed or not. */
  function ExecutedAll(c: Connection, sqls: seq<string>): Connection
    decreases |sqls|
  {
    hide Executed;
    if sqls == [] then c else ExecutedAll(Executed(c, sqls[0]).after, sqls[1..])
  }

  /** After such a failure every later execution fails and changes nothing, as long as no failure ends the transaction. */
  lemma {:induction false} StaysStuck(c: Connection, sqls: seq<string>)
    requires c.txn.Open? && FailsAndRollsBack !in c.faults
    ensures ExecutedAll(c, sqls).txn == c.txn && ExecutedAll(c, sqls).tables == c.tables
    ensures sqls != [] ==> Executed(ExecutedAll(c, sqls[..|sqls| - 1]), sqls[|sqls| - 1]).ending == StartFailed
    decreases sqls
  {
    hide Executed;
    if sqls != [] {
      var next := Executed(c, sqls[0]).after;
      ExecutedInTransaction(c, sqls[0]);
      assert forall k :: 0 <= k < |next.faults| ==> next.faults[k] in c.faults;
      StaysStuck(next, sqls[1..]);
      if |sqls| > 1 {
        assert sqls[..|sqls| - 1][1..] == sqls[1..][..|sqls[1..]| - 1];
        assert sqls[1..][|sqls[1..]| - 1] == sqls[|sqls| - 1];
      }
    }
  }

  /** The next execution does not leave its transaction open: BEGIN fails, or the statement's failure ends the transaction,
      or the closing COMMIT or ROLLBACK does not fail, or its failure ends it. Statements may fail all the same. */
  predicate ClosesCleanly(c: Connection) {
    FaultAt(c, 0) != NoFault || FaultAt(c, 1) == FailsAndRollsBack || FaultAt(c, 2) != Fails
  }

  predicate AllClose(c: Connection, sqls: seq<string>)
    decreases |sqls|
  {
    hide Executed;
    sqls == [] || (ClosesCleanly(c) && AllClose(Executed(c, sqls[0]).after, sqls[1..]))
  }

  /** No transaction is open before, between or after the executions of a run. */
  ghost predicate NeverOpen(c: Connection, sqls: seq<string>) {
    forall n :: 0 <= n <= |sqls| ==> ExecutedAll(c, sqls[..n]).txn == AutoCommit
  }

  /** A run never leaves a transaction open if and only if every execution of it closes cleanly. */
  lemma {:induction false} NeverStuckIff(c: Connection, sqls: seq<string>)
    requires c.txn == AutoCommit && forall k :: 0 <= k < |sqls| ==> IsData(sqls[k])
    ensures NeverOpen(c, sqls) <==> AllClose(c, sqls)
    decreases sqls
  {
    hide Executed, Effect, IsData, ClosesCleanly, NeverOpen;
    if sqls == [] {
      NeverOpenOfNone(c);
    } else {
      var next := Executed(c, sqls[0]).after;
      ClosesIff(c, sqls[0]);
      NeverOpenOfMore(c, sqls);
      if next.txn == AutoCommit { NeverStuckIff(next, sqls[1..]); }
    }
  }

  lemma ClosesIff(c: Connection, sql: string)
    requires c.txn == AutoCommit && IsData(sql)
    ensures ClosesCleanly(c) <==> Executed(c, sql).after.txn == AutoCommit
  {
    hide Executed, Effect, IsData;
    ExecutedByFaults(c, sql);
  }

  lemma NeverOpenOfNone(c: Connection)
    requires c.txn == AutoCommit
    ensures NeverOpen(c, [])
  {
    var none: seq<string> := [];
    assert none[..0] == none;
  }

  lemma NeverOpenOfMore(c: Connection, sqls: seq<string>)
    requires c.txn == AutoCommit && sqls != []
    ensures NeverOpen(c, sqls) <==>
            Executed(c, sqls[0]).after.txn == AutoCommit && NeverOpen(Executed(c, sqls[0]).after, sqls[1..])
  {
    hide Executed;
    var (next, rest) := (Executed(c, sqls[0]).after, sqls[1..]);
    forall n | 1 <= n <= |sqls| ensures ExecutedAll(c, sqls[..n]) == ExecutedAll(next, rest[..n - 1]) {
      assert sqls[..n][0] == sqls[0] && sqls[..n][1..] == rest[..n - 1];
    }
    if NeverOpen(c, sqls) {
      assert rest[..0] == [] && ExecutedAll(c, sqls[..1]) == ExecutedAll(next, rest[..0]);
      forall m | 0 <= m <= |rest| ensures ExecutedAll(next, rest[..m]).txn == AutoCommit {
        assert ExecutedAll(c, sqls[..m + 1]) == ExecutedAll(next, rest[..m]);
      }
    } else {
      var n :| 0 <= n <= |sqls| && ExecutedAll(c, sqls[..n]).txn != AutoCommit;
      assert n != 0 by { assert sqls[..0] == []; }
      assert ExecutedAll(next, rest[..n - 1]).txn != AutoCommit;
    }
  }

  /** In particular when COMMIT and ROLLBACK never fail, whichever other statements do. */
  lemma FailedStatementCloses(c: Connection, sql: string)
    requires c.txn == AutoCommit && IsData(sql) && FaultAt(c, 0) == NoFault && FaultAt(c, 1) == Fails && FaultAt(c, 2) == NoFault
    ensures ClosesCleanly(c) && Executed(c, sql).ending == StatementFailed
    ensures Executed(c, sql).after == Connection(c.tables, AutoCommit, Without(c, 3))
  {
    hide Exec, Effect, IsData;
    var b := Exec(c, BEGIN).after;
    ExecBegins(c);
    ExecRuns(b, sql);
    ExecRollsBack(Exec(b, sql).after);
  }

  lemma FaultsShrink(c: Connection, sql: string)
    ensures forall f :: f in Executed(c, sql).after.faults ==> f in c.faults
  {
    hide Exec;
    var b := Exec(c, BEGIN).after;
    var d := Exec(b, sql).after;
    ExecShrinks(c, BEGIN);
    ExecShrinks(b, sql);
    ExecShrinks(d, COMMIT);
    ExecShrinks(d, ROLLBACK);
  }

  lemma ExecShrinks(c: Connection, sql: string)
    ensures Exec(c, sql).after.faults == Without(c, 1)
  {
    hide Lex, ParseStatement, Run;
  }
}
