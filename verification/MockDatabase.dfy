// The scripted database used in unit tests: it records statements, grouped by transaction, and hands
// out canned results by ticket number.
module MockDatabase {
  import opened Wrappers
  import opened Sqlite
  import opened Driver

  // ---- Recording, as functions of what is recorded ----

  datatype Recording = Recording(stmts: seq<Stmt>, depth: nat)

  // The open transaction and the log of finished ones.
  datatype Tape = Tape(open: Option<Recording>, log: seq<seq<Stmt>>)

  // The statement a call adds. The mock's counter starts at 0 inside the outermost transaction.
  function MockSql(t: Tape, op: Op): Stmt
    requires (op.Commit? || op.Rollback?) ==> t.open.Some?
  {
    match op
    case Begin => if t.open.None? then BeginTxn else Savepoint(t.open.value.depth + 1)
    case Commit => if t.open.value.depth == 0 then CommitTxn else Release(t.open.value.depth)
    case Rollback => if t.open.value.depth == 0 then RollbackTxn else RollbackTo(t.open.value.depth)
    case Execute(sql) => Write(sql)
  }

  function Record(t: Tape, op: Op): Tape
    requires (op.Commit? || op.Rollback?) ==> t.open.Some?
  {
    var s := MockSql(t, op);
    match t.open
    case None => if op.Begin? then t.(open := Some(Recording([s], 0))) else t.(log := t.log + [[s]])
    case Some(r) =>
      match op
      case Begin => t.(open := Some(Recording(r.stmts + [s], r.depth + 1)))
      case Execute(_) => t.(open := Some(Recording(r.stmts + [s], r.depth)))
      case Commit | Rollback =>
        if r.depth == 0 then Tape(None, t.log + [r.stmts + [s]])
        else t.(open := Some(Recording(r.stmts + [s], r.depth - 1)))
  }

  // ---- Canned results ----

  datatype Slot<R> = Canned(result: R) | Consumed
  datatype Reply<R> = Delivered(result: R) | ConsumedAlready | BufferEmpty

  // Reading a slot leaves a marker behind.
  function TakeSlot<R>(slots: seq<Slot<R>>, ticket: nat): (Reply<R>, seq<Slot<R>>) {
    if ticket >= |slots| then (BufferEmpty, slots)
    else (match slots[ticket] case Canned(r) => Delivered(r) case Consumed => ConsumedAlready,
          slots[ticket := Consumed])
  }

  // ---- The objects ----

  class OpenTransaction {
    var stmts: seq<Stmt>
    var depth: nat

    constructor Init()
      ensures stmts == [BeginTxn] && depth == 0
    {
      stmts := [BeginTxn];
      depth := 0;
    }

    function View(): Recording
      reads this
    {
      Recording(stmts, depth)
    }

    method Push(s: Stmt)
      modifies this
      ensures View() == Recording(old(stmts) + [s], old(depth))
    {
      stmts := stmts + [s];
    }

    method BeginNested()
      modifies this
      ensures View() == Recording(old(stmts) + [Savepoint(old(depth) + 1)], old(depth) + 1)
    {
      depth := depth + 1;
      Push(Savepoint(depth));
    }

    method Commit() returns (done: bool)
      modifies this
      ensures done == (old(depth) == 0)
      ensures View() == if done then Recording(old(stmts) + [CommitTxn], 0)
                        else Recording(old(stmts) + [Release(old(depth))], old(depth) - 1)
    {
      if depth == 0 {
        Push(CommitTxn);
        done := true;
      } else {
        Push(Release(depth));
        depth := depth - 1;
        done := false;
      }
    }

    method Rollback() returns (done: bool)
      modifies this
      ensures done == (old(depth) == 0)
      ensures View() == if done then Recording(old(stmts) + [RollbackTxn], 0)
                        else Recording(old(stmts) + [RollbackTo(old(depth))], old(depth) - 1)
    {
      if depth == 0 {
        Push(RollbackTxn);
        done := true;
      } else {
        Push(RollbackTo(depth));
        depth := depth - 1;
        done := false;
      }
    }

    // Panics if a nested transaction is still open.
    method IntoTransaction() returns (t: seq<Stmt>)
      requires depth == 0
      ensures t == stmts
    {
      t := stmts;
    }
  }

  class Mock<E, Q> {
    var transaction: OpenTransaction?
    var log: seq<seq<Stmt>>
    var execResults: seq<Slot<E>>
    var queryResults: seq<Slot<Q>>

    constructor (execs: seq<E>, queries: seq<Q>)
      ensures View() == Tape(None, [])
      ensures execResults == seq(|execs|, i requires 0 <= i < |execs| => Canned(execs[i]))
      ensures queryResults == seq(|queries|, i requires 0 <= i < |queries| => Canned(queries[i]))
    {
      transaction := null;
      log := [];
      execResults := seq(|execs|, i requires 0 <= i < |execs| => Canned(execs[i]));
      queryResults := seq(|queries|, i requires 0 <= i < |queries| => Canned(queries[i]));
    }

    function View(): Tape
      reads this, transaction
    {
      Tape(if transaction == null then None else Some(transaction.View()), log)
    }

    method Submit(sql: Sql)
      modifies this`log, transaction
      ensures View() == Record(old(View()), Op.Execute(sql))
    {
      if transaction != null {
        transaction.Push(Write(sql));
      } else {
        log := log + [[Write(sql)]];
      }
    }

    method Execute(ticket: nat, sql: Sql) returns (r: Reply<E>)
      modifies this`log, this`execResults, transaction
      ensures View() == Record(old(View()), Op.Execute(sql))
      ensures (r, execResults) == TakeSlot(old(execResults), ticket)
    {
      Submit(sql);
      if ticket < |execResults| {
        r := match execResults[ticket] case Canned(res) => Delivered(res) case Consumed => ConsumedAlready;
        execResults := execResults[ticket := Consumed];
      } else {
        r := BufferEmpty;
      }
    }

    method Query(ticket: nat, sql: Sql) returns (r: Reply<Q>)
      modifies this`log, this`queryResults, transaction
      ensures View() == Record(old(View()), Op.Execute(sql))
      ensures (r, queryResults) == TakeSlot(old(queryResults), ticket)
    {
      Submit(sql);
      if ticket < |queryResults| {
        r := match queryResults[ticket] case Canned(res) => Delivered(res) case Consumed => ConsumedAlready;
        queryResults := queryResults[ticket := Consumed];
      } else {
        r := BufferEmpty;
      }
    }

    method Begin()
      modifies this`transaction, transaction
      ensures View() == Record(old(View()), Op.Begin)
    {
      if transaction != null {
        transaction.BeginNested();
      } else {
        transaction := new OpenTransaction.Init();
      }
    }

    // Panics without an open transaction.
    method Commit()
      requires transaction != null
      modifies this`transaction, this`log, transaction
      ensures View() == Record(old(View()), Op.Commit)
    {
      var done := transaction.Commit();
      if done {
        var t := transaction.IntoTransaction();
        transaction := null;
        log := log + [t];
      }
    }

    method Rollback()
      requires transaction != null
      modifies this`transaction, this`log, transaction
      ensures View() == Record(old(View()), Op.Rollback)
    {
      var done := transaction.Rollback();
      if done {
        var t := transaction.IntoTransaction();
        transaction := null;
        log := log + [t];
      }
    }

    method DrainTransactionLog() returns (drained: seq<seq<Stmt>>)
      modifies this`log
      ensures drained == old(log) && log == []
    {
      drained := log;
      log := [];
    }
  }
}
