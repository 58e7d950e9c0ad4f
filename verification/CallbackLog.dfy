// What a callback leaves in the mock's log, and that this log is what the callback means.
module CallbackLog {
  import opened Wrappers
  import opened Sqlite
  import opened Driver
  import opened SavepointRefinement
  import opened Transaction
  import opened MockDatabase
  import opened MockLog

  // ---- What a callback leaves in the log ----

  // The calls a callback makes on the mock, whose begin, commit and rollback never fail.
  function CallsOf(body: Body): seq<Op> {
    match body
    case Return(_) | Unwind => []
    case Statement(sql, _, rest) => [Execute(sql)] + CallsOf(rest)
    case Nest(inner, _, swallow, rest) =>
      [Begin] + CallsOf(inner) + [Ending(inner)] +
      if Succeeds(inner) || swallow then CallsOf(rest) else []
  }

  function Ending(body: Body): Op {
    if Succeeds(body) then Commit else Rollback
  }

  predicate ClosingWorks(body: Body) {
    match body
    case Return(_) => true
    case Unwind => false
    case Statement(_, _, rest) => ClosingWorks(rest)
    case Nest(inner, faults, _, rest) => !faults.begin && !faults.close && ClosingWorks(inner) && ClosingWorks(rest)
  }

  function TraceOf(body: Body): Trace {
    match body
    case Return(_) | Unwind => End
    case Statement(sql, _, rest) => Trace.Statement(sql, TraceOf(rest))
    case Nest(inner, _, swallow, rest) =>
      Level(TraceOf(inner), Succeeds(inner), if Succeeds(inner) || swallow then TraceOf(rest) else End)
  }

  // None is the mock's panic without an open transaction.
  function RecordAll(t: Tape, ops: seq<Op>): Option<Tape>
    decreases |ops|
  {
    if ops == [] then Some(t)
    else if (ops[0].Commit? || ops[0].Rollback?) && t.open.None? then None
    else RecordAll(Record(t, ops[0]), ops[1..])
  }

  lemma {:induction false} RecordConcat(t: Tape, a: seq<Op>, b: seq<Op>)
    requires RecordAll(t, a).Some?
    ensures RecordAll(t, a + b) == RecordAll(RecordAll(t, a).value, b)
    decreases |a|
  {
    if a == [] {
      assert a + b == b;
    } else {
      assert (a + b)[1..] == a[1..] + b;
      RecordConcat(Record(t, a[0]), a[1..], b);
    }
  }

  // An open transaction with more statements, at some depth.
  function Appended(t: Tape, word: seq<Stmt>, depth: nat): Tape
    requires t.open.Some?
  {
    t.(open := Some(Recording(t.open.value.stmts + word, depth)))
  }

  predicate Appends(t: Tape, ops: seq<Op>, word: seq<Stmt>, depth: nat) {
    t.open.Some? && RecordAll(t, ops) == Some(Appended(t, word, depth))
  }

  lemma Then(t: Tape, a: seq<Op>, wa: seq<Stmt>, da: nat, b: seq<Op>, wb: seq<Stmt>, db: nat)
    requires Appends(t, a, wa, da) && Appends(Appended(t, wa, da), b, wb, db)
    ensures Appends(t, a + b, wa + wb, db)
  {
    RecordConcat(t, a, b);
    assert (t.open.value.stmts + wa) + wb == t.open.value.stmts + (wa + wb);
  }

  lemma OneCall(t: Tape, op: Op)
    requires (op.Commit? || op.Rollback?) ==> t.open.Some?
    ensures RecordAll(t, [op]) == Some(Record(t, op))
  {
    assert [op][1..] == [];
  }

  // One nested transaction around calls that append a word and come back to their level.
  lemma NestedRecords(t: Tape, ops: seq<Op>, word: seq<Stmt>, commit: bool)
    requires t.open.Some? && var d := t.open.value.depth + 1; Appends(Appended(t, [Savepoint(d)], d), ops, word, d)
    ensures var d := t.open.value.depth + 1;
            Appends(t, [Begin] + ops + [if commit then Commit else Rollback],
                    [Savepoint(d)] + word + [Closing(d, commit)], d - 1)
  {
    var d, op := t.open.value.depth + 1, if commit then Commit else Rollback;
    OneCall(t, Begin);
    Then(t, [Begin], [Savepoint(d)], d, ops, word, d);
    OneCall(Appended(t, [Savepoint(d)] + word, d), op);
    Then(t, [Begin] + ops, [Savepoint(d)] + word, d, [op], [Closing(d, commit)], d - 1);
  }

  // A callback inside an open transaction appends the word of its tree and leaves the level as it was.
  lemma {:induction false} CallbackRecords(body: Body, t: Tape)
    requires t.open.Some? && ClosingWorks(body)
    ensures Appends(t, CallsOf(body), Word(TraceOf(body), t.open.value.depth), t.open.value.depth)
  {
    var r, d := t.open.value, t.open.value.depth;
    match body
    case Return(_) =>
      assert r.stmts + [] == r.stmts;
    case Statement(sql, _, rest) =>
      OneCall(t, Execute(sql));
      CallbackRecords(rest, Appended(t, [Write(sql)], d));
      Then(t, [Execute(sql)], [Write(sql)], d, CallsOf(rest), Word(TraceOf(rest), d), d);
    case Nest(inner, _, swallow, rest) =>
      CallbackRecords(inner, Appended(t, [Savepoint(d + 1)], d + 1));
      var word := Word(TraceOf(inner), d + 1);
      NestedRecords(t, CallsOf(inner), word, Succeeds(inner));
      var level := [Savepoint(d + 1)] + word + [Closing(d + 1, Succeeds(inner))];
      var calls := [Begin] + CallsOf(inner) + [Ending(inner)];
      if Succeeds(inner) || swallow {
        CallbackRecords(rest, Appended(t, level, d));
        Then(t, calls, level, d, CallsOf(rest), Word(TraceOf(rest), d), d);
      } else {
        assert calls + [] == calls && level + [] == level;
      }
  }

  // Running a callback in an outermost transaction logs exactly one transaction: BEGIN, the word of the
  // callback's tree with every nested transaction closed as it ended, and COMMIT or ROLLBACK.
  lemma OneTransactionLogged(body: Body, log: seq<seq<Stmt>>)
    requires ClosingWorks(body)
    ensures RecordAll(Tape(None, log), [Begin] + CallsOf(body) + [Ending(body)]) ==
            Some(Tape(None, log + [TransactionWord(TraceOf(body), Succeeds(body))]))
  {
    var t := Tape(None, log);
    var t1 := Tape(Some(Recording([BeginTxn], 0)), log);
    OneCall(t, Begin);
    CallbackRecords(body, t1);
    RecordConcat(t, [Begin], CallsOf(body));
    RecordConcat(t, [Begin] + CallsOf(body), [Ending(body)]);
    OneCall(Appended(t1, Word(TraceOf(body), 0), 0), Ending(body));
  }

  // ---- Replaying that transaction ----

  predicate FaultFree(body: Body) {
    match body
    case Return(_) => true
    case Unwind => false
    case Statement(_, fault, rest) => !fault && FaultFree(rest)
    case Nest(inner, faults, _, rest) => !faults.begin && !faults.close && FaultFree(inner) && FaultFree(rest)
  }

  function Submits(ops: seq<Op>): seq<Step> {
    if ops == [] then [] else [Submit(ops[0])] + Submits(ops[1..])
  }

  // The calls as a run of the driver without faults.
  function RunOf(ops: seq<Op>): seq<Call> {
    Calls(Submits(ops))
  }

  lemma {:induction false} RunOfConcat(a: seq<Op>, b: seq<Op>)
    ensures RunOf(a + b) == RunOf(a) + RunOf(b)
    decreases |a|
  {
    if a == [] {
      assert a + b == b;
    } else {
      assert (a + b)[1..] == a[1..] + b;
      RunOfConcat(a[1..], b);
      RunOfStep(a);
      RunOfStep(a + b);
    }
  }

  lemma RunOfStep(ops: seq<Op>)
    requires ops != []
    ensures RunOf(ops) == [Call(ops[0], false)] + RunOf(ops[1..])
  {
    assert Submits(ops)[1..] == Submits(ops[1..]);
  }

  // These calls take the ideal stack from one state to another.
  predicate Moves(i: Ideal, ops: seq<Op>, i': Ideal) {
    Nested(|i.levels|, RunOf(ops)) && RunIdeal(i, RunOf(ops)) == i'
  }

  lemma MovesThen(i: Ideal, a: seq<Op>, i1: Ideal, b: seq<Op>, i2: Ideal)
    requires Moves(i, a, i1) && Moves(i1, b, i2)
    ensures Moves(i, a + b, i2)
  {
    RunOfConcat(a, b);
    RunConcat(i, RunOf(a), RunOf(b));
  }

  lemma MovesOne(i: Ideal, op: Op)
    requires Enabled(i, op)
    ensures Moves(i, [op], IdealStep(i, op))
  {
    RunOfStep([op]);
    assert RunOf([op]) == [Call(op, false)] && [Call(op, false)][1..] == [];
  }

  // The calls of a callback append its surviving statements and leave the levels as they were.
  lemma {:induction false} CallbackMoves(body: Body, i: Ideal)
    requires FaultFree(body)
    ensures Moves(i, CallsOf(body), Ideal(i.levels, i.working + Kept(body)))
    decreases body, 0
  {
    match body
    case Return(_) =>
      assert i.working + [] == i.working;
    case Statement(sql, _, rest) =>
      MovesOne(i, Execute(sql));
      var i1 := IdealStep(i, Execute(sql));
      CallbackMoves(rest, i1);
      assert i1.working + Kept(rest) == i.working + Kept(body);
      MovesThen(i, [Execute(sql)], i1, CallsOf(rest), Ideal(i.levels, i.working + Kept(body)));
    case Nest(inner, _, swallow, rest) =>
      TransactionMoves(inner, i);
      var calls := [Begin] + CallsOf(inner) + [Ending(inner)];
      var kept := if Succeeds(inner) then Kept(inner) else [];
      var i1 := Ideal(i.levels, i.working + kept);
      if Succeeds(inner) || swallow {
        CallbackMoves(rest, i1);
        assert i1.working + Kept(rest) == i.working + (kept + Kept(rest));
        assert kept + Kept(rest) == Kept(body);
        MovesThen(i, calls, i1, CallsOf(rest), Ideal(i.levels, i.working + Kept(body)));
      } else {
        assert calls + [] == calls;
      }
  }

  // A whole transaction, outermost or nested, appends them if it succeeds and nothing otherwise.
  lemma {:induction false} TransactionMoves(body: Body, i: Ideal)
    requires FaultFree(body)
    ensures Moves(i, [Begin] + CallsOf(body) + [Ending(body)],
                  Ideal(i.levels, i.working + if Succeeds(body) then Kept(body) else []))
    decreases body, 1
  {
    var inside := IdealStep(i, Begin);
    var done := Ideal(inside.levels, inside.working + Kept(body));
    MovesOne(i, Begin);
    CallbackMoves(body, inside);
    MovesThen(i, [Begin], inside, CallsOf(body), done);
    MovesOne(done, Ending(body));
    MovesThen(i, [Begin] + CallsOf(body), done, [Ending(body)], IdealStep(done, Ending(body)));
    assert done.levels[..|done.levels| - 1] == i.levels && i.working + [] == i.working;
  }

  // Recording calls one by one is a session without drains.
  lemma {:induction false} RecordAllIsSession(t: Tape, ops: seq<Op>)
    requires RecordAll(t, ops).Some?
    ensures Legal(Session([], t), Submits(ops))
    ensures RunSession(Session([], t), Submits(ops)) == Session([], RecordAll(t, ops).value)
    decreases |ops|
  {
    if ops != [] {
      RecordAllIsSession(Record(t, ops[0]), ops[1..]);
      assert Submits(ops)[1..] == Submits(ops[1..]);
    }
  }

  // The one transaction a fault-free callback logs is what the callback means: replayed on an idle
  // engine it succeeds, and commits the statements that survive, or nothing if the callback fails.
  lemma LoggedCallbackReplays(e: Engine, body: Body)
    requires FaultFree(body) && e.Autocommit() && e.working == e.committed
    ensures var after := e.working + if Succeeds(body) then Kept(body) else [];
            Replay(e, TransactionWord(TraceOf(body), Succeeds(body))) == Some(Engine(after, after, false, []))
  {
    var ops := [Begin] + CallsOf(body) + [Ending(body)];
    var word := TransactionWord(TraceOf(body), Succeeds(body));
    var empty := Tape(None, []);
    FaultFreeCloses(body);
    OneTransactionLogged(body, []);
    assert [] + [word] == [word];
    RecordAllIsSession(empty, ops);
    ReplayedLogIsTheDatabase(e, Submits(ops));
    OneEntry(word);
    TransactionMoves(body, Ideal([], e.working));
    DriverRefinesStack(e, RunOf(ops));
  }

  // A callback that inserts A, rolls a nested insert of B back, and swallows the error: the log has all of it,
  // and its replay commits A.
  lemma LoggedExample()
    ensures var body := Body.Statement("A", false,
              Nest(Body.Statement("B", false, Return(false)), Faults(false, false, false), true, Return(true)));
            && TransactionWord(TraceOf(body), Succeeds(body)) ==
               [BeginTxn, Write("A"), Savepoint(1), Write("B"), RollbackTo(1), CommitTxn]
            && Replay(Engine([], [], false, []), TransactionWord(TraceOf(body), Succeeds(body))) ==
               Some(Engine(["A"], ["A"], false, []))
  {
    var inner := Body.Statement("B", false, Return(false));
    var body := Body.Statement("A", false, Nest(inner, Faults(false, false, false), true, Return(true)));
    assert FaultFree(body);
    assert Kept(body) == ["A"] + Kept(body.rest) && Kept(body.rest) == Kept(Return(true)) == [];
    assert [] + ["A"] == ["A"] == ["A"] + [];
    LoggedCallbackReplays(Engine([], [], false, []), body);
  }

  lemma OneEntry(word: seq<Stmt>)
    ensures Everything(Session([], Tape(None, [word]))) == word
  {
    var log, none: seq<seq<Stmt>> := [word], [];
    assert none + log == log && log[..0] == none;
    assert Flatten(log) == Flatten(none) + word;
    var nothing: seq<Stmt> := [];
    assert nothing + word == word && word + nothing == word;
  }

  lemma {:induction false} FaultFreeCloses(body: Body)
    requires FaultFree(body)
    ensures ClosingWorks(body)
  {
    match body
    case Return(_) =>
    case Statement(_, _, rest) => FaultFreeCloses(rest);
    case Nest(inner, _, _, rest) => FaultFreeCloses(inner); FaultFreeCloses(rest);
  }
}
