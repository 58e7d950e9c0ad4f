// What the mock's log looks like after any calls, and how it relates to the real driver.
module MockLog {
  import opened Wrappers
  import opened Sqlite
  import opened Driver
  import opened SavepointRefinement
  import opened MockDatabase

  // ---- Bracketed words ----

  // The calls inside one transaction: statements and nested transactions that commit or roll back.
  datatype Trace =
    | End
    | Statement(sql: Sql, rest: Trace)
    | Level(inner: Trace, commit: bool, rest: Trace)

  function Closing(level: nat, commit: bool): Stmt {
    if commit then Release(level) else RollbackTo(level)
  }

  function Word(t: Trace, level: nat): seq<Stmt> {
    match t
    case End => []
    case Statement(sql, rest) => [Write(sql)] + Word(rest, level)
    case Level(inner, commit, rest) =>
      [Savepoint(level + 1)] + Word(inner, level + 1) + [Closing(level + 1, commit)] + Word(rest, level)
  }

  function TransactionWord(t: Trace, commit: bool): seq<Stmt> {
    [BeginTxn] + Word(t, 0) + [if commit then CommitTxn else RollbackTxn]
  }

  ghost predicate Bracketed(stmts: seq<Stmt>) {
    exists t: Trace, commit: bool :: stmts == TransactionWord(t, commit)
  }

  ghost predicate WellShaped(entry: seq<Stmt>) {
    (exists sql :: entry == [Write(sql)]) || Bracketed(entry)
  }

  // The nesting level after reading some statements, if they fit together.
  function ScanStep(level: nat, s: Stmt): Option<nat> {
    match s
    case Savepoint(n) => if n == level + 1 then Some(n) else None
    case Release(n) => if n == level && n > 0 then Some(n - 1) else None
    case RollbackTo(n) => if n == level && n > 0 then Some(n - 1) else None
    case Write(_) => Some(level)
    case _ => None
  }

  function Scan(level: nat, stmts: seq<Stmt>): Option<nat>
    decreases |stmts|
  {
    if stmts == [] then Some(level)
    else match ScanStep(level, stmts[0])
         case None => None
         case Some(l) => Scan(l, stmts[1..])
  }

  lemma {:induction false} ScanAppend(level: nat, stmts: seq<Stmt>, s: Stmt)
    requires Scan(level, stmts).Some?
    ensures Scan(level, stmts + [s]) == ScanStep(Scan(level, stmts).value, s)
    decreases |stmts|
  {
    if stmts == [] {
      assert (stmts + [s])[1..] == [];
    } else {
      assert (stmts + [s])[1..] == stmts[1..] + [s];
      ScanAppend(ScanStep(level, stmts[0]).value, stmts[1..], s);
    }
  }

  lemma Regroup(a: seq<Stmt>, b: seq<Stmt>, c: seq<Stmt>, d: seq<Stmt>, e: seq<Stmt>)
    ensures a + (b + (c + (d + e))) == a + b + c + d + e
  {
  }

  lemma WordOfLevel(level: nat, stmts: seq<Stmt>, inner: Trace, more: seq<Stmt>, commit: bool,
                    t: Trace, rest: seq<Stmt>)
    requires stmts != [] && stmts[0] == Savepoint(level + 1) && stmts[1..] == Word(inner, level + 1) + more
    requires more != [] && more[0] == Closing(level + 1, commit) && more[1..] == Word(t, level) + rest
    ensures stmts == Word(Level(inner, commit, t), level) + rest
  {
    var s, w := [stmts[0]], Word(inner, level + 1);
    assert stmts == s + (w + more) && more == [more[0]] + more[1..];
    Regroup(s, w, [more[0]], Word(t, level), rest);
  }

  // Words that scan back to their level or below start with the word of a trace.
  lemma {:induction false} Parse(level: nat, stmts: seq<Stmt>) returns (t: Trace, rest: seq<Stmt>)
    requires Scan(level, stmts).Some? && Scan(level, stmts).value <= level
    ensures stmts == Word(t, level) + rest
    ensures Scan(level, rest) == Scan(level, stmts)
    ensures rest != [] ==> level > 0 && exists commit :: rest[0] == Closing(level, commit)
    decreases |stmts|
  {
    if stmts == [] {
      t, rest := End, [];
    } else {
      var s := stmts[0];
      match s {
        case Write(sql) =>
          t, rest := Parse(level, stmts[1..]);
          t := Trace.Statement(sql, t);
          assert stmts == [s] + stmts[1..];
        case Savepoint(_) =>
          var inner, more := Parse(level + 1, stmts[1..]);
          var commit :| more[0] == Closing(level + 1, commit);
          t, rest := Parse(level, more[1..]);
          WordOfLevel(level, stmts, inner, more, commit, t, rest);
          t := Level(inner, commit, t);
        case Release(_) => assert s == Closing(level, true); t, rest := End, stmts;
        case RollbackTo(_) => assert s == Closing(level, false); t, rest := End, stmts;
      }
    }
  }

  lemma ClosedWordIsBracketed(stmts: seq<Stmt>, commit: bool)
    requires stmts != [] && stmts[0] == BeginTxn && Scan(0, stmts[1..]) == Some(0)
    ensures Bracketed(stmts + [if commit then CommitTxn else RollbackTxn])
  {
    var t, rest := Parse(0, stmts[1..]);
    assert stmts == [BeginTxn] + Word(t, 0);
    assert stmts + [if commit then CommitTxn else RollbackTxn] == TransactionWord(t, commit);
  }

  // ---- Any sequence of calls and drains ----

  datatype Step = Submit(op: Op) | Drain

  // What has been drained so far, and what the mock still holds.
  datatype Session = Session(drained: seq<seq<Stmt>>, tape: Tape)

  predicate CanStep(s: Session, step: Step) {
    step.Submit? && (step.op.Commit? || step.op.Rollback?) ==> s.tape.open.Some?
  }

  function Advance(s: Session, step: Step): Session
    requires CanStep(s, step)
  {
    match step
    case Submit(op) => s.(tape := Record(s.tape, op))
    case Drain => Session(s.drained + s.tape.log, s.tape.(log := []))
  }

  // Handles close no more transactions than were opened.
  predicate Legal(s: Session, steps: seq<Step>)
    decreases |steps|
  {
    steps == [] || (CanStep(s, steps[0]) && Legal(Advance(s, steps[0]), steps[1..]))
  }

  function RunSession(s: Session, steps: seq<Step>): Session
    requires Legal(s, steps)
    decreases |steps|
  {
    if steps == [] then s else RunSession(Advance(s, steps[0]), steps[1..])
  }

  // The statements of a run in the order the mock's lock admits them.
  function Submitted(s: Session, steps: seq<Step>): seq<Stmt>
    requires Legal(s, steps)
    decreases |steps|
  {
    if steps == [] then []
    else (if steps[0].Submit? then [MockSql(s.tape, steps[0].op)] else []) +
         Submitted(Advance(s, steps[0]), steps[1..])
  }

  function Flatten(log: seq<seq<Stmt>>): seq<Stmt> {
    if log == [] then [] else Flatten(log[..|log| - 1]) + log[|log| - 1]
  }

  lemma {:induction false} FlattenConcat(a: seq<seq<Stmt>>, b: seq<seq<Stmt>>)
    ensures Flatten(a + b) == Flatten(a) + Flatten(b)
    decreases |b|
  {
    if b == [] {
      assert a + b == a;
    } else {
      assert (a + b)[..|a + b| - 1] == a + b[..|b| - 1];
      FlattenConcat(a, b[..|b| - 1]);
    }
  }

  function OpenStmts(t: Tape): seq<Stmt> {
    if t.open.None? then [] else t.open.value.stmts
  }

  // Drained log, pending log and open transaction, one after the other.
  function Everything(s: Session): seq<Stmt> {
    Flatten(s.drained + s.tape.log) + OpenStmts(s.tape)
  }

  ghost predicate SessionInv(s: Session) {
    && (forall k :: 0 <= k < |s.drained| ==> WellShaped(s.drained[k]))
    && (forall k :: 0 <= k < |s.tape.log| ==> WellShaped(s.tape.log[k]))
    && (s.tape.open.Some? ==>
          var r := s.tape.open.value;
          r.stmts != [] && r.stmts[0] == BeginTxn && Scan(0, r.stmts[1..]) == Some(r.depth))
  }

  lemma RecordKeepsInv(s: Session, op: Op)
    requires SessionInv(s) && CanStep(s, Submit(op))
    ensures SessionInv(Advance(s, Submit(op)))
  {
    var stmt := MockSql(s.tape, op);
    if s.tape.open.Some? {
      var r := s.tape.open.value;
      if r.depth == 0 && (op.Commit? || op.Rollback?) {
        ClosedWordIsBracketed(r.stmts, op.Commit?);
      } else {
        ScanAppend(0, r.stmts[1..], stmt);
        assert (r.stmts + [stmt])[1..] == r.stmts[1..] + [stmt];
      }
    }
  }

  // A call appends its statement: to the open transaction, or to the log together with it.
  lemma RecordAppends(t: Tape, op: Op)
    requires (op.Commit? || op.Rollback?) ==> t.open.Some?
    ensures var t', entry := Record(t, op), OpenStmts(t) + [MockSql(t, op)];
            || (t'.log == t.log && OpenStmts(t') == entry)
            || (t'.log == t.log + [entry] && OpenStmts(t') == [])
  {
    if t.open.None? {
      assert [] + [MockSql(t, op)] == [MockSql(t, op)];
    }
  }

  lemma AdvanceAppends(s: Session, step: Step)
    requires CanStep(s, step)
    ensures Everything(Advance(s, step)) ==
            Everything(s) + if step.Submit? then [MockSql(s.tape, step.op)] else []
  {
    var log := s.drained + s.tape.log;
    match step
    case Drain =>
      assert log + [] == log;
    case Submit(op) =>
      var entry := OpenStmts(s.tape) + [MockSql(s.tape, op)];
      var t' := Record(s.tape, op);
      RecordAppends(s.tape, op);
      if t'.log != s.tape.log {
        assert s.drained + t'.log == log + [entry];
        assert Flatten([entry]) == entry;
        FlattenConcat(log, [entry]);
      }
  }

  // After any run: every finished transaction is a properly bracketed word, or one lone statement, and
  // drained log, pending log and open transaction hold every submitted statement once and in order.
  lemma {:induction false} LogShape(s: Session, steps: seq<Step>)
    requires SessionInv(s) && Legal(s, steps)
    ensures SessionInv(RunSession(s, steps))
    ensures Everything(RunSession(s, steps)) == Everything(s) + Submitted(s, steps)
    decreases |steps|
  {
    if steps == [] {
      assert Everything(s) + [] == Everything(s);
    } else {
      if steps[0].Submit? { RecordKeepsInv(s, steps[0].op); }
      AdvanceAppends(s, steps[0]);
      LogShape(Advance(s, steps[0]), steps[1..]);
    }
  }

  // ---- The mock and the real driver ----

  // The same calls on the real driver; draining the mock's log is none of its calls.
  function Calls(steps: seq<Step>): seq<Call> {
    if steps == [] then []
    else (if steps[0].Submit? then [Call(steps[0].op, false)] else []) + Calls(steps[1..])
  }

  function Emitted(depth: nat, calls: seq<Call>): seq<Stmt>
    decreases |calls|
  {
    if calls == [] then []
    else [SqlFor(depth, calls[0].op)] + Emitted(DepthAfter(depth, calls[0].op), calls[1..])
  }

  // The mock's counter is one behind the driver's.
  predicate SameDepth(t: Tape, depth: int) {
    if t.open.None? then depth == 0 else depth == t.open.value.depth + 1
  }

  lemma {:induction false} Bisimulation(s: Session, depth: nat, steps: seq<Step>)
    requires SameDepth(s.tape, depth)
    ensures Legal(s, steps) <==> Nested(depth, Calls(steps))
    ensures Legal(s, steps) ==> Submitted(s, steps) == Emitted(depth, Calls(steps))
    ensures Legal(s, steps) ==>
      SameDepth(RunSession(s, steps).tape, depth + DepthChange(Calls(steps)))
    decreases |steps|
  {
    if steps != [] {
      if steps[0].Submit? {
        var op := steps[0].op;
        assert Calls(steps)[1..] == Calls(steps[1..]);
        if CanStep(s, steps[0]) {
          Bisimulation(Advance(s, steps[0]), DepthAfter(depth, op), steps[1..]);
        }
      } else {
        assert Calls(steps) == Calls(steps[1..]);
        Bisimulation(Advance(s, steps[0]), depth, steps[1..]);
      }
    }
  }

  // Executing recorded statements one by one.
  function Replay(e: Engine, stmts: seq<Stmt>): Option<Engine>
    decreases |stmts|
  {
    if stmts == [] then Some(e)
    else match Exec(e, stmts[0])
         case None => None
         case Some(e') => Replay(e', stmts[1..])
  }

  lemma {:induction false} ReplayEmitted(c: Conn, calls: seq<Call>)
    requires NoSqlError(c, calls) && forall k :: 0 <= k < |calls| ==> !calls[k].fault
    ensures Replay(c.engine, Emitted(c.depth, calls)) == Some(RunDriver(c, calls).engine)
    decreases |calls|
  {
    if calls != [] {
      var c' := Apply(c, calls[0].op, calls[0].fault).0;
      ReplayEmitted(c', calls[1..]);
      assert Emitted(c.depth, calls)[1..] == Emitted(c'.depth, calls[1..]);
    }
  }

  lemma {:induction false} CallsAreFaultFree(steps: seq<Step>)
    ensures forall k :: 0 <= k < |Calls(steps)| ==> !Calls(steps)[k].fault
  {
    if steps != [] { CallsAreFaultFree(steps[1..]); }
  }

  // What a unit test reads from the mock is the truth about the real database: replaying everything the
  // mock recorded on an idle engine succeeds and ends in the state the real driver reaches.
  lemma ReplayedLogIsTheDatabase(e: Engine, steps: seq<Step>)
    requires e.Autocommit() && e.working == e.committed
    requires Legal(Session([], Tape(None, [])), steps)
    ensures Replay(e, Everything(RunSession(Session([], Tape(None, [])), steps))) ==
            Some(RunDriver(Conn(e, 0), Calls(steps)).engine)
  {
    var s := Session([], Tape(None, []));
    LogShape(s, steps);
    assert [] + Submitted(s, steps) == Submitted(s, steps);
    Bisimulation(s, 0, steps);
    CallsAreFaultFree(steps);
    DriverRefinesStack(e, Calls(steps));
    ReplayEmitted(Conn(e, 0), Calls(steps));
  }
}
