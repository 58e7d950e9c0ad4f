// The driver's flat counter and named savepoints refine a stack of snapshots, over every run.
module SavepointRefinement {
  import opened Sqlite
  import opened Driver

  // ---- The ideal: begin pushes a snapshot, commit drops it, rollback restores it ----

  datatype Ideal = Ideal(levels: seq<Data>, working: Data) {
    function Committed(): Data {
      if levels == [] then working else levels[0]
    }
  }

  predicate Enabled(i: Ideal, op: Op) {
    (op.Commit? || op.Rollback?) ==> i.levels != []
  }

  function IdealStep(i: Ideal, op: Op): Ideal
    requires Enabled(i, op)
  {
    match op
    case Begin => Ideal(i.levels + [i.working], i.working)
    case Commit => Ideal(i.levels[..|i.levels| - 1], i.working)
    case Rollback => Ideal(i.levels[..|i.levels| - 1], i.levels[|i.levels| - 1])
    case Execute(sql) => Ideal(i.levels, i.working + [sql])
  }

  // ---- The invariant on the engine's savepoint stack ----

  // `live` are the snapshots of sp1, sp2, ... that the counter still knows. Read from the top, the stack
  // is copies of the next name, left behind by ROLLBACK TO, then the innermost live entry, and below it
  // the blocks of the levels further out.
  predicate Blocks(saved: seq<Entry>, live: seq<Data>)
    decreases |saved|
  {
    if saved == [] then live == []
    else
      var n, m := |saved| - 1, |live|;
      if saved[n].name == m + 1 then Blocks(saved[..n], live)
      else m > 0 && saved[n] == Entry(m, live[m - 1]) && Blocks(saved[..n], live[..m - 1])
  }

  predicate Refines(c: Conn, i: Ideal) {
    && c.depth == |i.levels|
    && c.engine.begun == (c.depth > 0)
    && c.engine.working == i.working
    && c.engine.committed == i.Committed()
    && if c.depth == 0 then c.engine.saved == [] else Blocks(c.engine.saved, i.levels[1..])
  }

  lemma PushLive(saved: seq<Entry>, live: seq<Data>, snapshot: Data)
    requires Blocks(saved, live)
    ensures Blocks(saved + [Entry(|live| + 1, snapshot)], live + [snapshot])
  {
    var s, l := saved + [Entry(|live| + 1, snapshot)], live + [snapshot];
    assert s[..|saved|] == saved && l[..|live|] == live;
  }

  // RELEASE and ROLLBACK TO of the innermost live name find the live entry, not a copy. Without it, or
  // with it demoted to a copy, the stack is that of the levels further out.
  lemma {:induction false} InnermostIsLive(saved: seq<Entry>, live: seq<Data>)
    requires live != [] && Blocks(saved, live)
    ensures var i, outer := MostRecent(saved, |live|), live[..|live| - 1];
            && i >= 0 && saved[i].snapshot == live[|live| - 1]
            && Blocks(saved[..i], outer) && Blocks(saved[..i + 1], outer)
    decreases |saved|
  {
    var n, i := |saved| - 1, MostRecent(saved, |live|);
    if saved[n].name == |live| + 1 {
      InnermostIsLive(saved[..n], live);
      assert saved[..n][..i] == saved[..i] && saved[..n][..i + 1] == saved[..i + 1];
    } else {
      assert saved[..i + 1] == saved && saved[..i + 1][..i] == saved[..i];
    }
  }

  // One call: the engine raises no error of its own, a fault changes nothing, and otherwise the
  // driver makes the step of the ideal stack.
  lemma StepRefines(c: Conn, i: Ideal, op: Op, fault: bool)
    requires Refines(c, i) && Enabled(i, op)
    ensures var (c', ok) := Apply(c, op, fault);
            ok == !fault && Refines(c', if fault then i else IdealStep(i, op))
  {
    if !fault {
      match op
      case Begin => BeginRefines(c, i);
      case Commit => CommitRefines(c, i);
      case Rollback => RollbackRefines(c, i);
      case Execute(_) =>
    }
  }

  lemma BeginRefines(c: Conn, i: Ideal)
    requires Refines(c, i)
    ensures var (c', ok) := Apply(c, Begin, false); ok && Refines(c', IdealStep(i, Begin))
  {
    var i' := IdealStep(i, Begin);
    if c.depth > 0 {
      PushLive(c.engine.saved, i.levels[1..], i.working);
      assert i'.levels[1..] == i.levels[1..] + [i.working];
    }
  }

  lemma CommitRefines(c: Conn, i: Ideal)
    requires Refines(c, i) && i.levels != []
    ensures var (c', ok) := Apply(c, Commit, false); ok && Refines(c', IdealStep(i, Commit))
  {
    if c.depth > 1 {
      InnermostIsLive(c.engine.saved, i.levels[1..]);
      assert IdealStep(i, Commit).levels[1..] == i.levels[1..][..|i.levels| - 2];
    }
  }

  lemma RollbackRefines(c: Conn, i: Ideal)
    requires Refines(c, i) && i.levels != []
    ensures var (c', ok) := Apply(c, Rollback, false); ok && Refines(c', IdealStep(i, Rollback))
  {
    if c.depth > 1 {
      InnermostIsLive(c.engine.saved, i.levels[1..]);
      assert IdealStep(i, Rollback).levels[1..] == i.levels[1..][..|i.levels| - 2];
    }
  }

  // ---- Whole runs ----

  // `fault` marks a call that the engine refuses.
  datatype Call = Call(op: Op, fault: bool)

  // Never closes more levels than it has inside.
  predicate Nested(depth: nat, run: seq<Call>)
    decreases |run|
  {
    run == [] ||
    if run[0].fault then Nested(depth, run[1..])
    else match run[0].op
         case Begin => Nested(depth + 1, run[1..])
         case Commit | Rollback => depth > 0 && Nested(depth - 1, run[1..])
         case Execute(_) => Nested(depth, run[1..])
  }

  function RunIdeal(i: Ideal, run: seq<Call>): Ideal
    requires Nested(|i.levels|, run)
    decreases |run|
  {
    if run == [] then i
    else if run[0].fault then RunIdeal(i, run[1..])
    else RunIdeal(IdealStep(i, run[0].op), run[1..])
  }

  function RunDriver(c: Conn, run: seq<Call>): Conn
    decreases |run|
  {
    if run == [] then c else RunDriver(Apply(c, run[0].op, run[0].fault).0, run[1..])
  }

  // Every call of the run that the engine does not refuse succeeds.
  predicate NoSqlError(c: Conn, run: seq<Call>)
    decreases |run|
  {
    run == [] ||
    var (c', ok) := Apply(c, run[0].op, run[0].fault);
    ok == !run[0].fault && NoSqlError(c', run[1..])
  }

  lemma {:induction false} RunRefines(c: Conn, i: Ideal, run: seq<Call>)
    requires Refines(c, i) && Nested(c.depth, run)
    ensures NoSqlError(c, run) && Refines(RunDriver(c, run), RunIdeal(i, run))
    decreases |run|
  {
    if run != [] {
      var Call(op, fault) := run[0];
      if fault {
        if Enabled(i, op) { StepRefines(c, i, op, fault); }
        RunRefines(c, i, run[1..]);
      } else {
        StepRefines(c, i, op, fault);
        RunRefines(Apply(c, op, fault).0, IdealStep(i, op), run[1..]);
      }
    }
  }

  // From an idle connection: contents agree with the ideal stack, and back at depth 0 the connection
  // is in autocommit mode with an empty savepoint stack, whatever copies piled up on the way.
  lemma DriverRefinesStack(e: Engine, run: seq<Call>)
    requires e.Autocommit() && e.working == e.committed && Nested(0, run)
    ensures var c := RunDriver(Conn(e, 0), run);
            var i := RunIdeal(Ideal([], e.working), run);
            && NoSqlError(Conn(e, 0), run)
            && c.engine.working == i.working && c.engine.committed == i.Committed()
            && c.depth == |i.levels|
            && (c.depth == 0 ==> c.engine == Engine(i.working, i.working, false, []))
  {
    RunRefines(Conn(e, 0), Ideal([], e.working), run);
  }

  // ---- What one level undoes ----

  function DepthChange(run: seq<Call>): int {
    if run == [] then 0
    else DepthChange(run[1..]) +
         (if run[0].fault then 0
          else match run[0].op case Begin => 1 case Commit | Rollback => -1 case Execute(_) => 0)
  }

  // A run that never closes a level it did not open keeps every older snapshot.
  lemma {:induction false} OlderLevelsKept(i: Ideal, base: nat, run: seq<Call>)
    requires base <= |i.levels| && Nested(|i.levels| - base, run)
    ensures Nested(|i.levels|, run)
    ensures |RunIdeal(i, run).levels| == |i.levels| + DepthChange(run)
    ensures |RunIdeal(i, run).levels| >= base
    ensures RunIdeal(i, run).levels[..base] == i.levels[..base]
    decreases |run|
  {
    if run != [] {
      if run[0].fault {
        OlderLevelsKept(i, base, run[1..]);
      } else {
        var i' := IdealStep(i, run[0].op);
        assert i'.levels[..base] == i.levels[..base];
        OlderLevelsKept(i', base, run[1..]);
      }
    }
  }

  lemma {:induction false} RunConcat(i: Ideal, a: seq<Call>, b: seq<Call>)
    requires Nested(|i.levels|, a) && Nested(|RunIdeal(i, a).levels|, b)
    ensures Nested(|i.levels|, a + b) && RunIdeal(i, a + b) == RunIdeal(RunIdeal(i, a), b)
    decreases |a|
  {
    if a == [] {
      assert a + b == b;
    } else {
      assert (a + b)[1..] == a[1..] + b;
      RunConcat(if a[0].fault then i else IdealStep(i, a[0].op), a[1..], b);
    }
  }

  lemma {:induction false} RunDriverConcat(c: Conn, a: seq<Call>, b: seq<Call>)
    ensures RunDriver(c, a + b) == RunDriver(RunDriver(c, a), b)
    decreases |a|
  {
    if a == [] {
      assert a + b == b;
    } else {
      assert (a + b)[1..] == a[1..] + b;
      RunDriverConcat(Apply(c, a[0].op, a[0].fault).0, a[1..], b);
    }
  }

  // Rolling a level back undoes everything that happened inside it, commits of inner levels included:
  // contents and counter are as before the begin, at every depth.
  lemma RollbackUndoesLevel(c: Conn, i: Ideal, body: seq<Call>)
    requires Refines(c, i) && Nested(0, body) && DepthChange(body) == 0
    ensures var run := [Call(Begin, false)] + body + [Call(Rollback, false)];
            Refines(RunDriver(c, run), i)
  {
    var inside := IdealStep(i, Begin);
    var calls := [Call(Begin, false)] + body;
    OlderLevelsKept(inside, |i.levels| + 1, body);
    assert calls[1..] == body;
    var close := [Call(Rollback, false)];
    RunConcat(i, calls, close);
    RunRefines(c, i, calls + close);
    var inner := RunIdeal(inside, body);
    assert RunIdeal(i, calls) == inner;
    assert inner.levels == inner.levels[..|i.levels| + 1] == i.levels + [i.working];
    assert close[1..] == [];
    assert IdealStep(inner, Rollback) == i;
  }

  // ---- Counter and savepoint stack drift apart ----

  function Attempts(n: nat): seq<Call> {
    if n == 0 then [] else Attempts(n - 1) + [Call(Begin, false), Call(Rollback, false)]
  }

  // Each rolled back attempt inside a transaction leaves one copy of its savepoint behind.
  lemma {:induction false} ResidualsPileUp(c: Conn, i: Ideal, n: nat)
    requires Refines(c, i) && c.depth > 0
    ensures var c' := RunDriver(c, Attempts(n));
            Refines(c', i) && |c'.engine.saved| == |c.engine.saved| + n
  {
    if n > 0 {
      ResidualsPileUp(c, i, n - 1);
      var c1 := RunDriver(c, Attempts(n - 1));
      var pair := [Call(Begin, false), Call(Rollback, false)];
      RunDriverConcat(c, Attempts(n - 1), pair);
      var c2 := Apply(c1, Begin, false).0;
      assert pair[1..][1..] == [];
      assert RunDriver(c1, pair) == Apply(c2, Rollback, false).0;
      StepRefines(c1, i, Begin, false);
      var inside := IdealStep(i, Begin);
      StepRefines(c2, inside, Rollback, false);
      assert IdealStep(inside, Rollback) == i;
    }
  }
}
