// Every interleaving of callers: the single connection is idle in the shared cell, out on one loan, or
// closed for good, and the counter against the number of open handles. Handles close in any order.
module ConnectionLoan {
  import opened Wrappers
  import opened Sqlite
  import opened Driver
  import opened SavepointRefinement
  import opened Transaction

  // A loan serves either one stream or the open transaction handles that share it.
  datatype Loan = Loan(conn: Conn, streaming: bool, handles: set<nat>)

  datatype Pool = Pool(shared: State, loan: Option<Loan>)

  datatype Step =
    | Direct(sql: Sql, fault: bool)
    | OpenStream | CloseStream | Close
    | BeginOuter(handle: nat, faults: Faults)
    | BeginNested(parent: nat, handle: nat, faults: Faults)
    | Run(handle: nat, sql: Sql, fault: bool)
    | End(handle: nat, commit: bool, faults: Faults)
    | DropHandle(handle: nat, fault: bool)

  // The connection goes back when its last user is gone, also if that user panics.
  function HandBack(l: Loan): Pool {
    if !l.streaming && l.handles == {} then Pool(Idle(l.conn.engine), None)
    else Pool(Loaned, Some(l))
  }

  function Ending(commit: bool): Op {
    if commit then Commit else Rollback
  }

  // One step of one caller. A step that needs the idle connection while there is none is an acquire
  // error, and a step on a handle that does not exist is no step.
  function Next(p: Pool, s: Step): Pool {
    match p.loan
    case None => if p.shared.Idle? then NextIdle(p, p.shared.conn, s) else p
    case Some(l) => NextLoaned(p, l, s)
  }

  function NextIdle(p: Pool, e: Engine, s: Step): Pool {
    match s
    case Direct(sql, fault) =>
      (match Send(e, Write(sql), fault) case None => p case Some(e') => p.(shared := Idle(e')))
    case OpenStream => HandBack(Loan(Conn(e, 0), true, {}))
    case Close => p.(shared := Disconnected)
    case BeginOuter(h, faults) =>
      var (c, ended) := BeginHandle(Conn(e, 0), faults);
      HandBack(Loan(c, false, if ended.Worked? then {h} else {}))
    case _ => p
  }

  function NextLoaned(p: Pool, l: Loan, s: Step): Pool {
    match s
    case CloseStream =>
      if l.streaming then HandBack(l.(streaming := false)) else p
    case BeginNested(parent, h, faults) =>
      if parent in l.handles && h !in l.handles then
        var (c, ended) := BeginHandle(l.conn, faults);
        HandBack(l.(conn := c, handles := if ended.Worked? then l.handles + {h} else l.handles))
      else p
    case Run(h, sql, fault) =>
      if h in l.handles then HandBack(l.(conn := Apply(l.conn, Execute(sql), fault).0)) else p
    case End(h, commit, faults) =>
      if h in l.handles then
        HandBack(l.(conn := CloseHandle(l.conn, Ending(commit), faults).0, handles := l.handles - {h}))
      else p
    case DropHandle(h, fault) =>
      if h in l.handles then HandBack(l.(conn := RollBackOpen(l.conn, fault).0, handles := l.handles - {h})) else p
    case _ => p
  }

  function RunPool(p: Pool, run: seq<Step>): Pool
    decreases |run|
  {
    if run == [] then p else RunPool(Next(p, run[0]), run[1..])
  }

  // ---- The invariant ----

  // The loaned connection behaves as some stack of snapshots.
  ghost predicate Faithful(c: Conn) {
    exists i :: Refines(c, i)
  }

  // A connection that lies in the shared cell inside a transaction, which no counter knows.
  predicate Stranded(e: Engine) { e.begun }

  // Transaction handles share a faithful connection; a stream may also have a stranded one.
  ghost predicate LoanInv(l: Loan) {
    if l.streaming then l.handles == {} && l.conn.depth == 0 && (Clean(l.conn.engine) || Stranded(l.conn.engine))
    else Faithful(l.conn)
  }

  ghost predicate Inv(p: Pool) {
    match p.shared
    case Idle(e) => p.loan.None? && (Clean(e) || Stranded(e))
    case Disconnected => p.loan.None?
    case Loaned =>
      p.loan.Some? && LoanInv(p.loan.value) && (p.loan.value.streaming || p.loan.value.handles != {})
  }

  function LevelBelow(depth: nat): nat {
    if depth == 0 then 0 else depth - 1
  }

  // A faithful connection is clean exactly at depth 0, and inside a transaction above.
  lemma CleanAtDepthZero(c: Conn)
    requires Faithful(c)
    ensures Clean(c.engine) <==> c.depth == 0
    ensures Stranded(c.engine) <==> c.depth > 0
  {
    var i :| Refines(c, i);
  }

  lemma CleanIsFaithful(e: Engine)
    requires Clean(e)
    ensures Faithful(Conn(e, 0))
  {
    assert Refines(Conn(e, 0), Ideal([], e.working));
  }

  // The end of a handle takes one level away if there is one, unless its drop is refused too.
  lemma EndingTakesOneLevel(c: Conn, op: Op, faults: Faults)
    requires Faithful(c) && (op.Commit? || op.Rollback?)
    ensures var (c', ended) := CloseHandle(c, op, faults);
            && Faithful(c') && c'.depth == (if Closes(faults) then LevelBelow(c.depth) else c.depth)
            && (c.depth > 0 && !faults.close ==> ended.Worked?)
  {
    var i :| Refines(c, i);
    CloseRefines(c, i, op, faults);
  }

  lemma DropTakesOneLevel(c: Conn, fault: bool)
    requires Faithful(c)
    ensures var c' := RollBackOpen(c, fault).0;
            Faithful(c') && c'.depth == if fault then c.depth else LevelBelow(c.depth)
  {
    var i :| Refines(c, i);
    DropRefines(c, i, fault);
  }

  // A begin adds one level, or takes one away if it fails and its drop is not refused.
  lemma BeginAddsOneLevel(c: Conn, faults: Faults)
    requires Faithful(c)
    ensures var (c', ended) := BeginHandle(c, faults);
            && Faithful(c') && (ended.Worked? <==> !faults.begin)
            && c'.depth == if !faults.begin then c.depth + 1
                           else if faults.drop then c.depth
                           else LevelBelow(c.depth)
  {
    var i :| Refines(c, i);
    BeginRefinesAnyway(c, i, faults);
  }

  lemma ExecuteKeepsLevel(c: Conn, sql: Sql, fault: bool)
    requires Faithful(c)
    ensures var c' := Apply(c, Execute(sql), fault).0; Faithful(c') && c'.depth == c.depth
  {
    var i :| Refines(c, i);
    StepRefines(c, i, Execute(sql), fault);
  }

  // ---- One step ----

  // The engine refuses the rollback of a handle's drop.
  predicate DropRefused(s: Step) {
    (s.End? && !Closes(s.faults)) || (s.DropHandle? && s.fault)
  }

  // A step that ends a handle of the loan.
  predicate Ends(p: Pool, s: Step) {
    p.loan.Some? && (s.End? || s.DropHandle?) && s.handle in p.loan.value.handles
  }

  // The last handle goes, and a level stays: its own, or one that an earlier refused drop left.
  predicate Strands(p: Pool, s: Step) {
    && Ends(p, s) && p.loan.value.handles == {s.handle}
    && p.loan.value.conn.depth > if DropRefused(s) then 0 else 1
  }

  // A connection that no handle uses is clean.
  predicate CellClean(p: Pool) {
    && (p.shared.Idle? ==> Clean(p.shared.conn))
    && (p.loan.Some? && p.loan.value.streaming ==> Clean(p.loan.value.conn.engine))
  }

  // The counter of the loan is the number of open handles, and 0 when it was handed back.
  predicate DepthIsHandles(p: Pool) {
    CellClean(p) && (p.loan.Some? ==> p.loan.value.conn.depth == |p.loan.value.handles|)
  }

  // A nested begin fails and its drop takes a level of the parent, or a handle goes and leaves its level.
  predicate Miscounts(p: Pool, s: Step) {
    || (Ends(p, s) && DropRefused(s))
    || (&& p.loan.Some? && s.BeginNested? && s.faults.begin && !s.faults.drop
        && s.parent in p.loan.value.handles && s.handle !in p.loan.value.handles)
  }

  // What one step does to the invariant, to the cell, and to the counter.
  ghost predicate StepHolds(p: Pool, s: Step) {
    var p' := Next(p, s);
    && Inv(p')
    && (CellClean(p) ==> (CellClean(p') <==> !Strands(p, s)))
    && (DepthIsHandles(p) ==> (DepthIsHandles(p') <==> !Miscounts(p, s)))
  }

  lemma HasMember(s: set<nat>, x: nat)
    requires x in s
    ensures |s| > 0 && |s - {x}| == |s| - 1
    ensures s - {x} == {} <==> s == {x}
  {
  }

  lemma IdleStep(p: Pool, e: Engine, s: Step)
    requires p == Pool(Idle(e), None) && Inv(p)
    ensures StepHolds(p, s)
  {
    if Clean(e) {
      CleanIsFaithful(e);
      if s.BeginOuter? {
        BeginAddsOneLevel(Conn(e, 0), s.faults);
        CleanAtDepthZero(BeginHandle(Conn(e, 0), s.faults).0);
      }
    }
  }

  lemma NestedBeginStep(p: Pool, l: Loan, s: Step)
    requires p == Pool(Loaned, Some(l)) && Inv(p) && !l.streaming && s.BeginNested?
    ensures StepHolds(p, s)
  {
    if s.parent in l.handles && s.handle !in l.handles {
      HasMember(l.handles, s.parent);
      BeginAddsOneLevel(l.conn, s.faults);
    }
  }

  // A handle goes and the connection becomes c.
  lemma HandleGone(p: Pool, l: Loan, c: Conn, s: Step)
    requires p == Pool(Loaned, Some(l)) && Inv(p) && !l.streaming && Ends(p, s)
    requires Next(p, s) == HandBack(l.(conn := c, handles := l.handles - {s.handle}))
    requires Faithful(c) && c.depth == if DropRefused(s) then l.conn.depth else LevelBelow(l.conn.depth)
    ensures StepHolds(p, s)
  {
    HasMember(l.handles, s.handle);
    CleanAtDepthZero(c);
  }

  lemma EndingStep(p: Pool, l: Loan, s: Step)
    requires p == Pool(Loaned, Some(l)) && Inv(p) && !l.streaming && Ends(p, s)
    ensures StepHolds(p, s)
  {
    if s.End? {
      EndingTakesOneLevel(l.conn, Ending(s.commit), s.faults);
      HandleGone(p, l, CloseHandle(l.conn, Ending(s.commit), s.faults).0, s);
    } else {
      DropTakesOneLevel(l.conn, s.fault);
      HandleGone(p, l, RollBackOpen(l.conn, s.fault).0, s);
    }
  }

  lemma RunStep(p: Pool, l: Loan, s: Step)
    requires p == Pool(Loaned, Some(l)) && Inv(p) && !l.streaming && s.Run?
    ensures StepHolds(p, s)
  {
    if s.handle in l.handles {
      ExecuteKeepsLevel(l.conn, s.sql, s.fault);
    }
  }

  lemma EveryStep(p: Pool, s: Step)
    requires Inv(p)
    ensures StepHolds(p, s)
  {
    match p.shared
    case Disconnected =>
    case Idle(e) => IdleStep(p, e, s);
    case Loaned =>
      var l := p.loan.value;
      if !l.streaming {
        if s.BeginNested? { NestedBeginStep(p, l, s); }
        if Ends(p, s) { EndingStep(p, l, s); }
        if s.Run? { RunStep(p, l, s); }
      }
  }

  // ---- Over all interleavings ----

  // Failed begins, refused drops and out-of-order closing included: the connection is in exactly one place,
  // idle, on a loan with a user, or closed for good; and a loaned connection with handles always behaves as
  // a stack of snapshots.
  lemma {:induction false} LoanInvariant(p: Pool, run: seq<Step>)
    requires Inv(p)
    ensures Inv(RunPool(p, run))
    ensures p.shared.Disconnected? ==> RunPool(p, run) == p
    decreases |run|
  {
    if run != [] {
      EveryStep(p, run[0]);
      LoanInvariant(Next(p, run[0]), run[1..]);
    }
  }

  predicate CleanAllAlong(p: Pool, run: seq<Step>)
    decreases |run|
  {
    CellClean(p) && (run == [] || CleanAllAlong(Next(p, run[0]), run[1..]))
  }

  predicate NothingStrands(p: Pool, run: seq<Step>)
    decreases |run|
  {
    run == [] || (!Strands(p, run[0]) && NothingStrands(Next(p, run[0]), run[1..]))
  }

  // Whenever the connection is in the shared cell it is in autocommit mode with no savepoint and nothing
  // uncommitted, exactly if no last handle of a loan goes and leaves a level.
  lemma {:induction false} HandedBackClean(p: Pool, run: seq<Step>)
    requires Inv(p) && CellClean(p)
    ensures CleanAllAlong(p, run) <==> NothingStrands(p, run)
    decreases |run|
  {
    if run != [] {
      EveryStep(p, run[0]);
      if CellClean(Next(p, run[0])) { HandedBackClean(Next(p, run[0]), run[1..]); }
    }
  }

  predicate ExactAllAlong(p: Pool, run: seq<Step>)
    decreases |run|
  {
    DepthIsHandles(p) && (run == [] || ExactAllAlong(Next(p, run[0]), run[1..]))
  }

  predicate NothingMiscounts(p: Pool, run: seq<Step>)
    decreases |run|
  {
    run == [] || (!Miscounts(p, run[0]) && NothingMiscounts(Next(p, run[0]), run[1..]))
  }

  // The counter equals the number of open handles all along the run, and the connection is handed back
  // clean, exactly when no nested begin fails and takes a level of its parent, and no drop is refused when a
  // handle ends.
  lemma {:induction false} DepthCountsHandles(p: Pool, run: seq<Step>)
    requires Inv(p) && DepthIsHandles(p)
    ensures ExactAllAlong(p, run) <==> NothingMiscounts(p, run)
    decreases |run|
  {
    if run != [] {
      EveryStep(p, run[0]);
      if DepthIsHandles(Next(p, run[0])) { DepthCountsHandles(Next(p, run[0]), run[1..]); }
    }
  }

  // ---- What a step does to the data ----

  // The connection stands for this stack, on its loan or back in the shared cell.
  ghost predicate Holds(p: Pool, i: Ideal) {
    match p.loan
    case Some(l) => Refines(l.conn, i)
    case None =>
      && p.shared.Idle? && p.shared.conn.working == i.working && p.shared.conn.committed == i.Committed()
      && (p.shared.conn.begun <==> i.levels != [])
  }

  function Outer(i: Ideal): seq<Data>
    requires i.levels != []
  {
    i.levels[..|i.levels| - 1]
  }

  // The innermost level gone: with its data, or with the snapshot restored.
  function Merged(i: Ideal): Ideal
    requires i.levels != []
  {
    Ideal(Outer(i), i.working)
  }

  function Undone(i: Ideal): Ideal {
    if i.levels == [] then i else Ideal(Outer(i), i.levels[|i.levels| - 1])
  }

  lemma HandedBackHolds(l: Loan, i: Ideal)
    requires Refines(l.conn, i)
    ensures Holds(HandBack(l), i)
  {
  }

  // A handle that ends: its data is kept by a commit that is not refused, undone by a rollback and by the
  // drop after a refused one, and left in place if the drop is refused too.
  lemma EndData(p: Pool, l: Loan, i: Ideal, h: nat, commit: bool, faults: Faults)
    requires p == Pool(Loaned, Some(l)) && !l.streaming && Refines(l.conn, i) && h in l.handles
    ensures var p' := Next(p, End(h, commit, faults));
            && Holds(p', if i.levels == [] then i
                         else if faults.close then if faults.drop then i else Undone(i)
                         else if commit then Merged(i) else Undone(i))
            && (if p'.loan.Some? then p'.loan.value.handles == l.handles - {h} else l.handles == {h})
  {
    var op := if commit then Op.Commit else Op.Rollback;
    CloseRefines(l.conn, i, op, faults);
    var c := CloseHandle(l.conn, op, faults).0;
    HandedBackHolds(l.(conn := c, handles := l.handles - {h}), CloseIdeal(i, op, faults).0);
  }

  lemma DropData(p: Pool, l: Loan, i: Ideal, h: nat, fault: bool)
    requires p == Pool(Loaned, Some(l)) && !l.streaming && Refines(l.conn, i) && h in l.handles
    ensures var p' := Next(p, DropHandle(h, fault));
            && Holds(p', if fault then i else Undone(i))
            && (if p'.loan.Some? then p'.loan.value.handles == l.handles - {h} else l.handles == {h})
  {
    DropRefines(l.conn, i, fault);
    var after := RollBackOpen(l.conn, fault).0;
    HandedBackHolds(l.(conn := after, handles := l.handles - {h}), if fault then i else Undone(i));
  }

  // A nested begin puts a snapshot on the stack; one that fails takes a level of its parent away.
  lemma NestedBeginData(p: Pool, l: Loan, i: Ideal, parent: nat, h: nat, faults: Faults)
    requires p == Pool(Loaned, Some(l)) && !l.streaming && Refines(l.conn, i)
    requires parent in l.handles && h !in l.handles
    ensures var p' := Next(p, BeginNested(parent, h, faults));
            && Holds(p', if !faults.begin then Ideal(i.levels + [i.working], i.working)
                         else if faults.drop then i else Undone(i))
            && p'.loan.Some? && p'.loan.value.handles == l.handles + if faults.begin then {} else {h}
  {
    BeginRefinesAnyway(l.conn, i, faults);
  }

  // A statement on a handle is appended, unless it is refused.
  lemma RunData(p: Pool, l: Loan, i: Ideal, h: nat, sql: Sql, fault: bool)
    requires p == Pool(Loaned, Some(l)) && !l.streaming && Refines(l.conn, i) && h in l.handles
    ensures var p' := Next(p, Step.Run(h, sql, fault));
            && Holds(p', if fault then i else Ideal(i.levels, i.working + [sql]))
            && p'.loan.Some? && p'.loan.value.handles == l.handles
  {
    StepRefines(l.conn, i, Execute(sql), fault);
  }

  // Every other step on a loaned connection does nothing, but for the end of its stream.
  lemma LoanedData(p: Pool, l: Loan, s: Step)
    requires p == Pool(Loaned, Some(l)) && Inv(p)
    ensures s.Direct? || s.OpenStream? || s.Close? || s.BeginOuter? ==> Next(p, s) == p
    ensures (s.Run? || s.End? || s.DropHandle?) && s.handle !in l.handles ==> Next(p, s) == p
    ensures s.BeginNested? && (s.parent !in l.handles || s.handle in l.handles) ==> Next(p, s) == p
    ensures s.CloseStream? ==> Next(p, s) == if l.streaming then Pool(Idle(l.conn.engine), None) else p
  {
  }

  // An idle connection: direct statements commit by themselves, unless it is stranded; a stream or an
  // outermost begin takes it, unless it fails or the connection is stranded; closing it is for good.
  lemma IdleData(e: Engine, s: Step)
    requires Clean(e) || Stranded(e)
    ensures var p := Pool(Idle(e), None);
            var p' := Next(p, s);
            match s
            case Direct(sql, fault) =>
              if fault then p' == p
              else p' == Pool(Idle(Engine(if Clean(e) then e.working + [sql] else e.committed,
                                          e.working + [sql], e.begun, e.saved)), None)
            case OpenStream => p' == Pool(Loaned, Some(Loan(Conn(e, 0), true, {})))
            case Close => p' == Pool(Disconnected, None)
            case BeginOuter(h, faults) =>
              if faults.begin || Stranded(e) then p' == p
              else
                && p'.shared.Loaned? && p'.loan.Some? && !p'.loan.value.streaming && p'.loan.value.handles == {h}
                && Holds(p', Ideal([e.working], e.working))
            case _ => p' == p
  {
    if s.BeginOuter? && Clean(e) {
      assert Refines(Conn(e, 0), Ideal([], e.working));
      BeginRefinesAnyway(Conn(e, 0), Ideal([], e.working), s.faults);
      assert [] + [e.working] == [e.working];
    }
  }

  // One handle, its statements, and its commit: they are committed, in order.
  function RunsOf(h: nat, sqls: seq<Sql>): seq<Step> {
    if sqls == [] then [End(h, true, Faults(false, false, false))]
    else [Step.Run(h, sqls[0], false)] + RunsOf(h, sqls[1..])
  }

  lemma {:induction false} RunsCommit(p: Pool, l: Loan, data: Data, done: Data, h: nat, sqls: seq<Sql>)
    requires p == Pool(Loaned, Some(l)) && !l.streaming && l.handles == {h}
    requires Refines(l.conn, Ideal([data], done))
    ensures RunPool(p, RunsOf(h, sqls)) == Pool(Idle(Engine(done + sqls, done + sqls, false, [])), None)
    decreases |sqls|
  {
    var steps := RunsOf(h, sqls);
    if sqls == [] {
      EndData(p, l, Ideal([data], done), h, true, Faults(false, false, false));
      assert done + sqls == done && steps[1..] == [];
      EndingIsClean(p, l, h, done);
    } else {
      RunData(p, l, Ideal([data], done), h, sqls[0], false);
      var p' := Next(p, steps[0]);
      assert steps[1..] == RunsOf(h, sqls[1..]);
      RunsCommit(p', p'.loan.value, data, done + [sqls[0]], h, sqls[1..]);
      assert (done + [sqls[0]]) + sqls[1..] == done + sqls;
    }
  }

  lemma EndingIsClean(p: Pool, l: Loan, h: nat, done: Data)
    requires p == Pool(Loaned, Some(l)) && !l.streaming && l.handles == {h} && l.conn.depth == 1
    requires Faithful(l.conn) && l.conn.engine.working == done
    ensures Next(p, End(h, true, Faults(false, false, false))) == Pool(Idle(Engine(done, done, false, [])), None)
  {
    var i :| Refines(l.conn, i);
  }

  lemma TransactionCommits(data: Data, h: nat, sqls: seq<Sql>)
    ensures var none := Faults(false, false, false);
            RunPool(Pool(Idle(Engine(data, data, false, [])), None), [BeginOuter(h, none)] + RunsOf(h, sqls)) ==
            Pool(Idle(Engine(data + sqls, data + sqls, false, [])), None)
  {
    var none := Faults(false, false, false);
    var e := Engine(data, data, false, []);
    IdleData(e, BeginOuter(h, none));
    var p := Next(Pool(Idle(e), None), BeginOuter(h, none));
    RunsCommit(p, p.loan.value, data, data, h, sqls);
    assert ([BeginOuter(h, none)] + RunsOf(h, sqls))[1..] == RunsOf(h, sqls);
  }

  // ---- Refused drops ----

  predicate NoDropRefused(run: seq<Step>) {
    forall k :: 0 <= k < |run| ==> !DropRefused(run[k])
  }

  predicate DepthBounded(p: Pool) {
    CellClean(p) && (p.loan.Some? ==> p.loan.value.conn.depth <= |p.loan.value.handles|)
  }

  lemma BoundedEnd(p: Pool, l: Loan, s: Step)
    requires p == Pool(Loaned, Some(l)) && Inv(p) && DepthBounded(p) && Ends(p, s) && !DropRefused(s)
    ensures DepthBounded(Next(p, s))
  {
    EveryStep(p, s);
    HasMember(l.handles, s.handle);
    if s.End? {
      EndingTakesOneLevel(l.conn, Ending(s.commit), s.faults);
    } else {
      DropTakesOneLevel(l.conn, s.fault);
    }
  }

  lemma BoundedBegin(p: Pool, l: Loan, s: Step)
    requires p == Pool(Loaned, Some(l)) && Inv(p) && !l.streaming && DepthBounded(p) && s.BeginNested?
    ensures DepthBounded(Next(p, s))
  {
    if s.parent in l.handles && s.handle !in l.handles {
      HasMember(l.handles, s.parent);
      BeginAddsOneLevel(l.conn, s.faults);
    }
  }

  lemma BoundedStep(p: Pool, s: Step)
    requires Inv(p) && DepthBounded(p) && !DropRefused(s)
    ensures DepthBounded(Next(p, s))
  {
    match p.shared
    case Disconnected =>
    case Idle(e) => EveryStep(p, s); assert DepthIsHandles(p) && !Miscounts(p, s);
    case Loaned =>
      var l := p.loan.value;
      if Ends(p, s) {
        BoundedEnd(p, l, s);
      } else if s.BeginNested? && !l.streaming {
        BoundedBegin(p, l, s);
      } else if s.Run? && s.handle in l.handles {
        ExecuteKeepsLevel(l.conn, s.sql, s.fault);
      } else {
        LoanedData(p, l, s);
      }
  }

  // As long as no drop of an ending handle is refused, whatever begins, statements and closings fail and in
  // whatever order handles close, the connection is always handed back clean.
  lemma {:induction false} CleanWithoutRefusals(p: Pool, run: seq<Step>)
    requires Inv(p) && DepthBounded(p) && NoDropRefused(run)
    ensures CleanAllAlong(p, run)
    decreases |run|
  {
    if run != [] {
      EveryStep(p, run[0]);
      BoundedStep(p, run[0]);
      CleanWithoutRefusals(Next(p, run[0]), run[1..]);
    }
  }

  // With an exact counter, the last handle hands the connection back clean exactly if its drop is not
  // refused.
  lemma LastHandle(p: Pool, s: Step)
    requires Inv(p) && DepthIsHandles(p) && Ends(p, s) && p.loan.value.handles == {s.handle}
    ensures Next(p, s).shared.Idle?
    ensures Clean(Next(p, s).shared.conn) <==> !DropRefused(s)
  {
    EveryStep(p, s);
  }

  // A stranded connection stays so until it is closed: no begin ever succeeds on it again, and nothing that
  // is sent to it is ever committed.
  lemma {:induction false} StrandedForever(p: Pool, run: seq<Step>)
    requires p.shared.Idle? && Stranded(p.shared.conn) && p.loan.None?
    ensures var q := RunPool(p, run);
            && (q.loan.Some? ==> q.loan.value.streaming && q.loan.value.handles == {})
            && (q.shared.Idle? ==> Stranded(q.shared.conn) && q.shared.conn.committed == p.shared.conn.committed)
    decreases |run|
  {
    if run != [] {
      var e, s := p.shared.conn, run[0];
      if s.OpenStream? {
        StrandedStream(e, run[1..]);
      } else if s.Close? {
        ClosedForever(run[1..]);
      } else {
        assert Next(p, s).shared.Idle? && Next(p, s).loan.None?;
        StrandedForever(Next(p, s), run[1..]);
      }
    }
  }

  lemma {:induction false} StrandedStream(e: Engine, run: seq<Step>)
    requires Stranded(e)
    ensures var q := RunPool(Pool(Loaned, Some(Loan(Conn(e, 0), true, {}))), run);
            && (q.loan.Some? ==> q.loan.value.streaming && q.loan.value.handles == {})
            && (q.shared.Idle? ==> Stranded(q.shared.conn) && q.shared.conn.committed == e.committed)
    decreases |run|
  {
    if run != [] {
      if run[0].CloseStream? {
        StrandedForever(Pool(Idle(e), None), run[1..]);
      } else {
        StrandedStream(e, run[1..]);
      }
    }
  }

  lemma {:induction false} ClosedForever(run: seq<Step>)
    ensures RunPool(Pool(Disconnected, None), run) == Pool(Disconnected, None)
    decreases |run|
  {
    if run != [] { ClosedForever(run[1..]); }
  }

  // One handle, one insert, and a drop whose ROLLBACK is refused: the connection comes back inside the
  // transaction with the insert pending, and the next begin on it fails.
  lemma RefusedDropStrands(later: Faults)
    ensures var none := Faults(false, false, false);
            var p := Pool(Idle(Engine([], [], false, [])), None);
            var stranded := Pool(Idle(Engine([], ["INSERT"], true, [])), None);
            && Next(Next(Next(p, BeginOuter(1, none)), Step.Run(1, "INSERT", false)), DropHandle(1, true)) == stranded
            && Next(stranded, BeginOuter(2, later)) == stranded
  {
    var none := Faults(false, false, false);
    var p1 := Next(Pool(Idle(Engine([], [], false, [])), None), BeginOuter(1, none));
    assert p1 == Pool(Loaned, Some(Loan(Conn(Engine([], [], true, []), 1), false, {1})));
    var p2 := Next(p1, Step.Run(1, "INSERT", false));
    assert [] + ["INSERT"] == ["INSERT"];
    assert p2 == Pool(Loaned, Some(Loan(Conn(Engine([], ["INSERT"], true, []), 1), false, {1})));
    assert {1} - {1} == {};
  }

  // While the counter is exact, ending any handle in any order is accepted by the engine.
  lemma EndingNeverRefused(p: Pool, h: nat, commit: bool, drop: bool)
    requires Inv(p) && DepthIsHandles(p) && p.loan.Some? && h in p.loan.value.handles
    ensures CloseHandle(p.loan.value.conn, Ending(commit), Faults(false, false, drop)).1.Worked?
  {
    HasMember(p.loan.value.handles, h);
    EndingTakesOneLevel(p.loan.value.conn, Ending(commit), Faults(false, false, drop));
  }
}
