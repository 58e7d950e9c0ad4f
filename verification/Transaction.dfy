// Transaction handles, and the callback form of nested transactions built on them.
module Transaction {
  import opened Sqlite
  import opened Driver
  import opened SavepointRefinement

  // ---- What the handle calls do to the connection ----

  // Which of the statements sent on behalf of one handle the engine refuses on its own account: its begin,
  // its commit or rollback, and the rollback of its drop, if there is one.
  datatype Faults = Faults(begin: bool, close: bool, drop: bool)

  // How a call on a handle ends.
  datatype Ended = Worked | Failed | Panics

  // A drop whose rollback is refused panics.
  function DropAfter(c: Conn, fault: bool): (Conn, Ended) {
    var (c', ok) := RollBackOpen(c, fault);
    (c', if ok then Failed else Panics)
  }

  // A handle whose begin fails is dropped while still marked open.
  function BeginHandle(c: Conn, faults: Faults): (Conn, Ended) {
    var (c', ok) := Apply(c, Begin, faults.begin);
    if ok then (c', Worked) else DropAfter(c', faults.drop)
  }

  // A handle whose commit or rollback fails is dropped while still marked open.
  function CloseHandle(c: Conn, op: Op, faults: Faults): (Conn, Ended) {
    var (c', ok) := Apply(c, op, faults.close);
    if ok then (c', Worked) else DropAfter(c', faults.drop)
  }

  class DatabaseTransaction {
    const conn: RusqliteInnerConnection
    var open: bool

    constructor (conn: RusqliteInnerConnection)
      ensures this.conn == conn && open
    {
      this.conn := conn;
      open := true;
    }

    static method Begin(conn: RusqliteInnerConnection, faults: Faults)
      returns (res: DatabaseTransaction?, ended: Ended)
      requires conn.conn.Idle?
      modifies conn
      ensures conn.conn.Idle?
      ensures (conn.View(), ended) == BeginHandle(old(conn.View()), faults)
      ensures (res != null) == ended.Worked?
      ensures res != null ==> fresh(res) && res.conn == conn && res.open
    {
      res := new DatabaseTransaction(conn);
      ended := Worked;
      var ok := conn.Begin(faults.begin);
      if !ok {
        var panics := res.Drop(faults.drop);
        res, ended := null, if panics then Panics else Failed;
      }
    }

    // A rollback that is refused is a panic.
    method Drop(fault: bool) returns (panics: bool)
      requires conn.conn.Idle?
      modifies conn
      ensures conn.conn.Idle?
      ensures (conn.View(), !panics) ==
              if open then RollBackOpen(old(conn.View()), fault) else (old(conn.View()), true)
    {
      panics := false;
      if open {
        var ok := conn.StartRollback(fault);
        panics := !ok;
      }
    }

    method Commit(faults: Faults) returns (ended: Ended)
      requires conn.conn.Idle? && open
      modifies this, conn
      ensures conn.conn.Idle?
      ensures (conn.View(), ended) == CloseHandle(old(conn.View()), Op.Commit, faults)
    {
      var ok := conn.Commit(faults.close);
      if ok {
        open := false;
      }
      var panics := Drop(faults.drop);
      ended := if panics then Panics else if ok then Worked else Failed;
    }

    method Rollback(faults: Faults) returns (ended: Ended)
      requires conn.conn.Idle? && open
      modifies this, conn
      ensures conn.conn.Idle?
      ensures (conn.View(), ended) == CloseHandle(old(conn.View()), Op.Rollback, faults)
    {
      var ok := conn.Rollback(faults.close);
      if ok {
        open := false;
      }
      var panics := Drop(faults.drop);
      ended := if panics then Panics else if ok then Worked else Failed;
    }

    // ---- run: the callback decides, commit or rollback follows ----

    // Runs a callback inside this handle and closes it. A panic of the callback drops the handle, and a
    // second panic while unwinding aborts the process.
    method Run(body: Body, faults: Faults, ghost i: Ideal) returns (r: Outcome)
      requires open && conn.conn.Idle? && Refines(conn.View(), i)
      modifies this, conn
      ensures conn.conn.Idle?
      ensures r == RunFlat(body, faults, i).1 && Refines(conn.View(), RunFlat(body, faults, i).0)
      // A panic that leaves no level restores the snapshot of this one; one that leaves a level, leaves this
      // one with its snapshot.
      ensures BeginsWork(body) && i.levels != [] && r.Panicked? ==>
        if Leaves(body) || !Unwinds(body) then exists data :: Refines(conn.View(), Ideal(i.levels, data))
        else Refines(conn.View(), Ideal(i.levels[..|i.levels| - 1], i.levels[|i.levels| - 1]))
      decreases body, 1
    {
      if BeginsWork(body) && i.levels != [] { RunUnwinding(body, faults, i); }
      ghost var done := Flat(body, i).0;
      r := Callback(body, i);
      label Close:
      if r.Panicked? {
        DropRefines(conn.View(), done, faults.drop);
        var panics := Drop(faults.drop);
        r := if panics then Aborted else Panicked;
      } else if r.Done? {
        var ended := Commit(faults);
        CloseRefines(old@Close(conn.View()), done, Op.Commit, faults);
        r := OutcomeOf(r, ended);
      } else if !r.Aborted? {
        var ended := Rollback(faults);
        CloseRefines(old@Close(conn.View()), done, Op.Rollback, faults);
        r := OutcomeOf(r, ended);
      }
    }

    // The callback itself, on a handle that stays open.
    method Callback(body: Body, ghost i: Ideal) returns (r: Outcome)
      requires open && conn.conn.Idle? && Refines(conn.View(), i)
      modifies conn
      ensures conn.conn.Idle?
      ensures r == Flat(body, i).1 && Refines(conn.View(), Flat(body, i).0)
      decreases body, 0
    {
      match body
      case Return(success) =>
        r := if success then Done else CallbackError;
      case Unwind =>
        r := Panicked;
      case Statement(sql, fault, rest) =>
        StepRefines(conn.View(), i, Op.Execute(sql), fault);
        var _ := conn.ExecuteUnprepared(Write(sql), fault);
        r := Callback(rest, if fault then i else IdealStep(i, Op.Execute(sql)));
      case Nest(inner, faults, swallow, rest) =>
        BeginRefinesAnyway(conn.View(), i, faults);
        var txn, ended := Begin(conn, faults);
        ghost var after := BeginIdeal(i, faults).0;
        r := if ended.Panics? then Panicked else ConnectionError;
        if txn != null {
          r := txn.Run(inner, faults, after);
          after := RunFlat(inner, faults, after).0;
        }
        if r.Panicked? || r.Aborted? { return; }
        if r.Done? || swallow {
          r := Callback(rest, after);
        } else {
          r := CallbackError;
        }
    }
  }

  // ---- Callbacks, and what they mean ----

  // An error of a nested transaction is swallowed or propagated; a panic, of the callback itself or of a
  // drop, always unwinds.
  datatype Body =
    | Return(success: bool)
    | Unwind
    | Statement(sql: Sql, fault: bool, rest: Body)
    | Nest(inner: Body, faults: Faults, swallow: bool, rest: Body)

  // Ok, the callback's own error, an error of begin, commit or rollback, a panic, or a panic during a panic.
  datatype Outcome = Done | CallbackError | ConnectionError | Panicked | Aborted

  // What a transaction returns for how its callback and the statement that closes it end.
  function OutcomeOf(callback: Outcome, closing: Ended): Outcome {
    match closing case Worked => callback case Failed => ConnectionError case Panics => Panicked
  }

  // What a callback should mean: an Ok subtree is kept in its parent, any other leaves nothing behind.
  function Meaning(body: Body, data: Data): (Data, bool) {
    match body
    case Return(success) => (data, success)
    case Unwind => (data, false)
    case Statement(sql, fault, rest) => Meaning(rest, if fault then data else data + [sql])
    case Nest(inner, faults, swallow, rest) =>
      var (kept, success) := Meaning(inner, data);
      if success && !faults.begin && !faults.close then Meaning(rest, kept)
      else if swallow then Meaning(rest, data)
      else (data, false)
  }

  // ---- What a callback does to the stack, failed begins and panics included ----

  // A commit or rollback with no level open is refused.
  function TryStep(i: Ideal, op: Op, fault: bool): (Ideal, bool) {
    if fault || !Enabled(i, op) then (i, false) else (IdealStep(i, op), true)
  }

  // Dropping an open handle takes away whatever level is innermost, unless that is refused.
  function DropIdeal(i: Ideal, fault: bool): (Ideal, Ended) {
    if i.levels == [] then (i, Failed)
    else if fault then (i, Panics)
    else (IdealStep(i, Rollback), Failed)
  }

  function BeginIdeal(i: Ideal, faults: Faults): (Ideal, Ended) {
    if faults.begin then DropIdeal(i, faults.drop) else (IdealStep(i, Begin), Worked)
  }

  function CloseIdeal(i: Ideal, op: Op, faults: Faults): (Ideal, Ended) {
    var (i', ok) := TryStep(i, op, faults.close);
    if ok then (i', Worked) else DropIdeal(i', faults.drop)
  }

  function Flat(body: Body, i: Ideal): (Ideal, Outcome)
    decreases body, 0
  {
    match body
    case Return(success) => (i, if success then Done else CallbackError)
    case Unwind => (i, Panicked)
    case Statement(sql, fault, rest) => Flat(rest, if fault then i else IdealStep(i, Execute(sql)))
    case Nest(inner, faults, swallow, rest) =>
      var (begun, ended) := BeginIdeal(i, faults);
      var (after, r) := if ended.Worked? then RunFlat(inner, faults, begun)
                        else (begun, if ended.Panics? then Panicked else ConnectionError);
      if r.Panicked? || r.Aborted? then (after, r)
      else if r.Done? || swallow then Flat(rest, after)
      else (after, CallbackError)
  }

  function RunFlat(body: Body, faults: Faults, i: Ideal): (Ideal, Outcome)
    decreases body, 1
  {
    var (done, r) := Flat(body, i);
    if r.Aborted? then (done, r)
    else if r.Panicked? then
      var (after, ended) := DropIdeal(done, faults.drop);
      (after, if ended.Panics? then Aborted else Panicked)
    else
      var (after, ended) := CloseIdeal(done, if r.Done? then Commit else Rollback, faults);
      (after, OutcomeOf(r, ended))
  }

  lemma AnyStepRefines(c: Conn, i: Ideal, op: Op, fault: bool)
    requires Refines(c, i)
    ensures var (c', ok) := Apply(c, op, fault);
            var (i', done) := TryStep(i, op, fault);
            ok == done && Refines(c', i')
  {
    if Enabled(i, op) { StepRefines(c, i, op, fault); }
  }

  lemma DropRefines(c: Conn, i: Ideal, fault: bool)
    requires Refines(c, i)
    ensures var (c', ended) := DropAfter(c, fault);
            ended == DropIdeal(i, fault).1 && Refines(c', DropIdeal(i, fault).0)
  {
    if i.levels != [] { StepRefines(c, i, Rollback, fault); }
  }

  lemma BeginRefinesAnyway(c: Conn, i: Ideal, faults: Faults)
    requires Refines(c, i)
    ensures var (c', ended) := BeginHandle(c, faults);
            ended == BeginIdeal(i, faults).1 && Refines(c', BeginIdeal(i, faults).0)
  {
    StepRefines(c, i, Begin, faults.begin);
    DropRefines(c, i, faults.drop);
  }

  // Closing a handle takes the innermost level away: it is kept if the commit succeeds and undone
  // otherwise. The exceptions are that there is none, which is an error, and that both the closing
  // statement and the rollback of the drop are refused, which leaves everything as it was and panics.
  lemma CloseRefines(c: Conn, i: Ideal, op: Op, faults: Faults)
    requires Refines(c, i) && (op.Commit? || op.Rollback?)
    ensures var (c', ended) := CloseHandle(c, op, faults);
            && ended == CloseIdeal(i, op, faults).1 && Refines(c', CloseIdeal(i, op, faults).0)
            && if i.levels == [] then ended.Failed? && Refines(c', i)
               else if faults.close && faults.drop then ended.Panics? && Refines(c', i)
               else
                 && (if faults.close then ended.Failed? else ended.Worked?)
                 && Refines(c', Closed(i, if op.Commit? && !faults.close then i.working
                                          else i.levels[|i.levels| - 1]))
  {
    AnyStepRefines(c, i, op, faults.close);
    DropRefines(c, i, faults.drop);
  }

  function Closed(i: Ideal, data: Data): Ideal
    requires i.levels != []
  {
    Ideal(i.levels[..|i.levels| - 1], data)
  }

  // ---- When the stack does what the callback means ----

  // The handle of a transaction that begins is closed, by its closing statement or by its drop.
  predicate Closes(faults: Faults) { !(faults.close && faults.drop) }

  // No begin that is reached fails, and neither a closing that is reached nor the callback panics.
  predicate Orderly(body: Body) {
    match body
    case Return(_) => true
    case Unwind => false
    case Statement(_, _, rest) => Orderly(rest)
    case Nest(inner, faults, swallow, rest) =>
      && !faults.begin && Orderly(inner) && Closes(faults)
      && ((Succeeds(inner) && !faults.close) || swallow ==> Orderly(rest))
  }

  function Told(success: bool): Outcome { if success then Done else CallbackError }

  // Then the levels are left as they were, and the contents are the meaning of the callback.
  lemma {:induction false} FlatIsMeaning(body: Body, i: Ideal)
    requires Orderly(body)
    ensures var (kept, success) := Meaning(body, i.working);
            Flat(body, i) == (Ideal(i.levels, kept), Told(success))
    decreases body, 0
  {
    match body
    case Return(_) =>
    case Unwind =>
    case Statement(sql, fault, rest) => FlatIsMeaning(rest, if fault then i else IdealStep(i, Execute(sql)));
    case Nest(inner, faults, swallow, rest) =>
      RunIsMeaning(inner, faults, i);
      MeaningIsKept(inner, i.working);
      var (after, r) := RunFlat(inner, faults, IdealStep(i, Begin));
      if r.Done? || swallow { FlatIsMeaning(rest, after); }
  }

  // A whole transaction around it keeps the meaning or undoes it; or it panics and leaves its level, with
  // everything the callback did, on the stack.
  lemma {:induction false} RunIsMeaning(body: Body, faults: Faults, i: Ideal)
    requires Orderly(body)
    ensures var (kept, success) := Meaning(body, i.working);
            RunFlat(body, faults, IdealStep(i, Begin)) ==
            if !Closes(faults) then (Ideal(i.levels + [i.working], kept), Panicked)
            else if faults.close then (i, ConnectionError)
            else (Ideal(i.levels, if success then kept else i.working), Told(success))
    decreases body, 1
  {
    var begun := IdealStep(i, Begin);
    FlatIsMeaning(body, begun);
    assert begun.levels[..|begun.levels| - 1] == i.levels;
  }

  predicate Returned(r: Outcome) { !r.Panicked? && !r.Aborted? }

  lemma ClosingTakesOne(i: Ideal, op: Op, faults: Faults)
    requires op.Commit? || op.Rollback?
    ensures var (i', ended) := CloseIdeal(i, op, faults);
            && (i.levels == [] ==> i' == i && ended.Failed?)
            && (i.levels != [] && !Closes(faults) ==> i' == i && ended.Panics?)
            && (i.levels != [] && Closes(faults) ==>
                  |i'.levels| == |i.levels| - 1 && if faults.close then ended.Failed? else ended.Worked?)
  {
  }

  // A callback that returns leaves no more levels than it found, and one that panics at most one more.
  lemma {:induction false} LevelsBounded(body: Body, i: Ideal)
    ensures var (after, r) := Flat(body, i);
            && (Returned(r) ==> |after.levels| <= |i.levels|)
            && (r.Panicked? ==> |after.levels| <= |i.levels| + 1)
    decreases body, 0
  {
    match body
    case Return(_) =>
    case Unwind =>
    case Statement(sql, fault, rest) => LevelsBounded(rest, if fault then i else IdealStep(i, Execute(sql)));
    case Nest(inner, faults, swallow, rest) =>
      var (begun, ended) := BeginIdeal(i, faults);
      if ended.Worked? {
        RunLevelsBounded(inner, faults, i);
        LevelsBounded(rest, RunFlat(inner, faults, begun).0);
      } else {
        LevelsBounded(rest, begun);
      }
  }

  lemma {:induction false} RunLevelsBounded(body: Body, faults: Faults, i: Ideal)
    ensures var (after, r) := RunFlat(body, faults, IdealStep(i, Begin));
            && (Returned(r) ==> |after.levels| <= |i.levels|)
            && (r.Panicked? ==> |after.levels| <= |i.levels| + 1)
    decreases body, 1
  {
    var begun := IdealStep(i, Begin);
    LevelsBounded(body, begun);
    var (done, r) := Flat(body, begun);
    ClosingTakesOne(done, if r.Done? then Commit else Rollback, faults);
  }

  // Inside a transaction a callback returns with as many levels as it found exactly if no begin that it
  // reaches fails and nothing panics: every other failed begin costs the enclosing transactions a level
  // that nothing gives back.
  lemma {:induction false} LevelsKept(body: Body, i: Ideal)
    requires i.levels != []
    ensures var (after, r) := Flat(body, i);
            Returned(r) && |after.levels| == |i.levels| <==> Orderly(body)
    decreases body
  {
    match body
    case Return(_) =>
    case Unwind =>
    case Statement(sql, fault, rest) => LevelsKept(rest, if fault then i else IdealStep(i, Execute(sql)));
    case Nest(inner, faults, swallow, rest) =>
      var (begun, ended) := BeginIdeal(i, faults);
      if !ended.Worked? {
        LevelsBounded(rest, begun);
      } else {
        var (done, r) := Flat(inner, begun);
        LevelsKept(inner, begun);
        LevelsBounded(inner, begun);
        ClosingTakesOne(done, if r.Done? then Commit else Rollback, faults);
        var after := RunFlat(inner, faults, begun).0;
        if Orderly(inner) {
          FlatIsMeaning(inner, begun);
          MeaningIsKept(inner, i.working);
          if Closes(faults) { LevelsKept(rest, after); }
        } else {
          LevelsBounded(rest, after);
        }
      }
  }

  // ---- What a panic leaves behind ----

  // Control goes on after this nested transaction, if it does not panic.
  predicate GoesOn(inner: Body, faults: Faults, swallow: bool) {
    (Succeeds(inner) && !faults.close) || swallow
  }

  // If its begins work, a callback unwinds, because it panics or because a drop is refused after a refused
  // closing;
  predicate Unwinds(body: Body) {
    match body
    case Return(_) => false
    case Unwind => true
    case Statement(_, _, rest) => Unwinds(rest)
    case Nest(inner, faults, swallow, rest) =>
      Unwinds(inner) || !Closes(faults) || (GoesOn(inner, faults, swallow) && Unwinds(rest))
  }

  // it aborts the process, because a drop is refused while it unwinds;
  predicate Aborts(body: Body) {
    match body
    case Return(_) | Unwind => false
    case Statement(_, _, rest) => Aborts(rest)
    case Nest(inner, faults, swallow, rest) =>
      if Unwinds(inner) then Aborts(inner) || faults.drop
      else Closes(faults) && GoesOn(inner, faults, swallow) && Aborts(rest)
  }

  // and it leaves a level, because it unwinds for a refused drop.
  predicate Leaves(body: Body) {
    match body
    case Return(_) | Unwind => false
    case Statement(_, _, rest) => Leaves(rest)
    case Nest(inner, faults, swallow, rest) =>
      if Unwinds(inner) then Leaves(inner)
      else !Closes(faults) || (GoesOn(inner, faults, swallow) && Leaves(rest))
  }

  // No begin that is reached fails.
  predicate BeginsWork(body: Body) {
    match body
    case Return(_) | Unwind => true
    case Statement(_, _, rest) => BeginsWork(rest)
    case Nest(inner, faults, swallow, rest) =>
      && !faults.begin && BeginsWork(inner)
      && (!Unwinds(inner) && Closes(faults) && GoesOn(inner, faults, swallow) ==> BeginsWork(rest))
  }

  lemma {:induction false} OrderlyIsQuiet(body: Body)
    ensures Orderly(body) <==> BeginsWork(body) && !Unwinds(body)
  {
    match body
    case Return(_) =>
    case Unwind =>
    case Statement(_, _, rest) => OrderlyIsQuiet(rest);
    case Nest(inner, _, _, rest) => OrderlyIsQuiet(inner); OrderlyIsQuiet(rest);
  }

  // If its begins work a callback never touches an older snapshot, however it ends, and it leaves a level on
  // top of them exactly if it unwinds for a refused drop.
  lemma {:induction false} CallbackUnwinding(body: Body, i: Ideal)
    requires BeginsWork(body)
    ensures var (after, r) := Flat(body, i);
            && (r.Aborted? <==> Aborts(body))
            && (r.Panicked? <==> Unwinds(body) && !Aborts(body))
            && (Returned(r) ==> r == Told(Succeeds(body)) && after.levels == i.levels)
            && |i.levels| <= |after.levels| && after.levels[..|i.levels|] == i.levels
            && (r.Panicked? ==> |after.levels| == |i.levels| + if Leaves(body) then 1 else 0)
    decreases body, 0
  {
    match body
    case Return(_) =>
    case Unwind =>
    case Statement(sql, fault, rest) => CallbackUnwinding(rest, if fault then i else IdealStep(i, Execute(sql)));
    case Nest(inner, faults, swallow, rest) =>
      var begun := IdealStep(i, Begin);
      RunUnwinding(inner, faults, begun);
      var (after, r) := RunFlat(inner, faults, begun);
      assert begun.levels[..|i.levels|] == i.levels;
      if Returned(r) && (r.Done? || swallow) { CallbackUnwinding(rest, after); }
  }

  // A transaction whose callback panics is undone: the snapshot of its own level is restored and the level
  // is gone, unless a level is left, its own or, after a refused drop inside, its own under what is done.
  lemma {:induction false} RunUnwinding(body: Body, faults: Faults, i: Ideal)
    requires BeginsWork(body) && i.levels != []
    ensures var (after, r) := RunFlat(body, faults, i);
            var outer, snapshot := i.levels[..|i.levels| - 1], i.levels[|i.levels| - 1];
            && (r.Aborted? <==> if Unwinds(body) then Aborts(body) || faults.drop else false)
            && (r.Panicked? <==> !r.Aborted? && (Unwinds(body) || !Closes(faults)))
            && (Returned(r) ==>
                  && r == (if faults.close then ConnectionError else Told(Succeeds(body)))
                  && after.levels == outer)
            && |outer| <= |after.levels| && after.levels[..|outer|] == outer
            && (r.Panicked? ==> if Leaves(body) || !Unwinds(body) then after.levels == i.levels
                                else after == Ideal(outer, snapshot))
    decreases body, 1
  {
    CallbackUnwinding(body, i);
    AbortsUnwinding(body);
    var (done, r) := Flat(body, i);
    assert done.levels[..|i.levels|][..|i.levels| - 1] == i.levels[..|i.levels| - 1];
    if r.Panicked? && Leaves(body) {
      assert done.levels[..|done.levels| - 1] == i.levels;
    }
  }

  lemma {:induction false} AbortsUnwinding(body: Body)
    ensures Aborts(body) ==> Unwinds(body)
  {
    match body
    case Return(_) =>
    case Unwind =>
    case Statement(_, _, rest) => AbortsUnwinding(rest);
    case Nest(_, _, _, rest) => AbortsUnwinding(rest);
  }

  // A transaction is all or nothing, and told so, at the outermost level exactly under that condition.
  lemma AllOrNothing(body: Body, data: Data, drop: bool)
    ensures RunFlat(body, Faults(false, false, drop), IdealStep(Ideal([], data), Begin)) ==
            (Ideal([], if Succeeds(body) then data + Kept(body) else data), Told(Succeeds(body)))
            <==> Orderly(body)
  {
    var faults, i := Faults(false, false, drop), Ideal([], data);
    var begun := IdealStep(i, Begin);
    MeaningIsKept(body, data);
    LevelsKept(body, begun);
    LevelsBounded(body, begun);
    if Orderly(body) { RunIsMeaning(body, faults, i); }
  }

  predicate Clean(e: Engine) { e.Autocommit() && e.working == e.committed }

  // What an outermost transaction around a callback does to an idle connection.
  function Outermost(body: Body, faults: Faults, data: Data): (Ideal, Outcome) {
    var i := Ideal([], data);
    if faults.begin then (i, ConnectionError) else RunFlat(body, faults, IdealStep(i, Begin))
  }

  // Unless it panics no level is left, and if it panics at most one; around an orderly callback one is left
  // exactly if both the closing statement and the rollback of the drop are refused. Ok is only ever told of
  // an orderly callback.
  lemma OutermostLevels(body: Body, faults: Faults, data: Data)
    ensures var (after, r) := Outermost(body, faults, data);
            && (Returned(r) ==> after.levels == [])
            && (r.Panicked? ==> |after.levels| <= 1)
            && (Orderly(body) ==> (after.levels == [] <==> faults.begin || Closes(faults)))
            && (r.Done? ==> Orderly(body) && !faults.begin && !faults.close)
  {
    var begun := IdealStep(Ideal([], data), Begin);
    var (done, r) := Flat(body, begun);
    LevelsBounded(body, begun);
    LevelsKept(body, begun);
    RunLevelsBounded(body, faults, Ideal([], data));
    ClosingTakesOne(done, if r.Done? then Commit else Rollback, faults);
    if Orderly(body) { RunIsMeaning(body, faults, Ideal([], data)); }
  }

  lemma OutermostMeaning(body: Body, faults: Faults, data: Data)
    ensures Orderly(body) && Closes(faults) ==>
      var (after, r) := Outermost(body, faults, data);
      && after == Ideal([], if r.Done? then data + Kept(body) else data)
      && r == if faults.begin || faults.close then ConnectionError else Told(Succeeds(body))
  {
    MeaningIsKept(body, data);
    if Orderly(body) { RunIsMeaning(body, faults, Ideal([], data)); }
  }

  // A panic commits nothing, unless a begin that is reached fails.
  lemma OutermostPanic(body: Body, faults: Faults, data: Data)
    requires BeginsWork(body)
    ensures var (after, r) := Outermost(body, faults, data);
            && (r.Aborted? <==> !faults.begin && (Aborts(body) || (Unwinds(body) && faults.drop)))
            && (r.Panicked? ==>
                  && after.Committed() == data
                  && if Leaves(body) || !Unwinds(body) then after.levels != [] else after == Ideal([], data))
  {
    AbortsUnwinding(body);
    RunUnwinding(body, faults, IdealStep(Ideal([], data), Begin));
  }

  // What is handed back.
  lemma EngineOf(c: Conn, i: Ideal)
    requires Refines(c, i)
    ensures c.engine.working == i.working && c.engine.committed == i.Committed()
    ensures if i.levels == [] then c.engine == Engine(i.working, i.working, false, []) else !c.engine.Autocommit()
  {
  }

  // The outermost form: loan the connection, begin, run, and hand the connection back, by unwinding if the
  // callback or a drop panics. The contents are those of the stack. Unless it panics, the connection comes
  // back in autocommit mode with nothing uncommitted; if it panics, exactly if no level is left on the
  // stack. A connection that was handed back inside a transaction is refused and stays as it is.
  method RunOutermost(shared: SharedConnection, body: Body, faults: Faults) returns (r: Outcome)
    requires shared.state.Idle? && shared.state.conn.Autocommit() ==> Clean(shared.state.conn)
    modifies shared
    ensures !old(shared.state.Idle?) || !old(shared.state.conn.Autocommit()) ==>
      r == ConnectionError && shared.state == old(shared.state)
    ensures old(shared.state.Idle?) && old(shared.state.conn.Autocommit()) ==>
      var (after, outcome) := Outermost(body, faults, old(shared.state.conn.committed));
      && r == outcome
      && if r.Aborted? then shared.state == Loaned
         else
           && shared.state.Idle?
           && shared.state.conn.working == after.working && shared.state.conn.committed == after.Committed()
           && (Clean(shared.state.conn) <==> after.levels == [])
           && (Returned(r) ==> Clean(shared.state.conn))
    ensures old(shared.state.Idle?) && old(shared.state.conn.Autocommit()) && Orderly(body) && Closes(faults) ==>
      var before := old(shared.state.conn.committed);
      var after := if r.Done? then before + Kept(body) else before;
      && r == (if faults.begin || faults.close then ConnectionError else Told(Succeeds(body)))
      && shared.state == Idle(Engine(after, after, false, []))
    // A panic commits nothing, unless a begin that is reached fails, and without a level left the connection is
    // as it was.
    ensures old(shared.state.Idle?) && old(shared.state.conn.Autocommit()) && BeginsWork(body) && r.Panicked? ==>
      && shared.state.conn.committed == old(shared.state.conn.committed)
      && if Leaves(body) || !Unwinds(body) then !shared.state.conn.Autocommit()
         else shared.state == old(shared.state)
    ensures old(shared.state.Idle?) && old(shared.state.conn.Autocommit()) && BeginsWork(body) && !faults.begin ==>
      (r.Aborted? <==> Aborts(body) || (Unwinds(body) && faults.drop))
    ensures r.Done? ==>
      && old(shared.state.Idle?) && Orderly(body)
      && var after := old(shared.state.conn.committed) + Kept(body);
         shared.state == Idle(Engine(after, after, false, []))
  {
    var _, inner := shared.Loan();
    if inner == null { return ConnectionError; }
    ghost var i := Ideal([], inner.conn.conn.committed);
    ghost var idle := inner.conn.conn.Autocommit();
    if idle { BeginRefinesAnyway(inner.View(), i, faults); }
    var txn, _ := DatabaseTransaction.Begin(inner, faults);
    r := ConnectionError;
    if txn != null {
      OutermostLevels(body, faults, i.working);
      OutermostMeaning(body, faults, i.working);
      if BeginsWork(body) { OutermostPanic(body, faults, i.working); }
      r := txn.Run(body, faults, IdealStep(i, Begin));
      EngineOf(inner.View(), Outermost(body, faults, i.working).0);
    }
    if r.Aborted? { return; }
    inner.Return();
  }

  // ---- The meaning, independently: which statements survive ----

  // The statements of the subtrees whose every enclosing transaction, up to this one, is kept.
  function Kept(body: Body): seq<Sql> {
    match body
    case Return(_) | Unwind => []
    case Statement(sql, fault, rest) => (if fault then [] else [sql]) + Kept(rest)
    case Nest(inner, faults, swallow, rest) =>
      if Succeeds(inner) && !faults.begin && !faults.close then Kept(inner) + Kept(rest)
      else if swallow then Kept(rest)
      else []
  }

  predicate Succeeds(body: Body) {
    match body
    case Return(success) => success
    case Unwind => false
    case Statement(_, _, rest) => Succeeds(rest)
    case Nest(inner, faults, swallow, rest) =>
      ((Succeeds(inner) && !faults.begin && !faults.close) || swallow) && Succeeds(rest)
  }

  // A callback only ever appends, in program order, exactly the surviving statements, and whether it
  // succeeds does not depend on the data.
  lemma {:induction false} MeaningIsKept(body: Body, data: Data)
    ensures Meaning(body, data) == (data + Kept(body), Succeeds(body))
  {
    assert data + [] == data;
    match body
    case Return(_) =>
    case Unwind =>
    case Statement(sql, fault, rest) =>
      var next := if fault then data else data + [sql];
      MeaningIsKept(rest, next);
      assert next + Kept(rest) == data + Kept(body);
    case Nest(inner, faults, swallow, rest) =>
      MeaningIsKept(inner, data);
      MeaningIsKept(rest, data);
      MeaningIsKept(rest, data + Kept(inner));
      assert (data + Kept(inner)) + Kept(rest) == data + (Kept(inner) + Kept(rest));
  }

  // ---- A begin that fails ----

  // begin returns Err only after dropping a handle that never opened a level, and the drop rolls back
  // whatever level is innermost. So a failed begin returns and leaves the connection as it was exactly at
  // depth 0. Above, it rolls back the parent's level, or panics if that is refused.
  lemma FailedBegin(c: Conn, i: Ideal, drop: bool)
    requires Refines(c, i)
    ensures var (c', ended) := BeginHandle(c, Faults(true, false, drop));
            && (c' == c && ended.Failed? <==> c.depth == 0)
            && (c.depth > 0 ==>
                  if drop then c' == c && ended.Panics? else Refines(c', IdealStep(i, Rollback)) && ended.Failed?)
  {
    StepRefines(c, i, Begin, true);
    DropRefines(c, i, drop);
  }

  // A concrete run: BEGIN, one insert, a nested begin that fails, then the parent's commit. The insert
  // is lost and the commit reports an error, although nothing was wrong with the parent.
  lemma FailedBeginLosesParentWrites()
    ensures var c1 := BeginHandle(Conn(Engine([], [], false, []), 0), Faults(false, false, false)).0;
            var c2 := Apply(c1, Execute("INSERT"), false).0;
            var c3 := BeginHandle(c2, Faults(true, false, false)).0;
            var (c4, ended) := CloseHandle(c3, Commit, Faults(false, false, false));
            c2.engine.working == ["INSERT"] && c4.engine == Engine([], [], false, []) && ended.Failed?
  {
    var c1 := BeginHandle(Conn(Engine([], [], false, []), 0), Faults(false, false, false)).0;
    assert c1 == Conn(Engine([], [], true, []), 1);
    var c2 := Apply(c1, Execute("INSERT"), false).0;
    assert c2 == Conn(Engine([], ["INSERT"], true, []), 1);
    var c3 := BeginHandle(c2, Faults(true, false, false)).0;
    assert c3 == Conn(Engine([], [], false, []), 0);
  }

  // A callback that inserts A, swallows a nested begin that fails, and inserts B: the caller sees an error,
  // A is lost and B is committed, because it ran outside of any transaction.
  lemma FailedBeginCommitsLaterWrites()
    ensures var last := Statement("B", false, Return(true));
            var body := Statement("A", false, Nest(Return(true), Faults(true, false, false), true, last));
            && Outermost(body, Faults(false, false, false), []) == (Ideal([], ["B"]), ConnectionError)
            && Meaning(body, []) == (["A", "B"], true)
  {
    var last, fails := Statement("B", false, Return(true)), Faults(true, false, false);
    var i := IdealStep(Ideal([], []), Begin);
    var i1 := IdealStep(i, Execute("A"));
    assert BeginIdeal(i1, fails).0 == Ideal([], []);
    assert [] + ["B"] == ["B"] && [] + ["A"] == ["A"] && ["A"] + ["B"] == ["A", "B"];
    assert Flat(last, Ideal([], [])) == Flat(Return(true), Ideal([], ["B"])) == (Ideal([], ["B"]), Done);
    assert Meaning(last, ["A"]) == Meaning(Return(true), ["A", "B"]);
    assert Flat(Nest(Return(true), fails, true, last), i1) == (Ideal([], ["B"]), Done);
    assert Flat(Statement("A", false, Nest(Return(true), fails, true, last)), i) == (Ideal([], ["B"]), Done);
  }

  // A callback that inserts and panics, in a transaction whose drop works: the insert is gone.
  lemma PanicUndoes()
    ensures Outermost(Statement("A", false, Unwind), Faults(false, false, false), []) == (Ideal([], []), Panicked)
  {
    RunUnwinding(Statement("A", false, Unwind), Faults(false, false, false), IdealStep(Ideal([], []), Begin));
  }
}
