// The rusqlite driver: the shared cell a connection is loaned out of, and the loaned connection with
// its flat transaction counter.
module Driver {
  import opened Wrappers
  import opened Sqlite

  datatype State = Idle(conn: Engine) | Loaned | Disconnected

  // ---- What each call does, as functions of the connection and its counter ----

  datatype Conn = Conn(engine: Engine, depth: nat)

  // The calls a transaction handle makes on its connection.
  datatype Op = Begin | Commit | Rollback | Execute(sql: Sql)

  // The counter is a u32: below zero it wraps around, and no savepoint has that number, so a commit or
  // rollback at depth 0 is an SQL error. In a build with overflow checks it panics before it sends
  // anything. In both the connection is unchanged.
  function Pred32(depth: nat): nat {
    if depth == 0 then 0xFFFF_FFFF else depth - 1
  }

  function SqlFor(depth: nat, op: Op): Stmt {
    match op
    case Begin => if depth == 0 then BeginTxn else Savepoint(depth)
    case Commit => if depth == 1 then CommitTxn else Release(Pred32(depth))
    case Rollback => if depth == 1 then RollbackTxn else RollbackTo(Pred32(depth))
    case Execute(sql) => Write(sql)
  }

  function DepthAfter(depth: nat, op: Op): nat {
    match op
    case Begin => depth + 1
    case Commit | Rollback => Pred32(depth)
    case Execute(_) => depth
  }

  // `fault` is an error the engine reports on its own account (busy, I/O, constraint).
  function Send(e: Engine, s: Stmt, fault: bool): Option<Engine> {
    if fault then None else Exec(e, s)
  }

  function Apply(c: Conn, op: Op, fault: bool): (Conn, bool) {
    match Send(c.engine, SqlFor(c.depth, op), fault)
    case None => (c, false)
    case Some(e) => (Conn(e, DepthAfter(c.depth, op)), true)
  }

  // What start_rollback does, and whether it succeeds.
  function RollBackOpen(c: Conn, fault: bool): (Conn, bool) {
    if c.depth > 0 then Apply(c, Rollback, fault) else (c, true)
  }

  // ---- acquire: retry until the cell is idle, closed, or the deadline passes ----

  // What one `try_lock` sees.
  datatype Observation = Busy | Poisoned | Holding(state: State)
  datatype Acquired = Ready(conn: Engine) | ConnectionClosed | Timeout

  // `seen` lists what the tries up to and including the one at the deadline observe.
  method Acquire(seen: seq<Observation>) returns (r: Acquired)
    ensures r == Timeout <==> forall i :: 0 <= i < |seen| ==> seen[i] == Busy || seen[i] == Holding(Loaned)
    ensures r != Timeout ==> exists i :: 0 <= i < |seen| && !(seen[i] == Busy || seen[i] == Holding(Loaned))
                                  && (forall j :: 0 <= j < i ==> seen[j] == Busy || seen[j] == Holding(Loaned))
                                  && r == if seen[i].Holding? && seen[i].state.Idle?
                                          then Ready(seen[i].state.conn) else ConnectionClosed
  {
    var i := 0;
    while i < |seen|
      invariant 0 <= i <= |seen|
      invariant forall j :: 0 <= j < i ==> seen[j] == Busy || seen[j] == Holding(Loaned)
    {
      match seen[i] {
        case Holding(Idle(conn)) => return Ready(conn);
        case Holding(Loaned) =>
        case Holding(Disconnected) => return ConnectionClosed;
        case Poisoned => return ConnectionClosed;
        case Busy =>
      }
      i := i + 1;
    }
    return Timeout;
  }

  // ---- The objects ----

  // The cell behind every clone of the shared connection.
  class SharedConnection {
    var state: State

    constructor (conn: Engine)
      ensures state == Idle(conn)
    {
      state := Idle(conn);
    }

    // No other caller touches the cell meanwhile: a loaned connection is a timeout.
    method Loan() returns (r: Acquired, inner: RusqliteInnerConnection?)
      modifies this
      ensures (inner != null) == old(state.Idle?)
      ensures inner == null ==>
        state == old(state) && r == if state == Loaned then Timeout else ConnectionClosed
      ensures inner != null ==>
        && fresh(inner) && inner.home == this && inner.depth == 0
        && state == Loaned && inner.conn == old(state)
    {
      var seen := [Holding(state)];
      r := Acquire(seen);
      assert seen[0] == Holding(state);
      inner := null;
      if r.Ready? {
        inner := new RusqliteInnerConnection(r.conn, this);
        state := Loaned;
      }
    }

    method CloseByRef() returns (r: Acquired)
      modifies this
      ensures r.Ready? <==> old(state.Idle?)
      ensures state == if old(state.Idle?) then Disconnected else old(state)
    {
      var seen := [Holding(state)];
      r := Acquire(seen);
      assert seen[0] == Holding(state);
      if r.Ready? {
        state := Disconnected;
      }
    }
  }

  class RusqliteInnerConnection {
    var conn: State
    const home: SharedConnection
    var depth: nat

    constructor (conn: Engine, home: SharedConnection)
      ensures this.conn == Idle(conn) && this.home == home && depth == 0
    {
      this.conn := Idle(conn);
      this.home := home;
      depth := 0;
    }

    function View(): Conn
      requires conn.Idle?
      reads this
    {
      Conn(conn.conn, depth)
    }

    method ExecuteUnprepared(s: Stmt, fault: bool) returns (ok: bool)
      requires conn.Idle?
      modifies this`conn
      ensures conn.Idle?
      ensures ok == Send(old(conn.conn), s, fault).Some?
      ensures conn.conn == if ok then Send(old(conn.conn), s, fault).value else old(conn.conn)
    {
      match Send(conn.conn, s, fault) {
        case None => ok := false;
        case Some(e) => conn, ok := Idle(e), true;
      }
    }

    method Begin(fault: bool) returns (ok: bool)
      requires conn.Idle?
      modifies this
      ensures conn.Idle? && (View(), ok) == Apply(old(View()), Op.Begin, fault)
    {
      if depth == 0 {
        ok := ExecuteUnprepared(BeginTxn, fault);
      } else {
        ok := ExecuteUnprepared(Savepoint(depth), fault);
      }
      if !ok { return; }
      depth := depth + 1;
    }

    method Commit(fault: bool) returns (ok: bool)
      requires conn.Idle?
      modifies this
      ensures conn.Idle? && (View(), ok) == Apply(old(View()), Op.Commit, fault)
    {
      if depth == 1 {
        ok := ExecuteUnprepared(CommitTxn, fault);
      } else {
        ok := ExecuteUnprepared(Release(Pred32(depth)), fault);
      }
      if !ok { return; }
      depth := Pred32(depth);
    }

    method Rollback(fault: bool) returns (ok: bool)
      requires conn.Idle?
      modifies this
      ensures conn.Idle? && (View(), ok) == Apply(old(View()), Op.Rollback, fault)
    {
      if depth == 1 {
        ok := ExecuteUnprepared(RollbackTxn, fault);
      } else {
        ok := ExecuteUnprepared(RollbackTo(Pred32(depth)), fault);
      }
      if !ok { return; }
      depth := Pred32(depth);
    }

    method StartRollback(fault: bool) returns (ok: bool)
      requires conn.Idle?
      modifies this
      ensures conn.Idle? && (View(), ok) == RollBackOpen(old(View()), fault)
    {
      ok := true;
      if depth > 0 {
        ok := Rollback(fault);
      }
    }

    // Drop: the connection moves back into the shared cell.
    method Return()
      requires conn.Idle?
      modifies this, home
      ensures home.state == old(conn) && conn == Loaned
    {
      home.state := conn;
      conn := Loaned;
    }
  }
}
