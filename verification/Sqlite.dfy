// The part of SQLite that the rusqlite driver relies on: one connection with a committed state, a
// working state and the savepoint stack described in SQLite's documentation of SAVEPOINT
// (lang_savepoint). Contents are the list of write statements in effect, so an equality of contents
// here holds under every interpretation of those statements.
module Sqlite {
  import opened Wrappers

  type Sql = string
  type Data = seq<Sql>

  // A savepoint name `spN` is represented by its number N.
  datatype Stmt =
    | BeginTxn | CommitTxn | RollbackTxn
    | Savepoint(n: nat) | Release(n: nat) | RollbackTo(n: nat)
    | Write(sql: Sql)

  datatype Entry = Entry(name: nat, snapshot: Data)

  datatype Engine = Engine(committed: Data, working: Data, begun: bool, saved: seq<Entry>) {
    // Outside a transaction every statement commits by itself.
    predicate Autocommit() { !begun && saved == [] }
  }

  // The position of the most recent savepoint with this name, or -1.
  function MostRecent(saved: seq<Entry>, name: nat): (i: int)
    ensures -1 <= i < |saved|
    ensures i >= 0 ==> saved[i].name == name
    ensures forall j :: i < j < |saved| ==> saved[j].name != name
  {
    if saved == [] then -1
    else if saved[|saved| - 1].name == name then |saved| - 1
    else MostRecent(saved[..|saved| - 1], name)
  }

  // One statement; None is an SQL error, which leaves the connection as it was.
  function Exec(e: Engine, s: Stmt): Option<Engine> {
    match s
    case BeginTxn =>
      if e.Autocommit() then Some(e.(begun := true)) else None
    case CommitTxn =>
      if e.Autocommit() then None else Some(Engine(e.working, e.working, false, []))
    case RollbackTxn =>
      if e.Autocommit() then None else Some(Engine(e.committed, e.committed, false, []))
    case Savepoint(n) =>
      Some(e.(saved := e.saved + [Entry(n, e.working)]))
    case Release(n) =>
      var i := MostRecent(e.saved, n);
      if i < 0 then None
      else if i == 0 && !e.begun then Some(Engine(e.working, e.working, false, []))
      else Some(e.(saved := e.saved[..i]))
    case RollbackTo(n) =>
      // The named savepoint itself stays on the stack.
      var i := MostRecent(e.saved, n);
      if i < 0 then None
      else Some(e.(working := e.saved[i].snapshot, saved := e.saved[..i + 1]))
    case Write(sql) =>
      var data := e.working + [sql];
      Some(e.(working := data, committed := if e.Autocommit() then data else e.committed))
  }
}
