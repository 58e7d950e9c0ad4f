// Many-to-many links: reconciling a junction table with a requested list of related keys.
module EstablishLinks {
  import opened Wrappers

  type Key = int

  // The junction's columns: a generated id, the two foreign keys, and any other data.
  datatype Column = Id | Left | Right | Note
  datatype Row = Row(id: nat, left: Key, right: Key, note: int)

  const DEFAULT_NOTE := 0

  // The primary key of a row: the row with every other column blanked.
  function PkOf(pk: set<Column>, row: Row): Row {
    Row(if Id in pk then row.id else 0, if Left in pk then row.left else 0,
        if Right in pk then row.right else 0, if Note in pk then row.note else 0)
  }

  // Two rows have one key exactly if they agree on its columns.
  lemma SameKey(pk: set<Column>, a: Row, b: Row)
    ensures PkOf(pk, a) == PkOf(pk, b) <==>
      && (Id in pk ==> a.id == b.id) && (Left in pk ==> a.left == b.left)
      && (Right in pk ==> a.right == b.right) && (Note in pk ==> a.note == b.note)
  {
  }

  // Rows by primary key. `next` is the next generated id.
  datatype Table = Table(rows: map<Row, Row>, next: nat)

  ghost predicate Keyed(pk: set<Column>, t: Table) {
    forall k :: k in t.rows ==> k == PkOf(pk, t.rows[k]) && (Id in pk ==> t.rows[k].id < t.next)
  }

  predicate PairInPk(pk: set<Column>) {
    Left in pk && Right in pk
  }

  // A key that tells any two linked pairs apart.
  predicate JunctionKey(pk: set<Column>) {
    PairInPk(pk) || Id in pk
  }

  // ---- Statements on the junction table ----

  function NewRow(pk: set<Column>, id: nat, left: Key, right: Key): Row {
    Row(if Id in pk then id else 0, left, right, DEFAULT_NOTE)
  }

  // INSERT .. ON CONFLICT (primary key) DO NOTHING, one row.
  function InsertOne(pk: set<Column>, t: Table, left: Key, right: Key): Table {
    var row := NewRow(pk, t.next, left, right);
    Table(if PkOf(pk, row) in t.rows then t.rows else t.rows[PkOf(pk, row) := row], t.next + 1)
  }

  function InsertEach(pk: set<Column>, t: Table, left: Key, rights: seq<Key>): Table
    decreases |rights|
  {
    if rights == [] then t else InsertEach(pk, InsertOne(pk, t, left, rights[0]), left, rights[1..])
  }

  // The same with many rows in one statement: of proposed rows with one key the first wins, and an
  // existing row wins over all of them.
  function Proposed(pk: set<Column>, next: nat, left: Key, rights: seq<Key>): map<Row, Row>
    decreases |rights|
  {
    if rights == [] then map[]
    else
      var row := NewRow(pk, next, left, rights[0]);
      Proposed(pk, next + 1, left, rights[1..]) + map[PkOf(pk, row) := row]
  }

  function InsertMany(pk: set<Column>, t: Table, left: Key, rights: seq<Key>): Table {
    Table(Proposed(pk, t.next, left, rights) + t.rows, t.next + |rights|)
  }

  // The row already there wins, the next proposed one after it.
  lemma ExistingWins(later: map<Row, Row>, k: Row, row: Row, rows: map<Row, Row>)
    ensures (later + map[k := row]) + rows == later + (if k in rows then rows else rows[k := row])
  {
  }

  lemma {:induction false} ManyIsEach(pk: set<Column>, t: Table, left: Key, rights: seq<Key>)
    ensures InsertMany(pk, t, left, rights) == InsertEach(pk, t, left, rights)
    decreases |rights|
  {
    if rights == [] {
      assert map[] + t.rows == t.rows;
    } else {
      ManyIsEach(pk, InsertOne(pk, t, left, rights[0]), left, rights[1..]);
      var row := NewRow(pk, t.next, left, rights[0]);
      ExistingWins(Proposed(pk, t.next + 1, left, rights[1..]), PkOf(pk, row), row, t.rows);
    }
  }

  // Without RETURNING the executor unpacks the key of an inserted row from its last insert id, unless all
  // key columns were given, as a derived composite key is not auto-increment. Otherwise a composite key
  // cannot be unpacked. MySQL reports an id of 0 for a row without a generated column, which counts as not
  // inserted.
  predicate Unpackable(pk: set<Column>, mysql: bool) {
    pk <= {Left, Right} || pk == {Id} || (mysql && Id !in pk)
  }

  // Row by row: an inserted row whose key cannot be unpacked is an error, after it was inserted.
  function InsertSingly(pk: set<Column>, t: Table, left: Key, rights: seq<Key>, mysql: bool): (Table, bool)
    decreases |rights|
  {
    if rights == [] then (t, true)
    else
      var t' := InsertOne(pk, t, left, rights[0]);
      if t'.rows != t.rows && !Unpackable(pk, mysql) then (t', false)
      else InsertSingly(pk, t', left, rights[1..], mysql)
  }

  lemma {:induction false} InsertNext(pk: set<Column>, t: Table, left: Key, rights: seq<Key>, n: nat)
    requires n < |rights|
    ensures InsertEach(pk, t, left, rights[..n + 1]) ==
            InsertOne(pk, InsertEach(pk, t, left, rights[..n]), left, rights[n])
    decreases n
  {
    if n == 0 {
      assert rights[..1] == [rights[0]] && [rights[0]][1..] == [];
    } else {
      assert rights[..n + 1][1..] == rights[1..][..n] && rights[..n][1..] == rights[1..][..n - 1];
      InsertNext(pk, InsertOne(pk, t, left, rights[0]), left, rights[1..], n - 1);
    }
  }

  lemma {:induction false} InsertsOnlyAdd(pk: set<Column>, t: Table, left: Key, rights: seq<Key>)
    ensures forall k :: k in t.rows ==> k in InsertEach(pk, t, left, rights).rows
    decreases |rights|
  {
    if rights != [] { InsertsOnlyAdd(pk, InsertOne(pk, t, left, rights[0]), left, rights[1..]); }
  }

  // It gets through exactly if the key can be unpacked or every row conflicts, and then all are inserted.
  lemma {:induction false} SinglyIsEach(pk: set<Column>, t: Table, left: Key, rights: seq<Key>, mysql: bool)
    ensures var (t', done) := InsertSingly(pk, t, left, rights, mysql);
            && (done <==> Unpackable(pk, mysql) || InsertEach(pk, t, left, rights).rows == t.rows)
            && (done ==> t' == InsertEach(pk, t, left, rights))
    decreases |rights|
  {
    if rights != [] {
      var t1 := InsertOne(pk, t, left, rights[0]);
      SinglyIsEach(pk, t1, left, rights[1..], mysql);
      InsertsOnlyAdd(pk, t1, left, rights[1..]);
      var k := PkOf(pk, NewRow(pk, t.next, left, rights[0]));
      assert t1.rows != t.rows ==> k in t1.rows && k !in t.rows;
    }
  }

  // It gets through if all key columns are given, if the key is the one generated column, or on MySQL if
  // nothing is generated; it fails at the first row beside a generated column, and otherwise at the first row
  // that is inserted.
  lemma SinglyWorks(pk: set<Column>, t: Table, left: Key, rights: seq<Key>, mysql: bool)
    requires Keyed(pk, t)
    ensures var done := InsertSingly(pk, t, left, rights, mysql).1;
            && (pk <= {Left, Right} || pk == {Id} || (mysql && Id !in pk) ==> done)
            && (Id in pk && pk != {Id} ==> (done <==> rights == []))
            && (Note in pk && Id !in pk && !mysql ==> (done <==> InsertEach(pk, t, left, rights).rows == t.rows))
  {
    SinglyIsEach(pk, t, left, rights, mysql);
    if Id in pk && pk != {Id} && rights != [] { StopsAfterOne(pk, t, left, rights, mysql); }
  }

  // With a generated column beside others in the key the very first row is inserted, and the call stops.
  lemma StopsAfterOne(pk: set<Column>, t: Table, left: Key, rights: seq<Key>, mysql: bool)
    requires Keyed(pk, t) && Id in pk && pk != {Id} && rights != []
    ensures InsertSingly(pk, t, left, rights, mysql) == (InsertOne(pk, t, left, rights[0]), false)
    ensures |InsertOne(pk, t, left, rights[0]).rows| == |t.rows| + 1
  {
    var k := PkOf(pk, NewRow(pk, t.next, left, rights[0]));
    assert k.id == t.next && k !in t.rows;
    assert k in InsertOne(pk, t, left, rights[0]).rows;
    assert InsertOne(pk, t, left, rights[0]).rows.Keys == t.rows.Keys + {k};
  }

  class Junction {
    const pk: set<Column>
    var table: Table

    constructor (pk: set<Column>, table: Table)
      ensures this.pk == pk && this.table == table
    {
      this.pk := pk;
      this.table := table;
    }

    // The rows of one left key, in whatever order the database returns them.
    method FindBelongsTo(left: Key) returns (found: seq<Row>)
      ensures forall r :: r in found <==> exists k :: k in table.rows && table.rows[k] == r && r.left == left
    {
      found := [];
      var rest := table.rows.Keys;
      while rest != {}
        invariant rest <= table.rows.Keys
        invariant forall r :: r in found <==>
          exists k :: k in table.rows && k !in rest && table.rows[k] == r && r.left == left
        decreases |rest|
      {
        var k :| k in rest;
        ghost var before := found;
        var row := table.rows[k];
        if row.left == left {
          found := found + [row];
        }
        rest := rest - {k};
      }
    }

    method DeleteMany(pks: seq<Row>)
      modifies this
      ensures table == Table(map k | k in old(table.rows) && k !in pks :: old(table.rows[k]), old(table.next))
    {
      table := Table(map k | k in table.rows && k !in pks :: table.rows[k], table.next);
    }

    method InsertManyRows(left: Key, rights: seq<Key>)
      modifies this
      ensures table == InsertMany(pk, old(table), left, rights)
    {
      table := InsertMany(pk, table, left, rights);
    }

    // False if the row was inserted and its key cannot be unpacked.
    method InsertRow(left: Key, right: Key, mysql: bool) returns (unpacked: bool)
      modifies this
      ensures table == InsertOne(pk, old(table), left, right)
      ensures unpacked <==> table.rows == old(table).rows || Unpackable(pk, mysql)
    {
      var row := NewRow(pk, table.next, left, right);
      unpacked := PkOf(pk, row) in table.rows || Unpackable(pk, mysql);
      table := InsertOne(pk, table, left, right);
    }
  }

  // ---- The reconciliation ----

  datatype Outcome = Established | AttrNotSet | UnpackInsertId | DbError

  // The statements that the database refuses: the select, the delete, and the inserts after some number of
  // them, or of rows looked up after them, has succeeded. A refused statement has no effect.
  datatype Faults = Faults(find: bool, delete: bool, insert: Option<nat>)

  // Keys that can be read off a model; a key attribute may be not set.
  predicate AllSet(related: seq<Option<Key>>) {
    forall j :: 0 <= j < |related| ==> related[j].Some?
  }

  function KeysOf(related: seq<Option<Key>>): (keys: seq<Key>)
    requires AllSet(related)
    ensures |keys| == |related| && forall j :: 0 <= j < |related| ==> related[j] == Some(keys[j])
  {
    if related == [] then [] else KeysOf(related[..|related| - 1]) + [related[|related| - 1].value]
  }

  // Whether the rows already linked to the model are read at all.
  predicate ReadsLeftover(pk: set<Column>, wanted: bool, delete: bool) {
    delete || (wanted && !PairInPk(pk))
  }

  ghost function RightKeys(t: Table, left: Key): set<Key> {
    set k | k in t.rows && t.rows[k].left == left :: t.rows[k].right
  }

  function Without(keys: seq<Key>, known: set<Key>): seq<Key> {
    if keys == [] then []
    else Without(keys[..|keys| - 1], known) +
         if keys[|keys| - 1] in known then [] else [keys[|keys| - 1]]
  }

  function Unlinked(t: Table, left: Key, keys: seq<Key>): Table {
    t.(rows := map k | k in t.rows && !(t.rows[k].left == left && t.rows[k].right !in keys) :: t.rows[k])
  }

  ghost function Missing(pk: set<Column>, t: Table, left: Key, keys: seq<Key>, delete: bool): seq<Key> {
    Without(keys, if ReadsLeftover(pk, keys != [], delete) then RightKeys(t, left) else {})
  }

  ghost function Reconcile(pk: set<Column>, t: Table, left: Key, keys: seq<Key>, delete: bool): Table {
    InsertEach(pk, if delete then Unlinked(t, left, keys) else t, left, Missing(pk, t, left, keys, delete))
  }

  // What row by row inserting makes of the table, and whether it gets through.
  ghost function ReconcileSingly(pk: set<Column>, t: Table, left: Key, keys: seq<Key>, delete: bool, mysql: bool):
      (Table, bool)
  {
    InsertSingly(pk, if delete then Unlinked(t, left, keys) else t, left, Missing(pk, t, left, keys, delete), mysql)
  }

  // What is left if the inserts stop after n of them.
  ghost function ReconcileUpTo(pk: set<Column>, t: Table, left: Key, keys: seq<Key>, delete: bool, n: nat): Table
    requires n <= |Missing(pk, t, left, keys, delete)|
  {
    InsertEach(pk, if delete then Unlinked(t, left, keys) else t, left, Missing(pk, t, left, keys, delete)[..n])
  }

  lemma ReconcileUpToAll(pk: set<Column>, t: Table, left: Key, keys: seq<Key>, delete: bool)
    ensures var missing := Missing(pk, t, left, keys, delete);
            && ReconcileUpTo(pk, t, left, keys, delete, |missing|) == Reconcile(pk, t, left, keys, delete)
            && (!delete ==> ReconcileUpTo(pk, t, left, keys, delete, 0) == t)
  {
    var missing := Missing(pk, t, left, keys, delete);
    assert missing[..|missing|] == missing;
  }

  // An unset key is an error before anything is written. With RETURNING the inserts are all or nothing;
  // without it they can stop with an error after the deletes and some of the inserts. A refused statement
  // leaves what the statements before it did.
  method EstablishLinks(db: Junction, model: Option<Key>, related: seq<Option<Key>>, deleteLeftover: bool,
                        supportReturning: bool, mysql: bool, faults: Faults)
    returns (r: Outcome)
    requires Keyed(db.pk, db.table)
    modifies db
    ensures r == AttrNotSet ==>
      !(AllSet(related) && (model.Some? || (related == [] && !deleteLeftover))) && db.table == old(db.table)
    ensures !(AllSet(related) && (model.Some? || (related == [] && !deleteLeftover))) ==>
      r == AttrNotSet || (r == DbError && faults.find && db.table == old(db.table))
    ensures r == Established && model.None? ==> db.table == old(db.table)
    ensures r == Established && model.Some? ==>
      db.table == Reconcile(db.pk, old(db.table), model.value, KeysOf(related), deleteLeftover)
    ensures r == UnpackInsertId ==>
      && !supportReturning && AllSet(related) && model.Some?
      && (db.table, false) ==
         ReconcileSingly(db.pk, old(db.table), model.value, KeysOf(related), deleteLeftover, mysql)
    ensures r == Established && model.Some? && !supportReturning ==>
      ReconcileSingly(db.pk, old(db.table), model.value, KeysOf(related), deleteLeftover, mysql).1
    // Without a refused statement the call succeeds with RETURNING, and without it if all key columns are
    // given, if the key is the one generated column, or on MySQL if nothing is generated.
    ensures faults == Faults(false, false, None) && AllSet(related) && model.Some? ==>
      (supportReturning || db.pk <= {Left, Right} || db.pk == {Id} || (mysql && Id !in db.pk) ==> r == Established)
    // Under any other key it fails as soon as a row is inserted.
    ensures faults == Faults(false, false, None) && AllSet(related) && model.Some? && !supportReturning ==>
      (Id in db.pk && db.pk != {Id} ==>
         r == if Missing(db.pk, old(db.table), model.value, KeysOf(related), deleteLeftover) == [] then Established
              else UnpackInsertId)
    ensures faults.find && model.Some? && ReadsLeftover(db.pk, related != [], deleteLeftover) ==> r == DbError
    ensures r == DbError ==> faults.find || faults.delete || faults.insert.Some?
    ensures r == DbError && db.table != old(db.table) ==>
      && faults.insert.Some? && AllSet(related) && model.Some?
      && var n := if supportReturning then 0 else faults.insert.value;
         && n <= |Missing(db.pk, old(db.table), model.value, KeysOf(related), deleteLeftover)|
         && db.table == ReconcileUpTo(db.pk, old(db.table), model.value, KeysOf(related), deleteLeftover, n)
  {
    var requireLeftover := true;
    if related == [] {
      requireLeftover := false;
    }
    if requireLeftover && PairInPk(db.pk) {
      requireLeftover := false;
    }

    var leftover: seq<Row> := [];
    if deleteLeftover || requireLeftover {
      if model.None? { return AttrNotSet; }
      if faults.find { return DbError; }
      leftover := db.FindBelongsTo(model.value);
    }
    if model.None? {
      return if related == [] then Established else AttrNotSet;
    }
    var left := model.value;
    var viaModels, allKeys := BuildVia(related, leftover, deleteLeftover);
    if viaModels.None? { return AttrNotSet; }
    ghost var keys := KeysOf(related);
    assert keys == [] <==> related == [];
    assert LeftoverKeys(leftover) ==
           if deleteLeftover || requireLeftover then RightKeys(db.table, left) else {};

    if deleteLeftover {
      var deleted := DeleteLeftover(db, left, leftover, allKeys, keys, faults.delete);
      if !deleted { return DbError; }
    }
    r := Established;
    SinglyWorks(db.pk, db.table, left, viaModels.value, mysql);
    if viaModels.value != [] {
      r := InsertJunctions(db, left, viaModels.value, supportReturning, mysql, faults.insert);
    }
  }

  ghost function LeftoverKeys(leftover: seq<Row>): set<Key> {
    set j | 0 <= j < |leftover| :: leftover[j].right
  }

  // The rows to insert, if every key is set, and the keys to keep.
  method BuildVia(related: seq<Option<Key>>, leftover: seq<Row>, deleteLeftover: bool)
    returns (via: Option<seq<Key>>, allKeys: set<Key>)
    ensures via.Some? <==> AllSet(related)
    ensures via.Some? ==> via.value == Without(KeysOf(related), LeftoverKeys(leftover))
    ensures via.Some? && deleteLeftover ==> forall key :: key in allKeys <==> key in KeysOf(related)
  {
    var viaModels: seq<Key> := [];
    allKeys := {};
    var n := 0;
    while n < |related|
      invariant 0 <= n <= |related| && AllSet(related[..n])
      invariant viaModels == Without(KeysOf(related[..n]), LeftoverKeys(leftover))
      invariant deleteLeftover ==> forall key :: key in allKeys <==> key in KeysOf(related[..n])
    {
      if related[n].None? { return None, allKeys; }
      var viaKey := related[n].value;
      KeysOfNext(related, n);
      if !(exists j :: 0 <= j < |leftover| && leftover[j].right == viaKey) {
        viaModels := viaModels + [viaKey];
      }
      if deleteLeftover {
        allKeys := allKeys + {viaKey};
      }
      n := n + 1;
    }
    assert related[..n] == related;
    via := Some(viaModels);
  }

  lemma KeysOfNext(related: seq<Option<Key>>, n: nat)
    requires n < |related| && AllSet(related[..n]) && related[n].Some?
    ensures AllSet(related[..n + 1])
    ensures var keys := KeysOf(related[..n + 1]);
            keys == KeysOf(related[..n]) + [related[n].value] && keys[..|keys| - 1] == KeysOf(related[..n])
  {
    assert related[..n + 1][..n] == related[..n];
  }

  method InsertJunctions(db: Junction, left: Key, rights: seq<Key>, supportReturning: bool, mysql: bool,
                         stop: Option<nat>)
    returns (r: Outcome)
    modifies db
    ensures r != AttrNotSet && (stop.None? ==> r != DbError) && (stop.Some? && supportReturning ==> r == DbError)
    ensures r == Established ==> db.table == InsertEach(db.pk, old(db.table), left, rights)
    ensures r == Established && !supportReturning ==> InsertSingly(db.pk, old(db.table), left, rights, mysql).1
    ensures r == UnpackInsertId ==>
      !supportReturning && (db.table, false) == InsertSingly(db.pk, old(db.table), left, rights, mysql)
    ensures r == DbError ==>
      && stop.Some? && var n := if supportReturning then 0 else stop.value;
         n <= |rights| && db.table == InsertEach(db.pk, old(db.table), left, rights[..n])
  {
    if supportReturning {
      if stop.Some? { return DbError; }
      ManyIsEach(db.pk, db.table, left, rights);
      db.InsertManyRows(left, rights);
      return Established;
    }
    SinglyIsEach(db.pk, db.table, left, rights, mysql);
    var n := 0;
    while n < |rights|
      invariant 0 <= n <= |rights|
      invariant db.table == InsertEach(db.pk, old(db.table), left, rights[..n])
      invariant InsertSingly(db.pk, db.table, left, rights[n..], mysql) ==
                InsertSingly(db.pk, old(db.table), left, rights, mysql)
    {
      if stop == Some(n) { return DbError; }
      InsertNext(db.pk, old(db.table), left, rights, n);
      var unpacked := db.InsertRow(left, rights[n], mysql);
      if !unpacked { return UnpackInsertId; }
      n := n + 1;
    }
    assert rights[..n] == rights;
    r := if stop == Some(n) then DbError else Established;
  }

  method DeleteLeftover(db: Junction, left: Key, leftover: seq<Row>, allKeys: set<Key>, ghost keys: seq<Key>,
                        fault: bool)
    returns (done: bool)
    requires Keyed(db.pk, db.table)
    requires forall r :: r in leftover <==>
      exists k :: k in db.table.rows && db.table.rows[k] == r && r.left == left
    requires forall key :: key in allKeys <==> key in keys
    modifies db
    ensures db.table == if done then Unlinked(old(db.table), left, keys) else old(db.table)
    ensures done <==> !fault || forall k :: k in old(db.table.rows) ==>
      !(old(db.table.rows)[k].left == left && old(db.table.rows)[k].right !in keys)
  {
    var toDelete: seq<Row> := [];
    var n := 0;
    while n < |leftover|
      invariant 0 <= n <= |leftover|
      invariant forall k :: k in toDelete <==>
        exists j :: 0 <= j < n && leftover[j].right !in keys && k == PkOf(db.pk, leftover[j])
    {
      if leftover[n].right !in allKeys {
        toDelete := toDelete + [PkOf(db.pk, leftover[n])];
      }
      n := n + 1;
    }
    forall k | k in db.table.rows
      ensures k in toDelete <==> db.table.rows[k].left == left && db.table.rows[k].right !in keys
    {
      var row := db.table.rows[k];
      if row.left == left && row.right !in keys {
        assert row in leftover;
      }
      if k in toDelete {
        var j :| 0 <= j < n && leftover[j].right !in keys && k == PkOf(db.pk, leftover[j]);
        assert leftover[j] in leftover;
      }
    }
    done := true;
    if toDelete != [] {
      assert toDelete[0] in toDelete;
      if fault { return false; }
      db.DeleteMany(toDelete);
    } else {
      assert Unlinked(db.table, left, keys).rows == db.table.rows;
    }
  }

  // ---- What the final table is ----

  // Nothing of `t` is lost or changed, and what is new links `left` to one of `rights`.
  ghost predicate Extends(pk: set<Column>, t: Table, t': Table, left: Key, rights: seq<Key>) {
    && (forall k :: k in t.rows ==> k in t'.rows && t'.rows[k] == t.rows[k])
    && (forall k :: k in t'.rows && k !in t.rows ==>
          var row := t'.rows[k]; row.left == left && row.right in rights && row.note == DEFAULT_NOTE)
  }

  // A conflict can only be with a row that links the same pair.
  lemma InsertOneFacts(pk: set<Column>, t: Table, left: Key, right: Key)
    requires Keyed(pk, t) && JunctionKey(pk)
    ensures var t' := InsertOne(pk, t, left, right);
            && Keyed(pk, t') && Extends(pk, t, t', left, [right])
            && RightKeys(t', left) == RightKeys(t, left) + {right}
  {
    var k, t' := PkOf(pk, NewRow(pk, t.next, left, right)), InsertOne(pk, t, left, right);
    assert k in t'.rows && t'.rows[k].left == left && t'.rows[k].right == right;
    forall x | x in RightKeys(t, left) ensures x in RightKeys(t', left) {
      var j :| j in t.rows && t.rows[j].left == left && t.rows[j].right == x;
      assert t'.rows[j] == t.rows[j];
    }
  }

  lemma {:induction false} InsertEachFacts(pk: set<Column>, t: Table, left: Key, rights: seq<Key>)
    requires Keyed(pk, t) && JunctionKey(pk)
    ensures var t' := InsertEach(pk, t, left, rights);
            && Keyed(pk, t') && Extends(pk, t, t', left, rights)
            && RightKeys(t', left) == RightKeys(t, left) + (set r | r in rights)
    decreases |rights|
  {
    if rights != [] {
      InsertOneFacts(pk, t, left, rights[0]);
      InsertEachFacts(pk, InsertOne(pk, t, left, rights[0]), left, rights[1..]);
      assert (set r | r in rights) == {rights[0]} + (set r | r in rights[1..]);
    }
  }

  lemma {:induction false} WithoutFacts(keys: seq<Key>, known: set<Key>)
    ensures forall r :: r in Without(keys, known) <==> r in keys && r !in known
    ensures known == {} ==> Without(keys, known) == keys
    decreases |keys|
  {
    if keys != [] {
      var n := |keys| - 1;
      WithoutFacts(keys[..n], known);
      assert keys == keys[..n] + [keys[n]];
    }
  }

  lemma {:induction false} WithoutAll(keys: seq<Key>, known: set<Key>)
    requires forall j :: 0 <= j < |keys| ==> keys[j] in known
    ensures Without(keys, known) == []
    decreases |keys|
  {
    if keys != [] { WithoutAll(keys[..|keys| - 1], known); }
  }

  lemma {:induction false} WithoutCount(keys: seq<Key>, known: set<Key>, r: Key)
    ensures multiset(Without(keys, known))[r] == if r in known then 0 else multiset(keys)[r]
    decreases |keys|
  {
    if keys != [] {
      var n := |keys| - 1;
      WithoutCount(keys[..n], known, r);
      assert keys == keys[..n] + [keys[n]];
    }
  }

  lemma UnlinkedFacts(pk: set<Column>, t: Table, left: Key, keys: seq<Key>)
    requires Keyed(pk, t)
    ensures Keyed(pk, Unlinked(t, left, keys))
    ensures RightKeys(Unlinked(t, left, keys), left) == set r | r in RightKeys(t, left) && r in keys
  {
    var t' := Unlinked(t, left, keys);
    forall r | r in RightKeys(t, left) && r in keys ensures r in RightKeys(t', left) {
      var k :| k in t.rows && t.rows[k].left == left && t.rows[k].right == r;
      assert t'.rows[k] == t.rows[k];
    }
  }

  // The requested links are exactly those that exist afterwards, or with appending the old ones and the
  // requested ones. A row goes only if it links the model to a key that is not requested and deleting is
  // asked for; every other row keeps its key and all its columns. New rows link the model to a
  // requested key.
  lemma Reconciled(pk: set<Column>, t: Table, left: Key, keys: seq<Key>, delete: bool)
    requires Keyed(pk, t) && JunctionKey(pk)
    ensures var t' := Reconcile(pk, t, left, keys, delete);
            && Keyed(pk, t')
            && RightKeys(t', left) == (if delete then {} else RightKeys(t, left)) + (set r | r in keys)
            && (forall k :: k in t.rows ==>
                  var row := t.rows[k];
                  if delete && row.left == left && row.right !in keys then k !in t'.rows
                  else k in t'.rows && t'.rows[k] == row)
            && (forall k :: k in t'.rows && k !in t.rows ==>
                  var row := t'.rows[k];
                  && row.left == left && row.right in keys && row.note == DEFAULT_NOTE
                  && (ReadsLeftover(pk, keys != [], delete) ==> row.right !in RightKeys(t, left)))
  {
    var t1 := if delete then Unlinked(t, left, keys) else t;
    var missing := Missing(pk, t, left, keys, delete);
    UnlinkedFacts(pk, t, left, keys);
    WithoutFacts(keys, if ReadsLeftover(pk, keys != [], delete) then RightKeys(t, left) else {});
    InsertEachFacts(pk, t1, left, missing);
    forall r ensures r in RightKeys(t1, left) || r in missing <==>
                     (!delete && r in RightKeys(t, left)) || r in keys {}
    var t' := Reconcile(pk, t, left, keys, delete);
    forall k | k in t.rows && k !in t1.rows ensures k !in t'.rows {
      DeletedStaysDeleted(pk, t, t1, t', left, missing, k);
    }
  }

  // An inserted row never takes the key of a deleted one.
  lemma DeletedStaysDeleted(pk: set<Column>, t: Table, t1: Table, t': Table, left: Key, rights: seq<Key>, k: Row)
    requires Keyed(pk, t) && JunctionKey(pk) && t1.next == t.next && Keyed(pk, t1)
    requires t' == InsertEach(pk, t1, left, rights)
    requires k in t.rows && k !in t1.rows && t.rows[k].right !in rights
    ensures k !in t'.rows
  {
    if k in t'.rows { InsertedKeys(pk, t1, left, rights, k); }
  }

  lemma {:induction false} InsertedKeys(pk: set<Column>, t: Table, left: Key, rights: seq<Key>, k: Row)
    requires JunctionKey(pk) && k !in t.rows && k in InsertEach(pk, t, left, rights).rows
    ensures if Id in pk then k.id >= t.next else k.right in rights
    decreases |rights|
  {
    var t1 := InsertOne(pk, t, left, rights[0]);
    if k !in t1.rows {
      InsertedKeys(pk, t1, left, rights[1..], k);
    }
  }

  // The condition on the key is needed: under any other key some call silently links less than asked.
  lemma OtherKeysLoseLinks(pk: set<Column>) returns (t: Table, left: Key, keys: seq<Key>)
    requires !JunctionKey(pk)
    ensures Keyed(pk, t) && exists r :: r in keys && r !in RightKeys(Reconcile(pk, t, left, keys, false), left)
  {
    left := 5;
    if Right in pk {
      // Another left key already has the right key.
      var taken := NewRow(pk, 0, 9, 1);
      t, keys := Table(map[PkOf(pk, taken) := taken], 0), [1];
      assert RightKeys(t, left) == {};
      WithoutFacts(keys, {});
      OneInsert(pk, t, left, 1);
      assert 1 in keys && 1 !in RightKeys(InsertOne(pk, t, left, 1), left);
    } else {
      // The second requested key conflicts with the first.
      t, keys := Table(map[], 0), [1, 2];
      assert RightKeys(t, left) == {};
      WithoutFacts(keys, {});
      var t1 := InsertOne(pk, t, left, 1);
      assert keys[1..] == [2];
      OneInsert(pk, t1, left, 2);
      assert InsertOne(pk, t1, left, 2).rows == t1.rows;
      assert 2 in keys && 2 !in RightKeys(InsertOne(pk, t1, left, 2), left);
    }
  }

  lemma OneInsert(pk: set<Column>, t: Table, left: Key, r: Key)
    ensures InsertEach(pk, t, left, [r]) == InsertOne(pk, t, left, r)
  {
    assert [r][1..] == [];
  }

  // ---- How many rows link one pair ----

  ghost function Linking(t: Table, left: Key, right: Key): set<Row> {
    set k | k in t.rows && t.rows[k].left == left && t.rows[k].right == right
  }

  lemma {:induction false} GeneratedRows(pk: set<Column>, t: Table, left: Key, rights: seq<Key>, r: Key)
    requires Keyed(pk, t) && Id in pk
    ensures |Linking(InsertEach(pk, t, left, rights), left, r)| == |Linking(t, left, r)| + multiset(rights)[r]
    decreases |rights|
  {
    if rights != [] {
      var t1 := InsertOne(pk, t, left, rights[0]);
      var k := PkOf(pk, NewRow(pk, t.next, left, rights[0]));
      InsertOneFacts(pk, t, left, rights[0]);
      assert k !in t.rows;
      assert Linking(t1, left, r) == Linking(t, left, r) + if rights[0] == r then {k} else {};
      GeneratedRows(pk, t1, left, rights[1..], r);
      assert rights == [rights[0]] + rights[1..];
    }
  }

  // With a generated key that holds no foreign keys, a pair that was linked keeps its rows, and one that
  // was not gets one row for every time it is requested. So a repeated request links it repeatedly.
  lemma SurrogateLinkCount(pk: set<Column>, t: Table, left: Key, keys: seq<Key>, delete: bool, r: Key)
    requires Keyed(pk, t) && Id in pk && !PairInPk(pk) && r in keys
    ensures |Linking(Reconcile(pk, t, left, keys, delete), left, r)| ==
            if r in RightKeys(t, left) then |Linking(t, left, r)| else multiset(keys)[r]
  {
    var t1 := if delete then Unlinked(t, left, keys) else t;
    UnlinkedFacts(pk, t, left, keys);
    WithoutCount(keys, RightKeys(t, left), r);
    LinkedHasRow(t, left, r);
    GeneratedRows(pk, t1, left, Missing(pk, t, left, keys, delete), r);
    assert Linking(t1, left, r) == Linking(t, left, r);
  }

  // Seven requested twice of an empty table with a generated key: two rows for one pair.
  lemma RepeatedRequest()
    ensures |Linking(Reconcile({Id}, Table(map[], 1), 5, [7, 7], false), 5, 7)| == 2
  {
    assert 7 in [7, 7] && multiset([7, 7])[7] == 2;
    SurrogateLinkCount({Id}, Table(map[], 1), 5, [7, 7], false, 7);
  }

  lemma LinkedHasRow(t: Table, left: Key, r: Key)
    ensures r in RightKeys(t, left) <==> Linking(t, left, r) != {}
  {
    if r in RightKeys(t, left) {
      var k :| k in t.rows && t.rows[k].left == left && t.rows[k].right == r;
      assert k in Linking(t, left, r);
    }
  }

  // ---- Calling it twice ----

  lemma {:induction false} InsertsConflictLater(pk: set<Column>, t: Table, left: Key, rights: seq<Key>)
    requires Keyed(pk, t) && PairInPk(pk) && Id !in pk
    ensures forall r :: r in rights ==> PkOf(pk, NewRow(pk, 0, left, r)) in InsertEach(pk, t, left, rights).rows
    decreases |rights|
  {
    if rights != [] {
      var t1 := InsertOne(pk, t, left, rights[0]);
      InsertOneFacts(pk, t, left, rights[0]);
      InsertsConflictLater(pk, t1, left, rights[1..]);
      InsertEachFacts(pk, t1, left, rights[1..]);
      assert NewRow(pk, 0, left, rights[0]) == NewRow(pk, t.next, left, rights[0]);
    }
  }

  lemma {:induction false} AllConflict(pk: set<Column>, t: Table, left: Key, rights: seq<Key>)
    requires Id !in pk && forall r :: r in rights ==> PkOf(pk, NewRow(pk, 0, left, r)) in t.rows
    ensures InsertEach(pk, t, left, rights).rows == t.rows
    decreases |rights|
  {
    if rights != [] {
      assert NewRow(pk, 0, left, rights[0]) == NewRow(pk, t.next, left, rights[0]);
      AllConflict(pk, InsertOne(pk, t, left, rights[0]), left, rights[1..]);
    }
  }

  // The one case in which a second, identical call still inserts.
  predicate InsertsAgain(pk: set<Column>, keys: seq<Key>, delete: bool) {
    !delete && keys != [] && PairInPk(pk) && Id in pk
  }

  // A second identical call changes nothing, for the exact pair of foreign keys as for a surrogate key.
  // It fails exactly when the leftover is not read although the key also has a generated column.
  lemma Idempotent(pk: set<Column>, t: Table, left: Key, keys: seq<Key>, delete: bool)
    requires Keyed(pk, t) && JunctionKey(pk)
    ensures var once := Reconcile(pk, t, left, keys, delete);
            Reconcile(pk, once, left, keys, delete).rows == once.rows <==> !InsertsAgain(pk, keys, delete)
  {
    var once := Reconcile(pk, t, left, keys, delete);
    Reconciled(pk, t, left, keys, delete);
    if ReadsLeftover(pk, keys != [], delete) || keys == [] {
      AllLinkedAlready(pk, once, left, keys, delete);
    } else {
      WithoutFacts(keys, {});
      BlindInsertTwice(pk, t, left, keys);
    }
  }

  // In that case every call adds a row for every requested key: two appends, two rows.
  lemma AppendsPileUp(pk: set<Column>, t: Table, left: Key, keys: seq<Key>, r: Key)
    requires Keyed(pk, t) && InsertsAgain(pk, keys, false)
    ensures var once := Reconcile(pk, t, left, keys, false);
            && |Linking(once, left, r)| == |Linking(t, left, r)| + multiset(keys)[r]
            && |Linking(Reconcile(pk, once, left, keys, false), left, r)| ==
               |Linking(t, left, r)| + 2 * multiset(keys)[r]
  {
    var once := Reconcile(pk, t, left, keys, false);
    WithoutFacts(keys, {});
    InsertEachFacts(pk, t, left, keys);
    GeneratedRows(pk, t, left, keys, r);
    GeneratedRows(pk, once, left, keys, r);
  }

  lemma AppendedTwice() returns (pk: set<Column>, t: Table, left: Key, keys: seq<Key>)
    ensures pk == {Id, Left, Right} && t.rows == map[] && keys == [7]
    ensures |Linking(Reconcile(pk, Reconcile(pk, t, left, keys, false), left, keys, false), left, 7)| == 2
  {
    pk, t, left, keys := {Id, Left, Right}, Table(map[], 1), 5, [7];
    assert multiset(keys)[7] == 1 && Linking(t, left, 7) == {};
    AppendsPileUp(pk, t, left, keys, 7);
  }

  // The same key without RETURNING: every append of at least two links inserts one and fails, where with
  // RETURNING all are inserted.
  lemma UnpackStopsEarly(pk: set<Column>, t: Table, left: Key, keys: seq<Key>, mysql: bool)
    requires Keyed(pk, t) && PairInPk(pk) && Id in pk && |keys| >= 2
    ensures var (t', done) := ReconcileSingly(pk, t, left, keys, false, mysql);
            !done && |t'.rows| == |t.rows| + 1 < |Reconcile(pk, t, left, keys, false).rows|
  {
    WithoutFacts(keys, {});
    StopsAfterOne(pk, t, left, keys, mysql);
    var t1 := InsertOne(pk, t, left, keys[0]);
    InsertOneFacts(pk, t, left, keys[0]);
    StopsAfterOne(pk, t1, left, keys[1..], mysql);
    var t2, t' := InsertOne(pk, t1, left, keys[1]), Reconcile(pk, t, left, keys, false);
    assert t' == InsertEach(pk, t1, left, keys[1..]) == InsertEach(pk, t2, left, keys[1..][1..]);
    InsertsOnlyAdd(pk, t2, left, keys[1..][1..]);
    MoreRows(t2.rows.Keys, t'.rows.Keys);
  }

  lemma MoreRows(a: set<Row>, b: set<Row>)
    requires a <= b
    ensures |a| <= |b|
  {
    assert b == a + (b - a);
  }

  lemma AllLinkedAlready(pk: set<Column>, t: Table, left: Key, keys: seq<Key>, delete: bool)
    requires ReadsLeftover(pk, keys != [], delete) || keys == []
    requires forall r :: r in keys ==> r in RightKeys(t, left)
    requires delete ==> RightKeys(t, left) == set r | r in keys
    ensures Reconcile(pk, t, left, keys, delete).rows == t.rows
  {
    forall j | 0 <= j < |keys| ensures keys[j] in RightKeys(t, left) {
      var key := keys[j];
      assert key in keys;
    }
    WithoutAll(keys, if ReadsLeftover(pk, keys != [], delete) then RightKeys(t, left) else {});
    if delete {
      forall k | k in t.rows && t.rows[k].left == left ensures t.rows[k].right in keys {
        assert t.rows[k].right in RightKeys(t, left);
      }
      assert Unlinked(t, left, keys).rows == t.rows;
    }
  }

  lemma BlindInsertTwice(pk: set<Column>, t: Table, left: Key, keys: seq<Key>)
    requires Keyed(pk, t) && PairInPk(pk) && keys != []
    ensures var once := InsertEach(pk, t, left, keys);
            InsertEach(pk, once, left, keys).rows == once.rows <==> Id !in pk
  {
    var once := InsertEach(pk, t, left, keys);
    InsertEachFacts(pk, t, left, keys);
    if Id in pk {
      GeneratedRows(pk, once, left, keys, keys[0]);
    } else {
      InsertsConflictLater(pk, t, left, keys);
      AllConflict(pk, once, left, keys);
    }
  }
}
