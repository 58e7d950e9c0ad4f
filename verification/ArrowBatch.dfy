// Turning rows of active models into columns of an Arrow record batch, and back.
module ArrowBatch {
  import opened ArrowCell
  import Dec = DecimalScale
  import opened Wrappers

  // ---- Entities, schemas and batches ----

  datatype ActiveValue = Set(value: Value) | Unchanged(value: Value) | NotSet

  datatype Field = Field(name: string, dataType: DataType, nullable: bool)
  datatype Array = Array(dataType: DataType, cells: seq<Option<Cell>>)
  datatype Batch = Batch(fields: seq<Field>, columns: seq<Array>)

  type Model = seq<ActiveValue>

  ghost predicate ValidArray(a: Array, rows: nat) {
    |a.cells| == rows && forall r :: 0 <= r < rows ==> ValidCell(a.dataType, a.cells[r])
  }

  ghost predicate ValidBatch(b: Batch, rows: nat) {
    |b.fields| == |b.columns| && forall f :: 0 <= f < |b.columns| ==> ValidArray(b.columns[f], rows)
  }

  // First position of a name, or -1.
  function Position(names: seq<string>, name: string): (i: int)
    ensures -1 <= i < |names|
    ensures i >= 0 ==> names[i] == name && forall j :: 0 <= j < i ==> names[j] != name
    ensures i < 0 ==> name !in names
  {
    if names == [] then -1
    else if names[0] == name then 0
    else var i := Position(names[1..], name); if i < 0 then -1 else i + 1
  }

  function ColumnNames(entity: seq<Column>): seq<string> {
    seq(|entity|, i requires 0 <= i < |entity| => entity[i].name)
  }

  function FieldNames(fields: seq<Field>): seq<string> {
    seq(|fields|, i requires 0 <= i < |fields| => fields[i].name)
  }

  function ColumnNamed(entity: seq<Column>, name: string): (c: int)
    ensures -1 <= c < |entity|
    ensures c >= 0 ==> entity[c].name == name
  {
    Position(ColumnNames(entity), name)
  }

  function FieldNamed(fields: seq<Field>, name: string): (f: int)
    ensures -1 <= f < |fields|
    ensures f >= 0 ==> fields[f].name == name
  {
    Position(FieldNames(fields), name)
  }

  // ---- to_arrow ----

  // The cell of one model under one field.
  function CellFor(entity: seq<Column>, m: Model, field: Field): Attempt<Option<Cell>>
    requires |m| == |entity|
  {
    var c := ColumnNamed(entity, field.name);
    if c < 0 || m[c].NotSet? then Done(None) else Encode(m[c].value, field.dataType)
  }

  predicate Shaped(entity: seq<Column>, models: seq<Model>) {
    forall r :: 0 <= r < |models| ==> |models[r]| == |entity|
  }

  ghost predicate BuildPanics(entity: seq<Column>, models: seq<Model>, field: Field)
    requires Shaped(entity, models)
  {
    exists r :: 0 <= r < |models| && CellFor(entity, models[r], field).Panic?
  }

  // A field that is no column of the entity is an array of nulls of any type.
  ghost predicate Builds(entity: seq<Column>, models: seq<Model>, field: Field)
    requires Shaped(entity, models)
  {
    && (ColumnNamed(entity, field.name) >= 0 ==> Buildable(field.dataType))
    && forall r :: 0 <= r < |models| ==> CellFor(entity, models[r], field).Done?
  }

  // Cell r of the array is the cell of model r.
  ghost predicate IsArrayOf(a: Array, entity: seq<Column>, models: seq<Model>, field: Field)
    requires Shaped(entity, models)
  {
    && a.dataType == field.dataType && ValidArray(a, |models|)
    && forall r :: 0 <= r < |models| ==> CellFor(entity, models[r], field) == Done(a.cells[r])
  }

  method BuildArray(entity: seq<Column>, models: seq<Model>, field: Field) returns (res: Attempt<Array>)
    requires Shaped(entity, models)
    ensures res.Done? <==> Builds(entity, models, field)
    ensures res.Panic? <==> BuildPanics(entity, models, field)
    ensures res.Done? ==> IsArrayOf(res.value, entity, models, field)
  {
    var c := ColumnNamed(entity, field.name);
    var cells: seq<Option<Cell>> := [];
    for r := 0 to |models|
      invariant |cells| == r
      invariant forall j :: 0 <= j < r ==> CellFor(entity, models[j], field) == Done(cells[j])
      invariant ValidArray(Array(field.dataType, cells), r)
    {
      if c < 0 || models[r][c].NotSet? {
        cells := cells + [None];
      } else {
        EncodedShape(models[r][c].value, field.dataType);
        var cell := Encode(models[r][c].value, field.dataType);
        assert cell == CellFor(entity, models[r], field);
        if cell.Panic? { return Panic; }
        if cell.Error? {
          forall j | 0 <= j < |models| ensures !CellFor(entity, models[j], field).Panic? {
            if !models[j][c].NotSet? { EncodedShape(models[j][c].value, field.dataType); }
          }
          return Error;
        }
        cells := cells + [cell.value];
      }
    }
    if c >= 0 && !Buildable(field.dataType) { return Error; }
    res := Done(Array(field.dataType, cells));
  }

  // Column f holds the cells of the models under field f.
  ghost predicate IsBatchOf(b: Batch, entity: seq<Column>, models: seq<Model>, fields: seq<Field>)
    requires Shaped(entity, models)
  {
    && b.fields == fields && |b.columns| == |fields|
    && (forall f :: 0 <= f < |fields| ==>
          IsArrayOf(b.columns[f], entity, models, fields[f]) && Builds(entity, models, fields[f]))
  }

  ghost predicate NoNull(entity: seq<Column>, models: seq<Model>, field: Field)
    requires Shaped(entity, models)
  {
    forall r :: 0 <= r < |models| ==> CellFor(entity, models[r], field) != Done(None)
  }

  // to_arrow succeeds if every array can be built, no null is in a field declared non-null, and there is a
  // field.
  ghost predicate Storable(entity: seq<Column>, models: seq<Model>, fields: seq<Field>)
    requires Shaped(entity, models)
  {
    fields != [] && forall f :: 0 <= f < |fields| ==>
      Builds(entity, models, fields[f]) && (fields[f].nullable || NoNull(entity, models, fields[f]))
  }

  lemma NullsSeen(a: Array, entity: seq<Column>, models: seq<Model>, field: Field)
    requires Shaped(entity, models) && IsArrayOf(a, entity, models, field)
    ensures NoNull(entity, models, field) <==> forall r :: 0 <= r < |a.cells| ==> a.cells[r].Some?
  {
    forall r | 0 <= r < |models| ensures CellFor(entity, models[r], field) != Done(None) <==> a.cells[r].Some? {
    }
  }

  // What RecordBatch::try_new checks of arrays of the right types and lengths.
  method NewBatch(fields: seq<Field>, columns: seq<Array>) returns (res: Attempt<Batch>)
    requires |fields| == |columns|
    ensures !res.Panic?
    ensures res.Done? <==> fields != [] && forall f :: 0 <= f < |fields| ==>
      fields[f].nullable || forall r :: 0 <= r < |columns[f].cells| ==> columns[f].cells[r].Some?
    ensures res.Done? ==> res.value == Batch(fields, columns)
  {
    if fields == [] { return Error; }
    for f := 0 to |fields|
      invariant forall g :: 0 <= g < f ==>
        fields[g].nullable || forall r :: 0 <= r < |columns[g].cells| ==> columns[g].cells[r].Some?
    {
      if !fields[f].nullable && exists r :: 0 <= r < |columns[f].cells| && columns[f].cells[r].None? {
        return Error;
      }
    }
    res := Done(Batch(fields, columns));
  }

  method ToArrow(entity: seq<Column>, models: seq<Model>, fields: seq<Field>) returns (res: Attempt<Batch>)
    requires Shaped(entity, models)
    ensures res.Done? <==> Storable(entity, models, fields)
    ensures res.Panic? <==> exists f :: 0 <= f < |fields| && BuildPanics(entity, models, fields[f])
                                     && forall g :: 0 <= g < f ==> Builds(entity, models, fields[g])
    ensures res.Done? ==> IsBatchOf(res.value, entity, models, fields)
  {
    var columns: seq<Array> := [];
    for f := 0 to |fields|
      invariant |columns| == f
      invariant forall g :: 0 <= g < f ==> IsArrayOf(columns[g], entity, models, fields[g])
      invariant forall g :: 0 <= g < f ==> Builds(entity, models, fields[g]) && !BuildPanics(entity, models, fields[g])
    {
      var built := BuildArray(entity, models, fields[f]);
      if built.Panic? { return Panic; }
      if built.Error? { return Error; }
      columns := columns + [built.value];
    }
    forall f | 0 <= f < |fields|
      ensures NoNull(entity, models, fields[f]) <==>
              forall r :: 0 <= r < |columns[f].cells| ==> columns[f].cells[r].Some?
    {
      NullsSeen(columns[f], entity, models, fields[f]);
    }
    res := NewBatch(fields, columns);
  }

  // ---- from_arrow ----

  function ReadField(b: Batch, c: Column, row: nat, rows: nat, lim: Limits): Attempt<ActiveValue>
    requires ValidBatch(b, rows) && row < rows
  {
    var f := FieldNamed(b.fields, c.name);
    if f < 0 then Done(NotSet)
    else
      var a := b.columns[f];
      assert ValidCell(a.dataType, a.cells[row]);
      match ReadInto(c, a.dataType, a.cells[row], lim)
      case Done(v) => Done(Set(v))
      case Error => Error
      case Panic => Panic
  }

  // All values in order, or the first failure.
  function Collect<T>(xs: seq<Attempt<T>>): Attempt<seq<T>> {
    if xs == [] then Done([])
    else
      var before, last := Collect(xs[..|xs| - 1]), xs[|xs| - 1];
      if !before.Done? then before
      else match last
           case Done(x) => Done(before.value + [x])
           case Error => Error
           case Panic => Panic
  }

  lemma {:induction false} CollectStops<T>(xs: seq<Attempt<T>>, n: nat)
    requires n <= |xs| && !Collect(xs[..n]).Done?
    ensures Collect(xs) == Collect(xs[..n])
    decreases |xs|
  {
    if n < |xs| {
      assert xs[..|xs| - 1][..n] == xs[..n];
      CollectStops(xs[..|xs| - 1], n);
    } else {
      assert xs[..n] == xs;
    }
  }

  lemma CollectNext<T>(xs: seq<Attempt<T>>, n: nat)
    requires n < |xs| && Collect(xs[..n]).Done?
    ensures Collect(xs[..n + 1]) == match xs[n]
                                    case Done(x) => Done(Collect(xs[..n]).value + [x])
                                    case Error => Error
                                    case Panic => Panic
  {
    assert xs[..n + 1][..n] == xs[..n];
  }

  lemma {:induction false} Collected<T>(xs: seq<Attempt<T>>)
    ensures Collect(xs).Done? <==> forall k :: 0 <= k < |xs| ==> xs[k].Done?
    ensures Collect(xs).Done? ==>
      |Collect(xs).value| == |xs| && forall k :: 0 <= k < |xs| ==> xs[k] == Done(Collect(xs).value[k])
    decreases |xs|
  {
    if xs != [] {
      var n := |xs| - 1;
      Collected(xs[..n]);
      assert forall k :: 0 <= k < n ==> xs[..n][k] == xs[k];
    }
  }

  // It fails as the first one that fails does.
  lemma {:induction false} CollectFails<T>(xs: seq<Attempt<T>>) returns (k: nat)
    requires !Collect(xs).Done?
    ensures k < |xs| && (forall j :: 0 <= j < k ==> xs[j].Done?)
    ensures Collect(xs).Panic? ==> xs[k].Panic?
    ensures Collect(xs).Error? ==> xs[k].Error?
    decreases |xs|
  {
    var n := |xs| - 1;
    if Collect(xs[..n]).Done? {
      Collected(xs[..n]);
      assert forall j :: 0 <= j < n ==> xs[..n][j] == xs[j];
      k := n;
    } else {
      k := CollectFails(xs[..n]);
      assert forall j :: 0 <= j <= k ==> xs[..n][j] == xs[j];
    }
  }

  // What is read of each column of a row, and of each row.
  function RowCells(b: Batch, entity: seq<Column>, r: nat, rows: nat, lim: Limits): seq<Attempt<ActiveValue>>
    requires ValidBatch(b, rows) && r < rows
  {
    seq(|entity|, c requires 0 <= c < |entity| && ValidBatch(b, rows) => ReadField(b, entity[c], r, rows, lim))
  }

  function RowOf(b: Batch, entity: seq<Column>, r: nat, rows: nat, lim: Limits): Attempt<Model>
    requires ValidBatch(b, rows) && r < rows
  {
    Collect(RowCells(b, entity, r, rows, lim))
  }

  function AllRows(b: Batch, entity: seq<Column>, rows: nat, lim: Limits): seq<Attempt<Model>>
    requires ValidBatch(b, rows)
  {
    seq(rows, r requires 0 <= r < rows && ValidBatch(b, rows) => RowOf(b, entity, r, rows, lim))
  }

  function RowsOf(b: Batch, entity: seq<Column>, rows: nat, lim: Limits): Attempt<seq<Model>>
    requires ValidBatch(b, rows)
  {
    Collect(AllRows(b, entity, rows, lim))
  }

  method ReadRow(b: Batch, entity: seq<Column>, r: nat, rows: nat, lim: Limits) returns (res: Attempt<Model>)
    requires ValidBatch(b, rows) && r < rows
    ensures res == RowOf(b, entity, r, rows, lim)
  {
    ghost var cells := RowCells(b, entity, r, rows, lim);
    var m: Model := [];
    for c := 0 to |entity|
      invariant Collect(cells[..c]) == Done(m)
    {
      var v := ReadField(b, entity[c], r, rows, lim);
      assert v == cells[c];
      CollectNext(cells, c);
      if !v.Done? {
        CollectStops(cells, c + 1);
        return if v.Panic? then Panic else Error;
      }
      m := m + [v.value];
    }
    assert cells[..|entity|] == cells;
    res := Done(m);
  }

  method FromArrow(entity: seq<Column>, b: Batch, rows: nat, lim: Limits) returns (res: Attempt<seq<Model>>)
    requires ValidBatch(b, rows)
    ensures res == RowsOf(b, entity, rows, lim)
  {
    ghost var all := AllRows(b, entity, rows, lim);
    var models: seq<Model> := [];
    for r := 0 to rows
      invariant Collect(all[..r]) == Done(models)
    {
      var m := ReadRow(b, entity, r, rows, lim);
      assert m == all[r];
      CollectNext(all, r);
      if !m.Done? {
        CollectStops(all, r + 1);
        return if m.Panic? then Panic else Error;
      }
      models := models + [m.value];
    }
    assert all[..rows] == all;
    res := Done(models);
  }

  // A row is read exactly if each of its columns is, and then it holds what was read for each.
  lemma RowRead(b: Batch, entity: seq<Column>, r: nat, rows: nat, lim: Limits)
    requires ValidBatch(b, rows) && r < rows
    ensures var m := RowOf(b, entity, r, rows, lim);
            && (m.Done? <==> forall c :: 0 <= c < |entity| ==> ReadField(b, entity[c], r, rows, lim).Done?)
            && (m.Done? ==>
                  && |m.value| == |entity|
                  && forall c :: 0 <= c < |entity| ==> ReadField(b, entity[c], r, rows, lim) == Done(m.value[c]))
  {
    var cells := RowCells(b, entity, r, rows, lim);
    Collected(cells);
    assert forall c :: 0 <= c < |entity| ==> cells[c] == ReadField(b, entity[c], r, rows, lim);
  }

  // All rows are read exactly if each is, one model per row, in order.
  lemma RowsRead(b: Batch, entity: seq<Column>, rows: nat, lim: Limits)
    requires ValidBatch(b, rows)
    ensures var ms := RowsOf(b, entity, rows, lim);
            && (ms.Done? <==> forall r :: 0 <= r < rows ==> RowOf(b, entity, r, rows, lim).Done?)
            && (ms.Done? ==>
                  && |ms.value| == rows
                  && forall r :: 0 <= r < rows ==> RowOf(b, entity, r, rows, lim) == Done(ms.value[r]))
  {
    var all := AllRows(b, entity, rows, lim);
    Collected(all);
    assert forall r :: 0 <= r < rows ==> all[r] == RowOf(b, entity, r, rows, lim);
  }

  // If a batch is not read, the first cell that is not, row by row, decides between an error and a panic.
  lemma FirstFailure(b: Batch, entity: seq<Column>, rows: nat, lim: Limits) returns (r: nat, c: nat)
    requires ValidBatch(b, rows) && !RowsOf(b, entity, rows, lim).Done?
    ensures r < rows && c < |entity|
    ensures forall q, k :: 0 <= q < rows && 0 <= k < |entity| && (q < r || (q == r && k < c)) ==>
      ReadField(b, entity[k], q, rows, lim).Done?
    ensures RowsOf(b, entity, rows, lim).Panic? ==> ReadField(b, entity[c], r, rows, lim).Panic?
    ensures RowsOf(b, entity, rows, lim).Error? ==> ReadField(b, entity[c], r, rows, lim).Error?
  {
    var all := AllRows(b, entity, rows, lim);
    r := CollectFails(all);
    assert all[r] == RowOf(b, entity, r, rows, lim);
    var cells := RowCells(b, entity, r, rows, lim);
    c := CollectFails(cells);
    assert cells[c] == ReadField(b, entity[c], r, rows, lim);
    forall q, k | 0 <= q < rows && 0 <= k < |entity| && (q < r || (q == r && k < c))
      ensures ReadField(b, entity[k], q, rows, lim).Done?
    {
      if q < r {
        assert all[q] == RowOf(b, entity, q, rows, lim);
        RowRead(b, entity, q, rows, lim);
      } else {
        assert cells[k] == ReadField(b, entity[k], q, rows, lim);
      }
    }
  }

  predicate DistinctNames(entity: seq<Column>) {
    forall i, j :: 0 <= i < j < |entity| ==> entity[i].name != entity[j].name
  }

  // Every value is one its field can have.
  predicate WellTyped(entity: seq<Column>, m: Model, lim: Limits) {
    |m| == |entity| &&
    forall c :: 0 <= c < |entity| ==> m[c].NotSet? || FieldValue(entity[c], m[c].value, lim)
  }

  // ---- When a batch can be built ----

  // The value can be stored, and under a non-null field it leaves a cell.
  predicate ValueFits(v: ActiveValue, d: DataType, nullable: bool) {
    if v.NotSet? then nullable
    else
      && !WrongLength(v.value, d) && !OutOfReach(v.value, d)
      && (nullable || (!v.value.Null? && Stores(d, KindOf(v.value))
                       && !(IsDecimal(d) && v.value.Money? && TooWide(v.value.number, d))))
  }

  // A field of the schema takes all models: an unknown one must be nullable, unless there are no models.
  predicate FieldFits(entity: seq<Column>, models: seq<Model>, field: Field)
    requires Shaped(entity, models)
  {
    var c := ColumnNamed(entity, field.name);
    if c < 0 then field.nullable || models == []
    else
      && Buildable(field.dataType)
      && forall r :: 0 <= r < |models| ==> ValueFits(models[r][c], field.dataType, field.nullable)
  }

  lemma CellFits(entity: seq<Column>, m: Model, field: Field, lim: Limits)
    requires WellTyped(entity, m, lim) && ColumnNamed(entity, field.name) >= 0
    ensures var cell := CellFor(entity, m, field);
            var v := m[ColumnNamed(entity, field.name)];
            && (cell.Done? && (field.nullable || cell.value.Some?) <==> ValueFits(v, field.dataType, field.nullable))
            && (cell.Panic? <==> !v.NotSet? && OutOfReach(v.value, field.dataType))
  {
    var v := m[ColumnNamed(entity, field.name)];
    if !v.NotSet? { EncodeOutcome(v.value, field.dataType, lim); }
  }

  // to_arrow succeeds exactly if there is a field and every field takes all models.
  lemma WhenStorable(entity: seq<Column>, models: seq<Model>, fields: seq<Field>, lim: Limits)
    requires Shaped(entity, models) && forall r :: 0 <= r < |models| ==> WellTyped(entity, models[r], lim)
    ensures Storable(entity, models, fields) <==>
      fields != [] && forall f :: 0 <= f < |fields| ==> FieldFits(entity, models, fields[f])
  {
    forall f | 0 <= f < |fields|
      ensures Builds(entity, models, fields[f]) && (fields[f].nullable || NoNull(entity, models, fields[f]))
              <==> FieldFits(entity, models, fields[f])
    {
      FieldBuilds(entity, models, fields[f], lim);
    }
  }

  // One field; building its array panics exactly for a decimal out of reach, wherever it is.
  lemma FieldBuilds(entity: seq<Column>, models: seq<Model>, field: Field, lim: Limits)
    requires Shaped(entity, models) && forall r :: 0 <= r < |models| ==> WellTyped(entity, models[r], lim)
    ensures Builds(entity, models, field) && (field.nullable || NoNull(entity, models, field))
            <==> FieldFits(entity, models, field)
    ensures var c := ColumnNamed(entity, field.name);
            BuildPanics(entity, models, field) <==>
            c >= 0 && exists r :: 0 <= r < |models| && !models[r][c].NotSet?
                                  && OutOfReach(models[r][c].value, field.dataType)
  {
    var c := ColumnNamed(entity, field.name);
    if c >= 0 {
      forall r | 0 <= r < |models|
        ensures var cell := CellFor(entity, models[r], field);
                && (cell.Done? && (field.nullable || cell.value.Some?)
                    <==> ValueFits(models[r][c], field.dataType, field.nullable))
                && (cell.Panic? <==> !models[r][c].NotSet? && OutOfReach(models[r][c].value, field.dataType))
      {
        CellFits(entity, models[r], field, lim);
      }
    } else if models != [] {
      assert CellFor(entity, models[0], field) == Done(None);
    }
  }

  // ---- There and back ----

  // When one value of a model is read back without an error.
  predicate CellReturns(c: Column, v: ActiveValue, fields: seq<Field>, lim: Limits) {
    var f := FieldNamed(fields, c.name);
    f < 0 || if v.NotSet? then NullReturns(c) else Returns(c, v.value, fields[f].dataType, lim)
  }

  predicate CellPanics(c: Column, v: ActiveValue, fields: seq<Field>) {
    var f := FieldNamed(fields, c.name);
    f >= 0 && !v.NotSet? && v.value.Money? && Suits(c, fields[f].dataType)
    && ReadPanics(fields[f].dataType, Dec.Rescaled(v.value.number, ScaleOf(fields[f].dataType)))
  }

  // When it is moreover equal. A column the schema does not have comes back as not set, and a value that
  // is not set comes back as a null.
  predicate CellSurvives(c: Column, v: ActiveValue, fields: seq<Field>, lim: Limits) {
    var f := FieldNamed(fields, c.name);
    f >= 0 && !v.NotSet? && Survives(c, v.value, fields[f].dataType, lim)
  }

  predicate SameSet(v: ActiveValue, back: ActiveValue) {
    !v.NotSet? && back.Set? && Same(v.value, back.value)
  }

  predicate CanHoldBack(c: Column, v: ActiveValue, back: ActiveValue, fields: seq<Field>) {
    if FieldNamed(fields, c.name) < 0 then back == NotSet
    else back.Set? && CanHold(c, back.value) && (v.NotSet? ==> back.value == Null(c.kind))
  }

  lemma OwnPosition(entity: seq<Column>, c: nat)
    requires c < |entity| && DistinctNames(entity)
    ensures ColumnNamed(entity, entity[c].name) == c
  {
    assert ColumnNames(entity)[c] == entity[c].name;
  }

  lemma BatchIsValid(b: Batch, entity: seq<Column>, models: seq<Model>, fields: seq<Field>)
    requires Shaped(entity, models) && IsBatchOf(b, entity, models, fields)
    ensures ValidBatch(b, |models|)
  {
  }

  // The cell under a column's own field is the one stored for its value.
  lemma OwnCell(entity: seq<Column>, models: seq<Model>, fields: seq<Field>, b: Batch, r: nat, c: nat, f: nat)
    requires DistinctNames(entity)
    requires Shaped(entity, models) && IsBatchOf(b, entity, models, fields)
    requires r < |models| && c < |entity| && f < |fields| && fields[f].name == entity[c].name
    ensures |b.columns[f].cells| == |models| && b.columns[f].dataType == fields[f].dataType
    ensures Buildable(fields[f].dataType)
    ensures (if models[r][c].NotSet? then Done(None) else Encode(models[r][c].value, fields[f].dataType))
            == Done(b.columns[f].cells[r])
  {
    OwnPosition(entity, c);
    assert IsArrayOf(b.columns[f], entity, models, fields[f]) && Builds(entity, models, fields[f]);
    assert CellFor(entity, models[r], fields[f]) == Done(b.columns[f].cells[r]);
  }

  // One cell of one row, in its place: when it is read, as what, and when equal.
  lemma CellComesBack(entity: seq<Column>, models: seq<Model>, fields: seq<Field>, b: Batch, r: nat, c: nat,
                      lim: Limits)
    requires lim.Sound() && DistinctNames(entity)
    requires Shaped(entity, models) && IsBatchOf(b, entity, models, fields) && ValidBatch(b, |models|)
    requires r < |models| && c < |entity| && WellTyped(entity, models[r], lim)
    ensures var back := ReadField(b, entity[c], r, |models|, lim);
            && (back.Done? <==> CellReturns(entity[c], models[r][c], fields, lim))
            && (back.Panic? <==> CellPanics(entity[c], models[r][c], fields))
            && (back.Done? ==>
                  && CanHoldBack(entity[c], models[r][c], back.value, fields)
                  && (SameSet(models[r][c], back.value) <==> CellSurvives(entity[c], models[r][c], fields, lim)))
  {
    var f := FieldNamed(fields, entity[c].name);
    if f >= 0 {
      OwnCell(entity, models, fields, b, r, c, f);
      var d := fields[f].dataType;
      if models[r][c].NotSet? {
        NullRead(entity[c], d, lim);
      } else {
        ComesBack(entity[c], models[r][c].value, d, lim);
      }
    }
  }

  // Row by row, for the whole batch.
  lemma AllComeBack(entity: seq<Column>, models: seq<Model>, fields: seq<Field>, b: Batch, lim: Limits)
    requires lim.Sound() && DistinctNames(entity)
    requires Shaped(entity, models) && IsBatchOf(b, entity, models, fields) && ValidBatch(b, |models|)
    requires forall r :: 0 <= r < |models| ==> WellTyped(entity, models[r], lim)
    ensures var ms := RowsOf(b, entity, |models|, lim);
            && (ms.Done? <==> AllReturn(entity, models, fields, lim))
            && (ms.Done? ==>
                  && |ms.value| == |models| && Shaped(entity, ms.value)
                  && forall r, c :: 0 <= r < |models| && 0 <= c < |entity| ==>
                       ReadField(b, entity[c], r, |models|, lim) == Done(ms.value[r][c]))
  {
    RowsRead(b, entity, |models|, lim);
    forall r | 0 <= r < |models|
      ensures RowOf(b, entity, r, |models|, lim).Done? <==> RowReturns(entity, models[r], fields, lim)
    {
      RowRead(b, entity, r, |models|, lim);
      forall c | 0 <= c < |entity|
        ensures ReadField(b, entity[c], r, |models|, lim).Done? <==> CellReturns(entity[c], models[r][c], fields, lim)
      {
        CellComesBack(entity, models, fields, b, r, c, lim);
      }
    }
    forall r | 0 <= r < |models| {
      RowRead(b, entity, r, |models|, lim);
    }
  }

  predicate RowReturns(entity: seq<Column>, m: Model, fields: seq<Field>, lim: Limits)
    requires |m| == |entity|
  {
    forall c :: 0 <= c < |entity| ==> CellReturns(entity[c], m[c], fields, lim)
  }

  predicate AllReturn(entity: seq<Column>, models: seq<Model>, fields: seq<Field>, lim: Limits)
    requires Shaped(entity, models)
  {
    forall r :: 0 <= r < |models| ==> RowReturns(entity, models[r], fields, lim)
  }

  // Models into a batch and back into models. It succeeds exactly if the batch can be built and every value
  // is one that returns; then there is one model per row, in order, and every value that can come back
  // equal does.
  method ThereAndBack(entity: seq<Column>, models: seq<Model>, fields: seq<Field>, lim: Limits)
    returns (res: Attempt<seq<Model>>)
    requires lim.Sound() && DistinctNames(entity) && Shaped(entity, models)
    requires forall r :: 0 <= r < |models| ==> WellTyped(entity, models[r], lim)
    ensures res.Done? <==> Storable(entity, models, fields) && AllReturn(entity, models, fields, lim)
    ensures res.Done? ==> |res.value| == |models| && Shaped(entity, res.value)
    ensures res.Done? ==> forall r, c :: 0 <= r < |models| && 0 <= c < |entity| ==>
      && CanHoldBack(entity[c], models[r][c], res.value[r][c], fields)
      && (SameSet(models[r][c], res.value[r][c]) <==> CellSurvives(entity[c], models[r][c], fields, lim))
  {
    var stored := ToArrow(entity, models, fields);
    if stored.Panic? { return Panic; }
    if stored.Error? { return Error; }
    var b := stored.value;
    BatchIsValid(b, entity, models, fields);
    AllComeBack(entity, models, fields, b, lim);
    res := FromArrow(entity, b, |models|, lim);
    if res.Done? {
      forall r, c | 0 <= r < |models| && 0 <= c < |entity|
        ensures CanHoldBack(entity[c], models[r][c], res.value[r][c], fields)
        ensures SameSet(models[r][c], res.value[r][c]) <==> CellSurvives(entity[c], models[r][c], fields, lim)
      {
        CellComesBack(entity, models, fields, b, r, c, lim);
      }
    }
  }

  // For fully set models and a schema with all columns, whatever other fields it has: the batch reads back
  // equal, every value in its place and marked Set, if and only if every single value survives.
  lemma FullModelsComeBack(entity: seq<Column>, models: seq<Model>, fields: seq<Field>, b: Batch, lim: Limits)
    requires lim.Sound() && DistinctNames(entity)
    requires Shaped(entity, models) && IsBatchOf(b, entity, models, fields) && ValidBatch(b, |models|)
    requires forall r :: 0 <= r < |models| ==> WellTyped(entity, models[r], lim)
    requires forall r, c :: 0 <= r < |models| && 0 <= c < |entity| ==> !models[r][c].NotSet?
    requires forall c :: 0 <= c < |entity| ==> FieldNamed(fields, entity[c].name) >= 0
    ensures var ms := RowsOf(b, entity, |models|, lim);
            && (ms.Done? && |ms.value| == |models| && Shaped(entity, ms.value)
                && forall r, c :: 0 <= r < |models| && 0 <= c < |entity| ==> SameSet(models[r][c], ms.value[r][c]))
            <==> forall r, c :: 0 <= r < |models| && 0 <= c < |entity| ==>
                   Survives(entity[c], models[r][c].value, fields[FieldNamed(fields, entity[c].name)].dataType, lim)
  {
    AllComeBack(entity, models, fields, b, lim);
    forall r, c | 0 <= r < |models| && 0 <= c < |entity|
      ensures var back := ReadField(b, entity[c], r, |models|, lim);
              && (back.Done? <==> CellReturns(entity[c], models[r][c], fields, lim))
              && (back.Done? ==>
                    (SameSet(models[r][c], back.value) <==> CellSurvives(entity[c], models[r][c], fields, lim)))
    {
      CellComesBack(entity, models, fields, b, r, c, lim);
    }
  }

  // A field that is no column of the entity becomes a column of nulls.
  lemma UnknownFieldIsNull(entity: seq<Column>, models: seq<Model>, fields: seq<Field>, b: Batch, f: nat)
    requires Shaped(entity, models) && IsBatchOf(b, entity, models, fields)
    requires f < |fields| && forall c :: 0 <= c < |entity| ==> entity[c].name != fields[f].name
    ensures b.columns[f].cells == seq(|models|, _ => None)
  {
    assert fields[f].name !in ColumnNames(entity);
    assert IsArrayOf(b.columns[f], entity, models, fields[f]);
    assert forall r :: 0 <= r < |models| ==> CellFor(entity, models[r], fields[f]) == Done(b.columns[f].cells[r]);
  }
}
