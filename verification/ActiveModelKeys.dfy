// Primary keys of active models: reading them, and keeping them across an update from JSON.
module ActiveModelKeys {
  import opened Wrappers

  type Value = int

  datatype ActiveValue = Set(value: Value) | Unchanged(value: Value) | NotSet {
    function IntoValue(): Option<Value> { if NotSet? then None else Some(value) }
  }

  datatype ValueTuple = One(v: Value) | Two(v1: Value, v2: Value) | Three(w1: Value, w2: Value, w3: Value)
                      | Many(vs: seq<Value>) {
    function Values(): seq<Value> {
      match this case One(v) => [v] case Two(v1, v2) => [v1, v2] case Three(w1, w2, w3) => [w1, w2, w3]
                 case Many(vs) => vs
    }
  }

  // The columns by position, those of the primary key in order, and the arity of its value type.
  class ActiveModel {
    const keys: seq<nat>
    const arity: nat
    var fields: seq<ActiveValue>

    constructor (keys: seq<nat>, arity: nat, fields: seq<ActiveValue>)
      ensures this.keys == keys && this.arity == arity && this.fields == fields
    {
      this.keys := keys;
      this.arity := arity;
      this.fields := fields;
    }

    predicate Valid()
      reads this
    {
      (forall k :: 0 <= k < |keys| ==> keys[k] < |fields|) &&
      (forall j, k :: 0 <= j < k < |keys| ==> keys[j] != keys[k])
    }

    // The value of the n-th key column, if there is one and it is set.
    function Key(n: nat): Option<Value>
      requires Valid()
      reads this
    {
      if n < |keys| then fields[keys[n]].IntoValue() else None
    }

    method IsUpdate() returns (isUpdate: bool)
      requires Valid()
      ensures isUpdate <==> KeysSet(keys, fields, |keys|)
      ensures isUpdate <==> forall n :: 0 <= n < |keys| ==> fields[keys[n]] != NotSet
    {
      isUpdate := true;
      for n := 0 to |keys|
        invariant isUpdate && KeysSet(keys, fields, n)
      {
        if fields[keys[n]].NotSet? {
          isUpdate := false;
          break;
        }
      }
    }

    // The tuple's shape is given by the arity; running out of key columns is None as well.
    method GetPrimaryKeyValue() returns (res: Option<ValueTuple>)
      requires Valid()
      ensures res.Some? <==> KeysSet(keys, fields, arity)
      ensures res.Some? <==> arity <= |keys| && forall n :: 0 <= n < arity ==> fields[keys[n]] != NotSet
      ensures res.Some? ==>
        && |res.value.Values()| == arity
        && (forall n :: 0 <= n < arity ==> res.value.Values()[n] == fields[keys[n]].value)
        && (res.value.One? <==> arity == 1) && (res.value.Two? <==> arity == 2)
        && (res.value.Three? <==> arity == 3)
    {
      match arity {
        case 1 =>
          var s1 := Key(0);
          if s1.None? { return None; }
          res := Some(One(s1.value));
        case 2 =>
          var s1 := Key(0);
          if s1.None? { return None; }
          var s2 := Key(1);
          if s2.None? { return None; }
          res := Some(Two(s1.value, s2.value));
        case 3 =>
          var s1 := Key(0);
          if s1.None? { return None; }
          var s2 := Key(1);
          if s2.None? { return None; }
          var s3 := Key(2);
          if s3.None? { return None; }
          res := Some(Three(s1.value, s2.value, s3.value));
        case len =>
          var vec: seq<Value> := [];
          for n := 0 to len
            invariant |vec| == n
            invariant KeysSet(keys, fields, n) && forall j :: 0 <= j < n ==> Some(vec[j]) == Key(j)
          {
            var s := Key(n);
            if s.None? { return None; }
            vec := vec + [s.value];
          }
          res := Some(Many(vec));
      }
    }

    // The keys are taken out, the model is replaced by the parsed one, and the keys are put back. If
    // parsing fails the function returns before putting them back.
    method SetFromJson(lib: Json, json: JsonValue) returns (ok: bool)
      requires Valid() && lib.Covers(|fields|)
      modifies this
      ensures Valid() && |fields| == |old(fields)|
      ensures (fields, ok) == Replace(old(fields), keys, FromJsonSpec(lib, json))
    {
      var backup: seq<ActiveValue> := [];
      for n := 0 to |keys|
        invariant Valid() && |backup| == n
        invariant fields == TakeOut(old(fields), keys[..n])
        invariant forall j :: 0 <= j < n ==> backup[j] == old(fields)[keys[j]]
      {
        TakeOutNext(old(fields), keys, n);
        backup := backup + [fields[keys[n]]];
        fields := fields[keys[n] := NotSet];
      }
      assert keys[..|keys|] == keys;

      var am := FromJson(lib, json);
      if am.None? { return false; }
      fields := am.value;

      for n := 0 to |keys|
        invariant Valid() && |fields| == |old(fields)|
        invariant fields == PutBack(am.value, old(fields), keys[..n])
      {
        PutBackNext(am.value, old(fields), keys, n);
        match backup[n]
        case Unchanged(v) => fields := fields[keys[n] := Set(v)];
        case Set(v) => fields := fields[keys[n] := Set(v)];
        case NotSet => fields := fields[keys[n] := NotSet];
      }
      ok := true;
    }
  }

  // ---- Keys and updates ----

  predicate KeysSet(keys: seq<nat>, fields: seq<ActiveValue>, count: nat) {
    count <= |keys| && forall n :: 0 <= n < count ==> keys[n] < |fields| && !fields[keys[n]].NotSet?
  }

  // "The primary key is fully specified" and "the primary key has a value" agree on every model exactly
  // when the arity is the number of key columns.
  lemma UpdateIffKeyValue(keys: seq<nat>, arity: nat, columns: nat)
    requires forall k :: 0 <= k < |keys| ==> keys[k] < columns
    requires forall j, k :: 0 <= j < k < |keys| ==> keys[j] != keys[k]
    ensures arity == |keys| <==>
      forall fields: seq<ActiveValue> :: |fields| == columns ==>
        (KeysSet(keys, fields, |keys|) <==> KeysSet(keys, fields, arity))
  {
    if arity > |keys| {
      var full := seq(columns, _ => Set(0));
      assert KeysSet(keys, full, |keys|) && !KeysSet(keys, full, arity);
    } else if arity < |keys| {
      var last := keys[|keys| - 1];
      var partial := seq(columns, c => if c == last then NotSet else Set(0));
      assert partial[keys[|keys| - 1]].NotSet?;
      assert KeysSet(keys, partial, arity) && !KeysSet(keys, partial, |keys|);
    }
  }

  // ---- from_json ----

  type JsonCell = int
  datatype JsonValue = Object(entries: map<string, JsonCell>) | Other

  // What the model's derived code and the JSON library supply: the key of each column, the defaults, the
  // JSON form of a value, and the parse of an object into a model.
  datatype Json = Json(
    names: seq<string>,
    defaults: seq<ActiveValue>,
    encode: Value -> JsonCell,
    parse: map<string, JsonCell> -> Option<seq<ActiveValue>>)
  {
    ghost predicate Covers(columns: nat) {
      && |names| == columns && |defaults| == columns
      && forall m :: parse(m).Some? ==> |parse(m).value| == columns
    }
  }

  // Defaults of the first `n` columns; of two columns with one key the later wins.
  function Merged(lib: Json, n: nat): map<string, JsonCell>
    requires n <= |lib.names| && n <= |lib.defaults|
  {
    if n == 0 then map[]
    else
      var m, d := Merged(lib, n - 1), lib.defaults[n - 1];
      if d.NotSet? then m else m[lib.names[n - 1] := lib.encode(d.value)]
  }

  ghost function FromJsonSpec(lib: Json, json: JsonValue): Option<seq<ActiveValue>>
    requires lib.Covers(|lib.names|)
  {
    if json.Other? then None
    else match lib.parse(Merged(lib, |lib.names|) + json.entries)
         case None => None
         case Some(am) => Some(seq(|am|, c requires 0 <= c < |am| =>
           if lib.names[c] in json.entries && !am[c].NotSet? then Set(am[c].value) else NotSet))
  }

  method FromJson(lib: Json, json: JsonValue) returns (res: Option<seq<ActiveValue>>)
    requires lib.Covers(|lib.names|)
    ensures res == FromJsonSpec(lib, json)
  {
    if json.Other? { return None; }
    var input := json.entries;
    var hasKey: seq<bool> := [];
    var merged: map<string, JsonCell> := map[];
    for c := 0 to |lib.names|
      invariant |hasKey| == c && forall j :: 0 <= j < c ==> hasKey[j] == (lib.names[j] in input)
      invariant merged == Merged(lib, c)
    {
      hasKey := hasKey + [lib.names[c] in input];
      if !lib.defaults[c].NotSet? {
        merged := merged[lib.names[c] := lib.encode(lib.defaults[c].value)];
      }
    }
    merged := merged + input;
    var model := lib.parse(merged);
    if model.None? { return None; }
    var am := model.value;
    for c := 0 to |hasKey|
      invariant |am| == |hasKey|
      invariant forall j :: 0 <= j < c ==>
        am[j] == if hasKey[j] && !model.value[j].NotSet? then Set(model.value[j].value) else NotSet
      invariant forall j :: c <= j < |am| ==> am[j] == model.value[j]
    {
      am := am[c := if hasKey[c] && !am[c].NotSet? then Set(am[c].value) else NotSet];
    }
    res := Some(am);
    assert am == FromJsonSpec(lib, json).value;
  }

  // What is parsed: the JSON's own entries, and for columns it does not mention their default, if any.
  lemma JsonOverDefaults(lib: Json, entries: map<string, JsonCell>, c: nat)
    requires lib.Covers(|lib.names|) && c < |lib.names|
    requires forall i, j :: 0 <= i < j < |lib.names| ==> lib.names[i] != lib.names[j]
    ensures var parsed, key, default := Merged(lib, |lib.names|) + entries, lib.names[c], lib.defaults[c];
            && (key in parsed <==> key in entries || !default.NotSet?)
            && (key in parsed ==>
                  parsed[key] == if key in entries then entries[key] else lib.encode(default.value))
    ensures forall key :: key in entries ==> key in Merged(lib, |lib.names|) + entries
  {
    DefaultOf(lib, |lib.names|, c);
  }

  lemma {:induction false} DefaultOf(lib: Json, n: nat, c: nat)
    requires n <= |lib.names| == |lib.defaults| && c < |lib.names|
    requires forall i, j :: 0 <= i < j < |lib.names| ==> lib.names[i] != lib.names[j]
    ensures lib.names[c] in Merged(lib, n) <==> c < n && !lib.defaults[c].NotSet?
    ensures lib.names[c] in Merged(lib, n) ==> Merged(lib, n)[lib.names[c]] == lib.encode(lib.defaults[c].value)
  {
    if n > 0 {
      DefaultOf(lib, n - 1, c);
      assert n - 1 < c ==> lib.names[n - 1] != lib.names[c];
      assert c < n - 1 ==> lib.names[c] != lib.names[n - 1];
    }
  }

  // ---- set_from_json ----

  function TakeOut(fields: seq<ActiveValue>, keys: seq<nat>): seq<ActiveValue> {
    seq(|fields|, c requires 0 <= c < |fields| => if c in keys then NotSet else fields[c])
  }

  // A key comes back as Set, whether it was Set or Unchanged.
  function PutBack(parsed: seq<ActiveValue>, fields: seq<ActiveValue>, keys: seq<nat>): seq<ActiveValue>
    requires |parsed| == |fields|
  {
    seq(|fields|, c requires 0 <= c < |fields| =>
      if c !in keys then parsed[c] else if fields[c].NotSet? then NotSet else Set(fields[c].value))
  }

  function Replace(fields: seq<ActiveValue>, keys: seq<nat>, parsed: Option<seq<ActiveValue>>):
      (seq<ActiveValue>, bool)
    requires parsed.Some? ==> |parsed.value| == |fields|
  {
    if parsed.None? then (TakeOut(fields, keys), false) else (PutBack(parsed.value, fields, keys), true)
  }

  lemma TakeOutNext(fields: seq<ActiveValue>, keys: seq<nat>, n: nat)
    requires n < |keys| && keys[n] < |fields| && forall j :: 0 <= j < n ==> keys[j] != keys[n]
    ensures TakeOut(fields, keys[..n + 1]) == TakeOut(fields, keys[..n])[keys[n] := NotSet]
    ensures TakeOut(fields, keys[..n])[keys[n]] == fields[keys[n]]
  {
    assert keys[..n + 1] == keys[..n] + [keys[n]];
  }

  lemma PutBackNext(parsed: seq<ActiveValue>, fields: seq<ActiveValue>, keys: seq<nat>, n: nat)
    requires |parsed| == |fields| && n < |keys| && keys[n] < |fields|
    ensures var f := fields[keys[n]];
            PutBack(parsed, fields, keys[..n + 1]) ==
            PutBack(parsed, fields, keys[..n])[keys[n] := if f.NotSet? then NotSet else Set(f.value)]
  {
    assert keys[..n + 1] == keys[..n] + [keys[n]];
  }

  predicate KeyValuesKept(before: seq<ActiveValue>, after: seq<ActiveValue>, keys: seq<nat>) {
    |before| == |after| &&
    forall k :: 0 <= k < |keys| && keys[k] < |before| ==>
      after[keys[k]].IntoValue() == before[keys[k]].IntoValue()
  }

  // The object that is parsed parses.
  ghost predicate Parses(lib: Json, json: JsonValue)
    requires lib.Covers(|lib.names|)
  {
    json.Object? && lib.parse(Merged(lib, |lib.names|) + json.entries).Some?
  }

  // The key values are unchanged if and only if the JSON is an object that parses over the defaults, or no
  // key was set. If it parses every other column is Set exactly if the JSON has its key, to the parsed
  // value, and a key is Set, if it was set or unchanged; if not, the keys are lost and nothing else changes.
  lemma KeysSurviveSuccess(lib: Json, json: JsonValue, fields: seq<ActiveValue>, keys: seq<nat>)
    requires lib.Covers(|fields|) && forall k :: 0 <= k < |keys| ==> keys[k] < |fields|
    ensures var (after, ok) := Replace(fields, keys, FromJsonSpec(lib, json));
            && (ok <==> Parses(lib, json))
            && (KeyValuesKept(fields, after, keys) <==>
                  Parses(lib, json) || forall k :: 0 <= k < |keys| ==> fields[keys[k]].NotSet?)
            && (forall k :: 0 <= k < |keys| ==>
                  var key := fields[keys[k]];
                  after[keys[k]] == if !ok || key.NotSet? then NotSet else Set(key.value))
            && (forall c :: 0 <= c < |fields| && c !in keys ==>
                  if !Parses(lib, json) then after[c] == fields[c]
                  else
                    var v := lib.parse(Merged(lib, |lib.names|) + json.entries).value[c];
                    after[c] == if lib.names[c] in json.entries && !v.NotSet? then Set(v.value) else NotSet)
  {
  }

  // One set key and a JSON that is no object: whatever the library does, the call fails and the key is gone.
  lemma NonObjectLosesKey(lib: Json, value: Value)
    requires lib.Covers(1)
    ensures FromJsonSpec(lib, Other).None?
    ensures Replace([Set(value)], [0], FromJsonSpec(lib, Other)) == ([NotSet], false)
    ensures !KeyValuesKept([Set(value)], [NotSet], [0])
  {
    assert 0 in [0];
    assert TakeOut([Set(value)], [0]) == [NotSet];
    assert [Set(value)][0].IntoValue() != [NotSet][0].IntoValue();
  }
}
