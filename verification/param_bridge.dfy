/** The bridge between an operation's declared fields and the name-value map a
    hook script sees (`getParamMap` / `setParamMap`). Reflection is replaced by
    an explicit sequence of declared fields. */
module ParamBridge {

  type FieldName = string

  /** A field value as a script sees it: Java `null`, a string, a number, a
      boolean, or a reference to some other object identified by `id`. */
  datatype Value = Null | Str(s: string) | Int(i: int) | Bool(b: bool) | Ref(id: nat)

  /** One declared field of an operation and its current value. */
  datatype Field = Field(name: FieldName, value: Value)

  /** An operation, seen through its declared fields in the order reflection
      lists them; once names are distinct, nothing depends on that order. */
  type Operation = seq<Field>

  /** The map handed to a script under the name `params`. */
  type ParamMap = map<FieldName, Value>

  /** The names of the declared fields. */
  function Names(op: Operation): set<FieldName>
  {
    set i | 0 <= i < |op| :: op[i].name
  }

  /** A Java class never declares two fields of the same name. */
  predicate DistinctNames(op: Operation)
  {
    forall i, j :: 0 <= i < j < |op| ==> op[i].name != op[j].name
  }

  /** `getParamMap`: one entry per declared field, holding that field's value. */
  function GetParamMap(op: Operation): (r: ParamMap)
    ensures r.Keys == Names(op)
    ensures DistinctNames(op) ==> forall i :: 0 <= i < |op| ==> r[op[i].name] == op[i].value
  {
    if |op| == 0 then map[]
    else
      var init := op[..|op| - 1];
      var last := op[|op| - 1];
      var prev := GetParamMap(init);
      AddLastField(init, last, prev);
      assert init + [last] == op;
      prev[last.name := last.value]
  }

  /** Extending the map of the fields `init` with one more field `last` gives
      the map that `GetParamMap` promises for `init + [last]`. */
  lemma AddLastField(init: Operation, last: Field, prev: ParamMap)
    requires prev.Keys == Names(init)
    requires DistinctNames(init) ==> forall i :: 0 <= i < |init| ==> prev[init[i].name] == init[i].value
    ensures prev[last.name := last.value].Keys == Names(init + [last])
    ensures DistinctNames(init + [last]) ==> forall i :: 0 <= i < |init| + 1 ==>
      prev[last.name := last.value][(init + [last])[i].name] == (init + [last])[i].value
  {
    var op := init + [last];
    var r := prev[last.name := last.value];
    assert forall i :: 0 <= i < |init| ==> op[i] == init[i];
    assert op[|init|] == last;
    assert Names(op) == Names(init) + {last.name};
    if DistinctNames(op) {
      assert DistinctNames(init);
      forall i | 0 <= i < |init|
        ensures r[op[i].name] == op[i].value
      {
        assert op[i].name != last.name;
      }
    }
  }

  /** One field after write-back: replaced verbatim when the map names it. */
  function Assign(m: ParamMap, f: Field): Field
  {
    if f.name in m then Field(f.name, m[f.name]) else f
  }

  /** `setParamMap`: walks the declared fields in the order reflection lists
      them and overwrites every field whose name is a key of `m` with exactly
      `m`'s value; other fields keep their values, other keys are ignored and
      no field is added. */
  function SetParamMap(m: ParamMap, op: Operation): (r: Operation)
    ensures |r| == |op|
    ensures forall i :: 0 <= i < |op| ==> r[i].name == op[i].name
    ensures forall i :: 0 <= i < |op| && op[i].name in m ==> r[i].value == m[op[i].name]
    ensures forall i :: 0 <= i < |op| && op[i].name !in m ==> r[i] == op[i]
  {
    if |op| == 0 then []
    else [Assign(m, op[0])] + SetParamMap(m, op[1..])
  }

  /** Write-back keeps the declared field names, and hence their distinctness. */
  lemma SetParamMapKeepsNames(m: ParamMap, op: Operation)
    ensures Names(SetParamMap(m, op)) == Names(op)
    ensures DistinctNames(op) ==> DistinctNames(SetParamMap(m, op))
  {
    var r := SetParamMap(m, op);
    assert forall i :: 0 <= i < |op| ==> r[i].name == op[i].name;
  }

  /** Writing back an unmodified parameter map leaves the operation as it was. */
  lemma RoundTrip(op: Operation)
    requires DistinctNames(op)
    ensures SetParamMap(GetParamMap(op), op) == op
  {
    var r := SetParamMap(GetParamMap(op), op);
    assert forall i :: 0 <= i < |op| ==> r[i] == op[i];
  }

  /** Writing back the same map twice is the same as writing it back once. */
  lemma WriteBackIdempotent(m: ParamMap, op: Operation)
    ensures SetParamMap(m, SetParamMap(m, op)) == SetParamMap(m, op)
  {
    var r := SetParamMap(m, op);
    var r2 := SetParamMap(m, r);
    assert forall i :: 0 <= i < |op| ==> r2[i] == r[i];
  }

  /** Keys that name no declared field have no effect on write-back. */
  lemma UnknownKeysIgnored(m: ParamMap, op: Operation)
    ensures SetParamMap(m, op) == SetParamMap(map k | k in m && k in Names(op) :: m[k], op)
  {
    var m' := map k | k in m && k in Names(op) :: m[k];
    var r := SetParamMap(m, op);
    var r' := SetParamMap(m', op);
    forall i | 0 <= i < |op|
      ensures r[i] == r'[i]
    {
      assert op[i].name in Names(op);
    }
  }

  /** A map none of whose keys names a declared field changes nothing. */
  lemma NoMatchingKeyNoChange(m: ParamMap, op: Operation)
    requires m.Keys !! Names(op)
    ensures SetParamMap(m, op) == op
  {
    var r := SetParamMap(m, op);
    forall i | 0 <= i < |op|
      ensures r[i] == op[i]
    {
      assert op[i].name in Names(op);
    }
  }

  /** The parameters after a write-back, as a map: the old parameters
      overridden by those entries of `m` that name declared fields. */
  function Merged(m: ParamMap, op: Operation): ParamMap
  {
    var params := GetParamMap(op);
    map k | k in params :: if k in m then m[k] else params[k]
  }

  /** Maps are equal when they agree on keys and on every value. */
  lemma SameMap(a: ParamMap, b: ParamMap)
    requires a.Keys == b.Keys
    requires forall k :: k in a ==> a[k] == b[k]
    ensures a == b
  {
  }

  /** The parameter of field `i` after a write-back is that field's new value. */
  lemma ExtractAfterWriteBackAt(m: ParamMap, op: Operation, i: int)
    requires DistinctNames(op) && 0 <= i < |op|
    ensures GetParamMap(SetParamMap(m, op))[op[i].name] == Assign(m, op[i]).value
  {
    var r := SetParamMap(m, op);
    SetParamMapKeepsNames(m, op);
    assert r[i].name == op[i].name;
  }

  /** Reading the parameters after a write-back gives the old parameters
      overridden by those entries of `m` that name declared fields. */
  lemma ExtractAfterWriteBack(m: ParamMap, op: Operation)
    requires DistinctNames(op)
    ensures GetParamMap(SetParamMap(m, op)) == Merged(m, op)
  {
    SetParamMapKeepsNames(m, op);
    var lhs := GetParamMap(SetParamMap(m, op));
    var rhs := Merged(m, op);
    forall k | k in lhs
      ensures lhs[k] == rhs[k]
    {
      MergedAt(m, op, k);
    }
    SameMap(lhs, rhs);
  }

  /** The parameter `k` after a write-back is the one `Merged` predicts. */
  lemma MergedAt(m: ParamMap, op: Operation, k: FieldName)
    requires DistinctNames(op) && k in Names(op)
    ensures k in GetParamMap(SetParamMap(m, op)) && k in Merged(m, op)
    ensures GetParamMap(SetParamMap(m, op))[k] == Merged(m, op)[k]
  {
    SetParamMapKeepsNames(m, op);
    var i :| 0 <= i < |op| && op[i].name == k;
    ExtractAfterWriteBackAt(m, op, i);
  }

  /** A script that changes one parameter `k` of a declared field changes only
      that field, to exactly the new value. */
  lemma SelectiveMutation(op: Operation, k: FieldName, v: Value)
    requires DistinctNames(op) && k in Names(op)
    ensures var r := SetParamMap(GetParamMap(op)[k := v], op);
      && |r| == |op|
      && forall i :: 0 <= i < |op| ==> r[i] == (if op[i].name == k then Field(k, v) else op[i])
  {
    var m := GetParamMap(op)[k := v];
    var r := SetParamMap(m, op);
    forall i | 0 <= i < |op|
      ensures r[i] == (if op[i].name == k then Field(k, v) else op[i])
    {
      assert op[i].name in Names(op);
      assert r[i] == Assign(m, op[i]);
    }
  }

  /** A script that only adds a parameter naming no declared field changes nothing. */
  lemma UnknownParameterNoChange(op: Operation, k: FieldName, v: Value)
    requires DistinctNames(op) && k !in Names(op)
    ensures SetParamMap(GetParamMap(op)[k := v], op) == op
  {
    var r := SetParamMap(GetParamMap(op)[k := v], op);
    forall i | 0 <= i < |op|
      ensures r[i] == op[i]
    {
      assert op[i].name in Names(op);
    }
  }
}
