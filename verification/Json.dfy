/** JSON values as `serde_json` holds them: objects are key-ordered maps, so two
    objects with the same entries are equal. Numbers are integers here. */
module Json {

  datatype Json =
    | Null
    | Bool(flag: bool)
    | Number(number: int)
    | String(text: string)
    | Array(items: seq<Json>)
    | Object(fields: map<string, Json>)

  const EMPTY := Object(map[])

  predicate IsScalar(v: Json) {
    v.Null? || v.Bool? || v.Number? || v.String?
  }

  /** What following object fields from `v` meets: the value, or the depth at
      which a field is missing, or at which the value has no fields at all. */
  datatype Outcome = Found(value: Json) | Missing(depth: nat) | NoFields(depth: nat)

  function Walk(v: Json, path: seq<string>): Outcome {
    WalkFrom(v, path, 0)
  }

  function WalkFrom(v: Json, path: seq<string>, depth: nat): Outcome
    decreases |path|
  {
    if |path| == 0 then Found(v)
    else if !v.Object? then NoFields(depth)
    else if path[0] !in v.fields then Missing(depth)
    else WalkFrom(v.fields[path[0]], path[1..], depth + 1)
  }

  /** One step of the walk, taken at the end of the path. */
  function Step(o: Outcome, field: string, depth: nat): Outcome {
    if !o.Found? then o
    else if !o.value.Object? then NoFields(depth)
    else if field !in o.value.fields then Missing(depth)
    else Found(o.value.fields[field])
  }

  lemma {:induction false} WalkFromSnoc(v: Json, path: seq<string>, field: string, depth: nat)
    ensures WalkFrom(v, path + [field], depth)
         == Step(WalkFrom(v, path, depth), field, depth + |path|)
    decreases |path|
  {
    if |path| > 0 {
      assert (path + [field])[1..] == path[1..] + [field];
      if v.Object? && path[0] in v.fields {
        WalkFromSnoc(v.fields[path[0]], path[1..], field, depth + 1);
      }
    } else {
      assert path + [field] == [field];
      assert [field][1..] == [];
      if v.Object? && field in v.fields {
        assert WalkFrom(v, [field], depth) == WalkFrom(v.fields[field], [], depth + 1);
      }
    }
  }

  lemma WalkSnoc(v: Json, path: seq<string>, field: string)
    ensures Walk(v, path + [field]) == Step(Walk(v, path), field, |path|)
  {
    WalkFromSnoc(v, path, field, 0);
  }

  lemma {:induction false} WalkStops(v: Json, path: seq<string>, depth: nat)
    ensures var o := WalkFrom(v, path, depth);
            (o.Missing? || o.NoFields?) ==> depth <= o.depth < depth + |path|
    decreases |path|
  {
    if |path| > 0 && v.Object? && path[0] in v.fields {
      WalkStops(v.fields[path[0]], path[1..], depth + 1);
    }
  }
}
