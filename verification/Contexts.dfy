/** Partial evaluation contexts: the deep-extension order on JSON, the merge that
    fails on conflict, and placing a value at a dotted path. */
module Contexts {
  import opened Prelude
  import opened Json
  import Text
  import Order

  /** `b` carries everything `a` does: objects may gain fields at any depth,
      everything else stays as it is. */
  ghost predicate Extends(a: Json, b: Json)
    decreases a
  {
    if a.Object? && b.Object? then
      && a.fields.Keys <= b.fields.Keys
      && forall k | k in a.fields :: Extends(a.fields[k], b.fields[k])
    else a == b
  }

  lemma {:induction false} ExtendsReflexive(a: Json)
    ensures Extends(a, a)
    decreases a
  {
    if a.Object? {
      forall k | k in a.fields ensures Extends(a.fields[k], a.fields[k]) {
        ExtendsReflexive(a.fields[k]);
      }
    }
  }

  lemma {:induction false} ExtendsAntisymmetric(a: Json, b: Json)
    requires Extends(a, b) && Extends(b, a)
    ensures a == b
    decreases a
  {
    if a.Object? && b.Object? {
      forall k | k in a.fields ensures a.fields[k] == b.fields[k] {
        ExtendsAntisymmetric(a.fields[k], b.fields[k]);
      }
      assert a.fields == b.fields;
    }
  }

  lemma {:induction false} ExtendsTransitive(a: Json, b: Json, c: Json)
    requires Extends(a, b) && Extends(b, c)
    ensures Extends(a, c)
    decreases a
  {
    if a.Object? && b.Object? && c.Object? {
      forall k | k in a.fields ensures Extends(a.fields[k], c.fields[k]) {
        ExtendsTransitive(a.fields[k], b.fields[k], c.fields[k]);
      }
    }
  }

  // ---- Merging ----

  function Merge(a: Json, b: Json): Option<Json>
    decreases a
  {
    if a.Object? && b.Object? then
      if forall k | k in a.fields && k in b.fields :: Merge(a.fields[k], b.fields[k]).Some? then
        Some(Object(map k | k in a.fields.Keys + b.fields.Keys ::
               if k !in b.fields then a.fields[k]
               else if k !in a.fields then b.fields[k]
               else Merge(a.fields[k], b.fields[k]).value))
      else None
    else if a == b then Some(a)
    else None
  }

  /** `merge_context`: only objects merge at the top. */
  function MergeContext(target: Json, source: Json): Option<Json> {
    if target.Object? && source.Object? then Merge(target, source) else None
  }

  /** What the fields in `done` have become while `source` is worked in. */
  ghost predicate Progress(target: map<string, Json>, source: map<string, Json>, done: set<string>,
                           merged: map<string, Json>)
  {
    && done <= source.Keys
    && merged.Keys == target.Keys + done
    && forall k | k in merged ::
         if k !in done then merged[k] == target[k]
         else if k !in target then merged[k] == source[k]
         else Merge(target[k], source[k]) == Some(merged[k])
  }

  lemma ProgressStep(target: map<string, Json>, source: map<string, Json>, done: set<string>,
                     merged: map<string, Json>, key: string, v: Json)
    requires Progress(target, source, done, merged) && key in source && key !in done
    requires if key in target then Merge(target[key], source[key]) == Some(v) else v == source[key]
    ensures Progress(target, source, done + {key}, merged[key := v])
  {
  }

  lemma Blocked(target: map<string, Json>, source: map<string, Json>, key: string)
    requires key in target && key in source && Merge(target[key], source[key]).None?
    ensures Merge(Object(target), Object(source)) == None
  {
    assert key in Object(target).fields && key in Object(source).fields;
  }

  lemma Untouched(target: map<string, Json>, source: map<string, Json>, done: set<string>, merged: map<string, Json>,
                  key: string)
    requires Progress(target, source, done, merged) && key in source && key !in done
    ensures key in merged <==> key in target
    ensures key in target ==> merged[key] == target[key]
  {
  }

  lemma ProgressDone(target: map<string, Json>, source: map<string, Json>, merged: map<string, Json>)
    requires Progress(target, source, source.Keys, merged)
    ensures Merge(Object(target), Object(source)) == Some(Object(merged))
  {
    var m := Merge(Object(target), Object(source)).value.fields;
    assert m.Keys == merged.Keys;
    assert m == merged;
  }

  /** The in-place merge: fields of `source` are worked into `target` one at a
      time, in key order, until one conflicts. */
  method MergeObjects(target: map<string, Json>, source: map<string, Json>)
    returns (r: Option<map<string, Json>>)
    ensures r.Some? ==> Merge(Object(target), Object(source)) == Some(Object(r.value))
    ensures r.None? ==> Merge(Object(target), Object(source)) == None
    decreases Object(source), 0
  {
    var keys := Order.Sorted(source.Keys);
    var merged := target;
    ghost var done := {};
    for i := 0 to |keys|
      invariant done == Order.Elements(keys[..i])
      invariant Progress(target, source, done, merged)
    {
      var key := keys[i];
      Order.NextElement(keys, i);
      Untouched(target, source, done, merged, key);
      var value := source[key];
      if key in merged {
        var field := MergeField(merged[key], value);
        if field.None? {
          Blocked(target, source, key);
          return None;
        }
        value := field.value;
      }
      ProgressStep(target, source, done, merged, key, value);
      merged := merged[key := value];
      done := done + {key};
    }
    assert keys[..|keys|] == keys;
    ProgressDone(target, source, merged);
    r := Some(merged);
  }

  /** A field already there: objects merge, anything else must be equal. */
  method MergeField(existing: Json, value: Json) returns (r: Option<Json>)
    ensures r == Merge(existing, value)
    decreases value, 1
  {
    if existing.Object? && value.Object? {
      var inner := MergeObjects(existing.fields, value.fields);
      r := if inner.None? then None else Some(Object(inner.value));
    } else {
      r := if existing == value then Some(existing) else None;
    }
  }

  lemma {:induction false} MergeBounds(a: Json, b: Json)
    requires Merge(a, b).Some?
    ensures Extends(a, Merge(a, b).value) && Extends(b, Merge(a, b).value)
    decreases a
  {
    var m := Merge(a, b).value;
    if a.Object? && b.Object? {
      forall k | k in a.fields ensures Extends(a.fields[k], m.fields[k]) {
        if k in b.fields {
          MergeBounds(a.fields[k], b.fields[k]);
        } else {
          ExtendsReflexive(a.fields[k]);
        }
      }
      forall k | k in b.fields ensures Extends(b.fields[k], m.fields[k]) {
        if k in a.fields {
          MergeBounds(a.fields[k], b.fields[k]);
        } else {
          ExtendsReflexive(b.fields[k]);
        }
      }
    }
  }

  lemma {:induction false} MergeLeast(a: Json, b: Json, c: Json)
    requires Extends(a, c) && Extends(b, c)
    ensures Merge(a, b).Some? && Extends(Merge(a, b).value, c)
    decreases a
  {
    if a.Object? && b.Object? {
      forall k | k in a.fields && k in b.fields
        ensures Merge(a.fields[k], b.fields[k]).Some?
        ensures Extends(Merge(a.fields[k], b.fields[k]).value, c.fields[k])
      {
        MergeLeast(a.fields[k], b.fields[k], c.fields[k]);
      }
    }
  }

  /** The merge is a least upper bound: it succeeds exactly when the two contexts
      have a common extension, and then it is the least one. */
  lemma MergeIsLeastUpperBound(a: Json, b: Json)
    ensures Merge(a, b).Some? <==> exists c :: Extends(a, c) && Extends(b, c)
    ensures Merge(a, b).Some? ==> forall c :: Extends(Merge(a, b).value, c) <==> Extends(a, c) && Extends(b, c)
  {
    if Merge(a, b).Some? {
      MergeBounds(a, b);
      var m := Merge(a, b).value;
      assert Extends(a, m) && Extends(b, m);
      forall c ensures Extends(m, c) <==> Extends(a, c) && Extends(b, c) {
        if Extends(m, c) {
          ExtendsTransitive(a, m, c);
          ExtendsTransitive(b, m, c);
        }
        if Extends(a, c) && Extends(b, c) {
          MergeLeast(a, b, c);
        }
      }
    }
    forall c | Extends(a, c) && Extends(b, c) ensures Merge(a, b).Some? {
      MergeLeast(a, b, c);
    }
  }

  lemma MergeIdempotent(a: Json)
    ensures Merge(a, a) == Some(a)
  {
    ExtendsReflexive(a);
    MergeLeast(a, a, a);
    MergeBounds(a, a);
    ExtendsAntisymmetric(Merge(a, a).value, a);
  }

  lemma MergeCommutes(a: Json, b: Json)
    ensures Merge(a, b) == Merge(b, a)
  {
    if Merge(a, b).Some? {
      MergeBounds(a, b);
      MergeLeast(b, a, Merge(a, b).value);
    }
    if Merge(b, a).Some? {
      MergeBounds(b, a);
      MergeLeast(a, b, Merge(b, a).value);
    }
    if Merge(a, b).Some? {
      ExtendsAntisymmetric(Merge(a, b).value, Merge(b, a).value);
    }
  }

  function Then(a: Option<Json>, b: Option<Json>): Option<Json> {
    if a.Some? && b.Some? then Merge(a.value, b.value) else None
  }

  lemma MergeAssociates(a: Json, b: Json, c: Json)
    ensures Then(Merge(a, b), Some(c)) == Then(Some(a), Merge(b, c))
  {
    MergeIsLeastUpperBound(a, b);
    MergeIsLeastUpperBound(b, c);
    var left, right := Then(Merge(a, b), Some(c)), Then(Some(a), Merge(b, c));
    if left.Some? {
      MergeBounds(Merge(a, b).value, c);
      MergeLeast(b, c, left.value);
      MergeLeast(a, Merge(b, c).value, left.value);
    }
    if right.Some? {
      MergeBounds(a, Merge(b, c).value);
      MergeLeast(a, b, right.value);
      MergeLeast(Merge(a, b).value, c, right.value);
    }
    if left.Some? {
      ExtendsAntisymmetric(left.value, right.value);
    }
  }

  /** Merging a sequence, starting from the empty context. */
  function MergeAll(contexts: seq<Option<Json>>): Option<Json> {
    if |contexts| == 0 then Some(EMPTY)
    else
      var n := |contexts| - 1;
      var before := MergeAll(contexts[..n]);
      if before.Some? && contexts[n].Some? then MergeContext(before.value, contexts[n].value) else None
  }

  /** The merge of a sequence extends every member. */
  lemma {:induction false} MergeAllBounds(contexts: seq<Option<Json>>, i: nat)
    requires MergeAll(contexts).Some?
    requires i < |contexts|
    ensures contexts[i].Some? && Extends(contexts[i].value, MergeAll(contexts).value)
  {
    var n := |contexts| - 1;
    var before := MergeAll(contexts[..n]);
    MergeBounds(before.value, contexts[n].value);
    if i < n {
      MergeAllBounds(contexts[..n], i);
      assert contexts[..n][i] == contexts[i];
      ExtendsTransitive(contexts[i].value, before.value, MergeAll(contexts).value);
    }
  }

  // ---- Placing a value at a path ----

  function Nest(path: seq<string>, value: Json): Json {
    if |path| == 0 then value else Object(map[path[0] := Nest(path[1..], value)])
  }

  /** Insertion along a path, creating the objects on the way. Fails on an empty
      segment, or when the path runs into something that is not an object. */
  function InsertAt(fields: map<string, Json>, path: seq<string>, value: Json): Option<map<string, Json>>
    requires |path| > 0
    decreases |path|
  {
    if path[0] == "" then None
    else if |path| == 1 then Some(fields[path[0] := value])
    else
      var child := if path[0] in fields then fields[path[0]] else EMPTY;
      if !child.Object? then None else
        match InsertAt(child.fields, path[1..], value)
        case None => None
        case Some(inner) => Some(fields[path[0] := Object(inner)])
  }

  function ContextWithPath(path: string, value: Json): Option<Json> {
    match InsertAt(map[], Text.Split(path, '.'), value)
    case None => None
    case Some(fields) => Some(Object(fields))
  }

  lemma {:induction false} InsertNests(path: seq<string>, value: Json)
    requires |path| > 0
    ensures InsertAt(map[], path, value) ==
            if "" in path then None else Some(Nest(path, value).fields)
    decreases |path|
  {
    if |path| == 1 {
      assert path == [path[0]];
      assert Nest(path[1..], value) == value;
    } else {
      InsertNests(path[1..], value);
      assert path == [path[0]] + path[1..];
    }
  }

  lemma {:induction false} NestWalks(path: seq<string>, value: Json, wider: Json, depth: nat)
    requires Extends(Nest(path, value), wider) && IsScalar(value)
    ensures WalkFrom(wider, path, depth) == Found(value)
    decreases |path|
  {
    if |path| > 0 {
      NestWalks(path[1..], value, wider.fields[path[0]], depth + 1);
    }
  }

  /** Splitting a joined path finds the segments again up to the first one that
      holds a dot, and something shorter in its place. */
  lemma SplitJoinHead(path: seq<string>)
    requires |path| > 0
    ensures Text.Free(path[0], '.') && |path| > 1 ==>
              Text.Split(Text.Join(path, '.'), '.') == [path[0]] + Text.Split(Text.Join(path[1..], '.'), '.')
    ensures !Text.Free(path[0], '.') ==> Text.Split(Text.Join(path, '.'), '.')[0] != path[0]
  {
    if Text.Free(path[0], '.') && |path| > 1 {
      var rest := Text.Join(path[1..], '.');
      Text.BeforePrefix(path[0], rest, '.');
      assert Text.Join(path, '.')[|path[0]| + 1..] == rest;
    }
  }

  /** The segments follow the path up to its first dotted key, and have something else
      in its place. */
  ghost predicate Misread(path: seq<string>, segments: seq<string>)
    decreases |path|
  {
    |path| > 0 && |segments| > 0 &&
      if Text.Free(path[0], '.') then segments[0] == path[0] && Misread(path[1..], segments[1..])
      else segments[0] != path[0]
  }

  lemma {:induction false} DottedMisread(path: seq<string>)
    requires |path| > 0 && !Text.DotFree(path)
    ensures Misread(path, Text.Split(Text.Join(path, '.'), '.'))
    decreases |path|
  {
    SplitJoinHead(path);
    if Text.Free(path[0], '.') {
      DottedTail(path);
      var rest := Text.Split(Text.Join(path[1..], '.'), '.');
      DottedMisread(path[1..]);
      assert ([path[0]] + rest)[1..] == rest;
    }
  }

  lemma DottedTail(path: seq<string>)
    requires |path| > 0 && !Text.DotFree(path) && Text.Free(path[0], '.')
    ensures |path| > 1 && !Text.DotFree(path[1..])
  {
    var s :| s in path && !Text.Free(s, '.');
    assert path == [path[0]] + path[1..];
    assert s in path[1..];
  }

  lemma {:induction false} MisreadMisses(path: seq<string>, value: Json, segments: seq<string>, depth: nat)
    returns (stop: nat)
    requires Misread(path, segments)
    ensures WalkFrom(Nest(path, value), segments, depth) == Missing(stop)
    ensures depth <= stop < depth + |path| && !Text.Free(path[stop - depth], '.')
    ensures forall i | 0 <= i < stop - depth :: Text.Free(path[i], '.')
    decreases |path|
  {
    if Text.Free(path[0], '.') {
      stop := MisreadMisses(path[1..], value, segments[1..], depth + 1);
      ShiftedFree(path, stop - depth);
    } else {
      stop := depth;
    }
  }

  lemma ShiftedFree(path: seq<string>, n: nat)
    requires 0 < n < |path| && Text.Free(path[0], '.')
    requires !Text.Free(path[1..][n - 1], '.') && forall i | 0 <= i < n - 1 :: Text.Free(path[1..][i], '.')
    ensures !Text.Free(path[n], '.') && forall i | 0 <= i < n :: Text.Free(path[i], '.')
  {
    forall i | 0 <= i < n ensures Text.Free(path[i], '.') {
      if i > 0 {
        assert path[i] == path[1..][i - 1];
      }
    }
  }

  /** A dotted key is lost in the joined path: walking the split path of a nested
      value stops where the key was, whatever the value. */
  lemma DottedPathMisses(path: seq<string>, value: Json, depth: nat) returns (stop: nat)
    requires |path| > 0 && !Text.DotFree(path)
    ensures WalkFrom(Nest(path, value), Text.Split(Text.Join(path, '.'), '.'), depth) == Missing(stop)
    ensures depth <= stop < depth + |path| && !Text.Free(path[stop - depth], '.')
    ensures forall i | 0 <= i < stop - depth :: Text.Free(path[i], '.')
  {
    DottedMisread(path);
    stop := MisreadMisses(path, value, Text.Split(Text.Join(path, '.'), '.'), depth);
  }
}
