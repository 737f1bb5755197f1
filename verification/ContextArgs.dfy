/** `--context` arguments: rendering a context as `path=value` words, the CLI parser
    that folds them back together, and the contexts that come back exactly. */
module ContextArgs {
  import opened Prelude
  import opened Json
  import Contexts
  import Order
  import Text

  /** JSON text, and the files an `@` argument names. */
  datatype Cli = Cli(parse: string -> Option<Json>, json: Json -> string, file: string -> Option<string>)

  ghost predicate Faithful(cli: Cli) {
    && (forall v: Json :: cli.parse(cli.json(v)) == Some(v))
    && (forall v: Json :: v.Object? ==> |cli.json(v)| > 0 && cli.json(v)[0] == '{')
  }

  datatype ContextForm = PathForm | JsonForm

  // ---- Rendering ----

  function Child(path: string, key: string): string {
    if path == "" then key else path + "." + key
  }

  /** Scalars, arrays and empty objects are leaves. */
  predicate IsLeaf(v: Json) {
    !v.Object? || v.fields == map[]
  }

  function Leaves(v: Json, path: string): seq<(string, Json)>
    decreases v, 1, 0
  {
    if IsLeaf(v) then [(path, v)] else LeavesOf(v, Order.Sorted(v.fields.Keys), path)
  }

  function LeavesOf(v: Json, keys: seq<string>, path: string): seq<(string, Json)>
    requires v.Object? && forall k | k in keys :: k in v.fields
    decreases v, 0, |keys|
  {
    if |keys| == 0 then [] else
      var n := |keys| - 1;
      assert keys[n] in keys;
      LeavesOf(v, keys[..n], path) + Leaves(v.fields[keys[n]], Child(path, keys[n]))
  }

  lemma LeavesOfStep(v: Json, keys: seq<string>, i: nat, path: string)
    requires v.Object? && i < |keys| && forall k | k in keys :: k in v.fields
    ensures keys[i] in keys
    ensures LeavesOf(v, keys[..i + 1], path) ==
            LeavesOf(v, keys[..i], path) + Leaves(v.fields[keys[i]], Child(path, keys[i]))
  {
    assert keys[..i + 1][..i] == keys[..i];
  }

  lemma Append<T>(a: seq<T>, b: seq<T>, c: seq<T>)
    ensures a + (b + c) == a + b + c
  {
  }

  method CollectLeaves(v: Json, path: string, out: seq<(string, Json)>) returns (r: seq<(string, Json)>)
    ensures r == out + Leaves(v, path)
    decreases v
  {
    r := out;
    if IsLeaf(v) {
      return r + [(path, v)];
    }
    var keys := Order.Sorted(v.fields.Keys);
    for i := 0 to |keys|
      invariant r == out + LeavesOf(v, keys[..i], path)
    {
      LeavesOfStep(v, keys, i, path);
      Append(out, LeavesOf(v, keys[..i], path), Leaves(v.fields[keys[i]], Child(path, keys[i])));
      r := CollectLeaves(v.fields[keys[i]], Child(path, keys[i]), r);
    }
    assert keys[..|keys|] == keys;
  }

  /** A string is written bare when it reads back as itself. */
  function ValueToken(cli: Cli, v: Json): string {
    if v.String? && (cli.parse(v.text).None? || cli.parse(v.text) == Some(v)) then v.text else cli.json(v)
  }

  function Argument(cli: Cli, leaf: (string, Json)): string {
    leaf.0 + "=" + ValueToken(cli, leaf.1)
  }

  function Arguments(cli: Cli, leaves: seq<(string, Json)>): (r: seq<string>)
    ensures |r| == |leaves| && forall i | 0 <= i < |r| :: r[i] == Argument(cli, leaves[i])
  {
    seq(|leaves|, i requires 0 <= i < |leaves| => Argument(cli, leaves[i]))
  }

  function ArgumentsFor(cli: Cli, context: Json, form: ContextForm): seq<string> {
    if !context.Object? || context.fields == map[] then []
    else if form.JsonForm? then [cli.json(context)]
    else Arguments(cli, Leaves(context, ""))
  }

  // ---- Parsing ----

  datatype ContextError =
    | EmptyFilePath
    | Unreadable(file: string)
    | NotAnObject(text: string)
    | EmptyPath
    | BadPath(path: string)

  function TrimStart(s: string): string {
    if |s| > 0 && Text.IsWhite(s[0]) then TrimStart(s[1..]) else s
  }

  predicate StartsObject(part: string) {
    "{" <= TrimStart(part)
  }

  function ParseObject(cli: Cli, text: string): Result<Json, ContextError> {
    match cli.parse(text)
    case Some(Object(fields)) => Success(Object(fields))
    case _ => Failure(NotAnObject(text))
  }

  function ParsePart(cli: Cli, part: string): Result<Json, ContextError> {
    if "@" <= part then
      if |part| == 1 then Failure(EmptyFilePath) else
        match cli.file(part[1..])
        case None => Failure(Unreadable(part[1..]))
        case Some(text) => ParseObject(cli, text)
    else if StartsObject(part) then ParseObject(cli, part)
    else
      var (path, value) := Text.SplitOnce(part, '=');
      if value.None? then ParseObject(cli, part)
      else if path == "" then Failure(EmptyPath)
      else Assignment(cli, path, value.value)
  }

  function ReadValue(cli: Cli, text: string): Json {
    match cli.parse(text)
    case None => String(text)
    case Some(v) => v
  }

  function Assignment(cli: Cli, path: string, text: string): Result<Json, ContextError> {
    match InsertPath(map[], Text.Split(path, '.'), ReadValue(cli, text))
    case None => Failure(BadPath(path))
    case Some(fields) => Success(Object(fields))
  }

  /** Insertion along a path: whatever is in the way is overwritten by an object. */
  function InsertPath(fields: map<string, Json>, path: seq<string>, value: Json): Option<map<string, Json>>
    requires |path| > 0
    decreases |path|
  {
    if path[0] == "" then None
    else if |path| == 1 then Some(fields[path[0] := value])
    else
      var child := if path[0] in fields && fields[path[0]].Object? then fields[path[0]].fields else map[];
      match InsertPath(child, path[1..], value)
      case None => None
      case Some(inner) => Some(fields[path[0] := Object(inner)])
  }

  /** The deep merge in which later arguments win. */
  function MergeRight(target: Json, source: Json): Json
    decreases source
  {
    if target.Object? && source.Object? then
      Object(map k | k in target.fields.Keys + source.fields.Keys ::
        if k !in source.fields then target.fields[k]
        else if k !in target.fields then source.fields[k]
        else MergeRight(target.fields[k], source.fields[k]))
    else source
  }

  function Stored(target: map<string, Json>, key: string, value: Json): Json {
    if key in target then MergeRight(target[key], value) else value
  }

  /** The target after the merge has met `keys`. */
  function Merged(target: map<string, Json>, source: map<string, Json>, keys: set<string>): map<string, Json> {
    target + (map k | k in keys && k in source :: Stored(target, k, source[k]))
  }

  lemma MergedStep(target: map<string, Json>, source: map<string, Json>, keys: set<string>, key: string)
    requires key in source && key !in keys
    ensures Merged(target, source, keys + {key}) ==
            Merged(target, source, keys)[key := Stored(target, key, source[key])]
    ensures key in Merged(target, source, keys) <==> key in target
    ensures key in target ==> Merged(target, source, keys)[key] == target[key]
  {
  }

  lemma MergedAll(target: map<string, Json>, source: map<string, Json>)
    ensures Object(Merged(target, source, source.Keys)) == MergeRight(Object(target), Object(source))
  {
    assert Merged(target, source, source.Keys) == MergeRight(Object(target), Object(source)).fields;
  }

  /** The merge key by key, into the target. */
  method MergeObjects(target: map<string, Json>, source: Json) returns (merged: map<string, Json>)
    requires source.Object?
    ensures Object(merged) == MergeRight(Object(target), source)
    decreases source
  {
    merged := target;
    var keys := Order.Sorted(source.fields.Keys);
    for i := 0 to |keys|
      invariant merged == Merged(target, source.fields, Order.Elements(keys[..i]))
    {
      var key := keys[i];
      Order.NextElement(keys, i);
      MergedStep(target, source.fields, Order.Elements(keys[..i]), key);
      var value := source.fields[key];
      if key in merged && merged[key].Object? && value.Object? {
        var inner := MergeObjects(merged[key].fields, value);
        merged := merged[key := Object(inner)];
      } else {
        merged := merged[key := value];
      }
    }
    assert Order.Elements(keys[..|keys|]) == source.fields.Keys;
    MergedAll(target, source.fields);
  }

  function ParseFrom(cli: Cli, context: Json, parts: seq<string>): Result<Json, ContextError>
    decreases |parts|
  {
    if |parts| == 0 then Success(context) else
      match ParsePart(cli, parts[0])
      case Failure(error) => Failure(error)
      case Success(value) => ParseFrom(cli, MergeRight(context, value), parts[1..])
  }

  method ParseContext(cli: Cli, parts: seq<string>) returns (r: Result<Json, ContextError>)
    ensures r == ParseFrom(cli, EMPTY, parts)
  {
    var context := map[];
    for i := 0 to |parts|
      invariant ParseFrom(cli, EMPTY, parts) == ParseFrom(cli, Object(context), parts[i..])
    {
      var value := ParsePart(cli, parts[i]);
      assert parts[i..][1..] == parts[i + 1..];
      if value.Failure? {
        return Failure(value.error);
      }
      PartIsObject(cli, parts[i]);
      context := MergeObjects(context, value.value);
    }
    r := Success(Object(context));
  }

  lemma PartIsObject(cli: Cli, part: string)
    requires ParsePart(cli, part).Success?
    ensures ParsePart(cli, part).value.Object?
  {
  }

  lemma {:induction false} ParseFromConcat(cli: Cli, context: Json, a: seq<string>, b: seq<string>)
    ensures ParseFrom(cli, context, a + b) ==
            match ParseFrom(cli, context, a)
            case Failure(error) => Failure(error)
            case Success(next) => ParseFrom(cli, next, b)
    decreases |a|
  {
    if |a| == 0 {
      assert a + b == b;
    } else {
      assert (a + b)[1..] == a[1..] + b;
      if ParsePart(cli, a[0]).Success? {
        ParseFromConcat(cli, MergeRight(context, ParsePart(cli, a[0]).value), a[1..], b);
      }
    }
  }

  // ---- How an argument is told apart ----

  /** An argument is read as JSON when a brace comes first, after any white space. */
  lemma {:induction false} StartsObjectExact(part: string)
    ensures StartsObject(part) <==>
            exists n :: 0 <= n < |part| && part[n] == '{' && forall i | 0 <= i < n :: Text.IsWhite(part[i])
    decreases |part|
  {
    if |part| > 0 && Text.IsWhite(part[0]) {
      StartsObjectExact(part[1..]);
      if StartsObject(part) {
        var m :| 0 <= m < |part[1..]| && part[1..][m] == '{' && forall i | 0 <= i < m :: Text.IsWhite(part[1..][i]);
        assert part[m + 1] == '{' && forall i | 0 <= i < m + 1 :: Text.IsWhite(part[i]);
      }
      forall n | 0 <= n < |part| && part[n] == '{' && forall i | 0 <= i < n :: Text.IsWhite(part[i])
        ensures StartsObject(part)
      {
        assert n > 0 && part[1..][n - 1] == '{';
        assert forall i | 0 <= i < n - 1 :: Text.IsWhite(part[1..][i]);
      }
    } else if StartsObject(part) {
      assert part[0] == '{';
    }
  }

  // ---- Which argument wins ----

  /** Everything the later argument says holds in the result. */
  lemma {:induction false} SourceWins(target: Json, source: Json)
    ensures Contexts.Extends(source, MergeRight(target, source))
    decreases source
  {
    if target.Object? && source.Object? {
      var merged := MergeRight(target, source);
      forall k | k in source.fields ensures Contexts.Extends(source.fields[k], merged.fields[k]) {
        if k in target.fields {
          SourceWins(target.fields[k], source.fields[k]);
        } else {
          Contexts.ExtendsReflexive(source.fields[k]);
        }
      }
    } else {
      Contexts.ExtendsReflexive(source);
    }
  }

  /** And where it says nothing, what was there before stays. */
  lemma {:induction false} TargetKept(target: Json, source: Json, path: seq<string>, depth: nat)
    requires target.Object? && WalkFrom(source, path, depth).Missing?
    ensures WalkFrom(target, path, depth).Found? ==>
              WalkFrom(MergeRight(target, source), path, depth) == WalkFrom(target, path, depth)
    decreases |path|
  {
    var merged := MergeRight(target, source);
    if path[0] in source.fields && path[0] in target.fields {
      if target.fields[path[0]].Object? {
        TargetKept(target.fields[path[0]], source.fields[path[0]], path[1..], depth + 1);
      }
    }
  }

  // ---- Clean keys ----

  /** A key that survives in a dotted path before an equals sign. */
  predicate CleanKey(k: string) {
    k != "" && Text.Free(k, '.') && Text.Free(k, '=')
  }

  predicate CleanPath(p: seq<string>) {
    forall k | k in p :: CleanKey(k)
  }

  ghost predicate CleanKeys(v: Json)
    decreases v
  {
    v.Object? ==> forall k | k in v.fields :: CleanKey(k) && CleanKeys(v.fields[k])
  }

  /** Read as an assignment, not as a file or as JSON. */
  predicate IsAssignment(part: string) {
    !("@" <= part) && !StartsObject(part)
  }

  // ---- One argument ----

  lemma TokenReads(cli: Cli, v: Json)
    requires Faithful(cli)
    ensures ReadValue(cli, ValueToken(cli, v)) == v
  {
  }

  lemma JoinFree(p: seq<string>)
    requires CleanPath(p)
    ensures Text.Free(Text.Join(p, '.'), '=')
    ensures |p| > 0 ==> Text.Join(p, '.') != "" && Text.Split(Text.Join(p, '.'), '.') == p
  {
    forall c | c in Text.Join(p, '.') ensures c != '=' {
      Text.JoinChars(p, '.', c);
    }
    if |p| > 0 {
      assert p[0] in p;
      Text.SplitJoin(p, '.');
    }
  }

  lemma {:induction false} InsertNests(path: seq<string>, value: Json)
    requires |path| > 0
    ensures InsertPath(map[], path, value) == if "" in path then None else Some(Contexts.Nest(path, value).fields)
    decreases |path|
  {
    if |path| == 1 {
      assert path == [path[0]];
      assert Contexts.Nest(path[1..], value) == value;
    } else {
      InsertNests(path[1..], value);
      assert path == [path[0]] + path[1..];
    }
  }

  lemma ArgumentParses(cli: Cli, p: seq<string>, leaf: Json)
    requires Faithful(cli) && CleanPath(p) && |p| > 0
    requires IsAssignment(Argument(cli, (Text.Join(p, '.'), leaf)))
    ensures ParsePart(cli, Argument(cli, (Text.Join(p, '.'), leaf))) == Success(Contexts.Nest(p, leaf))
  {
    var path := Text.Join(p, '.');
    JoinFree(p);
    TokenReads(cli, leaf);
    Text.SplitOnceAt(path, ValueToken(cli, leaf), '=');
    InsertNests(p, leaf);
  }

  // ---- The fold rebuilds what was rendered ----

  lemma MergeTwice(acc: Json, a: map<string, Json>, b: map<string, Json>)
    requires a.Keys !! b.Keys
    ensures MergeRight(MergeRight(acc, Object(a)), Object(b)) == MergeRight(acc, Object(a + b))
  {
    if acc.Object? {
      var first, both := MergeRight(acc, Object(a)), MergeRight(acc, Object(a + b));
      forall k | k in acc.fields.Keys + a.Keys + b.Keys
        ensures MergeRight(first, Object(b)).fields[k] == both.fields[k]
      {
        assert k in b ==> k !in a;
      }
      assert MergeRight(first, Object(b)).fields == both.fields;
    } else {
      assert MergeRight(Object(a), Object(b)).fields == a + b;
    }
  }

  function Under(acc: Json, key: string): Json {
    if acc.Object? && key in acc.fields then acc.fields[key] else Null
  }

  lemma {:induction false} MergeSplit(acc: Json, p: seq<string>, a: map<string, Json>, b: map<string, Json>)
    requires a.Keys !! b.Keys
    ensures MergeRight(MergeRight(acc, Contexts.Nest(p, Object(a))), Contexts.Nest(p, Object(b)))
         == MergeRight(acc, Contexts.Nest(p, Object(a + b)))
    decreases |p|
  {
    if |p| == 0 {
      MergeTwice(acc, a, b);
    } else {
      var first := MergeRight(acc, Contexts.Nest(p, Object(a)));
      MergeUnder(acc, p, Object(a));
      MergeUnder(acc, p, Object(a + b));
      MergeUnder(first, p, Object(b));
      MergeSplit(Under(acc, p[0]), p[1..], a, b);
    }
  }

  /** Merging a nested value touches one key. */
  lemma MergeUnder(acc: Json, p: seq<string>, v: Json)
    requires |p| > 0
    ensures var base := if acc.Object? then acc.fields else map[];
            MergeRight(acc, Contexts.Nest(p, v)) ==
                Object(base[p[0] := MergeRight(Under(acc, p[0]), Contexts.Nest(p[1..], v))])
  {
    var inner := Contexts.Nest(p[1..], v);
    assert Contexts.Nest(p, v) == Object(map[p[0] := inner]);
    if acc.Object? {
      assert MergeRight(acc, Object(map[p[0] := inner])).fields ==
             acc.fields[p[0] := MergeRight(Under(acc, p[0]), inner)];
    } else {
      assert MergeRight(Null, inner) == inner;
    }
  }

  lemma {:induction false} NestSnoc(p: seq<string>, k: string, v: Json)
    ensures Contexts.Nest(p + [k], v) == Contexts.Nest(p, Object(map[k := v]))
  {
    if |p| == 0 {
      assert p + [k] == [k] && [k][1..] == [];
    } else {
      assert (p + [k])[1..] == p[1..] + [k];
      NestSnoc(p[1..], k, v);
    }
  }

  lemma ChildJoins(p: seq<string>, k: string)
    requires CleanPath(p)
    ensures Child(Text.Join(p, '.'), k) == Text.Join(p + [k], '.')
  {
    JoinFree(p);
    if |p| > 0 {
      Text.JoinSnoc(p, k, '.');
    } else {
      assert p + [k] == [k];
    }
  }

  function Restricted(fields: map<string, Json>, keys: seq<string>): map<string, Json> {
    map k | k in keys && k in fields :: fields[k]
  }

  ghost predicate AllAssign(cli: Cli, leaves: seq<(string, Json)>) {
    forall leaf | leaf in leaves :: IsAssignment(Argument(cli, leaf))
  }

  /** The arguments of one value below a path merge it in at that path. */
  lemma {:induction false} LeavesRebuild(cli: Cli, acc: Json, v: Json, p: seq<string>)
    requires Faithful(cli) && CleanPath(p) && CleanKeys(v) && (|p| > 0 || !IsLeaf(v))
    requires AllAssign(cli, Leaves(v, Text.Join(p, '.')))
    ensures ParseFrom(cli, acc, Arguments(cli, Leaves(v, Text.Join(p, '.')))) ==
            Success(MergeRight(acc, Contexts.Nest(p, v)))
    decreases v, 1, 0
  {
    if IsLeaf(v) {
      var leaf := (Text.Join(p, '.'), v);
      assert Leaves(v, leaf.0) == [leaf];
      assert leaf in Leaves(v, leaf.0);
      var args := Arguments(cli, [leaf]);
      assert args == [Argument(cli, leaf)] && args[1..] == [];
      ArgumentParses(cli, p, v);
    } else {
      var keys := Order.Sorted(v.fields.Keys);
      assert Restricted(v.fields, keys) == v.fields;
      KeysRebuild(cli, acc, v, keys, p);
    }
  }

  lemma {:induction false} KeysRebuild(cli: Cli, acc: Json, v: Json, keys: seq<string>, p: seq<string>)
    requires Faithful(cli) && CleanPath(p) && CleanKeys(v) && v.Object? && |keys| > 0
    requires Order.Ascending(keys) && forall k | k in keys :: k in v.fields
    requires AllAssign(cli, LeavesOf(v, keys, Text.Join(p, '.')))
    ensures ParseFrom(cli, acc, Arguments(cli, LeavesOf(v, keys, Text.Join(p, '.'))))
         == Success(MergeRight(acc, Contexts.Nest(p, Object(Restricted(v.fields, keys)))))
    decreases v, 0, |keys|
  {
    var n := |keys| - 1;
    var init, k, path := keys[..n], keys[n], Text.Join(p, '.');
    assert keys[..n + 1] == keys;
    LeavesOfStep(v, keys, n, path);
    var front, back := LeavesOf(v, init, path), Leaves(v.fields[k], Child(path, k));
    AssignParts(cli, front, back);
    ChildJoins(p, k);
    LastKey(v, keys, p);
    var before, last := Restricted(v.fields, init), map[k := v.fields[k]];
    if n == 0 {
      LeavesRebuild(cli, acc, v.fields[k], p + [k]);
    } else {
      KeysRebuild(cli, acc, v, init, p);
      LeavesRebuild(cli, MergeRight(acc, Contexts.Nest(p, Object(before))), v.fields[k], p + [k]);
      MergeSplit(acc, p, before, last);
    }
    ArgumentsConcat(cli, front, back);
    ParseFromConcat(cli, acc, Arguments(cli, front), Arguments(cli, back));
  }

  lemma RestrictedSnoc(fields: map<string, Json>, init: seq<string>, k: string)
    requires k in fields
    ensures Restricted(fields, init + [k]) == Restricted(fields, init) + map[k := fields[k]]
    ensures Restricted(fields, [k]) == map[k := fields[k]]
  {
  }

  lemma LastKey(v: Json, keys: seq<string>, p: seq<string>)
    requires v.Object? && |keys| > 0 && Order.Ascending(keys) && forall k | k in keys :: k in v.fields
    ensures var n := |keys| - 1;
            && keys[n] in keys && keys[n] !in Restricted(v.fields, keys[..n])
            && Restricted(v.fields, keys) == Restricted(v.fields, keys[..n]) + map[keys[n] := v.fields[keys[n]]]
            && Contexts.Nest(p + [keys[n]], v.fields[keys[n]]) ==
                Contexts.Nest(p, Object(map[keys[n] := v.fields[keys[n]]]))
    ensures |keys| == 1 ==> Restricted(v.fields, keys) == map[keys[0] := v.fields[keys[0]]]
  {
    var n := |keys| - 1;
    Order.NextElement(keys, n);
    NestSnoc(p, keys[n], v.fields[keys[n]]);
    RestrictedSnoc(v.fields, keys[..n], keys[n]);
    assert keys == keys[..n] + [keys[n]];
  }

  lemma ArgumentsConcat(cli: Cli, a: seq<(string, Json)>, b: seq<(string, Json)>)
    ensures Arguments(cli, a + b) == Arguments(cli, a) + Arguments(cli, b)
  {
  }

  lemma AssignParts(cli: Cli, a: seq<(string, Json)>, b: seq<(string, Json)>)
    requires AllAssign(cli, a + b)
    ensures AllAssign(cli, a) && AllAssign(cli, b)
  {
    forall leaf | leaf in a ensures IsAssignment(Argument(cli, leaf)) {
      assert leaf in a + b;
    }
    forall leaf | leaf in b ensures IsAssignment(Argument(cli, leaf)) {
      assert leaf in a + b;
    }
  }

  // ---- Keys that do not survive ----

  /** Clean keys in the first `d` levels of objects. */
  ghost predicate CleanTo(v: Json, d: nat)
    decreases d
  {
    v.Object? && d > 0 ==> forall k | k in v.fields :: CleanKey(k) && CleanTo(v.fields[k], d - 1)
  }

  /** The path leads through objects to one that has keys. */
  ghost predicate NodeAt(v: Json, p: seq<string>)
    decreases |p|
  {
    if |p| == 0 then !IsLeaf(v) else v.Object? && p[0] in v.fields && NodeAt(v.fields[p[0]], p[1..])
  }

  ghost predicate KeysCleanAt(v: Json, p: seq<string>)
    decreases |p|
  {
    v.Object? ==>
      if |p| == 0 then forall k | k in v.fields :: CleanKey(k)
      else p[0] in v.fields ==> KeysCleanAt(v.fields[p[0]], p[1..])
  }

  lemma {:induction false} CleanDeeper(v: Json, d: nat)
    requires CleanTo(v, d) && forall p | |p| == d && NodeAt(v, p) :: KeysCleanAt(v, p)
    ensures CleanTo(v, d + 1)
    decreases d
  {
    if v.Object? && d == 0 && !IsLeaf(v) {
      assert NodeAt(v, []) && KeysCleanAt(v, []);
    } else if v.Object? && d > 0 {
      forall k | k in v.fields ensures CleanKey(k) && CleanTo(v.fields[k], d) {
        forall p | |p| == d - 1 && NodeAt(v.fields[k], p) ensures KeysCleanAt(v.fields[k], p) {
          assert ([k] + p)[1..] == p;
          assert NodeAt(v, [k] + p) && KeysCleanAt(v, [k] + p);
        }
        CleanDeeper(v.fields[k], d - 1);
      }
    }
  }

  lemma {:induction false} CleanEverywhere(v: Json)
    requires forall d: nat :: CleanTo(v, d)
    ensures CleanKeys(v)
    decreases v
  {
    if v.Object? {
      forall k | k in v.fields ensures CleanKey(k) && CleanKeys(v.fields[k]) {
        assert CleanTo(v, 1);
        forall d: nat ensures CleanTo(v.fields[k], d) {
          assert CleanTo(v, d + 1);
        }
        CleanEverywhere(v.fields[k]);
      }
    }
  }

  /** What a successful fold has at `p` is clean when every argument's is. */
  lemma {:induction false} MergeKeepsClean(acc: Json, v: Json, p: seq<string>)
    requires KeysCleanAt(acc, p) && KeysCleanAt(v, p)
    ensures KeysCleanAt(MergeRight(acc, v), p)
    decreases |p|
  {
    if |p| > 0 && acc.Object? && v.Object? && p[0] in acc.fields && p[0] in v.fields {
      MergeKeepsClean(acc.fields[p[0]], v.fields[p[0]], p[1..]);
    }
  }

  lemma {:induction false} FoldKeepsClean(cli: Cli, acc: Json, parts: seq<string>, p: seq<string>)
    requires KeysCleanAt(acc, p) && ParseFrom(cli, acc, parts).Success?
    requires forall part | part in parts && ParsePart(cli, part).Success? :: KeysCleanAt(ParsePart(cli, part).value, p)
    ensures KeysCleanAt(ParseFrom(cli, acc, parts).value, p)
    decreases |parts|
  {
    if |parts| > 0 {
      assert parts[0] in parts;
      MergeKeepsClean(acc, ParsePart(cli, parts[0]).value, p);
      FoldKeepsClean(cli, MergeRight(acc, ParsePart(cli, parts[0]).value), parts[1..], p);
    }
  }

  lemma {:induction false} NestKeepsClean(segments: seq<string>, v: Json, p: seq<string>)
    requires CleanPath(segments) && !(segments <= p)
    ensures KeysCleanAt(Contexts.Nest(segments, v), p)
    decreases |p|
  {
    assert segments[0] in segments;
    if |p| > 0 && p[0] == segments[0] {
      assert segments[1..] <= p[1..] ==> segments <= p by {
        assert segments == [segments[0]] + segments[1..] && p == [p[0]] + p[1..];
      }
      NestKeepsClean(segments[1..], v, p[1..]);
    }
  }

  /** The segments an argument is read with. */
  function Segments(argument: string): seq<string> {
    Text.Split(Text.Before(argument, '='), '.')
  }

  lemma AssignmentNests(cli: Cli, argument: string, p: seq<string>)
    requires '=' in argument && IsAssignment(argument) && ParsePart(cli, argument).Success?
    requires !(Segments(argument) <= p)
    ensures KeysCleanAt(ParsePart(cli, argument).value, p)
  {
    var (path, value) := Text.SplitOnce(argument, '=');
    var segments := Segments(argument);
    assert value.Some?;
    InsertNests(segments, ReadValue(cli, value.value));
    forall k | k in segments ensures CleanKey(k) {
      SplitParts(path, '.', k);
    }
    NestKeepsClean(segments, ReadValue(cli, value.value), p);
  }

  /** Every part of a split is made of the text's own characters. */
  lemma SplitParts(s: string, c: char, part: string)
    requires part in Text.Split(s, c)
    ensures forall x | x in part :: x in s
    decreases |s|
  {
    var head := Text.Before(s, c);
    if part != head {
      SplitParts(s[|head| + 1..], c, part);
    }
  }

  lemma {:induction false} BeforeAppend(a: string, b: string, c: char)
    requires Text.Free(a, c)
    ensures Text.Before(a + b, c) == a + Text.Before(b, c)
  {
    if |a| > 0 {
      assert (a + b)[1..] == a[1..] + b;
      BeforeAppend(a[1..], b, c);
    } else {
      assert a + b == b;
    }
  }

  lemma Regroup(a: string, b: string, c: string)
    ensures a + "." + b + "." + c == a + "." + (b + "." + c)
  {
  }

  lemma RegroupToken(a: string, b: string, c: string)
    ensures a + "." + b + "=" + c == a + "." + (b + "=" + c)
  {
  }

  lemma {:induction false} SplitJoinMore(p: seq<string>, rest: string)
    requires CleanPath(p) && |p| > 0
    ensures Text.Split(Text.Join(p, '.') + "." + rest, '.') == p + Text.Split(rest, '.')
    decreases |p|
  {
    assert p[0] in p;
    if |p| == 1 {
      assert p == [p[0]];
      Text.SplitCons(p[0], rest, '.');
    } else {
      SplitJoinMore(p[1..], rest);
      SplitMoreStep(p[0], Text.Join(p[1..], '.'), rest, p[1..]);
      assert p == [p[0]] + p[1..];
    }
  }

  lemma SplitMoreStep(head: string, tail: string, rest: string, parts: seq<string>)
    requires Text.Free(head, '.') && Text.Split(tail + "." + rest, '.') == parts + Text.Split(rest, '.')
    ensures Text.Split(head + ['.'] + tail + "." + rest, '.') == [head] + parts + Text.Split(rest, '.')
  {
    Regroup(head, tail, rest);
    Text.SplitCons(head, tail + "." + rest, '.');
    Append([head], parts, Text.Split(rest, '.'));
  }

  /** A text that goes on after a clean path is read with that path first. */
  lemma SegmentsBegin(p: seq<string>, text: string, token: string)
    requires CleanPath(p) && |p| > 0
    requires text == Text.Join(p, '.') || Text.Join(p, '.') + "." <= text
    ensures p <= Segments(text + "=" + token)
    ensures text != Text.Join(p, '.') ==> |Segments(text + "=" + token)| > |p|
  {
    var path := Text.Join(p, '.');
    JoinFree(p);
    if text == path {
      Text.BeforePrefix(path, token, '=');
    } else {
      var rest := AfterDot(path, text);
      SegmentsGoOn(p, rest, token);
    }
  }

  lemma AfterDot(path: string, text: string) returns (rest: string)
    requires path + "." <= text
    ensures text == path + "." + rest
  {
    rest := text[|path| + 1..];
  }

  lemma SegmentsGoOn(p: seq<string>, rest: string, token: string)
    requires CleanPath(p) && |p| > 0
    ensures Segments(Text.Join(p, '.') + "." + rest + "=" + token) == p + Segments(rest + "=" + token)
  {
    var path := Text.Join(p, '.');
    JoinFree(p);
    RegroupToken(path, rest, token);
    BeforeAppend(path + ".", rest + "=" + token, '=');
    SplitJoinMore(p, Text.Before(rest + "=" + token, '='));
  }

  lemma {:induction false} LeavesExtend(v: Json, path: string, leaf: (string, Json))
    requires path != "" && leaf in Leaves(v, path)
    ensures leaf.0 == path || path + "." <= leaf.0
    ensures !IsLeaf(v) ==> leaf.0 != path
    decreases v
  {
    if !IsLeaf(v) {
      var k := LeafKey(v, Order.Sorted(v.fields.Keys), path, leaf);
      LeavesExtend(v.fields[k], Child(path, k), leaf);
    }
  }

  /** Which key a leaf lies below. */
  lemma {:induction false} LeafKey(v: Json, keys: seq<string>, path: string, leaf: (string, Json)) returns (key: string)
    requires v.Object? && forall k | k in keys :: k in v.fields
    requires leaf in LeavesOf(v, keys, path)
    ensures key in v.fields && leaf in Leaves(v.fields[key], Child(path, key))
    decreases |keys|
  {
    var n := |keys| - 1;
    assert keys[n] in keys;
    if leaf in Leaves(v.fields[keys[n]], Child(path, keys[n])) {
      key := keys[n];
    } else {
      key := LeafKey(v, keys[..n], path, leaf);
    }
  }

  /** Where the first levels are clean, no argument is read as an ancestor of a node
      that has keys of its own. */
  lemma {:induction false} LeafIsNoAncestor(v: Json, above: seq<string>, p: seq<string>, leaf: (string, Json),
                                            token: string)
    requires CleanPath(above) && CleanTo(v, |p|) && NodeAt(v, p)
    requires leaf in Leaves(v, Text.Join(above, '.'))
    ensures !(Segments(leaf.0 + "=" + token) <= above + p)
    decreases |p|
  {
    if |p| == 0 {
      BelowNode(v, above, leaf, token);
      assert above + p == above;
    } else {
      var k := LeafStep(v, above, p, leaf);
      if k == p[0] {
        LeafIsNoAncestor(v.fields[k], above + [k], p[1..], leaf, token);
        Shift(above, k, p);
      } else {
        OtherBranch(v.fields[k], above, k, p, leaf, token);
      }
    }
  }

  lemma LeafStep(v: Json, above: seq<string>, p: seq<string>, leaf: (string, Json)) returns (k: string)
    requires CleanPath(above) && CleanTo(v, |p|) && NodeAt(v, p) && |p| > 0
    requires leaf in Leaves(v, Text.Join(above, '.'))
    ensures v.Object? && k in v.fields && CleanKey(k) && CleanPath(above + [k])
    ensures leaf in Leaves(v.fields[k], Text.Join(above + [k], '.'))
    ensures k == p[0] ==> CleanTo(v.fields[k], |p| - 1) && NodeAt(v.fields[k], p[1..])
  {
    k := LeafKey(v, Order.Sorted(v.fields.Keys), Text.Join(above, '.'), leaf);
    ChildJoins(above, k);
  }

  lemma Shift(above: seq<string>, k: string, p: seq<string>)
    requires |p| > 0 && p[0] == k
    ensures above + [k] + p[1..] == above + p
  {
  }

  lemma BelowNode(v: Json, above: seq<string>, leaf: (string, Json), token: string)
    requires CleanPath(above) && !IsLeaf(v) && leaf in Leaves(v, Text.Join(above, '.'))
    ensures !(Segments(leaf.0 + "=" + token) <= above)
  {
    if |above| > 0 {
      JoinFree(above);
      LeavesExtend(v, Text.Join(above, '.'), leaf);
      SegmentsBegin(above, leaf.0, token);
    }
  }

  lemma OtherBranch(v: Json, above: seq<string>, k: string, p: seq<string>, leaf: (string, Json), token: string)
    requires CleanPath(above) && CleanKey(k) && |p| > 0 && p[0] != k
    requires leaf in Leaves(v, Text.Join(above + [k], '.'))
    ensures !(Segments(leaf.0 + "=" + token) <= above + p)
  {
    var longer := above + [k];
    JoinFree(longer);
    LeavesExtend(v, Text.Join(longer, '.'), leaf);
    SegmentsBegin(longer, leaf.0, token);
    PrefixesAgree(longer, Segments(leaf.0 + "=" + token), above, k, p);
  }

  lemma PrefixesAgree(longer: seq<string>, segments: seq<string>, above: seq<string>, k: string, p: seq<string>)
    requires longer == above + [k] && longer <= segments && |p| > 0 && p[0] != k
    ensures !(segments <= above + p)
  {
    assert longer[|above|] == k && (above + p)[|above|] == p[0];
  }

  lemma {:induction false} RebuiltIsClean(cli: Cli, context: Json, d: nat)
    requires context.Object? && context.fields != map[] && AllAssign(cli, Leaves(context, ""))
    requires ParseFrom(cli, EMPTY, ArgumentsFor(cli, context, PathForm)) == Success(context)
    ensures CleanTo(context, d)
    decreases d
  {
    if d > 0 {
      RebuiltIsClean(cli, context, d - 1);
      var leaves := Leaves(context, "");
      var args := Arguments(cli, leaves);
      forall p | |p| == d - 1 && NodeAt(context, p) ensures KeysCleanAt(context, p) {
        forall part | part in args && ParsePart(cli, part).Success? ensures KeysCleanAt(ParsePart(cli, part).value, p) {
          var i :| 0 <= i < |args| && args[i] == part;
          ArgumentIsClean(cli, context, p, leaves[i]);
        }
        FoldKeepsClean(cli, EMPTY, args, p);
      }
      CleanDeeper(context, d - 1);
    }
  }

  lemma ArgumentIsClean(cli: Cli, context: Json, p: seq<string>, leaf: (string, Json))
    requires context.Object? && AllAssign(cli, Leaves(context, "")) && leaf in Leaves(context, "")
    requires CleanTo(context, |p|) && NodeAt(context, p)
    ensures ParsePart(cli, Argument(cli, leaf)).Success? ==> KeysCleanAt(ParsePart(cli, Argument(cli, leaf)).value, p)
  {
    var token := ValueToken(cli, leaf.1);
    LeafIsNoAncestor(context, [], p, leaf, token);
    assert [] + p == p;
    assert Argument(cli, leaf)[|leaf.0|] == '=';
    if ParsePart(cli, Argument(cli, leaf)).Success? {
      AssignmentNests(cli, Argument(cli, leaf), p);
    }
  }

  // ---- The round trip ----

  /** Rendering as `path=value` words and parsing them back gives the same context,
      exactly when every key on the way to a leaf is clean. */
  lemma PathFormRebuildsExactly(cli: Cli, context: Json)
    requires Faithful(cli) && context.Object?
    requires forall part | part in ArgumentsFor(cli, context, PathForm) :: IsAssignment(part)
    ensures ParseFrom(cli, EMPTY, ArgumentsFor(cli, context, PathForm)) == Success(context) <==> CleanKeys(context)
  {
    if context.fields == map[] {
      assert context == EMPTY;
    } else {
      var leaves := Leaves(context, "");
      forall leaf | leaf in leaves ensures IsAssignment(Argument(cli, leaf)) {
        var i :| 0 <= i < |leaves| && leaves[i] == leaf;
        assert Arguments(cli, leaves)[i] in Arguments(cli, leaves);
      }
      if CleanKeys(context) {
        LeavesRebuild(cli, EMPTY, context, []);
        MergeEmpty(context);
      }
      if ParseFrom(cli, EMPTY, ArgumentsFor(cli, context, PathForm)) == Success(context) {
        forall d: nat ensures CleanTo(context, d) {
          RebuiltIsClean(cli, context, d);
        }
        CleanEverywhere(context);
      }
    }
  }

  lemma MergeEmpty(v: Json)
    requires v.Object?
    ensures MergeRight(EMPTY, v) == v
  {
    assert MergeRight(EMPTY, v).fields == v.fields;
  }

  /** One JSON word always gives the context back. */
  lemma JsonFormRebuilds(cli: Cli, context: Json)
    requires Faithful(cli) && context.Object?
    ensures ParseFrom(cli, EMPTY, ArgumentsFor(cli, context, JsonForm)) == Success(context)
  {
    MergeEmpty(context);
    if context.fields == map[] {
      assert context == EMPTY;
    } else {
      var text := cli.json(context);
      assert [text][1..] == [];
      assert TrimStart(text) == text;
    }
  }

  /** Clean keys are read as assignments when no top-level key starts like a file or
      like JSON. */
  lemma PlainKeysAssign(cli: Cli, context: Json)
    requires Faithful(cli) && context.Object? && CleanKeys(context)
    requires forall k | k in context.fields :: IsAssignment(k)
    ensures forall part | part in ArgumentsFor(cli, context, PathForm) :: IsAssignment(part)
  {
    if context.fields != map[] {
      var leaves := Leaves(context, "");
      forall part | part in Arguments(cli, leaves) ensures IsAssignment(part) {
        var i :| 0 <= i < |leaves| && part == Argument(cli, leaves[i]);
        var k := LeafKey(context, Order.Sorted(context.fields.Keys), "", leaves[i]);
        LeafAssigns(cli, context.fields[k], k, leaves[i]);
      }
    }
  }

  lemma LeafAssigns(cli: Cli, v: Json, k: string, leaf: (string, Json))
    requires Faithful(cli) && CleanKey(k) && IsAssignment(k) && leaf in Leaves(v, k)
    ensures IsAssignment(Argument(cli, leaf))
  {
    LeavesExtend(v, k, leaf);
    var part := Argument(cli, leaf);
    assert part[..|leaf.0|] == leaf.0;
    assert part[|leaf.0|] == '=';
    assert k == part[..|k|];
    var rest := part[|k|..];
    assert rest[0] == '.' || rest[0] == '=';
    assert part == k + rest;
    KeyThenAssign(k, rest);
  }

  lemma KeyStarts(cli: Cli, v: Json, k: string, leaf: (string, Json))
    requires k != "" && leaf in Leaves(v, k)
    ensures k <= Argument(cli, leaf) && |Argument(cli, leaf)| > |k|
  {
    LeavesExtend(v, k, leaf);
    assert Argument(cli, leaf)[..|leaf.0|] == leaf.0;
  }

  /** Every argument starts with a top-level key. */
  lemma ArgumentKey(cli: Cli, context: Json, part: string) returns (k: string)
    requires context.Object? && CleanKeys(context) && part in ArgumentsFor(cli, context, PathForm)
    ensures k in context.fields && CleanKey(k) && k <= part
  {
    var leaves := Leaves(context, "");
    var i :| 0 <= i < |leaves| && part == Argument(cli, leaves[i]);
    k := LeafKey(context, Order.Sorted(context.fields.Keys), "", leaves[i]);
    KeyStarts(cli, context.fields[k], k, leaves[i]);
  }

  /** And every top-level key starts an argument. */
  lemma KeyArgument(cli: Cli, context: Json, k: string) returns (part: string)
    requires context.Object? && CleanKeys(context) && k in context.fields
    ensures part in ArgumentsFor(cli, context, PathForm) && k <= part && |part| > |k|
  {
    var leaf := SomeLeaf(context.fields[k], k);
    KeyLeaves(context, Order.Sorted(context.fields.Keys), "", k, leaf);
    var leaves := Leaves(context, "");
    var i :| 0 <= i < |leaves| && leaves[i] == leaf;
    part := Argument(cli, leaf);
    assert ArgumentsFor(cli, context, PathForm)[i] == part;
    KeyStarts(cli, context.fields[k], k, leaf);
  }

  lemma {:induction false} SomeLeaf(v: Json, path: string) returns (leaf: (string, Json))
    ensures leaf in Leaves(v, path)
    decreases v
  {
    if IsLeaf(v) {
      leaf := (path, v);
    } else {
      var k :| k in v.fields;
      leaf := SomeLeaf(v.fields[k], Child(path, k));
      KeyLeaves(v, Order.Sorted(v.fields.Keys), path, k, leaf);
    }
  }

  lemma {:induction false} KeyLeaves(v: Json, keys: seq<string>, path: string, k: string, leaf: (string, Json))
    requires v.Object? && forall x | x in keys :: x in v.fields
    requires k in keys && leaf in Leaves(v.fields[k], Child(path, k))
    ensures leaf in LeavesOf(v, keys, path)
    decreases |keys|
  {
    var n := |keys| - 1;
    var before, last := LeavesOf(v, keys[..n], path), Leaves(v.fields[keys[n]], Child(path, keys[n]));
    assert LeavesOf(v, keys, path) == before + last;
    if keys[n] != k {
      KeyLeaves(v, keys[..n], path, k, leaf);
      assert leaf in before;
    }
  }

  lemma {:induction false} KeyThenAssign(k: string, rest: string)
    requires k != "" && IsAssignment(k) && |rest| > 0 && (rest[0] == '.' || rest[0] == '=')
    ensures IsAssignment(k + rest)
  {
    TrimAppend(k, rest);
  }

  lemma {:induction false} TrimAppend(k: string, rest: string)
    requires |rest| > 0 && !Text.IsWhite(rest[0]) && rest[0] != '{' && !StartsObject(k)
    ensures !StartsObject(k + rest)
    decreases |k|
  {
    if |k| > 0 && Text.IsWhite(k[0]) {
      assert (k + rest)[1..] == k[1..] + rest;
      TrimAppend(k[1..], rest);
    } else if |k| == 0 {
      assert k + rest == rest;
    }
  }

  lemma {:induction false} UnreadableFails(cli: Cli, acc: Json, parts: seq<string>, part: string)
    requires part in parts && ParsePart(cli, part).Failure?
    ensures ParseFrom(cli, acc, parts).Failure?
    decreases |parts|
  {
    if part != parts[0] && ParsePart(cli, parts[0]).Success? {
      UnreadableFails(cli, MergeRight(acc, ParsePart(cli, parts[0]).value), parts[1..], part);
    }
  }

  /** A top-level key that starts with `@` has an argument read as the name of a file:
      the context comes back at most when there is such a file and it holds an object. */
  lemma AtKeyReadsAFile(cli: Cli, context: Json, k: string) returns (part: string)
    requires context.Object? && CleanKeys(context) && k in context.fields && "@" <= k
    ensures part in ArgumentsFor(cli, context, PathForm) && k <= part
    ensures ParseFrom(cli, EMPTY, ArgumentsFor(cli, context, PathForm)).Success? ==>
              cli.file(part[1..]).Some? && ParseObject(cli, cli.file(part[1..]).value).Success?
  {
    part := KeyArgument(cli, context, k);
    assert part[0] == k[0] == '@';
    if ParsePart(cli, part).Failure? {
      UnreadableFails(cli, EMPTY, ArgumentsFor(cli, context, PathForm), part);
    }
  }

  /** One that starts like JSON has an argument read as a whole JSON object instead. */
  lemma BraceKeyReadsJson(cli: Cli, context: Json, k: string) returns (part: string)
    requires context.Object? && CleanKeys(context) && k in context.fields && StartsObject(k) && !("@" <= k)
    ensures part in ArgumentsFor(cli, context, PathForm) && k <= part
    ensures ParseFrom(cli, EMPTY, ArgumentsFor(cli, context, PathForm)).Success? ==> ParseObject(cli, part).Success?
  {
    part := KeyArgument(cli, context, k);
    assert part == k + part[|k|..];
    StartsAppend(k, part[|k|..]);
    if ParsePart(cli, part).Failure? {
      UnreadableFails(cli, EMPTY, ArgumentsFor(cli, context, PathForm), part);
    }
  }

  lemma {:induction false} StartsAppend(k: string, rest: string)
    requires StartsObject(k)
    ensures StartsObject(k + rest)
    ensures k != "" && (k + rest)[0] == k[0]
    decreases |k|
  {
    if Text.IsWhite(k[0]) {
      assert (k + rest)[1..] == k[1..] + rest;
      StartsAppend(k[1..], rest);
    }
  }
}
