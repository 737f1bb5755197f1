/** Where the inversion and the collected references are exact, and the shapes they
    misread. */
module SynthesisLimits {
  import opened Prelude
  import opened Json
  import opened Cel
  import opened References
  import opened Contexts
  import opened Synthesis
  import Text

  /** The synthesised context drives `e` to `want` in every extension. */
  ghost predicate Forces(e: Expr, want: bool, c: Json, host: Host) {
    forall env: Env | env.host == host && "context" in env.vars && Extends(c, env.vars["context"]) ::
      Eval(e, env) == Success(Bool(want))
  }

  // ---- Where a dotted path leads ----

  function Recorded(path: seq<string>): seq<string> {
    Text.Split(Text.Join(path, '.'), '.')
  }

  /** A nested value is not where a misread path says it is. */
  lemma {:induction false} MisreadNest(path: seq<string>, segments: seq<string>, value: Json, depth: nat)
    requires Misread(path, segments)
    ensures !WalkFrom(Nest(segments, value), path, depth).Found?
    decreases |path|
  {
    if Text.Free(path[0], '.') {
      MisreadNest(path[1..], segments[1..], value, depth + 1);
    }
  }

  lemma {:induction false} MisreadPrefix(path: seq<string>, segments: seq<string>, n: nat)
    requires Misread(path, segments) && n <= |path| && !Text.DotFree(path[..n])
    ensures Misread(path[..n], segments)
    decreases n
  {
    if Text.Free(path[0], '.') {
      DottedTail(path[..n]);
      assert path[..n][1..] == path[1..][..n - 1];
      MisreadPrefix(path[1..], segments[1..], n - 1);
    }
  }

  /** But in some extension it is: the misread key can be added beside the other. */
  lemma {:induction false} MisreadWider(path: seq<string>, segments: seq<string>, value: Json, depth: nat)
    returns (wider: Json)
    requires Misread(path, segments)
    ensures Extends(Nest(segments, value), wider) && WalkFrom(wider, path, depth).Found?
    decreases |path|
  {
    if Text.Free(path[0], '.') {
      var inner := MisreadWider(path[1..], segments[1..], value, depth + 1);
      wider := Object(map[path[0] := inner]);
    } else {
      var kept, added := Nest(segments[1..], value), Nest(path[1..], Null);
      ExtendsReflexive(kept);
      ExtendsReflexive(added);
      NestLeads(path[1..], Null, depth + 1);
      wider := Object(map[segments[0] := kept, path[0] := added]);
    }
  }

  lemma {:induction false} NestLeads(path: seq<string>, value: Json, depth: nat)
    ensures WalkFrom(Nest(path, value), path, depth) == Found(value)
    decreases |path|
  {
    if |path| > 0 {
      NestLeads(path[1..], value, depth + 1);
    }
  }

  // ---- What a chain answers in a synthesised context ----

  /** When its field was given `value`: that value, or true under `has`. */
  function Answer(e: Expr, value: Json): Option<Json> {
    if PlainChain(e) then Some(value) else if HasChain(e) then Some(Bool(true)) else None
  }

  /** A field named inside `has` is an identifier; only a quoted key can hold a dot. */
  predicate Named(e: Expr) {
    e.Select? && e.test ==> Text.Free(e.field, '.')
  }

  lemma AnswerReads(e: Expr, value: Json, env: Env)
    requires ContextPathOf(e).Some? && Answer(e, value).Some? && IsScalar(value) && "context" in env.vars
    requires ContextWithPath(ContextPathOf(e).value, value).Some?
    requires Extends(ContextWithPath(ContextPathOf(e).value, value).value, env.vars["context"])
    ensures Eval(e, env) == Success(Answer(e, value).value)
  {
    if PlainChain(e) {
      PathReads(e, Path(e).value.1, value, env);
    } else {
      HasReads(e, Path(e).value.1, value, env);
    }
  }

  /** Selecting below a `has` fails: there is nothing in a boolean. */
  lemma {:induction false} TestedGivesBool(e: Expr, env: Env)
    requires Path(e).Some? && Tested(e)
    ensures Eval(e, env).Failure? || Eval(e, env).value.Bool?
    ensures (e.Select? || e.Index?) && Tested(e.operand) ==> Eval(e, env).Failure?
    decreases e
  {
    if Tested(e.operand) {
      TestedGivesBool(e.operand, env);
    }
  }

  lemma ContextMade(e: Expr, value: Json, c: Json)
    requires ContextPathOf(e).Some? && ContextWithPath(ContextPathOf(e).value, value) == Some(c)
    ensures c == Nest(Recorded(Path(e).value.1), value) && Extends(c, c)
    ensures !Text.DotFree(Path(e).value.1) ==> Misread(Path(e).value.1, Recorded(Path(e).value.1))
  {
    var path := Path(e).value.1;
    InsertNests(Recorded(path), value);
    ExtendsReflexive(c);
    if !Text.DotFree(path) {
      DottedMisread(path);
    }
  }

  lemma HasOf(e: Expr, env: Env)
    requires e.Select? && e.test
    ensures Eval(e, env) == Success(Bool(true)) <==> Eval(Select(e.operand, e.field, false), env).Success?
    ensures Eval(e.operand, env).Failure? ==> Eval(e, env).Failure?
  {
  }

  /** A dotted chain, with or without `has` around it, does not find its field. */
  lemma DottedMisses(e: Expr, value: Json, c: Json, env: Env)
    requires ContextPathOf(e).Some? && !Text.DotFree(Path(e).value.1)
    requires ContextWithPath(ContextPathOf(e).value, value) == Some(c) && "context" in env.vars
    requires env.vars["context"] == c
    ensures Eval(e, env) != Success(Bool(true))
    ensures !Tested(e) ==> Eval(e, env).Failure?
  {
    var path := Path(e).value.1;
    ContextMade(e, value, c);
    MisreadNest(path, Recorded(path), value, 0);
    if !Tested(e) {
      ChainWalks(e, env);
    } else if Tested(e.operand) {
      TestedGivesBool(e, env);
    } else {
      ChainWalks(Select(e.operand, e.field, false), env);
      HasOf(e, env);
    }
  }

  lemma AnswerMisses(e: Expr, value: Json, c: Json, env: Env)
    requires ContextPathOf(e).Some? && Answer(e, value).None? && Named(e)
    requires ContextWithPath(ContextPathOf(e).value, value) == Some(c) && "context" in env.vars
    requires env.vars["context"] == c
    ensures Eval(e, env).Failure?
  {
    if !Tested(e) {
      DottedMisses(e, value, c, env);
    } else if Tested(e.operand) {
      TestedGivesBool(e, env);
    } else {
      HasMisses(e, value, c, env);
    }
  }

  lemma HasMisses(e: Expr, value: Json, c: Json, env: Env)
    requires ContextPathOf(e).Some? && e.Select? && e.test && !Tested(e.operand)
    requires Text.Free(e.field, '.') && !Text.DotFree(Path(e).value.1)
    requires ContextWithPath(ContextPathOf(e).value, value) == Some(c) && "context" in env.vars
    requires env.vars["context"] == c
    ensures Eval(e, env).Failure?
  {
    var path := Path(e).value.1;
    var n := |path| - 1;
    assert path == path[..n] + [e.field];
    assert Path(e.operand).value.1 == path[..n];
    ContextMade(e, value, c);
    MisreadPrefix(path, Recorded(path), n);
    MisreadNest(path[..n], Recorded(path), value, 0);
    ChainWalks(e.operand, env);
  }

  // ---- When a leaf is inverted right ----

  /** A context path is inverted right exactly when no segment holds a dot, since the
      path is joined with dots and split again on the way, and there is no `has` around
      it, or only around the whole of it where true is wanted: the field is given the
      wanted boolean, so it is there either way. */
  lemma PathInversionExact(e: Expr, want: bool, host: Host, variable: VariableSource, lists: ListSource)
    requires ContextPathOf(e).Some? && SynthesizeBool(e, want, host, variable, lists).Some?
    ensures Forces(e, want, SynthesizeBool(e, want, host, variable, lists).value, host)
        <==> && Text.DotFree(Path(e).value.1)
             && (!Tested(e) || (want && e.Select? && e.test && !Tested(e.operand)))
  {
    var path := Path(e).value.1;
    var c := SynthesizeBool(e, want, host, variable, lists).value;
    var env := Env(map["context" := c], host);
    ContextMade(e, Bool(want), c);
    if Answer(e, Bool(want)) == Some(Bool(want)) {
      forall env: Env | env.host == host && "context" in env.vars && Extends(c, env.vars["context"])
        ensures Eval(e, env) == Success(Bool(want))
      {
        AnswerReads(e, Bool(want), env);
      }
    } else if HasChain(e) {
      AnswerReads(e, Bool(want), env);
    } else if Tested(e) && Tested(e.operand) {
      TestedGivesBool(e, env);
    } else if want || !Tested(e) {
      DottedMisses(e, Bool(want), c, env);
    } else {
      var wider := MisreadWider(path, Recorded(path), Bool(want), 0);
      var extended := Env(map["context" := wider], host);
      ChainWalks(Select(e.operand, e.field, false), extended);
      HasOf(e, extended);
      assert Eval(e, extended) != Success(Bool(want));
    }
  }

  lemma ComparedValue(op: Comparison, left: Expr, right: Expr, want: bool, host: Host,
                      variable: VariableSource, lists: ListSource)
    returns (chain: Expr, literal: Json, value: Json)
    requires SynthesizeBool(Compare(op, left, right), want, host, variable, lists).Some?
    ensures (chain == left && LiteralJson(right) == Some(literal))
            || (chain == right && LiteralJson(left) == Some(literal))
    ensures ContextPathOf(chain).Some? && IsScalar(value)
    ensures ContextWithPath(ContextPathOf(chain).value, value) ==
            SynthesizeBool(Compare(op, left, right), want, host, variable, lists)
    ensures PlainCompare(op, left, right, want) == PlainSide(op, chain, literal, want)
    ensures !op.Equal? && !op.NotEqual? ==> literal.Number?
  {
    assert Path(Compare(op, left, right)).None?;
    if ContextPathOf(left).Some? && LiteralJson(right).Some? {
      chain, literal := left, LiteralJson(right).value;
    } else {
      chain, literal := right, LiteralJson(left).value;
    }
    match op {
      case Equal => value := if want then literal else AlternativeValue(literal);
      case NotEqual => value := if !want then literal else AlternativeValue(literal);
      case Less => value := OrderingValue(chain == right, false, want, literal.number);
      case LessEqual => value := OrderingValue(chain == right, true, want, literal.number);
      case Greater => value := OrderingValue(chain == left, false, want, literal.number);
      case GreaterEqual => value := OrderingValue(chain == left, true, want, literal.number);
    }
  }

  /** A comparison of a context path with a literal is inverted right exactly when it is
      plain: no segment holds a dot, and no `has`, except around the whole path under an
      equality that the assigned value would settle as its presence does. */
  lemma CompareInversionExact(op: Comparison, left: Expr, right: Expr, want: bool, host: Host,
                              variable: VariableSource, lists: ListSource)
    requires Named(left) && Named(right)
    requires SynthesizeBool(Compare(op, left, right), want, host, variable, lists).Some?
    ensures Forces(Compare(op, left, right), want,
                   SynthesizeBool(Compare(op, left, right), want, host, variable, lists).value, host)
        <==> PlainCompare(op, left, right, want)
  {
    var e := Compare(op, left, right);
    var c := SynthesizeBool(e, want, host, variable, lists).value;
    if PlainCompare(op, left, right, want) {
      forall env: Env | env.host == host && "context" in env.vars && Extends(c, env.vars["context"])
        ensures Eval(e, env) == Success(Bool(want))
      {
        CompareForces(op, left, right, want, variable, lists, env);
      }
    } else {
      var chain, literal, value := ComparedValue(op, left, right, want, host, variable, lists);
      ContextMade(chain, value, c);
      CompareMisses(op, left, right, want, chain, literal, value, c, host);
    }
  }

  lemma CompareMisses(op: Comparison, left: Expr, right: Expr, want: bool, chain: Expr, literal: Json, value: Json,
                      c: Json, host: Host)
    requires (chain == left && LiteralJson(right) == Some(literal))
             || (chain == right && LiteralJson(left) == Some(literal))
    requires ContextPathOf(chain).Some? && Named(chain) && IsScalar(value) && Extends(c, c)
    requires ContextWithPath(ContextPathOf(chain).value, value) == Some(c)
    requires !PlainSide(op, chain, literal, want)
    ensures Eval(Compare(op, left, right), Env(map["context" := c], host)) != Success(Bool(want))
  {
    var env := Env(map["context" := c], host);
    if Answer(chain, value).None? {
      AnswerMisses(chain, value, c, env);
    } else {
      AnswerReads(chain, value, env);
    }
  }

  /** A bucket test on a context path is inverted right exactly when no segment holds a
      dot and there is no `has`, unless presence itself falls as wanted. */
  lemma BucketInversionExact(args: seq<Expr>, want: bool, host: Host, variable: VariableSource, lists: ListSource)
    requires SynthesizeBool(Bucket(args), want, host, variable, lists).Some? && Named(args[0])
    ensures Forces(Bucket(args), want, SynthesizeBool(Bucket(args), want, host, variable, lists).value, host)
        <==> || PlainChain(args[0])
             || (HasChain(args[0])
                 && InBucket(host, [Bool(true), args[1].value, args[2].value, args[3].value]) == Success(Bool(want)))
  {
    assert Path(Bucket(args)).None?;
    var c := SynthesizeBool(Bucket(args), want, host, variable, lists).value;
    var key := BucketKey(host, args[1].value.text, args[2].value.number, args[3].value.number, want, 0).value;
    ContextMade(args[0], String(key), c);
    if PlainChain(args[0]) {
      forall env: Env | env.host == host && "context" in env.vars && Extends(c, env.vars["context"])
        ensures Eval(Bucket(args), env) == Success(Bool(want))
      {
        BucketForces(args, want, env);
      }
    } else if HasChain(args[0]) {
      forall env: Env | env.host == host && "context" in env.vars && Extends(c, env.vars["context"])
        ensures Eval(Bucket(args), env) == InBucket(host, [Bool(true), args[1].value, args[2].value, args[3].value])
      {
        AnswerReads(args[0], String(key), env);
        BucketEvaluates(args, Bool(true), env);
      }
      assert Extends(c, Env(map["context" := c], host).vars["context"]);
    } else {
      AnswerMisses(args[0], String(key), c, Env(map["context" := c], host));
      SomeFails(args, args[0], Env(map["context" := c], host));
    }
  }

  // ---- When a membership in a named list is inverted right ----

  /** The same as `Forces` where the list is bound to its members. */
  ghost predicate ForcesListed(e: Expr, want: bool, c: Json, host: Host, id: string, members: seq<Json>) {
    forall env: Env |
      env.host == host && "context" in env.vars && Extends(c, env.vars["context"]) && ListBound(id, members, env) ::
      Eval(e, env) == Success(Bool(want))
  }

  /** A membership in a named list is inverted right exactly when the list itself is
      named, no segment of the path holds a dot, and there is no `has`, unless presence
      itself is in the list as wanted. */
  lemma NamedListExact(p: Expr, list: Expr, want: bool, host: Host, variable: VariableSource, lists: ListSource)
    requires ContextPathOf(p).Some? && Named(p) && ReferenceOf(list).Some? && ReferenceOf(list).value.ListOf?
    requires SynthesizeBool(In(p, list), want, host, variable, lists).Some?
    requires forall m | m in lists(ReferenceOf(list).value.id).value :: IsScalar(m)
    ensures var id := ReferenceOf(list).value.id;
            ForcesListed(In(p, list), want, SynthesizeBool(In(p, list), want, host, variable, lists).value, host, id,
                         lists(id).value)
            <==> && !Tested(list) && |Path(list).value.1| == 1
                 && (PlainChain(p) || (HasChain(p) && (Bool(true) in lists(id).value <==> want)))
  {
    assert Path(In(p, list)).None?;
    var id := ReferenceOf(list).value.id;
    var members := lists(id).value;
    var value := if want then members[0] else NonMember(members).value;
    var c := SynthesizeBool(In(p, list), want, host, variable, lists).value;
    if !want {
      NonMemberMisses(members);
    }
    ContextMade(p, value, c);
    if !Tested(list) && |Path(list).value.1| == 1 && Answer(p, value).Some? {
      forall env: Env | env.host == host && "context" in env.vars && Extends(c, env.vars["context"])
          && ListBound(id, members, env)
        ensures Eval(In(p, list), env) == Success(Bool(Answer(p, value).value in members))
      {
        AnswerReads(p, value, env);
        NamedListEvaluates(list, members, env);
      }
      assert ListBound(id, members, ListEnv(c, id, members, host));
    } else {
      NamedListMisses(p, list, value, c, host, members);
    }
  }

  function ListEnv(c: Json, id: string, members: seq<Json>, host: Host): Env {
    Env(map["context" := c, "lists" := Object(map[id := Array(members)])], host)
  }

  /** A list has no fields. */
  lemma BelowListFails(list: Expr, members: seq<Json>, env: Env)
    requires ReferenceOf(list).Some? && ReferenceOf(list).value.ListOf? && !Tested(list) && |Path(list).value.1| != 1
    requires ListBound(ReferenceOf(list).value.id, members, env)
    ensures Eval(list, env).Failure?
  {
    var path := Path(list).value.1;
    var id := ReferenceOf(list).value.id;
    ChainWalks(list, env);
    assert path[1..][0] == path[1];
    assert !WalkFrom(env.vars["lists"].fields[id], path[1..], 1).Found?;
  }

  lemma NamedListMisses(p: Expr, list: Expr, value: Json, c: Json, host: Host, members: seq<Json>)
    requires ContextPathOf(p).Some? && Named(p) && ReferenceOf(list).Some? && ReferenceOf(list).value.ListOf?
    requires ContextWithPath(ContextPathOf(p).value, value) == Some(c)
    requires Tested(list) || |Path(list).value.1| != 1 || Answer(p, value).None?
    ensures Eval(In(p, list), ListEnv(c, ReferenceOf(list).value.id, members, host)).Failure?
  {
    var env := ListEnv(c, ReferenceOf(list).value.id, members, host);
    if Tested(list) {
      TestedGivesBool(list, env);
    } else if |Path(list).value.1| != 1 {
      BelowListFails(list, members, env);
    } else {
      AnswerMisses(p, value, c, env);
    }
  }

  /** `context.p in [context.q, "x"]`: only the literal element is looked at, so the
      context wanted true leaves `context.q` absent and evaluation fails. */
  lemma MixedListMisread(host: Host, variable: VariableSource, lists: ListSource)
    ensures var p, q := Select(Ident("context"), "p", false), Select(Ident("context"), "q", false);
            var e := In(p, List([q, Literal(String("x"))]));
            var c := Object(map["p" := String("x")]);
            && SynthesizeBool(e, true, host, variable, lists) == Some(c)
            && Eval(e, Env(map["context" := c], host)) == Failure(NoSuchKey("q"))
  {
    var p, q := Select(Ident("context"), "p", false), Select(Ident("context"), "q", false);
    var e := In(p, List([q, Literal(String("x"))]));
    var c := Object(map["p" := String("x")]);
    var env := Env(map["context" := c], host);
    assert Text.Join(["p"], '.') == "p" && Text.Before("p", '.') == "p";
    assert Text.Split("p", '.') == ["p"];
    assert Path(p) == Some(("context", ["p"])) by {
      assert [] + ["p"] == ["p"];
    }
    assert LiteralElements([q, Literal(String("x"))][1..]) == [String("x")];
    assert [q, Literal(String("x"))][0] == q && LiteralJson(q).None?;
    assert LiteralElements([q, Literal(String("x"))]) == [String("x")];
    assert MembersOf(e.collection, lists) == Some([String("x")]);
    assert ContextWithPath("p", String("x")) == Some(c);
    assert EvalEach(e.collection.elements, env)[0] == Eval(q, env) == Failure(NoSuchKey("q"));
  }

  /** `variables.v.x` is inverted by driving `v` itself; a boolean has no field. */
  lemma VariableFieldMisread(v: string, x: string, want: bool, env: Env, variable: VariableSource, lists: ListSource)
    requires Bound(env) && v in env.vars["variables"].fields && env.vars["variables"].fields[v] == Bool(want)
    ensures var e := Select(Select(Ident("variables"), v, false), x, false);
            && SynthesizeBool(e, want, env.host, variable, lists) == variable(v, want)
            && Eval(e, env) == Failure(NoOverload)
  {
    var e := Select(Select(Ident("variables"), v, false), x, false);
    assert Path(e) == Some(("variables", [v, x])) by {
      assert [] + [v] + [x] == [v, x];
      assert Path(e.operand) == Some(("variables", [] + [v]));
    }
    assert Eval(e.operand.operand, env) == Success(env.vars["variables"]);
    assert Eval(e.operand, env) == Success(Bool(want));
  }

  // ---- When a variable chain is driven right ----

  /** Below the variable itself there is nothing to select from a boolean. */
  lemma {:induction false} BelowVariableFails(e: Expr, env: Env, v: string)
    requires Path(e).Some? && Path(e).value.0 == "variables" && |Path(e).value.1| > 1 && Path(e).value.1[0] == v
    requires Bound(env) && v in env.vars["variables"].fields && env.vars["variables"].fields[v].Bool?
    ensures Eval(e, env).Failure?
    decreases e
  {
    var path := Path(e).value.1;
    var init := path[..|path| - 1];
    assert path == init + [path[|init|]];
    assert Path(e.operand) == Some(("variables", init));
    if |init| > 1 {
      BelowVariableFails(e.operand, env, v);
    } else {
      assert init == [v];
      VariableItself(e.operand, env, v);
    }
  }

  /** Driving `v` for a chain into it is right exactly when the chain is `v` itself:
      no field below it, and no `has` around it unless true is wanted. */
  lemma VariableChainExact(e: Expr, want: bool, env: Env, variable: VariableSource, lists: ListSource)
    requires Bound(env) && ReferenceOf(e).Some? && ReferenceOf(e).value.Variable?
    requires var v := ReferenceOf(e).value.id;
             v in env.vars["variables"].fields && env.vars["variables"].fields[v] == Bool(want)
    ensures SynthesizeBool(e, want, env.host, variable, lists) == variable(ReferenceOf(e).value.id, want)
    ensures Eval(e, env) == Success(Bool(want)) <==> |Path(e).value.1| == 1 && (!Tested(e) || want)
  {
    var v, path := ReferenceOf(e).value.id, Path(e).value.1;
    if |path| == 1 {
      assert path == [v];
      VariableItself(e, env, v);
    } else {
      BelowVariableFails(e, env, v);
    }
  }

  // ---- When a membership is inverted right ----

  /** Which chains a nested scalar answers: those into the path that leads to it. */
  lemma {:induction false} NestAnswers(p: seq<string>, value: Json, q: seq<string>, depth: nat)
    requires IsScalar(value)
    ensures WalkFrom(Nest(p, value), q, depth).Found? <==> q <= p
    decreases |q|
  {
    if |q| > 0 && |p| > 0 && q[0] == p[0] {
      NestAnswers(p[1..], value, q[1..], depth + 1);
      assert p == [p[0]] + p[1..] && q == [q[0]] + q[1..];
    }
  }

  /** A membership in a list of literals and context chains, inverted from the literals
      alone, is right exactly when no segment of the element's path holds a dot and
      every chain is a prefix of that path: a proper one, when a miss is wanted. */
  lemma MixedListExact(p: Expr, es: seq<Expr>, want: bool, host: Host, variable: VariableSource, lists: ListSource)
    requires ContextPathOf(p).Some? && !Tested(p) && forall x | x in es :: x.Literal? || ContextChain(x)
    requires SynthesizeBool(In(p, List(es)), want, host, variable, lists).Some?
    ensures Forces(In(p, List(es)), want, SynthesizeBool(In(p, List(es)), want, host, variable, lists).value, host)
        <==> Text.DotFree(Path(p).value.1) && ChainsLeadIn(es, Path(p).value.1, want)
  {
    var path := Path(p).value.1;
    var c := SynthesizeBool(In(p, List(es)), want, host, variable, lists).value;
    var value := ChosenMember(p, es, want, host, variable, lists);
    if !Text.DotFree(path) {
      DottedElementFails(p, es, c, value, host);
      assert !Forces(In(p, List(es)), want, c, host);
    } else {
      Text.SplitJoin(path, '.');
      InsertNests(path, value);
      assert c == Nest(path, value);
      if ChainsLeadIn(es, path, want) {
        forall env: Env | env.host == host && "context" in env.vars && Extends(c, env.vars["context"])
          ensures Eval(In(p, List(es)), env) == Success(Bool(want))
        {
          LeadingListForces(p, es, want, value, env);
        }
      } else {
        StrayListFails(p, es, want, value, host);
      }
    }
  }

  lemma StrayListFails(p: Expr, es: seq<Expr>, want: bool, value: Json, host: Host)
    requires ContextPathOf(p).Some? && !Tested(p) && Written(value)
    requires forall x | x in es :: x.Literal? || ContextChain(x)
    requires !ChainsLeadIn(es, Path(p).value.1, want)
    ensures !Forces(In(p, List(es)), want, Nest(Path(p).value.1, value), host)
  {
    var c := Nest(Path(p).value.1, value);
    var env := Env(map["context" := c], host);
    ExtendsReflexive(c);
    if x :| x in es && ContextChain(x) && !(Path(x).value.1 <= Path(p).value.1) {
      StrayChain(p, es, x, value, env);
    } else {
      var y :| y in es && ContextChain(y) && !want && Path(y).value.1 == Path(p).value.1;
      SameChain(p, es, y, value, env);
    }
  }

  /** A chain that leads elsewhere is absent, and evaluation fails. */
  lemma StrayChain(p: Expr, es: seq<Expr>, x: Expr, value: Json, env: Env)
    requires ContextPathOf(p).Some? && Written(value) && x in es && ContextChain(x)
    requires !(Path(x).value.1 <= Path(p).value.1)
    requires "context" in env.vars && env.vars["context"] == Nest(Path(p).value.1, value)
    ensures Eval(In(p, List(es)), env).Failure?
  {
    NestAnswers(Path(p).value.1, value, Path(x).value.1, 0);
    ChainWalks(x, env);
    ElementFails(p, es, x, env);
  }

  /** The element's own chain makes it a member. */
  lemma SameChain(p: Expr, es: seq<Expr>, y: Expr, value: Json, env: Env)
    requires ContextPathOf(p).Some? && !Tested(p) && Written(value) && y in es && ContextChain(y)
    requires Path(y).value.1 == Path(p).value.1
    requires forall x | x in es :: x.Literal? || (ContextChain(x) && Path(x).value.1 <= Path(p).value.1)
    requires "context" in env.vars && env.vars["context"] == Nest(Path(p).value.1, value)
    ensures Eval(In(p, List(es)), env) == Success(Bool(true))
  {
    ExtendsReflexive(env.vars["context"]);
    assert IsElement(y, Path(p).value.1, value);
    ElementReads(p, value, env);
    MixedElements(es, Path(p).value.1, value, env);
    InReads(p, es, value, env);
  }

  lemma ElementFails(p: Expr, es: seq<Expr>, x: Expr, env: Env)
    requires x in es && Eval(x, env).Failure?
    ensures Eval(In(p, List(es)), env).Failure?
  {
    SomeFails(es, x, env);
    assert Eval(List(es), env).Failure?;
  }

  lemma SomeFails(es: seq<Expr>, x: Expr, env: Env)
    requires x in es && Eval(x, env).Failure?
    ensures All(EvalEach(es, env)).Failure?
  {
    var i :| 0 <= i < |es| && es[i] == x;
    var values := EvalEach(es, env);
    assert values[i] in values;
  }

  lemma DottedElementFails(p: Expr, es: seq<Expr>, c: Json, value: Json, host: Host)
    requires ContextPathOf(p).Some? && !Tested(p) && !Text.DotFree(Path(p).value.1)
    requires ContextWithPath(ContextPathOf(p).value, value) == Some(c)
    ensures Extends(c, c) && Eval(In(p, List(es)), Env(map["context" := c], host)).Failure?
  {
    ContextMade(p, value, c);
    DottedMisses(p, value, c, Env(map["context" := c], host));
  }

  /** A collected context path pins down what the chain reads exactly when no segment
      holds a dot: only then is walking the recorded text walking the chain. */
  lemma RecordedPathExact(path: seq<string>)
    requires |path| > 0
    ensures Text.DotFree(path) <==>
            forall a, b | Walk(a, Recorded(path)) == Walk(b, Recorded(path)) ::
              Walk(a, path) == Walk(b, path)
  {
    var recorded := Recorded(path);
    if Text.DotFree(path) {
      Text.SplitJoin(path, '.');
    } else {
      var a, b := Nest(path, Number(0)), Nest(path, Number(1));
      var _ := DottedPathMisses(path, Number(0), 0);
      var _ := DottedPathMisses(path, Number(1), 0);
      DottedStopUnique(path, Number(0), Number(1));
      ExtendsReflexive(a);
      ExtendsReflexive(b);
      NestWalks(path, Number(0), a, 0);
      NestWalks(path, Number(1), b, 0);
      assert Walk(a, recorded) == Walk(b, recorded) && Walk(a, path) != Walk(b, path);
    }
  }

  lemma DottedStopUnique(path: seq<string>, v: Json, w: Json)
    requires |path| > 0 && !Text.DotFree(path)
    ensures Walk(Nest(path, v), Text.Split(Text.Join(path, '.'), '.'))
         == Walk(Nest(path, w), Text.Split(Text.Join(path, '.'), '.'))
  {
    var s := DottedPathMisses(path, v, 0);
    var t := DottedPathMisses(path, w, 0);
    assert s <= t && t <= s;
  }
}
