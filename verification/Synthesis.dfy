/** Running a condition backwards: a partial context that drives it to a wanted
    outcome. */
module Synthesis {
  import opened Prelude
  import opened Json
  import opened Cel
  import opened References
  import opened Contexts
  import Decimal
  import Text

  const MAX_BUCKET_CANDIDATES: nat := 100000
  const FIXTURE_OTHER := "fixture-other"
  const NOT_IN_LIST := "fixture-not-in-list"

  /** What the caller supplies: contexts that drive a referenced variable, and the
      members of a referenced list. */
  type VariableSource = (string, bool) -> Option<Json>
  type ListSource = string -> Option<seq<Json>>

  function ContextPathOf(e: Expr): Option<string> {
    match Path(e)
    case None => None
    case Some((root, segments)) =>
      if root == "context" && |segments| > 0 then Some(Text.Join(segments, '.')) else None
  }

  function LiteralJson(e: Expr): Option<Json> {
    if e.Literal? && (e.value.Bool? || e.value.Number? || e.value.String?) then Some(e.value) else None
  }

  function SynthesizeBool(e: Expr, want: bool, host: Host, variable: VariableSource, lists: ListSource): Option<Json>
    decreases e, 1
  {
    if ReferenceOf(e).Some? && ReferenceOf(e).value.Variable? then variable(ReferenceOf(e).value.id, want)
    else if ContextPathOf(e).Some? then ContextWithPath(ContextPathOf(e).value, Bool(want))
    else
      match e
      case Literal(value) => if value == Bool(want) then Some(EMPTY) else None
      case Not(arg) => SynthesizeBool(arg, !want, host, variable, lists)
      case And(args) => SynthesizeJunction(SynthesizeEach(args, want, host, variable, lists), want == true)
      case Or(args) => SynthesizeJunction(SynthesizeEach(args, want, host, variable, lists), want == false)
      case Compare(op, left, right) =>
        (match op
         case Equal => SynthesizeEquality(left, right, want)
         case NotEqual => SynthesizeEquality(left, right, !want)
         case Less => SynthesizeOrdering(left, right, false, false, want)
         case LessEqual => SynthesizeOrdering(left, right, false, true, want)
         case Greater => SynthesizeOrdering(left, right, true, false, want)
         case GreaterEqual => SynthesizeOrdering(left, right, true, true, want))
      case In(element, collection) => SynthesizeMembership(element, collection, want, lists)
      case Bucket(args) => SynthesizeBucket(args, want, host)
      case _ => None
  }

  function SynthesizeEach(es: seq<Expr>, want: bool, host: Host, variable: VariableSource, lists: ListSource)
    : (r: seq<Option<Json>>)
    ensures |r| == |es|
    ensures forall i | 0 <= i < |es| :: r[i] == SynthesizeBool(es[i], want, host, variable, lists)
    decreases es, 0
  {
    if |es| == 0 then []
    else [SynthesizeBool(es[0], want, host, variable, lists)] + SynthesizeEach(es[1..], want, host, variable, lists)
  }

  /** When every operand must agree, all their contexts are merged; otherwise the
      first operand that can be driven is enough. */
  function SynthesizeJunction(operands: seq<Option<Json>>, every: bool): Option<Json> {
    if every then MergeAll(operands) else FirstSome(operands)
  }

  function FirstSome(options: seq<Option<Json>>): (r: Option<Json>)
    ensures r.Some? ==> r in options
    ensures r.None? ==> forall o | o in options :: o.None?
  {
    if |options| == 0 then None
    else if options[0].Some? then options[0]
    else
      assert options == [options[0]] + options[1..];
      FirstSome(options[1..])
  }

  /** The loop of a junction whose operands must all agree: each operand's context
      is merged into one, until one cannot be driven or conflicts. */
  method MergeOperands(args: seq<Expr>, want: bool, host: Host, variable: VariableSource, lists: ListSource)
    returns (r: Option<Json>)
    ensures r == MergeAll(SynthesizeEach(args, want, host, variable, lists))
  {
    ghost var operands := SynthesizeEach(args, want, host, variable, lists);
    var context := map[];
    for i := 0 to |args|
      invariant MergeAll(operands[..i]) == Some(Object(context))
    {
      var operand := SynthesizeBool(args[i], want, host, variable, lists);
      MergeAllStep(operands, i);
      if operand.None? || !operand.value.Object? {
        MergeAllFails(operands, i + 1);
        return None;
      }
      var merged := MergeObjects(context, operand.value.fields);
      if merged.None? {
        MergeAllFails(operands, i + 1);
        return None;
      }
      context := merged.value;
    }
    assert operands[..|args|] == operands;
    r := Some(Object(context));
  }

  /** The loop of a junction that one operand can settle. */
  method FirstOperand(args: seq<Expr>, want: bool, host: Host, variable: VariableSource, lists: ListSource)
    returns (r: Option<Json>)
    ensures r == FirstSome(SynthesizeEach(args, want, host, variable, lists))
  {
    ghost var operands := SynthesizeEach(args, want, host, variable, lists);
    for i := 0 to |args|
      invariant FirstSome(operands) == FirstSome(operands[i..])
    {
      var operand := SynthesizeBool(args[i], want, host, variable, lists);
      FirstSomeOnce(operands, i);
      if operand.Some? {
        return operand;
      }
    }
    r := None;
  }

  lemma FirstSomeOnce(options: seq<Option<Json>>, i: nat)
    requires i < |options|
    ensures FirstSome(options[i..]) == if options[i].Some? then options[i] else FirstSome(options[i + 1..])
  {
    assert options[i..][1..] == options[i + 1..];
  }

  lemma MergeAllStep(contexts: seq<Option<Json>>, i: nat)
    requires i < |contexts| && MergeAll(contexts[..i]).Some?
    ensures MergeAll(contexts[..i + 1]) ==
            if contexts[i].Some? then MergeContext(MergeAll(contexts[..i]).value, contexts[i].value) else None
  {
    assert contexts[..i + 1][..i] == contexts[..i];
  }

  lemma {:induction false} MergeAllFails(contexts: seq<Option<Json>>, n: nat)
    requires n <= |contexts| && MergeAll(contexts[..n]).None?
    ensures MergeAll(contexts).None?
    decreases |contexts|
  {
    if n < |contexts| {
      var init := contexts[..|contexts| - 1];
      assert init[..n] == contexts[..n];
      MergeAllFails(init, n);
    } else {
      assert contexts[..n] == contexts;
    }
  }

  /** `match_` says whether the path has to equal the literal. */
  function SynthesizeEquality(left: Expr, right: Expr, match_: bool): Option<Json> {
    if ContextPathOf(left).Some? && LiteralJson(right).Some? then
      Assign(ContextPathOf(left).value, LiteralJson(right).value, match_)
    else if ContextPathOf(right).Some? && LiteralJson(left).Some? then
      Assign(ContextPathOf(right).value, LiteralJson(left).value, match_)
    else None
  }

  function Assign(path: string, literal: Json, match_: bool): Option<Json> {
    ContextWithPath(path, if match_ then literal else AlternativeValue(literal))
  }

  function AlternativeValue(value: Json): Json {
    match value
    case String(text) => if text == FIXTURE_OTHER then String(FIXTURE_OTHER + "-2") else String(FIXTURE_OTHER)
    case Bool(flag) => Bool(!flag)
    case Number(n) => Number(n + 1)
    case _ => String(FIXTURE_OTHER)
  }

  function SynthesizeOrdering(left: Expr, right: Expr, isGreater: bool, orEqual: bool, want: bool): Option<Json> {
    if ContextPathOf(left).Some? then
      if LiteralJson(right).Some? && LiteralJson(right).value.Number? then
        ContextWithPath(ContextPathOf(left).value,
                        OrderingValue(isGreater, orEqual, want, LiteralJson(right).value.number))
      else None
    else if ContextPathOf(right).Some? && LiteralJson(left).Some? && LiteralJson(left).value.Number? then
      ContextWithPath(ContextPathOf(right).value,
                      OrderingValue(!isGreater, orEqual, want, LiteralJson(left).value.number))
    else None
  }

  /** One step across the boundary where a strict comparison, or a wanted-false
      outcome, needs it. */
  function OrderingValue(greater: bool, orEqual: bool, want: bool, number: int): Json {
    var delta :=
      if want then (if orEqual then 0 else if greater then 1 else -1)
      else if !orEqual then 0
      else if greater then -1 else 1;
    Number(number + delta)
  }

  function SynthesizeMembership(element: Expr, collection: Expr, want: bool, lists: ListSource): Option<Json> {
    if ContextPathOf(element).None? then None
    else
      match MembersOf(collection, lists)
      case None => None
      case Some(members) =>
        if want then
          if |members| == 0 then None else ContextWithPath(ContextPathOf(element).value, members[0])
        else
          match NonMember(members)
          case None => None
          case Some(value) => ContextWithPath(ContextPathOf(element).value, value)
  }

  /** The literal elements of a list expression, or the members of a named list. */
  function MembersOf(collection: Expr, lists: ListSource): Option<seq<Json>> {
    if collection.List? then Some(LiteralElements(collection.elements))
    else if ReferenceOf(collection).Some? && ReferenceOf(collection).value.ListOf? then
      lists(ReferenceOf(collection).value.id)
    else None
  }

  function LiteralElements(es: seq<Expr>): seq<Json> {
    if |es| == 0 then []
    else (if LiteralJson(es[0]).Some? then [LiteralJson(es[0]).value] else []) + LiteralElements(es[1..])
  }

  function Largest(members: seq<Json>): (r: int)
    requires |members| > 0 && forall m | m in members :: m.Number?
    ensures forall m | m in members :: m.number <= r
  {
    if |members| == 1 then members[0].number
    else
      assert members == [members[0]] + members[1..];
      var rest := Largest(members[1..]);
      if members[0].number > rest then members[0].number else rest
  }

  function NonMember(members: seq<Json>): Option<Json> {
    if |members| > 0 && forall m | m in members :: m.Number? then Some(Number(Largest(members) + 1))
    else if String(NOT_IN_LIST) !in members then Some(String(NOT_IN_LIST))
    else if String(FIXTURE_OTHER) !in members then Some(String(FIXTURE_OTHER))
    else if Bool(false) !in members then Some(Bool(false))
    else None
  }

  function SynthesizeBucket(args: seq<Expr>, want: bool, host: Host): Option<Json> {
    if |args| == 4 && ContextPathOf(args[0]).Some? && IsText(args[1]) && IsNumber(args[2]) && IsNumber(args[3]) then
      match BucketKey(host, args[1].value.text, args[2].value.number, args[3].value.number, want, 0)
      case None => None
      case Some(key) => ContextWithPath(ContextPathOf(args[0]).value, String(key))
    else None
  }

  predicate IsText(e: Expr) {
    e.Literal? && e.value.String?
  }

  predicate IsNumber(e: Expr) {
    e.Literal? && e.value.Number?
  }

  function Candidate(index: nat): string {
    "bucket-fixture-" + Decimal.Fixed(index, 5)
  }

  predicate Hits(host: Host, salt: string, start: int, end: int, key: string) {
    start <= BucketOf(host, salt, String(key)) < end
  }

  /** The first candidate from `index` on that buckets as wanted. */
  function BucketKey(host: Host, salt: string, start: int, end: int, want: bool, index: nat): Option<string>
    decreases MAX_BUCKET_CANDIDATES - index
  {
    if index >= MAX_BUCKET_CANDIDATES then None
    else if Hits(host, salt, start, end, Candidate(index)) == want then Some(Candidate(index))
    else BucketKey(host, salt, start, end, want, index + 1)
  }

  method BucketScan(host: Host, salt: string, start: int, end: int, want: bool) returns (r: Option<string>)
    ensures r == BucketKey(host, salt, start, end, want, 0)
  {
    for index := 0 to MAX_BUCKET_CANDIDATES
      invariant BucketKey(host, salt, start, end, want, 0) == BucketKey(host, salt, start, end, want, index)
    {
      var candidate := Candidate(index);
      if Hits(host, salt, start, end, candidate) == want {
        return Some(candidate);
      }
    }
    r := None;
  }

  /** A key is found exactly when some candidate in the budget buckets as wanted,
      and the one found does. */
  lemma {:induction false} BucketKeyExact(host: Host, salt: string, start: int, end: int, want: bool, index: nat)
    ensures var r := BucketKey(host, salt, start, end, want, index);
            && (r.Some? ==> Hits(host, salt, start, end, r.value) == want)
            && (r.Some? <==> exists i | index <= i < MAX_BUCKET_CANDIDATES ::
                               Hits(host, salt, start, end, Candidate(i)) == want)
    decreases MAX_BUCKET_CANDIDATES - index
  {
    if index < MAX_BUCKET_CANDIDATES && Hits(host, salt, start, end, Candidate(index)) != want {
      BucketKeyExact(host, salt, start, end, want, index + 1);
    }
  }

  // ---- Soundness ----

  /** A chain the inversion reads as the evaluator does: no `has`, no dotted key. */
  predicate PlainChain(e: Expr) {
    Path(e).Some? && !Tested(e) && Text.DotFree(Path(e).value.1)
  }

  /** `has` around such a chain. The inversion gives the field a value, so it is there. */
  predicate HasChain(e: Expr) {
    e.Select? && e.test && PlainChain(Select(e.operand, e.field, false))
  }

  /** Variables, each with the value it is to be driven to. */
  type Aims = set<(string, bool)>

  /** The shapes whose inversion is right for the wanted outcome, if the variables it
      drives are among `aims`. Anything the inverter refuses is plain. */
  ghost predicate Plain(e: Expr, want: bool, aims: Aims)
    decreases e
  {
    if ReferenceOf(e).Some? && ReferenceOf(e).value.Variable? then
      |Path(e).value.1| == 1 && (!Tested(e) || want) && (ReferenceOf(e).value.id, want) in aims
    else if ContextPathOf(e).Some? then PlainChain(e) || (want && HasChain(e))
    else
      match e
      case Not(arg) => Plain(arg, !want, aims)
      case And(args) => PlainEach(args, want, want, aims)
      case Or(args) => PlainEach(args, want, !want, aims)
      case Compare(op, left, right) => PlainCompare(op, left, right, want)
      case In(element, collection) => ContextPathOf(element).Some? ==> PlainMembership(element, collection, want)
      case Bucket(args) => |args| == 4 && ContextPathOf(args[0]).Some? ==> PlainChain(args[0])
      case _ => true
  }

  /** Where every operand has to agree, all of them. Where one is enough, those the
      inversion may settle on: what follows one that can always be driven is not used. */
  ghost predicate PlainEach(es: seq<Expr>, want: bool, every: bool, aims: Aims)
    decreases es
  {
    forall i | 0 <= i < |es| && (every || forall j | 0 <= j < i :: !Invertible(es[j], want)) :: Plain(es[i], want, aims)
  }

  /** Driven whatever the sources. */
  ghost predicate Invertible(e: Expr, want: bool) {
    forall host: Host, variable: VariableSource, lists: ListSource ::
        SynthesizeBool(e, want, host, variable, lists).Some?
  }

  predicate PlainCompare(op: Comparison, left: Expr, right: Expr, want: bool) {
    if ContextPathOf(left).Some? && LiteralJson(right).Some? then PlainSide(op, left, LiteralJson(right).value, want)
    else if ContextPathOf(right).Some? && LiteralJson(left).Some?
      then PlainSide(op, right, LiteralJson(left).value, want)
    else true
  }

  /** `has` is true in a synthesised context, whatever was assigned. */
  predicate PlainSide(op: Comparison, chain: Expr, literal: Json, want: bool) {
    if op.Equal? || op.NotEqual? then
      PlainChain(chain) || (HasChain(chain) && (literal == Bool(true)) == (op.Equal? == want))
    else literal.Number? ==> PlainChain(chain)
  }

  predicate PlainMembership(element: Expr, collection: Expr, want: bool)
    requires ContextPathOf(element).Some?
  {
    && PlainChain(element)
    && (if collection.List? then
          && (forall x | x in collection.elements :: x.Literal? || ContextChain(x))
          && ChainsLeadIn(collection.elements, Path(element).value.1, want)
        else ReferenceOf(collection).Some? && ReferenceOf(collection).value.ListOf? ==>
          !Tested(collection) && |Path(collection).value.1| == 1)
  }

  predicate ContextChain(e: Expr) {
    Path(e).Some? && Path(e).value.0 == "context" && !Tested(e)
  }

  /** Every chain in the list leads into the path of the element, and for a miss stops
      short of it. */
  predicate ChainsLeadIn(es: seq<Expr>, p: seq<string>, want: bool) {
    forall x | x in es && ContextChain(x) :: Path(x).value.1 <= p && (!want ==> Path(x).value.1 != p)
  }

  ghost predicate Bound(env: Env) {
    && "context" in env.vars
    && "variables" in env.vars && env.vars["variables"].Object?
    && "lists" in env.vars && env.vars["lists"].Object?
  }

  /** Every variable and list `e` names has been resolved and bound. */
  ghost predicate Resolved(e: Expr, env: Env)
    requires Bound(env)
  {
    && VariablesOf(Reads(e)) <= env.vars["variables"].fields.Keys
    && ListsOf(Reads(e)) <= env.vars["lists"].fields.Keys
  }

  /** The contract on the caller's sources, at one environment: a context they hand
      out for one of the aims drives the variable there, and the members are the bound
      ones. */
  ghost predicate SourcesHold(variable: VariableSource, lists: ListSource, aims: Aims, env: Env)
    requires Bound(env)
  {
    && (forall id, want |
          && (id, want) in aims
          && variable(id, want).Some?
          && Extends(variable(id, want).value, env.vars["context"])
          && id in env.vars["variables"].fields
          :: env.vars["variables"].fields[id] == Bool(want))
    && (forall id :: lists(id).Some? ==> forall m | m in lists(id).value :: IsScalar(m))
    && (forall id :: lists(id).Some? && id in env.vars["lists"].fields ==>
          env.vars["lists"].fields[id] == Array(lists(id).value))
  }

  lemma PathReads(e: Expr, path: seq<string>, value: Json, env: Env)
    requires PlainChain(e) && Path(e).value == ("context", path) && |path| > 0
    requires "context" in env.vars && IsScalar(value)
    requires ContextWithPath(Text.Join(path, '.'), value).Some?
    requires Extends(ContextWithPath(Text.Join(path, '.'), value).value, env.vars["context"])
    ensures Eval(e, env) == Success(value)
  {
    Text.SplitJoin(path, '.');
    InsertNests(path, value);
    NestWalks(path, value, env.vars["context"], 0);
    ChainWalks(e, env);
  }

  lemma HasReads(e: Expr, path: seq<string>, value: Json, env: Env)
    requires HasChain(e) && Path(e).value == ("context", path) && |path| > 0
    requires "context" in env.vars && IsScalar(value)
    requires ContextWithPath(Text.Join(path, '.'), value).Some?
    requires Extends(ContextWithPath(Text.Join(path, '.'), value).value, env.vars["context"])
    ensures Eval(e, env) == Success(Bool(true))
  {
    PathReads(Select(e.operand, e.field, false), path, value, env);
  }

  lemma ChainForces(e: Expr, want: bool, env: Env)
    requires ContextPathOf(e).Some? && (PlainChain(e) || (want && HasChain(e))) && "context" in env.vars
    requires ContextWithPath(ContextPathOf(e).value, Bool(want)).Some?
    requires Extends(ContextWithPath(ContextPathOf(e).value, Bool(want)).value, env.vars["context"])
    ensures Eval(e, env) == Success(Bool(want))
  {
    if PlainChain(e) {
      PathReads(e, Path(e).value.1, Bool(want), env);
    } else {
      HasReads(e, Path(e).value.1, Bool(want), env);
    }
  }

  lemma EqualityForces(left: Expr, right: Expr, match_: bool, env: Env)
    requires PlainCompare(Equal, left, right, match_) && "context" in env.vars
    requires SynthesizeEquality(left, right, match_).Some?
    requires Extends(SynthesizeEquality(left, right, match_).value, env.vars["context"])
    ensures Eval(left, env).Success? && Eval(right, env).Success?
    ensures (Eval(left, env).value == Eval(right, env).value) == match_
  {
    var forward := ContextPathOf(left).Some? && LiteralJson(right).Some?;
    var chain, literal := if forward then left else right, if forward then right else left;
    var value := if match_ then literal.value else AlternativeValue(literal.value);
    if HasChain(chain) {
      HasReads(chain, Path(chain).value.1, value, env);
    } else {
      PathReads(chain, Path(chain).value.1, value, env);
    }
    assert Eval(literal, env) == Success(literal.value);
    assert AlternativeValue(literal.value) != literal.value by {
      if literal.value.String? {
        assert |FIXTURE_OTHER + "-2"| != |FIXTURE_OTHER|;
      }
    }
  }

  lemma OrderingForces(left: Expr, right: Expr, greater: bool, orEqual: bool, want: bool, env: Env)
    requires PlainCompare(Less, left, right, want) && "context" in env.vars
    requires SynthesizeOrdering(left, right, greater, orEqual, want).Some?
    requires Extends(SynthesizeOrdering(left, right, greater, orEqual, want).value, env.vars["context"])
    ensures Eval(left, env).Success? && Eval(right, env).Success?
    ensures var l, r := Eval(left, env).value, Eval(right, env).value;
            (if greater then Ordered(r, l, orEqual) else Ordered(l, r, orEqual)) == Success(Bool(want))
  {
    var forward := ContextPathOf(left).Some?;
    var chain, literal := if forward then left else right, if forward then right else left;
    var value := OrderingValue(if forward then greater else !greater, orEqual, want, literal.value.number);
    PathReads(chain, Path(chain).value.1, value, env);
    assert Eval(literal, env) == Success(literal.value);
  }

  lemma CompareForces(op: Comparison, left: Expr, right: Expr, want: bool, variable: VariableSource, lists: ListSource,
                      env: Env)
    requires PlainCompare(op, left, right, want) && "context" in env.vars
    requires SynthesizeBool(Compare(op, left, right), want, env.host, variable, lists).Some?
    requires Extends(SynthesizeBool(Compare(op, left, right), want, env.host, variable, lists).value,
                     env.vars["context"])
    ensures Eval(Compare(op, left, right), env) == Success(Bool(want))
  {
    assert Path(Compare(op, left, right)).None?;
    match op {
      case Equal => EqualityForces(left, right, want, env);
      case NotEqual => EqualityForces(left, right, !want, env);
      case Less => OrderingForces(left, right, false, false, want, env);
      case LessEqual => OrderingForces(left, right, false, true, want, env);
      case Greater => OrderingForces(left, right, true, false, want, env);
      case GreaterEqual => OrderingForces(left, right, true, true, want, env);
    }
  }

  lemma NonMemberMisses(members: seq<Json>)
    requires NonMember(members).Some?
    ensures NonMember(members).value !in members
    ensures NonMember(members).value.Number? || NonMember(members).value.String? || NonMember(members).value.Bool?
  {
  }

  lemma {:induction false} PrefixFound(p: seq<string>, value: Json, q: seq<string>, wider: Json, depth: nat)
    requires IsScalar(value) && q <= p && Extends(Nest(p, value), wider)
    ensures WalkFrom(wider, q, depth).Found?
    ensures var v := WalkFrom(wider, q, depth).value; if q == p then v == value else v.Object?
    decreases |q|
  {
    if |q| > 0 {
      PrefixFound(p[1..], value, q[1..], wider.fields[p[0]], depth + 1);
      assert p == [p[0]] + p[1..] && q == [q[0]] + q[1..];
    }
  }

  /** A value a literal can give. */
  predicate Written(v: Json) {
    v.Bool? || v.Number? || v.String?
  }

  lemma MixedElement(x: Expr, p: seq<string>, value: Json, env: Env)
    requires x.Literal? || (ContextChain(x) && Path(x).value.1 <= p)
    requires "context" in env.vars && Written(value) && Extends(Nest(p, value), env.vars["context"])
    ensures Eval(x, env).Success?
    ensures Eval(x, env).value == value <==> IsElement(x, p, value)
    ensures LiteralJson(x).Some? ==> Eval(x, env) == Success(LiteralJson(x).value)
  {
    if !x.Literal? {
      PrefixFound(p, value, Path(x).value.1, env.vars["context"], 0);
      ChainWalks(x, env);
    }
  }

  predicate IsElement(x: Expr, p: seq<string>, value: Json) {
    LiteralJson(x) == Some(value) || (ContextChain(x) && Path(x).value.1 == p)
  }

  /** What a list of literals and context chains holds, where every chain leads into
      the path of the inverted element. */
  lemma {:induction false} MixedElements(es: seq<Expr>, p: seq<string>, value: Json, env: Env)
    requires forall x | x in es :: x.Literal? || (ContextChain(x) && Path(x).value.1 <= p)
    requires "context" in env.vars && Written(value) && Extends(Nest(p, value), env.vars["context"])
    ensures All(EvalEach(es, env)).Success?
    ensures value in All(EvalEach(es, env)).value <==> exists x :: x in es && IsElement(x, p, value)
    decreases |es|
  {
    if |es| > 0 {
      var x := es[0];
      assert es == [x] + es[1..];
      MixedElements(es[1..], p, value, env);
      MixedElement(x, p, value, env);
      assert EvalEach(es, env)[1..] == EvalEach(es[1..], env);
      assert All(EvalEach(es, env)).value == [Eval(x, env).value] + All(EvalEach(es[1..], env)).value;
    }
  }

  lemma {:induction false} LiteralsAreElements(es: seq<Expr>, m: Json)
    ensures m in LiteralElements(es) <==> exists x :: x in es && LiteralJson(x) == Some(m)
    ensures m in LiteralElements(es) ==> Written(m)
    decreases |es|
  {
    if |es| > 0 {
      assert es == [es[0]] + es[1..];
      LiteralsAreElements(es[1..], m);
    }
  }

  /** The value the inversion gives the element. */
  lemma ChosenMember(p: Expr, es: seq<Expr>, want: bool, host: Host, variable: VariableSource, lists: ListSource)
    returns (value: Json)
    requires ContextPathOf(p).Some? && SynthesizeBool(In(p, List(es)), want, host, variable, lists).Some?
    ensures Written(value)
    ensures ContextWithPath(ContextPathOf(p).value, value) ==
            SynthesizeBool(In(p, List(es)), want, host, variable, lists)
    ensures (exists x :: x in es && LiteralJson(x) == Some(value)) <==> want
  {
    var members := LiteralElements(es);
    assert MembersOf(List(es), lists) == Some(members);
    if want {
      value := members[0];
      assert value in members;
    } else {
      value := NonMember(members).value;
      NonMemberMisses(members);
    }
    LiteralsAreElements(es, value);
  }

  lemma ElementReads(p: Expr, value: Json, env: Env)
    requires ContextPathOf(p).Some? && !Tested(p) && Written(value)
    requires "context" in env.vars && Extends(Nest(Path(p).value.1, value), env.vars["context"])
    ensures Eval(p, env) == Success(value)
  {
    NestWalks(Path(p).value.1, value, env.vars["context"], 0);
    ChainWalks(p, env);
  }

  lemma InReads(p: Expr, es: seq<Expr>, value: Json, env: Env)
    requires Eval(p, env) == Success(value) && All(EvalEach(es, env)).Success?
    ensures Eval(In(p, List(es)), env) == Success(Bool(value in All(EvalEach(es, env)).value))
  {
    assert Eval(List(es), env) == Success(Array(All(EvalEach(es, env)).value));
  }

  lemma LeadingListForces(p: Expr, es: seq<Expr>, want: bool, value: Json, env: Env)
    requires ContextPathOf(p).Some? && !Tested(p) && Written(value)
    requires forall x | x in es :: x.Literal? || ContextChain(x)
    requires (exists x :: x in es && LiteralJson(x) == Some(value)) <==> want
    requires ChainsLeadIn(es, Path(p).value.1, want)
    requires "context" in env.vars && Extends(Nest(Path(p).value.1, value), env.vars["context"])
    ensures Eval(In(p, List(es)), env) == Success(Bool(want))
  {
    var path := Path(p).value.1;
    ElementReads(p, value, env);
    MixedElements(es, path, value, env);
    if want {
      var x :| x in es && LiteralJson(x) == Some(value);
      assert IsElement(x, path, value);
    }
    InReads(p, es, value, env);
  }

  predicate ListBound(id: string, members: seq<Json>, env: Env) {
    && "lists" in env.vars && env.vars["lists"].Object?
    && id in env.vars["lists"].fields && env.vars["lists"].fields[id] == Array(members)
  }

  /** A named list evaluates to the array of its members. */
  lemma NamedListEvaluates(collection: Expr, members: seq<Json>, env: Env)
    requires ReferenceOf(collection).Some? && ReferenceOf(collection).value.ListOf?
    requires !Tested(collection) && |Path(collection).value.1| == 1
    requires ListBound(ReferenceOf(collection).value.id, members, env)
    ensures Eval(collection, env) == Success(Array(members))
  {
    var id := ReferenceOf(collection).value.id;
    assert Path(collection).value.1 == [id];
    ChainWalks(collection, env);
    assert Walk(env.vars["lists"], [id]) == Found(env.vars["lists"].fields[id]) by {
      assert [id][1..] == [];
      assert WalkFrom(env.vars["lists"].fields[id], [], 1) == Found(env.vars["lists"].fields[id]);
    }
  }

  /** A member, or a value outside the list, forces the membership test. */
  lemma MembershipForces(element: Expr, collection: Expr, want: bool, variable: VariableSource, lists: ListSource,
                         aims: Aims, env: Env)
    requires Bound(env) && SourcesHold(variable, lists, aims, env) && Resolved(collection, env)
    requires ContextPathOf(element).Some? && PlainMembership(element, collection, want)
    requires SynthesizeMembership(element, collection, want, lists).Some?
    requires Extends(SynthesizeMembership(element, collection, want, lists).value, env.vars["context"])
    ensures Eval(In(element, collection), env) == Success(Bool(want))
  {
    if collection.List? {
      ListForces(element, collection.elements, want, variable, lists, env);
    } else {
      ListResolved(collection, env);
      NamedForces(element, collection, want, lists, env);
    }
  }

  lemma ListResolved(collection: Expr, env: Env)
    requires ReferenceOf(collection).Some? && ReferenceOf(collection).value.ListOf?
    requires Bound(env) && Resolved(collection, env)
    ensures ReferenceOf(collection).value.id in env.vars["lists"].fields
  {
    assert ListId(ReferenceOf(collection).value.id) in Reads(collection);
  }

  lemma NamedForces(element: Expr, collection: Expr, want: bool, lists: ListSource, env: Env)
    requires "context" in env.vars && ContextPathOf(element).Some? && PlainChain(element)
    requires ReferenceOf(collection).Some? && ReferenceOf(collection).value.ListOf?
    requires !Tested(collection) && |Path(collection).value.1| == 1
    requires var id := ReferenceOf(collection).value.id;
             lists(id).Some? && (forall m | m in lists(id).value :: IsScalar(m)) && ListBound(id, lists(id).value, env)
    requires SynthesizeMembership(element, collection, want, lists).Some?
    requires Extends(SynthesizeMembership(element, collection, want, lists).value, env.vars["context"])
    ensures Eval(In(element, collection), env) == Success(Bool(want))
  {
    var members := lists(ReferenceOf(collection).value.id).value;
    NamedListEvaluates(collection, members, env);
    assert !collection.List?;
    MemberForces(element, members, want, env);
  }

  lemma MemberForces(element: Expr, members: seq<Json>, want: bool, env: Env)
    requires "context" in env.vars && ContextPathOf(element).Some? && PlainChain(element)
    requires forall m | m in members :: IsScalar(m)
    requires if want then |members| > 0 else NonMember(members).Some?
    requires var value := if want then members[0] else NonMember(members).value;
             && ContextWithPath(ContextPathOf(element).value, value).Some?
             && Extends(ContextWithPath(ContextPathOf(element).value, value).value, env.vars["context"])
    ensures Eval(element, env).Success? && (Eval(element, env).value in members <==> want)
  {
    var value := if want then members[0] else NonMember(members).value;
    if !want {
      NonMemberMisses(members);
    }
    PathReads(element, Path(element).value.1, value, env);
  }

  lemma ListForces(element: Expr, es: seq<Expr>, want: bool, variable: VariableSource, lists: ListSource, env: Env)
    requires ContextPathOf(element).Some? && PlainMembership(element, List(es), want) && "context" in env.vars
    requires SynthesizeMembership(element, List(es), want, lists).Some?
    requires Extends(SynthesizeMembership(element, List(es), want, lists).value, env.vars["context"])
    ensures Eval(In(element, List(es)), env) == Success(Bool(want))
  {
    var path := Path(element).value.1;
    assert Path(In(element, List(es))).None?;
    var value := ChosenMember(element, es, want, env.host, variable, lists);
    Text.SplitJoin(path, '.');
    InsertNests(path, value);
    LeadingListForces(element, es, want, value, env);
  }

  lemma BucketEvaluates(args: seq<Expr>, key: Json, env: Env)
    requires |args| == 4 && IsText(args[1]) && IsNumber(args[2]) && IsNumber(args[3])
    requires Eval(args[0], env) == Success(key)
    ensures Eval(Bucket(args), env) == InBucket(env.host, [key, args[1].value, args[2].value, args[3].value])
  {
    var salt, start, end := args[1].value, args[2].value, args[3].value;
    var values := EvalEach(args, env);
    assert values == [Success(key), Success(salt), Success(start), Success(end)];
    assert All(values).Success?;
    assert All(values).value == [key, salt, start, end];
  }

  lemma BucketForces(args: seq<Expr>, want: bool, env: Env)
    requires "context" in env.vars && |args| == 4 && (ContextPathOf(args[0]).Some? ==> PlainChain(args[0]))
    requires SynthesizeBucket(args, want, env.host).Some?
    requires Extends(SynthesizeBucket(args, want, env.host).value, env.vars["context"])
    ensures Eval(Bucket(args), env) == Success(Bool(want))
  {
    var salt, start, end := args[1].value.text, args[2].value.number, args[3].value.number;
    var key := BucketKey(env.host, salt, start, end, want, 0).value;
    assert Hits(env.host, salt, start, end, key) == want by {
      BucketKeyExact(env.host, salt, start, end, want, 0);
    }
    assert Eval(args[0], env) == Success(String(key)) by {
      PathReads(args[0], Path(args[0]).value.1, String(key), env);
    }
    BucketEvaluates(args, String(key), env);
  }

  /** Reads of an operand are reads of the whole. */
  lemma ChildReads(e: Expr, c: Expr)
    requires c in Children(e) && Path(e).None? && !e.Comprehension?
    ensures Reads(c) <= Reads(e)
  {
    EachCovered(e, |Children(e)|, [], Reads(e));
  }

  lemma ChildResolved(e: Expr, c: Expr, env: Env)
    requires c in Children(e) && Path(e).None? && !e.Comprehension?
    requires Bound(env) && Resolved(e, env)
    ensures Resolved(c, env)
  {
    ChildReads(e, c);
  }

  /** Inversion is sound: a synthesised context drives the expression to the wanted
      outcome in every extension where what it references is resolved. */
  lemma {:induction false} SynthesisForces(e: Expr, want: bool, variable: VariableSource, lists: ListSource,
                                           aims: Aims, env: Env)
    requires Plain(e, want, aims) && Bound(env) && Resolved(e, env) && SourcesHold(variable, lists, aims, env)
    requires SynthesizeBool(e, want, env.host, variable, lists).Some?
    requires Extends(SynthesizeBool(e, want, env.host, variable, lists).value, env.vars["context"])
    ensures Eval(e, env) == Success(Bool(want))
    decreases e
  {
    if ReferenceOf(e).Some? && ReferenceOf(e).value.Variable? {
      VariableForces(e, want, variable, lists, aims, env);
    } else if ContextPathOf(e).Some? {
      ChainForces(e, want, env);
    } else {
      match e
      case Literal(_) =>
      case Not(arg) =>
        ChildResolved(e, arg, env);
        SynthesisForces(arg, !want, variable, lists, aims, env);
      case And(args) => JunctionForces(e, args, want, true, variable, lists, aims, env);
      case Or(args) => JunctionForces(e, args, want, false, variable, lists, aims, env);
      case Compare(op, left, right) => CompareForces(op, left, right, want, variable, lists, env);
      case In(element, collection) =>
        ChildResolved(e, collection, env);
        MembershipForces(element, collection, want, variable, lists, aims, env);
      case Bucket(args) => BucketForces(args, want, env);
    }
  }

  lemma VariableItself(e: Expr, env: Env, v: string)
    requires Path(e) == Some(("variables", [v]))
    requires Bound(env) && v in env.vars["variables"].fields
    ensures Eval(e, env) == Success(if Tested(e) then Bool(true) else env.vars["variables"].fields[v])
  {
    var none: seq<string> := [];
    var path := Path(e).value.1;
    assert path[0] == v && path[..0] == none;
    assert Path(e.operand).value.1 == none;
    assert e.operand == Ident("variables");
    assert Eval(e.operand, env) == Success(env.vars["variables"]);
    assert path == none + [path[0]];
  }

  lemma VariableForces(e: Expr, want: bool, variable: VariableSource, lists: ListSource, aims: Aims, env: Env)
    requires ReferenceOf(e).Some? && ReferenceOf(e).value.Variable?
    requires Plain(e, want, aims) && Bound(env) && Resolved(e, env) && SourcesHold(variable, lists, aims, env)
    requires variable(ReferenceOf(e).value.id, want).Some?
    requires Extends(variable(ReferenceOf(e).value.id, want).value, env.vars["context"])
    ensures Eval(e, env) == Success(Bool(want))
  {
    var id := ReferenceOf(e).value.id;
    assert VariableId(id) in Reads(e);
    assert id in VariablesOf(Reads(e));
    assert Path(e).value.1 == [id];
    VariableItself(e, env, id);
  }

  lemma JunctionForces(e: Expr, args: seq<Expr>, want: bool, isAnd: bool,
                       variable: VariableSource, lists: ListSource, aims: Aims, env: Env)
    requires e == if isAnd then And(args) else Or(args)
    requires PlainEach(args, want, want == isAnd, aims)
    requires Bound(env) && Resolved(e, env) && SourcesHold(variable, lists, aims, env)
    requires SynthesizeBool(e, want, env.host, variable, lists).Some?
    requires Extends(SynthesizeBool(e, want, env.host, variable, lists).value, env.vars["context"])
    ensures Eval(e, env) == Success(Bool(want))
    decreases e, 0
  {
    var operands := SynthesizeEach(args, want, env.host, variable, lists);
    var values := EvalEach(args, env);
    var context := SynthesizeBool(e, want, env.host, variable, lists).value;
    assert SynthesizeJunction(operands, want == isAnd) == Some(context);
    if want == isAnd {
      forall i | 0 <= i < |args| ensures values[i] == Success(Bool(want)) {
        assert args[i] in args && args[i] in Children(e);
        ChildResolved(e, args[i], env);
        MergeAllBounds(operands, i);
        ExtendsTransitive(operands[i].value, context, env.vars["context"]);
        SynthesisForces(args[i], want, variable, lists, aims, env);
      }
      assert Success(Bool(!want)) !in values;
    } else {
      var i := SettledOperand(args, want, variable, lists, env.host);
      assert args[i] in args && args[i] in Children(e);
      ChildResolved(e, args[i], env);
      SynthesisForces(args[i], want, variable, lists, aims, env);
      assert values[i] == Success(Bool(want));
      assert values[i] in values;
    }
  }

  /** The operand the loop settles on: no earlier one can always be driven. */
  lemma SettledOperand(es: seq<Expr>, want: bool, variable: VariableSource, lists: ListSource, host: Host)
    returns (i: nat)
    requires FirstSome(SynthesizeEach(es, want, host, variable, lists)).Some?
    ensures i < |es|
    ensures SynthesizeBool(es[i], want, host, variable, lists) ==
            FirstSome(SynthesizeEach(es, want, host, variable, lists))
    ensures forall j | 0 <= j < i :: !Invertible(es[j], want)
  {
    var operands := SynthesizeEach(es, want, host, variable, lists);
    i := FirstIndex(operands);
    forall j | 0 <= j < i ensures !Invertible(es[j], want) {
      assert operands[j] == SynthesizeBool(es[j], want, host, variable, lists);
    }
  }

  lemma {:induction false} FirstIndex(options: seq<Option<Json>>) returns (i: nat)
    requires FirstSome(options).Some?
    ensures i < |options| && FirstSome(options) == options[i] && forall j | 0 <= j < i :: options[j].None?
  {
    if options[0].Some? {
      i := 0;
    } else {
      var k := FirstIndex(options[1..]);
      i := k + 1;
    }
  }
}
