/** The expression language: the part of CEL the package conditions are made of,
    evaluated over JSON values. `&&` and `||` absorb errors as the "Logical
    Operators" section of the CEL Language Definition says. */
module Cel {
  import opened Prelude
  import opened Json
  import Order

  datatype Comparison = Equal | NotEqual | Less | LessEqual | Greater | GreaterEqual

  datatype Expr =
    | Literal(value: Json)
    | Ident(name: string)
      // `operand.field`, or `has(operand.field)` when `test` is set.
    | Select(operand: Expr, field: string, test: bool)
    | Index(operand: Expr, key: Expr)
    | Not(arg: Expr)
    | And(args: seq<Expr>)
    | Or(args: seq<Expr>)
    | Compare(op: Comparison, left: Expr, right: Expr)
    | In(element: Expr, collection: Expr)
    | List(elements: seq<Expr>)
      // `bucket(value, salt, start, end)`
    | Bucket(args: seq<Expr>)
      // Any other function; all its arguments are evaluated first.
    | Call(function_: string, args: seq<Expr>)
      // What the macros `all`, `exists`, `filter`, ... expand to.
    | Comprehension(iterVar: string, iterVar2: Option<string>, iterRange: Expr,
                    accuVar: string, accuInit: Expr, loopCond: Expr, loopStep: Expr, result: Expr)

  datatype EvalError =
    | NoSuchKey(key: string)
    | Undeclared(name: string)
    | NoOverload
    | CallFailed(message: string)

  type Value = Result<Json, EvalError>

  /** The parts of evaluation that are not expression structure: the stable hash
      behind `bucket`, and the remaining registered functions. */
  datatype Host = Host(
    hash: (string, Json) -> nat,
    call: (string, seq<Json>) -> Value)

  /** The identifiers in scope. */
  datatype Env = Env(vars: map<string, Json>, host: Host)

  /** One round of a comprehension: what a single loop variable is bound to, and
      what the first and second of two are. */
  datatype Item = Item(only: Json, first: Json, second: Json)

  function BucketOf(host: Host, salt: string, value: Json): nat {
    host.hash(salt, value) % 10000
  }

  function Eval(e: Expr, env: Env): Value
    decreases e, 1
  {
    match e
    case Literal(v) => Success(v)
    case Ident(name) =>
      if name in env.vars then Success(env.vars[name]) else Failure(Undeclared(name))
    case Select(operand, field, test) =>
      var v :- Eval(operand, env);
      SelectField(v, field, test)
    case Index(operand, key) =>
      var v :- Eval(operand, env);
      var k :- Eval(key, env);
      At(v, k)
    case Not(arg) =>
      var v :- Eval(arg, env);
      if v.Bool? then Success(Bool(!v.flag)) else Failure(NoOverload)
    case And(args) => Junction(EvalEach(args, env), true)
    case Or(args) => Junction(EvalEach(args, env), false)
    case Compare(op, left, right) =>
      var l :- Eval(left, env);
      var r :- Eval(right, env);
      Relate(op, l, r)
    case In(element, collection) =>
      var x :- Eval(element, env);
      var c :- Eval(collection, env);
      Contains(c, x)
    case List(elements) =>
      var items :- All(EvalEach(elements, env));
      Success(Array(items))
    case Bucket(args) =>
      var values :- All(EvalEach(args, env));
      InBucket(env.host, values)
    case Call(function_, args) =>
      var values :- All(EvalEach(args, env));
      env.host.call(function_, values)
    case Comprehension(_, _, iterRange, accuVar, accuInit, _, _, result) =>
      var range :- Eval(iterRange, env);
      var init :- Eval(accuInit, env);
      var items :- Elements(range);
      var accu :- Iterate(e, items, init, env);
      Eval(result, env.(vars := env.vars[accuVar := accu]))
  }

  function EvalEach(es: seq<Expr>, env: Env): (r: seq<Value>)
    ensures |r| == |es|
    ensures forall i | 0 <= i < |es| :: r[i] == Eval(es[i], env)
    decreases es, 0
  {
    if |es| == 0 then [] else [Eval(es[0], env)] + EvalEach(es[1..], env)
  }

  /** The loop of a comprehension: stop when the condition turns false. */
  function Iterate(e: Expr, items: seq<Item>, accu: Json, env: Env): Value
    requires e.Comprehension?
    decreases e, 0, |items|
  {
    if |items| == 0 then Success(accu) else
      var inner := LoopEnv(e, items[0], accu, env);
      var cond :- Eval(e.loopCond, inner);
      if !cond.Bool? then Failure(NoOverload)
      else if !cond.flag then Success(accu)
      else
        var next :- Eval(e.loopStep, inner);
        Iterate(e, items[1..], next, env)
  }

  function LoopEnv(e: Expr, item: Item, accu: Json, env: Env): Env
    requires e.Comprehension?
  {
    var one := match e.iterVar2
      case None => env.vars[e.iterVar := item.only]
      case Some(second) => env.vars[e.iterVar := item.first][second := item.second];
    env.(vars := one[e.accuVar := accu])
  }

  /** What a comprehension ranges over: list elements with their positions, or
      map keys with their values. */
  function Elements(v: Json): Result<seq<Item>, EvalError> {
    match v
    case Array(items) => Success(seq(|items|, i requires 0 <= i < |items| => Item(items[i], Number(i), items[i])))
    case Object(fields) =>
      var keys := Order.Sorted(fields.Keys);
      Success(seq(|keys|, i requires 0 <= i < |keys| =>
                      assert keys[i] in keys;
                      Item(String(keys[i]), String(keys[i]), fields[keys[i]])))
    case _ => Failure(NoOverload)
  }

  function SelectField(v: Json, field: string, test: bool): Value {
    if !v.Object? then Failure(NoOverload)
    else if test then Success(Bool(field in v.fields))
    else if field in v.fields then Success(v.fields[field])
    else Failure(NoSuchKey(field))
  }

  function At(v: Json, k: Json): Value {
    if k.String? then SelectField(v, k.text, false)
    else if v.Array? && k.Number? then
      if 0 <= k.number < |v.items| then Success(v.items[k.number]) else Failure(CallFailed("index"))
    else Failure(NoOverload)
  }

  /** All values, or the first error. */
  function All(values: seq<Value>): (r: Result<seq<Json>, EvalError>)
    ensures r.Success? <==> forall v | v in values :: v.Success?
    ensures r.Success? ==> |r.value| == |values|
    ensures r.Success? ==> forall i | 0 <= i < |values| :: values[i] == Success(r.value[i])
  {
    if |values| == 0 then Success([]) else
      match values[0]
      case Failure(error) => Failure(error)
      case Success(first) =>
        match All(values[1..])
        case Failure(error) => Failure(error)
        case Success(rest) =>
          assert values == [values[0]] + values[1..];
          Success([first] + rest)
  }

  /** `&&` when `neutral` is true, `||` when it is false: one operand equal to the
      absorbing value decides, whatever errors the others raise. */
  function Junction(values: seq<Value>, neutral: bool): Value {
    if Success(Bool(!neutral)) in values then Success(Bool(!neutral))
    else FirstFault(values, neutral)
  }

  function FirstFault(values: seq<Value>, neutral: bool): (r: Value)
    ensures r == Success(Bool(neutral)) || r.Failure?
    ensures r.Success? <==> forall v | v in values :: v == Success(Bool(neutral))
  {
    if |values| == 0 then Success(Bool(neutral))
    else
      assert values[0] in values;
      assert forall v :: v in values <==> v == values[0] || v in values[1..];
      if values[0] == Success(Bool(neutral)) then FirstFault(values[1..], neutral)
      else if values[0].Failure? then values[0]
      else Failure(NoOverload)
  }

  function Relate(op: Comparison, l: Json, r: Json): Value {
    match op
    case Equal => Success(Bool(l == r))
    case NotEqual => Success(Bool(l != r))
    case Less => Ordered(l, r, false)
    case LessEqual => Ordered(l, r, true)
    case Greater => Ordered(r, l, false)
    case GreaterEqual => Ordered(r, l, true)
  }

  function Ordered(l: Json, r: Json, orEqual: bool): Value {
    if l.Number? && r.Number? then
      Success(Bool(l.number < r.number || (orEqual && l.number == r.number)))
    else if l.String? && r.String? then
      Success(Bool(Order.Below(l.text, r.text) || (orEqual && l.text == r.text)))
    else if l.Bool? && r.Bool? then
      Success(Bool((!l.flag && r.flag) || (orEqual && l.flag == r.flag)))
    else Failure(NoOverload)
  }

  function Contains(c: Json, x: Json): Value {
    if c.Array? then Success(Bool(x in c.items))
    else if c.Object? && x.String? then Success(Bool(x.text in c.fields))
    else Failure(NoOverload)
  }

  function InBucket(host: Host, values: seq<Json>): Value {
    if |values| == 4 && values[1].String? && values[2].Number? && values[3].Number? then
      var b := BucketOf(host, values[1].text, values[0]);
      Success(Bool(values[2].number <= b < values[3].number))
    else Failure(NoOverload)
  }

  /** Unwraps a `root.a["b"].c` chain into its root identifier and segments;
      `has(...)` around a chain is unwrapped the same way. */
  function Path(e: Expr): Option<(string, seq<string>)> {
    match e
    case Ident(name) => Some((name, []))
    case Select(operand, field, _) =>
      (match Path(operand)
       case None => None
       case Some((root, segments)) => Some((root, segments + [field])))
    case Index(operand, key) =>
      if key.Literal? && key.value.String? then
        (match Path(operand)
         case None => None
         case Some((root, segments)) => Some((root, segments + [key.value.text])))
      else None
    case _ => None
  }
}
