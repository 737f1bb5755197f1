/** What the operators of expressions mean on their own: comparisons, connectives,
    membership, and the loops that quantifiers are made of. */
module CelLaws {
  import opened Prelude
  import opened Json
  import opened Cel
  import Order

  // ---- Order of texts ----

  /** They agree up to some position, and there the first ends or has the lesser
      character. */
  ghost predicate Earlier(a: string, b: string) {
    exists n :: 0 <= n <= |a| && n <= |b| && a[..n] == b[..n] && EndsEarlier(a, b, n)
  }

  predicate EndsEarlier(a: string, b: string, n: nat)
    requires n <= |a| && n <= |b|
  {
    n < |b| && (n == |a| || a[n] < b[n])
  }

  lemma {:induction false} BelowExact(a: string, b: string)
    ensures Order.Below(a, b) <==> Earlier(a, b)
  {
    if |a| == 0 || |b| == 0 {
      assert a[..0] == b[..0];
      if |b| > 0 {
        assert EndsEarlier(a, b, 0);
      }
    } else if a[0] != b[0] {
      assert a[..0] == b[..0];
      if a[0] < b[0] {
        assert EndsEarlier(a, b, 0);
      }
      forall n | 0 < n <= |a| && n <= |b| ensures a[..n] != b[..n] {
        assert a[..n][0] == a[0] && b[..n][0] == b[0];
      }
    } else {
      BelowExact(a[1..], b[1..]);
      EarlierTail(a, b);
    }
  }

  lemma {:induction false} EarlierTail(a: string, b: string)
    requires |a| > 0 && |b| > 0 && a[0] == b[0]
    ensures Earlier(a, b) <==> Earlier(a[1..], b[1..])
  {
    if Earlier(a, b) {
      var n :| 0 <= n <= |a| && n <= |b| && a[..n] == b[..n] && EndsEarlier(a, b, n);
      assert n > 0;
      assert a[1..][..n - 1] == a[..n][1..] && b[1..][..n - 1] == b[..n][1..];
      assert EndsEarlier(a[1..], b[1..], n - 1);
    }
    if Earlier(a[1..], b[1..]) {
      var m :| 0 <= m <= |a[1..]| && m <= |b[1..]| && a[1..][..m] == b[1..][..m] && EndsEarlier(a[1..], b[1..], m);
      assert a[..m + 1] == [a[0]] + a[1..][..m] && b[..m + 1] == [b[0]] + b[1..][..m];
      assert EndsEarlier(a, b, m + 1);
    }
  }

  // ---- Comparisons ----

  ghost predicate Lesser(a: Json, b: Json) {
    || (a.Number? && b.Number? && a.number < b.number)
    || (a.String? && b.String? && Earlier(a.text, b.text))
    || (a.Bool? && b.Bool? && !a.flag && b.flag)
  }

  predicate SameKind(a: Json, b: Json) {
    (a.Number? && b.Number?) || (a.String? && b.String?) || (a.Bool? && b.Bool?)
  }

  /** Numbers compare by value, texts by their first difference, false comes before true,
      and nothing else has an order; equality is of values and never fails. */
  lemma ComparisonsExact(op: Comparison, a: Json, b: Json)
    ensures Relate(op, a, b) ==
            match op
            case Equal => Success(Bool(a == b))
            case NotEqual => Success(Bool(a != b))
            case Less => if SameKind(a, b) then Success(Bool(Lesser(a, b))) else Failure(NoOverload)
            case LessEqual => if SameKind(a, b) then Success(Bool(Lesser(a, b) || a == b)) else Failure(NoOverload)
            case Greater => if SameKind(a, b) then Success(Bool(Lesser(b, a))) else Failure(NoOverload)
            case GreaterEqual => if SameKind(a, b) then Success(Bool(Lesser(b, a) || a == b)) else Failure(NoOverload)
  {
    if a.String? && b.String? {
      BelowExact(a.text, b.text);
      BelowExact(b.text, a.text);
    }
  }

  /** Of two values of one kind exactly one of less, equal and greater holds. */
  lemma Trichotomy(a: Json, b: Json)
    requires SameKind(a, b)
    ensures Lesser(a, b) || a == b || Lesser(b, a)
    ensures !(Lesser(a, b) && a == b) && !(Lesser(a, b) && Lesser(b, a))
  {
    if a.String? {
      BelowExact(a.text, b.text);
      BelowExact(b.text, a.text);
      Order.BelowTotal(a.text, b.text);
      Order.BelowIrreflexive(a.text);
      if Order.Below(a.text, b.text) && Order.Below(b.text, a.text) {
        Order.BelowTransitive(a.text, b.text, a.text);
      }
    }
  }

  // ---- Connectives ----

  predicate Settled(v: Value, flag: bool) {
    v == Success(Bool(flag))
  }

  /** `&&` is false where any operand is, whatever the others do, and true where all are;
      otherwise it fails. `||` is its mirror image. */
  lemma ConnectivesExact(args: seq<Expr>, env: Env)
    ensures Settled(Eval(And(args), env), false) <==> exists i :: 0 <= i < |args| && Settled(Eval(args[i], env), false)
    ensures Settled(Eval(And(args), env), true) <==> forall i | 0 <= i < |args| :: Settled(Eval(args[i], env), true)
    ensures Settled(Eval(Or(args), env), true) <==> exists i :: 0 <= i < |args| && Settled(Eval(args[i], env), true)
    ensures Settled(Eval(Or(args), env), false) <==> forall i | 0 <= i < |args| :: Settled(Eval(args[i], env), false)
    ensures Eval(And(args), env).Success? ==> Eval(And(args), env).value.Bool?
    ensures Eval(Or(args), env).Success? ==> Eval(Or(args), env).value.Bool?
  {
    JunctionExact(EvalEach(args, env), true);
    JunctionExact(EvalEach(args, env), false);
  }

  lemma JunctionExact(values: seq<Value>, neutral: bool)
    ensures Settled(Junction(values, neutral), !neutral) <==>
            exists i :: 0 <= i < |values| && Settled(values[i], !neutral)
    ensures Settled(Junction(values, neutral), neutral) <==> forall i | 0 <= i < |values| :: Settled(values[i], neutral)
    ensures Junction(values, neutral).Success? ==> Junction(values, neutral).value.Bool?
  {
    if Success(Bool(!neutral)) in values {
      var i :| 0 <= i < |values| && values[i] == Success(Bool(!neutral));
    }
    forall i | 0 <= i < |values| ensures values[i] in values {
    }
  }

  /** Negation swaps the two connectives, as far as they settle. */
  lemma DeMorgan(args: seq<Expr>, flag: bool, env: Env)
    ensures Settled(Eval(Not(And(args)), env), flag) <==> Settled(Eval(Or(Negated(args)), env), flag)
  {
    ConnectivesExact(args, env);
    ConnectivesExact(Negated(args), env);
    forall i, want | 0 <= i < |args|
      ensures Settled(Eval(Negated(args)[i], env), want) <==> Settled(Eval(args[i], env), !want) {
      assert Negated(args)[i] == Not(args[i]);
    }
  }

  function Negated(args: seq<Expr>): (r: seq<Expr>)
    ensures |r| == |args| && forall i | 0 <= i < |args| :: r[i] == Not(args[i])
  {
    seq(|args|, i requires 0 <= i < |args| => Not(args[i]))
  }

  // ---- Containers ----

  /** `in` asks a list for a value and an object for a key. */
  lemma ContainsExact(c: Json, x: Json)
    ensures Contains(c, x) ==
            match c
            case Array(items) => Success(Bool(exists i :: 0 <= i < |items| && items[i] == x))
            case Object(fields) => if x.String? then Success(Bool(x.text in fields.Keys)) else Failure(NoOverload)
            case _ => Failure(NoOverload)
  {
  }

  /** Indexing picks a list's element or an object's field. */
  lemma IndexExact(container: Json, i: int, key: string)
    ensures container.Array? && 0 <= i < |container.items| ==> At(container, Number(i)) == Success(container.items[i])
    ensures container.Array? && !(0 <= i < |container.items|) ==> At(container, Number(i)).Failure?
    ensures container.Object? && key in container.fields ==>
            At(container, String(key)) == Success(container.fields[key])
    ensures container.Object? && key !in container.fields ==> At(container, String(key)) == Failure(NoSuchKey(key))
  {
  }

  // ---- Loops ----

  /** A loop over one name that goes on while the accumulator is `all`: the shape of the
      loops behind `all` and `exists`. */
  function Quantifier(x: string, accu: string, range: Expr, body: Expr, all: bool): Expr {
    Comprehension(x, None, range, accu, Literal(Bool(all)),
                  if all then Ident(accu) else Not(Ident(accu)),
                  if all then And([Ident(accu), body]) else Or([Ident(accu), body]), Ident(accu))
  }

  /** The body, with the name bound to one value of the range. */
  function BodyAt(x: string, accu: string, body: Expr, value: Json, all: bool, env: Env): Value {
    Eval(body, env.(vars := env.vars[x := value][accu := Bool(all)]))
  }

  /** What the name ranges over: a list's items in order, or an object's keys. */
  function Ranged(range: Json): Option<seq<Json>> {
    match range
    case Array(items) => Some(items)
    case Object(fields) =>
      var keys := Order.Sorted(fields.Keys);
      Some(seq(|keys|, i requires 0 <= i < |keys| => String(keys[i])))
    case _ => None
  }

  lemma StepOfQuantifier(x: string, accu: string, range: Expr, body: Expr, all: bool, item: Item, env: Env)
    requires x != accu
    ensures var e := Quantifier(x, accu, range, body, all);
            var inner := LoopEnv(e, item, Bool(all), env);
            && Eval(e.loopCond, inner) == Success(Bool(true))
            && (Settled(BodyAt(x, accu, body, item.only, all, env), all) ==>
                Eval(e.loopStep, inner) == Success(Bool(all)))
            && (Settled(BodyAt(x, accu, body, item.only, all, env), !all) ==>
                Eval(e.loopStep, inner) == Success(Bool(!all)))
            && (BodyAt(x, accu, body, item.only, all, env).Failure? ==> Eval(e.loopStep, inner).Failure?)
  {
    var inner := LoopEnv(Quantifier(x, accu, range, body, all), item, Bool(all), env);
    assert inner == env.(vars := env.vars[x := item.only][accu := Bool(all)]);
    PairStep(accu, body, all, inner);
  }

  /** One round: the accumulator, still `all`, joined with the body. */
  lemma PairStep(accu: string, body: Expr, all: bool, inner: Env)
    requires accu in inner.vars && inner.vars[accu] == Bool(all)
    ensures var step := if all then And([Ident(accu), body]) else Or([Ident(accu), body]);
            && (Settled(Eval(body, inner), all) ==> Eval(step, inner) == Success(Bool(all)))
            && (Settled(Eval(body, inner), !all) ==> Eval(step, inner) == Success(Bool(!all)))
            && (Eval(body, inner).Failure? ==> Eval(step, inner).Failure?)
  {
    var values := EvalEach([Ident(accu), body], inner);
    assert Eval(Ident(accu), inner) == Success(Bool(all));
    assert values == [Success(Bool(all)), Eval(body, inner)];
    JunctionExact(values, all);
    assert values[1] == Eval(body, inner);
  }

  /** Up to the first value whose body is not simply `all`, that value decides; with none,
      the quantifier is `all` itself. */
  lemma {:induction false} QuantifierLoops(x: string, accu: string, range: Expr, body: Expr, all: bool,
                                           items: seq<Item>, k: nat, env: Env)
    requires x != accu && k <= |items|
    requires forall i | 0 <= i < k :: Settled(BodyAt(x, accu, body, items[i].only, all, env), all)
    requires k < |items| ==>
               var decided := BodyAt(x, accu, body, items[k].only, all, env);
               Settled(decided, !all) || decided.Failure?
    ensures var r := Iterate(Quantifier(x, accu, range, body, all), items, Bool(all), env);
            if k == |items| then r == Success(Bool(all))
            else if BodyAt(x, accu, body, items[k].only, all, env).Failure? then r.Failure?
            else r == Success(Bool(!all))
    decreases k
  {
    var e := Quantifier(x, accu, range, body, all);
    if |items| > 0 {
      StepOfQuantifier(x, accu, range, body, all, items[0], env);
      if k > 0 {
        QuantifierLoops(x, accu, range, body, all, items[1..], k - 1, env);
      } else {
        var next := Eval(e.loopStep, LoopEnv(e, items[0], Bool(all), env));
        if next.Success? {
          LoopStops(e, items[1..], all, env);
        }
      }
    }
  }

  /** Once the accumulator has turned, the loop runs no further. */
  lemma LoopStops(e: Expr, items: seq<Item>, all: bool, env: Env)
    requires e.Comprehension? && e.loopCond == (if all then Ident(e.accuVar) else Not(Ident(e.accuVar)))
    ensures Iterate(e, items, Bool(!all), env) == Success(Bool(!all))
  {
    if |items| > 0 {
      var inner := LoopEnv(e, items[0], Bool(!all), env);
      assert Eval(Ident(e.accuVar), inner) == Success(Bool(!all));
      assert Eval(e.loopCond, inner) == Success(Bool(false));
    }
  }

  lemma ElementsAre(range: Json)
    ensures Elements(range).Success? <==> Ranged(range).Some?
    ensures Elements(range).Success? ==>
              var items := Elements(range).value;
              && |items| == |Ranged(range).value|
              && forall i | 0 <= i < |items| :: items[i].only == Ranged(range).value[i]
  {
  }

  /** A quantifier over a list's items or an object's keys: the first value whose body is
      not simply `all` decides, by failing or by turning the answer. */
  lemma {:induction false} QuantifierExact(x: string, accu: string, range: Expr, body: Expr, all: bool,
                                           values: seq<Json>,
                                           k: nat, env: Env)
    requires x != accu && Eval(range, env).Success? && Ranged(Eval(range, env).value) == Some(values) && k <= |values|
    requires forall i | 0 <= i < k :: Settled(BodyAt(x, accu, body, values[i], all, env), all)
    requires k < |values| ==>
               var decided := BodyAt(x, accu, body, values[k], all, env);
               Settled(decided, !all) || decided.Failure?
    ensures var r := Eval(Quantifier(x, accu, range, body, all), env);
            if k == |values| then Settled(r, all)
            else if BodyAt(x, accu, body, values[k], all, env).Failure? then r.Failure?
            else Settled(r, !all)
  {
    ElementsAre(Eval(range, env).value);
    var items := Elements(Eval(range, env).value).value;
    QuantifierLoops(x, accu, range, body, all, items, k, env);
    var e := Quantifier(x, accu, range, body, all);
    assert Eval(e.accuInit, env) == Success(Bool(all));
  }

  /** With two names, a list gives positions and items, an object keys and values. */
  lemma PairsAre(range: Json, i: nat)
    requires Elements(range).Success? && i < |Elements(range).value|
    ensures range.Array? ==>
              i < |range.items| && Elements(range).value[i].first == Number(i)
              && Elements(range).value[i].second == range.items[i]
    ensures range.Object? ==>
              var key := Elements(range).value[i].first;
              key.String? && key.text in range.fields && Elements(range).value[i].second == range.fields[key.text]
  {
  }

  /** And the second name shadows nothing of the first. */
  lemma PairBound(e: Expr, item: Item, accu: Json, env: Env)
    requires e.Comprehension? && e.iterVar2.Some?
    requires e.iterVar != e.iterVar2.value && e.iterVar != e.accuVar && e.iterVar2.value != e.accuVar
    ensures var inner := LoopEnv(e, item, accu, env);
            && Eval(Ident(e.iterVar), inner) == Success(item.first)
            && Eval(Ident(e.iterVar2.value), inner) == Success(item.second)
            && Eval(Ident(e.accuVar), inner) == Success(accu)
  {
  }
}
