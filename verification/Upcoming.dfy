/** The instants at which behaviour is scheduled to change: literal instants compared
    with `env.now`, and what does not change between them. */
module Upcoming {
  import opened Prelude
  import opened Json
  import opened Cel
  import opened Package
  import opened Semantics
  import opened Dependence
  import opened Rfc3339
  import References

  datatype Boundary = Boundary(instant: string, timestamp: Timestamp, comparison: string)

  const TIME_COMPARISONS: set<string> := {
    "timeAfter", "time_after", "timeAtOrAfter", "time_at_or_after",
    "timeBefore", "time_before", "timeAtOrBefore", "time_at_or_before"}

  const TIME_WINDOWS: set<string> := {"timeBetween", "time_between"}

  // ---- Collecting ----

  function OperatorName(op: Comparison): string {
    match op
    case Equal => "=="
    case NotEqual => "!="
    case Less => "<"
    case LessEqual => "<="
    case Greater => ">"
    case GreaterEqual => ">="
  }

  predicate IsEnvNow(e: Expr) {
    References.ReferenceOf(e) == Some(References.EnvNow)
  }

  predicate IsInstant(e: Expr) {
    e.Literal? && e.value.String?
  }

  function LiteralBoundary(comparison: string, e: Expr): seq<Boundary> {
    if !IsInstant(e) || Parse(e.value.text).None? then []
    else [Boundary(e.value.text, Parse(e.value.text).value, comparison)]
  }

  /** `env.now` on one side and an instant on the other, in either order. */
  function PairBoundary(comparison: string, a: Expr, b: Expr): seq<Boundary> {
    if IsEnvNow(a) then LiteralBoundary(comparison, b)
    else if IsEnvNow(b) then LiteralBoundary(comparison, a)
    else []
  }

  function OwnBoundaries(e: Expr): seq<Boundary> {
    match e
    case Call(name, args) =>
      if name in TIME_COMPARISONS && |args| == 2 then PairBoundary(name, args[0], args[1])
      else if name in TIME_WINDOWS && |args| == 3 && IsEnvNow(args[0]) then
        LiteralBoundary(name, args[1]) + LiteralBoundary(name, args[2])
      else []
    case Compare(op, left, right) => PairBoundary(OperatorName(op), left, right)
    case _ => []
  }

  function Boundaries(e: Expr): seq<Boundary>
    decreases e, 1
  {
    OwnBoundaries(e) + Flat(ChildBoundaries(e))
  }

  function ChildBoundaries(e: Expr): (r: seq<seq<Boundary>>)
    ensures |r| == |References.Children(e)| && forall i | 0 <= i < |r| :: r[i] == Boundaries(References.Children(e)[i])
    decreases e, 0
  {
    var children := References.Children(e);
    seq(|children|, i requires 0 <= i < |children| =>
      assert children[i] in children;
      Boundaries(children[i]))
  }

  function Flat<T>(parts: seq<seq<T>>): seq<T> {
    if |parts| == 0 then [] else Flat(parts[..|parts| - 1]) + parts[|parts| - 1]
  }

  lemma {:induction false} FlatContains<T>(parts: seq<seq<T>>, i: nat, x: T)
    requires i < |parts| && x in parts[i]
    ensures x in Flat(parts)
    decreases |parts|
  {
    if i < |parts| - 1 {
      FlatContains(parts[..|parts| - 1], i, x);
    }
  }

  lemma {:induction false} FlatEmpty<T>(parts: seq<seq<T>>)
    requires forall i | 0 <= i < |parts| :: parts[i] == []
    ensures Flat(parts) == []
    decreases |parts|
  {
    if |parts| > 0 {
      FlatEmpty(parts[..|parts| - 1]);
    }
  }

  lemma FlatOnce<T>(parts: seq<seq<T>>, i: nat)
    requires i < |parts|
    ensures Flat(parts[..i + 1]) == Flat(parts[..i]) + parts[i]
  {
    assert parts[..i + 1][..i] == parts[..i];
  }

  method CollectBoundaries(e: Expr, boundaries: seq<Boundary>) returns (r: seq<Boundary>)
    ensures r == boundaries + Boundaries(e)
    decreases e
  {
    r := boundaries + OwnBoundaries(e);
    ghost var own, parts := r, ChildBoundaries(e);
    var children := References.Children(e);
    for i := 0 to |children|
      invariant r == own + Flat(parts[..i])
    {
      FlatOnce(parts, i);
      Append(own, Flat(parts[..i]), parts[i]);
      assert children[i] in children;
      r := CollectBoundaries(children[i], r);
    }
    assert parts[..|children|] == parts;
    Append(boundaries, OwnBoundaries(e), Flat(parts));
  }

  lemma Append<T>(a: seq<T>, b: seq<T>, c: seq<T>)
    ensures a + (b + c) == a + b + c
  {
  }

  /** A test of this name, of `env.now` against this instant. */
  predicate TestsAgainst(d: Expr, name: string, instant: string) {
    match d
    case Call(function_, args) =>
      && function_ == name && (exists i :: 0 <= i < |args| && IsEnvNow(args[i]))
      && exists j :: 0 <= j < |args| && args[j] == Literal(String(instant))
    case Compare(op, left, right) =>
      && OperatorName(op) == name
      && ((IsEnvNow(left) && right == Literal(String(instant)))
          || (IsEnvNow(right) && left == Literal(String(instant))))
    case _ => false
  }

  ghost predicate Within(d: Expr, e: Expr)
    decreases e
  {
    d == e || exists c :: c in References.Children(e) && Within(d, c)
  }

  lemma OwnBoundaryTells(e: Expr, b: Boundary)
    requires b in OwnBoundaries(e)
    ensures Parse(b.instant) == Some(b.timestamp) && TestsAgainst(e, b.comparison, b.instant)
  {
    if e.Call? {
      var args := e.args;
      if |args| == 2 {
        assert args[0] == Literal(String(b.instant)) || args[1] == Literal(String(b.instant));
      } else {
        assert args[1] == Literal(String(b.instant)) || args[2] == Literal(String(b.instant));
      }
    }
  }

  /** Every collected boundary is an instant some test in the expression compares the
      clock with, under the name of that test. */
  lemma {:induction false} BoundaryOccurs(e: Expr, b: Boundary) returns (d: Expr)
    requires b in Boundaries(e)
    ensures Within(d, e) && Parse(b.instant) == Some(b.timestamp) && TestsAgainst(d, b.comparison, b.instant)
    decreases e
  {
    if b in OwnBoundaries(e) {
      OwnBoundaryTells(e, b);
      d := e;
    } else {
      var i := InSomePart(ChildBoundaries(e), b);
      var child := References.Children(e)[i];
      assert child in References.Children(e);
      d := BoundaryOccurs(child, b);
    }
  }

  lemma {:induction false} InSomePart<T>(parts: seq<seq<T>>, x: T) returns (i: nat)
    requires x in Flat(parts)
    ensures i < |parts| && x in parts[i]
    decreases |parts|
  {
    i := |parts| - 1;
    if x !in parts[i] {
      i := InSomePart(parts[..i], x);
    }
  }

  // ---- The time functions ----

  function Compared(name: string, a: Timestamp, b: Timestamp): bool
    requires name in TIME_COMPARISONS
  {
    if name == "timeAfter" || name == "time_after" then Before(b, a)
    else if name == "timeAtOrAfter" || name == "time_at_or_after" then !Before(a, b)
    else if name == "timeBefore" || name == "time_before" then Before(a, b)
    else !Before(b, a)
  }

  function OrderAnswer(name: string, a: Option<Timestamp>, b: Option<Timestamp>): Cel.Value
    requires name in TIME_COMPARISONS
  {
    if a.None? || b.None? then Failure(CallFailed(name)) else Success(Bool(Compared(name, a.value, b.value)))
  }

  /** A window holds its start but not its end. */
  function WindowAnswer(name: string, at: Option<Timestamp>, start: Option<Timestamp>, end: Option<Timestamp>)
    : Cel.Value
  {
    if at.None? || start.None? || end.None? then Failure(CallFailed(name))
    else Success(Bool(!Before(at.value, start.value) && Before(at.value, end.value)))
  }

  ghost predicate TellsOrder(host: Host) {
    forall name, a, b | name in TIME_COMPARISONS ::
      host.call(name, [String(a), String(b)]) == OrderAnswer(name, Parse(a), Parse(b))
  }

  ghost predicate TellsWindows(host: Host) {
    forall name, a, lo, hi | name in TIME_WINDOWS ::
      host.call(name, [String(a), String(lo), String(hi)]) == WindowAnswer(name, Parse(a), Parse(lo), Parse(hi))
  }

  /** The host runs the time functions on instants. */
  ghost predicate TellsTime(host: Host) {
    TellsOrder(host) && TellsWindows(host)
  }

  /** The time functions themselves, among the registered ones. */
  function TimeCall(name: string, args: seq<Json>): Cel.Value {
    if name in TIME_COMPARISONS && |args| == 2 && args[0].String? && args[1].String? then
      OrderAnswer(name, Parse(args[0].text), Parse(args[1].text))
    else if name in TIME_WINDOWS && |args| == 3 && args[0].String? && args[1].String? && args[2].String? then
      WindowAnswer(name, Parse(args[0].text), Parse(args[1].text), Parse(args[2].text))
    else Failure(NoOverload)
  }

  lemma OrderCalled(name: string, a: string, b: string)
    requires name in TIME_COMPARISONS
    ensures TimeCall(name, [String(a), String(b)]) == OrderAnswer(name, Parse(a), Parse(b))
  {
  }

  lemma WindowCalled(name: string, a: string, lo: string, hi: string)
    requires name in TIME_WINDOWS
    ensures TimeCall(name, [String(a), String(lo), String(hi)]) == WindowAnswer(name, Parse(a), Parse(lo), Parse(hi))
  {
    assert name !in TIME_COMPARISONS;
  }

  lemma TimeCallTellsTime(hash: (string, Json) -> nat)
    ensures TellsTime(Host(hash, TimeCall))
  {
    var host := Host(hash, TimeCall);
    forall name, a, b | name in TIME_COMPARISONS
      ensures host.call(name, [String(a), String(b)]) == OrderAnswer(name, Parse(a), Parse(b))
    {
      OrderCalled(name, a, b);
    }
    forall name, a, lo, hi | name in TIME_WINDOWS
      ensures host.call(name, [String(a), String(lo), String(hi)]) == WindowAnswer(name, Parse(a), Parse(lo), Parse(hi))
    {
      WindowCalled(name, a, lo, hi);
    }
  }

  /** How the time functions hang together: before and after mirror each other, each
      is the opposite of its inclusive counterpart, both spellings answer alike. */
  lemma TimeFunctionsCohere(a: string, b: string)
    requires Parse(a).Some? && Parse(b).Some?
    ensures TimeCall("timeAfter", [String(a), String(b)]) == TimeCall("timeBefore", [String(b), String(a)])
    ensures Opposite(TimeCall("timeAfter", [String(a), String(b)]), TimeCall("timeAtOrBefore", [String(a), String(b)]))
    ensures Opposite(TimeCall("timeBefore", [String(a), String(b)]), TimeCall("timeAtOrAfter", [String(a), String(b)]))
    ensures forall name, other | (name, other) in SPELLINGS ::
            TimeCall(name, [String(a), String(b)]) == TimeCall(other, [String(a), String(b)])
  {
    Mirrored(a, b);
    Opposed(a, b);
    forall name, other | (name, other) in SPELLINGS
      ensures TimeCall(name, [String(a), String(b)]) == TimeCall(other, [String(a), String(b)])
    {
      SpelledAlike(name, other, a, b);
    }
  }

  lemma Mirrored(a: string, b: string)
    requires Parse(a).Some? && Parse(b).Some?
    ensures TimeCall("timeAfter", [String(a), String(b)]) == TimeCall("timeBefore", [String(b), String(a)])
  {
    OrderCalled("timeAfter", a, b);
    OrderCalled("timeBefore", b, a);
  }

  lemma Opposed(a: string, b: string)
    requires Parse(a).Some? && Parse(b).Some?
    ensures Opposite(TimeCall("timeAfter", [String(a), String(b)]), TimeCall("timeAtOrBefore", [String(a), String(b)]))
    ensures Opposite(TimeCall("timeBefore", [String(a), String(b)]), TimeCall("timeAtOrAfter", [String(a), String(b)]))
  {
    OrderCalled("timeAfter", a, b);
    OrderCalled("timeAtOrBefore", a, b);
    OrderCalled("timeBefore", a, b);
    OrderCalled("timeAtOrAfter", a, b);
  }

  lemma ComparedAlike(name: string, other: string, x: Timestamp, y: Timestamp)
    requires (name, other) in SPELLINGS
    ensures name in TIME_COMPARISONS && other in TIME_COMPARISONS && Compared(name, x, y) == Compared(other, x, y)
  {
  }

  lemma SpelledAlike(name: string, other: string, a: string, b: string)
    requires (name, other) in SPELLINGS && Parse(a).Some? && Parse(b).Some?
    ensures TimeCall(name, [String(a), String(b)]) == TimeCall(other, [String(a), String(b)])
  {
    var x, y := Parse(a), Parse(b);
    ComparedAlike(name, other, x.value, y.value);
    OrderCalled(name, a, b);
    OrderCalled(other, a, b);
    assert OrderAnswer(name, x, y) == OrderAnswer(other, x, y);
  }

  /** A window holds the instants at or after its start and before its end. */
  lemma WindowIsBoth(a: string, lo: string, hi: string)
    requires Parse(a).Some? && Parse(lo).Some? && Parse(hi).Some?
    ensures (TimeCall("timeBetween", [String(a), String(lo), String(hi)]) == Success(Bool(true))) <==>
            TimeCall("timeAtOrAfter", [String(a), String(lo)]) == Success(Bool(true))
            && TimeCall("timeBefore", [String(a), String(hi)]) == Success(Bool(true))
  {
    WindowCalled("timeBetween", a, lo, hi);
    OrderCalled("timeAtOrAfter", a, lo);
    OrderCalled("timeBefore", a, hi);
  }

  /** Nanoseconds since the epoch. */
  function Instant(stamp: string): int
    requires Parse(stamp).Some?
  {
    Parse(stamp).value.seconds * 1000000000 + Parse(stamp).value.nanos
  }

  lemma BeforeIsEarlier(a: string, b: string)
    requires Parse(a).Some? && Parse(b).Some?
    ensures Before(Parse(a).value, Parse(b).value) <==> Instant(a) < Instant(b)
  {
    ParsedNanosBelowSecond(a);
    ParsedNanosBelowSecond(b);
  }

  /** The time functions compare instants, whatever zone each stamp is written in. */
  lemma TimeFunctionsTell(a: string, b: string)
    requires Parse(a).Some? && Parse(b).Some?
    ensures TimeCall("timeBefore", [String(a), String(b)]) == Success(Bool(Instant(a) < Instant(b)))
    ensures TimeCall("timeAtOrBefore", [String(a), String(b)]) == Success(Bool(Instant(a) <= Instant(b)))
    ensures TimeCall("timeAfter", [String(a), String(b)]) == Success(Bool(Instant(a) > Instant(b)))
    ensures TimeCall("timeAtOrAfter", [String(a), String(b)]) == Success(Bool(Instant(a) >= Instant(b)))
  {
    OrderCalled("timeBefore", a, b);
    OrderCalled("timeAtOrBefore", a, b);
    OrderCalled("timeAfter", a, b);
    OrderCalled("timeAtOrAfter", a, b);
    BeforeIsEarlier(a, b);
    BeforeIsEarlier(b, a);
  }

  /** A window holds the instants from its start up to its end, the end left out. */
  lemma WindowTells(a: string, start: string, end: string)
    requires Parse(a).Some? && Parse(start).Some? && Parse(end).Some?
    ensures TimeCall("timeBetween", [String(a), String(start), String(end)])
         == Success(Bool(Instant(start) <= Instant(a) < Instant(end)))
  {
    WindowCalled("timeBetween", a, start, end);
    BeforeIsEarlier(a, start);
    BeforeIsEarlier(a, end);
  }

  /** And fail on a text that is no stamp. */
  lemma BadStampFails(name: string, a: string, b: string)
    requires name in TIME_COMPARISONS && (Parse(a).None? || Parse(b).None?)
    ensures TimeCall(name, [String(a), String(b)]).Failure?
  {
    OrderCalled(name, a, b);
  }

  const SPELLINGS: set<(string, string)> := {
    ("timeAfter", "time_after"), ("timeAtOrAfter", "time_at_or_after"),
    ("timeBefore", "time_before"), ("timeAtOrBefore", "time_at_or_before")}

  predicate Opposite(x: Cel.Value, y: Cel.Value) {
    x.Success? && x.value.Bool? && y == Success(Bool(!x.value.flag))
  }

  // ---- Between boundaries nothing changes ----

  /** A time function of `env.now` and instants, in the shapes that are collected. */
  predicate NowTest(e: Expr) {
    e.Call? && (
      || (e.function_ in TIME_COMPARISONS && |e.args| == 2
          && ((IsNow(e.args[0]) && IsInstant(e.args[1])) || (IsInstant(e.args[0]) && IsNow(e.args[1]))))
      || (e.function_ in TIME_WINDOWS && |e.args| == 3
          && IsNow(e.args[0]) && IsInstant(e.args[1]) && IsInstant(e.args[2])))
  }

  predicate IsNow(e: Expr) {
    IsEnvNow(e) && !References.Tested(e)
  }

  /** The clock is read only in such tests. */
  predicate ClockSafe(e: Expr, bound: seq<string>)
    decreases e
  {
    if References.Shadowed(e, bound) || NowTest(e) then true
    else if Path(e).Some? then
      var (root, segments) := Path(e).value;
      root == "env" ==> |segments| > 0 && segments[0] != "now"
    else if e.Comprehension? then
      var inner := References.LoopScope(e, bound);
      && ClockSafe(e.iterRange, bound) && ClockSafe(e.accuInit, bound)
      && ClockSafe(e.loopCond, inner) && ClockSafe(e.loopStep, inner)
      && ClockSafe(e.result, bound + [e.accuVar])
    else forall c | c in References.Children(e) :: ClockSafe(c, bound)
  }

  predicate Outside(t: Timestamp, from: Timestamp, to: Timestamp) {
    Before(t, from) || Before(to, t)
  }

  /** No collected boundary falls from the one instant to the other. */
  predicate Quiet(e: Expr, from: Timestamp, to: Timestamp) {
    forall b | b in Boundaries(e) :: Outside(b.timestamp, from, to)
  }

  predicate IsClock(v: Json, now: string) {
    v.Object? && "now" in v.fields && v.fields["now"] == String(now)
  }

  /** The environments differ only in the time a free `env.now` reads. */
  ghost predicate SameButClock(a: Env, b: Env, bound: seq<string>, before: string, after: string) {
    && a.host == b.host && a.vars.Keys == b.vars.Keys && "env" in a.vars
    && (forall name | name in a.vars && (name in bound || name != "env") :: a.vars[name] == b.vars[name])
    && ("env" !in bound ==>
          && IsClock(a.vars["env"], before) && IsClock(b.vars["env"], after)
          && a.vars["env"].fields - {"now"} == b.vars["env"].fields - {"now"})
  }

  ghost predicate Passes(before: string, after: string, from: Timestamp, to: Timestamp) {
    Parse(before) == Some(from) && Parse(after) == Some(to) && !Before(to, from)
  }

  lemma QuietParts(e: Expr, from: Timestamp, to: Timestamp)
    requires Quiet(e, from, to)
    ensures forall b | b in OwnBoundaries(e) :: Outside(b.timestamp, from, to)
    ensures forall c | c in References.Children(e) :: Quiet(c, from, to)
  {
    forall b | b in OwnBoundaries(e) ensures Outside(b.timestamp, from, to) {
      assert b in Boundaries(e);
    }
    forall c | c in References.Children(e) ensures Quiet(c, from, to) {
      var i :| 0 <= i < |References.Children(e)| && References.Children(e)[i] == c;
      forall b | b in Boundaries(c) ensures Outside(b.timestamp, from, to) {
        FlatContains(ChildBoundaries(e), i, b);
        assert b in Boundaries(e);
      }
    }
  }

  lemma NowReads(e: Expr, env: Env, now: string)
    requires IsNow(e) && "env" in env.vars && IsClock(env.vars["env"], now)
    ensures Eval(e, env) == Success(String(now))
  {
    References.ChainWalks(e, env);
    assert Path(e) == Some(("env", ["now"]));
    assert ["now"][1..] == [];
    assert Walk(env.vars["env"], ["now"]) == Found(String(now));
  }

  lemma TwoArguments(name: string, x: Expr, y: Expr, env: Env, a: string, b: string)
    requires Eval(x, env) == Success(String(a)) && Eval(y, env) == Success(String(b))
    ensures Eval(Call(name, [x, y]), env) == env.host.call(name, [String(a), String(b)])
  {
    var values := EvalEach([x, y], env);
    assert values == [Success(String(a)), Success(String(b))];
    assert All(values).value == [String(a), String(b)];
  }

  lemma ThreeArguments(name: string, x: Expr, y: Expr, z: Expr, env: Env, a: string, b: string, c: string)
    requires Eval(x, env) == Success(String(a)) && Eval(y, env) == Success(String(b))
    requires Eval(z, env) == Success(String(c))
    ensures Eval(Call(name, [x, y, z]), env) == env.host.call(name, [String(a), String(b), String(c)])
  {
    var values := EvalEach([x, y, z], env);
    assert values == [Success(String(a)), Success(String(b)), Success(String(c))];
    assert All(values).value == [String(a), String(b), String(c)];
  }

  /** Two instants with no boundary between them compare alike with it. */
  lemma SameSide(name: string, from: Timestamp, to: Timestamp, t: Timestamp)
    requires name in TIME_COMPARISONS && !Before(to, from) && Outside(t, from, to)
    ensures Compared(name, from, t) == Compared(name, to, t) && Compared(name, t, from) == Compared(name, t, to)
    ensures Before(from, t) == Before(to, t)
  {
  }

  /** The call on either order of the clock and an instant. */
  lemma CallSettles(host: Host, name: string, before: string, after: string, instant: string, from: Timestamp,
                    to: Timestamp)
    requires TellsTime(host) && name in TIME_COMPARISONS && Passes(before, after, from, to)
    requires Parse(instant).Some? ==> Outside(Parse(instant).value, from, to)
    ensures host.call(name, [String(before), String(instant)]) == host.call(name, [String(after), String(instant)])
    ensures host.call(name, [String(instant), String(before)]) == host.call(name, [String(instant), String(after)])
  {
    if Parse(instant).Some? {
      SameSide(name, from, to, Parse(instant).value);
    }
  }

  lemma OwnOutside(e: Expr, from: Timestamp, to: Timestamp, instant: Expr)
    requires NowTest(e) && Quiet(e, from, to) && instant in e.args && IsInstant(instant)
    ensures Parse(instant.value.text).Some? ==> Outside(Parse(instant.value.text).value, from, to)
  {
    QuietParts(e, from, to);
    OwnHasLiterals(e, instant);
    var own := LiteralBoundary(e.function_, instant);
    if Parse(instant.value.text).Some? {
      assert own[0] in own;
    }
  }

  lemma OwnHasLiterals(e: Expr, instant: Expr)
    requires NowTest(e) && instant in e.args && IsInstant(instant)
    ensures forall b | b in LiteralBoundary(e.function_, instant) :: b in OwnBoundaries(e)
  {
    if e.function_ in TIME_COMPARISONS {
      PairHasLiteral(e.function_, e.args[0], e.args[1], instant);
    } else {
      InstantIsNotNow(instant);
      assert instant == e.args[1] || instant == e.args[2];
    }
  }

  lemma PairHasLiteral(name: string, x: Expr, y: Expr, instant: Expr)
    requires (IsEnvNow(x) && IsInstant(y)) || (IsInstant(x) && IsEnvNow(y))
    requires (instant == x || instant == y) && IsInstant(instant)
    ensures PairBoundary(name, x, y) == LiteralBoundary(name, instant)
  {
    InstantIsNotNow(instant);
    if IsInstant(x) {
      InstantIsNotNow(x);
    }
  }

  lemma InstantIsNotNow(e: Expr)
    requires IsInstant(e)
    ensures !IsEnvNow(e)
  {
  }

  lemma NowThenInstant(name: string, x: Expr, y: Expr, env: Env, now: string)
    requires IsNow(x) && IsInstant(y) && "env" in env.vars && IsClock(env.vars["env"], now)
    ensures Eval(Call(name, [x, y]), env) == env.host.call(name, [String(now), String(y.value.text)])
  {
    NowReads(x, env, now);
    TwoArguments(name, x, y, env, now, y.value.text);
  }

  lemma InstantThenNow(name: string, x: Expr, y: Expr, env: Env, now: string)
    requires IsInstant(x) && IsNow(y) && "env" in env.vars && IsClock(env.vars["env"], now)
    ensures Eval(Call(name, [x, y]), env) == env.host.call(name, [String(x.value.text), String(now)])
  {
    NowReads(y, env, now);
    TwoArguments(name, x, y, env, x.value.text, now);
  }

  ghost predicate Clocks(a: Env, b: Env, before: string, after: string) {
    && a.host == b.host && "env" in a.vars && "env" in b.vars
    && IsClock(a.vars["env"], before) && IsClock(b.vars["env"], after)
  }

  /** Both orders of a comparison, at two clocks. */
  lemma PairReads(name: string, x: Expr, y: Expr, a: Env, b: Env, before: string, after: string) returns (instant: Expr)
    requires Clocks(a, b, before, after) && ((IsNow(x) && IsInstant(y)) || (IsInstant(x) && IsNow(y)))
    ensures IsInstant(instant) && (instant == x || instant == y)
    ensures
      || (Eval(Call(name, [x, y]), a) == a.host.call(name, [String(before), String(instant.value.text)])
          && Eval(Call(name, [x, y]), b) == a.host.call(name, [String(after), String(instant.value.text)]))
      || (Eval(Call(name, [x, y]), a) == a.host.call(name, [String(instant.value.text), String(before)])
          && Eval(Call(name, [x, y]), b) == a.host.call(name, [String(instant.value.text), String(after)]))
  {
    if IsNow(x) && IsInstant(y) {
      instant := y;
      NowThenInstant(name, x, y, a, before);
      NowThenInstant(name, x, y, b, after);
    } else {
      instant := x;
      InstantThenNow(name, x, y, a, before);
      InstantThenNow(name, x, y, b, after);
    }
  }

  /** The operands of a comparison test. */
  lemma PairTest(e: Expr)
    requires NowTest(e) && e.function_ in TIME_COMPARISONS && |e.args| == 2
    ensures e == Call(e.function_, [e.args[0], e.args[1]])
    ensures (IsNow(e.args[0]) && IsInstant(e.args[1])) || (IsInstant(e.args[0]) && IsNow(e.args[1]))
    ensures OwnBoundaries(e) == PairBoundary(e.function_, e.args[0], e.args[1])
  {
    assert e.args == [e.args[0], e.args[1]];
  }

  lemma ComparisonSettles(e: Expr, a: Env, b: Env, before: string, after: string, from: Timestamp, to: Timestamp)
    requires NowTest(e) && e.function_ in TIME_COMPARISONS && |e.args| == 2
    requires Quiet(e, from, to) && Passes(before, after, from, to) && TellsTime(a.host) && Clocks(a, b, before, after)
    ensures Eval(e, a) == Eval(e, b)
  {
    PairTest(e);
    var instant := PairReads(e.function_, e.args[0], e.args[1], a, b, before, after);
    OwnOutside(e, from, to, instant);
    CallSettles(a.host, e.function_, before, after, instant.value.text, from, to);
  }

  lemma HostAnswers(host: Host, name: string, at: string, lo: string, hi: string)
    requires TellsWindows(host) && name in TIME_WINDOWS
    ensures host.call(name, [String(at), String(lo), String(hi)]) == WindowAnswer(name, Parse(at), Parse(lo), Parse(hi))
  {
  }

  lemma SameWindow(name: string, start: Option<Timestamp>, end: Option<Timestamp>, from: Timestamp, to: Timestamp)
    requires !Before(to, from)
    requires start.Some? ==> Outside(start.value, from, to)
    requires end.Some? ==> Outside(end.value, from, to)
    ensures WindowAnswer(name, Some(from), start, end) == WindowAnswer(name, Some(to), start, end)
  {
  }

  lemma WindowCallSettles(host: Host, name: string, before: string, after: string, lo: string, hi: string,
                          from: Timestamp, to: Timestamp)
    requires TellsTime(host) && name in TIME_WINDOWS && Passes(before, after, from, to)
    requires Parse(lo).Some? ==> Outside(Parse(lo).value, from, to)
    requires Parse(hi).Some? ==> Outside(Parse(hi).value, from, to)
    ensures host.call(name, [String(before), String(lo), String(hi)]) ==
            host.call(name, [String(after), String(lo), String(hi)])
  {
    HostAnswers(host, name, before, lo, hi);
    HostAnswers(host, name, after, lo, hi);
    SameWindow(name, Parse(lo), Parse(hi), from, to);
  }

  lemma WindowSettles(name: string, x: Expr, lo: Expr, hi: Expr, a: Env, b: Env, before: string, after: string,
                      from: Timestamp, to: Timestamp)
    requires name in TIME_WINDOWS && IsNow(x) && IsInstant(lo) && IsInstant(hi)
    requires Parse(lo.value.text).Some? ==> Outside(Parse(lo.value.text).value, from, to)
    requires Parse(hi.value.text).Some? ==> Outside(Parse(hi.value.text).value, from, to)
    requires Passes(before, after, from, to) && TellsTime(a.host) && Clocks(a, b, before, after)
    ensures Eval(Call(name, [x, lo, hi]), a) == Eval(Call(name, [x, lo, hi]), b)
  {
    NowReads(x, a, before);
    NowReads(x, b, after);
    ThreeArguments(name, x, lo, hi, a, before, lo.value.text, hi.value.text);
    ThreeArguments(name, x, lo, hi, b, after, lo.value.text, hi.value.text);
    WindowCallSettles(a.host, name, before, after, lo.value.text, hi.value.text, from, to);
  }

  lemma TestSettles(e: Expr, a: Env, b: Env, before: string, after: string, from: Timestamp, to: Timestamp)
    requires NowTest(e) && Quiet(e, from, to) && Passes(before, after, from, to) && TellsTime(a.host)
    requires Clocks(a, b, before, after)
    ensures Eval(e, a) == Eval(e, b)
  {
    if e.function_ in TIME_COMPARISONS && |e.args| == 2 {
      ComparisonSettles(e, a, b, before, after, from, to);
    } else {
      var x, lo, hi := WindowTest(e, from, to);
      WindowSettles(e.function_, x, lo, hi, a, b, before, after, from, to);
    }
  }

  lemma WindowTest(e: Expr, from: Timestamp, to: Timestamp) returns (x: Expr, lo: Expr, hi: Expr)
    requires NowTest(e) && Quiet(e, from, to) && !(e.function_ in TIME_COMPARISONS && |e.args| == 2)
    ensures e.function_ in TIME_WINDOWS && e == Call(e.function_, [x, lo, hi])
    ensures IsNow(x) && IsInstant(lo) && IsInstant(hi)
    ensures Parse(lo.value.text).Some? ==> Outside(Parse(lo.value.text).value, from, to)
    ensures Parse(hi.value.text).Some? ==> Outside(Parse(hi.value.text).value, from, to)
  {
    x, lo, hi := e.args[0], e.args[1], e.args[2];
    assert lo in e.args && hi in e.args;
    OwnOutside(e, from, to, lo);
    OwnOutside(e, from, to, hi);
    assert e.args == [x, lo, hi];
  }

  /** A chain into anything but the clock. */
  lemma ChainSettles(e: Expr, a: Env, b: Env, bound: seq<string>, before: string, after: string)
    requires Path(e).Some? && SameButClock(a, b, bound, before, after)
    requires var (root, segments) := Path(e).value; root !in bound && root == "env" ==>
             |segments| > 0 && segments[0] != "now"
    ensures Eval(e, a) == Eval(e, b)
  {
    var (root, segments) := Path(e).value;
    if root !in a.vars {
      References.ChainUndeclared(e, a);
      References.ChainUndeclared(e, b);
    } else if root in bound || root != "env" {
      References.ChainSame(e, a, b, []);
    } else {
      var first := segments[..1];
      assert first[1..] == [];
      var x, y := a.vars["env"], b.vars["env"];
      assert segments[0] in x.fields <==> segments[0] in x.fields - {"now"};
      assert segments[0] in y.fields <==> segments[0] in y.fields - {"now"};
      assert segments[0] in x.fields ==> x.fields[segments[0]] == (x.fields - {"now"})[segments[0]];
      assert segments[0] in y.fields ==> y.fields[segments[0]] == (y.fields - {"now"})[segments[0]];
      assert Walk(x, first) == Walk(y, first);
      References.ChainSame(e, a, b, first);
    }
  }

  lemma TestArguments(e: Expr)
    requires NowTest(e)
    ensures forall c | c in e.args :: IsNow(c) || IsInstant(c)
    ensures References.Children(e) == e.args
  {
    assert |e.args| == 2 ==> e.args == [e.args[0], e.args[1]];
    assert |e.args| == 3 ==> e.args == [e.args[0], e.args[1], e.args[2]];
  }

  /** When `env` is a bound name, a test of it is like any other call. */
  lemma ShadowedTest(e: Expr, a: Env, b: Env, bound: seq<string>, before: string, after: string)
    requires NowTest(e) && SameButClock(a, b, bound, before, after) && "env" in bound
    ensures Eval(e, a) == Eval(e, b)
  {
    TestArguments(e);
    forall c | c in e.args ensures Eval(c, a) == Eval(c, b) {
      if IsNow(c) {
        assert Path(c).Some? && Path(c).value.0 == "env";
        ChainSettles(c, a, b, bound, before, after);
      } else {
        assert c.Literal?;
      }
    }
    References.ChildrenSettle(e, a, b);
  }

  /** As the clock goes from one instant to another with no boundary of the expression
      between, the expression keeps its value or error. */
  lemma {:induction false} ClockSettles(e: Expr, a: Env, b: Env, bound: seq<string>, before: string, after: string,
                                        from: Timestamp, to: Timestamp)
    requires ClockSafe(e, bound) && SameButClock(a, b, bound, before, after) && TellsTime(a.host)
    requires Quiet(e, from, to) && Passes(before, after, from, to)
    ensures Eval(e, a) == Eval(e, b)
    decreases e, 1
  {
    if Path(e).Some? {
      ChainSettles(e, a, b, bound, before, after);
    } else if NowTest(e) {
      if "env" in bound {
        ShadowedTest(e, a, b, bound, before, after);
      } else {
        TestSettles(e, a, b, before, after, from, to);
      }
    } else {
      QuietParts(e, from, to);
      if e.Comprehension? {
        ComprehensionCase(e, a, b, bound, before, after, from, to);
      } else {
        forall c | c in References.Children(e) ensures Eval(c, a) == Eval(c, b) {
          ClockSettles(c, a, b, bound, before, after, from, to);
        }
        References.ChildrenSettle(e, a, b);
      }
    }
  }

  lemma BindKeeps(a: Env, b: Env, bound: seq<string>, before: string, after: string, name: string, v: Json)
    requires SameButClock(a, b, bound, before, after)
    ensures SameButClock(a.(vars := a.vars[name := v]), b.(vars := b.vars[name := v]), bound + [name], before, after)
  {
  }

  lemma LoopKeeps(e: Expr, item: Item, accu: Json, a: Env, b: Env, bound: seq<string>, before: string, after: string)
    requires e.Comprehension? && SameButClock(a, b, bound, before, after)
    ensures SameButClock(LoopEnv(e, item, accu, a), LoopEnv(e, item, accu, b), References.LoopScope(e, bound), before,
                         after)
  {
    var one := if e.iterVar2.None? then item.only else item.first;
    var a1, b1 := a.(vars := a.vars[e.iterVar := one]), b.(vars := b.vars[e.iterVar := one]);
    BindKeeps(a, b, bound, before, after, e.iterVar, one);
    if e.iterVar2.None? {
      BindKeeps(a1, b1, bound + [e.iterVar], before, after, e.accuVar, accu);
      assert References.LoopScope(e, bound) == bound + [e.iterVar] + [e.accuVar];
    } else {
      var two := e.iterVar2.value;
      BindKeeps(a1, b1, bound + [e.iterVar], before, after, two, item.second);
      BindKeeps(a1.(vars := a1.vars[two := item.second]), b1.(vars := b1.vars[two := item.second]),
                bound + [e.iterVar] + [two], before, after, e.accuVar, accu);
    }
  }

  lemma ComprehensionCase(e: Expr, a: Env, b: Env, bound: seq<string>, before: string, after: string, from: Timestamp,
                          to: Timestamp)
    requires e.Comprehension? && ClockSafe(e, bound) && SameButClock(a, b, bound, before, after) && TellsTime(a.host)
    requires Path(e).None? && !NowTest(e)
    requires (forall c | c in References.Children(e) :: Quiet(c, from, to)) && Passes(before, after, from, to)
    ensures Eval(e, a) == Eval(e, b)
    decreases e, 0, 1
  {
    QuietPieces(e, from, to);
    ClockSettles(e.iterRange, a, b, bound, before, after, from, to);
    ClockSettles(e.accuInit, a, b, bound, before, after, from, to);
    LoopsSettle(e, a, b, bound, before, after, from, to);
    ResultsSettle(e, a, b, bound, before, after, from, to);
    References.ComprehensionSettles(e, a, b);
  }

  lemma QuietPieces(e: Expr, from: Timestamp, to: Timestamp)
    requires e.Comprehension? && forall c | c in References.Children(e) :: Quiet(c, from, to)
    ensures Quiet(e.iterRange, from, to) && Quiet(e.accuInit, from, to) && Quiet(e.result, from, to)
    ensures Quiet(e.loopCond, from, to) && Quiet(e.loopStep, from, to)
  {
    var children := References.Children(e);
    assert children[0] == e.iterRange && children[1] == e.accuInit && children[4] == e.result;
    assert children[2] == e.loopCond && children[3] == e.loopStep;
  }

  lemma LoopsSettle(e: Expr, a: Env, b: Env, bound: seq<string>, before: string, after: string, from: Timestamp,
                    to: Timestamp)
    requires e.Comprehension? && SameButClock(a, b, bound, before, after) && TellsTime(a.host)
    requires Passes(before, after, from, to)
    requires ClockSafe(e.loopCond, References.LoopScope(e, bound))
    requires ClockSafe(e.loopStep, References.LoopScope(e, bound))
    requires Quiet(e.loopCond, from, to) && Quiet(e.loopStep, from, to)
    ensures forall items: seq<Item>, accu :: Iterate(e, items, accu, a) == Iterate(e, items, accu, b)
    decreases e, 0, 0, 1
  {
    forall item, accu
      ensures Eval(e.loopCond, LoopEnv(e, item, accu, a)) == Eval(e.loopCond, LoopEnv(e, item, accu, b))
      ensures Eval(e.loopStep, LoopEnv(e, item, accu, a)) == Eval(e.loopStep, LoopEnv(e, item, accu, b))
    {
      RoundSettles(e, item, accu, a, b, bound, before, after, from, to);
    }
    forall items: seq<Item>, accu ensures Iterate(e, items, accu, a) == Iterate(e, items, accu, b) {
      LoopSettles(e, items, accu, a, b);
    }
  }

  lemma ResultsSettle(e: Expr, a: Env, b: Env, bound: seq<string>, before: string, after: string, from: Timestamp,
                      to: Timestamp)
    requires e.Comprehension? && SameButClock(a, b, bound, before, after) && TellsTime(a.host)
    requires Passes(before, after, from, to)
    requires ClockSafe(e.result, bound + [e.accuVar]) && Quiet(e.result, from, to)
    ensures forall accu ::
              Eval(e.result, References.WithAccu(e, accu, a)) ==
              Eval(e.result, References.WithAccu(e, accu, b))
    decreases e, 0, 0
  {
    forall accu
      ensures Eval(e.result, References.WithAccu(e, accu, a)) == Eval(e.result, References.WithAccu(e, accu, b)) {
      BindKeeps(a, b, bound, before, after, e.accuVar, accu);
      ClockSettles(e.result, References.WithAccu(e, accu, a), References.WithAccu(e, accu, b), bound + [e.accuVar],
                   before, after, from, to);
    }
  }

  /** One round of the loop. */
  lemma RoundSettles(e: Expr, item: Item, accu: Json, a: Env, b: Env, bound: seq<string>, before: string, after: string,
                     from: Timestamp, to: Timestamp)
    requires e.Comprehension? && SameButClock(a, b, bound, before, after) && TellsTime(a.host)
    requires Passes(before, after, from, to)
    requires ClockSafe(e.loopCond, References.LoopScope(e, bound))
    requires ClockSafe(e.loopStep, References.LoopScope(e, bound))
    requires Quiet(e.loopCond, from, to) && Quiet(e.loopStep, from, to)
    ensures Eval(e.loopCond, LoopEnv(e, item, accu, a)) == Eval(e.loopCond, LoopEnv(e, item, accu, b))
    ensures Eval(e.loopStep, LoopEnv(e, item, accu, a)) == Eval(e.loopStep, LoopEnv(e, item, accu, b))
    decreases e, 0, 0, 0
  {
    var la, lb := LoopEnv(e, item, accu, a), LoopEnv(e, item, accu, b);
    var inner := References.LoopScope(e, bound);
    LoopKeeps(e, item, accu, a, b, bound, before, after);
    ClockSettles(e.loopCond, la, lb, inner, before, after, from, to);
    ClockSettles(e.loopStep, la, lb, inner, before, after, from, to);
  }

  lemma {:induction false} LoopSettles(e: Expr, items: seq<Item>, accu: Json, a: Env, b: Env)
    requires e.Comprehension?
    requires forall item, accu ::
               Eval(e.loopCond, LoopEnv(e, item, accu, a)) ==
               Eval(e.loopCond, LoopEnv(e, item, accu, b))
    requires forall item, accu ::
               Eval(e.loopStep, LoopEnv(e, item, accu, a)) ==
               Eval(e.loopStep, LoopEnv(e, item, accu, b))
    ensures Iterate(e, items, accu, a) == Iterate(e, items, accu, b)
    decreases |items|
  {
    if |items| > 0 {
      var next := Eval(e.loopStep, LoopEnv(e, items[0], accu, a));
      if next.Success? {
        LoopSettles(e, items[1..], next.value, a, b);
      }
    }
  }

  // ---- A whole package ----

  lemma OnlyClockDiffers(w: World, now: string, entry: Option<Json>, target: Option<Id>,
                         variables: map<string, Json>, lists: map<string, Json>)
    ensures SameButClock(EnvOf(w, entry, target, variables, lists),
                         EnvOf(w.(now := now), entry, target, variables, lists),
                         [], w.now, now)
  {
    var a, b := EnvOf(w, entry, target, variables, lists), EnvOf(w.(now := now), entry, target, variables, lists);
    var x, y := a.vars["env"], b.vars["env"];
    assert IsClock(x, w.now) && IsClock(y, now);
    assert x.fields - {"now"} == y.fields - {"now"};
    assert a.vars.Keys == {"context", "entry", "env", "variables", "lists"} == b.vars.Keys;
  }

  lemma ClockMeaning(w: World, now: string, e: Expression, from: Timestamp, to: Timestamp)
    requires Passes(w.now, now, from, to) && TellsTime(w.host)
    requires ClockSafe(e.ast, []) && Quiet(e.ast, from, to)
    ensures SameMeaning(w, w.(now := now), e)
  {
    var later := w.(now := now);
    forall entry, target, variables, lists
      ensures Eval(e.ast, EnvOf(w, entry, target, variables, lists)) ==
              Eval(e.ast, EnvOf(later, entry, target, variables, lists))
    {
      OnlyClockDiffers(w, now, entry, target, variables, lists);
      ClockSettles(e.ast, EnvOf(w, entry, target, variables, lists), EnvOf(later, entry, target, variables, lists),
                   [], w.now, now, from, to);
    }
  }

  /** Behaviour changes only at collected boundaries. As long as no boundary of a
      variable, or of anything it references, falls between two instants, it resolves
      at both with the same value, error and trace. */
  lemma NothingChangesBetweenBoundaries(w: World, now: string, ids: set<Id>, id: Id, resolving: set<Id>,
                                        from: Timestamp, to: Timestamp)
    requires Passes(w.now, now, from, to) && TellsTime(w.host) && id in ids && Closed(w.package, ids)
    requires forall v | v in ids && v in w.package.variables ::
               forall e | e in ExpressionsOf(w.package.variables[v]) :: ClockSafe(e.ast, []) && Quiet(e.ast, from, to)
    ensures Guarded(w, id, resolving) == Guarded(w.(now := now), id, resolving)
    ensures TraceOf(w, id, Look(w, resolving)) == TraceOf(w.(now := now), id, Look(w.(now := now), resolving))
  {
    var later := w.(now := now);
    forall v | v in ids && v in w.package.variables
      ensures forall e | e in ExpressionsOf(w.package.variables[v]) :: SameMeaning(w, later, e)
    {
      forall e | e in ExpressionsOf(w.package.variables[v]) ensures SameMeaning(w, later, e) {
        ClockMeaning(w, now, e, from, to);
      }
    }
    AlikeResolveAlike(w, later, ids, id, resolving);
  }

  // ---- Boundaries are real, and which are missed ----

  lemma CallFlips(host: Host, name: string, before: string, after: string, instant: string, from: Timestamp,
                  to: Timestamp)
    requires TellsTime(host) && name in TIME_COMPARISONS && Passes(before, after, from, to)
    requires Parse(instant).Some? && Before(from, Parse(instant).value) && Before(Parse(instant).value, to)
    ensures var x, y := host.call(name, [String(before), String(instant)]),
            host.call(name, [String(after), String(instant)]);
            x.Success? && y.Success? && x != y
    ensures var x, y := host.call(name, [String(instant), String(before)]),
            host.call(name, [String(instant), String(after)]);
            x.Success? && y.Success? && x != y
  {
  }

  /** A test that was collected does change at its boundary. */
  lemma BoundaryFlips(e: Expr, boundary: Boundary, a: Env, b: Env, before: string, after: string, from: Timestamp,
                      to: Timestamp)
    requires NowTest(e) && e.function_ in TIME_COMPARISONS && |e.args| == 2 && boundary in OwnBoundaries(e)
    requires Passes(before, after, from, to) && TellsTime(a.host) && Clocks(a, b, before, after)
    requires Before(from, boundary.timestamp) && Before(boundary.timestamp, to)
    ensures Eval(e, a).Success? && Eval(e, b).Success? && Eval(e, a) != Eval(e, b)
  {
    PairTest(e);
    var instant := PairReads(e.function_, e.args[0], e.args[1], a, b, before, after);
    OwnBoundary(e.function_, e.args[0], e.args[1], boundary, instant);
    CallFlips(a.host, e.function_, before, after, instant.value.text, from, to);
  }

  lemma OwnBoundary(name: string, x: Expr, y: Expr, boundary: Boundary, instant: Expr)
    requires (IsEnvNow(x) && IsInstant(y)) || (IsInstant(x) && IsEnvNow(y))
    requires (instant == x || instant == y) && IsInstant(instant) && boundary in PairBoundary(name, x, y)
    ensures Parse(instant.value.text) == Some(boundary.timestamp)
  {
    PairHasLiteral(name, x, y, instant);
  }

  // ---- Windows ----

  /** An argument whose instant is known once the clock is: the clock, or a readable
      instant. */
  predicate Timed(e: Expr) {
    IsNow(e) || (IsInstant(e) && Parse(e.value.text).Some?)
  }

  predicate TimedWindow(e: Expr) {
    e.Call? && e.function_ in TIME_WINDOWS && |e.args| == 3 && Timed(e.args[0]) && Timed(e.args[1]) && Timed(e.args[2])
  }

  function InstantOf(e: Expr, clock: Timestamp): Timestamp
    requires Timed(e)
  {
    if IsNow(e) then clock else Parse(e.value.text).value
  }

  /** What a window answers as the clock reads `clock`. */
  function WindowAt(e: Expr, clock: Timestamp): bool
    requires TimedWindow(e)
  {
    && !Before(InstantOf(e.args[0], clock), InstantOf(e.args[1], clock))
    && Before(InstantOf(e.args[0], clock), InstantOf(e.args[2], clock))
  }

  function TextOf(e: Expr, now: string): string
    requires Timed(e)
  {
    if IsNow(e) then now else e.value.text
  }

  lemma TimedReads(e: Expr, env: Env, now: string, clock: Timestamp)
    requires Timed(e) && "env" in env.vars && IsClock(env.vars["env"], now) && Parse(now) == Some(clock)
    ensures Eval(e, env) == Success(String(TextOf(e, now))) && Parse(TextOf(e, now)) == Some(InstantOf(e, clock))
  {
    if IsNow(e) {
      NowReads(e, env, now);
    }
  }

  lemma WindowEvaluatesTo(name: string, x: Expr, lo: Expr, hi: Expr, env: Env, a: string, b: string, c: string,
                          at: Timestamp, start: Timestamp, end: Timestamp)
    requires name in TIME_WINDOWS && TellsWindows(env.host)
    requires Eval(x, env) == Success(String(a)) && Eval(lo, env) == Success(String(b))
    requires Eval(hi, env) == Success(String(c))
    requires Parse(a) == Some(at) && Parse(b) == Some(start) && Parse(c) == Some(end)
    ensures Eval(Call(name, [x, lo, hi]), env) == Success(Bool(!Before(at, start) && Before(at, end)))
  {
    ThreeArguments(name, x, lo, hi, env, a, b, c);
    HostAnswers(env.host, name, a, b, c);
  }

  /** Evaluating a window gives just that answer. */
  lemma WindowEvaluates(e: Expr, env: Env, now: string, clock: Timestamp)
    requires TimedWindow(e) && TellsWindows(env.host)
    requires "env" in env.vars && IsClock(env.vars["env"], now) && Parse(now) == Some(clock)
    ensures Eval(e, env) == Success(Bool(WindowAt(e, clock)))
  {
    assert e == Call(e.function_, [e.args[0], e.args[1], e.args[2]]);
    WindowReadsAt(e.function_, e.args[0], e.args[1], e.args[2], env, now, clock);
  }

  lemma WindowReadsAt(name: string, x: Expr, lo: Expr, hi: Expr, env: Env, now: string, clock: Timestamp)
    requires name in TIME_WINDOWS && Timed(x) && Timed(lo) && Timed(hi) && TellsWindows(env.host)
    requires "env" in env.vars && IsClock(env.vars["env"], now) && Parse(now) == Some(clock)
    ensures Eval(Call(name, [x, lo, hi]), env) ==
            Success(Bool(!Before(InstantOf(x, clock), InstantOf(lo, clock))
                         && Before(InstantOf(x, clock), InstantOf(hi, clock))))
  {
    TimedReads(x, env, now, clock);
    TimedReads(lo, env, now, clock);
    TimedReads(hi, env, now, clock);
    WindowEvaluatesTo(name, x, lo, hi, env, TextOf(x, now), TextOf(lo, now), TextOf(hi, now),
                      InstantOf(x, clock), InstantOf(lo, clock), InstantOf(hi, clock));
  }

  /** As the clock goes on, the answer changes at most at the window's own collected
      boundaries. */
  ghost predicate WindowKept(e: Expr)
    requires TimedWindow(e)
  {
    forall from, to | !Before(to, from) && QuietHere(e, from, to) :: WindowAt(e, from) == WindowAt(e, to)
  }

  predicate QuietHere(e: Expr, from: Timestamp, to: Timestamp) {
    forall b | b in OwnBoundaries(e) :: Outside(b.timestamp, from, to)
  }

  /** Its boundaries say all there is to say about a window exactly when the clock is
      its first argument, or is both of its bounds or neither, or when the bound that
      is not the clock keeps the window shut. */
  predicate WindowCollected(e: Expr)
    requires TimedWindow(e)
  {
    var x, lo, hi := e.args[0], e.args[1], e.args[2];
    || IsNow(x)
    || (IsNow(lo) <==> IsNow(hi))
    || (IsNow(lo) && !Before(Parse(x.value.text).value, Parse(hi.value.text).value))
    || (IsNow(hi) && Before(Parse(x.value.text).value, Parse(lo.value.text).value))
  }

  lemma WindowBoundaries(e: Expr)
    requires TimedWindow(e)
    ensures OwnBoundaries(e) ==
            if IsNow(e.args[0]) then LiteralBoundary(e.function_, e.args[1]) + LiteralBoundary(e.function_, e.args[2])
              else []
  {
    if IsInstant(e.args[0]) {
      InstantIsNotNow(e.args[0]);
    }
  }

  lemma WindowsCollectedExactly(e: Expr)
    requires TimedWindow(e)
    ensures WindowKept(e) <==> WindowCollected(e)
  {
    WindowBoundaries(e);
    if WindowCollected(e) {
      forall from, to | !Before(to, from) && QuietHere(e, from, to) ensures WindowAt(e, from) == WindowAt(e, to) {
        CollectedWindowKept(e, from, to);
      }
    } else {
      MissedWindowFlips(e);
    }
  }

  lemma EdgeOutside(e: Expr, edge: Expr, from: Timestamp, to: Timestamp)
    requires TimedWindow(e) && IsNow(e.args[0]) && QuietHere(e, from, to)
    requires (edge == e.args[1] || edge == e.args[2]) && !IsNow(edge)
    ensures Outside(Parse(edge.value.text).value, from, to)
  {
    WindowBoundaries(e);
    InstantIsNotNow(edge);
    var b := Boundary(edge.value.text, Parse(edge.value.text).value, e.function_);
    assert LiteralBoundary(e.function_, edge) == [b];
    assert b in OwnBoundaries(e);
  }

  lemma CollectedWindowKept(e: Expr, from: Timestamp, to: Timestamp)
    requires TimedWindow(e) && WindowCollected(e) && !Before(to, from) && QuietHere(e, from, to)
    ensures WindowAt(e, from) == WindowAt(e, to)
  {
    if IsNow(e.args[0]) {
      if !IsNow(e.args[1]) {
        EdgeOutside(e, e.args[1], from, to);
      }
      if !IsNow(e.args[2]) {
        EdgeOutside(e, e.args[2], from, to);
      }
    }
  }

  /** The clock as one bound of a window that can open: it closes, or opens, as the
      clock passes the tested instant. */
  lemma MissedWindowFlips(e: Expr)
    requires TimedWindow(e) && !WindowCollected(e)
    ensures !WindowKept(e)
  {
    WindowBoundaries(e);
    var at := Parse(e.args[0].value.text).value;
    var later := Timestamp(at.seconds + 1, 0);
    assert QuietHere(e, at, later) && !Before(later, at);
    assert WindowAt(e, at) != WindowAt(e, later);
  }

  /** Both edges of a collected window flip it exactly when the window is not empty:
      the answer at the start differs from every answer before it, and the answer at
      the end from every answer inside. */
  lemma WindowEdgesFlip(e: Expr)
    requires TimedWindow(e) && IsNow(e.args[0]) && !IsNow(e.args[1]) && !IsNow(e.args[2])
    ensures var start, end := Parse(e.args[1].value.text).value, Parse(e.args[2].value.text).value;
            && (forall t :: WindowAt(e, t) <==> !Before(t, start) && Before(t, end))
            && (forall t | Before(t, start) :: WindowAt(e, t) != WindowAt(e, start) <==> Before(start, end))
            && (Before(start, end) <==> exists t :: WindowAt(e, t) != WindowAt(e, end))
  {
    var start, end := Parse(e.args[1].value.text).value, Parse(e.args[2].value.text).value;
    assert forall t :: WindowAt(e, t) <==> !Before(t, start) && Before(t, end);
    if Before(start, end) {
      assert WindowAt(e, start) != WindowAt(e, end);
    }
  }

  const ENV_NOW: Expr := Select(Ident("env"), "now", false)

  /** The clock as the start of a window is not collected, though the window closes as
      the clock passes the tested instant. */
  lemma ClockAsWindowStartMissed(name: string, at: string, end: string, before: Timestamp, after: Timestamp)
    requires name in TIME_WINDOWS && Parse(at).Some? && Parse(end).Some? && Before(Parse(at).value, Parse(end).value)
    requires Before(before, Parse(at).value) && Before(Parse(at).value, after)
    ensures var e := Call(name, [Literal(String(at)), ENV_NOW, Literal(String(end))]);
            TimedWindow(e) && Boundaries(e) == [] && WindowAt(e, before) && !WindowAt(e, after)
  {
    ThisIsNow();
    LiteralIsTimed(at);
    LiteralIsTimed(end);
    NoneBelow(Call(name, [Literal(String(at)), ENV_NOW, Literal(String(end))]));
  }

  /** Nor is the clock as its end, though the window opens. */
  lemma ClockAsWindowEndMissed(name: string, at: string, start: string, before: Timestamp, after: Timestamp)
    requires name in TIME_WINDOWS && Parse(at).Some? && Parse(start).Some?
    requires !Before(Parse(at).value, Parse(start).value)
    requires Before(before, Parse(at).value) && Before(Parse(at).value, after)
    ensures var e := Call(name, [Literal(String(at)), Literal(String(start)), ENV_NOW]);
            TimedWindow(e) && Boundaries(e) == [] && !WindowAt(e, before) && WindowAt(e, after)
  {
    ThisIsNow();
    LiteralIsTimed(at);
    LiteralIsTimed(start);
    NoneBelow(Call(name, [Literal(String(at)), Literal(String(start)), ENV_NOW]));
  }

  lemma LiteralIsTimed(text: string)
    requires Parse(text).Some?
    ensures var e := Literal(String(text));
            && Timed(e) && !IsEnvNow(e)
            && forall clock :: InstantOf(e, clock) == Parse(text).value
  {
    InstantIsNotNow(Literal(String(text)));
  }

  lemma ThisIsNow()
    ensures IsNow(ENV_NOW) && Boundaries(ENV_NOW) == []
  {
    var none: seq<string> := [];
    assert Path(Ident("env")) == Some(("env", none)) && none + ["now"] == ["now"];
    assert Path(ENV_NOW) == Some(("env", ["now"]));
    assert References.Children(ENV_NOW) == [Ident("env")];
    NoneInIdent("env");
    FlatEmpty(ChildBoundaries(ENV_NOW));
  }

  lemma NoneInIdent(name: string)
    ensures Boundaries(Ident(name)) == []
  {
    assert References.Children(Ident(name)) == [];
  }

  lemma NoneInLiteral(e: Expr)
    requires e.Literal?
    ensures Boundaries(e) == []
  {
    assert References.Children(e) == [];
  }

  lemma NoneBelow(e: Expr)
    requires e.Call? && e.function_ in TIME_WINDOWS && |e.args| == 3 && !IsEnvNow(e.args[0])
    requires forall x | x in e.args :: x.Literal? || x == ENV_NOW
    ensures Boundaries(e) == []
  {
    assert References.Children(e) == e.args;
    forall i | 0 <= i < 3 ensures ChildBoundaries(e)[i] == [] {
      assert e.args[i] in e.args;
      NoneIn(e.args[i]);
    }
    FlatEmpty(ChildBoundaries(e));
    NoneOwn(e);
  }

  lemma NoneOwn(e: Expr)
    requires e.Call? && e.function_ in TIME_WINDOWS && |e.args| == 3 && !IsEnvNow(e.args[0])
    ensures OwnBoundaries(e) == []
  {
    assert e.function_ !in TIME_COMPARISONS;
  }

  lemma NoneIn(x: Expr)
    requires x.Literal? || x == ENV_NOW
    ensures Boundaries(x) == []
  {
    if x.Literal? {
      NoneInLiteral(x);
    } else {
      ThisIsNow();
    }
  }
}
