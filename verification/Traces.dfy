/** What a trace says of a resolution, policy captures, and the buckets of a layer. */
module Traces {
  import opened Prelude
  import opened Json
  import opened Package
  import opened QueryPipeline
  import opened Semantics
  import opened Resolver

  // ---- Sources ----

  /** The source names where the value was selected from. */
  predicate Names(source: Source, selected: SelectedValue) {
    match selected
    case LiteralValue(_) => source.FromLiteral?
    case CatalogValue(catalog, name, _) => source.FromCatalog? && source.catalog == catalog && source.entry == name
    case CatalogValues(catalog, names, _) =>
      source.FromCatalogArray? && source.catalog == catalog && source.entries == names
  }

  /** The trace is of this variable, chose `chosen`, and would have fallen back on `default`. */
  predicate Tells(w: World, id: Id, trace: Trace, chosen: SelectedValue, default: SelectedValue) {
    && trace.id == id
    && trace.value == chosen.value && Names(trace.source, chosen)
    && trace.defaultValue == default.value && Names(trace.defaultSource, default)
    && (if id in w.package.provenance then trace.provenance == Some(w.package.provenance[id])
        else trace.provenance.None?)
  }

  // ---- Rules ----

  /** What one tried rule leaves in the trace. */
  predicate TellsRule(rule: Rule, step: RuleTrace, matched: bool) {
    && step.index == rule.index && step.condition == rule.when.source && step.value == rule.value.value
    && Names(step.source, rule.value) && step.matched == matched
  }

  /** The rule that decides: the first that is not simply false, or none of them. */
  ghost predicate Decides(w: World, rules: seq<Rule>, k: nat, look: Lookup) {
    && k <= |rules|
    && (forall j | 0 <= j < k :: EvaluateBool(w, rules[j].when, None, None, look) == Success(false))
    && (k < |rules| ==> EvaluateBool(w, rules[k].when, None, None, look) != Success(false))
  }

  lemma DecidesOnce(w: World, rules: seq<Rule>, k: nat, l: nat, look: Lookup)
    requires Decides(w, rules, k, look) && Decides(w, rules, l, look)
    ensures k == l
  {
  }

  ghost predicate TellsRules(rules: seq<Rule>, steps: seq<RuleTrace>, k: nat)
    requires k <= |rules|
  {
    && |steps| == (if k < |rules| then k + 1 else k)
    && forall j | 0 <= j < |steps| :: TellsRule(rules[j], steps[j], j == k)
  }

  lemma {:induction false} RulesTell(w: World, id: Id, default: SelectedValue, rules: seq<Rule>, i: nat,
                                     tried: seq<RuleTrace>, look: Lookup) returns (k: nat)
    requires i == |tried| <= |rules| && (forall j | 0 <= j < i :: TellsRule(rules[j], tried[j], false))
    requires forall j | 0 <= j < i :: EvaluateBool(w, rules[j].when, None, None, look) == Success(false)
    ensures Decides(w, rules, k, look)
    ensures var r := RulesFrom(w, id, default, rules, i, tried, look);
            if k < |rules| && EvaluateBool(w, rules[k].when, None, None, look).Failure? then
              r == Failure(EvaluateBool(w, rules[k].when, None, None, look).error)
            else
              r.Success? && TellsRules(rules, r.value.rules, k)
              && r.value == TraceFor(id, if k < |rules| then rules[k].value else default, default, r.value.rules)
    decreases |rules| - i
  {
    k := i;
    if i < |rules| {
      RulesOnce(w, id, default, rules, i, tried, look);
      if EvaluateBool(w, rules[i].when, None, None, look) == Success(false) {
        k := RulesTell(w, id, default, rules, i + 1, tried + [RuleTraceOf(rules[i], false)], look);
      }
    }
  }

  /** A variable that resolves by rules takes the value of the first rule that holds, or
      its default; its trace lists the rules up to it, the last alone as matched. A
      condition met before that cannot be judged fails it with its error. */
  lemma {:induction false} RulesTraceTells(w: World, id: Id, default: SelectedValue, rules: seq<Rule>, look: Lookup,
                                           k: nat)
    requires id in w.package.variables && w.package.variables[id] == Rules(default, rules) && Decides(w, rules, k, look)
    ensures var r := TraceOf(w, id, look);
            if k < |rules| && EvaluateBool(w, rules[k].when, None, None, look).Failure? then
              r == Failure(EvaluateBool(w, rules[k].when, None, None, look).error)
            else
              && r.Success? && TellsRules(rules, r.value.rules, k) && r.value.allocation.None?
              && Tells(w, id, r.value, if k < |rules| then rules[k].value else default, default)
  {
    var l := RulesTell(w, id, default, rules, 0, [], look);
    DecidesOnce(w, rules, k, l, look);
  }

  // ---- Queries ----

  /** A query variable's trace has what the query selected; without a declared default,
      null stands in its place. */
  lemma QueryTraceTells(w: World, id: Id, query: Query, look: Lookup)
    requires id in w.package.variables && w.package.variables[id] == ByQuery(query)
    ensures TraceOf(w, id, look).Success? <==> QuerySelect(w, id, query, look).Success?
    ensures TraceOf(w, id, look).Success? ==>
              var trace, selected := TraceOf(w, id, look).value, QuerySelect(w, id, query, look).value;
              && Tells(w, id, trace, selected, if query.default.Some? then query.default.value else LiteralValue(Null))
              && trace.rules == [] && trace.allocation.None?
    ensures TraceOf(w, id, look).Failure? ==>
              TraceOf(w, id, look) == Failure(QuerySelect(w, id, query, look).error)
  {
  }

  // ---- Allocations ----

  /** Whether the unit takes part. */
  ghost predicate TakesPart(w: World, a: Allocation, look: Lookup) {
    && a.running
    && (a.eligibility.None?
        || Evaluate(w, a.eligibility.value, None, None, look) == Success(Bool(true)))
  }

  lemma {:induction false} ArmIsFirst(arms: seq<Arm>, bucket: nat) returns (i: nat)
    ensures i <= |arms| && (forall j | 0 <= j < i :: !Holds(arms[j], bucket))
    ensures i < |arms| ==> Holds(arms[i], bucket) && ArmFor(arms, bucket) == Some(arms[i])
    ensures i == |arms| ==> ArmFor(arms, bucket).None?
  {
    if |arms| == 0 || arms[0].start <= bucket <= arms[0].end {
      i := 0;
    } else {
      var k := ArmIsFirst(arms[1..], bucket);
      i := k + 1;
    }
  }

  /** Only a unit that takes part is enrolled; its bucket is its hash in the layer, below
      the layer's size, and the first arm that holds the bucket gives the value. */
  lemma {:induction false} AllocationTraceTells(w: World, id: Id, a: Allocation, look: Lookup) returns (i: nat)
    requires id in w.package.variables && w.package.variables[id] == ByAllocation(a)
    requires TraceOf(w, id, look).Success?
    ensures var trace := TraceOf(w, id, look).value;
            && trace.allocation.Some? && trace.rules == []
            && var told := trace.allocation.value;
               && told.layer == a.layer && told.allocation == a.allocation
               && (told.enrolled <==> TakesPart(w, a, look))
               && (!told.enrolled ==> told.bucket.None? && told.arm.None? && Tells(w, id, trace, a.default, a.default))
               && (told.enrolled ==>
                     && Evaluate(w, a.unit, None, None, look).Success?
                     && told.bucket == Some(w.host.hash(a.layer,
                                                        Evaluate(w, a.unit, None, None, look).value) % a.buckets)
                     && i <= |a.arms| && (forall j | 0 <= j < i :: !Holds(a.arms[j], told.bucket.value))
                     && (if i < |a.arms| then
                           && Holds(a.arms[i], told.bucket.value) && told.arm == Some(a.arms[i].name)
                           && Tells(w, id, trace, a.arms[i].value, a.default)
                         else told.arm.None? && Tells(w, id, trace, a.default, a.default)))
  {
    var trace := TraceOf(w, id, look).value;
    i := 0;
    if trace.allocation.value.enrolled {
      i := ArmIsFirst(a.arms, trace.allocation.value.bucket.value);
    }
  }

  ghost predicate ArmsApart(a: Allocation, b: Allocation) {
    forall x, y, bucket: nat | x in a.arms && y in b.arms :: !(Holds(x, bucket) && Holds(y, bucket))
  }

  /** Two allocations of one layer see a unit in the same bucket, so where their arms are
      apart it gets an arm of at most one of them. */
  lemma {:induction false} LayerExcludes(w: World, v: Id, a: Allocation, u: Id, b: Allocation, look: Lookup)
    requires v in w.package.variables && w.package.variables[v] == ByAllocation(a)
    requires u in w.package.variables && w.package.variables[u] == ByAllocation(b)
    requires a.layer == b.layer && a.buckets == b.buckets
    requires Evaluate(w, a.unit, None, None, look) == Evaluate(w, b.unit, None, None, look)
    requires TraceOf(w, v, look).Success? && TraceOf(w, u, look).Success?
    ensures var x, y := TraceOf(w, v, look).value.allocation.value, TraceOf(w, u, look).value.allocation.value;
            && (x.enrolled && y.enrolled ==> x.bucket == y.bucket)
            && (ArmsApart(a, b) ==> x.arm.None? || y.arm.None?)
  {
    var i := AllocationTraceTells(w, v, a, look);
    var j := AllocationTraceTells(w, u, b, look);
    var x, y := TraceOf(w, v, look).value.allocation.value, TraceOf(w, u, look).value.allocation.value;
    if ArmsApart(a, b) && x.arm.Some? && y.arm.Some? {
      NotBoth(a, b, i, j, x.bucket.value);
    }
  }

  lemma NotBoth(a: Allocation, b: Allocation, i: nat, j: nat, bucket: nat)
    requires ArmsApart(a, b) && i < |a.arms| && j < |b.arms|
    ensures !(Holds(a.arms[i], bucket) && Holds(b.arms[j], bucket))
  {
    assert a.arms[i] in a.arms && b.arms[j] in b.arms;
  }

  // ---- Policies ----

  ghost predicate Asks(w: World, target: Id, i: nat, look: Lookup)
    requires i < |w.package.policies|
  {
    Evaluate(w, w.package.policies[i], None, Some(target), look) == Success(Bool(true))
  }

  lemma {:induction false} PoliciesExact(w: World, target: Id, i: nat, matched: seq<nat>, look: Lookup)
    requires i <= |w.package.policies| && forall k | 0 <= k < |matched| :: matched[k] < i
    requires forall k, l | 0 <= k < l < |matched| :: matched[k] < matched[l]
    requires forall p | 0 <= p < i :: p in matched <==> Asks(w, target, p, look)
    requires PoliciesFrom(w, target, i, matched, look).Success?
    ensures var r := PoliciesFrom(w, target, i, matched, look).value;
            && (forall k, l | 0 <= k < l < |r| :: r[k] < r[l])
            && forall p: nat :: p in r <==> p < |w.package.policies| && Asks(w, target, p, look)
    decreases |w.package.policies| - i
  {
    if i < |w.package.policies| {
      var holds := EvaluateBool(w, w.package.policies[i], None, Some(target), look).value;
      var next := if holds then matched + [i] else matched;
      assert i !in matched;
      forall p | 0 <= p < i + 1 ensures p in next <==> Asks(w, target, p, look) {
      }
      PoliciesExact(w, target, i + 1, next, look);
    }
  }

  /** The policies that capture a resolution are exactly those true of it, with the
      variable being resolved as their target, in ascending order. */
  lemma CapturesExactly(w: World, target: Id, look: Lookup)
    requires PoliciesFrom(w, target, 0, [], look).Success?
    ensures var r := PoliciesFrom(w, target, 0, [], look).value;
            && (forall k, l | 0 <= k < l < |r| :: r[k] < r[l])
            && forall p: nat :: p in r <==> p < |w.package.policies| && Asks(w, target, p, look)
  {
    PoliciesExact(w, target, 0, [], look);
  }

  lemma PolicyOnce(w: World, target: Id, i: nat, matched: seq<nat>, look: Lookup)
    requires i < |w.package.policies|
    ensures PoliciesFrom(w, target, i, matched, look) ==
            match EvaluateBool(w, w.package.policies[i], None, Some(target), look)
            case Failure(error) => Failure(error)
            case Success(holds) => PoliciesFrom(w, target, i + 1, if holds then matched + [i] else matched, look)
  {
  }

  /** A policy that has no verdict fails the capture, with the error of the first. */
  lemma {:induction false} PolicyFails(w: World, target: Id, i: nat, k: nat, matched: seq<nat>, look: Lookup,
                                       error: Error)
    requires i <= k < |w.package.policies|
    requires EvaluateBool(w, w.package.policies[k], None, Some(target), look) == Failure(error)
    requires forall j | i <= j < k :: EvaluateBool(w, w.package.policies[j], None, Some(target), look).Success?
    ensures PoliciesFrom(w, target, i, matched, look) == Failure(error)
    decreases k - i
  {
    PolicyOnce(w, target, i, matched, look);
    if i < k {
      var holds := EvaluateBool(w, w.package.policies[i], None, Some(target), look).value;
      PolicyFails(w, target, i + 1, k, if holds then matched + [i] else matched, look, error);
    }
  }
}
