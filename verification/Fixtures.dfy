/** Candidate contexts for a variable's cases, driven through the variables its
    conditions reference. */
module Fixtures {
  import opened Prelude
  import opened Json
  import opened Package
  import opened Semantics
  import opened Contexts
  import opened Synthesis
  import opened CycleDetection
  import opened Dependence
  import Cel
  import References
  import Order
  import opened QueryPipeline
  import opened QueryMeaning

  // ---- Condition variables ----

  /** The conditions of a boolean variable whose default is false and whose rules all
      yield true. A variable that resolves some other way shows no rules, so one with
      a false default passes too. */
  function ConditionRules(resolution: Resolution): Option<seq<Expression>> {
    match resolution
    case Rules(default, rules) =>
      if default.value == Bool(false) && forall r | r in rules :: r.value.value == Bool(true) then Some(Whens(rules))
      else None
    case ByQuery(query) => if query.default.Some? && query.default.value.value == Bool(false) then Some([]) else None
    case ByAllocation(allocation) => if allocation.default.value == Bool(false) then Some([]) else None
  }

  function Whens(rules: seq<Rule>): (r: seq<Expression>)
    ensures |r| == |rules| && forall i | 0 <= i < |r| :: r[i] == rules[i].when
  {
    seq(|rules|, i requires 0 <= i < |rules| => rules[i].when)
  }

  function Asts(whens: seq<Expression>): (r: seq<Cel.Expr>)
    ensures |r| == |whens| && forall i | 0 <= i < |r| :: r[i] == whens[i].ast
  {
    seq(|whens|, i requires 0 <= i < |whens| => whens[i].ast)
  }

  type Conditions = map<Id, seq<Expression>>

  function ConditionsOf(p: Package): Conditions {
    map id | id in p.variables && ConditionRules(p.variables[id]).Some? :: ConditionRules(p.variables[id]).value
  }

  const NO_LISTS: ListSource := (id: string) => None

  /** Drives a condition variable: true fires one of its rules, false keeps every rule
      quiet. `stack` holds the variables already being driven. */
  function Drive(conditions: Conditions, host: Cel.Host, id: Id, want: bool, stack: set<Id>): Option<Json>
    decreases |conditions.Keys - stack|, 0
  {
    if id in stack || id !in conditions then None
    else
      FewerLeft(conditions.Keys, stack, id);
      var operands := SynthesizeEach(Asts(conditions[id]), want, host, Driver(conditions, host, stack + {id}),
                                     NO_LISTS);
      SynthesizeJunction(operands, !want)
  }

  function Driver(conditions: Conditions, host: Cel.Host, stack: set<Id>): VariableSource
    decreases |conditions.Keys - stack|, 1
  {
    (id: Id, want: bool) => Drive(conditions, host, id, want, stack)
  }

  // ---- What evaluation binds ----

  lemma {:induction false} ListsBind(w: World, ids: seq<Id>, i: nat, bound: map<string, Json>)
    requires i <= |ids|
    ensures BindLists(w, ids, i, bound).Success? <==> forall j | i <= j < |ids| :: ids[j] in w.package.lists
    ensures BindLists(w, ids, i, bound).Success? ==>
              var r := BindLists(w, ids, i, bound).value;
              bound.Keys <= r.Keys && forall j | i <= j < |ids| :: ids[j] in r
    decreases |ids| - i
  {
    if i < |ids| && ids[i] in w.package.lists {
      ListsBind(w, ids, i + 1, bound[ids[i] := Array(w.package.lists[ids[i]])]);
    }
  }

  /** A source of contexts is sound for a lookup when a context it hands out for one of
      the aims, if the facts extend it, leaves the looked-up variable only that value. */
  ghost predicate SourceSound(w: World, variable: VariableSource, look: Lookup, aims: Aims) {
    forall id, want |
      && (id, want) in aims && variable(id, want).Some?
      && Extends(variable(id, want).value, w.context) && look(id).Success? ::
      look(id).value == Bool(want)
  }

  /** A driven condition evaluates to the wanted boolean, or fails to evaluate
      because a reference does not resolve. */
  lemma DrivenCondition(w: World, e: Expression, want: bool, variable: VariableSource, look: Lookup, aims: Aims)
    requires Plain(e.ast, want, aims) && SourceSound(w, variable, look, aims)
    requires SynthesizeBool(e.ast, want, w.host, variable, NO_LISTS).Some?
    requires Extends(SynthesizeBool(e.ast, want, w.host, variable, NO_LISTS).value, w.context)
    ensures var r := EvaluateBool(w, e, None, None, look);
            r.Success? ==> r.value == want
    ensures EvaluateBool(w, e, None, None, look).Success? <==>
            (forall id | id in VariableIds(e) :: look(id).Success?) && forall id | id in ListIds(e) ::
                id in w.package.lists
  {
    BindSucceeds(VariableIds(e), 0, map[], look);
    ListsBind(w, ListIds(e), 0, map[]);
    var variables := BindFrom(VariableIds(e), 0, map[], look);
    var lists := BindLists(w, ListIds(e), 0, map[]);
    if variables.Success? && lists.Success? {
      BoundForces(w, e, want, variable, look, aims, variables.value, lists.value);
    }
  }

  lemma BoundForces(w: World, e: Expression, want: bool, variable: VariableSource, look: Lookup, aims: Aims,
                    variables: map<string, Json>, lists: map<string, Json>)
    requires Plain(e.ast, want, aims) && SourceSound(w, variable, look, aims)
    requires SynthesizeBool(e.ast, want, w.host, variable, NO_LISTS).Some?
    requires Extends(SynthesizeBool(e.ast, want, w.host, variable, NO_LISTS).value, w.context)
    requires BindFrom(VariableIds(e), 0, map[], look) == Success(variables)
    requires BindLists(w, ListIds(e), 0, map[]) == Success(lists)
    ensures Cel.Eval(e.ast, EnvOf(w, None, None, variables, lists)) == Success(Bool(want))
  {
    BindBinds(VariableIds(e), 0, map[], look);
    ListsBind(w, ListIds(e), 0, map[]);
    var env := EnvOf(w, None, None, variables, lists);
    assert Resolved(e.ast, env) by {
      forall id | id in References.VariablesOf(References.Reads(e.ast)) ensures id in variables {
        assert id in VariableIds(e);
      }
      forall id | id in References.ListsOf(References.Reads(e.ast)) ensures id in lists {
        assert id in ListIds(e);
      }
    }
    SynthesisForces(e.ast, want, variable, NO_LISTS, aims, env);
  }

  lemma {:induction false} BindSucceeds(ids: seq<Id>, i: nat, bound: map<string, Json>, look: Lookup)
    requires i <= |ids|
    ensures BindFrom(ids, i, bound, look).Success? <==> forall j | i <= j < |ids| :: look(ids[j]).Success?
    decreases |ids| - i
  {
    if i < |ids| && look(ids[i]).Success? {
      BindSucceeds(ids, i + 1, bound[ids[i] := look(ids[i]).value], look);
    }
  }

  // ---- Condition variables compose ----

  lemma {:induction false} QuietRules(w: World, id: Id, default: SelectedValue, rules: seq<Rule>, i: nat,
                                      tried: seq<RuleTrace>, look: Lookup)
    requires i <= |rules|
    requires forall j | i <= j < |rules| :: EvaluateBool(w, rules[j].when, None, None, look) != Success(true)
    ensures var r := RulesFrom(w, id, default, rules, i, tried, look);
            r.Success? ==> r.value.value == default.value
    decreases |rules| - i
  {
    if i < |rules| && EvaluateBool(w, rules[i].when, None, None, look).Success? {
      QuietRules(w, id, default, rules, i + 1, tried + [RuleTraceOf(rules[i], false)], look);
    }
  }

  predicate AllYield(rules: seq<Rule>, value: Json) {
    forall j | 0 <= j < |rules| :: rules[j].value.value == value
  }

  lemma {:induction false} FiringRule(w: World, id: Id, default: SelectedValue, rules: seq<Rule>, i: nat, k: nat,
                                      tried: seq<RuleTrace>, look: Lookup, value: Json)
    requires i <= k < |rules| && AllYield(rules, value)
    requires EvaluateBool(w, rules[k].when, None, None, look) != Success(false)
    ensures ValueOf(RulesFrom(w, id, default, rules, i, tried, look)).Success? ==>
              ValueOf(RulesFrom(w, id, default, rules, i, tried, look)) == Success(value)
    decreases k - i
  {
    RulesOnce(w, id, default, rules, i, tried, look);
    if i < k && EvaluateBool(w, rules[i].when, None, None, look) == Success(false) {
      FiringRule(w, id, default, rules, i + 1, k, tried + [RuleTraceOf(rules[i], false)], look, value);
    }
  }

  /** The conditions the claim is about: among `aims`, which hold whatever driving one
      of them drives in turn, each is rightly driven in one step. */
  ghost predicate Composable(w: World, conditions: Conditions, aims: Aims) {
    && conditions == ConditionsOf(w.package)
    && forall id, want | (id, want) in aims && id in conditions :: Drivable(w.package.variables[id], want, aims)
  }

  /** Rules are written in shapes the inversion reads rightly for the wanted value: all
      of them to keep quiet, and to fire one, those it may settle on. Whatever decides
      without rules cannot be driven to true; an allocation keeps its false default if no
      bucket is given anything else. */
  ghost predicate Drivable(resolution: Resolution, want: bool, aims: Aims) {
    match resolution
    case Rules(_, rules) => PlainEach(Asts(Whens(rules)), want, !want, aims)
    case ByAllocation(allocation) => want || !Misdriven(allocation)
    case ByQuery(_) => want
  }

  /** A driven condition variable never resolves to the opposite value, in any
      extension of the context, at any depth of references, whatever is in progress. */
  lemma {:induction false} ConditionsCompose(w: World, conditions: Conditions, aims: Aims, id: Id, want: bool,
                                             stack: set<Id>, resolving: set<Id>)
    requires Composable(w, conditions, aims) && (id, want) in aims
    requires Drive(conditions, w.host, id, want, stack).Some?
    requires Extends(Drive(conditions, w.host, id, want, stack).value, w.context)
    ensures Guarded(w, id, resolving).Success? ==> Guarded(w, id, resolving) == Success(Bool(want))
    decreases |conditions.Keys - stack|, 0
  {
    if id !in resolving {
      FewerLeft(conditions.Keys, stack, id);
      DriverSound(w, conditions, aims, stack + {id}, resolving + {id});
      DrivenVariable(w, conditions, aims, id, want, stack, Look(w, resolving + {id}));
      GuardedStep(w, id, resolving);
    }
  }

  lemma DriverSound(w: World, conditions: Conditions, aims: Aims, stack: set<Id>, resolving: set<Id>)
    requires Composable(w, conditions, aims)
    ensures SourceSound(w, Driver(conditions, w.host, stack), Look(w, resolving), aims)
    decreases |conditions.Keys - stack|, 1
  {
    var driver, look := Driver(conditions, w.host, stack), Look(w, resolving);
    forall id, want |
      && (id, want) in aims && driver(id, want).Some?
      && Extends(driver(id, want).value, w.context) && look(id).Success?
      ensures look(id).value == Bool(want)
    {
      ConditionsCompose(w, conditions, aims, id, want, stack, resolving);
    }
  }

  lemma DrivenVariable(w: World, conditions: Conditions, aims: Aims, id: Id, want: bool, stack: set<Id>, look: Lookup)
    requires Composable(w, conditions, aims) && (id, want) in aims
    requires Drive(conditions, w.host, id, want, stack).Some?
    requires Extends(Drive(conditions, w.host, id, want, stack).value, w.context)
    requires SourceSound(w, Driver(conditions, w.host, stack + {id}), look, aims)
    ensures ValueOf(TraceOf(w, id, look)).Success? ==> ValueOf(TraceOf(w, id, look)) == Success(Bool(want))
  {
    assert Drivable(w.package.variables[id], want, aims);
    match w.package.variables[id]
    case Rules(_, _) => DrivenRules(w, conditions, aims, id, want, stack, look);
    case ByAllocation(allocation) =>
      assert conditions[id] == [];
      AllocationStaysFalse(w, id, allocation, look);
    case ByQuery(_) => assert false;
  }

  lemma YieldTrue(w: World, id: Id, default: SelectedValue, rules: seq<Rule>)
    requires id in ConditionsOf(w.package) && w.package.variables[id] == Rules(default, rules)
    ensures AllYield(rules, Bool(true))
  {
    forall j | 0 <= j < |rules| ensures rules[j].value.value == Bool(true) {
      assert rules[j] in rules;
    }
  }

  lemma DrivenRules(w: World, conditions: Conditions, aims: Aims, id: Id, want: bool, stack: set<Id>, look: Lookup)
    requires conditions == ConditionsOf(w.package) && id in conditions
    requires w.package.variables[id].Rules? && Drivable(w.package.variables[id], want, aims)
    requires Drive(conditions, w.host, id, want, stack).Some?
    requires Extends(Drive(conditions, w.host, id, want, stack).value, w.context)
    requires SourceSound(w, Driver(conditions, w.host, stack + {id}), look, aims)
    ensures ValueOf(TraceOf(w, id, look)).Success? ==> ValueOf(TraceOf(w, id, look)) == Success(Bool(want))
  {
    var Rules(default, rules) := w.package.variables[id];
    var whens := conditions[id];
    assert whens == Whens(rules);
    var driver := Driver(conditions, w.host, stack + {id});
    var operands := SynthesizeEach(Asts(whens), want, w.host, driver, NO_LISTS);
    var c := Drive(conditions, w.host, id, want, stack).value;
    assert SynthesizeJunction(operands, !want) == Some(c);
    if want {
      var k := SettledOperand(Asts(whens), want, driver, NO_LISTS, w.host);
      DrivenCondition(w, whens[k], true, driver, look, aims);
      YieldTrue(w, id, default, rules);
      FiringRule(w, id, default, rules, 0, k, [], look, Bool(true));
    } else {
      forall j | 0 <= j < |rules| ensures EvaluateBool(w, rules[j].when, None, None, look) != Success(true) {
        MergeAllBounds(operands, j);
        ExtendsTransitive(operands[j].value, c, w.context);
        DrivenCondition(w, whens[j], false, driver, look, aims);
      }
      QuietRules(w, id, default, rules, 0, [], look);
    }
  }

  /** The same for a top-level resolution of the driven variable. */
  lemma DrivenVariableStandsAlone(w: World, aims: Aims, id: Id, want: bool)
    requires Composable(w, ConditionsOf(w.package), aims) && (id, want) in aims
    requires Drive(ConditionsOf(w.package), w.host, id, want, {}).Some?
    requires Extends(Drive(ConditionsOf(w.package), w.host, id, want, {}).value, w.context)
    ensures Standalone(w, id).Success? ==> Standalone(w, id).value.value == Bool(want)
  {
    var conditions := ConditionsOf(w.package);
    DriverSound(w, conditions, aims, {} + {id}, {});
    DrivenVariable(w, conditions, aims, id, want, {}, Look(w, {}));
  }

  /** An allocation variable with a false default passes as a condition with no rules,
      so nothing at all is asked of the context to keep it false; an enrolled unit
      can still be given true. */
  lemma AllocationConditionMisread(w: World, id: Id, a: Allocation, arm: Arm)
    requires id in w.package.variables && w.package.variables[id] == ByAllocation(a)
    requires a.default.value == Bool(false) && a.running && a.eligibility.None? && a.arms == [arm]
    requires a.unit.ast == Cel.Literal(String("unit")) && arm.start == 0 && arm.end + 1 >= a.buckets
    requires arm.value.value == Bool(true)
    ensures Drive(ConditionsOf(w.package), w.host, id, false, {}) == Some(EMPTY)
    ensures Standalone(w, id).Success? && Standalone(w, id).value.value == Bool(true)
  {
    assert ConditionsOf(w.package)[id] == [];
    assert References.Reads(a.unit.ast) == {};
    assert VariableIds(a.unit) == [] && ListIds(a.unit) == [];
    assert Evaluate(w, a.unit, None, None, Look(w, {})) == Success(String("unit"));
    assert ArmFor(a.arms, AllocationBucket(w, a, String("unit"))) == Some(arm);
  }

  /** Some bucket of a running allocation is given something other than false. */
  ghost predicate Misdriven(a: Allocation) {
    a.running && exists bucket: nat :: bucket < a.buckets && GivesTruth(a, bucket)
  }

  predicate GivesTruth(a: Allocation, bucket: nat) {
    ArmFor(a.arms, bucket).Some? && ArmFor(a.arms, bucket).value.value.value != Bool(false)
  }

  /** Whatever decides without rules passes as a condition that nothing drives to true
      and the empty context drives to false. */
  lemma RuleLessDrive(w: World, id: Id)
    requires id in w.package.variables && !w.package.variables[id].Rules? && id in ConditionsOf(w.package)
    ensures Drive(ConditionsOf(w.package), w.host, id, false, {}) == Some(EMPTY)
    ensures Drive(ConditionsOf(w.package), w.host, id, true, {}) == None
  {
    assert ConditionsOf(w.package)[id] == [];
  }

  function WithHash(w: World, hash: (string, Json) -> nat): World {
    w.(host := w.host.(hash := hash))
  }

  /** Never resolves to anything but false. */
  ghost predicate StaysFalse(w: World, id: Id, look: Lookup) {
    TraceOf(w, id, look).Success? ==> TraceOf(w, id, look).value.value == Bool(false)
  }

  /** An allocation that is not running, or gives no bucket anything else, keeps its
      false default in every context. */
  lemma AllocationStaysFalse(w: World, id: Id, a: Allocation, look: Lookup)
    requires id in w.package.variables && w.package.variables[id] == ByAllocation(a)
    requires a.default.value == Bool(false) && !Misdriven(a)
    ensures StaysFalse(w, id, look)
  {
    var unit := Evaluate(w, a.unit, None, None, look);
    if a.running && unit.Success? {
      var bucket := AllocationBucket(w, a, unit.value);
      assert bucket < a.buckets && !GivesTruth(a, bucket);
    }
  }

  /** The unit is eligible and evaluates, whatever the hash. */
  ghost predicate Enrols(w: World, a: Allocation, look: Lookup, unit: Json) {
    forall hash ::
      && Eligible(WithHash(w, hash), a, look) == Success(true)
      && Evaluate(WithHash(w, hash), a.unit, None, None, look) == Success(unit)
  }

  /** Driving an allocation to false is right, whatever the hash, exactly when it is
      not running or no bucket is given anything else, for a unit that is eligible. */
  lemma AllocationDriveExact(w: World, id: Id, a: Allocation, look: Lookup, unit: Json)
    requires id in w.package.variables && w.package.variables[id] == ByAllocation(a) && a.default.value == Bool(false)
    requires a.running ==> Enrols(w, a, look, unit)
    ensures (forall hash :: StaysFalse(WithHash(w, hash), id, look)) <==> !Misdriven(a)
  {
    if Misdriven(a) {
      var bucket: nat :| bucket < a.buckets && GivesTruth(a, bucket);
      var hash := HashReaches(w, id, a, look, unit, bucket);
      assert !StaysFalse(WithHash(w, hash), id, look);
    } else {
      forall hash ensures StaysFalse(WithHash(w, hash), id, look) {
        AllocationStaysFalse(WithHash(w, hash), id, a, look);
      }
    }
  }

  lemma HashReaches(w: World, id: Id, a: Allocation, look: Lookup, unit: Json, bucket: nat)
    returns (hash: (string, Json) -> nat)
    requires id in w.package.variables && w.package.variables[id] == ByAllocation(a)
    requires a.running && Enrols(w, a, look, unit) && bucket < a.buckets && GivesTruth(a, bucket)
    ensures !StaysFalse(WithHash(w, hash), id, look)
  {
    hash := (salt: string, value: Json) => bucket;
    assert AllocationBucket(WithHash(w, hash), a, unit) == bucket;
    EligibleReaches(WithHash(w, hash), id, a, look, unit);
  }

  lemma EligibleReaches(w: World, id: Id, a: Allocation, look: Lookup, unit: Json)
    requires id in w.package.variables && w.package.variables[id] == ByAllocation(a)
    requires a.running && Eligible(w, a, look) == Success(true)
    requires Evaluate(w, a.unit, None, None, look) == Success(unit)
    requires GivesTruth(a, AllocationBucket(w, a, unit))
    ensures TraceOf(w, id, look).Success? && TraceOf(w, id, look).value.value != Bool(false)
  {
  }

  /** Nothing passes the filter, or nothing is let through, or the one entry picked is
      itself false. */
  ghost predicate PicksFalse(w: World, query: Query, look: Lookup)
    requires query.catalog in w.package.catalogs
  {
    var entries := w.package.catalogs[query.catalog];
    var candidates := Candidates(w, query.catalog, entries);
    || query.limit == Some(0)
    || (forall c | c in candidates :: !Passes(w, query, c, look))
    || (query.single && exists c :: First(w, query, candidates, c, look) && RawEntry(entries, c.0) == Bool(false))
  }

  /** A query with a false default is driven to false by the empty context too. Where it
      resolves, it is false exactly when it picks nothing or a single false entry. */
  lemma {:induction false} QueryDriveExact(w: World, id: Id, query: Query, look: Lookup)
    requires id in w.package.variables && w.package.variables[id] == ByQuery(query)
    requires query.default.Some? && query.default.value.value == Bool(false) && TraceOf(w, id, look).Success?
    ensures query.catalog in w.package.catalogs
    ensures Drive(ConditionsOf(w.package), w.host, id, false, {}) == Some(EMPTY)
    ensures TraceOf(w, id, look).value.value == Bool(false) <==> PicksFalse(w, query, look)
  {
    RuleLessDrive(w, id);
    var entries := w.package.catalogs[query.catalog];
    var candidates := Candidates(w, query.catalog, entries);
    var names := QueryNames(w, id, query, MatchesFrom(w, query, candidates, 0, [], look).value, look).value;
    CandidatesAscend(w, query.catalog, entries);
    PicksFirst(w, id, query, candidates, look, names);
    if names != [] {
      var c :| First(w, query, candidates, c, look) && c.0 == names[0];
      forall d | First(w, query, candidates, d, look) ensures d == c {
        FirstUnique(w, query, candidates, c, d, look);
      }
    }
  }

  /** Such a query over one entry, without a filter, is that entry and not false. */
  lemma QueryConditionMisread(w: World, id: Id, query: Query, name: string, entry: Json)
    requires id in w.package.variables && w.package.variables[id] == ByQuery(query)
    requires query == Query("c", false, None, None, false, None, Some(LiteralValue(Bool(false))))
    requires "c" in w.package.catalogs && w.package.catalogs["c"] == map[name := entry]
    ensures Drive(ConditionsOf(w.package), w.host, id, false, {}) == Some(EMPTY)
    ensures Standalone(w, id).Success? && Standalone(w, id).value.value.Array?
  {
    RuleLessDrive(w, id);
    var entries := w.package.catalogs["c"];
    var names := Order.Sorted(entries.Keys);
    Order.AscendingUnique(names, [name]);
    var candidates := Candidates(w, "c", entries);
    assert |candidates| == 1 && candidates[0].0 == name;
    MatchesOnce(w, query, candidates, 0, [], Look(w, {}));
    assert MatchesFrom(w, query, candidates, 1, [] + [candidates[0]], Look(w, {})) == Success([] + [candidates[0]]);
    assert QueryNames(w, id, query, [] + [candidates[0]], Look(w, {})).value == [name];
  }

  // ---- Contexts for one variable ----

  /** A rule whose condition does not parse has none here, and cannot be inverted. */
  function Synth(conditions: Conditions, host: Cel.Host, when: Option<Expression>, want: bool): Option<Json> {
    if when.None? then None else SynthesizeBool(when.value.ast, want, host, Driver(conditions, host, {}), NO_LISTS)
  }

  function SynthEach(conditions: Conditions, host: Cel.Host, whens: seq<Option<Expression>>, want: bool)
    : (r: seq<Option<Json>>)
    ensures |r| == |whens| && forall i | 0 <= i < |r| :: r[i] == Synth(conditions, host, whens[i], want)
  {
    seq(|whens|, i requires 0 <= i < |whens| => Synth(conditions, host, whens[i], want))
  }

  /** Every rule false at once. */
  function DefaultContext(conditions: Conditions, host: Cel.Host, whens: seq<Option<Expression>>): Option<Json> {
    MergeAll(SynthEach(conditions, host, whens, false))
  }

  /** Earlier rules false, this one true. */
  function FiringContext(conditions: Conditions, host: Cel.Host, whens: seq<Option<Expression>>, index: nat)
    : Option<Json>
    requires index < |whens|
  {
    MergeAll(SynthEach(conditions, host, whens[..index], false) + [Synth(conditions, host, whens[index], true)])
  }

  function Listed(c: Option<Json>): seq<Json> {
    if c.Some? then [c.value] else []
  }

  /** The contexts pushed for a variable, in order: the gate of an allocation both
      ways, the default, then two for each rule. */
  function VariableContexts(conditions: Conditions, host: Cel.Host, gate: Option<Expression>,
                            whens: seq<Option<Expression>>, n: nat)
    : seq<Json>
    requires n <= |whens|
  {
    if n == 0 then GateContexts(conditions, host, gate) + Listed(DefaultContext(conditions, host, whens))
    else VariableContexts(conditions, host, gate, whens, n - 1) + RuleContexts(conditions, host, whens, n - 1)
  }

  function GateContexts(conditions: Conditions, host: Cel.Host, gate: Option<Expression>): seq<Json> {
    if gate.None? then []
    else Listed(Synth(conditions, host, gate, true)) + Listed(Synth(conditions, host, gate, false))
  }

  function RuleContexts(conditions: Conditions, host: Cel.Host, whens: seq<Option<Expression>>, index: nat): seq<Json>
    requires index < |whens|
  {
    Listed(Synth(conditions, host, whens[index], true)) + Listed(FiringContext(conditions, host, whens, index))
  }

  method PushVariableContexts(conditions: Conditions, host: Cel.Host, gate: Option<Expression>,
                              whens: seq<Option<Expression>>)
    returns (out: seq<Json>)
    ensures out == VariableContexts(conditions, host, gate, whens, |whens|)
  {
    out := PushGateContexts(conditions, host, gate);
    var quiet := MergeContexts(SynthEach(conditions, host, whens, false));
    if quiet.Some? {
      out := out + [quiet.value];
    }
    for index := 0 to |whens|
      invariant out == VariableContexts(conditions, host, gate, whens, index)
    {
      var pushed := PushRuleContexts(conditions, host, whens, index);
      out := out + pushed;
    }
  }

  method PushGateContexts(conditions: Conditions, host: Cel.Host, gate: Option<Expression>) returns (out: seq<Json>)
    ensures out == GateContexts(conditions, host, gate)
  {
    out := [];
    if gate.Some? {
      var enrolled := Synth(conditions, host, gate, true);
      if enrolled.Some? {
        out := out + [enrolled.value];
      }
      var refused := Synth(conditions, host, gate, false);
      if refused.Some? {
        out := out + [refused.value];
      }
    }
  }

  method PushRuleContexts(conditions: Conditions, host: Cel.Host, whens: seq<Option<Expression>>, index: nat)
    returns (out: seq<Json>)
    requires index < |whens|
    ensures out == RuleContexts(conditions, host, whens, index)
  {
    out := [];
    var bare := Synth(conditions, host, whens[index], true);
    if bare.Some? {
      out := out + [bare.value];
    }
    var firing := MergeContexts(SynthEach(conditions, host, whens[..index], false) + [bare]);
    if firing.Some? {
      out := out + [firing.value];
    }
  }

  method MergeContexts(contexts: seq<Option<Json>>) returns (r: Option<Json>)
    ensures r == MergeAll(contexts)
  {
    var merged := map[];
    for i := 0 to |contexts|
      invariant MergeAll(contexts[..i]) == Some(Object(merged))
    {
      MergeAllStep(contexts, i);
      if contexts[i].None? || !contexts[i].value.Object? {
        MergeAllFails(contexts, i + 1);
        return None;
      }
      var next := MergeObjects(merged, contexts[i].value.fields);
      if next.None? {
        MergeAllFails(contexts, i + 1);
        return None;
      }
      merged := next.value;
    }
    assert contexts[..|contexts|] == contexts;
    r := Some(Object(merged));
  }

  // ---- Fixture contexts hit their case ----

  /** A condition the claim is about: what it names resolves, and it is written in shapes
      the inversion reads rightly for the wanted outcome. */
  ghost predicate Settles(w: World, e: Expression, want: bool, aims: Aims, look: Lookup) {
    && Plain(e.ast, want, aims)
    && (forall id | id in VariableIds(e) :: look(id).Success?)
    && forall id | id in ListIds(e) :: id in w.package.lists
  }

  lemma SettledCondition(w: World, conditions: Conditions, e: Expression, want: bool, aims: Aims, resolving: set<Id>)
    requires Composable(w, conditions, aims) && Settles(w, e, want, aims, Look(w, resolving))
    requires Synth(conditions, w.host, Some(e), want).Some?
    requires Extends(Synth(conditions, w.host, Some(e), want).value, w.context)
    ensures EvaluateBool(w, e, None, None, Look(w, resolving)) == Success(want)
  {
    DriverSound(w, conditions, aims, {}, resolving);
    DrivenCondition(w, e, want, Driver(conditions, w.host, {}), Look(w, resolving), aims);
  }

  /** In any extension of an allocation's gate context the unit is eligible, or is not
      and gets the default without enrolling, as that context was made for. */
  lemma GateContextsHit(w: World, conditions: Conditions, id: Id, a: Allocation, want: bool, aims: Aims,
                        resolving: set<Id>)
    requires Composable(w, conditions, aims) && a.running && a.eligibility.Some?
    requires Settles(w, a.eligibility.value, want, aims, Look(w, resolving))
    requires Synth(conditions, w.host, a.eligibility, want).Some?
    requires Extends(Synth(conditions, w.host, a.eligibility, want).value, w.context)
    ensures Synth(conditions, w.host, a.eligibility, want).value in GateContexts(conditions, w.host, a.eligibility)
    ensures var look := Look(w, resolving);
            && Eligible(w, a, look) == Success(want)
            && (!want ==> AllocationSelect(w, id, a, look) == Success(AllocationTraceOf(w, id, a, None)))
            && (want && Evaluate(w, a.unit, None, None, look).Success? ==>
                  AllocationSelect(w, id, a, look)
                  == Success(AllocationTraceOf(w, id, a, Some(Evaluate(w, a.unit, None, None, look).value))))
  {
    SettledCondition(w, conditions, a.eligibility.value, want, aims, resolving);
  }

  function Conditioned(rules: seq<Rule>): (r: seq<Option<Expression>>)
    ensures |r| == |rules| && forall i | 0 <= i < |r| :: r[i] == Some(rules[i].when)
  {
    seq(|rules|, i requires 0 <= i < |rules| => Some(rules[i].when))
  }

  function Unmatched(rules: seq<Rule>): (r: seq<RuleTrace>)
    ensures |r| == |rules|
  {
    seq(|rules|, i requires 0 <= i < |rules| => RuleTraceOf(rules[i], false))
  }

  lemma UnmatchedStep(rules: seq<Rule>, i: nat)
    requires i < |rules|
    ensures Unmatched(rules[..i + 1]) == Unmatched(rules[..i]) + [RuleTraceOf(rules[i], false)]
  {
  }

  lemma {:induction false} QuietPrefix(w: World, id: Id, default: SelectedValue, rules: seq<Rule>, i: nat, k: nat,
                                       look: Lookup)
    requires i <= k <= |rules|
    requires forall j | i <= j < k :: EvaluateBool(w, rules[j].when, None, None, look) == Success(false)
    ensures RulesFrom(w, id, default, rules, i, Unmatched(rules[..i]), look)
         == RulesFrom(w, id, default, rules, k, Unmatched(rules[..k]), look)
    decreases k - i
  {
    if i < k {
      UnmatchedStep(rules, i);
      RulesOnce(w, id, default, rules, i, Unmatched(rules[..i]), look);
      QuietPrefix(w, id, default, rules, i + 1, k, look);
    }
  }

  /** In any extension of the default context, every rule is tried and none matches. */
  lemma DefaultContextHits(w: World, conditions: Conditions, id: Id, default: SelectedValue, rules: seq<Rule>,
                           aims: Aims,
                           resolving: set<Id>)
    requires Composable(w, conditions, aims)
    requires forall r | r in rules :: Settles(w, r.when, false, aims, Look(w, resolving))
    requires DefaultContext(conditions, w.host, Conditioned(rules)).Some?
    requires Extends(DefaultContext(conditions, w.host, Conditioned(rules)).value, w.context)
    ensures RulesFrom(w, id, default, rules, 0, [], Look(w, resolving))
         == Success(TraceFor(id, default, default, Unmatched(rules)))
  {
    var look := Look(w, resolving);
    var operands := SynthEach(conditions, w.host, Conditioned(rules), false);
    forall j | 0 <= j < |rules| ensures EvaluateBool(w, rules[j].when, None, None, look) == Success(false) {
      assert rules[j] in rules;
      MergeAllBounds(operands, j);
      ExtendsTransitive(operands[j].value, MergeAll(operands).value, w.context);
      SettledCondition(w, conditions, rules[j].when, false, aims, resolving);
    }
    QuietPrefix(w, id, default, rules, 0, |rules|, look);
    assert rules[..|rules|] == rules;
    assert Unmatched(rules[..0]) == [];
  }

  /** In any extension of a rule's firing context, exactly the rules up to it are
      tried, only it matches, and its value is the one chosen. */
  lemma FiringContextHits(w: World, conditions: Conditions, id: Id, default: SelectedValue, rules: seq<Rule>,
                          index: nat, aims: Aims, resolving: set<Id>)
    requires Composable(w, conditions, aims) && index < |rules|
    requires forall j | 0 <= j <= index :: Settles(w, rules[j].when, j == index, aims, Look(w, resolving))
    requires FiringContext(conditions, w.host, Conditioned(rules), index).Some?
    requires Extends(FiringContext(conditions, w.host, Conditioned(rules), index).value, w.context)
    ensures RulesFrom(w, id, default, rules, 0, [], Look(w, resolving)) ==
            Success(TraceFor(id, rules[index].value, default,
                             Unmatched(rules[..index]) + [RuleTraceOf(rules[index], true)]))
  {
    var look, whens := Look(w, resolving), Conditioned(rules);
    var operands := SynthEach(conditions, w.host, whens[..index], false)
        + [Synth(conditions, w.host, whens[index], true)];
    var c := MergeAll(operands).value;
    forall j | 0 <= j <= index ensures EvaluateBool(w, rules[j].when, None, None, look) == Success(j == index) {
      MergeAllBounds(operands, j);
      ExtendsTransitive(operands[j].value, c, w.context);
      SettledCondition(w, conditions, rules[j].when, j == index, aims, resolving);
    }
    QuietPrefix(w, id, default, rules, 0, index, look);
    assert Unmatched(rules[..0]) == [];
  }
}
