/** What a resolution can depend on. Two worlds whose expressions mean the same, over
    a set of variables closed under references, resolve all of them alike. */
module Dependence {
  import opened Prelude
  import opened Json
  import opened Package
  import opened QueryPipeline
  import opened Semantics
  import Cel
  import References
  import Text

  // ---- Expressions that mean the same ----

  ghost predicate SameMeaning(a: World, b: World, e: Expression) {
    forall entry, target, variables, lists ::
      Cel.Eval(e.ast, EnvOf(a, entry, target, variables, lists)) ==
          Cel.Eval(e.ast, EnvOf(b, entry, target, variables, lists))
  }

  function OptionalExpression(e: Option<Expression>): set<Expression> {
    if e.Some? then {e.value} else {}
  }

  function ExpressionsOf(resolution: Resolution): set<Expression> {
    match resolution
    case Rules(_, rules) => set rule | rule in rules :: rule.when
    case ByQuery(query) => OptionalExpression(query.filter) + OptionalExpression(query.sort)
    case ByAllocation(a) => {a.unit} + OptionalExpression(a.eligibility)
  }

  predicate ReadsWithin(e: Expression, ids: set<Id>) {
    References.VariablesOf(References.Reads(e.ast)) <= ids
  }

  /** Every variable these reference is one of them. */
  ghost predicate Closed(p: Package, ids: set<Id>) {
    forall id | id in ids && id in p.variables :: forall e | e in ExpressionsOf(p.variables[id]) :: ReadsWithin(e, ids)
  }

  ghost predicate Alike(a: World, b: World, ids: set<Id>) {
    && a.package == b.package && a.view == b.view && a.host == b.host
    && Closed(a.package, ids)
    && forall id | id in ids && id in a.package.variables ::
         forall e | e in ExpressionsOf(a.package.variables[id]) :: SameMeaning(a, b, e)
  }

  ghost predicate SameLook(la: Lookup, lb: Lookup, ids: set<Id>) {
    forall id | id in ids :: la(id) == lb(id)
  }

  ghost predicate SameExpression(a: World, b: World, e: Expression, ids: set<Id>) {
    SameMeaning(a, b, e) && ReadsWithin(e, ids)
  }

  lemma {:induction false} BindSame(names: seq<Id>, i: nat, bound: map<string, Json>, la: Lookup, lb: Lookup)
    requires forall id | id in names :: la(id) == lb(id)
    ensures BindFrom(names, i, bound, la) == BindFrom(names, i, bound, lb)
    decreases |names| - i
  {
    if i < |names| {
      assert names[i] in names;
      if la(names[i]).Success? {
        BindSame(names, i + 1, bound[names[i] := la(names[i]).value], la, lb);
      }
    }
  }

  lemma {:induction false} ListsSame(a: World, b: World, names: seq<Id>, i: nat, bound: map<string, Json>)
    requires a.package == b.package
    ensures BindLists(a, names, i, bound) == BindLists(b, names, i, bound)
    decreases |names| - i
  {
    if i < |names| && names[i] in a.package.lists {
      ListsSame(a, b, names, i + 1, bound[names[i] := Array(a.package.lists[names[i]])]);
    }
  }

  lemma EvaluateSame(a: World, b: World, e: Expression, entry: Option<Json>, target: Option<Id>, la: Lookup,
                     lb: Lookup, ids: set<Id>)
    requires a.package == b.package && SameExpression(a, b, e, ids) && SameLook(la, lb, ids)
    ensures Evaluate(a, e, entry, target, la) == Evaluate(b, e, entry, target, lb)
    ensures EvaluateBool(a, e, entry, target, la) == EvaluateBool(b, e, entry, target, lb)
  {
    BindSame(VariableIds(e), 0, map[], la, lb);
    ListsSame(a, b, ListIds(e), 0, map[]);
  }

  lemma {:induction false} RulesSame(a: World, b: World, id: Id, default: SelectedValue, rules: seq<Rule>, i: nat,
                                     tried: seq<RuleTrace>, la: Lookup, lb: Lookup, ids: set<Id>)
    requires a.package == b.package && SameLook(la, lb, ids)
    requires forall rule | rule in rules :: SameExpression(a, b, rule.when, ids)
    ensures RulesFrom(a, id, default, rules, i, tried, la) == RulesFrom(b, id, default, rules, i, tried, lb)
    decreases |rules| - i
  {
    if i < |rules| {
      assert rules[i] in rules;
      EvaluateSame(a, b, rules[i].when, None, None, la, lb, ids);
      RulesSame(a, b, id, default, rules, i + 1, tried + [RuleTraceOf(rules[i], false)], la, lb, ids);
    }
  }

  lemma {:induction false} MatchesSame(a: World, b: World, query: Query, candidates: seq<(string, Json)>, i: nat,
                                       kept: seq<(string, Json)>, la: Lookup, lb: Lookup, ids: set<Id>)
    requires a.package == b.package && SameLook(la, lb, ids)
    requires query.filter.Some? ==> SameExpression(a, b, query.filter.value, ids)
    ensures MatchesFrom(a, query, candidates, i, kept, la) == MatchesFrom(b, query, candidates, i, kept, lb)
    decreases |candidates| - i
  {
    if i < |candidates| {
      if query.filter.Some? {
        EvaluateSame(a, b, query.filter.value, Some(candidates[i].1), None, la, lb, ids);
      }
      MatchesSame(a, b, query, candidates, i + 1, kept, la, lb, ids);
      MatchesSame(a, b, query, candidates, i + 1, kept + [candidates[i]], la, lb, ids);
    }
  }

  lemma {:induction false} KeysSame(a: World, b: World, sort: Expression, matches: seq<(string, Json)>, i: nat,
                                    keyed: seq<Keyed>, la: Lookup, lb: Lookup, ids: set<Id>)
    requires a.package == b.package && SameLook(la, lb, ids) && SameExpression(a, b, sort, ids)
    ensures KeysFrom(a, sort, matches, i, keyed, la) == KeysFrom(b, sort, matches, i, keyed, lb)
    decreases |matches| - i
  {
    if i < |matches| {
      EvaluateSame(a, b, sort, Some(matches[i].1), None, la, lb, ids);
      var key := Evaluate(a, sort, Some(matches[i].1), None, la);
      if key.Success? {
        KeysSame(a, b, sort, matches, i + 1, keyed + [Keyed(key.value, matches[i].0)], la, lb, ids);
      }
    }
  }

  lemma QuerySame(a: World, b: World, id: Id, query: Query, la: Lookup, lb: Lookup, ids: set<Id>)
    requires a.package == b.package && a.view == b.view && SameLook(la, lb, ids)
    requires query.filter.Some? ==> SameExpression(a, b, query.filter.value, ids)
    requires query.sort.Some? ==> SameExpression(a, b, query.sort.value, ids)
    ensures QuerySelect(a, id, query, la) == QuerySelect(b, id, query, lb)
  {
    if query.catalog in a.package.catalogs {
      var entries := a.package.catalogs[query.catalog];
      var candidates := Candidates(a, query.catalog, entries);
      assert candidates == Candidates(b, query.catalog, entries);
      MatchesSame(a, b, query, candidates, 0, [], la, lb, ids);
      var matches := MatchesFrom(a, query, candidates, 0, [], la);
      if matches.Success? && query.sort.Some? {
        KeysSame(a, b, query.sort.value, matches.value, 0, [], la, lb, ids);
      }
    }
  }

  lemma AllocationSame(a: World, b: World, id: Id, allocation: Allocation, la: Lookup, lb: Lookup, ids: set<Id>)
    requires a.package == b.package && a.host == b.host && SameLook(la, lb, ids)
    requires SameExpression(a, b, allocation.unit, ids)
    requires allocation.eligibility.Some? ==> SameExpression(a, b, allocation.eligibility.value, ids)
    ensures AllocationSelect(a, id, allocation, la) == AllocationSelect(b, id, allocation, lb)
  {
    if allocation.eligibility.Some? {
      EvaluateSame(a, b, allocation.eligibility.value, None, None, la, lb, ids);
    }
    EvaluateSame(a, b, allocation.unit, None, None, la, lb, ids);
  }

  lemma TraceSame(a: World, b: World, ids: set<Id>, id: Id, la: Lookup, lb: Lookup)
    requires Alike(a, b, ids) && id in ids && SameLook(la, lb, ids)
    ensures TraceOf(a, id, la) == TraceOf(b, id, lb)
  {
    if id in a.package.variables {
      var resolution := a.package.variables[id];
      forall e | e in ExpressionsOf(resolution) ensures SameExpression(a, b, e, ids) {
      }
      match resolution
      case Rules(default, rules) =>
        forall rule | rule in rules ensures SameExpression(a, b, rule.when, ids) {
          assert rule.when in ExpressionsOf(resolution);
        }
        RulesSame(a, b, id, default, rules, 0, [], la, lb, ids);
      case ByQuery(query) => QuerySame(a, b, id, query, la, lb, ids);
      case ByAllocation(allocation) => AllocationSame(a, b, id, allocation, la, lb, ids);
    }
  }

  lemma {:induction false} GuardedSame(a: World, b: World, ids: set<Id>, id: Id, resolving: set<Id>)
    requires Alike(a, b, ids) && id in ids
    ensures Guarded(a, id, resolving) == Guarded(b, id, resolving)
    decreases |a.package.variables.Keys - resolving|, 0
  {
    if id !in resolving && id in a.package.variables {
      FewerLeft(a.package.variables.Keys, resolving, id);
      LookSame(a, b, ids, resolving + {id});
      TraceSame(a, b, ids, id, Look(a, resolving + {id}), Look(b, resolving + {id}));
    }
  }

  lemma LookSame(a: World, b: World, ids: set<Id>, resolving: set<Id>)
    requires Alike(a, b, ids)
    ensures SameLook(Look(a, resolving), Look(b, resolving), ids)
    decreases |a.package.variables.Keys - resolving|, 1
  {
    forall id | id in ids ensures Look(a, resolving)(id) == Look(b, resolving)(id) {
      GuardedSame(a, b, ids, id, resolving);
    }
  }

  /** Worlds that are alike on a closed set resolve each of its variables with the
      same value, error and trace. */
  lemma AlikeResolveAlike(a: World, b: World, ids: set<Id>, id: Id, resolving: set<Id>)
    requires Alike(a, b, ids) && id in ids
    ensures Guarded(a, id, resolving) == Guarded(b, id, resolving)
    ensures TraceOf(a, id, Look(a, resolving)) == TraceOf(b, id, Look(b, resolving))
  {
    GuardedSame(a, b, ids, id, resolving);
    LookSame(a, b, ids, resolving);
    TraceSame(a, b, ids, id, Look(a, resolving), Look(b, resolving));
  }

  // ---- Context ----

  /** The contexts cannot be told apart along the paths the expression is recorded
      to read. */
  ghost predicate AgreeOnReads(x: Json, y: Json, e: Expression) {
    forall r | r in References.Reads(e.ast) && r.ContextPath? ::
      Walk(x, Text.Split(r.path, '.')) == Walk(y, Text.Split(r.path, '.'))
  }

  lemma ContextAgrees(w: World, context: Json, e: Expression, entry: Option<Json>, target: Option<Id>,
                      variables: map<string, Json>, lists: map<string, Json>)
    requires AgreeOnReads(w.context, context, e)
    ensures References.Agree(EnvOf(w, entry, target, variables, lists),
                             EnvOf(w.(context := context), entry, target, variables, lists),
                             [], References.Reads(e.ast))
  {
    var refs := References.Reads(e.ast);
    var x, y := EnvOf(w, entry, target, variables, lists),
        EnvOf(w.(context := context), entry, target, variables, lists);
    assert x.vars["context"] == w.context && y.vars["context"] == context;
    assert References.SameAlong(x, y, "context", References.PathsInto("context", refs));
  }

  lemma ContextSettles(w: World, context: Json, e: Expression)
    requires References.Analysable(e.ast, []) && AgreeOnReads(w.context, context, e)
    ensures SameMeaning(w, w.(context := context), e)
  {
    forall entry, target, variables, lists
      ensures Cel.Eval(e.ast, EnvOf(w, entry, target, variables, lists))
           == Cel.Eval(e.ast, EnvOf(w.(context := context), entry, target, variables, lists))
    {
      ContextAgrees(w, context, e, entry, target, variables, lists);
      References.ReadsCovered(e.ast, EnvOf(w, entry, target, variables, lists),
                              EnvOf(w.(context := context), entry, target, variables, lists), [],
                                  References.Reads(e.ast));
    }
  }

  /** The recorded paths of a variable and of all it references, however indirectly,
      are the only part of the context its resolution depends on: value, error and
      trace are the same in every context that agrees along them. */
  lemma ContextMattersOnlyAlongReads(w: World, context: Json, ids: set<Id>, id: Id, resolving: set<Id>)
    requires id in ids && Closed(w.package, ids)
    requires forall v | v in ids && v in w.package.variables ::
               forall e | e in ExpressionsOf(w.package.variables[v]) ::
                 References.Analysable(e.ast, []) && AgreeOnReads(w.context, context, e)
    ensures Guarded(w, id, resolving) == Guarded(w.(context := context), id, resolving)
    ensures TraceOf(w, id, Look(w, resolving)) ==
            TraceOf(w.(context := context), id, Look(w.(context := context), resolving))
  {
    var other := w.(context := context);
    forall v | v in ids && v in w.package.variables
      ensures forall e | e in ExpressionsOf(w.package.variables[v]) :: SameMeaning(w, other, e)
    {
      forall e | e in ExpressionsOf(w.package.variables[v]) ensures SameMeaning(w, other, e) {
        ContextSettles(w, context, e);
      }
    }
    AlikeResolveAlike(w, other, ids, id, resolving);
  }

  // ---- Eager binding ----

  lemma SameVariables(bound: map<string, Json>, all: map<string, Json>, refs: References.References)
    requires forall id | id in References.VariablesOf(refs) :: id in bound && id in all && bound[id] == all[id]
    ensures forall p | p in References.PathsInto("variables", refs) :: Walk(Object(bound), p) == Walk(Object(all), p)
  {
    forall p | p in References.PathsInto("variables", refs) ensures Walk(Object(bound), p) == Walk(Object(all), p) {
      var r :| r in refs && r.VariableId? && p == [r.id];
      assert r.id in References.VariablesOf(refs);
      assert p[1..] == [];
    }
  }

  lemma MoreBound(w: World, e: Expression, entry: Option<Json>, target: Option<Id>,
                  bound: map<string, Json>, all: map<string, Json>, lists: map<string, Json>)
    requires References.Analysable(e.ast, [])
    requires forall id | id in References.VariablesOf(References.Reads(e.ast)) ::
             id in bound && id in all && bound[id] == all[id]
    ensures Cel.Eval(e.ast, EnvOf(w, entry, target, bound, lists)) ==
            Cel.Eval(e.ast, EnvOf(w, entry, target, all, lists))
  {
    var refs := References.Reads(e.ast);
    var x, y := EnvOf(w, entry, target, bound, lists), EnvOf(w, entry, target, all, lists);
    SameVariables(bound, all, refs);
    assert x.vars["variables"] == Object(bound) && y.vars["variables"] == Object(all);
    assert References.SameAlong(x, y, "variables", References.PathsInto("variables", refs));
    assert References.Agree(x, y, [], refs);
    References.ReadsCovered(e.ast, x, y, [], refs);
  }

  /** Binding only the collected variables gives what binding any more of them would:
      every free `variables` chain finds its id among those bound. */
  lemma EagerBindingSuffices(w: World, e: Expression, entry: Option<Json>, target: Option<Id>, look: Lookup,
                             all: map<string, Json>, lists: map<string, Json>)
    requires References.Analysable(e.ast, []) && BindFrom(VariableIds(e), 0, map[], look).Success?
    requires forall id | id in References.VariablesOf(References.Reads(e.ast)) ::
             id in all && look(id) == Success(all[id])
    ensures var bound := BindFrom(VariableIds(e), 0, map[], look).value;
            && bound.Keys == References.VariablesOf(References.Reads(e.ast))
            && Cel.Eval(e.ast, EnvOf(w, entry, target, bound, lists)) ==
                Cel.Eval(e.ast, EnvOf(w, entry, target, all, lists))
  {
    var names := VariableIds(e);
    BindBinds(names, 0, map[], look);
    var bound := BindFrom(names, 0, map[], look).value;
    assert bound.Keys == References.VariablesOf(References.Reads(e.ast));
    MoreBound(w, e, entry, target, bound, all, lists);
  }
}
