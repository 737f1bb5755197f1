/** The resolver: one state per resolution, with a cache of resolved references and
    the set of ids in progress. */
module Resolver {
  import opened Prelude
  import opened Json
  import opened Package
  import opened QueryPipeline
  import opened Semantics
  import opened CycleDetection
  import Order

  /** Each cached value is what the reference means, whichever uncached ids are in
      progress. */
  ghost predicate Faithful(w: World, cache: map<Id, Json>) {
    forall k, R: set<Id> | k in cache && R !! cache.Keys :: Guarded(w, k, R) == Success(cache[k])
  }

  lemma CacheGrows(w: World, cache: map<Id, Json>, id: Id, value: Json)
    requires Faithful(w, cache) && id !in cache
    requires forall R: set<Id> | R !! cache.Keys :: ValueOf(TraceOf(w, id, Look(w, R))) == Success(value)
    ensures Faithful(w, cache[id := value])
  {
    var grown := cache[id := value];
    forall k, R: set<Id> | k in grown && R !! grown.Keys ensures Guarded(w, k, R) == Success(grown[k]) {
      assert R !! cache.Keys;
      if k == id {
        assert R + {id} !! cache.Keys;
        GuardedStep(w, id, R);
        assert ValueOf(TraceOf(w, id, Look(w, R + {id}))) == Success(value);
      }
    }
  }

  /** So far the rule loop agrees with the meaning of the whole list, whatever ids
      outside `keys` are in progress. */
  ghost predicate RulesSoFar(w: World, id: Id, default: SelectedValue, rules: seq<Rule>, i: nat, tried: seq<RuleTrace>,
                             keys: set<Id>)
  {
    forall R: set<Id> | R !! keys ::
      RulesFrom(w, id, default, rules, 0, [], Look(w, R)) == RulesFrom(w, id, default, rules, i, tried, Look(w, R))
  }

  lemma RulesAdvance(w: World, id: Id, default: SelectedValue, rules: seq<Rule>, i: nat, tried: seq<RuleTrace>,
                     keys: set<Id>, more: set<Id>, matched: bool)
    requires i < |rules| && keys <= more && RulesSoFar(w, id, default, rules, i, tried, keys)
    requires forall R: set<Id> | R !! more :: EvaluateBool(w, rules[i].when, None, None, Look(w, R)) == Success(matched)
    ensures var now := tried + [RuleTraceOf(rules[i], matched)];
            if matched then
              forall R: set<Id> | R !! more ::
                RulesFrom(w, id, default, rules, 0, [], Look(w, R)) ==
                    Success(TraceFor(id, rules[i].value, default, now))
            else RulesSoFar(w, id, default, rules, i + 1, now, more)
  {
    forall R: set<Id> | R !! more
      ensures var now := tried + [RuleTraceOf(rules[i], matched)];
              RulesFrom(w, id, default, rules, 0, [], Look(w, R)) ==
                if matched then Success(TraceFor(id, rules[i].value, default, now))
                else RulesFrom(w, id, default, rules, i + 1, now, Look(w, R))
    {
      assert R !! keys;
    }
  }

  lemma RulesFail(w: World, id: Id, default: SelectedValue, rules: seq<Rule>, i: nat, tried: seq<RuleTrace>,
                  keys: set<Id>, R: set<Id>, error: Error)
    requires i < |rules| && R !! keys && RulesSoFar(w, id, default, rules, i, tried, keys)
    requires EvaluateBool(w, rules[i].when, None, None, Look(w, R)) == Failure(error)
    ensures RulesFrom(w, id, default, rules, 0, [], Look(w, R)) == Failure(error)
  {
  }

  lemma RulesEnd(w: World, id: Id, default: SelectedValue, rules: seq<Rule>, tried: seq<RuleTrace>, keys: set<Id>)
    requires RulesSoFar(w, id, default, rules, |rules|, tried, keys)
    ensures forall R: set<Id> | R !! keys ::
              RulesFrom(w, id, default, rules, 0, [], Look(w, R)) == Success(TraceFor(id, default, default, tried))
  {
  }

  ghost predicate MatchesSoFar(w: World, query: Query, candidates: seq<(string, Json)>, i: nat,
                               kept: seq<(string, Json)>, keys: set<Id>)
  {
    forall R: set<Id> | R !! keys ::
      MatchesFrom(w, query, candidates, 0, [], Look(w, R)) == MatchesFrom(w, query, candidates, i, kept, Look(w, R))
  }

  lemma MatchesAdvance(w: World, query: Query, candidates: seq<(string, Json)>, i: nat, kept: seq<(string, Json)>,
                       keys: set<Id>, more: set<Id>, keep: bool)
    requires i < |candidates| && keys <= more && MatchesSoFar(w, query, candidates, i, kept, keys)
    requires forall R: set<Id> | R !! more :: Keeps(w, query, candidates[i].1, Look(w, R)) == Success(keep)
    ensures MatchesSoFar(w, query, candidates, i + 1, if keep then kept + [candidates[i]] else kept, more)
  {
    forall R: set<Id> | R !! more
      ensures MatchesFrom(w, query, candidates, 0, [], Look(w, R))
           == MatchesFrom(w, query, candidates, i + 1, if keep then kept + [candidates[i]] else kept, Look(w, R))
    {
      assert R !! keys;
    }
  }

  lemma MatchesFail(w: World, query: Query, candidates: seq<(string, Json)>, i: nat, kept: seq<(string, Json)>,
                    keys: set<Id>, R: set<Id>, error: Error)
    requires i < |candidates| && R !! keys && MatchesSoFar(w, query, candidates, i, kept, keys)
    requires Keeps(w, query, candidates[i].1, Look(w, R)) == Failure(error)
    ensures MatchesFrom(w, query, candidates, 0, [], Look(w, R)) == Failure(error)
  {
  }

  predicate Holds(a: Arm, bucket: nat) {
    a.start <= bucket <= a.end
  }

  predicate IsFirstArm(arms: seq<Arm>, bucket: nat, i: int) {
    0 <= i < |arms| && Holds(arms[i], bucket) && forall j | 0 <= j < i :: !Holds(arms[j], bucket)
  }

  class ResolutionState {
    const w: World
    var variableCache: map<Id, Json>
    var resolving: set<Id>

    ghost predicate Valid()
      reads this
    {
      variableCache.Keys !! resolving && Faithful(w, variableCache)
    }

    /** The state between two steps of one top-level call: ids in progress are back
        as they were, and the cache has only grown. */
    twostate predicate Stepped()
      reads this
    {
      Valid() && resolving == old(resolving) && old(variableCache.Keys) <= variableCache.Keys
    }

    ghost function Left(): nat
      reads this
    {
      |w.package.variables.Keys - resolving|
    }

    constructor (world: World)
      ensures w == world && Valid() && resolving == {} && variableCache == map[]
    {
      w := world;
      variableCache, resolving := map[], {};
    }

    /** A referenced variable: from the cache, or resolved with its id in progress. */
    method ResolveVariableValue(id: Id) returns (r: Answer)
      requires Valid()
      modifies this
      ensures Stepped()
      ensures r == Guarded(w, id, resolving)
      ensures r.Success? ==> id in variableCache
      decreases Left(), 1
    {
      if id in variableCache {
        assert Guarded(w, id, resolving) == Success(variableCache[id]);
        return Success(variableCache[id]);
      }
      if id in resolving {
        return Failure(Cycle(id));
      }
      ghost var before := resolving;
      if id in w.package.variables {
        FewerLeft(w.package.variables.Keys, resolving, id);
      } else {
        assert w.package.variables.Keys - (resolving + {id}) == w.package.variables.Keys - resolving;
      }
      resolving := resolving + {id};
      var result := ResolveTrace(id);
      resolving := resolving - {id};
      assert resolving == before;
      GuardedStep(w, id, resolving);
      r := ValueOf(result);
      if r.Success? {
        assert forall R: set<Id> | R !! variableCache.Keys :: ValueOf(TraceOf(w, id, Look(w, R))) == r;
        CacheGrows(w, variableCache, id, r.value);
        variableCache := variableCache[id := r.value];
      }
    }

    /** Whatever the lookups settled is settled the same way for any ids in progress
        that the cache does not hold. */
    method BindVariables(e: Expression) returns (r: Result<map<string, Json>, Error>)
      requires Valid()
      modifies this
      ensures Stepped()
      ensures r == BindFrom(VariableIds(e), 0, map[], Look(w, resolving))
      ensures r.Success? ==> forall R: set<Id> | R !! variableCache.Keys ::
                BindFrom(VariableIds(e), 0, map[], Look(w, R)) == r
      decreases Left(), 2
    {
      var ids := VariableIds(e);
      var variables := map[];
      for i := 0 to |ids|
        invariant Stepped()
        invariant forall R: set<Id> | R !! variableCache.Keys ::
                    BindFrom(ids, 0, map[], Look(w, R)) == BindFrom(ids, i, variables, Look(w, R))
      {
        var value := ResolveVariableValue(ids[i]);
        if value.Failure? {
          assert Look(w, resolving)(ids[i]) == value;
          return Failure(value.error);
        }
        forall R: set<Id> | R !! variableCache.Keys ensures Look(w, R)(ids[i]) == value {
          assert Guarded(w, ids[i], R) == Success(variableCache[ids[i]]);
          assert Guarded(w, ids[i], resolving) == Success(variableCache[ids[i]]);
        }
        variables := variables[ids[i] := value.value];
      }
      r := Success(variables);
    }

    method EvaluateValue(e: Expression, entry: Option<Json>, target: Option<Id>) returns (r: Answer)
      requires Valid()
      modifies this
      ensures Stepped()
      ensures r == Evaluate(w, e, entry, target, Look(w, resolving))
      ensures r.Success? ==> forall R: set<Id> | R !! variableCache.Keys ::
              Evaluate(w, e, entry, target, Look(w, R)) == r
      decreases Left(), 3
    {
      var variables := BindVariables(e);
      if variables.Failure? {
        return Failure(variables.error);
      }
      r := Finish(w, e, entry, target, variables.value);
    }

    method EvaluateCondition(e: Expression, entry: Option<Json>, target: Option<Id>) returns (r: Result<bool, Error>)
      requires Valid()
      modifies this
      ensures Stepped()
      ensures r == EvaluateBool(w, e, entry, target, Look(w, resolving))
      ensures r.Success? ==> forall R: set<Id> | R !! variableCache.Keys ::
              EvaluateBool(w, e, entry, target, Look(w, R)) == r
      decreases Left(), 4
    {
      var value := EvaluateValue(e, entry, target);
      if value.Failure? {
        return Failure(value.error);
      }
      r := if value.value.Bool? then Success(value.value.flag) else Failure(NotBool);
    }

    method ResolveRules(id: Id, default: SelectedValue, rules: seq<Rule>) returns (r: Result<Trace, Error>)
      requires Valid()
      modifies this
      ensures Stepped()
      ensures r == RulesFrom(w, id, default, rules, 0, [], Look(w, resolving))
      ensures r.Success? ==> forall R: set<Id> | R !! variableCache.Keys ::
                RulesFrom(w, id, default, rules, 0, [], Look(w, R)) == r
      decreases Left(), 5
    {
      var tried := [];
      for i := 0 to |rules|
        invariant Stepped()
        invariant RulesSoFar(w, id, default, rules, i, tried, variableCache.Keys)
      {
        ghost var keys := variableCache.Keys;
        var matched := EvaluateCondition(rules[i].when, None, None);
        if matched.Failure? {
          RulesFail(w, id, default, rules, i, tried, keys, resolving, matched.error);
          return Failure(matched.error);
        }
        RulesAdvance(w, id, default, rules, i, tried, keys, variableCache.Keys, matched.value);
        tried := tried + [RuleTraceOf(rules[i], matched.value)];
        if matched.value {
          return Success(TraceFor(id, rules[i].value, default, tried));
        }
      }
      RulesEnd(w, id, default, rules, tried, variableCache.Keys);
      r := Success(TraceFor(id, default, default, tried));
    }

    method KeepEntry(query: Query, view: Json) returns (r: Result<bool, Error>)
      requires Valid()
      modifies this
      ensures Stepped()
      ensures r == Keeps(w, query, view, Look(w, resolving))
      ensures r.Success? ==> forall R: set<Id> | R !! variableCache.Keys :: Keeps(w, query, view, Look(w, R)) == r
      decreases Left(), 5
    {
      if query.filter.None? {
        return Success(true);
      }
      r := EvaluateCondition(query.filter.value, Some(view), None);
    }

    method FilterEntries(query: Query, candidates: seq<(string, Json)>) returns (r: Result<seq<(string, Json)>, Error>)
      requires Valid()
      modifies this
      ensures Stepped()
      ensures r == MatchesFrom(w, query, candidates, 0, [], Look(w, resolving))
      ensures r.Success? ==> forall R: set<Id> | R !! variableCache.Keys ::
                MatchesFrom(w, query, candidates, 0, [], Look(w, R)) == r
      decreases Left(), 6
    {
      var matches := [];
      for i := 0 to |candidates|
        invariant Stepped()
        invariant MatchesSoFar(w, query, candidates, i, matches, variableCache.Keys)
      {
        ghost var keys := variableCache.Keys;
        var keep := KeepEntry(query, candidates[i].1);
        if keep.Failure? {
          MatchesFail(w, query, candidates, i, matches, keys, resolving, keep.error);
          return Failure(keep.error);
        }
        MatchesAdvance(w, query, candidates, i, matches, keys, variableCache.Keys, keep.value);
        if keep.value {
          matches := matches + [candidates[i]];
        }
      }
      r := Success(matches);
    }

    method SortKeys(sort: Expression, matches: seq<(string, Json)>) returns (r: Result<seq<Keyed>, Error>)
      requires Valid()
      modifies this
      ensures Stepped()
      ensures r == KeysFrom(w, sort, matches, 0, [], Look(w, resolving))
      ensures r.Success? ==> forall R: set<Id> | R !! variableCache.Keys ::
                KeysFrom(w, sort, matches, 0, [], Look(w, R)) == r
      decreases Left(), 5
    {
      var keyed := [];
      for i := 0 to |matches|
        invariant Stepped()
        invariant forall R: set<Id> | R !! variableCache.Keys ::
                    KeysFrom(w, sort, matches, 0, [], Look(w, R)) == KeysFrom(w, sort, matches, i, keyed, Look(w, R))
      {
        var key := EvaluateValue(sort, Some(matches[i].1), None);
        if key.Failure? {
          return Failure(key.error);
        }
        keyed := keyed + [Keyed(key.value, matches[i].0)];
      }
      r := Success(keyed);
    }

    method ArrangeMatches(id: Id, query: Query, matches: seq<(string, Json)>) returns (r: Result<seq<string>, Error>)
      requires Valid()
      modifies this
      ensures Stepped()
      ensures r == QueryNames(w, id, query, matches, Look(w, resolving))
      ensures r.Success? ==> forall R: set<Id> | R !! variableCache.Keys ::
              QueryNames(w, id, query, matches, Look(w, R)) == r
      decreases Left(), 6
    {
      if query.sort.None? {
        return Success(Truncated(MatchNames(matches), query.limit));
      }
      var keyed := SortKeys(query.sort.value, matches);
      if keyed.Failure? {
        return Failure(keyed.error);
      }
      var comparable := CheckComparable(keyed.value);
      if !comparable {
        return Failure(NotComparable(id));
      }
      var sorted := StableSort(keyed.value);
      if query.descending {
        sorted := Reversed(sorted);
      }
      r := Success(Truncated(Names(sorted), query.limit));
    }

    method ResolveQuery(id: Id, query: Query) returns (r: Result<SelectedValue, Error>)
      requires Valid()
      modifies this
      ensures Stepped()
      ensures r == QuerySelect(w, id, query, Look(w, resolving))
      ensures r.Success? ==> forall R: set<Id> | R !! variableCache.Keys :: QuerySelect(w, id, query, Look(w, R)) == r
      decreases Left(), 7
    {
      if query.catalog !in w.package.catalogs {
        return Failure(CatalogMissing(query.catalog));
      }
      var entries := w.package.catalogs[query.catalog];
      var matches := FilterEntries(query, Candidates(w, query.catalog, entries));
      if matches.Failure? {
        return Failure(matches.error);
      }
      var names := ArrangeMatches(id, query, matches.value);
      if names.Failure? {
        return Failure(names.error);
      }
      r := Selection(id, query, entries, names.value);
    }

    /** The arm of least index whose range holds the bucket, when one does. */
    method PickArm(arms: seq<Arm>, bucket: nat) returns (r: Option<Arm>)
      ensures r == ArmFor(arms, bucket)
      ensures r.None? <==> forall a | a in arms :: !Holds(a, bucket)
      ensures r.Some? ==> exists i :: IsFirstArm(arms, bucket, i) && arms[i] == r.value
    {
      for i := 0 to |arms|
        invariant ArmFor(arms, bucket) == ArmFor(arms[i..], bucket)
        invariant forall j | 0 <= j < i :: !Holds(arms[j], bucket)
      {
        if arms[i].start <= bucket <= arms[i].end {
          assert IsFirstArm(arms, bucket, i) && arms[i] in arms;
          return Some(arms[i]);
        }
      }
      r := None;
    }

    method ResolveAllocation(id: Id, a: Allocation) returns (r: Result<Trace, Error>)
      requires Valid()
      modifies this
      ensures Stepped()
      ensures r == AllocationSelect(w, id, a, Look(w, resolving))
      ensures r.Success? ==> forall R: set<Id> | R !! variableCache.Keys :: AllocationSelect(w, id, a, Look(w, R)) == r
      decreases Left(), 7
    {
      var trace := AllocationTrace(a.layer, a.allocation, false, None, None);
      var selected := a.default;
      if a.running {
        var eligible := Success(true);
        if a.eligibility.Some? {
          eligible := EvaluateCondition(a.eligibility.value, None, None);
        }
        if eligible.Failure? {
          return Failure(eligible.error);
        }
        if eligible.value {
          var unit := EvaluateValue(a.unit, None, None);
          if unit.Failure? {
            return Failure(unit.error);
          }
          var bucket := AllocationBucket(w, a, unit.value);
          trace := trace.(enrolled := true, bucket := Some(bucket));
          var arm := PickArm(a.arms, bucket);
          if arm.Some? {
            trace := trace.(arm := Some(arm.value.name));
            selected := arm.value.value;
          }
        }
      }
      r := Success(TraceFor(id, selected, a.default, []).(allocation := Some(trace)));
    }

    /** A variable's full trace. Its own id is not marked in progress here. */
    method ResolveTrace(id: Id) returns (r: Result<Trace, Error>)
      requires Valid()
      modifies this
      ensures Stepped()
      ensures r == TraceOf(w, id, Look(w, resolving))
      ensures r.Success? ==> forall R: set<Id> | R !! variableCache.Keys :: TraceOf(w, id, Look(w, R)) == r
      decreases Left(), if id in w.package.variables then 8 else 0
    {
      if id !in w.package.variables {
        return Failure(VariableNotFound(id));
      }
      match w.package.variables[id] {
        case Rules(default, rules) =>
          r := ResolveRules(id, default, rules);
        case ByQuery(query) =>
          var selected := ResolveQuery(id, query);
          r := if selected.Failure? then Failure(selected.error)
               else Success(QueryTraceOf(id, query, selected.value));
        case ByAllocation(allocation) =>
          r := ResolveAllocation(id, allocation);
      }
      if r.Success? {
        r := Success(r.value.(provenance := Provenance(w, id)));
      }
    }

    /** The trace policies that match, evaluated in the same state. */
    method EvaluatePolicies(target: Id) returns (r: Result<seq<nat>, Error>)
      requires Valid()
      modifies this
      ensures Stepped()
      ensures r == PoliciesFrom(w, target, 0, [], Look(w, resolving))
    {
      var matched: seq<nat> := [];
      for i := 0 to |w.package.policies|
        invariant Stepped()
        invariant forall R: set<Id> | R !! variableCache.Keys ::
                    PoliciesFrom(w, target, 0, [], Look(w, R)) == PoliciesFrom(w, target, i, matched, Look(w, R))
      {
        var holds := EvaluateCondition(w.package.policies[i], None, Some(target));
        if holds.Failure? {
          return Failure(holds.error);
        }
        if holds.value {
          matched := matched + [i];
        }
      }
      r := Success(matched);
    }
  }

  // ---- Top-level calls ----

  datatype Outcome = Outcome(id: Id, result: Result<Trace, Error>)

  datatype Resolved = Resolved(id: Id, value: Json, source: Source)

  datatype Capture = Capture(trace: Trace, policies: seq<nat>)

  function ResolvedOf(trace: Trace): Resolved {
    Resolved(trace.id, trace.value, trace.source)
  }

  method ResolveVariable(w: World, id: Id) returns (r: Result<Resolved, Error>)
    ensures Standalone(w, id).Success? ==> r == Success(ResolvedOf(Standalone(w, id).value))
    ensures Standalone(w, id).Failure? ==> r == Failure(Standalone(w, id).error)
  {
    var state := new ResolutionState(w);
    var trace := state.ResolveTrace(id);
    r := if trace.Failure? then Failure(trace.error) else Success(ResolvedOf(trace.value));
  }

  /** Resolves and, when the application asked or a policy matched, captures the
      trace; the policies share the state the resolution warmed up. */
  method ResolveVariableTraced(w: World, id: Id, appRequested: bool)
    returns (r: Result<(Resolved, Option<Capture>), Error>)
    ensures Standalone(w, id).Failure? ==> r == Failure(Standalone(w, id).error)
    ensures Standalone(w, id).Success? ==>
              var policies := PoliciesFrom(w, id, 0, [], Look(w, {}));
              if policies.Failure? then r == Failure(policies.error)
              else r == Success((ResolvedOf(Standalone(w, id).value),
                                 if appRequested || policies.value != []
                                 then Some(Capture(Standalone(w, id).value, policies.value)) else None))
  {
    var state := new ResolutionState(w);
    var trace := state.ResolveTrace(id);
    if trace.Failure? {
      return Failure(trace.error);
    }
    var policies := state.EvaluatePolicies(id);
    if policies.Failure? {
      return Failure(policies.error);
    }
    var capture := if appRequested || policies.value != [] then Some(Capture(trace.value, policies.value)) else None;
    r := Success((ResolvedOf(trace.value), capture));
  }

  /** A run of top-level calls against one warm state: every answer is the one a
      fresh state would give, whatever ran or failed before it. */
  method TraceEach(w: World, ids: seq<Id>) returns (outcomes: seq<Outcome>)
    ensures |outcomes| == |ids|
    ensures forall i | 0 <= i < |ids| :: outcomes[i] == Outcome(ids[i], Standalone(w, ids[i]))
  {
    var state := new ResolutionState(w);
    outcomes := [];
    for i := 0 to |ids|
      invariant state.Valid() && state.resolving == {} && state.w == w && fresh(state)
      invariant |outcomes| == i
      invariant forall j | 0 <= j < i :: outcomes[j] == Outcome(ids[j], Standalone(w, ids[j]))
    {
      var result := state.ResolveTrace(ids[i]);
      outcomes := outcomes + [Outcome(ids[i], result)];
    }
  }

  /** The lenient batch: every variable, in id order. */
  method TraceOutcomes(w: World) returns (outcomes: seq<Outcome>)
    ensures var ids := Order.Sorted(w.package.variables.Keys);
            |outcomes| == |ids| && forall i | 0 <= i < |ids| :: outcomes[i] == Outcome(ids[i], Standalone(w, ids[i]))
  {
    outcomes := TraceEach(w, Order.Sorted(w.package.variables.Keys));
  }

  /** Every variable stands on its own, and these are the traces. */
  ghost predicate AllTraced(w: World, ids: seq<Id>, traces: seq<Trace>) {
    |traces| == |ids| && forall i | 0 <= i < |ids| :: Standalone(w, ids[i]) == Success(traces[i])
  }

  /** The first variable, in this order, that fails on its own fails with `error`. */
  ghost predicate FailsFirst(w: World, ids: seq<Id>, error: Error) {
    exists i | 0 <= i < |ids| ::
      Standalone(w, ids[i]) == Failure(error) && forall j | 0 <= j < i :: Standalone(w, ids[j]).Success?
  }

  lemma TracedStep(w: World, ids: seq<Id>, i: nat, traces: seq<Trace>, result: Result<Trace, Error>)
    requires i < |ids| && AllTraced(w, ids[..i], traces) && result == Standalone(w, ids[i])
    ensures result.Success? ==> AllTraced(w, ids[..i + 1], traces + [result.value])
    ensures result.Failure? ==> FailsFirst(w, ids, result.error)
  {
    assert forall j | 0 <= j < i :: ids[..i][j] == ids[j];
    assert ids[..i + 1] == ids[..i] + [ids[i]];
  }

  /** The strict batch stops at the first variable, in id order, that fails. */
  method TraceAll(w: World) returns (r: Result<seq<Trace>, Error>)
    ensures r.Success? ==> AllTraced(w, Order.Sorted(w.package.variables.Keys), r.value)
    ensures r.Failure? ==> FailsFirst(w, Order.Sorted(w.package.variables.Keys), r.error)
  {
    var ids := Order.Sorted(w.package.variables.Keys);
    var state := new ResolutionState(w);
    var traces := [];
    for i := 0 to |ids|
      invariant state.Valid() && state.resolving == {} && state.w == w && fresh(state)
      invariant AllTraced(w, ids[..i], traces)
    {
      var result := state.ResolveTrace(ids[i]);
      TracedStep(w, ids, i, traces, result);
      if result.Failure? {
        return Failure(result.error);
      }
      traces := traces + [result.value];
    }
    assert ids[..|ids|] == ids;
    r := Success(traces);
  }

  /** The strict untraced batch agrees with the traced one. */
  method ResolveAll(w: World) returns (r: Result<seq<Resolved>, Error>)
    ensures r.Success? ==>
              exists traces :: AllTraced(w, Order.Sorted(w.package.variables.Keys), traces)
                  && r.value == ResolvedEach(traces)
    ensures r.Failure? ==> FailsFirst(w, Order.Sorted(w.package.variables.Keys), r.error)
  {
    var ids := Order.Sorted(w.package.variables.Keys);
    var state := new ResolutionState(w);
    var resolutions := [];
    ghost var traces := [];
    for i := 0 to |ids|
      invariant state.Valid() && state.resolving == {} && state.w == w && fresh(state)
      invariant AllTraced(w, ids[..i], traces) && resolutions == ResolvedEach(traces)
    {
      var result := state.ResolveTrace(ids[i]);
      TracedStep(w, ids, i, traces, result);
      if result.Failure? {
        return Failure(result.error);
      }
      resolutions := resolutions + [ResolvedOf(result.value)];
      traces := traces + [result.value];
    }
    assert ids[..|ids|] == ids;
    r := Success(resolutions);
  }

  function ResolvedEach(traces: seq<Trace>): (r: seq<Resolved>)
    ensures |r| == |traces| && forall i | 0 <= i < |r| :: r[i] == ResolvedOf(traces[i])
  {
    seq(|traces|, i requires 0 <= i < |traces| => ResolvedOf(traces[i]))
  }

  /** The strict outcome is determined: it succeeds exactly when every lenient outcome
      does, with one list of traces, and otherwise fails with one error. */
  lemma StrictBatchDetermined(w: World, ids: seq<Id>)
    ensures (exists traces :: AllTraced(w, ids, traces)) <==> forall id | id in ids :: Standalone(w, id).Success?
    ensures (exists error :: FailsFirst(w, ids, error)) <==> exists id | id in ids :: Standalone(w, id).Failure?
    ensures forall a, b | AllTraced(w, ids, a) && AllTraced(w, ids, b) :: a == b
    ensures forall a, b | FailsFirst(w, ids, a) && FailsFirst(w, ids, b) :: a == b
  {
    if forall id | id in ids :: Standalone(w, id).Success? {
      var traces := seq(|ids|, i requires 0 <= i < |ids| => assert ids[i] in ids; Standalone(w, ids[i]).value);
      assert AllTraced(w, ids, traces);
    } else {
      var at := FirstFailing(w, ids, 0);
      assert FailsFirst(w, ids, Standalone(w, ids[at]).error);
    }
  }

  lemma {:induction false} FirstFailing(w: World, ids: seq<Id>, from: nat) returns (at: nat)
    requires from <= |ids| && forall j | 0 <= j < from :: Standalone(w, ids[j]).Success?
    requires exists id | id in ids :: Standalone(w, id).Failure?
    ensures at < |ids| && Standalone(w, ids[at]).Failure?
    ensures forall j | 0 <= j < at :: Standalone(w, ids[j]).Success?
    decreases |ids| - from
  {
    assert from < |ids|;
    if Standalone(w, ids[from]).Failure? {
      at := from;
    } else {
      at := FirstFailing(w, ids, from + 1);
    }
  }
}
