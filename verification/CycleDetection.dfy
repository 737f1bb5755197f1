/** Cycle detection is exact: a cycle is reported for precisely the variables whose
    unguarded, unmemoised meaning never settles. */
module CycleDetection {
  import opened Prelude
  import opened Json
  import opened Package
  import opened QueryPipeline
  import opened Semantics

  // ---- A blocked outcome is passed on from the lookup, never made up ----

  ghost predicate Raises(look: Lookup, error: Error) {
    exists id :: look(id) == Failure(error)
  }

  lemma {:induction false} BindBlocked(ids: seq<Id>, i: nat, bound: map<string, Json>, look: Lookup)
    requires Blocked(BindFrom(ids, i, bound, look))
    ensures Raises(look, BindFrom(ids, i, bound, look).error)
    decreases |ids| - i
  {
    if look(ids[i]).Success? {
      BindBlocked(ids, i + 1, bound[ids[i] := look(ids[i]).value], look);
    }
  }

  lemma {:induction false} ListsNotBlocked(w: World, ids: seq<Id>, i: nat, bound: map<string, Json>)
    ensures !Blocked(BindLists(w, ids, i, bound))
    decreases |ids| - i
  {
    if i < |ids| && ids[i] in w.package.lists {
      ListsNotBlocked(w, ids, i + 1, bound[ids[i] := Array(w.package.lists[ids[i]])]);
    }
  }

  lemma EvaluateBlocked(w: World, e: Expression, entry: Option<Json>, target: Option<Id>, look: Lookup)
    requires Blocked(Evaluate(w, e, entry, target, look))
    ensures Raises(look, Evaluate(w, e, entry, target, look).error)
  {
    ListsNotBlocked(w, ListIds(e), 0, map[]);
    BindBlocked(VariableIds(e), 0, map[], look);
  }

  lemma EvaluateBoolBlocked(w: World, e: Expression, entry: Option<Json>, target: Option<Id>, look: Lookup)
    requires Blocked(EvaluateBool(w, e, entry, target, look))
    ensures Raises(look, EvaluateBool(w, e, entry, target, look).error)
  {
    EvaluateBlocked(w, e, entry, target, look);
  }

  lemma {:induction false} RulesBlocked(w: World, id: Id, default: SelectedValue, rules: seq<Rule>, i: nat,
                                        tried: seq<RuleTrace>, look: Lookup)
    requires Blocked(RulesFrom(w, id, default, rules, i, tried, look))
    ensures Raises(look, RulesFrom(w, id, default, rules, i, tried, look).error)
    decreases |rules| - i
  {
    var matched := EvaluateBool(w, rules[i].when, None, None, look);
    if matched.Failure? {
      EvaluateBoolBlocked(w, rules[i].when, None, None, look);
    } else {
      RulesBlocked(w, id, default, rules, i + 1, tried + [RuleTraceOf(rules[i], false)], look);
    }
  }

  lemma {:induction false} MatchesBlocked(w: World, query: Query, candidates: seq<(string, Json)>, i: nat,
                                          kept: seq<(string, Json)>, look: Lookup)
    requires Blocked(MatchesFrom(w, query, candidates, i, kept, look))
    ensures Raises(look, MatchesFrom(w, query, candidates, i, kept, look).error)
    decreases |candidates| - i
  {
    var keep := Keeps(w, query, candidates[i].1, look);
    if keep.Failure? {
      EvaluateBoolBlocked(w, query.filter.value, Some(candidates[i].1), None, look);
    } else {
      MatchesBlocked(w, query, candidates, i + 1, if keep.value then kept + [candidates[i]] else kept, look);
    }
  }

  lemma {:induction false} KeysBlocked(w: World, sort: Expression, matches: seq<(string, Json)>, i: nat,
                                       keyed: seq<Keyed>, look: Lookup)
    requires Blocked(KeysFrom(w, sort, matches, i, keyed, look))
    ensures Raises(look, KeysFrom(w, sort, matches, i, keyed, look).error)
    decreases |matches| - i
  {
    var key := Evaluate(w, sort, Some(matches[i].1), None, look);
    if key.Failure? {
      EvaluateBlocked(w, sort, Some(matches[i].1), None, look);
    } else {
      KeysBlocked(w, sort, matches, i + 1, keyed + [Keyed(key.value, matches[i].0)], look);
    }
  }

  lemma QueryBlocked(w: World, id: Id, query: Query, look: Lookup)
    requires Blocked(QuerySelect(w, id, query, look))
    ensures Raises(look, QuerySelect(w, id, query, look).error)
  {
    var entries := w.package.catalogs[query.catalog];
    var candidates := Candidates(w, query.catalog, entries);
    var matches := MatchesFrom(w, query, candidates, 0, [], look);
    if matches.Failure? {
      MatchesBlocked(w, query, candidates, 0, [], look);
    } else {
      KeysBlocked(w, query.sort.value, matches.value, 0, [], look);
    }
  }

  lemma AllocationBlocked(w: World, id: Id, a: Allocation, look: Lookup)
    requires Blocked(AllocationSelect(w, id, a, look))
    ensures Raises(look, AllocationSelect(w, id, a, look).error)
  {
    if Eligible(w, a, look).Failure? {
      EvaluateBoolBlocked(w, a.eligibility.value, None, None, look);
    } else {
      EvaluateBlocked(w, a.unit, None, None, look);
    }
  }

  lemma TraceBlocked(w: World, id: Id, look: Lookup)
    requires Blocked(TraceOf(w, id, look))
    ensures Raises(look, TraceOf(w, id, look).error)
  {
    match w.package.variables[id]
    case Rules(default, rules) => RulesBlocked(w, id, default, rules, 0, [], look);
    case ByQuery(query) => QueryBlocked(w, id, query, look);
    case ByAllocation(allocation) => AllocationBlocked(w, id, allocation, look);
  }

  lemma GuardedBlocked(w: World, id: Id, resolving: set<Id>) returns (next: Id)
    requires id !in resolving && Blocked(Guarded(w, id, resolving))
    ensures id in w.package.variables
    ensures Guarded(w, next, resolving + {id}) == Guarded(w, id, resolving)
  {
    TraceBlocked(w, id, Look(w, resolving + {id}));
    next :| Look(w, resolving + {id})(next) == Failure(Guarded(w, id, resolving).error);
  }

  lemma FueledBlocked(w: World, id: Id, fuel: nat) returns (next: Id)
    requires fuel > 0 && Blocked(Fueled(w, id, fuel))
    ensures Fueled(w, next, fuel - 1) == Fueled(w, id, fuel)
  {
    TraceBlocked(w, id, FuelLook(w, fuel - 1));
    next :| FuelLook(w, fuel - 1)(next) == Failure(Fueled(w, id, fuel).error);
  }

  /** The bounded semantics is only ever blocked for want of fuel. */
  lemma {:induction false} FueledBlocksOnFuel(w: World, id: Id, fuel: nat)
    requires Blocked(Fueled(w, id, fuel))
    ensures Fueled(w, id, fuel) == Failure(OutOfFuel)
    decreases fuel
  {
    if fuel > 0 {
      var next := FueledBlocked(w, id, fuel);
      FueledBlocksOnFuel(w, next, fuel - 1);
    }
  }

  /** The guarded semantics never runs out of fuel, and the id a cycle names, like
      the id it is reported for, really never settles. */
  lemma {:induction false} GuardedBlocksOnCycle(w: World, id: Id, resolving: set<Id>, left: nat)
    requires left == |w.package.variables.Keys - resolving|
    requires forall y | y in resolving :: Diverges(w, y)
    requires Blocked(Guarded(w, id, resolving))
    ensures Diverges(w, id)
    ensures Guarded(w, id, resolving).error.Cycle? && Diverges(w, Guarded(w, id, resolving).error.id)
    decreases left
  {
    BlockedDiverges(w, id, resolving);
    if id !in resolving {
      var next := GuardedBlocked(w, id, resolving);
      FewerLeft(w.package.variables.Keys, resolving, id);
      GuardedBlocksOnCycle(w, next, resolving + {id}, left - 1);
    }
  }

  lemma BlockedDiverges(w: World, id: Id, resolving: set<Id>)
    requires forall y | y in resolving :: Diverges(w, y)
    requires Blocked(Guarded(w, id, resolving))
    ensures Diverges(w, id)
  {
    forall fuel: nat ensures Fueled(w, id, fuel) == Failure(OutOfFuel) {
      if !Blocked(Fueled(w, id, fuel)) {
        FuelSettlesGuarded(w, id, resolving, fuel);
      } else {
        FueledBlocksOnFuel(w, id, fuel);
      }
    }
  }

  /** Resolving a reference from a clean state reports a cycle exactly when the
      unguarded, unmemoised meaning diverges for every fuel, names a variable that
      itself diverges, and otherwise is that meaning's value or error, which the
      number of declared ids plus one is always enough fuel to reach. */
  lemma CycleDetectionExact(w: World, id: Id)
    ensures var r := Guarded(w, id, {});
            && ((r.Failure? && r.error.Cycle?) <==> Diverges(w, id))
            && (Blocked(r) ==> r.error.Cycle? && Diverges(w, r.error.id))
    ensures !Diverges(w, id) ==> Fueled(w, id, |w.package.variables| + 1) == Guarded(w, id, {})
    ensures forall fuel: nat | Fueled(w, id, fuel) != Failure(OutOfFuel) :: Fueled(w, id, fuel) == Guarded(w, id, {})
  {
    var r := Guarded(w, id, {});
    assert w.package.variables.Keys - {} == w.package.variables.Keys;
    assert |w.package.variables.Keys| == |w.package.variables|;
    if Blocked(r) {
      GuardedBlocksOnCycle(w, id, {}, |w.package.variables.Keys|);
    } else {
      GuardedSettlesFuel(w, id, {}, |w.package.variables|);
      assert Fueled(w, id, |w.package.variables| + 1) != Failure(OutOfFuel);
    }
    forall fuel: nat | Fueled(w, id, fuel) != Failure(OutOfFuel) ensures Fueled(w, id, fuel) == r {
      if Blocked(Fueled(w, id, fuel)) {
        FueledBlocksOnFuel(w, id, fuel);
      }
      FuelSettlesGuarded(w, id, {}, fuel);
    }
  }

  /** A top-level trace runs the variable without marking it in progress. */
  function Standalone(w: World, id: Id): Result<Trace, Error> {
    TraceOf(w, id, Look(w, {}))
  }

  /** It too is a cycle exactly when the variable diverges, and otherwise carries the
      value or error of the unguarded meaning. */
  lemma StandaloneExact(w: World, id: Id)
    ensures var r := Standalone(w, id);
            (r.Failure? && r.error.Cycle?) <==> Diverges(w, id)
    ensures !Diverges(w, id) ==> ValueOf(Standalone(w, id)) == Fueled(w, id, |w.package.variables| + 2)
    ensures !Diverges(w, id) ==> ValueOf(Standalone(w, id)) == Guarded(w, id, {})
  {
    var n := |w.package.variables|;
    assert w.package.variables.Keys - {} == w.package.variables.Keys;
    assert |w.package.variables.Keys| == n;
    var r := Standalone(w, id);
    if Blocked(r) {
      TraceBlocked(w, id, Look(w, {}));
      var x :| Look(w, {})(x) == Failure(r.error);
      GuardedBlocksOnCycle(w, x, {}, n);
      if !Diverges(w, id) {
        CycleDetectionExact(w, id);
        FuelRefinesGuarded(w, {}, n);
        AnswerRefines(w, id, FuelLook(w, n), Look(w, {}));
        assert false;
      }
    } else {
      forall x: Id | !Blocked(Look(w, {})(x)) ensures Look(w, {})(x) == FuelLook(w, n + 1)(x) {
        GuardedSettlesFuel(w, x, {}, n);
      }
      AnswerRefines(w, id, Look(w, {}), FuelLook(w, n + 1));
      assert Fueled(w, id, n + 2) == ValueOf(r);
      CycleDetectionExact(w, id);
    }
  }
}
