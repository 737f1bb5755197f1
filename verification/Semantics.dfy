/** What resolving a variable means, given a way to look up the variables its
    expressions reference. The lookup is what distinguishes the two readings:
    unguarded with bounded fuel, and guarded by the set of ids in progress. */
module Semantics {
  import opened Prelude
  import opened Json
  import opened Package
  import opened QueryPipeline
  import Cel
  import References
  import Order

  /** Everything one resolution state fixes: the package, the facts, the instant, and
      the parts of evaluation that are parameters here. `view` hydrates an entry. */
  datatype World = World(
    package: Package, context: Json, now: string, host: Cel.Host, view: (string, string, Json) -> Json)

  type Answer = Result<Json, Error>
  type Lookup = Id -> Answer

  // ---- Evaluating one expression ----

  function EnvOf(w: World, entry: Option<Json>, target: Option<Id>,
                 variables: map<string, Json>, lists: map<string, Json>): Cel.Env
  {
    var now := map["now" := String(w.now)];
    var env := if target.None? then now else now["resolving" := Object(map["variable" := String(target.value)])];
    Cel.Env(map[
      "context" := w.context,
      "entry" := if entry.None? then Null else entry.value,
      "env" := Object(env),
      "variables" := Object(variables),
      "lists" := Object(lists)], w.host)
  }

  /** Referenced variables are all looked up first, in id order. */
  function BindFrom(ids: seq<Id>, i: nat, bound: map<string, Json>, look: Lookup): Result<map<string, Json>, Error>
    decreases |ids| - i
  {
    if i >= |ids| then Success(bound) else
      match look(ids[i])
      case Failure(error) => Failure(error)
      case Success(value) => BindFrom(ids, i + 1, bound[ids[i] := value], look)
  }

  function BindLists(w: World, ids: seq<Id>, i: nat, bound: map<string, Json>): Result<map<string, Json>, Error>
    decreases |ids| - i
  {
    if i >= |ids| then Success(bound)
    else if ids[i] !in w.package.lists then Failure(UnknownList(ids[i]))
    else BindLists(w, ids, i + 1, bound[ids[i] := Array(w.package.lists[ids[i]])])
  }

  function VariableIds(e: Expression): seq<Id> {
    Order.Sorted(References.VariablesOf(References.Reads(e.ast)))
  }

  function ListIds(e: Expression): seq<Id> {
    Order.Sorted(References.ListsOf(References.Reads(e.ast)))
  }

  function Evaluate(w: World, e: Expression, entry: Option<Json>, target: Option<Id>, look: Lookup): Answer {
    var variables :- BindFrom(VariableIds(e), 0, map[], look);
    Finish(w, e, entry, target, variables)
  }

  function Finish(w: World, e: Expression, entry: Option<Json>, target: Option<Id>, variables: map<string, Json>)
    : Answer
  {
    var lists :- BindLists(w, ListIds(e), 0, map[]);
    match Cel.Eval(e.ast, EnvOf(w, entry, target, variables, lists))
    case Success(value) => Success(value)
    case Failure(cause) => Failure(EvaluationFailed(cause))
  }

  function EvaluateBool(w: World, e: Expression, entry: Option<Json>, target: Option<Id>, look: Lookup)
    : Result<bool, Error>
  {
    var value :- Evaluate(w, e, entry, target, look);
    if value.Bool? then Success(value.flag) else Failure(NotBool)
  }

  // ---- The three ways a variable resolves ----

  function RuleTraceOf(rule: Rule, matched: bool): RuleTrace {
    RuleTrace(rule.index, rule.when.source, rule.value.value, SourceOf(rule.value), matched)
  }

  /** Rules run top to bottom; the first match wins. */
  function RulesFrom(w: World, id: Id, default: SelectedValue, rules: seq<Rule>, i: nat, tried: seq<RuleTrace>,
                     look: Lookup)
    : Result<Trace, Error>
    decreases |rules| - i
  {
    if i >= |rules| then Success(TraceFor(id, default, default, tried)) else
      var matched :- EvaluateBool(w, rules[i].when, None, None, look);
      var now := tried + [RuleTraceOf(rules[i], matched)];
      if matched then Success(TraceFor(id, rules[i].value, default, now))
      else RulesFrom(w, id, default, rules, i + 1, now, look)
  }

  function Keeps(w: World, query: Query, view: Json, look: Lookup): Result<bool, Error> {
    if query.filter.None? then Success(true)
    else EvaluateBool(w, query.filter.value, Some(view), None, look)
  }

  /** The catalog's entries in name order, each with its hydrated view. */
  function Candidates(w: World, catalog: string, entries: map<string, Json>): (r: seq<(string, Json)>) {
    var names := Order.Sorted(entries.Keys);
    seq(|names|, i requires 0 <= i < |names| =>
      assert names[i] in names;
      (names[i], w.view(catalog, names[i], entries[names[i]])))
  }

  /** The candidates the filter keeps, in order. */
  function MatchesFrom(w: World, query: Query, candidates: seq<(string, Json)>, i: nat, kept: seq<(string, Json)>,
                       look: Lookup): Result<seq<(string, Json)>, Error>
    decreases |candidates| - i
  {
    if i >= |candidates| then Success(kept) else
      var keep :- Keeps(w, query, candidates[i].1, look);
      MatchesFrom(w, query, candidates, i + 1, if keep then kept + [candidates[i]] else kept, look)
  }

  function KeysFrom(w: World, sort: Expression, matches: seq<(string, Json)>, i: nat, keyed: seq<Keyed>, look: Lookup)
    : Result<seq<Keyed>, Error>
    decreases |matches| - i
  {
    if i >= |matches| then Success(keyed) else
      var key :- Evaluate(w, sort, Some(matches[i].1), None, look);
      KeysFrom(w, sort, matches, i + 1, keyed + [Keyed(key, matches[i].0)], look)
  }

  function MatchNames(matches: seq<(string, Json)>): seq<string> {
    seq(|matches|, i requires 0 <= i < |matches| => matches[i].0)
  }

  function QueryNames(w: World, id: Id, query: Query, matches: seq<(string, Json)>, look: Lookup)
    : Result<seq<string>, Error>
  {
    if query.sort.None? then Success(Truncated(MatchNames(matches), query.limit)) else
      var keyed :- KeysFrom(w, query.sort.value, matches, 0, [], look);
      if AdjacentComparable(keyed) then Success(Arranged(keyed, query.descending, query.limit))
      else Failure(NotComparable(id))
  }

  function QuerySelect(w: World, id: Id, query: Query, look: Lookup): Result<SelectedValue, Error> {
    if query.catalog !in w.package.catalogs then Failure(CatalogMissing(query.catalog)) else
      var entries := w.package.catalogs[query.catalog];
      var matches :- MatchesFrom(w, query, Candidates(w, query.catalog, entries), 0, [], look);
      var names :- QueryNames(w, id, query, matches, look);
      Selection(id, query, entries, names)
  }

  function QueryTraceOf(id: Id, query: Query, selected: SelectedValue): Trace {
    TraceFor(id, selected, if query.default.Some? then query.default.value else LiteralValue(Null), [])
  }

  function ArmFor(arms: seq<Arm>, bucket: nat): Option<Arm> {
    if |arms| == 0 then None
    else if arms[0].start <= bucket <= arms[0].end then Some(arms[0])
    else ArmFor(arms[1..], bucket)
  }

  function Eligible(w: World, a: Allocation, look: Lookup): Result<bool, Error> {
    if a.eligibility.None? then Success(true)
    else EvaluateBool(w, a.eligibility.value, None, None, look)
  }

  function AllocationBucket(w: World, a: Allocation, unit: Json): nat {
    w.host.hash(a.layer, unit) % a.buckets
  }

  function AllocationTraceOf(w: World, id: Id, a: Allocation, unit: Option<Json>): Trace {
    if unit.None? then
      TraceFor(id, a.default, a.default, []).(
        allocation := Some(AllocationTrace(a.layer, a.allocation, false, None, None)))
    else
      var bucket := AllocationBucket(w, a, unit.value);
      var arm := ArmFor(a.arms, bucket);
      TraceFor(id, if arm.Some? then arm.value.value else a.default, a.default, []).(
        allocation := Some(AllocationTrace(a.layer, a.allocation, true, Some(bucket),
                                           if arm.Some? then Some(arm.value.name) else None)))
  }

  /** Only a running allocation enrols, and only an eligible unit. */
  function AllocationSelect(w: World, id: Id, a: Allocation, look: Lookup): Result<Trace, Error> {
    if !a.running then Success(AllocationTraceOf(w, id, a, None)) else
      var eligible :- Eligible(w, a, look);
      if !eligible then Success(AllocationTraceOf(w, id, a, None)) else
        var unit :- Evaluate(w, a.unit, None, None, look);
        Success(AllocationTraceOf(w, id, a, Some(unit)))
  }

  function ResolutionTrace(w: World, id: Id, resolution: Resolution, look: Lookup): Result<Trace, Error> {
    match resolution
    case Rules(default, rules) => RulesFrom(w, id, default, rules, 0, [], look)
    case ByQuery(query) =>
      (match QuerySelect(w, id, query, look)
       case Failure(error) => Failure(error)
       case Success(selected) => Success(QueryTraceOf(id, query, selected)))
    case ByAllocation(allocation) => AllocationSelect(w, id, allocation, look)
  }

  function Provenance(w: World, id: Id): Option<string> {
    if id in w.package.provenance then Some(w.package.provenance[id]) else None
  }

  /** The full trace of one variable. */
  function TraceOf(w: World, id: Id, look: Lookup): Result<Trace, Error> {
    if id !in w.package.variables then Failure(VariableNotFound(id)) else
      match ResolutionTrace(w, id, w.package.variables[id], look)
      case Failure(error) => Failure(error)
      case Success(trace) => Success(trace.(provenance := Provenance(w, id)))
  }

  function ValueOf(r: Result<Trace, Error>): Answer {
    match r
    case Failure(error) => Failure(error)
    case Success(trace) => Success(trace.value)
  }

  /** The `[[trace]]` policies that ask for this resolution to be captured. */
  function PoliciesFrom(w: World, target: Id, i: nat, matched: seq<nat>, look: Lookup): Result<seq<nat>, Error>
    decreases |w.package.policies| - i
  {
    if i >= |w.package.policies| then Success(matched) else
      var holds :- EvaluateBool(w, w.package.policies[i], None, Some(target), look);
      PoliciesFrom(w, target, i + 1, if holds then matched + [i] else matched, look)
  }

  // ---- One step at a time ----

  /** The bound map holds exactly the looked-up values of the ids. */
  lemma {:induction false} BindBinds(names: seq<Id>, i: nat, bound: map<string, Json>, look: Lookup)
    requires i <= |names| && bound.Keys == Order.Elements(names[..i])
    requires BindFrom(names, i, bound, look).Success?
    requires forall id | id in bound :: look(id) == Success(bound[id])
    ensures var r := BindFrom(names, i, bound, look).value;
            r.Keys == Order.Elements(names) && forall id | id in r :: look(id) == Success(r[id])
    decreases |names| - i
  {
    if i < |names| {
      assert names[..i + 1] == names[..i] + [names[i]];
      BindBinds(names, i + 1, bound[names[i] := look(names[i]).value], look);
    } else {
      assert names[..i] == names;
    }
  }

  lemma RulesOnce(w: World, id: Id, default: SelectedValue, rules: seq<Rule>, i: nat, tried: seq<RuleTrace>,
                  look: Lookup)
    requires i < |rules|
    ensures RulesFrom(w, id, default, rules, i, tried, look) ==
            match EvaluateBool(w, rules[i].when, None, None, look)
            case Failure(error) => Failure(error)
            case Success(matched) =>
              var now := tried + [RuleTraceOf(rules[i], matched)];
              if matched then Success(TraceFor(id, rules[i].value, default, now))
              else RulesFrom(w, id, default, rules, i + 1, now, look)
  {
  }

  lemma MatchesOnce(w: World, query: Query, candidates: seq<(string, Json)>, i: nat, kept: seq<(string, Json)>,
                    look: Lookup)
    requires i < |candidates|
    ensures MatchesFrom(w, query, candidates, i, kept, look) ==
            match Keeps(w, query, candidates[i].1, look)
            case Failure(error) => Failure(error)
            case Success(keep) =>
              MatchesFrom(w, query, candidates, i + 1, if keep then kept + [candidates[i]] else kept, look)
  {
  }

  // ---- A better lookup keeps every settled outcome ----

  /** Running out of fuel, or meeting an id already in progress. */
  predicate Blocked<T>(r: Result<T, Error>) {
    r.Failure? && (r.error.Cycle? || r.error.OutOfFuel?)
  }

  ghost predicate Refines(weak: Lookup, strong: Lookup) {
    forall id | !Blocked(weak(id)) :: weak(id) == strong(id)
  }

  lemma {:induction false} BindRefines(ids: seq<Id>, i: nat, bound: map<string, Json>, weak: Lookup, strong: Lookup)
    requires Refines(weak, strong) && !Blocked(BindFrom(ids, i, bound, weak))
    ensures BindFrom(ids, i, bound, weak) == BindFrom(ids, i, bound, strong)
    decreases |ids| - i
  {
    if i < |ids| && weak(ids[i]).Success? {
      BindRefines(ids, i + 1, bound[ids[i] := weak(ids[i]).value], weak, strong);
    }
  }

  lemma EvaluateRefines(w: World, e: Expression, entry: Option<Json>, target: Option<Id>, weak: Lookup, strong: Lookup)
    requires Refines(weak, strong) && !Blocked(Evaluate(w, e, entry, target, weak))
    ensures Evaluate(w, e, entry, target, weak) == Evaluate(w, e, entry, target, strong)
  {
    BindRefines(VariableIds(e), 0, map[], weak, strong);
  }

  lemma EvaluateBoolRefines(w: World, e: Expression, entry: Option<Json>, target: Option<Id>, weak: Lookup,
                            strong: Lookup)
    requires Refines(weak, strong) && !Blocked(EvaluateBool(w, e, entry, target, weak))
    ensures EvaluateBool(w, e, entry, target, weak) == EvaluateBool(w, e, entry, target, strong)
  {
    EvaluateRefines(w, e, entry, target, weak, strong);
  }

  lemma {:induction false} RulesRefine(w: World, id: Id, default: SelectedValue, rules: seq<Rule>, i: nat,
                                       tried: seq<RuleTrace>, weak: Lookup, strong: Lookup)
    requires Refines(weak, strong) && !Blocked(RulesFrom(w, id, default, rules, i, tried, weak))
    ensures RulesFrom(w, id, default, rules, i, tried, weak) == RulesFrom(w, id, default, rules, i, tried, strong)
    decreases |rules| - i
  {
    if i < |rules| {
      EvaluateBoolRefines(w, rules[i].when, None, None, weak, strong);
      var matched := EvaluateBool(w, rules[i].when, None, None, weak);
      if matched == Success(false) {
        RulesRefine(w, id, default, rules, i + 1, tried + [RuleTraceOf(rules[i], false)], weak, strong);
      }
    }
  }

  lemma {:induction false} MatchesRefine(w: World, query: Query, candidates: seq<(string, Json)>, i: nat,
                                         kept: seq<(string, Json)>, weak: Lookup, strong: Lookup)
    requires Refines(weak, strong) && !Blocked(MatchesFrom(w, query, candidates, i, kept, weak))
    ensures MatchesFrom(w, query, candidates, i, kept, weak) == MatchesFrom(w, query, candidates, i, kept, strong)
    decreases |candidates| - i
  {
    if i < |candidates| {
      if query.filter.Some? {
        EvaluateBoolRefines(w, query.filter.value, Some(candidates[i].1), None, weak, strong);
      }
      var keep := Keeps(w, query, candidates[i].1, weak);
      if keep.Success? {
        MatchesRefine(w, query, candidates, i + 1, if keep.value then kept + [candidates[i]] else kept, weak, strong);
      }
    }
  }

  lemma {:induction false} KeysRefine(w: World, sort: Expression, matches: seq<(string, Json)>, i: nat,
                                      keyed: seq<Keyed>, weak: Lookup, strong: Lookup)
    requires Refines(weak, strong) && !Blocked(KeysFrom(w, sort, matches, i, keyed, weak))
    ensures KeysFrom(w, sort, matches, i, keyed, weak) == KeysFrom(w, sort, matches, i, keyed, strong)
    decreases |matches| - i
  {
    if i < |matches| {
      EvaluateRefines(w, sort, Some(matches[i].1), None, weak, strong);
      var key := Evaluate(w, sort, Some(matches[i].1), None, weak);
      if key.Success? {
        KeysRefine(w, sort, matches, i + 1, keyed + [Keyed(key.value, matches[i].0)], weak, strong);
      }
    }
  }

  lemma QueryRefines(w: World, id: Id, query: Query, weak: Lookup, strong: Lookup)
    requires Refines(weak, strong) && !Blocked(QuerySelect(w, id, query, weak))
    ensures QuerySelect(w, id, query, weak) == QuerySelect(w, id, query, strong)
  {
    if query.catalog in w.package.catalogs {
      var entries := w.package.catalogs[query.catalog];
      var candidates := Candidates(w, query.catalog, entries);
      MatchesRefine(w, query, candidates, 0, [], weak, strong);
      var matches := MatchesFrom(w, query, candidates, 0, [], weak);
      if matches.Success? && query.sort.Some? {
        KeysRefine(w, query.sort.value, matches.value, 0, [], weak, strong);
      }
    }
  }

  lemma AllocationRefines(w: World, id: Id, a: Allocation, weak: Lookup, strong: Lookup)
    requires Refines(weak, strong) && !Blocked(AllocationSelect(w, id, a, weak))
    ensures AllocationSelect(w, id, a, weak) == AllocationSelect(w, id, a, strong)
  {
    if a.running {
      if a.eligibility.Some? {
        EvaluateBoolRefines(w, a.eligibility.value, None, None, weak, strong);
      }
      if Eligible(w, a, weak) == Success(true) {
        EvaluateRefines(w, a.unit, None, None, weak, strong);
      }
    }
  }

  /** A settled trace survives any lookup that agrees wherever this one is settled. */
  lemma TraceRefines(w: World, id: Id, weak: Lookup, strong: Lookup)
    requires Refines(weak, strong) && !Blocked(TraceOf(w, id, weak))
    ensures TraceOf(w, id, weak) == TraceOf(w, id, strong)
  {
    if id in w.package.variables {
      match w.package.variables[id]
      case Rules(default, rules) => RulesRefine(w, id, default, rules, 0, [], weak, strong);
      case ByQuery(query) => QueryRefines(w, id, query, weak, strong);
      case ByAllocation(allocation) => AllocationRefines(w, id, allocation, weak, strong);
    }
  }

  lemma AnswerRefines(w: World, id: Id, weak: Lookup, strong: Lookup)
    requires Refines(weak, strong) && !Blocked(ValueOf(TraceOf(w, id, weak)))
    ensures ValueOf(TraceOf(w, id, weak)) == ValueOf(TraceOf(w, id, strong))
  {
    TraceRefines(w, id, weak, strong);
  }

  // ---- Two readings of a reference ----

  /** Unguarded and unmemoised: references are followed until the fuel is spent. */
  function Fueled(w: World, id: Id, fuel: nat): Answer
    decreases fuel, 0
  {
    if fuel == 0 then Failure(OutOfFuel) else ValueOf(TraceOf(w, id, FuelLook(w, fuel - 1)))
  }

  function FuelLook(w: World, fuel: nat): Lookup
    decreases fuel, 1
  {
    (id: Id) => Fueled(w, id, fuel)
  }

  /** Guarded, but without a cache: an id already in progress is a cycle. */
  function Guarded(w: World, id: Id, resolving: set<Id>): Answer
    decreases |w.package.variables.Keys - resolving|, 0
  {
    if id in resolving then Failure(Cycle(id))
    else if id !in w.package.variables then Failure(VariableNotFound(id))
    else
      FewerLeft(w.package.variables.Keys, resolving, id);
      ValueOf(TraceOf(w, id, Look(w, resolving + {id})))
  }

  function Look(w: World, resolving: set<Id>): Lookup
    decreases |w.package.variables.Keys - resolving|, 1
  {
    (id: Id) => Guarded(w, id, resolving)
  }

  lemma FewerLeft(all: set<Id>, resolving: set<Id>, id: Id)
    requires id in all && id !in resolving
    ensures |all - (resolving + {id})| == |all - resolving| - 1
  {
    assert all - (resolving + {id}) == (all - resolving) - {id};
  }

  lemma GuardedStep(w: World, id: Id, resolving: set<Id>)
    requires id !in resolving
    ensures Guarded(w, id, resolving) == ValueOf(TraceOf(w, id, Look(w, resolving + {id})))
  {
  }

  ghost predicate Diverges(w: World, id: Id) {
    forall fuel: nat :: Fueled(w, id, fuel) == Failure(OutOfFuel)
  }

  /** More fuel changes no settled answer. */
  lemma {:induction false} MoreFuel(w: World, id: Id, fuel: nat, more: nat)
    requires fuel <= more && !Blocked(Fueled(w, id, fuel))
    ensures Fueled(w, id, more) == Fueled(w, id, fuel)
    decreases fuel, 0
  {
    FuelRefinesFuel(w, fuel - 1, more - 1);
    AnswerRefines(w, id, FuelLook(w, fuel - 1), FuelLook(w, more - 1));
  }

  lemma FuelRefinesFuel(w: World, fuel: nat, more: nat)
    requires fuel <= more
    ensures Refines(FuelLook(w, fuel), FuelLook(w, more))
    decreases fuel, 1
  {
    forall x: Id | !Blocked(Fueled(w, x, fuel)) ensures Fueled(w, x, fuel) == Fueled(w, x, more) {
      MoreFuel(w, x, fuel, more);
    }
    assert forall x: Id :: FuelLook(w, fuel)(x) == Fueled(w, x, fuel) && FuelLook(w, more)(x) == Fueled(w, x, more);
  }

  /** One step of either reading agrees with one step of the other, when what is
      looked up does. */
  lemma StepFueledToGuarded(w: World, id: Id, resolving: set<Id>, fuel: nat)
    requires fuel > 0 && id !in resolving && !Blocked(Fueled(w, id, fuel))
    requires Refines(FuelLook(w, fuel - 1), Look(w, resolving + {id}))
    ensures Guarded(w, id, resolving) == Fueled(w, id, fuel)
  {
    AnswerRefines(w, id, FuelLook(w, fuel - 1), Look(w, resolving + {id}));
  }

  lemma StepGuardedToFueled(w: World, id: Id, resolving: set<Id>, fuel: nat)
    requires !Blocked(Guarded(w, id, resolving))
    requires id in w.package.variables ==> Refines(Look(w, resolving + {id}), FuelLook(w, fuel))
    ensures Fueled(w, id, fuel + 1) == Guarded(w, id, resolving)
  {
    if id in w.package.variables {
      AnswerRefines(w, id, Look(w, resolving + {id}), FuelLook(w, fuel));
    }
  }

  lemma StillBlocked(w: World, ids: set<Id>, fuel: nat)
    requires fuel > 0 && forall y | y in ids :: Blocked(Fueled(w, y, fuel))
    ensures forall y | y in ids :: Blocked(Fueled(w, y, fuel - 1))
  {
    forall y | y in ids ensures Blocked(Fueled(w, y, fuel - 1)) {
      if !Blocked(Fueled(w, y, fuel - 1)) {
        MoreFuel(w, y, fuel - 1, fuel);
      }
    }
  }

  /** Whatever fuel settles, the guard leaves alone, as long as nothing in progress
      is settled by that fuel. */
  lemma {:induction false} FuelSettlesGuarded(w: World, id: Id, resolving: set<Id>, fuel: nat)
    requires !Blocked(Fueled(w, id, fuel))
    requires forall y | y in resolving :: Blocked(Fueled(w, y, fuel))
    ensures Guarded(w, id, resolving) == Fueled(w, id, fuel)
    decreases fuel, 0
  {
    StillBlocked(w, resolving, fuel);
    if !Blocked(Fueled(w, id, fuel - 1)) {
      MoreFuel(w, id, fuel - 1, fuel);
      FuelSettlesGuarded(w, id, resolving, fuel - 1);
    } else {
      StepSettles(w, id, resolving, fuel);
    }
  }

  /** The case in which this fuel is the first to settle the id. */
  lemma StepSettles(w: World, id: Id, resolving: set<Id>, fuel: nat)
    requires fuel > 0 && id !in resolving && !Blocked(Fueled(w, id, fuel)) && Blocked(Fueled(w, id, fuel - 1))
    requires forall y | y in resolving :: Blocked(Fueled(w, y, fuel - 1))
    ensures Guarded(w, id, resolving) == Fueled(w, id, fuel)
    decreases fuel - 1, 2
  {
    FuelRefinesGuarded(w, resolving + {id}, fuel - 1);
    StepFueledToGuarded(w, id, resolving, fuel);
  }

  lemma FuelRefinesGuarded(w: World, resolving: set<Id>, fuel: nat)
    requires forall y | y in resolving :: Blocked(Fueled(w, y, fuel))
    ensures Refines(FuelLook(w, fuel), Look(w, resolving))
    decreases fuel, 1
  {
    forall x: Id | !Blocked(Fueled(w, x, fuel)) ensures Fueled(w, x, fuel) == Guarded(w, x, resolving) {
      FuelSettlesGuarded(w, x, resolving, fuel);
    }
    assert forall x: Id ::
             FuelLook(w, fuel)(x) == Fueled(w, x, fuel)
             && Look(w, resolving)(x) == Guarded(w, x, resolving);
  }

  /** Whatever the guard settles, as much fuel as there are ids left also settles. */
  lemma {:induction false} GuardedSettlesFuel(w: World, id: Id, resolving: set<Id>, left: nat)
    requires left == |w.package.variables.Keys - resolving|
    requires !Blocked(Guarded(w, id, resolving))
    ensures Fueled(w, id, left + 1) == Guarded(w, id, resolving)
    decreases left, 1
  {
    if id in w.package.variables {
      GuardedRefinesFuelBelow(w, id, resolving, left);
    }
    StepGuardedToFueled(w, id, resolving, left);
  }

  lemma GuardedRefinesFuelBelow(w: World, id: Id, resolving: set<Id>, left: nat)
    requires left == |w.package.variables.Keys - resolving|
    requires id in w.package.variables && id !in resolving
    ensures Refines(Look(w, resolving + {id}), FuelLook(w, left))
    decreases left, 0
  {
    var inner := resolving + {id};
    FewerLeft(w.package.variables.Keys, resolving, id);
    forall x: Id | !Blocked(Guarded(w, x, inner)) ensures Guarded(w, x, inner) == Fueled(w, x, left) {
      GuardedSettlesFuel(w, x, inner, left - 1);
    }
    assert forall x: Id :: FuelLook(w, left)(x) == Fueled(w, x, left) && Look(w, inner)(x) == Guarded(w, x, inner);
  }
}
