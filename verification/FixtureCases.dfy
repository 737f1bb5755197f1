/** Which condition variables can be driven, and which candidate contexts a variable
    gets. */
module FixtureCases {
  import opened Prelude
  import opened Json
  import opened Package
  import opened Contexts
  import opened Synthesis
  import opened Semantics
  import opened Fixtures
  import opened Invertibility
  import Cel

  // ---- Condition variables ----

  function DefaultOf(resolution: Resolution): Option<Json> {
    match resolution
    case Rules(default, _) => Some(default.value)
    case ByQuery(query) => if query.default.Some? then Some(query.default.value.value) else None
    case ByAllocation(allocation) => Some(allocation.default.value)
  }

  /** A condition variable is one that defaults to false and whose rules, if it has any,
      all yield true; its conditions are those of its rules. */
  lemma ConditionsAre(p: Package, id: Id)
    ensures id in ConditionsOf(p) <==>
            && id in p.variables
            && DefaultOf(p.variables[id]) == Some(Bool(false))
            && (p.variables[id].Rules? ==> forall r | r in p.variables[id].rules :: r.value.value == Bool(true))
    ensures id in ConditionsOf(p) ==>
              if p.variables[id].Rules? then
                && |ConditionsOf(p)[id]| == |p.variables[id].rules|
                && forall i | 0 <= i < |p.variables[id].rules| ::
                    ConditionsOf(p)[id][i] == p.variables[id].rules[i].when
              else ConditionsOf(p)[id] == []
  {
  }

  lemma {:induction false} DriverGivesObjects(conditions: Conditions, host: Cel.Host, stack: set<Id>)
    ensures GivesObjects(Driver(conditions, host, stack))
    decreases |conditions.Keys - stack|
  {
    forall id, want | Drive(conditions, host, id, want, stack).Some?
      ensures Drive(conditions, host, id, want, stack).value.Object?
    {
      FewerLeft(conditions.Keys, stack, id);
      DriverGivesObjects(conditions, host, stack + {id});
      JunctionGivesObject(Asts(conditions[id]), want, !want, host, Driver(conditions, host, stack + {id}), NO_LISTS);
    }
  }

  /** A condition variable is driven to true exactly when some condition can be, to false
      exactly when all can be together; never through itself. */
  lemma {:induction false} DriveExact(conditions: Conditions, host: Cel.Host, id: Id, want: bool, stack: set<Id>)
    ensures Drive(conditions, host, id, want, stack).Some? <==>
            && id in conditions && id !in stack
            && var driver := Driver(conditions, host, stack + {id});
               if want then
                 exists i :: 0 <= i < |conditions[id]|
                   && SynthesizeBool(conditions[id][i].ast, true, host, driver, NO_LISTS).Some?
               else DrivenTogether(Asts(conditions[id]), false, host, driver, NO_LISTS)
  {
    if id in conditions && id !in stack {
      var driver := Driver(conditions, host, stack + {id});
      DriverGivesObjects(conditions, host, stack + {id});
      var asts := Asts(conditions[id]);
      if want {
        OneOperandInverts(Cel.Or(asts), asts, true, host, driver, NO_LISTS);
        DriveIs(conditions, host, id, want, stack, Cel.Or(asts));
      } else {
        AllOperandsInvert(Cel.Or(asts), asts, false, host, driver, NO_LISTS);
        DriveIs(conditions, host, id, want, stack, Cel.Or(asts));
      }
    }
  }

  /** Driving the variable is inverting the disjunction of its conditions. */
  lemma DriveIs(conditions: Conditions, host: Cel.Host, id: Id, want: bool, stack: set<Id>, e: Cel.Expr)
    requires id in conditions && id !in stack && e == Cel.Or(Asts(conditions[id]))
    ensures Drive(conditions, host, id, want, stack)
         == SynthesizeBool(e, want, host, Driver(conditions, host, stack + {id}), NO_LISTS)
  {
    assert Cel.Path(e).None?;
  }

  // ---- Candidate contexts ----

  /** Each of these conditions has its wanted outcome by its own context, all carried by
      one object. */
  ghost predicate Together(conditions: Conditions, host: Cel.Host, whens: seq<Option<Expression>>, index: nat,
                           wide: Json)
    requires index <= |whens|
  {
    && wide.Object?
    && (forall j | 0 <= j < index :: Carried(Synth(conditions, host, whens[j], false), wide))
    && (index < |whens| ==> Carried(Synth(conditions, host, whens[index], true), wide))
  }

  ghost predicate Carried(c: Option<Json>, wide: Json) {
    c.Some? && Extends(c.value, wide)
  }

  lemma SynthGivesObject(conditions: Conditions, host: Cel.Host, when: Option<Expression>, want: bool)
    requires Synth(conditions, host, when, want).Some?
    ensures Synth(conditions, host, when, want).value.Object?
  {
    DriverGivesObjects(conditions, host, {});
    SynthesisGivesObject(when.value.ast, want, host, Driver(conditions, host, {}), NO_LISTS);
  }

  lemma SynthsGiveObjects(conditions: Conditions, host: Cel.Host, contexts: seq<Option<Json>>)
    requires forall c | c in contexts :: exists when, want :: c == Synth(conditions, host, when, want)
    ensures forall i | 0 <= i < |contexts| && contexts[i].Some? :: contexts[i].value.Object?
  {
    forall i | 0 <= i < |contexts| && contexts[i].Some? ensures contexts[i].value.Object? {
      assert contexts[i] in contexts;
      var when, want :| contexts[i] == Synth(conditions, host, when, want);
      SynthGivesObject(conditions, host, when, want);
    }
  }

  /** There is a default context exactly when all rules can be false together. */
  lemma DefaultContextExact(conditions: Conditions, host: Cel.Host, whens: seq<Option<Expression>>)
    ensures DefaultContext(conditions, host, whens).Some? <==>
            exists wide :: Together(conditions, host, whens, |whens|, wide)
  {
    var contexts := SynthEach(conditions, host, whens, false);
    SynthsGiveObjects(conditions, host, contexts);
    MergeAllExact(contexts);
    forall wide ensures Carries(wide, contexts) <==> Together(conditions, host, whens, |whens|, wide) {
    }
  }

  /** There is a firing context for a rule exactly when it can be true while all earlier
      ones are false. */
  lemma FiringContextExact(conditions: Conditions, host: Cel.Host, whens: seq<Option<Expression>>, index: nat)
    requires index < |whens|
    ensures FiringContext(conditions, host, whens, index).Some? <==>
            exists wide :: Together(conditions, host, whens, index, wide)
  {
    var contexts := SynthEach(conditions, host, whens[..index], false) + [Synth(conditions, host, whens[index], true)];
    SynthsGiveObjects(conditions, host, contexts);
    MergeAllExact(contexts);
    forall wide ensures Carries(wide, contexts) <==> Together(conditions, host, whens, index, wide) {
      if Carries(wide, contexts) {
        assert contexts[index] == Synth(conditions, host, whens[index], true);
        forall j | 0 <= j < index ensures Carried(Synth(conditions, host, whens[j], false), wide) {
          assert contexts[j] == Synth(conditions, host, whens[j], false);
        }
      }
    }
  }

  ghost predicate ForGate(conditions: Conditions, host: Cel.Host, gate: Option<Expression>, c: Json) {
    Synth(conditions, host, gate, true) == Some(c) || Synth(conditions, host, gate, false) == Some(c)
  }

  ghost predicate ForRule(conditions: Conditions, host: Cel.Host, whens: seq<Option<Expression>>, i: int, c: Json) {
    && 0 <= i < |whens|
    && (Synth(conditions, host, whens[i], true) == Some(c) || FiringContext(conditions, host, whens, i) == Some(c))
  }

  lemma ListedIs(option: Option<Json>, c: Json)
    ensures c in Listed(option) <==> option == Some(c)
  {
  }

  lemma GateCandidates(conditions: Conditions, host: Cel.Host, gate: Option<Expression>, c: Json)
    ensures c in GateContexts(conditions, host, gate) <==> ForGate(conditions, host, gate, c)
  {
    ListedIs(Synth(conditions, host, gate, true), c);
    ListedIs(Synth(conditions, host, gate, false), c);
  }

  lemma RuleCandidates(conditions: Conditions, host: Cel.Host, whens: seq<Option<Expression>>, i: nat, c: Json)
    requires i < |whens|
    ensures c in RuleContexts(conditions, host, whens, i) <==> ForRule(conditions, host, whens, i, c)
  {
    ListedIs(Synth(conditions, host, whens[i], true), c);
    ListedIs(FiringContext(conditions, host, whens, i), c);
  }

  lemma {:induction false} Accumulated(whole: seq<seq<Json>>, parts: seq<seq<Json>>, n: nat, c: Json)
    requires n <= |parts| && |whole| == |parts| + 1
    requires forall k | 0 <= k < |parts| :: whole[k + 1] == whole[k] + parts[k]
    ensures c in whole[n] <==> c in whole[0] || exists i :: 0 <= i < n && c in parts[i]
  {
    if n > 0 {
      Accumulated(whole, parts, n - 1, c);
      assert whole[(n - 1) + 1] == whole[n - 1] + parts[n - 1];
    }
  }

  lemma NextCandidates(conditions: Conditions, host: Cel.Host, gate: Option<Expression>, whens: seq<Option<Expression>>,
                       n: nat)
    requires n < |whens|
    ensures VariableContexts(conditions, host, gate, whens, n + 1)
         == VariableContexts(conditions, host, gate, whens, n) + RuleContexts(conditions, host, whens, n)
  {
  }

  lemma {:induction false} CandidatesSplit(conditions: Conditions, host: Cel.Host, gate: Option<Expression>,
                                           whens: seq<Option<Expression>>, n: nat, c: Json)
    requires n <= |whens|
    ensures c in VariableContexts(conditions, host, gate, whens, n) <==>
            || c in VariableContexts(conditions, host, gate, whens, 0)
            || exists i :: 0 <= i < n && c in RuleContexts(conditions, host, whens, i)
  {
    var whole := seq(n + 1, k requires 0 <= k <= n => VariableContexts(conditions, host, gate, whens, k));
    var parts := seq(n, k requires 0 <= k < n => RuleContexts(conditions, host, whens, k));
    forall k | 0 <= k < n ensures whole[k + 1] == whole[k] + parts[k] {
      NextCandidates(conditions, host, gate, whens, k);
    }
    Accumulated(whole, parts, n, c);
    assert whole[n] == VariableContexts(conditions, host, gate, whens, n);
    assert whole[0] == VariableContexts(conditions, host, gate, whens, 0);
    assert forall i | 0 <= i < n :: parts[i] == RuleContexts(conditions, host, whens, i);
  }

  lemma FirstCandidates(conditions: Conditions, host: Cel.Host, gate: Option<Expression>,
                        whens: seq<Option<Expression>>,
                        c: Json)
    ensures c in VariableContexts(conditions, host, gate, whens, 0) <==>
            ForGate(conditions, host, gate, c) || DefaultContext(conditions, host, whens) == Some(c)
  {
    GateCandidates(conditions, host, gate, c);
    ListedIs(DefaultContext(conditions, host, whens), c);
  }

  /** The candidates of the first `n` rules are the gate both ways, the default, and each
      rule's bare and firing context: those that exist, and no others. */
  lemma {:induction false} CandidatesAre(conditions: Conditions, host: Cel.Host, gate: Option<Expression>,
                                         whens: seq<Option<Expression>>, n: nat, c: Json)
    requires n <= |whens|
    ensures c in VariableContexts(conditions, host, gate, whens, n) <==>
            || ForGate(conditions, host, gate, c)
            || DefaultContext(conditions, host, whens) == Some(c)
            || exists i | 0 <= i < n :: ForRule(conditions, host, whens, i, c)
  {
    CandidatesSplit(conditions, host, gate, whens, n, c);
    FirstCandidates(conditions, host, gate, whens, c);
    forall i | 0 <= i < n
      ensures c in RuleContexts(conditions, host, whens, i) <==> ForRule(conditions, host, whens, i, c) {
      RuleCandidates(conditions, host, whens, i, c);
    }
  }
}
