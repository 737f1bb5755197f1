/** When the inversion finds a context at all: shape by shape, in terms of what is
    inverted and of the order on contexts. */
module Invertibility {
  import opened Prelude
  import opened Json
  import opened Cel
  import opened References
  import opened Contexts
  import opened Synthesis
  import Text

  // ---- Contexts that have to agree ----

  /** An object that carries every one of these contexts. */
  ghost predicate Carries(wide: Json, contexts: seq<Option<Json>>) {
    wide.Object? && forall i | 0 <= i < |contexts| :: contexts[i].Some? && Extends(contexts[i].value, wide)
  }

  /** Contexts merge exactly when all are there and one object carries them all, and what
      comes out is the least such object. */
  lemma {:induction false} MergeAllExact(contexts: seq<Option<Json>>)
    requires forall i | 0 <= i < |contexts| && contexts[i].Some? :: contexts[i].value.Object?
    ensures MergeAll(contexts).Some? <==> exists wide :: Carries(wide, contexts)
    ensures MergeAll(contexts).Some? ==>
              Carries(MergeAll(contexts).value, contexts)
              && forall wide | Carries(wide, contexts) :: Extends(MergeAll(contexts).value, wide)
    decreases |contexts|
  {
    if |contexts| == 0 {
      assert Carries(EMPTY, contexts);
    } else {
      var n := |contexts| - 1;
      var init := contexts[..n];
      MergeAllExact(init);
      forall wide | Carries(wide, contexts)
        ensures MergeAll(contexts).Some? && Extends(MergeAll(contexts).value, wide) {
        assert Carries(wide, init);
        MergeLeast(MergeAll(init).value, contexts[n].value, wide);
      }
      if MergeAll(contexts).Some? {
        MergeAllCarries(contexts);
      }
    }
  }

  lemma {:induction false} MergeAllCarries(contexts: seq<Option<Json>>)
    requires MergeAll(contexts).Some?
    ensures Carries(MergeAll(contexts).value, contexts)
  {
    forall i | 0 <= i < |contexts| ensures contexts[i].Some? && Extends(contexts[i].value, MergeAll(contexts).value) {
      MergeAllBounds(contexts, i);
    }
  }

  // ---- Contexts are objects ----

  ghost predicate GivesObjects(variable: VariableSource) {
    forall id, want :: variable(id, want).Some? ==> variable(id, want).value.Object?
  }

  lemma {:induction false} SynthesisGivesObject(e: Expr, want: bool, host: Host, variable: VariableSource,
                                                lists: ListSource)
    requires GivesObjects(variable) && SynthesizeBool(e, want, host, variable, lists).Some?
    ensures SynthesizeBool(e, want, host, variable, lists).value.Object?
    decreases e
  {
    match e
    case Not(arg) => SynthesisGivesObject(arg, !want, host, variable, lists);
    case And(args) => JunctionGivesObject(args, want, want, host, variable, lists);
    case Or(args) => JunctionGivesObject(args, want, !want, host, variable, lists);
    case _ =>
  }

  lemma JunctionGivesObject(args: seq<Expr>, want: bool, every: bool, host: Host, variable: VariableSource,
                            lists: ListSource)
    requires GivesObjects(variable)
    requires SynthesizeJunction(SynthesizeEach(args, want, host, variable, lists), every).Some?
    ensures SynthesizeJunction(SynthesizeEach(args, want, host, variable, lists), every).value.Object?
    decreases args
  {
    var operands := SynthesizeEach(args, want, host, variable, lists);
    if every {
      MergeAllCarries(operands);
    } else {
      var i := SettledOperand(args, want, variable, lists, host);
      SynthesisGivesObject(args[i], want, host, variable, lists);
    }
  }

  // ---- Connectives ----

  lemma NegationInverts(arg: Expr, want: bool, host: Host, variable: VariableSource, lists: ListSource)
    ensures SynthesizeBool(Not(arg), want, host, variable, lists) == SynthesizeBool(arg, !want, host, variable, lists)
  {
    assert Path(Not(arg)).None?;
  }

  /** The operands can be driven together: each can, and some object carries all of the
      contexts that do. */
  ghost predicate DrivenTogether(args: seq<Expr>, want: bool, host: Host, variable: VariableSource, lists: ListSource) {
    exists wide: Json :: wide.Object? && DrivenIn(args, want, wide, host, variable, lists)
  }

  ghost predicate DrivenIn(args: seq<Expr>, want: bool, wide: Json, host: Host, variable: VariableSource,
                           lists: ListSource)
  {
    forall i | 0 <= i < |args| ::
      var c := SynthesizeBool(args[i], want, host, variable, lists);
      c.Some? && Extends(c.value, wide)
  }

  /** A conjunction wanted true, or a disjunction wanted false, is inverted exactly when
      its operands can be driven together, and then by the least context that does. */
  lemma {:induction false} AllOperandsInvert(e: Expr, args: seq<Expr>, want: bool, host: Host,
                                             variable: VariableSource, lists: ListSource)
    requires GivesObjects(variable) && e == if want then And(args) else Or(args)
    ensures SynthesizeBool(e, want, host, variable, lists).Some? <==> DrivenTogether(args, want, host, variable, lists)
    ensures SynthesizeBool(e, want, host, variable, lists).Some? ==>
              var c := SynthesizeBool(e, want, host, variable, lists).value;
              && DrivenIn(args, want, c, host, variable, lists)
              && forall wide: Json | wide.Object? && DrivenIn(args, want, wide, host, variable, lists) ::
                  Extends(c, wide)
  {
    assert Path(e).None?;
    var operands := SynthesizeEach(args, want, host, variable, lists);
    forall i | 0 <= i < |operands| && operands[i].Some? ensures operands[i].value.Object? {
      SynthesisGivesObject(args[i], want, host, variable, lists);
    }
    MergeAllExact(operands);
    forall wide: Json
      ensures Carries(wide, operands) <==> wide.Object? && DrivenIn(args, want, wide, host, variable, lists)
    {
    }
  }

  /** A conjunction wanted false, or a disjunction wanted true, is inverted exactly when
      some operand is, and then as the first that is. */
  lemma {:induction false} OneOperandInverts(e: Expr, args: seq<Expr>, want: bool, host: Host,
                                             variable: VariableSource, lists: ListSource)
    requires e == if want then Or(args) else And(args)
    ensures SynthesizeBool(e, want, host, variable, lists).Some? <==>
            exists i :: 0 <= i < |args| && SynthesizeBool(args[i], want, host, variable, lists).Some?
    ensures SynthesizeBool(e, want, host, variable, lists).Some? ==>
              exists i :: 0 <= i < |args|
                && SynthesizeBool(args[i], want, host, variable, lists) ==
                    SynthesizeBool(e, want, host, variable, lists)
                && forall j | 0 <= j < i :: SynthesizeBool(args[j], want, host, variable, lists).None?
  {
    assert Path(e).None?;
    var operands := SynthesizeEach(args, want, host, variable, lists);
    if FirstSome(operands).Some? {
      var i := FirstIndex(operands);
      assert SynthesizeBool(args[i], want, host, variable, lists) == operands[i];
    }
    forall i | 0 <= i < |args| && SynthesizeBool(args[i], want, host, variable, lists).Some?
      ensures FirstSome(operands).Some?
    {
      assert operands[i] in operands;
    }
  }

  // ---- Leaves ----

  /** The path's text, split at its dots, has no empty segment. */
  predicate Fillable(e: Expr) {
    ContextPathOf(e).Some? && "" !in Text.Split(ContextPathOf(e).value, '.')
  }

  lemma FilledPath(path: string, value: Json)
    ensures ContextWithPath(path, value).Some? <==> "" !in Text.Split(path, '.')
  {
    InsertNests(Text.Split(path, '.'), value);
  }

  /** A chain of segments that are not empty and hold no dot is one. */
  lemma DotFreeFillable(e: Expr)
    requires Path(e).Some? && Path(e).value.0 == "context" && |Path(e).value.1| > 0
    requires forall s | s in Path(e).value.1 :: s != "" && Text.Free(s, '.')
    ensures Fillable(e)
  {
    Text.SplitJoin(Path(e).value.1, '.');
  }

  lemma PathInverts(e: Expr, want: bool, host: Host, variable: VariableSource, lists: ListSource)
    requires ContextPathOf(e).Some?
    ensures SynthesizeBool(e, want, host, variable, lists).Some? <==> Fillable(e)
  {
    FilledPath(ContextPathOf(e).value, Bool(want));
  }

  lemma LiteralInverts(v: Json, want: bool, host: Host, variable: VariableSource, lists: ListSource)
    ensures SynthesizeBool(Literal(v), want, host, variable, lists) == if v == Bool(want) then Some(EMPTY) else None
  {
  }

  predicate IsEquality(op: Comparison) {
    op.Equal? || op.NotEqual?
  }

  /** A context path against a literal the operator can be stepped across. */
  predicate Against(op: Comparison, chain: Expr, literal: Expr) {
    && ContextPathOf(chain).Some? && literal.Literal?
    && (literal.value.Number? || (IsEquality(op) && (literal.value.Bool? || literal.value.String?)))
  }

  /** A comparison is inverted, for either outcome, exactly when it compares a path that
      can be filled with such a literal, in either order. */
  lemma ComparisonInverts(op: Comparison, left: Expr, right: Expr, want: bool, host: Host, variable: VariableSource,
                          lists: ListSource)
    ensures SynthesizeBool(Compare(op, left, right), want, host, variable, lists).Some? <==>
            || (Against(op, left, right) && Fillable(left))
            || (Against(op, right, left) && Fillable(right))
  {
    assert Path(Compare(op, left, right)).None?;
    forall e: Expr, v | ContextPathOf(e).Some?
      ensures ContextWithPath(ContextPathOf(e).value, v).Some? <==> Fillable(e)
    {
      FilledPath(ContextPathOf(e).value, v);
    }
  }

  function Distance(a: int, b: int): nat {
    if a < b then b - a else a - b
  }

  /** An ordering is stepped no further than it has to be: of all numbers that give the
      wanted outcome against the literal, the chosen one is closest to it. */
  lemma OrderingStepsLeast(op: Comparison, chain: Expr, n: int, want: bool, host: Host, variable: VariableSource,
                           lists: ListSource) returns (value: int)
    requires !IsEquality(op) && Fillable(chain)
    ensures SynthesizeBool(Compare(op, chain, Literal(Number(n))), want, host, variable, lists)
         == ContextWithPath(ContextPathOf(chain).value, Number(value))
    ensures Relate(op, Number(value), Number(n)) == Success(Bool(want))
    ensures forall other | Relate(op, Number(other), Number(n)) == Success(Bool(want)) ::
              Distance(value, n) <= Distance(other, n)
  {
    assert Path(Compare(op, chain, Literal(Number(n)))).None?;
    value := OrderingValue(op.Greater? || op.GreaterEqual?, op.LessEqual? || op.GreaterEqual?, want, n).number;
  }

  /** A membership is inverted exactly when the path can be filled and the list, which is
      a literal or a known named one, has a member, or leaves a value out, as wanted. */
  lemma {:induction false} MembershipInverts(element: Expr, collection: Expr, want: bool, host: Host,
                                             variable: VariableSource, lists: ListSource)
    ensures SynthesizeBool(In(element, collection), want, host, variable, lists).Some? <==>
            && Fillable(element)
            && MembersOf(collection, lists).Some?
            && var members := MembersOf(collection, lists).value;
               if want then members != []
               else !({String(NOT_IN_LIST), String(FIXTURE_OTHER), Bool(false)} <= set m | m in members)
  {
    assert Path(In(element, collection)).None?;
    if ContextPathOf(element).Some? && MembersOf(collection, lists).Some? {
      var members := MembersOf(collection, lists).value;
      LeftOut(members);
      if want && members != [] {
        FilledPath(ContextPathOf(element).value, members[0]);
      } else if !want && NonMember(members).Some? {
        FilledPath(ContextPathOf(element).value, NonMember(members).value);
      }
    }
  }

  lemma {:induction false} LeftOut(members: seq<Json>)
    ensures NonMember(members).None? <==>
            {String(NOT_IN_LIST), String(FIXTURE_OTHER), Bool(false)} <= set m | m in members
  {
  }

  /** The members of a literal list are its boolean, numeric and text literals. */
  lemma {:induction false} LiteralMembers(es: seq<Expr>, lists: ListSource, m: Json)
    ensures MembersOf(List(es), lists).Some?
    ensures m in MembersOf(List(es), lists).value <==>
            Written(m) && exists x :: x in es && x == Literal(m)
  {
    LiteralsAreElements(es, m);
    if m in LiteralElements(es) {
      var x :| x in es && LiteralJson(x) == Some(m);
      assert x == Literal(m);
    }
  }

  /** The members of a named list are what the source says, if it knows the list. */
  lemma NamedMembers(id: string, lists: ListSource)
    ensures MembersOf(Select(Ident("lists"), id, false), lists) == lists(id)
  {
    var list := Select(Ident("lists"), id, false);
    assert Path(list) == Some(("lists", [] + [id]));
    assert ([] + [id])[0] == id;
  }

  /** Candidate `i` falls inside the range, or outside it, as wanted. */
  predicate Falls(host: Host, salt: string, start: int, end: int, want: bool, i: nat) {
    (start <= BucketOf(host, salt, String(Candidate(i))) < end) == want
  }

  ghost predicate SomeFalls(host: Host, salt: string, start: int, end: int, want: bool) {
    exists i: nat :: i < MAX_BUCKET_CANDIDATES && Falls(host, salt, start, end, want, i)
  }

  lemma KeyFound(host: Host, salt: string, start: int, end: int, want: bool)
    ensures BucketKey(host, salt, start, end, want, 0).Some? <==> SomeFalls(host, salt, start, end, want)
  {
    BucketKeyExact(host, salt, start, end, want, 0);
    if SomeFalls(host, salt, start, end, want) {
      var i: nat :| i < MAX_BUCKET_CANDIDATES && Falls(host, salt, start, end, want, i);
      assert Hits(host, salt, start, end, Candidate(i)) == want;
    }
    if BucketKey(host, salt, start, end, want, 0).Some? {
      var i: nat :| i < MAX_BUCKET_CANDIDATES && Hits(host, salt, start, end, Candidate(i)) == want;
      assert Falls(host, salt, start, end, want, i);
    }
  }

  /** A bucket test is inverted exactly when its path can be filled, its other arguments
      are literals of the right kinds, and some candidate falls inside or outside as wanted. */
  lemma BucketInverts(args: seq<Expr>, want: bool, host: Host, variable: VariableSource, lists: ListSource)
    ensures SynthesizeBool(Bucket(args), want, host, variable, lists).Some? <==>
            && |args| == 4 && Fillable(args[0]) && IsText(args[1]) && IsNumber(args[2]) && IsNumber(args[3])
            && SomeFalls(host, args[1].value.text, args[2].value.number, args[3].value.number, want)
  {
    BucketIs(args, want, host, variable, lists);
    BucketContext(args, want, host);
  }

  lemma BucketIs(args: seq<Expr>, want: bool, host: Host, variable: VariableSource, lists: ListSource)
    ensures SynthesizeBool(Bucket(args), want, host, variable, lists) == SynthesizeBucket(args, want, host)
  {
    assert Path(Bucket(args)).None?;
  }

  lemma BucketContext(args: seq<Expr>, want: bool, host: Host)
    ensures SynthesizeBucket(args, want, host).Some? <==>
            && |args| == 4 && Fillable(args[0]) && IsText(args[1]) && IsNumber(args[2]) && IsNumber(args[3])
            && SomeFalls(host, args[1].value.text, args[2].value.number, args[3].value.number, want)
  {
    if |args| == 4 && ContextPathOf(args[0]).Some? && IsText(args[1]) && IsNumber(args[2]) && IsNumber(args[3]) {
      var salt, start, end := args[1].value.text, args[2].value.number, args[3].value.number;
      KeyFound(host, salt, start, end, want);
      var key := BucketKey(host, salt, start, end, want, 0);
      if key.Some? {
        FilledPath(ContextPathOf(args[0]).value, String(key.value));
      }
    }
  }

  /** A reference to another variable is inverted as its source says. */
  lemma ReferenceInverts(e: Expr, id: string, want: bool, host: Host, variable: VariableSource, lists: ListSource)
    requires ReferenceOf(e) == Some(Variable(id))
    ensures SynthesizeBool(e, want, host, variable, lists) == variable(id, want)
  {
  }

  /** Nothing else is inverted. */
  lemma OthersRefused(e: Expr, want: bool, host: Host, variable: VariableSource, lists: ListSource)
    requires e.Ident? || e.Select? || e.Index? || e.List? || e.Call? || e.Comprehension?
    requires ContextPathOf(e).None? && (ReferenceOf(e).Some? ==> !ReferenceOf(e).value.Variable?)
    ensures SynthesizeBool(e, want, host, variable, lists).None?
  {
  }
}
