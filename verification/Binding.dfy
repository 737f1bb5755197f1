/** What an expression finds under each root: the facts, the entry being judged, the
    instant, the variable being resolved, other variables, and declared lists. */
module Binding {
  import opened Prelude
  import opened Json
  import opened Package
  import opened Semantics
  import opened Cel
  import opened References
  import Order

  /** Where following a path from a value leads, as an expression reports it. */
  function ReadAlong(v: Json, path: seq<string>): Answer {
    match Walk(v, path)
    case Found(found) => Success(found)
    case Missing(depth) =>
      Failure(EvaluationFailed(if depth < |path| then NoSuchKey(path[depth]) else NoOverload))
    case NoFields(_) => Failure(EvaluationFailed(NoOverload))
  }

  predicate Chain(e: Expr, root: string, path: seq<string>) {
    Path(e) == Some((root, path)) && !Tested(e)
  }

  // ---- What is bound ----

  lemma SortedNone(s: set<string>)
    requires s == {}
    ensures Order.Sorted(s) == []
  {
  }

  lemma SortedOne(s: set<string>, id: string)
    requires s == {id}
    ensures Order.Sorted(s) == [id]
  {
    Order.AscendingUnique(Order.Sorted(s), [id]);
  }

  /** Without references, only the roots that are always there are bound. */
  lemma PlainEvaluates(w: World, e: Expression, entry: Option<Json>, target: Option<Id>, look: Lookup)
    requires VariablesOf(Reads(e.ast)) == {} && ListsOf(Reads(e.ast)) == {}
    ensures Evaluate(w, e, entry, target, look) ==
            match Eval(e.ast, EnvOf(w, entry, target, map[], map[]))
            case Success(value) => Success(value)
            case Failure(cause) => Failure(EvaluationFailed(cause))
  {
    SortedNone(VariablesOf(Reads(e.ast)));
    SortedNone(ListsOf(Reads(e.ast)));
  }

  lemma ChainReads(e: Expr, root: string, path: seq<string>)
    requires Chain(e, root, path) && root in {"context", "entry", "env"}
    ensures VariablesOf(Reads(e)) == {} && ListsOf(Reads(e)) == {}
  {
    if |path| == 0 {
      assert e == Ident(root);
      assert CollectedFirst(e, 0, []) == {};
    }
  }

  /** A chain from a root that is always bound reads along its path. */
  lemma ChainEvaluates(w: World, e: Expression, root: string, path: seq<string>, entry: Option<Json>,
                       target: Option<Id>, look: Lookup)
    requires Chain(e.ast, root, path) && root in {"context", "entry", "env"}
    ensures Evaluate(w, e, entry, target, look) == ReadAlong(EnvOf(w, entry, target, map[], map[]).vars[root], path)
  {
    ChainReads(e.ast, root, path);
    PlainEvaluates(w, e, entry, target, look);
    ChainWalks(e.ast, EnvOf(w, entry, target, map[], map[]));
  }

  // ---- Root by root ----

  /** `context.a.b` is what the facts hold there. */
  lemma ContextMeans(w: World, e: Expression, path: seq<string>, entry: Option<Json>, target: Option<Id>, look: Lookup)
    requires Chain(e.ast, "context", path)
    ensures Evaluate(w, e, entry, target, look) == ReadAlong(w.context, path)
  {
    ChainEvaluates(w, e, "context", path, entry, target, look);
  }

  /** `entry.a.b` is what the entry being judged holds there; outside a query there is
      no entry to read from. */
  lemma EntryMeans(w: World, e: Expression, path: seq<string>, entry: Option<Json>, target: Option<Id>, look: Lookup)
    requires Chain(e.ast, "entry", path)
    ensures Evaluate(w, e, entry, target, look) ==
            match entry
            case Some(value) => ReadAlong(value, path)
            case None => if path == [] then Success(Null) else Failure(EvaluationFailed(NoOverload))
  {
    ChainEvaluates(w, e, "entry", path, entry, target, look);
  }

  /** `env.now` is the instant of the resolution, whatever is being resolved. */
  lemma NowMeans(w: World, e: Expression, entry: Option<Json>, target: Option<Id>, look: Lookup)
    requires Chain(e.ast, "env", ["now"])
    ensures Evaluate(w, e, entry, target, look) == Success(String(w.now))
  {
    ChainEvaluates(w, e, "env", ["now"], entry, target, look);
    var env := EnvOf(w, entry, target, map[], map[]).vars["env"];
    assert ["now"][1..] == [];
    assert Walk(env, ["now"]) == WalkFrom(env.fields["now"], [], 1);
  }

  /** `env.resolving.variable` names the variable being resolved, and is there only for
      trace policies. */
  lemma ResolvingMeans(w: World, e: Expression, entry: Option<Json>, target: Option<Id>, look: Lookup)
    requires Chain(e.ast, "env", ["resolving", "variable"])
    ensures Evaluate(w, e, entry, target, look) ==
            match target
            case Some(id) => Success(String(id))
            case None => Failure(EvaluationFailed(NoSuchKey("resolving")))
  {
    var path := ["resolving", "variable"];
    ChainEvaluates(w, e, "env", path, entry, target, look);
    var env := EnvOf(w, entry, target, map[], map[]).vars["env"];
    assert path[1..] == ["variable"] && ["variable"][1..] == [];
    if target.Some? {
      var inner := env.fields["resolving"];
      assert Walk(env, path) == WalkFrom(inner, ["variable"], 1) == WalkFrom(inner.fields["variable"], [], 2);
    }
  }

  /** `variables.v` is whatever looking `v` up gives, its error included. */
  lemma VariableMeans(w: World, e: Expression, v: Id, entry: Option<Json>, target: Option<Id>, look: Lookup)
    requires Chain(e.ast, "variables", [v])
    ensures Evaluate(w, e, entry, target, look) == look(v)
  {
    var found := Reads(e.ast);
    assert found == {VariableId(v)};
    SortedOne(VariablesOf(found), v);
    SortedNone(ListsOf(found));
    match look(v)
    case Failure(_) =>
    case Success(value) =>
      var bound: map<string, Json> := map[v := value];
      assert BindFrom([v], 1, map[][v := value], look) == Success(bound);
      ChainWalks(e.ast, EnvOf(w, entry, target, bound, map[]));
      assert [v][1..] == [];
      assert Walk(Object(bound), [v]) == WalkFrom(value, [], 1) == Found(value);
  }

  // ---- Declared lists ----

  lemma MembershipReads(e: Expr, path: seq<string>, id: Id)
    requires e.In? && Chain(e.element, "context", path) && Chain(e.collection, "lists", [id])
    ensures VariablesOf(Reads(e)) == {} && ListsOf(Reads(e)) == {id}
  {
    ChainReads(e.element, "context", path);
    var list, element := Reads(e.collection), Reads(e.element);
    assert list == {ListId(id)};
    assert CollectedFirst(e, 1, []) == CollectedFirst(e, 0, []) + element;
    assert Reads(e) == CollectedFirst(e, 2, []) == element + list;
    forall x ensures x in ListsOf(Reads(e)) <==> x == id {
      assert ListId(x) in element ==> x in ListsOf(element);
      assert ListId(x) in Reads(e) <==> ListId(x) in element || ListId(x) in list;
    }
    forall x ensures x !in VariablesOf(Reads(e)) {
      assert VariableId(x) in element ==> x in VariablesOf(element);
    }
  }

  lemma MembershipEvaluates(e: Expr, path: seq<string>, id: Id, members: seq<Json>, env: Env)
    requires e.In? && Chain(e.element, "context", path) && Chain(e.collection, "lists", [id])
    requires "context" in env.vars && "lists" in env.vars && env.vars["lists"] == Object(map[id := Array(members)])
    ensures Eval(e, env) ==
            match Selected(Walk(env.vars["context"], path), path)
            case Failure(error) => Failure(error)
            case Success(value) => Success(Bool(value in members))
  {
    ChainWalks(e.element, env);
    ChainWalks(e.collection, env);
    assert [id][1..] == [];
    assert Walk(env.vars["lists"], [id]) == WalkFrom(Array(members), [], 1) == Found(Array(members));
  }

  /** `context.p in lists.id` asks whether the fact is a member of the declared list; a
      list that is not declared fails the expression before anything is evaluated. */
  lemma MembershipMeans(w: World, e: Expression, path: seq<string>, id: Id, entry: Option<Json>, target: Option<Id>,
                        look: Lookup)
    requires e.ast.In? && Chain(e.ast.element, "context", path) && Chain(e.ast.collection, "lists", [id])
    ensures Evaluate(w, e, entry, target, look) ==
            if id !in w.package.lists then Failure(UnknownList(id)) else
              match ReadAlong(w.context, path)
              case Failure(error) => Failure(error)
              case Success(value) => Success(Bool(value in w.package.lists[id]))
  {
    MembershipReads(e.ast, path, id);
    SortedNone(VariablesOf(Reads(e.ast)));
    SortedOne(ListsOf(Reads(e.ast)), id);
    if id in w.package.lists {
      var members := Array(w.package.lists[id]);
      var lists: map<string, Json> := map[id := members];
      assert BindLists(w, [id], 1, map[][id := members]) == Success(lists);
      MembershipEvaluates(e.ast, path, id, w.package.lists[id], EnvOf(w, entry, target, map[], lists));
    }
  }

  // ---- Conditions ----

  /** A condition has a verdict exactly when it evaluates to a boolean; any other value is
      an error of its own, and a failure stays the failure it is. */
  lemma ConditionExact(w: World, e: Expression, entry: Option<Json>, target: Option<Id>, look: Lookup)
    ensures forall verdict :: EvaluateBool(w, e, entry, target, look) == Success(verdict) <==>
                              Evaluate(w, e, entry, target, look) == Success(Bool(verdict))
    ensures Evaluate(w, e, entry, target, look).Success? && !Evaluate(w, e, entry, target, look).value.Bool? ==>
              EvaluateBool(w, e, entry, target, look) == Failure(NotBool)
    ensures Evaluate(w, e, entry, target, look).Failure? ==>
              EvaluateBool(w, e, entry, target, look) == Failure(Evaluate(w, e, entry, target, look).error)
  {
  }

  /** Of the variables an expression references the first in id order that fails decides
      its error; only then are the lists looked at. */
  lemma {:induction false} FirstFailureDecides(w: World, e: Expression, k: nat, entry: Option<Json>, target: Option<Id>,
                                               look: Lookup)
    requires k < |VariableIds(e)| && look(VariableIds(e)[k]).Failure?
    requires forall j | 0 <= j < k :: look(VariableIds(e)[j]).Success?
    ensures Evaluate(w, e, entry, target, look) == Failure(look(VariableIds(e)[k]).error)
  {
    BindStops(VariableIds(e), 0, k, map[], look);
  }

  lemma {:induction false} BindStops(ids: seq<Id>, i: nat, k: nat, bound: map<string, Json>, look: Lookup)
    requires i <= k < |ids| && look(ids[k]).Failure? && forall j | i <= j < k :: look(ids[j]).Success?
    ensures BindFrom(ids, i, bound, look) == Failure(look(ids[k]).error)
    decreases k - i
  {
    if i < k {
      BindStops(ids, i + 1, k, bound[ids[i] := look(ids[i]).value], look);
    }
  }
}
