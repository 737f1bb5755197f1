/** What an expression reads: the static pass behind eager binding, lint and the
    package's dependency graph. */
module References {
  import opened Prelude
  import opened Json
  import opened Cel
  import Text

  datatype RootIssue = LegacyQualifier | UnknownEnvMember(path: string) | UnknownRoot(name: string)

  /** One entry of the reference sets. The source keeps a set for each kind of
      entry; here one set holds them all, tagged. */
  datatype Read =
    | ContextPath(path: string)
    | EntryPath(path: string)
    | VariableId(id: string)
    | ListId(id: string)
    | InvalidRoot(issue: RootIssue)
    | Resolving

  type References = set<Read>

  function VariablesOf(refs: References): set<string> {
    set r | r in refs && r.VariableId? :: r.id
  }

  function ListsOf(refs: References): set<string> {
    set r | r in refs && r.ListId? :: r.id
  }

  datatype Reference =
    | Context(path: string)
    | Entry(path: string)
    | Variable(id: string)
    | ListOf(id: string)
    | EnvNow
    | ResolvingVariable

  function ReferenceOf(e: Expr): Option<Reference> {
    match Path(e)
    case None => None
    case Some((root, segments)) =>
      if |segments| == 0 then None
      else if root == "context" then Some(Context(Text.Join(segments, '.')))
      else if root == "entry" then Some(Entry(Text.Join(segments, '.')))
      else if root == "variables" then Some(Variable(segments[0]))
      else if root == "lists" then Some(ListOf(segments[0]))
      else if root == "env" && segments == ["now"] then Some(EnvNow)
      else if root == "env" && segments == ["resolving", "variable"] then Some(ResolvingVariable)
      else None
  }

  /** Classifies a chain that `ReferenceOf` did not recognise. */
  function RootIssueOf(e: Expr): Option<RootIssue> {
    match Path(e)
    case None => None
    case Some((root, segments)) =>
      if |segments| == 0 || root in {"context", "entry", "variables", "lists"} then None
      else if root == "env" then
        if segments == ["now"] then None
        else if |segments| == 2 && segments[0] == "qualifier" then Some(LegacyQualifier)
        else if segments == ["resolving", "variable"] then None
        else Some(UnknownEnvMember(Text.Join(segments, '.')))
      else if root == "qualifier" then Some(LegacyQualifier)
      else Some(UnknownRoot(root))
  }

  function Record(reference: Reference): References {
    match reference
    case Context(path) => {ContextPath(path)}
    case Entry(path) => {EntryPath(path)}
    case Variable(id) => {VariableId(id)}
    case ListOf(id) => {ListId(id)}
    case EnvNow => {}
    case ResolvingVariable => {Resolving}
  }

  predicate Shadowed(e: Expr, bound: seq<string>) {
    Path(e).Some? && Path(e).value.0 in bound
  }

  function Children(e: Expr): (r: seq<Expr>)
    ensures forall c | c in r :: c < e
  {
    match e
    case Literal(_) => []
    case Ident(_) => []
    case Select(operand, _, _) => [operand]
    case Index(operand, key) => [operand, key]
    case Not(arg) => [arg]
    case And(args) => args
    case Or(args) => args
    case Compare(_, left, right) => [left, right]
    case In(element, collection) => [element, collection]
    case List(elements) => elements
    case Bucket(args) => args
    case Call(_, args) => args
    case Comprehension(_, _, iterRange, _, accuInit, loopCond, loopStep, result) =>
      [iterRange, accuInit, loopCond, loopStep, result]
  }

  /** The identifiers a comprehension puts in scope of its loop and result. */
  function LoopScope(e: Expr, bound: seq<string>): seq<string>
    requires e.Comprehension?
  {
    bound + [e.iterVar] + (if e.iterVar2.Some? then [e.iterVar2.value] else []) + [e.accuVar]
  }

  /** What `e` reads, given the identifiers bound around it. */
  function Collected(e: Expr, bound: seq<string>): References
    decreases e, 1
  {
    if Shadowed(e, bound) then {}
    else if ReferenceOf(e).Some? then Record(ReferenceOf(e).value)
    else if RootIssueOf(e).Some? then {InvalidRoot(RootIssueOf(e).value)}
    else if e.Comprehension? then
      var inner := LoopScope(e, bound);
      Collected(e.iterRange, bound) + Collected(e.accuInit, bound)
      + Collected(e.loopCond, inner) + Collected(e.loopStep, inner) + Collected(e.result, inner)
    else CollectedFirst(e, |Children(e)|, bound)
  }

  function CollectedFirst(e: Expr, n: nat, bound: seq<string>): References
    requires n <= |Children(e)|
    decreases e, 0, n
  {
    if n == 0 then {} else CollectedFirst(e, n - 1, bound) + Collected(Children(e)[n - 1], bound)
  }

  function Reads(e: Expr): References {
    Collected(e, [])
  }

  /** The pass itself: one walk that adds to the reference sets and pushes and pops
      the stack of bound identifiers. */
  class Collector {
    var found: References
    var bound: seq<string>

    constructor ()
      ensures found == {} && bound == []
    {
      found, bound := {}, [];
    }

    method Collect(e: Expr)
      modifies this
      ensures bound == old(bound)
      ensures found == old(found) + Collected(e, old(bound))
      decreases e, 1
    {
      if Shadowed(e, bound) {
        return;
      }
      var reference := ReferenceOf(e);
      if reference.Some? {
        found := found + Record(reference.value);
        return;
      }
      var issue := RootIssueOf(e);
      if issue.Some? {
        found := found + {InvalidRoot(issue.value)};
        return;
      }
      if e.Comprehension? {
        CollectComprehension(e);
        return;
      }
      var children := Children(e);
      for i := 0 to |children|
        invariant bound == old(bound)
        invariant found == old(found) + CollectedFirst(e, i, bound)
      {
        Collect(children[i]);
      }
    }

    method CollectComprehension(e: Expr)
      requires e.Comprehension?
      modifies this
      ensures bound == old(bound)
      ensures found == old(found) + Collected(e, old(bound))
      decreases e, 0
    {
      Collect(e.iterRange);
      Collect(e.accuInit);
      var outer := |bound|;
      bound := LoopScope(e, bound);
      Collect(e.loopCond);
      Collect(e.loopStep);
      Collect(e.result);
      bound := bound[..outer];
    }
  }

  // ---- The recorded reads are all an evaluation depends on. ----

  const ROOTS: set<string> := {"context", "entry", "variables", "lists"}

  /** The two environments bind `root` alike as far as `paths` can tell. */
  ghost predicate SameAlong(a: Env, b: Env, root: string, paths: set<seq<string>>) {
    && (root in a.vars <==> root in b.vars)
    && (root in a.vars ==> forall p | p in paths :: Walk(a.vars[root], p) == Walk(b.vars[root], p))
  }

  /** The recorded paths into `root`. A variable or list is read as a whole. */
  ghost function PathsInto(root: string, refs: References): set<seq<string>> {
    match root
    case "context" => set r | r in refs && r.ContextPath? :: Text.Split(r.path, '.')
    case "entry" => set r | r in refs && r.EntryPath? :: Text.Split(r.path, '.')
    case "variables" => set r | r in refs && r.VariableId? :: [r.id]
    case "lists" => set r | r in refs && r.ListId? :: [r.id]
    case _ => {}
  }

  /** The environments agree on every name that is bound or is not a root, and on
      each free root along the recorded reads. */
  ghost predicate Agree(a: Env, b: Env, bound: seq<string>, refs: References) {
    && a.host == b.host
    && (forall name | name in bound || name !in ROOTS ::
          (name in a.vars <==> name in b.vars) && (name in a.vars ==> a.vars[name] == b.vars[name]))
    && forall root | root in ROOTS && root !in bound :: SameAlong(a, b, root, PathsInto(root, refs))
  }

  /** No free root is used bare or indexed dynamically, no path segment holds a
      dot, and a loop variable that hides a root is not in scope of a result that
      could read the root: macros yield the accumulator or compare it. */
  predicate Analysable(e: Expr, bound: seq<string>)
    decreases e, 1
  {
    if Shadowed(e, bound) then true
    else if Path(e).Some? then
      var (root, segments) := Path(e).value;
      if |segments| == 0 then root !in ROOTS
      else root in {"context", "entry"} ==> Text.DotFree(segments)
    else if e.Comprehension? then
      var inner := LoopScope(e, bound);
      && Analysable(e.iterRange, bound) && Analysable(e.accuInit, bound)
      && Analysable(e.loopCond, inner) && Analysable(e.loopStep, inner)
      && Analysable(e.result, inner)
      && (MacroResult(e.result, e.accuVar)
          || (e.iterVar !in ROOTS && (e.iterVar2.Some? ==> e.iterVar2.value !in ROOTS)))
    else forall c | c in Children(e) :: Analysable(c, bound)
  }

  predicate MacroResult(result: Expr, accu: string) {
    || result == Ident(accu)
    || (result.Compare? && result.left == Ident(accu) && result.right.Literal?)
  }

  ghost predicate Similar(a: Outcome, b: Outcome) {
    a == b || (a.Found? && b.Found?)
  }

  predicate Tested(e: Expr) {
    match e
    case Select(operand, _, test) => test || Tested(operand)
    case Index(operand, _) => Tested(operand)
    case _ => false
  }

  /** What plain selection makes of a walk. */
  function Selected(o: Outcome, path: seq<string>): Value {
    match o
    case Found(v) => Success(v)
    case Missing(d) => if d < |path| then Failure(NoSuchKey(path[d])) else Failure(NoOverload)
    case NoFields(_) => Failure(NoOverload)
  }

  lemma SimilarPrefix(a: Json, b: Json, path: seq<string>, field: string)
    requires Similar(Walk(a, path + [field]), Walk(b, path + [field]))
    ensures Similar(Walk(a, path), Walk(b, path))
  {
    WalkSnoc(a, path, field);
    WalkSnoc(b, path, field);
    WalkStops(a, path, 0);
    WalkStops(b, path, 0);
  }

  /** A chain evaluates to a function of where walking its segments leads. */
  lemma {:induction false} ChainWalks(e: Expr, env: Env)
    requires Path(e).Some? && Path(e).value.0 in env.vars && !Tested(e)
    ensures var (root, path) := Path(e).value;
            Eval(e, env) == Selected(Walk(env.vars[root], path), path)
  {
    if !e.Ident? {
      var (root, path) := Path(e).value;
      var init := path[..|path| - 1];
      ChainWalks(e.operand, env);
      assert path == init + [path[|init|]];
      WalkSnoc(env.vars[root], init, path[|init|]);
      WalkStops(env.vars[root], init, 0);
    }
  }

  /** `has` and the selections around it too, when the walks cannot be told apart. */
  lemma {:induction false} ChainAgrees(e: Expr, a: Env, b: Env)
    requires Path(e).Some?
    requires var root := Path(e).value.0; root in a.vars && root in b.vars
    requires var (root, path) := Path(e).value;
             Similar(Walk(a.vars[root], path), Walk(b.vars[root], path))
    ensures Tested(e) ==> Eval(e, a) == Eval(e, b)
  {
    if !e.Ident? && Tested(e) {
      var (root, path) := Path(e).value;
      var init := path[..|path| - 1];
      assert path == init + [path[|init|]];
      assert Path(e.operand).value == (root, init);
      SimilarPrefix(a.vars[root], b.vars[root], init, path[|init|]);
      if Tested(e.operand) {
        ChainAgrees(e.operand, a, b);
      } else {
        TestAgrees(e, a, b, root, init, path[|init|]);
      }
    }
  }

  /** `has` around a chain of plain selections. */
  lemma TestAgrees(e: Expr, a: Env, b: Env, root: string, init: seq<string>, last: string)
    requires (e.Select? || e.Index?) && Path(e) == Some((root, init + [last])) && Path(e.operand) == Some((root, init))
    requires Tested(e) && !Tested(e.operand) && root in a.vars && root in b.vars
    requires Similar(Walk(a.vars[root], init + [last]), Walk(b.vars[root], init + [last]))
    ensures Eval(e, a) == Eval(e, b)
  {
    ChainWalks(e.operand, a);
    ChainWalks(e.operand, b);
    assert e.Select? && e.test && e.field == (init + [last])[|init|];
    TestStep(a.vars[root], b.vars[root], init, last);
  }

  lemma TestStep(x: Json, y: Json, init: seq<string>, last: string)
    requires Similar(Walk(x, init + [last]), Walk(y, init + [last]))
    ensures var p, q := Selected(Walk(x, init), init), Selected(Walk(y, init), init);
            if p.Success? && q.Success? then SelectField(p.value, last, true) == SelectField(q.value, last, true)
              else p == q
  {
    WalkSnoc(x, init, last);
    WalkSnoc(y, init, last);
    WalkStops(x, init, 0);
    WalkStops(y, init, 0);
  }

  /** Equal walks along a prefix of a chain settle the whole chain. */
  lemma {:induction false} WalkExtends(a: Json, b: Json, prefix: seq<string>, path: seq<string>)
    requires prefix <= path && Walk(a, prefix) == Walk(b, prefix)
    ensures Walk(a, path) == Walk(b, path)
    decreases |path|
  {
    if |prefix| == |path| {
      assert prefix == path;
    } else {
      var init := path[..|path| - 1];
      assert path == init + [path[|init|]];
      WalkExtends(a, b, prefix, init);
      WalkSnoc(a, init, path[|init|]);
      WalkSnoc(b, init, path[|init|]);
    }
  }

  lemma ChainSame(e: Expr, a: Env, b: Env, prefix: seq<string>)
    requires Path(e).Some? && prefix <= Path(e).value.1
    requires var root := Path(e).value.0; root in a.vars && root in b.vars
    requires var root := Path(e).value.0; Walk(a.vars[root], prefix) == Walk(b.vars[root], prefix)
    ensures Eval(e, a) == Eval(e, b)
  {
    var (root, path) := Path(e).value;
    WalkExtends(a.vars[root], b.vars[root], prefix, path);
    if Tested(e) {
      ChainAgrees(e, a, b);
    } else {
      ChainWalks(e, a);
      ChainWalks(e, b);
    }
  }

  lemma {:induction false} ChainUndeclared(e: Expr, env: Env)
    requires Path(e).Some? && Path(e).value.0 !in env.vars
    ensures Eval(e, env) == Failure(Undeclared(Path(e).value.0))
  {
    if !e.Ident? {
      ChainUndeclared(e.operand, env);
    }
  }

  /** The chain case of the theorem below. */
  lemma ChainCase(e: Expr, a: Env, b: Env, bound: seq<string>, refs: References)
    requires Path(e).Some?
    requires Analysable(e, bound) && Collected(e, bound) <= refs && Agree(a, b, bound, refs)
    ensures Eval(e, a) == Eval(e, b)
  {
    var (root, path) := Path(e).value;
    if root in bound || root !in ROOTS {
      if root in a.vars {
        ChainSame(e, a, b, []);
      } else {
        ChainUndeclared(e, a);
        ChainUndeclared(e, b);
      }
    } else {
      assert ReferenceOf(e).Some?;
      var prefix := if root in {"context", "entry"} then path else path[..1];
      if root in {"context", "entry"} {
        Text.SplitJoin(path, '.');
      }
      assert prefix in PathsInto(root, refs) by {
        assert Record(ReferenceOf(e).value) <= refs;
        assert root in {"variables", "lists"} ==> prefix == [path[0]];
        assert root == "context" ==> ContextPath(Text.Join(path, '.')) in refs;
        assert root == "entry" ==> EntryPath(Text.Join(path, '.')) in refs;
        assert root == "variables" ==> VariableId(path[0]) in refs;
        assert root == "lists" ==> ListId(path[0]) in refs;
      }
      if root in a.vars {
        ChainSame(e, a, b, prefix);
      } else {
        ChainUndeclared(e, a);
        ChainUndeclared(e, b);
      }
    }
  }

  lemma {:induction false} EachCovered(e: Expr, n: nat, bound: seq<string>, refs: References)
    requires n <= |Children(e)| && CollectedFirst(e, n, bound) <= refs
    ensures forall i | 0 <= i < n :: Collected(Children(e)[i], bound) <= refs
  {
    if n > 0 {
      EachCovered(e, n - 1, bound, refs);
    }
  }

  lemma EachSame(es: seq<Expr>, a: Env, b: Env)
    requires forall e | e in es :: Eval(e, a) == Eval(e, b)
    ensures EvalEach(es, a) == EvalEach(es, b)
  {
    forall i | 0 <= i < |es| ensures EvalEach(es, a)[i] == EvalEach(es, b)[i] {
      assert es[i] in es;
    }
  }

  /** Collected references over-approximate reads: environments that agree along
      everything recorded evaluate the expression to the same value or error. */
  lemma {:induction false} ReadsCovered(e: Expr, a: Env, b: Env, bound: seq<string>, refs: References)
    requires Analysable(e, bound) && Collected(e, bound) <= refs && Agree(a, b, bound, refs)
    ensures Eval(e, a) == Eval(e, b)
    decreases e, 1
  {
    if Path(e).Some? {
      ChainCase(e, a, b, bound, refs);
    } else if e.Comprehension? {
      ComprehensionCase(e, a, b, bound, refs);
    } else {
      EachCovered(e, |Children(e)|, bound, refs);
      forall c | c in Children(e) ensures Eval(c, a) == Eval(c, b) {
        ReadsCovered(c, a, b, bound, refs);
      }
      ChildrenSettle(e, a, b);
    }
  }

  lemma ChildrenSettle(e: Expr, a: Env, b: Env)
    requires !e.Ident? && !e.Comprehension? && a.host == b.host
    requires forall c | c in Children(e) :: Eval(c, a) == Eval(c, b)
    ensures Eval(e, a) == Eval(e, b)
  {
    match e
    case Literal(_) =>
    case Select(operand, _, _) => assert operand in Children(e);
    case Index(operand, key) => assert operand in Children(e) && key in Children(e);
    case Not(arg) => assert arg in Children(e);
    case And(args) => EachSame(args, a, b);
    case Or(args) => EachSame(args, a, b);
    case Compare(_, left, right) => assert left in Children(e) && right in Children(e);
    case In(element, collection) => assert element in Children(e) && collection in Children(e);
    case List(elements) => EachSame(elements, a, b);
    case Bucket(args) => EachSame(args, a, b);
    case Call(_, args) => EachSame(args, a, b);
  }

  lemma BindAgrees(a: Env, b: Env, bound: seq<string>, refs: References, name: string, v: Json)
    requires Agree(a, b, bound, refs)
    ensures Agree(a.(vars := a.vars[name := v]), b.(vars := b.vars[name := v]), bound + [name], refs)
  {
  }

  lemma ScopeAgrees(a: Env, b: Env, bound: seq<string>, refs: References, wider: seq<string>)
    requires Agree(a, b, bound, refs)
    requires forall name | name in bound :: name in wider
    requires forall name | name in wider :: name in bound || name !in ROOTS
    ensures Agree(a, b, wider, refs)
  {
  }

  lemma LoopAgrees(e: Expr, item: Item, accu: Json, a: Env, b: Env, bound: seq<string>, refs: References)
    requires e.Comprehension? && Agree(a, b, bound, refs)
    ensures Agree(LoopEnv(e, item, accu, a), LoopEnv(e, item, accu, b), LoopScope(e, bound), refs)
  {
    var one := if e.iterVar2.None? then item.only else item.first;
    var a1, b1 := a.(vars := a.vars[e.iterVar := one]), b.(vars := b.vars[e.iterVar := one]);
    BindAgrees(a, b, bound, refs, e.iterVar, one);
    if e.iterVar2.None? {
      BindAgrees(a1, b1, bound + [e.iterVar], refs, e.accuVar, accu);
      assert LoopScope(e, bound) == bound + [e.iterVar] + [e.accuVar];
    } else {
      var two := e.iterVar2.value;
      BindAgrees(a1, b1, bound + [e.iterVar], refs, two, item.second);
      BindAgrees(a1.(vars := a1.vars[two := item.second]), b1.(vars := b1.vars[two := item.second]),
                 bound + [e.iterVar] + [two], refs, e.accuVar, accu);
    }
  }

  lemma ComprehensionCase(e: Expr, a: Env, b: Env, bound: seq<string>, refs: References)
    requires e.Comprehension?
    requires Analysable(e, bound) && Collected(e, bound) <= refs && Agree(a, b, bound, refs)
    ensures Eval(e, a) == Eval(e, b)
    decreases e, 0
  {
    ReadsCovered(e.iterRange, a, b, bound, refs);
    ReadsCovered(e.accuInit, a, b, bound, refs);
    forall items: seq<Item>, accu ensures Iterate(e, items, accu, a) == Iterate(e, items, accu, b) {
      LoopCase(e, items, accu, a, b, bound, refs);
    }
    forall accu ensures Eval(e.result, WithAccu(e, accu, a)) == Eval(e.result, WithAccu(e, accu, b)) {
      ResultCase(e, accu, a, b, bound, refs);
    }
    ComprehensionSettles(e, a, b);
  }

  function WithAccu(e: Expr, accu: Json, env: Env): Env
    requires e.Comprehension?
  {
    env.(vars := env.vars[e.accuVar := accu])
  }

  lemma ComprehensionSettles(e: Expr, a: Env, b: Env)
    requires e.Comprehension?
    requires Eval(e.iterRange, a) == Eval(e.iterRange, b) && Eval(e.accuInit, a) == Eval(e.accuInit, b)
    requires forall items: seq<Item>, accu :: Iterate(e, items, accu, a) == Iterate(e, items, accu, b)
    requires forall accu :: Eval(e.result, WithAccu(e, accu, a)) == Eval(e.result, WithAccu(e, accu, b))
    ensures Eval(e, a) == Eval(e, b)
  {
    var range, init := Eval(e.iterRange, a), Eval(e.accuInit, a);
    if range.Success? && init.Success? && Elements(range.value).Success? {
      var accu := Iterate(e, Elements(range.value).value, init.value, a);
      if accu.Success? {
        assert Eval(e, a) == Eval(e.result, WithAccu(e, accu.value, a));
        assert Eval(e, b) == Eval(e.result, WithAccu(e, accu.value, b));
      }
    }
  }

  lemma ResultCase(e: Expr, accu: Json, a: Env, b: Env, bound: seq<string>, refs: References)
    requires e.Comprehension?
    requires Analysable(e, bound) && Collected(e, bound) <= refs && Agree(a, b, bound, refs)
    ensures Eval(e.result, WithAccu(e, accu, a)) == Eval(e.result, WithAccu(e, accu, b))
    decreases e, 0, 0
  {
    var ra, rb := WithAccu(e, accu, a), WithAccu(e, accu, b);
    if !MacroResult(e.result, e.accuVar) {
      BindAgrees(a, b, bound, refs, e.accuVar, accu);
      ScopeAgrees(ra, rb, bound + [e.accuVar], refs, LoopScope(e, bound));
      ReadsCovered(e.result, ra, rb, LoopScope(e, bound), refs);
    }
  }

  lemma LoopCase(e: Expr, items: seq<Item>, accu: Json, a: Env, b: Env, bound: seq<string>, refs: References)
    requires e.Comprehension?
    requires Analysable(e, bound) && Collected(e, bound) <= refs && Agree(a, b, bound, refs)
    ensures Iterate(e, items, accu, a) == Iterate(e, items, accu, b)
    decreases e, 0, |items|
  {
    if |items| > 0 {
      var la, lb := LoopEnv(e, items[0], accu, a), LoopEnv(e, items[0], accu, b);
      var inner := LoopScope(e, bound);
      LoopAgrees(e, items[0], accu, a, b, bound, refs);
      ReadsCovered(e.loopCond, la, lb, inner, refs);
      ReadsCovered(e.loopStep, la, lb, inner, refs);
      var next := Eval(e.loopStep, la);
      if next.Success? {
        LoopCase(e, items[1..], next.value, a, b, bound, refs);
      }
    }
  }
}
