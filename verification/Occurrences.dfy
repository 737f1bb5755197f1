/** The static pass records nothing that is not there: every read stands for a chain in
    the expression whose root is free, and is classified by that chain. */
module Occurrences {
  import opened Cel
  import opened References
  import Text

  /** `c` stands in `e`, under these bound names when `bound` hold around `e`. */
  ghost predicate Occurs(c: Expr, inner: seq<string>, e: Expr, bound: seq<string>)
    decreases e
  {
    || (c == e && inner == bound)
    || (exists d :: d in OuterParts(e) && Occurs(c, inner, d, bound))
    || (e.Comprehension? && exists d :: d in LoopParts(e) && Occurs(c, inner, d, LoopScope(e, bound)))
  }

  /** The parts of an expression that see the names around it. */
  function OuterParts(e: Expr): (r: seq<Expr>)
    ensures forall d | d in r :: d < e
  {
    if e.Comprehension? then [e.iterRange, e.accuInit] else Children(e)
  }

  /** The parts of a loop that see its own names too. */
  function LoopParts(e: Expr): (r: seq<Expr>)
    requires e.Comprehension?
    ensures forall d | d in r :: d < e
  {
    [e.loopCond, e.loopStep, e.result]
  }

  /** What the recorded text of a path is. */
  function PathText(segments: seq<string>): string {
    Text.Join(segments, '.')
  }

  /** What a chain stands for, by its root. */
  predicate StandsFor(c: Expr, r: Read) {
    && Path(c).Some? && |Path(c).value.1| > 0
    && var (root, path) := Path(c).value;
       match root
       case "context" => r == ContextPath(PathText(path))
       case "entry" => r == EntryPath(PathText(path))
       case "variables" => r == VariableId(path[0])
       case "lists" => r == ListId(path[0])
       case "env" =>
         if path == ["now"] then false
         else if path == ["resolving", "variable"] then r == Resolving
         else if |path| == 2 && path[0] == "qualifier" then r == InvalidRoot(LegacyQualifier)
         else r == InvalidRoot(UnknownEnvMember(PathText(path)))
       case "qualifier" => r == InvalidRoot(LegacyQualifier)
       case _ => r == InvalidRoot(UnknownRoot(root))
  }

  /** A chain the pass records stands free in the expression. */
  ghost predicate Free(c: Expr, inner: seq<string>, e: Expr, bound: seq<string>) {
    Occurs(c, inner, e, bound) && Path(c).Some? && Path(c).value.0 !in inner
  }

  /** Every recorded read stands for a chain whose root nothing around it binds. */
  lemma {:induction false} ReadsOccur(e: Expr, bound: seq<string>, r: Read) returns (c: Expr, inner: seq<string>)
    requires r in Collected(e, bound)
    ensures Free(c, inner, e, bound) && StandsFor(c, r)
    decreases e, 1
  {
    if ReferenceOf(e).Some? || RootIssueOf(e).Some? {
      c, inner := e, bound;
    } else if e.Comprehension? {
      c, inner := LoopReadsOccur(e, bound, r);
    } else {
      c, inner := FirstReadsOccur(e, |Children(e)|, bound, r);
    }
  }

  lemma {:induction false} FirstReadsOccur(e: Expr, n: nat, bound: seq<string>, r: Read)
    returns (c: Expr, inner: seq<string>)
    requires !e.Comprehension? && n <= |Children(e)| && r in CollectedFirst(e, n, bound)
    ensures Free(c, inner, e, bound) && StandsFor(c, r)
    decreases e, 0, n
  {
    if r in CollectedFirst(e, n - 1, bound) {
      c, inner := FirstReadsOccur(e, n - 1, bound, r);
    } else {
      var d := Children(e)[n - 1];
      c, inner := ReadsOccur(d, bound, r);
      assert d in OuterParts(e);
    }
  }

  lemma {:induction false} LoopReadsOccur(e: Expr, bound: seq<string>, r: Read) returns (c: Expr, inner: seq<string>)
    requires e.Comprehension? && r in Collected(e, bound)
    requires ReferenceOf(e).None? && RootIssueOf(e).None?
    ensures Free(c, inner, e, bound) && StandsFor(c, r)
    decreases e, 0
  {
    var scope := LoopScope(e, bound);
    if r in Collected(e.iterRange, bound) {
      c, inner := ReadsOccur(e.iterRange, bound, r);
      assert e.iterRange in OuterParts(e);
    } else if r in Collected(e.accuInit, bound) {
      c, inner := ReadsOccur(e.accuInit, bound, r);
      assert e.accuInit in OuterParts(e);
    } else {
      var d := if r in Collected(e.loopCond, scope) then e.loopCond
               else if r in Collected(e.loopStep, scope) then e.loopStep else e.result;
      c, inner := ReadsOccur(d, scope, r);
      assert d in LoopParts(e);
    }
  }

  lemma RootRecorded(c: Expr, r: Read)
    requires Path(c).Some? && |Path(c).value.1| > 0
    ensures ReferenceOf(c).Some? ==> (r in Record(ReferenceOf(c).value) <==> StandsFor(c, r))
    ensures ReferenceOf(c).None? ==>
            RootIssueOf(c).Some? && (r == InvalidRoot(RootIssueOf(c).value) <==> StandsFor(c, r))
  {
  }

  /** And a whole free chain is recorded: what it stands for, or nothing for `env.now`. */
  lemma ChainRecorded(c: Expr, bound: seq<string>, r: Read)
    requires Path(c).Some? && |Path(c).value.1| > 0
    ensures r in Collected(c, bound) <==> Path(c).value.0 !in bound && StandsFor(c, r)
  {
    RootRecorded(c, r);
  }

  /** Under a binder of its root a chain is no read at all. */
  lemma BoundReadsNothing(c: Expr, bound: seq<string>)
    requires Path(c).Some? && Path(c).value.0 in bound
    ensures Collected(c, bound) == {}
  {
  }
}
