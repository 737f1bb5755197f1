/** A package snapshot with edits layered on top, and the plan that turns the one
    into the other. */
module Overlay {
  import opened Prelude
  import Order

  type Files = map<string, string>

  datatype Plan = Plan(writes: seq<(string, string)>, deletes: seq<string>)

  // ---- Sorting a list of paths ----

  function InsertPath(sorted: seq<string>, x: string): (r: seq<string>)
    ensures multiset(r) == multiset(sorted) + multiset{x}
  {
    if |sorted| == 0 || !Order.Below(sorted[0], x) then [x] + sorted
    else
      assert sorted == [sorted[0]] + sorted[1..];
      [sorted[0]] + InsertPath(sorted[1..], x)
  }

  function SortPaths(paths: seq<string>): (r: seq<string>)
    ensures multiset(r) == multiset(paths)
  {
    if |paths| == 0 then [] else
      assert paths == [paths[0]] + paths[1..];
      InsertPath(SortPaths(paths[1..]), paths[0])
  }

  lemma {:induction false} InsertAscends(sorted: seq<string>, x: string)
    requires Order.Ascending(sorted) && x !in sorted
    ensures Order.Ascending(InsertPath(sorted, x))
  {
    if |sorted| > 0 {
      Order.BelowTotal(sorted[0], x);
      assert sorted[0] in sorted;
      if Order.Below(sorted[0], x) {
        var rest := InsertPath(sorted[1..], x);
        InsertAscends(sorted[1..], x);
        forall y | y in rest ensures Order.Below(sorted[0], y) {
          assert y in multiset(rest);
          assert y in multiset(sorted[1..]) + multiset{x};
          if y != x {
            var i :| 0 <= i < |sorted[1..]| && sorted[1..][i] == y;
            assert sorted[i + 1] == y;
          }
        }
        Order.AscendingFront(sorted[0], rest);
      } else {
        forall y | y in sorted ensures Order.Below(x, y) {
          var i :| 0 <= i < |sorted| && sorted[i] == y;
          if i > 0 {
            Order.BelowTransitive(x, sorted[0], y);
          }
        }
        Order.AscendingFront(x, sorted);
      }
    }
  }

  predicate Distinct(paths: seq<string>) {
    forall i, j | 0 <= i < j < |paths| :: paths[i] != paths[j]
  }

  /** Sorting a list without repetitions gives the ascending listing of its set. */
  lemma {:induction false} SortLists(paths: seq<string>)
    requires Distinct(paths)
    ensures Order.Ascending(SortPaths(paths))
    ensures SortPaths(paths) == Order.Sorted(Order.Elements(paths))
  {
    if |paths| > 0 {
      SortLists(paths[1..]);
      SortedMembers(paths[1..]);
      assert paths[0] !in paths[1..];
      InsertAscends(SortPaths(paths[1..]), paths[0]);
    }
    SortedMembers(paths);
    Order.AscendingUnique(SortPaths(paths), Order.Sorted(Order.Elements(paths)));
  }

  lemma SortedMembers(paths: seq<string>)
    ensures forall x :: x in SortPaths(paths) <==> x in paths
  {
    assert forall x :: x in SortPaths(paths) <==> x in multiset(SortPaths(paths));
  }

  // ---- The working view ----

  function ViewOf(base: Files, edits: map<string, Option<string>>): Files {
    map p | p in base.Keys + edits.Keys && (p in edits ==> edits[p].Some?) ::
      if p in edits then edits[p].value else base[p]
  }

  function Lookup(files: Files, path: string): Option<string> {
    if path in files then Some(files[path]) else None
  }

  function Under(files: Files, prefix: string): set<string> {
    set p | p in files && prefix <= p
  }

  class WorkingTree {
    const base: Files
    var edits: map<string, Option<string>>

    constructor (files: Files)
      ensures base == files && View() == files
    {
      base := files;
      edits := map[];
    }

    /** What later operations see. */
    function View(): Files
      reads this
    {
      ViewOf(base, edits)
    }

    method Exists(path: string) returns (r: bool)
      ensures r <==> path in View()
    {
      r := if path in edits then edits[path].Some? else path in base;
    }

    method Content(path: string) returns (r: Option<string>)
      ensures r == Lookup(View(), path)
    {
      r := if path in edits then edits[path] else Lookup(base, path);
    }

    method Write(path: string, content: string)
      modifies this
      ensures View() == old(View())[path := content]
    {
      edits := edits[path := Some(content)];
    }

    method Delete(path: string)
      modifies this
      ensures View() == old(View()) - {path}
    {
      edits := edits[path := None];
    }

    /** Every live path under a prefix: the base's, amended by each edit, sorted. */
    method PathsUnder(prefix: string) returns (paths: seq<string>)
      ensures paths == Order.Sorted(Under(View(), prefix))
    {
      paths := BasePaths(prefix);
      var keys := Order.Sorted(edits.Keys);
      ghost var done := {};
      for i := 0 to |keys|
        invariant done == Order.Elements(keys[..i])
        invariant Distinct(paths)
        invariant forall p :: p in paths <==> prefix <= p && (if p in done then edits[p].Some? else p in base)
      {
        Order.NextElement(keys, i);
        var path := keys[i];
        var edit := edits[path];
        if edit.None? {
          paths := Without(paths, path);
        } else if prefix <= path && path !in paths {
          paths := paths + [path];
        }
        done := done + {path};
      }
      assert keys[..|keys|] == keys;
      assert Order.Elements(paths) == Under(View(), prefix);
      SortLists(paths);
      paths := SortPaths(paths);
    }

    method BasePaths(prefix: string) returns (paths: seq<string>)
      ensures Distinct(paths)
      ensures forall p :: p in paths <==> p in base && prefix <= p
    {
      paths := [];
      var keys := Order.Sorted(base.Keys);
      ghost var done := {};
      for i := 0 to |keys|
        invariant done == Order.Elements(keys[..i])
        invariant Distinct(paths)
        invariant forall p :: p in paths <==> p in done && prefix <= p
      {
        Order.NextElement(keys, i);
        if prefix <= keys[i] {
          paths := paths + [keys[i]];
        }
        done := done + {keys[i]};
      }
      assert keys[..|keys|] == keys;
    }

    /** The edits that matter, in path order: writes that change content, deletes of
        files the base has. */
    method IntoPlan() returns (plan: Plan)
      ensures PlanFor(base, View(), plan)
    {
      plan := Plan([], []);
      var keys := Order.Sorted(edits.Keys);
      ghost var done := {};
      for i := 0 to |keys|
        invariant done == Order.Elements(keys[..i])
        invariant Order.Ascending(WritePaths(plan)) && Order.Ascending(plan.deletes)
        invariant forall p | p in WritePaths(plan) || p in plan.deletes :: p in done
        invariant forall w | w in plan.writes ::
                  w.0 in edits && edits[w.0] == Some(w.1) && Lookup(base, w.0) != Some(w.1)
        invariant forall p | p in done && edits[p].Some? && Lookup(base, p) != edits[p] ::
                  (p, edits[p].value) in plan.writes
        invariant forall p :: p in plan.deletes <==> p in done && edits[p].None? && p in base
      {
        Order.NextElement(keys, i);
        var path := keys[i];
        Order.AllBelow(keys, i);
        var edit := edits[path];
        if edit.Some? {
          if Lookup(base, path) != edit {
            ghost var before := WritePaths(plan);
            Order.AscendingBack(before, path);
            plan := plan.(writes := plan.writes + [(path, edit.value)]);
            assert WritePaths(plan) == before + [path];
          }
        } else if path in base {
          Order.AscendingBack(plan.deletes, path);
          plan := plan.(deletes := plan.deletes + [path]);
        }
        done := done + {path};
      }
      assert keys[..|keys|] == keys;
      PlanIsFor(base, edits, plan);
    }
  }

  function Without(paths: seq<string>, path: string): (r: seq<string>)
    ensures forall p :: p in r <==> p in paths && p != path
    ensures Distinct(paths) ==> Distinct(r)
  {
    if |paths| == 0 then [] else
      var rest := Without(paths[1..], path);
      assert paths == [paths[0]] + paths[1..];
      assert Distinct(paths) ==> Distinct(paths[1..]) && paths[0] !in paths[1..];
      if paths[0] == path then rest else [paths[0]] + rest
  }

  // ---- The plan ----

  function WritePaths(plan: Plan): (r: seq<string>)
    ensures |r| == |plan.writes| && forall i | 0 <= i < |r| :: r[i] == plan.writes[i].0
  {
    seq(|plan.writes|, i requires 0 <= i < |plan.writes| => plan.writes[i].0)
  }

  function Written(files: Files, writes: seq<(string, string)>): Files {
    if |writes| == 0 then files
    else Written(files, writes[..|writes| - 1])[writes[|writes| - 1].0 := writes[|writes| - 1].1]
  }

  /** Carrying a plan out: writes first, deletions after. */
  function Carried(files: Files, plan: Plan): Files {
    Written(files, plan.writes) - Order.Elements(plan.deletes)
  }

  /** The plan is minimal and exact: each path once and in order, no write that
      changes nothing, no delete of an absent file, no path in both lists, and
      carrying it out on the base yields the view. */
  ghost predicate PlanFor(base: Files, view: Files, plan: Plan) {
    && Order.Ascending(WritePaths(plan)) && Order.Ascending(plan.deletes)
    && (forall w | w in plan.writes :: Lookup(base, w.0) != Some(w.1))
    && (forall p | p in plan.deletes :: p in base && p !in WritePaths(plan))
    && Carried(base, plan) == view
  }

  lemma {:induction false} WrittenIs(files: Files, writes: seq<(string, string)>, path: string)
    requires forall i, j | 0 <= i < j < |writes| :: writes[i].0 != writes[j].0
    ensures forall w | w in writes && w.0 == path :: Lookup(Written(files, writes), path) == Some(w.1)
    ensures (forall w | w in writes :: w.0 != path) ==> Lookup(Written(files, writes), path) == Lookup(files, path)
  {
    if |writes| > 0 {
      var init := writes[..|writes| - 1];
      WrittenIs(files, init, path);
      assert writes == init + [writes[|writes| - 1]];
    }
  }

  lemma PlanIsFor(base: Files, edits: map<string, Option<string>>, plan: Plan)
    requires Order.Ascending(WritePaths(plan)) && Order.Ascending(plan.deletes)
    requires forall w | w in plan.writes :: w.0 in edits && edits[w.0] == Some(w.1) && Lookup(base, w.0) != Some(w.1)
    requires forall p | p in edits && edits[p].Some? && Lookup(base, p) != edits[p] ::
             (p, edits[p].value) in plan.writes
    requires forall p :: p in plan.deletes <==> p in edits && edits[p].None? && p in base
    ensures PlanFor(base, ViewOf(base, edits), plan)
  {
    var view := ViewOf(base, edits);
    WritesDistinct(plan);
    forall p ensures Lookup(Carried(base, plan), p) == Lookup(view, p) {
      WrittenIs(base, plan.writes, p);
      if p in edits && edits[p].Some? && Lookup(base, p) != edits[p] {
        assert (p, edits[p].value) in plan.writes;
      }
    }
    SameLookups(Carried(base, plan), view);
    forall i | 0 <= i < |plan.writes| ensures WritePaths(plan)[i] !in plan.deletes {
      assert plan.writes[i] in plan.writes;
    }
  }

  lemma WritesDistinct(plan: Plan)
    requires Order.Ascending(WritePaths(plan))
    ensures forall i, j | 0 <= i < j < |plan.writes| :: plan.writes[i].0 != plan.writes[j].0
  {
    forall i, j | 0 <= i < j < |plan.writes| ensures plan.writes[i].0 != plan.writes[j].0 {
      assert Order.Below(WritePaths(plan)[i], WritePaths(plan)[j]);
      Order.BelowIrreflexive(plan.writes[i].0);
    }
  }

  lemma SameLookups(a: Files, b: Files)
    requires forall p :: Lookup(a, p) == Lookup(b, p)
    ensures a == b
  {
    forall p ensures p in a <==> p in b {
      assert Lookup(a, p) == Lookup(b, p);
    }
    forall p | p in a ensures a[p] == b[p] {
      assert Lookup(a, p) == Lookup(b, p);
    }
  }
}
