/** What a catalog query returns, from the filter to the limit. */
module QueryMeaning {
  import opened Prelude
  import opened Json
  import opened Package
  import opened QueryPipeline
  import opened Semantics
  import Order

  /** The candidates among the first `n` for which the filter answered true. */
  ghost function Passing(w: World, query: Query, candidates: seq<(string, Json)>, n: nat, look: Lookup)
    : seq<(string, Json)>
    requires n <= |candidates|
  {
    if n == 0 then [] else
      var before := Passing(w, query, candidates, n - 1, look);
      if Keeps(w, query, candidates[n - 1].1, look) == Success(true) then before + [candidates[n - 1]] else before
  }

  lemma PassingOnce(w: World, query: Query, candidates: seq<(string, Json)>, i: nat, look: Lookup)
    requires i < |candidates| && Keeps(w, query, candidates[i].1, look).Success?
    ensures MatchesFrom(w, query, candidates, i, Passing(w, query, candidates, i, look), look)
         == MatchesFrom(w, query, candidates, i + 1, Passing(w, query, candidates, i + 1, look), look)
  {
    MatchesOnce(w, query, candidates, i, Passing(w, query, candidates, i, look), look);
  }

  lemma {:induction false} MatchesArePassing(w: World, query: Query, candidates: seq<(string, Json)>, i: nat,
                                             look: Lookup)
    requires i <= |candidates|
    requires forall j | i <= j < |candidates| :: Keeps(w, query, candidates[j].1, look).Success?
    ensures MatchesFrom(w, query, candidates, i, Passing(w, query, candidates, i, look), look)
         == Success(Passing(w, query, candidates, |candidates|, look))
    decreases |candidates| - i
  {
    if i < |candidates| {
      MatchesArePassing(w, query, candidates, i + 1, look);
      PassingOnce(w, query, candidates, i, look);
    }
  }

  /** The filter runs over every entry: one entry it cannot judge fails the query. */
  lemma {:induction false} UnjudgedFails(w: World, query: Query, candidates: seq<(string, Json)>, i: nat, j: nat,
                                         kept: seq<(string, Json)>, look: Lookup)
    requires i <= j < |candidates| && Keeps(w, query, candidates[j].1, look).Failure?
    ensures MatchesFrom(w, query, candidates, i, kept, look).Failure?
    decreases |candidates| - i
  {
    MatchesOnce(w, query, candidates, i, kept, look);
    if i < j && Keeps(w, query, candidates[i].1, look).Success? {
      UnjudgedFails(w, query, candidates, i + 1, j,
                    if Keeps(w, query, candidates[i].1, look).value then kept + [candidates[i]] else kept, look);
    }
  }

  ghost predicate NamesAscend(s: seq<(string, Json)>) {
    forall i, j | 0 <= i < j < |s| :: Order.Below(s[i].0, s[j].0)
  }

  lemma CandidatesAscend(w: World, catalog: string, entries: map<string, Json>)
    ensures NamesAscend(Candidates(w, catalog, entries))
    ensures |Candidates(w, catalog, entries)| == |Order.Sorted(entries.Keys)|
  {
  }

  lemma {:induction false} PassingAscends(w: World, query: Query, candidates: seq<(string, Json)>, n: nat, look: Lookup)
    requires n <= |candidates| && NamesAscend(candidates)
    ensures NamesAscend(Passing(w, query, candidates, n, look))
    ensures forall m | m in Passing(w, query, candidates, n, look) ::
              exists j :: 0 <= j < n && candidates[j] == m && Keeps(w, query, m.1, look) == Success(true)
  {
    if n > 0 {
      PassingAscends(w, query, candidates, n - 1, look);
      var before := Passing(w, query, candidates, n - 1, look);
      forall m | m in before ensures Order.Below(m.0, candidates[n - 1].0) {
        var j :| 0 <= j < n - 1 && candidates[j] == m;
      }
      assert forall i | 0 <= i < |before| :: before[i] in before;
    }
  }

  ghost predicate KeyedBy(w: World, sort: Expression, m: (string, Json), k: Keyed, look: Lookup) {
    k.name == m.0 && Evaluate(w, sort, Some(m.1), None, look) == Success(k.key)
  }

  lemma {:induction false} KeysAreEvaluated(w: World, sort: Expression, matches: seq<(string, Json)>, i: nat,
                                            keyed: seq<Keyed>, look: Lookup)
    requires i == |keyed| <= |matches|
    requires forall j | 0 <= j < i :: KeyedBy(w, sort, matches[j], keyed[j], look)
    requires KeysFrom(w, sort, matches, i, keyed, look).Success?
    ensures var r := KeysFrom(w, sort, matches, i, keyed, look).value;
            |r| == |matches| && forall j | 0 <= j < |r| :: KeyedBy(w, sort, matches[j], r[j], look)
    decreases |matches| - i
  {
    if i < |matches| {
      var key := Evaluate(w, sort, Some(matches[i].1), None, look).value;
      KeysAreEvaluated(w, sort, matches, i + 1, keyed + [Keyed(key, matches[i].0)], look);
    }
  }

  /** Some strict order of the entries exists, and only one. */
  ghost predicate OrderedOf(keyed: seq<Keyed>, ordered: seq<Keyed>) {
    Strict(ordered) && multiset(ordered) == multiset(keyed)
  }

  /** A sorted query, end to end. The entries whose filter answered true are keyed by
      the sort expression. The query fails exactly when the keys are not of one kind.
      Otherwise there is a strict order of the entries by key and name, and the query
      selects from its first `limit` names, or of its exact reverse. */
  lemma SortedQueryExact(w: World, id: Id, query: Query, look: Lookup, keyed: seq<Keyed>)
    requires query.catalog in w.package.catalogs && query.sort.Some?
    requires var candidates := Candidates(w, query.catalog, w.package.catalogs[query.catalog]);
             var passing := Passing(w, query, candidates, |candidates|, look);
             && (forall c | c in candidates :: Keeps(w, query, c.1, look).Success?)
             && KeysFrom(w, query.sort.value, passing, 0, [], look) == Success(keyed)
    ensures !OneKind(keyed) ==> QuerySelect(w, id, query, look) == Failure(NotComparable(id))
    ensures OneKind(keyed) ==>
              && (exists ordered :: OrderedOf(keyed, ordered))
              && forall ordered | OrderedOf(keyed, ordered) ::
                   QuerySelect(w, id, query, look) ==
                     Selection(id, query, w.package.catalogs[query.catalog],
                               Truncated(Names(if query.descending then Reversed(ordered) else ordered), query.limit))
  {
    var entries := w.package.catalogs[query.catalog];
    var candidates := Candidates(w, query.catalog, entries);
    AllPass(w, query, candidates, look);
    CandidatesAscend(w, query.catalog, entries);
    KeysAscend(w, query, candidates, look, keyed);
    ArrangedNames(w, id, query, Passing(w, query, candidates, |candidates|, look), look, keyed);
  }

  lemma AllPass(w: World, query: Query, candidates: seq<(string, Json)>, look: Lookup)
    requires forall c | c in candidates :: Keeps(w, query, c.1, look).Success?
    ensures MatchesFrom(w, query, candidates, 0, [], look) == Success(Passing(w, query, candidates, |candidates|, look))
  {
    forall j | 0 <= j < |candidates| ensures Keeps(w, query, candidates[j].1, look).Success? {
      assert candidates[j] in candidates;
    }
    MatchesArePassing(w, query, candidates, 0, look);
  }

  lemma KeysAscend(w: World, query: Query, candidates: seq<(string, Json)>, look: Lookup, keyed: seq<Keyed>)
    requires query.sort.Some? && NamesAscend(candidates)
    requires KeysFrom(w, query.sort.value, Passing(w, query, candidates, |candidates|, look), 0, [], look) ==
             Success(keyed)
    ensures NamesAscending(keyed)
  {
    var passing := Passing(w, query, candidates, |candidates|, look);
    PassingAscends(w, query, candidates, |candidates|, look);
    KeysAreEvaluated(w, query.sort.value, passing, 0, [], look);
    forall i, j | 0 <= i < j < |keyed| ensures Order.Below(keyed[i].name, keyed[j].name) {
      assert KeyedBy(w, query.sort.value, passing[i], keyed[i], look)
             && KeyedBy(w, query.sort.value, passing[j], keyed[j], look);
    }
  }

  lemma ArrangedNames(w: World, id: Id, query: Query, passing: seq<(string, Json)>, look: Lookup, keyed: seq<Keyed>)
    requires query.sort.Some? && KeysFrom(w, query.sort.value, passing, 0, [], look) == Success(keyed)
    requires NamesAscending(keyed)
    ensures !OneKind(keyed) ==> QueryNames(w, id, query, passing, look) == Failure(NotComparable(id))
    ensures OneKind(keyed) ==>
              && (exists ordered :: OrderedOf(keyed, ordered))
              && forall ordered | OrderedOf(keyed, ordered) ::
                   QueryNames(w, id, query, passing, look) ==
                     Success(Truncated(Names(if query.descending then Reversed(ordered) else ordered), query.limit))
  {
    AdjacentCheckExact(keyed);
    if OneKind(keyed) {
      SortedWhole(keyed);
      assert OrderedOf(keyed, StableSort(keyed));
      forall ordered | OrderedOf(keyed, ordered)
        ensures QueryNames(w, id, query, passing, look) ==
                Success(Truncated(Names(if query.descending then Reversed(ordered) else ordered), query.limit))
      {
        ArrangedIsTopK(keyed, query.descending, query.limit, ordered);
      }
    }
  }

  // ---- The entry that comes first ----

  ghost predicate Passes(w: World, query: Query, c: (string, Json), look: Lookup) {
    Keeps(w, query, c.1, look) == Success(true)
  }

  /** The key the query sorts an entry by. */
  ghost function KeyOf(w: World, sort: Expression, c: (string, Json), look: Lookup): Option<Keyed> {
    match Evaluate(w, sort, Some(c.1), None, look)
    case Success(key) => Some(Keyed(key, c.0))
    case Failure(_) => None
  }

  /** By name, or by key and name where the query sorts. */
  ghost predicate Leads(w: World, query: Query, c: (string, Json), d: (string, Json), look: Lookup) {
    match query.sort
    case None => Order.Below(c.0, d.0)
    case Some(sort) =>
      var a, b := KeyOf(w, sort, c, look), KeyOf(w, sort, d, look);
      a.Some? && b.Some? && if query.descending then Precedes(b.value, a.value) else Precedes(a.value, b.value)
  }

  /** Of the entries that pass, the one that leads all others. */
  ghost predicate First(w: World, query: Query, candidates: seq<(string, Json)>, c: (string, Json), look: Lookup) {
    && c in candidates && Passes(w, query, c, look)
    && forall d | d in candidates && Passes(w, query, d, look) && d != c :: Leads(w, query, c, d, look)
  }

  lemma {:induction false} FirstUnique(w: World, query: Query, candidates: seq<(string, Json)>,
                                       c: (string, Json), d: (string, Json), look: Lookup)
    requires First(w, query, candidates, c, look) && First(w, query, candidates, d, look)
    ensures c == d
  {
    if c != d {
      if query.sort.None? {
        Order.BelowTransitive(c.0, d.0, c.0);
        Order.BelowIrreflexive(c.0);
      } else {
        var a, b := KeyOf(w, query.sort.value, c, look).value, KeyOf(w, query.sort.value, d, look).value;
        PrecedesTransitive(a, b, a);
        PrecedesIrreflexive(a);
      }
    }
  }

  /** Where the filter went through, every entry was judged. */
  lemma {:induction false} MatchesJudged(w: World, query: Query, candidates: seq<(string, Json)>, look: Lookup)
    requires MatchesFrom(w, query, candidates, 0, [], look).Success?
    ensures MatchesFrom(w, query, candidates, 0, [], look) == Success(Passing(w, query, candidates, |candidates|, look))
  {
    forall c | c in candidates ensures Keeps(w, query, c.1, look).Success? {
      var j :| 0 <= j < |candidates| && candidates[j] == c;
      if Keeps(w, query, c.1, look).Failure? {
        UnjudgedFails(w, query, candidates, 0, j, [], look);
      }
    }
    AllPass(w, query, candidates, look);
  }

  lemma {:induction false} PassingHolds(w: World, query: Query, candidates: seq<(string, Json)>, n: nat, look: Lookup)
    requires n <= |candidates|
    ensures forall j | 0 <= j < n && Passes(w, query, candidates[j], look) ::
              candidates[j] in Passing(w, query, candidates, n, look)
  {
    if n > 0 {
      PassingHolds(w, query, candidates, n - 1, look);
    }
  }

  /** The entries that pass, in name order. */
  ghost predicate Collected(w: World, query: Query, candidates: seq<(string, Json)>, passing: seq<(string, Json)>,
                            look: Lookup)
  {
    && NamesAscend(passing)
    && forall c :: c in passing <==> c in candidates && Passes(w, query, c, look)
  }

  lemma {:induction false} PassingCollected(w: World, query: Query, candidates: seq<(string, Json)>, look: Lookup)
    requires NamesAscend(candidates)
    ensures Collected(w, query, candidates, Passing(w, query, candidates, |candidates|, look), look)
  {
    var passing := Passing(w, query, candidates, |candidates|, look);
    PassingAscends(w, query, candidates, |candidates|, look);
    PassingHolds(w, query, candidates, |candidates|, look);
    forall c ensures c in passing <==> c in candidates && Passes(w, query, c, look) {
      if c in candidates && Passes(w, query, c, look) {
        var j :| 0 <= j < |candidates| && candidates[j] == c;
      }
    }
  }

  /** The picked names start with the entry that comes first, and there are none exactly
      when nothing passes or nothing is let through. */
  lemma {:induction false} PicksFirst(w: World, id: Id, query: Query, candidates: seq<(string, Json)>, look: Lookup,
                                      names: seq<string>)
    requires NamesAscend(candidates) && MatchesFrom(w, query, candidates, 0, [], look).Success?
    requires QueryNames(w, id, query, MatchesFrom(w, query, candidates, 0, [], look).value, look) == Success(names)
    ensures names == [] <==> query.limit == Some(0) || forall c | c in candidates :: !Passes(w, query, c, look)
    ensures names != [] ==> exists c :: First(w, query, candidates, c, look) && c.0 == names[0]
  {
    var passing := Passing(w, query, candidates, |candidates|, look);
    MatchesJudged(w, query, candidates, look);
    PassingCollected(w, query, candidates, look);
    assert passing == [] <==> forall c | c in candidates :: !Passes(w, query, c, look) by {
      if passing != [] {
        assert passing[0] in passing;
      }
    }
    if query.sort.None? {
      UnsortedFirst(w, id, query, candidates, passing, look, names);
    } else {
      SortedFirst(w, id, query, candidates, passing, look, names);
    }
  }

  lemma {:induction false} UnsortedFirst(w: World, id: Id, query: Query, candidates: seq<(string, Json)>,
                                         passing: seq<(string, Json)>, look: Lookup, names: seq<string>)
    requires query.sort.None? && Collected(w, query, candidates, passing, look)
    requires QueryNames(w, id, query, passing, look) == Success(names)
    ensures names == [] <==> query.limit == Some(0) || passing == []
    ensures names != [] ==> exists c :: First(w, query, candidates, c, look) && c.0 == names[0]
  {
    if passing != [] {
      forall d | d in passing && d != passing[0] ensures Leads(w, query, passing[0], d, look) {
        var j :| 0 <= j < |passing| && passing[j] == d;
      }
      assert passing[0] in passing;
      assert First(w, query, candidates, passing[0], look);
    }
  }

  lemma {:induction false} SortedFirst(w: World, id: Id, query: Query, candidates: seq<(string, Json)>,
                                       passing: seq<(string, Json)>, look: Lookup, names: seq<string>)
    requires query.sort.Some? && Collected(w, query, candidates, passing, look)
    requires QueryNames(w, id, query, passing, look) == Success(names)
    ensures names == [] <==> query.limit == Some(0) || passing == []
    ensures names != [] ==> exists c :: First(w, query, candidates, c, look) && c.0 == names[0]
  {
    var keyed := KeysFrom(w, query.sort.value, passing, 0, [], look).value;
    KeyedInOrder(w, query, candidates, passing, look, keyed);
    assert names == Arranged(keyed, query.descending, query.limit);
    if passing != [] && query.limit != Some(0) {
      SortedHead(w, query, candidates, passing, look, keyed);
    } else {
      assert names == [];
    }
  }

  lemma {:induction false} SortedHead(w: World, query: Query, candidates: seq<(string, Json)>,
                                      passing: seq<(string, Json)>, look: Lookup, keyed: seq<Keyed>)
    requires query.sort.Some? && query.limit != Some(0) && Collected(w, query, candidates, passing, look)
    requires |keyed| == |passing| > 0
    requires forall j | 0 <= j < |keyed| :: KeyedBy(w, query.sort.value, passing[j], keyed[j], look)
    requires Strict(StableSort(keyed)) && |StableSort(keyed)| == |keyed|
    ensures var names := Arranged(keyed, query.descending, query.limit);
            names != [] && exists c :: First(w, query, candidates, c, look) && c.0 == names[0]
  {
    HeadNamed(StableSort(keyed), query.descending, query.limit);
    var at := BestAt(keyed, query.descending);
    BestIsFirst(w, query, candidates, passing, look, keyed, at);
    assert KeyedBy(w, query.sort.value, passing[at], keyed[at], look);
    assert First(w, query, candidates, passing[at], look);
  }

  lemma {:induction false} KeyedInOrder(w: World, query: Query, candidates: seq<(string, Json)>,
                                        passing: seq<(string, Json)>, look: Lookup, keyed: seq<Keyed>)
    requires query.sort.Some? && Collected(w, query, candidates, passing, look)
    requires KeysFrom(w, query.sort.value, passing, 0, [], look) == Success(keyed) && AdjacentComparable(keyed)
    ensures |keyed| == |passing|
    ensures forall j | 0 <= j < |keyed| :: KeyedBy(w, query.sort.value, passing[j], keyed[j], look)
    ensures Strict(StableSort(keyed)) && |StableSort(keyed)| == |keyed|
  {
    KeysAreEvaluated(w, query.sort.value, passing, 0, [], look);
    forall i, j | 0 <= i < j < |keyed| ensures Order.Below(keyed[i].name, keyed[j].name) {
      assert KeyedBy(w, query.sort.value, passing[i], keyed[i], look);
      assert KeyedBy(w, query.sort.value, passing[j], keyed[j], look);
    }
    SortedWhole(keyed);
  }

  lemma {:induction false} BestAt(keyed: seq<Keyed>, descending: bool) returns (at: nat)
    requires |StableSort(keyed)| == |keyed| > 0
    ensures at < |keyed|
    ensures keyed[at] == if descending then StableSort(keyed)[|keyed| - 1] else StableSort(keyed)[0]
  {
    var sorted := StableSort(keyed);
    var best := if descending then sorted[|keyed| - 1] else sorted[0];
    assert best in sorted;
    SortMembers(keyed, best);
    at :| 0 <= at < |keyed| && keyed[at] == best;
  }

  lemma {:induction false} BestIsFirst(w: World, query: Query, candidates: seq<(string, Json)>,
                                       passing: seq<(string, Json)>,
                                       look: Lookup, keyed: seq<Keyed>, at: nat)
    requires query.sort.Some? && Collected(w, query, candidates, passing, look) && at < |keyed| == |passing|
    requires forall j | 0 <= j < |keyed| :: KeyedBy(w, query.sort.value, passing[j], keyed[j], look)
    requires Strict(StableSort(keyed)) && |StableSort(keyed)| == |keyed|
    requires keyed[at] == if query.descending then StableSort(keyed)[|keyed| - 1] else StableSort(keyed)[0]
    ensures First(w, query, candidates, passing[at], look)
  {
    assert passing[at] in passing;
    forall d | d in passing && d != passing[at] ensures Leads(w, query, passing[at], d, look) {
      var j :| 0 <= j < |passing| && passing[j] == d;
      KeysLead(w, query, passing, look, keyed, at, j);
    }
  }

  lemma {:induction false} KeysLead(w: World, query: Query, passing: seq<(string, Json)>, look: Lookup,
                                    keyed: seq<Keyed>, at: nat, j: nat)
    requires query.sort.Some? && NamesAscend(passing) && at < |keyed| == |passing| && j < |keyed| && j != at
    requires KeyedBy(w, query.sort.value, passing[at], keyed[at], look)
    requires KeyedBy(w, query.sort.value, passing[j], keyed[j], look)
    requires Strict(StableSort(keyed)) && |StableSort(keyed)| == |keyed|
    requires keyed[at] == if query.descending then StableSort(keyed)[|keyed| - 1] else StableSort(keyed)[0]
    ensures Leads(w, query, passing[at], passing[j], look)
  {
    assert Order.Below(passing[at].0, passing[j].0) || Order.Below(passing[j].0, passing[at].0);
    Order.BelowIrreflexive(passing[at].0);
    BestPrecedes(keyed, query.descending, at, j);
  }

  lemma {:induction false} BestPrecedes(keyed: seq<Keyed>, descending: bool, at: nat, j: nat)
    requires Strict(StableSort(keyed)) && |StableSort(keyed)| == |keyed| && at < |keyed| && j < |keyed|
    requires keyed[at] == if descending then StableSort(keyed)[|keyed| - 1] else StableSort(keyed)[0]
    requires keyed[j] != keyed[at]
    ensures if descending then Precedes(keyed[j], keyed[at]) else Precedes(keyed[at], keyed[j])
  {
    var sorted := StableSort(keyed);
    assert keyed[j] in keyed;
    SortMembers(keyed, keyed[j]);
    var k :| 0 <= k < |sorted| && sorted[k] == keyed[j];
  }
}
