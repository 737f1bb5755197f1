/** What a catalog query answers, in terms of the entries that pass its filter: in
    order, cut to the limit, and each with its own name. */
module QueryAnswers {
  import opened Prelude
  import opened Json
  import opened Package
  import opened QueryPipeline
  import opened Semantics
  import opened QueryMeaning
  import Order

  // ---- The picked entries ----

  /** All the entries that pass, each before the ones it leads. */
  ghost predicate InOrder(w: World, query: Query, candidates: seq<(string, Json)>, full: seq<(string, Json)>,
                          look: Lookup)
  {
    && (forall c :: c in full <==> c in candidates && Passes(w, query, c, look))
    && forall i, j | 0 <= i < j < |full| :: Leads(w, query, full[i], full[j], look)
  }

  function Cut(n: nat, limit: Option<nat>): nat {
    if limit.Some? && limit.value < n then limit.value else n
  }

  /** The names are those of the first entries, as many as the limit lets through. */
  ghost predicate NamesOf(names: seq<string>, full: seq<(string, Json)>, limit: Option<nat>) {
    |names| == Cut(|full|, limit) && forall i | 0 <= i < |names| :: names[i] == full[i].0
  }

  lemma {:induction false} PicksInOrder(w: World, id: Id, query: Query, candidates: seq<(string, Json)>, look: Lookup,
                                        names: seq<string>) returns (full: seq<(string, Json)>)
    requires NamesAscend(candidates) && MatchesFrom(w, query, candidates, 0, [], look).Success?
    requires QueryNames(w, id, query, MatchesFrom(w, query, candidates, 0, [], look).value, look) == Success(names)
    ensures InOrder(w, query, candidates, full, look) && NamesOf(names, full, query.limit)
  {
    var passing := Passing(w, query, candidates, |candidates|, look);
    MatchesJudged(w, query, candidates, look);
    PassingCollected(w, query, candidates, look);
    if query.sort.None? {
      full := passing;
    } else {
      var keyed := KeysFrom(w, query.sort.value, passing, 0, [], look).value;
      KeyedInOrder(w, query, candidates, passing, look, keyed);
      full := Rearranged(w, query, candidates, passing, look, keyed);
    }
  }

  /** The keys in the order the query lists them. */
  function Listed(keyed: seq<Keyed>, descending: bool): seq<Keyed> {
    if descending then Reversed(StableSort(keyed)) else StableSort(keyed)
  }

  lemma {:induction false} ListedMembers(keyed: seq<Keyed>, descending: bool, k: Keyed)
    ensures k in Listed(keyed, descending) <==> k in keyed
  {
    SortMembers(keyed, k);
    var sorted, listed := StableSort(keyed), Listed(keyed, descending);
    if descending {
      if k in sorted {
        var i :| 0 <= i < |sorted| && sorted[i] == k;
        assert listed[|sorted| - 1 - i] == k;
      }
    }
  }

  function IndexOf(keyed: seq<Keyed>, k: Keyed): (i: nat)
    requires k in keyed
    ensures i < |keyed| && keyed[i] == k
  {
    if keyed[0] == k then 0 else 1 + IndexOf(keyed[1..], k)
  }

  /** The entries in the order of their keys. */
  function Placed(passing: seq<(string, Json)>, keyed: seq<Keyed>, listed: seq<Keyed>): (full: seq<(string, Json)>)
    requires |keyed| == |passing| && forall k | k in listed :: k in keyed
    ensures |full| == |listed|
    ensures forall i | 0 <= i < |listed| :: listed[i] in keyed && full[i] == passing[IndexOf(keyed, listed[i])]
  {
    seq(|listed|, i requires 0 <= i < |listed| => assert listed[i] in listed; passing[IndexOf(keyed, listed[i])])
  }

  lemma {:induction false} Rearranged(w: World, query: Query, candidates: seq<(string, Json)>,
                                      passing: seq<(string, Json)>, look: Lookup, keyed: seq<Keyed>)
    returns (full: seq<(string, Json)>)
    requires query.sort.Some? && Collected(w, query, candidates, passing, look) && |keyed| == |passing|
    requires forall j | 0 <= j < |keyed| :: KeyedBy(w, query.sort.value, passing[j], keyed[j], look)
    requires Strict(StableSort(keyed)) && |StableSort(keyed)| == |keyed|
    ensures InOrder(w, query, candidates, full, look)
    ensures NamesOf(Arranged(keyed, query.descending, query.limit), full, query.limit)
  {
    var listed := Listed(keyed, query.descending);
    forall k ensures k in listed <==> k in keyed {
      ListedMembers(keyed, query.descending, k);
    }
    full := Placed(passing, keyed, listed);
    RearrangedMembers(w, query.sort.value, passing, look, keyed, listed, full);
    ListedLeads(w, query, look, keyed, listed, full);
    ListedNames(w, query, look, keyed, listed, full);
  }

  lemma {:induction false} ListedLeads(w: World, query: Query, look: Lookup, keyed: seq<Keyed>, listed: seq<Keyed>,
                                       full: seq<(string, Json)>)
    requires query.sort.Some? && Strict(StableSort(keyed)) && listed == Listed(keyed, query.descending)
    requires |full| == |listed|
    requires forall i | 0 <= i < |listed| :: KeyedBy(w, query.sort.value, full[i], listed[i], look)
    ensures forall i, j | 0 <= i < j < |full| :: Leads(w, query, full[i], full[j], look)
  {
    forall i, j | 0 <= i < j < |full| ensures Leads(w, query, full[i], full[j], look) {
      assert KeyedBy(w, query.sort.value, full[i], listed[i], look);
      assert KeyedBy(w, query.sort.value, full[j], listed[j], look);
      assert if query.descending then Precedes(listed[j], listed[i]) else Precedes(listed[i], listed[j]);
    }
  }

  lemma {:induction false} ListedNames(w: World, query: Query, look: Lookup, keyed: seq<Keyed>, listed: seq<Keyed>,
                                       full: seq<(string, Json)>)
    requires query.sort.Some? && listed == Listed(keyed, query.descending) && |full| == |listed|
    requires forall i | 0 <= i < |listed| :: KeyedBy(w, query.sort.value, full[i], listed[i], look)
    ensures NamesOf(Arranged(keyed, query.descending, query.limit), full, query.limit)
  {
    forall i | 0 <= i < |listed| ensures listed[i].name == full[i].0 {
      assert KeyedBy(w, query.sort.value, full[i], listed[i], look);
    }
    assert Arranged(keyed, query.descending, query.limit) == Truncated(Names(listed), query.limit);
  }

  lemma {:induction false} RearrangedMembers(w: World, sort: Expression, passing: seq<(string, Json)>, look: Lookup,
                                             keyed: seq<Keyed>, listed: seq<Keyed>, full: seq<(string, Json)>)
    requires NamesAscend(passing) && |keyed| == |passing| && |full| == |listed|
    requires forall j | 0 <= j < |keyed| :: KeyedBy(w, sort, passing[j], keyed[j], look)
    requires forall k :: k in listed <==> k in keyed
    requires forall i | 0 <= i < |listed| :: full[i] == passing[IndexOf(keyed, listed[i])]
    ensures forall c :: c in full <==> c in passing
    ensures forall i | 0 <= i < |listed| :: KeyedBy(w, sort, full[i], listed[i], look)
  {
    forall c | c in passing ensures c in full {
      var j :| 0 <= j < |passing| && passing[j] == c;
      assert keyed[j] in listed;
      var i :| 0 <= i < |listed| && listed[i] == keyed[j];
      SameName(w, sort, passing, look, keyed, IndexOf(keyed, listed[i]), j);
      assert full[i] == c;
    }
  }

  lemma {:induction false} SameName(w: World, sort: Expression, passing: seq<(string, Json)>, look: Lookup,
                                    keyed: seq<Keyed>, i: nat, j: nat)
    requires NamesAscend(passing) && i < |keyed| == |passing| && j < |keyed| && keyed[i] == keyed[j]
    requires KeyedBy(w, sort, passing[i], keyed[i], look) && KeyedBy(w, sort, passing[j], keyed[j], look)
    ensures i == j
  {
    if i != j {
      Order.BelowIrreflexive(passing[i].0);
    }
  }

  // ---- The answer ----

  /** The value is the catalog's own entry of that name; an object also carries its name
      as `id`, in place of any field called so. */
  ghost predicate IsEntry(value: Json, entries: map<string, Json>, name: string) {
    && name in entries
    && if entries[name].Object? then
         && value.Object? && value.fields.Keys == entries[name].fields.Keys + {"id"}
         && value.fields["id"] == String(name)
         && forall k | k in entries[name].fields && k != "id" :: value.fields[k] == entries[name].fields[k]
       else value == entries[name]
  }

  /** Every entry of the catalog is a candidate once, seen through its own hydrated view,
      and passes exactly when there is no filter or the filter is true of that view. */
  lemma CandidatesAre(w: World, query: Query, entries: map<string, Json>, look: Lookup)
    ensures NamesAscend(Candidates(w, query.catalog, entries))
    ensures forall c :: c in Candidates(w, query.catalog, entries) <==>
              c.0 in entries && c.1 == w.view(query.catalog, c.0, entries[c.0])
    ensures forall c :: Passes(w, query, c, look) <==>
              || query.filter.None?
              || Evaluate(w, query.filter.value, Some(c.1), None, look) == Success(Bool(true))
  {
    var names := Order.Sorted(entries.Keys);
    forall c: (string, Json) | c.0 in entries && c.1 == w.view(query.catalog, c.0, entries[c.0])
      ensures c in Candidates(w, query.catalog, entries)
    {
      assert c.0 in names;
      var i :| 0 <= i < |names| && names[i] == c.0;
      assert Candidates(w, query.catalog, entries)[i] == c;
    }
    forall c | c in Candidates(w, query.catalog, entries)
      ensures c.0 in entries && c.1 == w.view(query.catalog, c.0, entries[c.0])
    {
      var i :| 0 <= i < |names| && Candidates(w, query.catalog, entries)[i] == c;
      assert names[i] in names;
    }
  }

  lemma EntriesListed(w: World, catalog: string, entries: map<string, Json>, name: string)
    requires exists c :: c in Candidates(w, catalog, entries) && c.0 == name
    ensures IsEntry(RawEntry(entries, name), entries, name)
  {
    var c :| c in Candidates(w, catalog, entries) && c.0 == name;
    assert name in Order.Sorted(entries.Keys);
  }

  /** What a query that goes through answers, given the names it picked. */
  ghost predicate Answers(r: Result<SelectedValue, Error>, id: Id, query: Query, entries: map<string, Json>,
                          names: seq<string>)
  {
    if names == [] && query.default.Some? then r == Success(query.default.value)
    else if !query.single then
      && r.Success? && r.value.CatalogValues? && r.value.catalog == query.catalog && r.value.names == names
      && r.value.value.Array? && |r.value.value.items| == |names|
      && forall i | 0 <= i < |names| :: IsEntry(r.value.value.items[i], entries, names[i])
    else if names == [] then r == Failure(NoMatch(id))
    else if |names| > 1 && query.sort.None? then r == Failure(ManyMatches(id, |names|))
    else
      && r.Success? && r.value.CatalogValue? && r.value.catalog == query.catalog && r.value.name == names[0]
      && IsEntry(r.value.value, entries, names[0])
  }

  lemma SelectionAnswers(id: Id, query: Query, entries: map<string, Json>, names: seq<string>)
    requires forall i | 0 <= i < |names| :: IsEntry(RawEntry(entries, names[i]), entries, names[i])
    ensures Answers(Selection(id, query, entries, names), id, query, entries, names)
  {
  }

  /** The whole query, once every entry is judged and the keys compare: the entries that
      pass stand in one order, and the answer is read off the names of the first of them. */
  lemma {:induction false} QueryAnswersExactly(w: World, id: Id, query: Query, look: Lookup)
    returns (full: seq<(string, Json)>, names: seq<string>)
    requires query.catalog in w.package.catalogs
    requires var matches := MatchesFrom(w, query, Candidates(w, query.catalog, w.package.catalogs[query.catalog]), 0,
                                        [], look);
             matches.Success? && QueryNames(w, id, query, matches.value, look).Success?
    ensures InOrder(w, query, Candidates(w, query.catalog, w.package.catalogs[query.catalog]), full, look)
    ensures NamesOf(names, full, query.limit)
    ensures Answers(QuerySelect(w, id, query, look), id, query, w.package.catalogs[query.catalog], names)
  {
    var entries := w.package.catalogs[query.catalog];
    var candidates := Candidates(w, query.catalog, entries);
    names := QueryNames(w, id, query, MatchesFrom(w, query, candidates, 0, [], look).value, look).value;
    CandidatesAscend(w, query.catalog, entries);
    full := PicksInOrder(w, id, query, candidates, look, names);
    forall i | 0 <= i < |names| ensures IsEntry(RawEntry(entries, names[i]), entries, names[i]) {
      assert full[i] in full;
      EntriesListed(w, query.catalog, entries, names[i]);
    }
    SelectionAnswers(id, query, entries, names);
  }

  /** A single query without a sort takes exactly one entry: with more it fails and says
      how many, with none it needs its default. */
  lemma {:induction false} SingleUnsortedExact(w: World, id: Id, query: Query, look: Lookup)
    requires query.catalog in w.package.catalogs && query.single && query.sort.None?
    requires forall c | c in Candidates(w, query.catalog, w.package.catalogs[query.catalog]) ::
             Keeps(w, query, c.1, look).Success?
    ensures var entries := w.package.catalogs[query.catalog];
            var candidates := Candidates(w, query.catalog, entries);
            var passing := Passing(w, query, candidates, |candidates|, look);
            var n := Cut(|passing|, query.limit);
            var r := QuerySelect(w, id, query, look);
            && (n > 1 <==> r == Failure(ManyMatches(id, n)))
            && (n == 0 && query.default.None? <==> r == Failure(NoMatch(id)))
            && (n == 0 && query.default.Some? ==> r == Success(query.default.value))
            && (n == 1 ==> r.Success? && r.value.CatalogValue? && r.value.catalog == query.catalog
                           && r.value.name == passing[0].0 && IsEntry(r.value.value, entries, passing[0].0))
  {
    var entries := w.package.catalogs[query.catalog];
    var candidates := Candidates(w, query.catalog, entries);
    AllPass(w, query, candidates, look);
    var passing := Passing(w, query, candidates, |candidates|, look);
    CandidatesAscend(w, query.catalog, entries);
    PassingCollected(w, query, candidates, look);
    if Cut(|passing|, query.limit) == 1 {
      assert passing[0] in passing;
      EntriesListed(w, query.catalog, entries, passing[0].0);
    }
  }

  /** A filter that cannot judge some entry fails the query with the error of the first. */
  lemma {:induction false} FirstUnjudgedDecides(w: World, id: Id, query: Query, look: Lookup, j: nat)
    requires query.catalog in w.package.catalogs
    requires var candidates := Candidates(w, query.catalog, w.package.catalogs[query.catalog]);
             && j < |candidates| && Keeps(w, query, candidates[j].1, look).Failure?
             && forall k | 0 <= k < j :: Keeps(w, query, candidates[k].1, look).Success?
    ensures var candidates := Candidates(w, query.catalog, w.package.catalogs[query.catalog]);
            QuerySelect(w, id, query, look) == Failure(Keeps(w, query, candidates[j].1, look).error)
  {
    UnjudgedError(w, query, Candidates(w, query.catalog, w.package.catalogs[query.catalog]), 0, j, [], look);
  }

  lemma {:induction false} UnjudgedError(w: World, query: Query, candidates: seq<(string, Json)>, i: nat, j: nat,
                                         kept: seq<(string, Json)>, look: Lookup)
    requires i <= j < |candidates| && Keeps(w, query, candidates[j].1, look).Failure?
    requires forall k | i <= k < j :: Keeps(w, query, candidates[k].1, look).Success?
    ensures MatchesFrom(w, query, candidates, i, kept, look) == Failure(Keeps(w, query, candidates[j].1, look).error)
    decreases |candidates| - i
  {
    MatchesOnce(w, query, candidates, i, kept, look);
    if i < j {
      UnjudgedError(w, query, candidates, i + 1, j,
                    if Keeps(w, query, candidates[i].1, look).value then kept + [candidates[i]] else kept, look);
    }
  }
}
