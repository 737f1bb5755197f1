/** The tail of a catalog query: comparability check, stable sort, reversal, limit
    and selection, once filter and sort keys have been evaluated. */
module QueryPipeline {
  import opened Prelude
  import opened Json
  import opened Package
  import Order

  datatype Keyed = Keyed(key: Json, name: string)

  predicate Comparable(a: Json, b: Json) {
    (a.Number? && b.Number?) || (a.String? && b.String?)
  }

  /** `compare_query_sort_keys` answering "less". */
  predicate KeyLess(a: Json, b: Json) {
    if a.Number? && b.Number? then a.number < b.number
    else a.String? && b.String? && Order.Below(a.text, b.text)
  }

  predicate AdjacentComparable(keyed: seq<Keyed>) {
    forall i | 0 < i < |keyed| :: Comparable(keyed[i - 1].key, keyed[i].key)
  }

  method CheckComparable(keyed: seq<Keyed>) returns (ok: bool)
    ensures ok == AdjacentComparable(keyed)
  {
    var i := 1;
    while i < |keyed|
      invariant i > 0
      invariant forall j | 0 < j < i && j < |keyed| :: Comparable(keyed[j - 1].key, keyed[j].key)
    {
      if !Comparable(keyed[i - 1].key, keyed[i].key) {
        return false;
      }
      i := i + 1;
    }
    ok := true;
  }

  predicate OneKind(keyed: seq<Keyed>) {
    || |keyed| <= 1
    || (forall k | k in keyed :: k.key.Number?)
    || (forall k | k in keyed :: k.key.String?)
  }

  /** Comparing neighbours is enough: the check passes exactly when there is at most
      one key, or all keys are numbers, or all are strings. */
  lemma {:induction false} AdjacentCheckExact(keyed: seq<Keyed>)
    ensures AdjacentComparable(keyed) <==> OneKind(keyed)
  {
    if |keyed| > 2 {
      var init := keyed[..|keyed| - 1];
      AdjacentCheckExact(init);
      assert keyed == init + [keyed[|keyed| - 1]];
      assert init[|init| - 1] in init && init[|init| - 1] == keyed[|keyed| - 2];
      if AdjacentComparable(keyed) {
        assert AdjacentComparable(init);
      }
      if OneKind(keyed) {
        assert keyed[|keyed| - 1] in keyed;
        assert forall k | k in init :: k in keyed;
        assert OneKind(init);
      }
    } else if |keyed| == 2 {
      assert keyed[0] in keyed && keyed[1] in keyed;
      assert forall k | k in keyed :: k == keyed[0] || k == keyed[1];
    }
  }

  /** Inserts behind everything that is not greater: equal keys keep their order. */
  function Insert(sorted: seq<Keyed>, x: Keyed): (r: seq<Keyed>)
    ensures multiset(r) == multiset(sorted) + multiset{x}
  {
    var n := |sorted|;
    if n > 0 && KeyLess(x.key, sorted[n - 1].key) then
      assert sorted == sorted[..n - 1] + [sorted[n - 1]];
      Insert(sorted[..n - 1], x) + [sorted[n - 1]]
    else sorted + [x]
  }

  /** What a stable sort by key makes of the list. */
  function StableSort(keyed: seq<Keyed>): (r: seq<Keyed>)
    ensures multiset(r) == multiset(keyed)
  {
    if |keyed| == 0 then [] else
      var n := |keyed| - 1;
      assert keyed == keyed[..n] + [keyed[n]];
      Insert(StableSort(keyed[..n]), keyed[n])
  }

  /** Strict order by key, then by entry name. */
  predicate Precedes(a: Keyed, b: Keyed) {
    KeyLess(a.key, b.key) || (a.key == b.key && Order.Below(a.name, b.name))
  }

  ghost predicate Strict(s: seq<Keyed>) {
    forall i, j | 0 <= i < j < |s| :: Precedes(s[i], s[j])
  }

  ghost predicate NamesAscending(keyed: seq<Keyed>) {
    forall i, j | 0 <= i < j < |keyed| :: Order.Below(keyed[i].name, keyed[j].name)
  }

  lemma KeyLessTotal(a: Json, b: Json)
    requires Comparable(a, b)
    ensures a == b || KeyLess(a, b) || KeyLess(b, a)
  {
    if a.String? {
      Order.BelowTotal(a.text, b.text);
    }
  }

  lemma PrecedesTransitive(a: Keyed, b: Keyed, c: Keyed)
    requires Precedes(a, b) && Precedes(b, c)
    ensures Precedes(a, c)
  {
    if a.key.String? && b.key.String? && c.key.String? {
      Order.BelowIrreflexive(a.key.text);
      if KeyLess(a.key, b.key) && KeyLess(b.key, c.key) {
        Order.BelowTransitive(a.key.text, b.key.text, c.key.text);
      }
    }
    if a.key == b.key == c.key {
      Order.BelowTransitive(a.name, b.name, c.name);
    }
  }

  lemma PrecedesIrreflexive(a: Keyed)
    ensures !Precedes(a, a)
  {
    Order.BelowIrreflexive(a.name);
    if a.key.String? {
      Order.BelowIrreflexive(a.key.text);
    }
  }

  lemma AppendStrict(s: seq<Keyed>, x: Keyed)
    requires Strict(s) && forall k | k in s :: Precedes(k, x)
    ensures Strict(s + [x])
  {
    forall i, j | 0 <= i < j < |s + [x]| ensures Precedes((s + [x])[i], (s + [x])[j]) {
      if j == |s| {
        assert s[i] in s;
      }
    }
  }

  lemma InsertMembers(sorted: seq<Keyed>, x: Keyed, k: Keyed)
    ensures k in Insert(sorted, x) <==> k in sorted || k == x
  {
    assert k in multiset(Insert(sorted, x)) <==> k in multiset(sorted) + multiset{x};
  }

  lemma SortMembers(keyed: seq<Keyed>, k: Keyed)
    ensures k in StableSort(keyed) <==> k in keyed
  {
    assert k in multiset(StableSort(keyed)) <==> k in multiset(keyed);
  }

  lemma {:induction false} InsertKeepsStrict(sorted: seq<Keyed>, x: Keyed)
    requires Strict(sorted)
    requires forall k | k in sorted :: Comparable(k.key, x.key) && Order.Below(k.name, x.name)
    ensures Strict(Insert(sorted, x))
  {
    var n := |sorted|;
    if n > 0 {
      var last, init := sorted[n - 1], sorted[..n - 1];
      assert last in sorted;
      assert forall k | k in init :: k in sorted;
      if KeyLess(x.key, last.key) {
        InsertKeepsStrict(init, x);
        forall k | k in Insert(init, x) ensures Precedes(k, last) {
          InsertMembers(init, x, k);
          if k in init {
            var i :| 0 <= i < n - 1 && sorted[i] == k;
          }
        }
        AppendStrict(Insert(init, x), last);
      } else {
        KeyLessTotal(last.key, x.key);
        forall k | k in sorted ensures Precedes(k, x) {
          var i :| 0 <= i < n && sorted[i] == k;
          if i < n - 1 {
            PrecedesTransitive(k, last, x);
          }
        }
        AppendStrict(sorted, x);
      }
    }
  }

  /** With one kind of key and entries in name order, as a catalog lists them, the
      stable sort orders strictly by key and then name. */
  lemma {:induction false} StableSortStrict(keyed: seq<Keyed>)
    requires OneKind(keyed) && NamesAscending(keyed)
    ensures Strict(StableSort(keyed))
  {
    if |keyed| > 0 {
      var n := |keyed| - 1;
      InitPrecedes(keyed, n);
      StableSortStrict(keyed[..n]);
      InsertKeepsStrict(StableSort(keyed[..n]), keyed[n]);
    }
  }

  lemma InitPrecedes(keyed: seq<Keyed>, n: nat)
    requires OneKind(keyed) && NamesAscending(keyed) && n < |keyed|
    ensures OneKind(keyed[..n]) && NamesAscending(keyed[..n])
    ensures forall k | k in StableSort(keyed[..n]) ::
            Comparable(k.key, keyed[n].key) && Order.Below(k.name, keyed[n].name)
  {
    var init := keyed[..n];
    assert keyed[n] in keyed;
    assert forall k | k in init :: k in keyed;
    forall k | k in StableSort(init) ensures Comparable(k.key, keyed[n].key) && Order.Below(k.name, keyed[n].name) {
      SortMembers(init, k);
      var i :| 0 <= i < n && keyed[i] == k;
    }
  }

  /** There is only one such order. */
  lemma {:induction false} StrictUnique(a: seq<Keyed>, b: seq<Keyed>)
    requires Strict(a) && Strict(b) && multiset(a) == multiset(b)
    ensures a == b
  {
    assert |multiset(a)| == |a| && |multiset(b)| == |b|;
    if |a| > 0 {
      SameHead(a, b);
      assert a == [a[0]] + a[1..] && b == [b[0]] + b[1..];
      assert multiset(a[1..]) == multiset(a) - multiset{a[0]};
      assert multiset(b[1..]) == multiset(b) - multiset{b[0]};
      StrictUnique(a[1..], b[1..]);
    }
  }

  lemma SameHead(a: seq<Keyed>, b: seq<Keyed>)
    requires Strict(a) && Strict(b) && multiset(a) == multiset(b) && |a| > 0 && |b| > 0
    ensures a[0] == b[0]
  {
    assert a[0] in multiset(b) && b[0] in multiset(a);
    var i :| 0 <= i < |b| && b[i] == a[0];
    var j :| 0 <= j < |a| && a[j] == b[0];
    if i > 0 && j > 0 {
      PrecedesTransitive(a[0], b[0], a[0]);
      PrecedesIrreflexive(a[0]);
    }
  }

  function Reversed<T>(s: seq<T>): (r: seq<T>)
    ensures |r| == |s| && forall i | 0 <= i < |s| :: r[i] == s[|s| - 1 - i]
  {
    if |s| == 0 then [] else Reversed(s[1..]) + [s[0]]
  }

  function Truncated<T>(s: seq<T>, limit: Option<nat>): seq<T> {
    if limit.Some? && limit.value < |s| then s[..limit.value] else s
  }

  function Names(keyed: seq<Keyed>): (r: seq<string>)
    ensures |r| == |keyed| && forall i | 0 <= i < |r| :: r[i] == keyed[i].name
  {
    seq(|keyed|, i requires 0 <= i < |keyed| => keyed[i].name)
  }

  /** The names a sorted query keeps, in order. */
  function Arranged(keyed: seq<Keyed>, descending: bool, limit: Option<nat>): seq<string> {
    var sorted := StableSort(keyed);
    Truncated(Names(if descending then Reversed(sorted) else sorted), limit)
  }

  /** The names are the first `limit` of the matches in the one strict order by key
      and name, or of that order exactly reversed. */
  lemma ArrangedIsTopK(keyed: seq<Keyed>, descending: bool, limit: Option<nat>, ordered: seq<Keyed>)
    requires AdjacentComparable(keyed) && NamesAscending(keyed)
    requires Strict(ordered) && multiset(ordered) == multiset(keyed)
    ensures Arranged(keyed, descending, limit)
         == Truncated(Names(if descending then Reversed(ordered) else ordered), limit)
  {
    AdjacentCheckExact(keyed);
    StableSortStrict(keyed);
    StrictUnique(StableSort(keyed), ordered);
  }

  /** Whatever is kept comes before whatever the limit drops. */
  lemma KeptPrecedeDropped(keyed: seq<Keyed>, descending: bool, limit: nat, i: nat, j: nat,
                           kept: nat, dropped: nat)
    requires AdjacentComparable(keyed) && NamesAscending(keyed)
    requires i < limit <= j < |keyed|
    requires var n := |keyed|;
             && (kept == if descending then n - 1 - i else i)
             && (dropped == if descending then n - 1 - j else j)
    ensures |StableSort(keyed)| == |keyed| && |Arranged(keyed, descending, Some(limit))| == limit
    ensures Arranged(keyed, descending, Some(limit))[i] == StableSort(keyed)[kept].name
    ensures if descending then Precedes(StableSort(keyed)[dropped], StableSort(keyed)[kept])
            else Precedes(StableSort(keyed)[kept], StableSort(keyed)[dropped])
  {
    SortedWhole(keyed);
    var sorted := StableSort(keyed);
    assert Arranged(keyed, descending, Some(limit)) == Names(if descending then Reversed(sorted) else sorted)[..limit];
    KeptAt(sorted, descending, limit, i, j, kept, dropped);
  }

  lemma SortedWhole(keyed: seq<Keyed>)
    requires AdjacentComparable(keyed) && NamesAscending(keyed)
    ensures Strict(StableSort(keyed)) && |StableSort(keyed)| == |keyed|
  {
    AdjacentCheckExact(keyed);
    StableSortStrict(keyed);
    assert |StableSort(keyed)| == |multiset(StableSort(keyed))| == |multiset(keyed)|;
  }

  lemma KeptAt(sorted: seq<Keyed>, descending: bool, limit: nat, i: nat, j: nat, kept: nat, dropped: nat)
    requires Strict(sorted) && i < limit <= j < |sorted|
    requires kept == (if descending then |sorted| - 1 - i else i)
    requires dropped == (if descending then |sorted| - 1 - j else j)
    ensures Names(if descending then Reversed(sorted) else sorted)[..limit][i] == sorted[kept].name
    ensures if descending then Precedes(sorted[dropped], sorted[kept]) else Precedes(sorted[kept], sorted[dropped])
  {
  }

  /** The raw entry, with its name injected as `id` when it is an object. */
  function RawEntry(entries: map<string, Json>, name: string): Json {
    var entry := if name in entries then entries[name] else Null;
    if entry.Object? then Object(entry.fields["id" := String(name)]) else entry
  }

  function Selection(id: Id, query: Query, entries: map<string, Json>, names: seq<string>)
    : Result<SelectedValue, Error>
  {
    if query.single then
      if |names| == 0 then
        if query.default.Some? then Success(query.default.value) else Failure(NoMatch(id))
      else if |names| > 1 && query.sort.None? then Failure(ManyMatches(id, |names|))
      else Success(CatalogValue(query.catalog, names[0], RawEntry(entries, names[0])))
    else if |names| == 0 && query.default.Some? then Success(query.default.value)
    else Success(CatalogValues(query.catalog, names,
                   Array(seq(|names|, i requires 0 <= i < |names| => RawEntry(entries, names[i])))))
  }

  /** A sorted single query yields the least match, or the greatest when descending. */
  lemma SortedSingleYieldsHead(id: Id, query: Query, entries: map<string, Json>, keyed: seq<Keyed>, best: Keyed)
    requires query.single && query.sort.Some? && (query.limit.Some? ==> query.limit.value > 0)
    requires AdjacentComparable(keyed) && NamesAscending(keyed)
    requires best in keyed
    requires forall k | k in keyed && k != best :: if query.descending then Precedes(k, best) else Precedes(best, k)
    ensures Selection(id, query, entries, Arranged(keyed, query.descending, query.limit))
         == Success(CatalogValue(query.catalog, best.name, RawEntry(entries, best.name)))
  {
    BestLeads(keyed, query.descending, query.limit, best);
    HeadSelected(id, query, entries, Arranged(keyed, query.descending, query.limit));
  }

  lemma HeadSelected(id: Id, query: Query, entries: map<string, Json>, names: seq<string>)
    requires query.single && query.sort.Some? && |names| > 0
    ensures Selection(id, query, entries, names)
         == Success(CatalogValue(query.catalog, names[0], RawEntry(entries, names[0])))
  {
  }

  lemma BestLeads(keyed: seq<Keyed>, descending: bool, limit: Option<nat>, best: Keyed)
    requires AdjacentComparable(keyed) && NamesAscending(keyed) && (limit.Some? ==> limit.value > 0)
    requires best in keyed
    requires forall k | k in keyed && k != best :: if descending then Precedes(k, best) else Precedes(best, k)
    ensures |Arranged(keyed, descending, limit)| > 0 && Arranged(keyed, descending, limit)[0] == best.name
  {
    SortedWhole(keyed);
    var sorted := StableSort(keyed);
    BestOfSorted(keyed, descending, best);
    HeadIsBest(sorted, descending, best);
    HeadNamed(sorted, descending, limit);
  }

  lemma BestOfSorted(keyed: seq<Keyed>, descending: bool, best: Keyed)
    requires best in keyed
    requires forall k | k in keyed && k != best :: if descending then Precedes(k, best) else Precedes(best, k)
    ensures best in StableSort(keyed)
    ensures forall k | k in StableSort(keyed) && k != best ::
            if descending then Precedes(k, best) else Precedes(best, k)
  {
    SortMembers(keyed, best);
    forall k | k in StableSort(keyed) && k != best ensures if descending then Precedes(k, best) else Precedes(best, k) {
      SortMembers(keyed, k);
    }
  }

  lemma HeadNamed(sorted: seq<Keyed>, descending: bool, limit: Option<nat>)
    requires |sorted| > 0 && (limit.Some? ==> limit.value > 0)
    ensures var names := Truncated(Names(if descending then Reversed(sorted) else sorted), limit);
            |names| > 0 && names[0] == if descending then sorted[|sorted| - 1].name else sorted[0].name
  {
  }

  lemma HeadIsBest(sorted: seq<Keyed>, descending: bool, best: Keyed)
    requires Strict(sorted) && best in sorted
    requires forall k | k in sorted && k != best :: if descending then Precedes(k, best) else Precedes(best, k)
    ensures (if descending then sorted[|sorted| - 1] else sorted[0]) == best
  {
    var at :| 0 <= at < |sorted| && sorted[at] == best;
    var head := if descending then sorted[|sorted| - 1] else sorted[0];
    assert head in sorted;
    if head != best {
      PrecedesTransitive(head, best, head);
      PrecedesIrreflexive(head);
    }
  }
}
