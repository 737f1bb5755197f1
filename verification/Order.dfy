/** Strings in code-point order, and the ascending listing of a finite set of
    strings: the iteration order of the source's `BTreeMap` and `BTreeSet`. */
module Order {

  predicate Below(a: string, b: string) {
    if |a| == 0 || |b| == 0 then |b| > 0
    else a[0] < b[0] || (a[0] == b[0] && Below(a[1..], b[1..]))
  }

  lemma {:induction false} BelowIrreflexive(a: string)
    ensures !Below(a, a)
  {
    if |a| > 0 {
      BelowIrreflexive(a[1..]);
    }
  }

  lemma {:induction false} BelowTransitive(a: string, b: string, c: string)
    requires Below(a, b) && Below(b, c)
    ensures Below(a, c)
  {
    if |a| > 0 && a[0] == b[0] == c[0] {
      BelowTransitive(a[1..], b[1..], c[1..]);
    }
  }

  lemma {:induction false} BelowTotal(a: string, b: string)
    ensures a == b || Below(a, b) || Below(b, a)
  {
    if |a| > 0 && |b| > 0 && a[0] == b[0] {
      BelowTotal(a[1..], b[1..]);
      assert a == [a[0]] + a[1..] && b == [b[0]] + b[1..];
    }
  }

  predicate IsFirst(x: string, s: set<string>) {
    x in s && forall y | y in s :: x == y || Below(x, y)
  }

  lemma {:induction false} FirstExists(s: set<string>)
    requires s != {}
    ensures exists x :: IsFirst(x, s)
  {
    var x :| x in s;
    var rest := s - {x};
    if rest == {} {
      assert s == {x};
      assert IsFirst(x, s);
    } else {
      FirstExists(rest);
      var y :| IsFirst(y, rest);
      BelowTotal(x, y);
      var z := if Below(x, y) then x else y;
      forall k | k in s ensures z == k || Below(z, k) {
        if Below(x, y) && k != x && k != y {
          BelowTransitive(x, y, k);
        }
      }
      assert IsFirst(z, s);
    }
  }

  lemma FirstUnique(x: string, y: string, s: set<string>)
    requires IsFirst(x, s) && IsFirst(y, s)
    ensures x == y
  {
    if x != y {
      BelowTransitive(x, y, x);
      BelowIrreflexive(x);
    }
  }

  /** The least element. */
  function First(s: set<string>): (x: string)
    requires s != {}
    ensures IsFirst(x, s)
  {
    FirstExists(s);
    assert forall x, y | IsFirst(x, s) && IsFirst(y, s) :: x == y by {
      forall x, y | IsFirst(x, s) && IsFirst(y, s) ensures x == y {
        FirstUnique(x, y, s);
      }
    }
    var x :| x in s && IsFirst(x, s);
    x
  }

  /** The elements of `s`, each once, in ascending order. */
  function Sorted(s: set<string>): (r: seq<string>)
    ensures forall x :: x in r <==> x in s
    ensures Ascending(r)
    decreases |s|
  {
    if s == {} then [] else
      var x := First(s);
      var rest := Sorted(s - {x});
      AscendingCons(x, rest, s);
      [x] + rest
  }

  lemma AscendingCons(x: string, rest: seq<string>, s: set<string>)
    requires IsFirst(x, s) && Ascending(rest)
    requires forall y :: y in rest <==> y in s - {x}
    ensures Ascending([x] + rest)
    ensures forall y :: y in [x] + rest <==> y in s
  {
    AscendingFront(x, rest);
  }

  lemma AscendingFront(x: string, rest: seq<string>)
    requires Ascending(rest) && forall y | y in rest :: Below(x, y)
    ensures Ascending([x] + rest)
  {
    var r := [x] + rest;
    forall i, j | 0 <= i < j < |r| ensures Below(r[i], r[j]) {
      assert r[j] == rest[j - 1] && r[j] in rest;
      if i > 0 {
        assert r[i] == rest[i - 1];
      }
    }
  }

  ghost predicate Ascending(r: seq<string>) {
    forall i, j | 0 <= i < j < |r| :: Below(r[i], r[j])
  }

  lemma AscendingDistinct(r: seq<string>, i: nat, j: nat)
    requires Ascending(r) && i < |r| && j < |r| && r[i] == r[j]
    ensures i == j
  {
    BelowIrreflexive(r[i]);
  }

  lemma HasElement(r: seq<string>)
    requires r != []
    ensures exists x :: x in r
  {
    assert r[0] in r;
  }

  /** Two ascending listings of the same elements are the same listing. */
  lemma {:induction false} AscendingUnique(a: seq<string>, b: seq<string>)
    requires Ascending(a) && Ascending(b)
    requires forall x :: x in a <==> x in b
    ensures a == b
  {
    if |a| == 0 {
      if b != [] {
        HasElement(b);
        assert false;
      }
    } else {
      assert a[0] in a && a[0] in b;
      assert b[0] in b && b[0] in a;
      if a[0] != b[0] {
        BelowTransitive(a[0], b[0], a[0]);
        BelowIrreflexive(a[0]);
      }
      forall x ensures x in a[1..] <==> x in b[1..] {
        BelowIrreflexive(a[0]);
        if x in a[1..] {
          assert x in a;
        }
        if x in b[1..] {
          assert x in b;
        }
      }
      AscendingUnique(a[1..], b[1..]);
      assert a == [a[0]] + a[1..] && b == [b[0]] + b[1..];
    }
  }

  function Elements(r: seq<string>): set<string> {
    set x | x in r
  }

  /** Walking an ascending listing meets each element once. */
  lemma NextElement(r: seq<string>, i: nat)
    requires Ascending(r) && i < |r|
    ensures r[i] in r && r[i] !in Elements(r[..i])
    ensures Elements(r[..i + 1]) == Elements(r[..i]) + {r[i]}
  {
    if r[i] in r[..i] {
      var j :| 0 <= j < i && r[j] == r[i];
      AscendingDistinct(r, i, j);
    }
    assert r[..i + 1] == r[..i] + [r[i]];
  }

  lemma AscendingBack(init: seq<string>, x: string)
    requires Ascending(init) && forall y | y in init :: Below(y, x)
    ensures Ascending(init + [x])
  {
    var r := init + [x];
    forall i, j | 0 <= i < j < |r| ensures Below(r[i], r[j]) {
      assert r[i] == init[i] && init[i] in init;
    }
  }

  lemma AllBelow(r: seq<string>, i: nat)
    requires Ascending(r) && i < |r|
    ensures forall y | y in Elements(r[..i]) :: Below(y, r[i])
  {
  }
}
