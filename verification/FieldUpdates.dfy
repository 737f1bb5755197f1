/** What setting and unsetting a field mean on the JSON view: what is read back, what
    is left alone, what one edit undoes; and the document that is edited in place. */
module FieldUpdates {
  import opened Prelude
  import opened Json
  import opened EntryFields
  import opened Toml
  import EditEngine
  import Decimal

  // ---- Two canonical indices name two elements ----

  lemma {:induction false} LeadingDigit(s: string)
    requires |s| > 0 && Decimal.AllDigits(s) && s[0] != '0'
    ensures Decimal.ValueOf(s) >= Decimal.Pow10(|s| - 1)
  {
    assert s[0] in s;
    assert s[|s| - 1] in s;
    var init := s[..|s| - 1];
    if |s| == 1 {
      assert Decimal.ValueOf(s) == Decimal.DigitValue(s[0]);
    } else {
      LeadingDigit(init);
      assert Decimal.ValueOf(s) == Decimal.ValueOf(init) * 10 + Decimal.DigitValue(s[|s| - 1]);
    }
  }

  lemma {:induction false} SameWidthSameText(a: string, b: string)
    requires |a| == |b| && Decimal.AllDigits(a) && Decimal.AllDigits(b)
    requires Decimal.ValueOf(a) == Decimal.ValueOf(b)
    ensures a == b
  {
    if |a| > 0 {
      var n := |a| - 1;
      assert a[n] in a && b[n] in b;
      assert Decimal.ValueOf(a) == Decimal.ValueOf(a[..n]) * 10 + Decimal.DigitValue(a[n]);
      assert Decimal.ValueOf(b) == Decimal.ValueOf(b[..n]) * 10 + Decimal.DigitValue(b[n]);
      SameWidthSameText(a[..n], b[..n]);
      assert a == a[..n] + [a[n]] && b == b[..n] + [b[n]];
    }
  }

  lemma {:induction false} Pow10Grows(m: nat, n: nat)
    requires m <= n
    ensures Decimal.Pow10(m) <= Decimal.Pow10(n)
  {
    if m < n {
      Pow10Grows(m, n - 1);
    }
  }

  lemma ShorterIsSmaller(a: string, b: string)
    requires PointerIndex(a).Some? && PointerIndex(b).Some? && |a| < |b|
    ensures PointerIndex(a).value < PointerIndex(b).value
  {
    Decimal.ValueOfBound(a);
    LeadingDigit(b);
    Pow10Grows(|a|, |b| - 1);
  }

  lemma IndexIsUnique(a: string, b: string)
    requires PointerIndex(a).Some? && PointerIndex(a) == PointerIndex(b)
    ensures a == b
  {
    if |a| < |b| {
      ShorterIsSmaller(a, b);
    } else if |b| < |a| {
      ShorterIsSmaller(b, a);
    } else {
      SameWidthSameText(a, b);
    }
  }

  // ---- Reading back ----

  lemma BelowWith(v: Json, segment: string, child: Json)
    requires v.Object? || Below(v, segment).Some?
    ensures Below(With(v, segment, child), segment) == Some(child)
  {
  }

  lemma BelowOther(v: Json, segment: string, child: Json, other: string)
    requires v.Object? || Below(v, segment).Some?
    requires other != segment
    ensures Below(With(v, segment, child), other) == Below(v, other)
  {
    if v.Array? && PointerIndex(other).Some? && PointerIndex(other) == PointerIndex(segment) {
      IndexIsUnique(other, segment);
    }
  }

  /** The value set is the value read back. */
  lemma {:induction false} SetThenGet(v: Json, path: seq<string>, value: Json)
    requires Set(v, path, value).Some?
    ensures Get(Set(v, path, value).value, path) == Some(value)
    decreases |path|
  {
    if |path| > 0 {
      var child := if Below(v, path[0]).Some? then Below(v, path[0]).value else EMPTY;
      SetThenGet(child, path[1..], value);
      BelowWith(v, path[0], Set(child, path[1..], value).value);
    }
  }

  /** Whatever the path meets on the way can take its next segment: an object any, an
      array the index of an element. */
  ghost predicate Passable(v: Json, path: seq<string>) {
    forall n | 0 <= n < |path| && Get(v, path[..n]).Some? ::
      Get(v, path[..n]).value.Object? || Get(v, path[..n + 1]).Some?
  }

  lemma {:induction false} GetSplit(v: Json, p: seq<string>, q: seq<string>)
    ensures Get(v, p + q) == if Get(v, p).Some? then Get(Get(v, p).value, q) else None
    decreases |p|
  {
    if |p| == 0 {
      assert p + q == q;
    } else {
      assert (p + q)[1..] == p[1..] + q;
      if Below(v, p[0]).Some? {
        GetSplit(Below(v, p[0]).value, p[1..], q);
      }
    }
  }

  lemma PassableTail(v: Json, path: seq<string>)
    requires |path| > 0 && Below(v, path[0]).Some?
    ensures Passable(v, path) <==> Passable(Below(v, path[0]).value, path[1..])
  {
    var child := Below(v, path[0]).value;
    forall n | 0 <= n <= |path[1..]| ensures Get(v, path[..n + 1]) == Get(child, path[1..][..n]) {
      assert path[..n + 1][1..] == path[1..][..n];
    }
    assert Get(v, path[..0]) == Some(v) && Get(v, path[..1]) == Get(child, path[1..][..0]);
    if Passable(v, path) {
      forall n | 0 <= n < |path[1..]| && Get(child, path[1..][..n]).Some?
        ensures Get(child, path[1..][..n]).value.Object? || Get(child, path[1..][..n + 1]).Some?
      {
        assert Get(v, path[..n + 1]).Some?;
        assert Get(v, path[..(n + 1) + 1]) == Get(child, path[1..][..n + 1]);
      }
    }
    if Passable(child, path[1..]) {
      forall n | 0 <= n < |path| && Get(v, path[..n]).Some?
        ensures Get(v, path[..n]).value.Object? || Get(v, path[..n + 1]).Some?
      {
        if n > 0 {
          assert Get(v, path[..(n - 1) + 1]) == Get(child, path[1..][..n - 1]);
          assert Get(v, path[..n + 1]) == Get(child, path[1..][..n]);
        }
      }
    }
  }

  /** A value can be set exactly where nothing on the way is a scalar, or an array
      without the element asked for. */
  lemma {:induction false} SetWhere(v: Json, path: seq<string>, value: Json)
    ensures Set(v, path, value).Some? <==> Passable(v, path)
    decreases |path|
  {
    if |path| > 0 {
      assert path[..0] == [] && Get(v, []) == Some(v);
      if Below(v, path[0]).Some? {
        SetWhere(Below(v, path[0]).value, path[1..], value);
        PassableTail(v, path);
      } else {
        assert path[..1] == [path[0]] && Get(v, path[..1]).None?;
        SetWhere(EMPTY, path[1..], value);
        if v.Object? {
          NothingBelow(v, path);
          EmptyPassable(path[1..]);
        }
      }
    }
  }

  lemma {:induction false} NothingBelow(v: Json, path: seq<string>)
    requires |path| > 0 && v.Object? && Below(v, path[0]).None?
    ensures Passable(v, path)
  {
    forall n | 0 < n < |path| ensures Get(v, path[..n]).None? {
      assert path[..n][0] == path[0];
    }
  }

  lemma EmptyPassable(path: seq<string>)
    ensures Passable(EMPTY, path)
  {
    if |path| > 0 {
      NothingBelow(EMPTY, path);
    }
  }

  /** A value can be removed exactly where it is there, in an object. */
  lemma {:induction false} UnsetWhere(v: Json, path: seq<string>)
    requires |path| > 0
    ensures Get(v, path).Some? ==> Get(v, path[..|path| - 1]).Some?
    ensures Unset(v, path).Some? <==> Get(v, path).Some? && Get(v, path[..|path| - 1]).value.Object?
    decreases |path|
  {
    if |path| == 1 {
      assert path[1..] == [] && path[..0] == [];
    } else if Below(v, path[0]).Some? {
      assert path[1..][..|path| - 2] == path[..|path| - 1][1..];
      UnsetWhere(Below(v, path[0]).value, path[1..]);
    }
  }

  /** Neither pointer lies below the other. */
  ghost predicate Diverge(p: seq<string>, q: seq<string>) {
    !(p <= q) && !(q <= p)
  }

  lemma DivergeTail(p: seq<string>, q: seq<string>)
    requires |p| > 0 && |q| > 0 && p[0] == q[0] && Diverge(p, q)
    ensures Diverge(p[1..], q[1..])
  {
    assert p == [p[0]] + p[1..] && q == [q[0]] + q[1..];
    assert p[1..] <= q[1..] ==> p <= q;
    assert q[1..] <= p[1..] ==> q <= p;
  }

  /** Setting a field leaves every pointer that is neither above nor below it as it
      was, present or absent. */
  lemma {:induction false} SetLeavesOthers(v: Json, path: seq<string>, value: Json, q: seq<string>)
    requires Diverge(path, q) && Set(v, path, value).Some?
    ensures Get(Set(v, path, value).value, q) == Get(v, q)
    decreases |path|
  {
    var child := if Below(v, path[0]).Some? then Below(v, path[0]).value else EMPTY;
    var below := Set(child, path[1..], value).value;
    if path[0] == q[0] {
      DivergeTail(path, q);
      SetLeavesOthers(child, path[1..], value, q[1..]);
      BelowWith(v, path[0], below);
      if Below(v, path[0]).None? {
        NothingYet(q[1..]);
      }
    } else {
      BelowOther(v, path[0], below, q[0]);
    }
  }

  lemma {:induction false} UnsetThenGet(v: Json, path: seq<string>)
    requires |path| > 0 && Unset(v, path).Some?
    ensures Get(v, path).Some? && Get(Unset(v, path).value, path).None?
    decreases |path|
  {
    if |path| > 1 {
      UnsetThenGet(Below(v, path[0]).value, path[1..]);
      BelowWith(v, path[0], Unset(Below(v, path[0]).value, path[1..]).value);
    }
  }

  lemma {:induction false} UnsetLeavesOthers(v: Json, path: seq<string>, q: seq<string>)
    requires |path| > 0 && Diverge(path, q) && Unset(v, path).Some?
    ensures Get(Unset(v, path).value, q) == Get(v, q)
    decreases |path|
  {
    if |path| == 1 {
      assert path == [path[0]];
      assert path[0] == q[0] ==> path <= q;
    } else {
      var child := Below(v, path[0]).value;
      var below := Unset(child, path[1..]).value;
      if path[0] == q[0] {
        DivergeTail(path, q);
        UnsetLeavesOthers(child, path[1..], q[1..]);
        BelowWith(v, path[0], below);
      } else {
        BelowOther(v, path[0], below, q[0]);
      }
    }
  }

  // ---- Undoing ----

  lemma WithTwice(v: Json, segment: string, a: Json, b: Json)
    requires v.Object? || Below(v, segment).Some?
    ensures With(With(v, segment, a), segment, b) == With(v, segment, b)
    ensures Below(v, segment) == Some(b) ==> With(v, segment, b) == v
    ensures With(v, segment, a).Object? == v.Object?
  {
  }

  /** Setting the recorded `before` back undoes a replacement. */
  lemma {:induction false} SetBackUndoes(v: Json, path: seq<string>, value: Json)
    requires Set(v, path, value).Some? && Get(v, path).Some?
    ensures Set(Set(v, path, value).value, path, Get(v, path).value) == Some(v)
    decreases |path|
  {
    if |path| > 0 {
      var child := Below(v, path[0]).value;
      var below := Set(child, path[1..], value).value;
      SetBackUndoes(child, path[1..], value);
      BelowWith(v, path[0], below);
      WithTwice(v, path[0], below, child);
    }
  }

  /** When there was nothing before, unsetting undoes the addition exactly if the
      object holding the field was already there: an edit that created its parents
      leaves them behind, empty. */
  lemma {:induction false} UnsetUndoesExactly(v: Json, path: seq<string>, value: Json)
    requires |path| > 0 && Set(v, path, value).Some? && Get(v, path).None?
    ensures Unset(Set(v, path, value).value, path).Some?
    ensures Unset(Set(v, path, value).value, path) == Some(v) <==> Get(v, path[..|path| - 1]).Some?
    decreases |path|
  {
    var child := if Below(v, path[0]).Some? then Below(v, path[0]).value else EMPTY;
    var below := Set(child, path[1..], value).value;
    BelowWith(v, path[0], below);
    if |path| == 1 {
      assert path[..0] == [];
      assert path[1..] == [] && v.Object?;
      assert v.fields[path[0] := value] - {path[0]} == v.fields;
    } else {
      if Below(v, path[0]).None? {
        NothingYet(path[1..]);
      }
      UnsetUndoesExactly(child, path[1..], value);
      assert path[..|path| - 1][1..] == path[1..][..|path| - 2];
      var rest := Unset(below, path[1..]).value;
      WithTwice(v, path[0], below, rest);
      BelowWith(v, path[0], rest);
    }
  }

  // ---- The document, edited in place ----

  class EntryDocument {
    var root: Table

    constructor (table: Table)
      ensures root == table
    {
      root := table;
    }

    ghost function View(): Json
      reads this
    {
      JsonFromTable(root)
    }

    /** Creates missing tables on the way, then sets the last segment. A failed edit
        leaves the document as it was; a successful one is the JSON update exactly when
        no array on the way is indexed loosely. */
    method SetField(segments: seq<string>, value: Json) returns (r: Result<Option<Json>, FieldError>)
      requires |segments| > 0
      modifies this
      ensures r.Failure? ==> root == old(root)
      ensures r.Success? ==>
                (Some(View()) == Set(old(View()), segments, value) <==> !LooseIndex(InTable(old(root)), segments))
      ensures !LooseIndex(InTable(old(root)), segments) ==>
                && (r.Success? <==> Set(old(View()), segments, value).Some? && EditEngine.Representable(value)
                                    && !ReplacesTables(InTable(old(root)), segments))
                && (r.Success? ==>
                      Some(View()) == Set(old(View()), segments, value)
                      && r.value == Get(old(View()), segments))
    {
      if !LooseIndex(InTable(root), segments) {
        SetCommutes(InTable(root), segments, value);
      }
      var edited := SetAt(InTable(root), segments, value);
      if edited.Failure? {
        return Failure(edited.error);
      }
      SetExact(InTable(root), segments, value);
      SetKeepsKind(InTable(root), segments, value);
      var (node, before) := edited.value;
      root := node.table;
      r := Success(before);
    }

    method UnsetField(segments: seq<string>) returns (r: Result<Option<Json>, FieldError>)
      requires |segments| > 0
      modifies this
      ensures r.Failure? ==> root == old(root)
      ensures r.Success? ==>
                (Some(View()) == Unset(old(View()), segments) <==> !LooseIndex(InTable(old(root)), segments))
      ensures !LooseIndex(InTable(old(root)), segments) ==>
                && (r.Success? <==> Unset(old(View()), segments).Some?)
                && (r.Success? ==>
                      Some(View()) == Unset(old(View()), segments)
                      && r.value == Get(old(View()), segments))
    {
      if !LooseIndex(InTable(root), segments) {
        UnsetCommutes(InTable(root), segments);
      }
      var edited := UnsetAt(InTable(root), segments);
      if edited.Failure? {
        return Failure(edited.error);
      }
      UnsetExact(InTable(root), segments);
      UnsetKeepsKind(InTable(root), segments);
      var (node, before) := edited.value;
      root := node.table;
      r := Success(before);
    }
  }

  /** The source also reads `007` and `+7` as indices, which name nothing in RFC 6901:
      the edit goes through where the JSON pointer is not found. */
  lemma LooseIndexAccepted()
    ensures var list := InTable(Table(Headed, map["a" := Plain(TArray([TInteger(1), TInteger(2)]))]));
            && SetAt(list, ["a", "01"], Number(5)).Success?
            && SetAt(list, ["a", "+1"], Number(5)).Success?
            && Set(JsonFromNode(list), ["a", "01"], Number(5)).None?
            && Set(JsonFromNode(list), ["a", "+1"], Number(5)).None?
  {
    var items := [TInteger(1), TInteger(2)];
    var table := Table(Headed, map["a" := Plain(TArray(items))]);
    var path0, path1 := ["a", "01"], ["a", "+1"];
    assert path0[1..] == ["01"] && path1[1..] == ["+1"];
    assert "01"[..1] == "0" && "0"[..0] == "";
    assert Decimal.ValueOf("0") == 0;
    assert Decimal.ValueOf("01") == 1;
    assert "+1"[1..] == "1" && "1"[..0] == "";
    assert Decimal.ValueOf("1") == 1;
    assert ParseIndex("01", 2) == Success(1) && ParseIndex("+1", 2) == Success(1);
    assert PointerIndex("01").None?;
    assert "+1"[0] in "+1";
    assert PointerIndex("+1").None?;
    LooseStep(items, table, "01");
    LooseStep(items, table, "+1");
  }

  lemma LooseStep(items: seq<Value>, table: Table, index: string)
    requires items == [TInteger(1), TInteger(2)] && table == Table(Headed, map["a" := Plain(TArray(items))])
    requires ParseIndex(index, 2) == Success(1) && PointerIndex(index).None?
    ensures SetAt(InTable(table), ["a", index], Number(5)).Success?
    ensures Set(JsonFromTable(table), ["a", index], Number(5)).None?
  {
    var path := ["a", index];
    assert path[1..] == [index];
    var list := JsonFromTable(table).fields["a"];
    assert list == JsonFromItem(table.entries["a"]) == JsonFromValue(TArray(items));
    assert Below(list, index).None?;
    assert Set(list, [index], Number(5)).None?;
    assert Assign(InValue(TArray(items)), index, Number(5)).Success?;
  }
}
