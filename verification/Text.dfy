/** Splitting text at a separator character and joining it back. */
module Text {
  import opened Prelude

  /** Unicode white space, which trimming removes. */
  predicate IsWhite(c: char) {
    var n := c as int;
    || 0x09 <= n <= 0x0D || n == 0x20 || n == 0x85 || n == 0xA0 || n == 0x1680 || 0x2000 <= n <= 0x200A
    || n == 0x2028 || n == 0x2029 || n == 0x202F || n == 0x205F || n == 0x3000
  }

  predicate Free(s: string, c: char) {
    c !in s
  }

  predicate DotFree(parts: seq<string>) {
    forall p | p in parts :: Free(p, '.')
  }

  /** Everything before the first `c`; all of `s` when there is none. */
  function Before(s: string, c: char): (r: string)
    ensures Free(r, c) && |r| <= |s| && r == s[..|r|]
    ensures |r| < |s| ==> s[|r|] == c
  {
    if |s| == 0 || s[0] == c then "" else
      var r := [s[0]] + Before(s[1..], c);
      r
  }

  /** `split`: always at least one part, none holding the separator. */
  function Split(s: string, c: char): (parts: seq<string>)
    ensures |parts| > 0
    ensures forall p | p in parts :: Free(p, c)
    decreases |s|
  {
    var head := Before(s, c);
    if |head| == |s| then [head] else [head] + Split(s[|head| + 1..], c)
  }

  function Join(parts: seq<string>, c: char): string {
    if |parts| == 0 then ""
    else if |parts| == 1 then parts[0]
    else parts[0] + [c] + Join(parts[1..], c)
  }

  lemma {:induction false} BeforePrefix(p: string, rest: string, c: char)
    requires Free(p, c)
    ensures Before(p, c) == p
    ensures Before(p + [c] + rest, c) == p
  {
    if |p| > 0 {
      BeforePrefix(p[1..], rest, c);
      assert (p + [c] + rest)[1..] == p[1..] + [c] + rest;
    }
  }

  lemma SplitCons(head: string, rest: string, c: char)
    requires Free(head, c)
    ensures Split(head + [c] + rest, c) == [head] + Split(rest, c)
    ensures Split(head, c) == [head]
  {
    BeforePrefix(head, rest, c);
    assert (head + [c] + rest)[|head| + 1..] == rest;
  }

  lemma {:induction false} SplitJoin(parts: seq<string>, c: char)
    requires |parts| > 0
    requires forall p | p in parts :: Free(p, c)
    ensures Split(Join(parts, c), c) == parts
  {
    assert parts == [parts[0]] + parts[1..];
    if |parts| == 1 {
      SplitCons(parts[0], "", c);
    } else {
      SplitCons(parts[0], Join(parts[1..], c), c);
      SplitJoin(parts[1..], c);
    }
  }

  lemma {:induction false} JoinSplit(s: string, c: char)
    ensures Join(Split(s, c), c) == s
    decreases |s|
  {
    var head := Before(s, c);
    if |head| < |s| {
      var rest := s[|head| + 1..];
      JoinSplit(rest, c);
      var parts := Split(s, c);
      assert parts[1..] == Split(rest, c);
      assert s == head + [c] + rest;
    }
  }

  /** The text before the first `c`, and what follows it when there is one. */
  function SplitOnce(s: string, c: char): (r: (string, Option<string>))
    ensures Free(r.0, c)
    ensures r.1.Some? ==> s == r.0 + [c] + r.1.value
    ensures r.1.None? ==> s == r.0
  {
    var head := Before(s, c);
    if |head| == |s| then (head, None) else (head, Some(s[|head| + 1..]))
  }

  lemma SplitOnceAt(a: string, b: string, c: char)
    requires Free(a, c)
    ensures SplitOnce(a + [c] + b, c) == (a, Some(b)) && SplitOnce(a, c) == (a, None)
    ensures a + ([c] + b) == a + [c] + b
  {
    BeforePrefix(a, b, c);
    assert (a + [c] + b)[|a| + 1..] == b;
  }

  lemma {:induction false} JoinChars(parts: seq<string>, sep: char, c: char)
    requires c in Join(parts, sep)
    ensures c == sep || exists p :: p in parts && c in p
  {
    if |parts| == 1 {
      assert parts[0] in parts;
    } else if |parts| > 1 && c !in parts[0] && c != sep {
      JoinChars(parts[1..], sep, c);
      var p :| p in parts[1..] && c in p;
      assert p in parts;
    } else if |parts| > 1 && c in parts[0] {
      assert parts[0] in parts;
    }
  }

  lemma {:induction false} JoinSnoc(parts: seq<string>, last: string, c: char)
    requires |parts| > 0
    ensures Join(parts + [last], c) == Join(parts, c) + [c] + last
  {
    if |parts| == 1 {
      assert (parts + [last])[1..] == [last];
    } else {
      assert (parts + [last])[1..] == parts[1..] + [last];
      JoinSnoc(parts[1..], last, c);
    }
  }
}
