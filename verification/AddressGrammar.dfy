/** Which ids and which addresses there are, without the parser: the characters and
    separators of an id, and the shapes an address can take. */
module AddressGrammar {
  import opened Addressing
  import Text

  // ---- Ids ----

  /** Lower-case letters, digits and underscores, with single slashes between. */
  predicate IdShape(id: string) {
    && |id| > 0 && id[0] != '/' && id[|id| - 1] != '/'
    && (forall c | c in id :: 'a' <= c <= 'z' || '0' <= c <= '9' || c == '_' || c == '/')
    && forall i | 0 < i < |id| :: !(id[i - 1] == '/' && id[i] == '/')
  }

  lemma {:induction false} SegmentsShape(id: string)
    ensures (forall s | s in Text.Split(id, '/') :: IsSegment(s)) <==> IdShape(id)
    decreases |id|
  {
    var head := Text.Before(id, '/');
    if |head| == |id| {
      assert head == id;
      SingleShape(id);
    } else {
      var rest := id[|head| + 1..];
      assert id == head + "/" + rest;
      SegmentsShape(rest);
      HeadShape(id, head, rest);
      SplitParts(id, head, rest);
    }
  }

  lemma SingleShape(id: string)
    requires Text.Free(id, '/')
    ensures IsSegment(id) <==> IdShape(id)
  {
    if |id| > 0 {
      assert id[0] in id && id[|id| - 1] in id;
      assert forall i | 0 <= i < |id| :: id[i] in id;
    }
  }

  lemma SplitParts(id: string, head: string, rest: string)
    requires Text.Free(head, '/') && id == head + "/" + rest
    ensures (forall s | s in Text.Split(id, '/') :: IsSegment(s)) <==>
            IsSegment(head) && forall s | s in Text.Split(rest, '/') :: IsSegment(s)
  {
    Text.SplitCons(head, rest, '/');
    assert head + "/" + rest == head + ['/'] + rest;
    var parts := Text.Split(rest, '/');
    assert forall s :: s in [head] + parts <==> s == head || s in parts;
  }

  lemma ShapeSplits(id: string, head: string, rest: string)
    requires Text.Free(head, '/') && id == head + "/" + rest && IdShape(id)
    ensures IsSegment(head) && IdShape(rest)
  {
    assert |head| > 0 && |rest| > 0;
    assert id[|head|] == '/' && id[|head| + 1] == rest[0];
    assert forall c | c in head :: c in id;
    assert forall c | c in rest :: c in id;
    assert forall i | 0 <= i < |rest| :: rest[i] == id[|head| + 1 + i];
  }

  lemma ShapeJoins(id: string, head: string, rest: string)
    requires Text.Free(head, '/') && id == head + "/" + rest && IsSegment(head) && IdShape(rest)
    ensures IdShape(id)
  {
    forall i | 0 < i < |id| ensures !(id[i - 1] == '/' && id[i] == '/') {
      if i <= |head| {
        assert id[i - 1] == head[i - 1] && head[i - 1] in head;
      } else if i > |head| + 1 {
        assert id[i - 1] == rest[i - |head| - 2] && id[i] == rest[i - |head| - 1];
      }
    }
    assert id[0] == head[0] && head[0] in head;
    assert id[|id| - 1] == rest[|rest| - 1];
  }

  lemma HeadShape(id: string, head: string, rest: string)
    requires Text.Free(head, '/') && id == head + "/" + rest
    ensures IdShape(id) <==> IsSegment(head) && IdShape(rest)
  {
    if IdShape(id) {
      ShapeSplits(id, head, rest);
    } else if IsSegment(head) && IdShape(rest) {
      ShapeJoins(id, head, rest);
    }
  }

  lemma IdsExact(id: string)
    ensures IsEntityId(id) <==> IdShape(id)
  {
    SegmentsShape(id);
  }

  // ---- Addresses ----

  predicate IdFits(step: Step) {
    match step.id
    case Empty => true
    case Subtree(prefix) => IsEntityId(prefix) && !IsSingleton(step.class_)
    case Entity(id) => IsEntityId(id) && !IsSingleton(step.class_)
  }

  /** The class of thing an address ends at has a document of its own. */
  predicate Documented(step: Step) {
    match step.class_
    case Manifest => true
    case Governance => true
    case Package => false
    case Linter => false
    case _ => step.id.Entity?
  }

  /** Entries live in one catalog, samples in one context, and nothing else in anything;
      a pointer goes into the document of one entity. */
  lemma ShapesExact(a: Address)
    ensures Valid(a) <==>
            && (|a.steps| == 1 || |a.steps| == 2)
            && (forall s | s in a.steps :: IdFits(s))
            && !a.steps[0].class_.Entry? && !a.steps[0].class_.Sample?
            && (|a.steps| == 2 ==>
                  && a.steps[0].id.Entity?
                  && (|| (a.steps[0].class_.Catalog? && a.steps[1].class_.Entry?)
                      || (a.steps[0].class_.EvaluationContext? && a.steps[1].class_.Sample?)))
            && (a.pointer.Some? ==> IsPointer(a.pointer.value) && Documented(a.steps[|a.steps| - 1]))
  {
    if Valid(a) {
      AtMostTwoSteps(a);
    }
    if |a.steps| == 1 || |a.steps| == 2 {
      Nesting(a.steps);
      assert a.steps[0] in a.steps && a.steps[|a.steps| - 1] in a.steps;
      assert forall s | s in a.steps :: s == a.steps[0] || s == a.steps[|a.steps| - 1];
    }
  }

  lemma Nesting(steps: seq<Step>)
    requires |steps| == 1 || |steps| == 2
    ensures FirstMisnested(steps, 0).None? <==> NestsAt(steps, 0) && NestsAt(steps, |steps| - 1)
  {
    assert FirstMisnested(steps, |steps|).None?;
    if |steps| == 2 {
      assert FirstMisnested(steps, 1).None? <==> NestsAt(steps, 1);
    }
  }
}
