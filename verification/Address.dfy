/** The addressing grammar: `class=id` steps joined by `:`, then an optional `#` and
    a JSON pointer. */
module Addressing {
  import opened Prelude
  import Text

  datatype EntityClass =
    | Package | Manifest | Governance | Variable | Catalog | Entry | List
    | EvaluationContext | Sample | Layer | Linter

  function ClassName(c: EntityClass): (name: string)
    ensures |name| > 0 && Text.Free(name, ':') && Text.Free(name, '#') && Text.Free(name, '=')
  {
    match c
    case Package => "package"
    case Manifest => "manifest"
    case Governance => "governance"
    case Variable => "variable"
    case Catalog => "catalog"
    case Entry => "entry"
    case List => "list"
    case EvaluationContext => "evaluation-context"
    case Sample => "sample"
    case Layer => "layer"
    case Linter => "linter"
  }

  const ALL := [Package, Manifest, Governance, Variable, Catalog, Entry, List, EvaluationContext, Sample, Layer, Linter]

  function FindClass(name: string, among: seq<EntityClass>): (r: Option<EntityClass>)
    ensures r.Some? ==> ClassName(r.value) == name
    ensures r.None? ==> forall c | c in among :: ClassName(c) != name
  {
    if |among| == 0 then None
    else if ClassName(among[0]) == name then Some(among[0])
    else FindClass(name, among[1..])
  }

  function ParseName(name: string): Option<EntityClass> {
    FindClass(name, ALL)
  }

  lemma NameIsUnique(a: EntityClass, b: EntityClass)
    requires ClassName(a) == ClassName(b)
    ensures a == b
  {
    var x, y := ClassName(a), ClassName(b);
    if |x| > 2 {
      assert x[0] == y[0] && x[1] == y[1] && x[2] == y[2] && |x| == |y|;
    }
  }

  lemma NameParses(c: EntityClass)
    ensures ParseName(ClassName(c)) == Some(c)
  {
    assert c in ALL;
    NameIsUnique(c, ParseName(ClassName(c)).value);
  }

  predicate IsSingleton(c: EntityClass) {
    c.Package? || c.Manifest? || c.Governance?
  }

  function Parent(c: EntityClass): Option<EntityClass> {
    match c
    case Entry => Some(Catalog)
    case Sample => Some(EvaluationContext)
    case _ => None
  }

  predicate HasDocument(c: EntityClass) {
    !c.Package? && !c.Linter?
  }

  datatype StepId = Empty | Subtree(prefix: string) | Entity(id: string)

  datatype Step = Step(class_: EntityClass, id: StepId)

  datatype Address = Address(steps: seq<Step>, pointer: Option<string>)

  datatype AddressError =
    | NoSteps
    | MissingBinder(segment: string)
    | UnknownClass(name: string)
    | BadId(id: string)
    | Misnested(index: nat)
    | BadPointer(text: string)
    | NoDocument
    | BadBase

  // ---- Ids and pointers ----

  predicate IsIdChar(c: char) {
    'a' <= c <= 'z' || '0' <= c <= '9' || c == '_'
  }

  predicate IsSegment(s: string) {
    |s| > 0 && forall c | c in s :: IsIdChar(c)
  }

  /** Lower-case snake_case segments separated by `/`. */
  predicate IsEntityId(id: string) {
    |id| > 0 && forall s | s in Text.Split(id, '/') :: IsSegment(s)
  }

  /** Every `~` is followed by 0 or 1. */
  predicate EscapesPaired(s: string) {
    forall i | 0 <= i < |s| && s[i] == '~' :: i + 1 < |s| && (s[i + 1] == '0' || s[i + 1] == '1')
  }

  predicate IsPointer(s: string) {
    |s| == 0 || (s[0] == '/' && EscapesPaired(s))
  }

  method CheckPointer(pointer: string) returns (ok: bool)
    ensures ok == IsPointer(pointer)
  {
    if |pointer| == 0 {
      return true;
    }
    if pointer[0] != '/' {
      return false;
    }
    for i := 0 to |pointer|
      invariant forall j | 0 <= j < i && pointer[j] == '~' ::
                  j + 1 < |pointer| && (pointer[j + 1] == '0' || pointer[j + 1] == '1')
    {
      if pointer[i] == '~' && !(i + 1 < |pointer| && (pointer[i + 1] == '0' || pointer[i + 1] == '1')) {
        return false;
      }
    }
    ok := true;
  }

  lemma IdChars(id: string, c: char)
    requires IsEntityId(id) && c in id
    ensures IsIdChar(c) || c == '/'
  {
    Text.JoinSplit(id, '/');
    Text.JoinChars(Text.Split(id, '/'), '/', c);
  }

  lemma {:induction false} LastSplit(s: string, c: char)
    requires |s| > 0
    ensures var parts := Text.Split(s, c); s[|s| - 1] == c ==> parts[|parts| - 1] == ""
    decreases |s|
  {
    var head := Text.Before(s, c);
    if |head| < |s| {
      var rest := s[|head| + 1..];
      if |rest| > 0 {
        LastSplit(rest, c);
      }
    }
  }

  /** An id never ends with the namespace separator. */
  lemma IdEnd(id: string)
    requires IsEntityId(id)
    ensures id[|id| - 1] != '/'
  {
    LastSplit(id, '/');
    var parts := Text.Split(id, '/');
    assert parts[|parts| - 1] in parts;
  }

  // ---- Steps ----

  function ParseStepId(c: EntityClass, id: string): Result<StepId, AddressError> {
    if |id| == 0 then Success(Empty)
    else if IsSingleton(c) then Failure(BadId(id))
    else if id[|id| - 1] == '/' then
      if IsEntityId(id[..|id| - 1]) then Success(Subtree(id[..|id| - 1])) else Failure(BadId(id))
    else if IsEntityId(id) then Success(Entity(id))
    else Failure(BadId(id))
  }

  function IdText(id: StepId): string {
    match id
    case Empty => ""
    case Subtree(prefix) => prefix + "/"
    case Entity(id) => id
  }

  function StepText(step: Step): string {
    ClassName(step.class_) + "=" + IdText(step.id)
  }

  predicate ValidStep(step: Step) {
    && (IsSingleton(step.class_) ==> step.id.Empty?)
    && (step.id.Subtree? ==> IsEntityId(step.id.prefix))
    && (step.id.Entity? ==> IsEntityId(step.id.id))
  }

  function ParseStep(segment: string): Result<Step, AddressError> {
    var (name, id) := Text.SplitOnce(segment, '=');
    if id.None? then Failure(MissingBinder(segment)) else
      match ParseName(name)
      case None => Failure(UnknownClass(name))
      case Some(c) =>
        match ParseStepId(c, id.value)
        case Failure(error) => Failure(error)
        case Success(stepId) => Success(Step(c, stepId))
  }

  lemma IdTextFree(id: StepId, c: char)
    requires (id.Subtree? ==> IsEntityId(id.prefix)) && (id.Entity? ==> IsEntityId(id.id))
    requires c in IdText(id)
    ensures IsIdChar(c) || c == '/'
  {
    match id
    case Empty =>
    case Subtree(prefix) =>
      if c in prefix {
        IdChars(prefix, c);
      }
    case Entity(e) => IdChars(e, c);
  }

  lemma StepTextFree(step: Step)
    requires ValidStep(step)
    ensures Text.Free(StepText(step), ':') && Text.Free(StepText(step), '#')
  {
    forall c | c in IdText(step.id) ensures c != ':' && c != '#' {
      IdTextFree(step.id, c);
    }
  }

  lemma IdReads(c: EntityClass, id: StepId)
    requires ValidStep(Step(c, id))
    ensures ParseStepId(c, IdText(id)) == Success(id)
  {
    match id
    case Empty =>
    case Subtree(prefix) => assert IdText(id)[..|IdText(id)| - 1] == prefix;
    case Entity(e) => IdEnd(e);
  }

  lemma StepReads(step: Step)
    requires ValidStep(step)
    ensures ParseStep(StepText(step)) == Success(step)
    ensures Text.Free(StepText(step), ':') && Text.Free(StepText(step), '#')
  {
    StepTextFree(step);
    Text.SplitOnceAt(ClassName(step.class_), IdText(step.id), '=');
    NameParses(step.class_);
    IdReads(step.class_, step.id);
  }

  lemma SlotPrints(c: EntityClass, id: string)
    requires ParseStepId(c, id).Success?
    ensures IdText(ParseStepId(c, id).value) == id && ValidStep(Step(c, ParseStepId(c, id).value))
  {
  }

  lemma StepPrints(segment: string)
    requires ParseStep(segment).Success?
    ensures StepText(ParseStep(segment).value) == segment && ValidStep(ParseStep(segment).value)
  {
    var (name, id) := Text.SplitOnce(segment, '=');
    var c := ParseName(name).value;
    SlotPrints(c, id.value);
    assert StepText(ParseStep(segment).value) == name + "=" + id.value;
    assert segment == name + ['='] + id.value;
  }

  // ---- Addresses ----

  predicate IsEntity(a: Address)
    requires |a.steps| > 0
  {
    var last := a.steps[|a.steps| - 1];
    last.id.Entity? || (IsSingleton(last.class_) && !last.class_.Package?)
  }

  predicate NestsAt(steps: seq<Step>, i: nat)
    requires i < |steps|
  {
    if i == 0 then Parent(steps[0].class_).None?
    else Parent(steps[i].class_) == Some(steps[i - 1].class_) && steps[i - 1].id.Entity?
  }

  function FirstMisnested(steps: seq<Step>, i: nat): Option<nat>
    requires i <= |steps|
    decreases |steps| - i
  {
    if i == |steps| then None else if NestsAt(steps, i) then FirstMisnested(steps, i + 1) else Some(i)
  }

  function Validate(a: Address): Result<Address, AddressError>
    requires |a.steps| > 0
  {
    var wrong := FirstMisnested(a.steps, 0);
    if wrong.Some? then Failure(Misnested(wrong.value))
    else if a.pointer.Some? && (!IsEntity(a) || !HasDocument(a.steps[|a.steps| - 1].class_)) then Failure(NoDocument)
    else Success(a)
  }

  method ValidateAddress(a: Address) returns (r: Result<Address, AddressError>)
    requires |a.steps| > 0
    ensures r == Validate(a)
  {
    for index := 0 to |a.steps|
      invariant FirstMisnested(a.steps, 0) == FirstMisnested(a.steps, index)
    {
      if !NestsAt(a.steps, index) {
        return Failure(Misnested(index));
      }
    }
    if a.pointer.Some? && (!IsEntity(a) || !HasDocument(a.steps[|a.steps| - 1].class_)) {
      return Failure(NoDocument);
    }
    r := Success(a);
  }

  function ParseSteps(segments: seq<string>, i: nat, steps: seq<Step>): Result<seq<Step>, AddressError>
    requires i <= |segments|
    decreases |segments| - i
  {
    if i == |segments| then Success(steps) else
      match ParseStep(segments[i])
      case Failure(error) => Failure(error)
      case Success(step) => ParseSteps(segments, i + 1, steps + [step])
  }

  function Parse(source: string): Result<Address, AddressError> {
    var (path, pointer) := Text.SplitOnce(source, '#');
    ParseParts(path, pointer)
  }

  function ParseParts(path: string, pointer: Option<string>): Result<Address, AddressError> {
    if |path| == 0 then Failure(NoSteps) else
      match ParseSteps(Text.Split(path, ':'), 0, [])
      case Failure(error) => Failure(error)
      case Success(steps) =>
        if pointer.Some? && !IsPointer(pointer.value) then Failure(BadPointer(pointer.value))
        else if |steps| == 0 then Failure(NoSteps)
        else Validate(Address(steps, pointer))
  }

  method ParseAddress(source: string) returns (r: Result<Address, AddressError>)
    ensures r == Parse(source)
  {
    var (path, pointer) := Text.SplitOnce(source, '#');
    if |path| == 0 {
      return Failure(NoSteps);
    }
    var segments := Text.Split(path, ':');
    var steps := [];
    for i := 0 to |segments|
      invariant |steps| == i
      invariant ParseSteps(segments, 0, []) == ParseSteps(segments, i, steps)
    {
      var step := ParseStep(segments[i]);
      if step.Failure? {
        return Failure(step.error);
      }
      steps := steps + [step.value];
    }
    if pointer.Some? {
      var ok := CheckPointer(pointer.value);
      if !ok {
        return Failure(BadPointer(pointer.value));
      }
    }
    r := ValidateAddress(Address(steps, pointer));
  }

  function StepTexts(steps: seq<Step>): (r: seq<string>)
    ensures |r| == |steps| && forall i | 0 <= i < |r| :: r[i] == StepText(steps[i])
  {
    seq(|steps|, i requires 0 <= i < |steps| => StepText(steps[i]))
  }

  function PathText(steps: seq<Step>): string {
    Text.Join(StepTexts(steps), ':')
  }

  function PointerText(pointer: Option<string>): string {
    if pointer.Some? then ['#'] + pointer.value else ""
  }

  lemma PartsSplit(path: string, pointer: Option<string>)
    requires Text.Free(path, '#')
    ensures Text.SplitOnce(path + PointerText(pointer), '#') == (path, pointer)
  {
    Text.SplitOnceAt(path, if pointer.Some? then pointer.value else "", '#');
    assert path + "" == path;
  }

  function Display(a: Address): string {
    PathText(a.steps) + PointerText(a.pointer)
  }

  ghost predicate Valid(a: Address) {
    && |a.steps| > 0
    && (forall s | s in a.steps :: ValidStep(s))
    && (a.pointer.Some? ==> IsPointer(a.pointer.value))
    && Validate(a) == Success(a)
  }

  lemma StepTextsSnoc(steps: seq<Step>, step: Step)
    ensures StepTexts(steps + [step]) == StepTexts(steps) + [StepText(step)]
  {
  }

  lemma ValidSnoc(steps: seq<Step>, step: Step)
    requires ValidStep(step) && forall s | s in steps :: ValidStep(s)
    ensures forall s | s in steps + [step] :: ValidStep(s)
  {
  }

  lemma PathTextSnoc(steps: seq<Step>, step: Step)
    ensures PathText(steps + [step]) ==
            (if steps == [] then "" else PathText(steps) + ":") + StepText(step)
  {
    StepTextsSnoc(steps, step);
    if steps == [] {
      assert StepTexts(steps + [step]) == [StepText(step)];
    } else {
      Text.JoinSnoc(StepTexts(steps), StepText(step), ':');
      assert PathText(steps) + [':'] == PathText(steps) + ":";
    }
  }

  method Render(a: Address) returns (text: string)
    ensures text == Display(a)
  {
    text := "";
    for i := 0 to |a.steps|
      invariant text == PathText(a.steps[..i])
    {
      assert a.steps[..i + 1] == a.steps[..i] + [a.steps[i]];
      PathTextSnoc(a.steps[..i], a.steps[i]);
      if i > 0 {
        text := text + ":";
      }
      text := text + StepText(a.steps[i]);
    }
    assert a.steps[..|a.steps|] == a.steps;
    text := text + PointerText(a.pointer);
  }

  lemma ParseOnce(segments: seq<string>, i: nat, steps: seq<Step>)
    requires i < |segments| && ParseSteps(segments, i, steps).Success?
    ensures ParseStep(segments[i]).Success?
    ensures ParseSteps(segments, i, steps) == ParseSteps(segments, i + 1, steps + [ParseStep(segments[i]).value])
  {
  }

  lemma AddStep(segments: seq<string>, i: nat, steps: seq<Step>, step: Step)
    requires i < |segments| && StepTexts(steps) == segments[..i] && StepText(step) == segments[i]
    ensures StepTexts(steps + [step]) == segments[..i + 1]
  {
    StepTextsSnoc(steps, step);
    assert segments[..i + 1] == segments[..i] + [segments[i]];
  }

  lemma StepParsed(segments: seq<string>, i: nat, steps: seq<Step>) returns (next: seq<Step>)
    requires i < |segments| && StepTexts(steps) == segments[..i] && forall s | s in steps :: ValidStep(s)
    requires ParseSteps(segments, i, steps).Success?
    ensures StepTexts(next) == segments[..i + 1] && forall s | s in next :: ValidStep(s)
    ensures ParseSteps(segments, i, steps) == ParseSteps(segments, i + 1, next)
  {
    ParseOnce(segments, i, steps);
    StepPrints(segments[i]);
    var step := ParseStep(segments[i]).value;
    next := steps + [step];
    AddStep(segments, i, steps, step);
    ValidSnoc(steps, step);
  }

  lemma {:induction false} StepsPrint(segments: seq<string>, i: nat, steps: seq<Step>)
    requires i <= |segments| && StepTexts(steps) == segments[..i] && forall s | s in steps :: ValidStep(s)
    requires ParseSteps(segments, i, steps).Success?
    ensures var r := ParseSteps(segments, i, steps).value;
            StepTexts(r) == segments && forall s | s in r :: ValidStep(s)
    decreases |segments| - i
  {
    if i < |segments| {
      var next := StepParsed(segments, i, steps);
      StepsPrint(segments, i + 1, next);
    } else {
      assert segments[..i] == segments;
    }
  }

  lemma {:induction false} StepsRead(steps: seq<Step>, i: nat)
    requires i <= |steps| && forall s | s in steps :: ValidStep(s)
    ensures ParseSteps(StepTexts(steps), i, steps[..i]) == Success(steps)
    decreases |steps| - i
  {
    if i < |steps| {
      assert steps[i] in steps;
      StepReads(steps[i]);
      assert steps[..i + 1] == steps[..i] + [steps[i]];
      StepsRead(steps, i + 1);
    } else {
      assert steps[..i] == steps;
    }
  }

  lemma OnceParts(source: string)
    ensures var (id, pointer) := Text.SplitOnce(source, '#'); source == id + PointerText(pointer)
  {
    var (id, pointer) := Text.SplitOnce(source, '#');
    if pointer.Some? {
      Text.SplitOnceAt(id, pointer.value, '#');
    } else {
      assert id + "" == id;
    }
  }

  /** What a successful parse is made of. */
  lemma ParseMadeOf(source: string) returns (path: string, pointer: Option<string>)
    requires Parse(source).Success?
    ensures source == path + PointerText(pointer)
    ensures ParseSteps(Text.Split(path, ':'), 0, []) == Success(Parse(source).value.steps)
    ensures Parse(source).value.pointer == pointer && (pointer.Some? ==> IsPointer(pointer.value))
    ensures |Parse(source).value.steps| > 0 && Validate(Parse(source).value) == Parse(source)
  {
    path, pointer := Text.SplitOnce(source, '#').0, Text.SplitOnce(source, '#').1;
    OnceParts(source);
    assert Parse(source) == ParseParts(path, pointer);
  }

  /** Parsing loses nothing: the address prints as the text it came from. */
  lemma ParsePrints(source: string)
    requires Parse(source).Success?
    ensures Display(Parse(source).value) == source && Valid(Parse(source).value)
  {
    var path, pointer := ParseMadeOf(source);
    Text.JoinSplit(path, ':');
    assert StepTexts([]) == Text.Split(path, ':')[..0];
    StepsPrint(Text.Split(path, ':'), 0, []);
  }

  lemma PathTextFree(steps: seq<Step>)
    requires |steps| > 0 && forall s | s in steps :: ValidStep(s)
    ensures Text.Free(PathText(steps), '#') && |PathText(steps)| > 0
    ensures Text.Split(PathText(steps), ':') == StepTexts(steps)
  {
    forall p | p in StepTexts(steps) ensures Text.Free(p, ':') && Text.Free(p, '#') {
      var i :| 0 <= i < |steps| && p == StepText(steps[i]);
      assert steps[i] in steps;
      StepReads(steps[i]);
    }
    Text.SplitJoin(StepTexts(steps), ':');
    forall c | c in PathText(steps) ensures c != '#' {
      Text.JoinChars(StepTexts(steps), ':', c);
    }
  }

  /** What well-formed steps with some pointer text are read as. */
  function ReadAs(steps: seq<Step>, pointer: Option<string>): Result<Address, AddressError>
    requires |steps| > 0
  {
    if pointer.Some? && !IsPointer(pointer.value) then Failure(BadPointer(pointer.value))
    else Validate(Address(steps, pointer))
  }

  /** The text of well-formed steps with any pointer text parses as its validation. */
  lemma PartsParse(steps: seq<Step>, pointer: Option<string>)
    requires |steps| > 0 && forall s | s in steps :: ValidStep(s)
    ensures Parse(PathText(steps) + PointerText(pointer)) == ReadAs(steps, pointer)
  {
    PathTextFree(steps);
    PartsSplit(PathText(steps), pointer);
    StepsRead(steps, 0);
    assert steps[..0] == [];
  }

  /** Printing loses nothing either: every valid address reparses to itself. */
  lemma PrintParses(a: Address)
    requires Valid(a)
    ensures Parse(Display(a)) == Success(a)
  {
    PartsParse(a.steps, a.pointer);
  }

  /** Nesting never goes deeper than an entity inside a root entity. */
  lemma AtMostTwoSteps(a: Address)
    requires Valid(a)
    ensures |a.steps| <= 2
  {
    NestsUpTo(a.steps, 0);
    assert |a.steps| > 2 ==> NestsAt(a.steps, 1) && NestsAt(a.steps, 2);
  }

  lemma {:induction false} NestsUpTo(steps: seq<Step>, i: nat)
    requires i <= |steps| && FirstMisnested(steps, i).None?
    ensures forall j | i <= j < |steps| :: NestsAt(steps, j)
    decreases |steps| - i
  {
    if i < |steps| {
      NestsUpTo(steps, i + 1);
    }
  }

  // ---- References ----

  datatype Reference =
    | Absolute(address: Address)
    | FragmentOnly(pointer: string)
    | BareId(id: string, idPointer: Option<string>)

  /** An id slot of a base to fill: no `=` or `:` before any `#`. */
  predicate BareShaped(source: string) {
    var path := Text.SplitOnce(source, '#').0;
    !(|source| > 0 && source[0] == '#') && Text.Free(path, '=') && Text.Free(path, ':')
  }

  function ParseReference(source: string): Result<Reference, AddressError> {
    if |source| > 0 && source[0] == '#' then
      if IsPointer(source[1..]) then Success(FragmentOnly(source[1..])) else Failure(BadPointer(source[1..]))
    else if !BareShaped(source) then
      match Parse(source)
      case Failure(error) => Failure(error)
      case Success(address) => Success(Absolute(address))
    else
      var (id, pointer) := Text.SplitOnce(source, '#');
      if !IsEntityId(id) then Failure(BadId(id))
      else if pointer.Some? && !IsPointer(pointer.value) then Failure(BadPointer(pointer.value))
      else Success(BareId(id, pointer))
  }

  predicate OpenSlot(base: Address)
    requires |base.steps| > 0
  {
    var last := base.steps[|base.steps| - 1];
    !IsSingleton(last.class_) && last.id.Empty?
  }

  function Filled(steps: seq<Step>, id: StepId): seq<Step>
    requires |steps| > 0
  {
    steps[|steps| - 1 := steps[|steps| - 1].(id := id)]
  }

  function Resolve(reference: Reference, base: Address): Result<Address, AddressError>
    requires |base.steps| > 0
  {
    match reference
    case Absolute(address) => Success(address)
    case FragmentOnly(pointer) =>
      if !IsEntity(base) || !HasDocument(base.steps[|base.steps| - 1].class_) then Failure(BadBase)
      else Success(Address(base.steps, Some(pointer)))
    case BareId(id, pointer) =>
      if !OpenSlot(base) then Failure(BadBase)
      else Validate(Address(Filled(base.steps, Entity(id)), pointer))
  }

  function ResolveText(source: string, base: Address): Result<Address, AddressError>
    requires |base.steps| > 0
  {
    match ParseReference(source)
    case Failure(error) => Failure(error)
    case Success(reference) => Resolve(reference, base)
  }

  /** Both succeed with the same address, or both fail. */
  ghost predicate Coincide(a: Result<Address, AddressError>, b: Result<Address, AddressError>) {
    (a.Success? || b.Success?) ==> a == b
  }

  /** Text added to the last part is added to the whole. */
  lemma JoinLast(parts: seq<string>, last: string, more: string, c: char)
    ensures Text.Join(parts + [last + more], c) == Text.Join(parts + [last], c) + more
  {
    if |parts| > 0 {
      Text.JoinSnoc(parts, last, c);
      Text.JoinSnoc(parts, last + more, c);
    } else {
      assert parts + [last + more] == [last + more] && parts + [last] == [last];
    }
  }

  lemma SlotText(steps: seq<Step>, text: string, id: StepId)
    requires |steps| > 0 && steps[|steps| - 1].id.Empty? && IdText(id) == text
    ensures PathText(Filled(steps, id)) == PathText(steps) + text
  {
    var n := |steps| - 1;
    var before := StepTexts(steps[..n]);
    var slot := ClassName(steps[n].class_) + "=";
    assert StepText(steps[n]) == slot && StepText(Filled(steps, id)[n]) == slot + text;
    assert StepTexts(steps) == before + [slot];
    assert StepTexts(Filled(steps, id)) == before + [slot + text];
    JoinLast(before, slot, text, ':');
  }

  /** A text whose last step cannot be read does not parse. */
  lemma BadSlotFails(steps: seq<Step>, id: string, pointer: Option<string>)
    requires |steps| > 0 && (forall s | s in steps :: ValidStep(s)) && steps[|steps| - 1].id.Empty?
    requires Text.Free(id, ':') && Text.Free(id, '#')
    requires ParseStepId(steps[|steps| - 1].class_, id).Failure?
    ensures Parse(PathText(steps) + id + PointerText(pointer)).Failure?
  {
    var n := |steps| - 1;
    var before := StepTexts(steps[..n]);
    var slot := ClassName(steps[n].class_) + "=";
    assert StepText(steps[n]) == slot;
    assert StepTexts(steps) == before + [slot];
    var texts := before + [slot + id];
    JoinLast(before, slot, id, ':');
    forall p | p in texts ensures Text.Free(p, ':') && Text.Free(p, '#') {
      if p in before {
        var i :| 0 <= i < n && p == StepText(steps[i]);
        assert steps[i] in steps;
        StepReads(steps[i]);
      }
    }
    Text.SplitOnceAt(ClassName(steps[n].class_), id, '=');
    NameParses(steps[n].class_);
    assert texts[n] == slot + id == ClassName(steps[n].class_) + ['='] + id;
    BadStepFails(texts, 0, n, []);
    BadTextsFail(texts, pointer);
  }

  lemma BadTextsFail(texts: seq<string>, pointer: Option<string>)
    requires |texts| > 0 && forall p | p in texts :: Text.Free(p, ':') && Text.Free(p, '#')
    requires ParseSteps(texts, 0, []).Failure?
    ensures Parse(Text.Join(texts, ':') + PointerText(pointer)).Failure?
  {
    var path := Text.Join(texts, ':');
    Text.SplitJoin(texts, ':');
    forall c | c in path ensures c != '#' {
      Text.JoinChars(texts, ':', c);
    }
    PartsSplit(path, pointer);
  }

  lemma {:induction false} BadStepFails(segments: seq<string>, i: nat, n: nat, steps: seq<Step>)
    requires i <= n < |segments| && ParseStep(segments[n]).Failure?
    ensures ParseSteps(segments, i, steps).Failure?
    decreases |segments| - i
  {
    if i < n && ParseStep(segments[i]).Success? {
      BadStepFails(segments, i + 1, n, steps + [ParseStep(segments[i]).value]);
    }
  }

  /** The texts that name no entity but do continue an open slot: nothing at all, which
      leaves the collective, and a namespace subtree. */
  predicate NamesNoEntity(source: string) {
    source == "" || (source[|source| - 1] == '/' && IsEntityId(source[..|source| - 1]))
  }

  /** A bare id against an open slot resolves to exactly what the two texts parse to
      together, and fails exactly when that does, precisely unless the text is empty
      or a subtree: those are refused as references though the joined text parses. */
  lemma BareIdResolves(source: string, base: Address)
    requires Valid(base) && OpenSlot(base) && BareShaped(source)
    ensures Coincide(ResolveText(source, base), Parse(Display(base) + source)) <==> !NamesNoEntity(source)
  {
    var slot := ParseStepId(base.steps[|base.steps| - 1].class_, Text.SplitOnce(source, '#').0);
    if slot.Failure? {
      UnreadableSlot(source, base);
      UnreadableText(source, base);
    } else if slot.value.Entity? {
      EntitySlot(source, base);
      EntityText(source, base);
    } else {
      UnnamedSlot(source, base);
      UnnamedText(source, base, slot.value);
    }
  }

  lemma JoinedText(source: string, base: Address)
    requires Valid(base) && OpenSlot(base)
    ensures var (id, pointer) := Text.SplitOnce(source, '#');
            Display(base) + source == PathText(base.steps) + id + PointerText(pointer)
    ensures base.steps[|base.steps| - 1] in base.steps
  {
    var (id, pointer) := Text.SplitOnce(source, '#');
    assert base.pointer.None?;
    OnceParts(source);
    Concat(PathText(base.steps), id, PointerText(pointer));
  }

  lemma Concat(a: string, b: string, c: string)
    ensures a + (b + c) == a + b + c && a + "" == a
  {
  }

  lemma UnreadableText(source: string, base: Address)
    requires Valid(base) && OpenSlot(base) && BareShaped(source)
    requires ParseStepId(base.steps[|base.steps| - 1].class_, Text.SplitOnce(source, '#').0).Failure?
    ensures Parse(Display(base) + source).Failure? && !NamesNoEntity(source)
  {
    var (id, pointer) := Text.SplitOnce(source, '#');
    JoinedText(source, base);
    BadSlotFails(base.steps, id, pointer);
    NamesNoEntityParts(source, id, pointer);
  }

  /** A readable slot text: what the two texts parse to together. */
  lemma FilledIs(source: string, base: Address, stepId: StepId)
    requires Valid(base) && OpenSlot(base) && BareShaped(source)
    requires ParseStepId(base.steps[|base.steps| - 1].class_, Text.SplitOnce(source, '#').0) == Success(stepId)
    ensures Display(base) + source == PathText(Filled(base.steps, stepId)) + PointerText(Text.SplitOnce(source, '#').1)
  {
    var id := Text.SplitOnce(source, '#').0;
    JoinedText(source, base);
    SlotPrints(base.steps[|base.steps| - 1].class_, id);
    SlotText(base.steps, id, stepId);
  }

  lemma FilledText(source: string, base: Address, stepId: StepId)
    requires Valid(base) && OpenSlot(base) && BareShaped(source)
    requires ParseStepId(base.steps[|base.steps| - 1].class_, Text.SplitOnce(source, '#').0) == Success(stepId)
    ensures Parse(Display(base) + source) == ReadAs(Filled(base.steps, stepId), Text.SplitOnce(source, '#').1)
  {
    var pointer := Text.SplitOnce(source, '#').1;
    var steps := Filled(base.steps, stepId);
    FilledIs(source, base, stepId);
    SlotPrints(base.steps[|base.steps| - 1].class_, Text.SplitOnce(source, '#').0);
    FilledValid(base.steps, stepId);
    PartsParse(steps, pointer);
  }

  lemma EntityText(source: string, base: Address)
    requires Valid(base) && OpenSlot(base) && BareShaped(source)
    requires var id := Text.SplitOnce(source, '#').0;
             ParseStepId(base.steps[|base.steps| - 1].class_, id) == Success(Entity(id))
    ensures Parse(Display(base) + source) == ResolveText(source, base) && !NamesNoEntity(source)
  {
    var (id, pointer) := Text.SplitOnce(source, '#');
    FilledText(source, base, Entity(id));
    EntitySlot(source, base);
    IdEnd(id);
    NamesNoEntityParts(source, id, pointer);
  }

  lemma UnnamedParse(source: string, base: Address, stepId: StepId)
    requires Valid(base) && OpenSlot(base) && BareShaped(source)
    requires ParseStepId(base.steps[|base.steps| - 1].class_, Text.SplitOnce(source, '#').0) == Success(stepId)
    requires !stepId.Entity?
    ensures Parse(Display(base) + source).Success? <==> Text.SplitOnce(source, '#').1.None?
  {
    FilledText(source, base, stepId);
    NoEntityCase(base, stepId, Text.SplitOnce(source, '#').1);
  }

  lemma UnnamedText(source: string, base: Address, stepId: StepId)
    requires Valid(base) && OpenSlot(base) && BareShaped(source)
    requires ParseStepId(base.steps[|base.steps| - 1].class_, Text.SplitOnce(source, '#').0) == Success(stepId)
    requires !stepId.Entity?
    ensures Parse(Display(base) + source).Success? <==> NamesNoEntity(source)
  {
    UnnamedParse(source, base, stepId);
    NamesNoEntityParts(source, Text.SplitOnce(source, '#').0, Text.SplitOnce(source, '#').1);
  }

  lemma UnreadableSlot(source: string, base: Address)
    requires Valid(base) && OpenSlot(base) && BareShaped(source)
    requires ParseStepId(base.steps[|base.steps| - 1].class_, Text.SplitOnce(source, '#').0).Failure?
    ensures ResolveText(source, base).Failure?
  {
    var id := Text.SplitOnce(source, '#').0;
    if IsEntityId(id) {
      IdEnd(id);
    }
  }

  lemma UnnamedSlot(source: string, base: Address)
    requires Valid(base) && OpenSlot(base) && BareShaped(source)
    requires var id := ParseStepId(base.steps[|base.steps| - 1].class_, Text.SplitOnce(source, '#').0);
             id.Success? && !id.value.Entity?
    ensures ResolveText(source, base).Failure?
  {
    var id := Text.SplitOnce(source, '#').0;
    if IsEntityId(id) {
      IdEnd(id);
    }
  }

  lemma EntitySlot(source: string, base: Address)
    requires Valid(base) && OpenSlot(base) && BareShaped(source)
    requires var id := Text.SplitOnce(source, '#').0;
             ParseStepId(base.steps[|base.steps| - 1].class_, id) == Success(Entity(id))
    ensures var (id, pointer) := Text.SplitOnce(source, '#');
            ResolveText(source, base) ==
            if pointer.Some? && !IsPointer(pointer.value) then Failure(BadPointer(pointer.value))
            else Validate(Address(Filled(base.steps, Entity(id)), pointer))
  {
  }

  lemma NamesNoEntityParts(source: string, id: string, pointer: Option<string>)
    requires Text.SplitOnce(source, '#') == (id, pointer) && BareShaped(source)
    ensures NamesNoEntity(source) <==>
            pointer.None? && (id == "" || (id[|id| - 1] == '/' && IsEntityId(id[..|id| - 1])))
  {
    if pointer.Some? {
      assert source[|id|] == '#';
      assert '#' in source;
      if source[|source| - 1] == '/' && IsEntityId(source[..|source| - 1]) {
        var prefix := source[..|source| - 1];
        assert source == prefix + ['/'];
        assert '#' in prefix;
        IdChars(prefix, '#');
      }
    }
  }

  lemma FilledValid(steps: seq<Step>, id: StepId)
    requires |steps| > 0 && (forall s | s in steps :: ValidStep(s))
    requires ValidStep(Step(steps[|steps| - 1].class_, id))
    ensures forall s | s in Filled(steps, id) :: ValidStep(s)
  {
    forall s | s in Filled(steps, id) ensures ValidStep(s) {
      var i :| 0 <= i < |steps| && Filled(steps, id)[i] == s;
      assert steps[i] in steps;
    }
  }

  /** A slot left open, or filled with a subtree, validates unless a pointer follows. */
  lemma NoEntityCase(base: Address, stepId: StepId, pointer: Option<string>)
    requires Valid(base) && OpenSlot(base) && !stepId.Entity?
    ensures Validate(Address(Filled(base.steps, stepId), pointer)).Success? <==> pointer.None?
    ensures ReadAs(Filled(base.steps, stepId), pointer).Success? <==> pointer.None?
  {
    SameNesting(base.steps, stepId, 0);
  }

  lemma {:induction false} SameNesting(steps: seq<Step>, id: StepId, i: nat)
    requires |steps| > 0 && i <= |steps|
    ensures FirstMisnested(Filled(steps, id), i) == FirstMisnested(steps, i)
    decreases |steps| - i
  {
    if i < |steps| {
      SameNesting(steps, id, i + 1);
    }
  }

  /** A fragment resolves to what the base's text parses to with its pointer replaced,
      and fails exactly when that does. */
  lemma FragmentResolves(pointer: string, base: Address)
    requires Valid(base)
    ensures Coincide(ResolveText(PointerText(Some(pointer)), base),
                     Parse(PathText(base.steps) + PointerText(Some(pointer))))
  {
    PartsParse(base.steps, Some(pointer));
    assert PointerText(Some(pointer))[1..] == pointer;
    FragmentCase(PointerText(Some(pointer)), pointer, base);
  }

  lemma FragmentCase(source: string, pointer: string, base: Address)
    requires Valid(base) && |source| > 0 && source[0] == '#' && source[1..] == pointer
    ensures Coincide(ResolveText(source, base),
                     if !IsPointer(pointer) then Failure(BadPointer(pointer))
                     else Validate(Address(base.steps, Some(pointer))))
  {
  }

  /** Every valid address is a reference to itself, whatever the base. */
  lemma AbsoluteResolves(a: Address, base: Address)
    requires Valid(a) && |base.steps| > 0
    ensures ResolveText(Display(a), base) == Success(a)
  {
    PathTextFree(a.steps);
    PartsSplit(PathText(a.steps), a.pointer);
    HoldsBinder(a.steps);
    PrintParses(a);
  }

  /** The text of an address's steps has its first class and binder in front. */
  lemma HoldsBinder(steps: seq<Step>)
    requires |steps| > 0
    ensures PathText(steps) != "" && PathText(steps)[0] != '#' && '=' in PathText(steps)
  {
    var first := StepText(steps[0]);
    assert first[|ClassName(steps[0].class_)|] == '=';
    assert first <= PathText(steps);
    assert first[0] == ClassName(steps[0].class_)[0];
    assert first[0] in ClassName(steps[0].class_);
    assert PathText(steps)[|ClassName(steps[0].class_)|] == '=';
  }
}
