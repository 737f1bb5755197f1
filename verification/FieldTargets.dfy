/** `catalog=<id>:entry=<key>#/field` targets: decoding the pointer into segments, and
    the field operations on the entry's file. */
module FieldTargets {
  import opened Prelude
  import opened Json
  import opened Addressing
  import opened Overlay
  import opened Toml
  import opened EntryFields
  import opened Rereading
  import Text
  import EditEngine
  import Paths

  // ---- Pointer segments ----

  /** `replace`: every occurrence of the pair `ab`, left to right. */
  function ReplacePair(s: string, a: char, b: char, c: char): string {
    if |s| == 0 then ""
    else if |s| >= 2 && s[0] == a && s[1] == b then [c] + ReplacePair(s[2..], a, b, c)
    else [s[0]] + ReplacePair(s[1..], a, b, c)
  }

  /** The source decodes in two passes, `~1` first. */
  function DecodeSegment(s: string): string {
    ReplacePair(ReplacePair(s, '~', '1', '/'), '~', '0', '~')
  }

  /** RFC 6901 section 4, read character by character. */
  function Unescape(s: string): string {
    if |s| == 0 then ""
    else if |s| >= 2 && s[0] == '~' && s[1] == '1' then ['/'] + Unescape(s[2..])
    else if |s| >= 2 && s[0] == '~' && s[1] == '0' then ['~'] + Unescape(s[2..])
    else [s[0]] + Unescape(s[1..])
  }

  function Escape(s: string): string {
    if |s| == 0 then ""
    else (if s[0] == '~' then "~0" else if s[0] == '/' then "~1" else [s[0]]) + Escape(s[1..])
  }

  /** The two passes decode exactly what one pass does, on any text at all. */
  lemma {:induction false} TwoPassesAreOne(s: string)
    ensures DecodeSegment(s) == Unescape(s)
    decreases |s|
  {
    if |s| == 0 {
    } else if |s| >= 2 && s[0] == '~' && s[1] == '1' {
      TwoPassesAreOne(s[2..]);
      var first := ReplacePair(s, '~', '1', '/');
      assert first[0] == '/' && first[1..] == ReplacePair(s[2..], '~', '1', '/');
    } else if |s| >= 2 && s[0] == '~' && s[1] == '0' {
      TwoPassesAreOne(s[2..]);
      ZeroKept(s);
    } else {
      TwoPassesAreOne(s[1..]);
      var first := ReplacePair(s, '~', '1', '/');
      assert first[0] == s[0] && first[1..] == ReplacePair(s[1..], '~', '1', '/');
      if |s| >= 2 {
        NoNewZero(s[1..]);
      }
    }
  }

  lemma ZeroKept(s: string)
    requires |s| >= 2 && s[0] == '~' && s[1] == '0'
    ensures ReplacePair(s, '~', '1', '/') == "~0" + ReplacePair(s[2..], '~', '1', '/')
  {
    assert s[1..][1..] == s[2..];
    assert ReplacePair(s[1..], '~', '1', '/') == "0" + ReplacePair(s[2..], '~', '1', '/');
  }

  lemma NoNewZero(s: string)
    requires |s| > 0
    ensures var first := ReplacePair(s, '~', '1', '/'); |first| > 0 && (first[0] == '0' ==> s[0] == '0')
  {
  }

  /** In the other order they would not: `~01` names the key `~1`. */
  lemma OrderOfPassesMatters()
    ensures ReplacePair(ReplacePair("~01", '~', '0', '~'), '~', '1', '/') == "/"
    ensures DecodeSegment("~01") == "~1" && Escape("~1") == "~01"
  {
    assert "~01"[2..] == "1" && "1"[1..] == "" && "~1"[2..] == "" && "~1"[1..] == "1";
    assert ReplacePair("1", '~', '0', '~') == "1";
    assert ReplacePair("~01", '~', '0', '~') == "~1";
    assert ReplacePair("~1", '~', '1', '/') == "/";
    TwoPassesAreOne("~01");
    assert Unescape("1") == "1" && Escape("1") == "1";
  }

  function EscapedChar(c: char): string {
    if c == '~' then "~0" else if c == '/' then "~1" else [c]
  }

  lemma PairedAfter(head: string, rest: string)
    requires EscapesPaired(rest) && Text.Free(rest, '/') && exists c :: head == EscapedChar(c)
    ensures EscapesPaired(head + rest) && Text.Free(head + rest, '/')
  {
    var s := head + rest;
    forall i | 0 <= i < |s| && s[i] == '~' ensures i + 1 < |s| && (s[i + 1] == '0' || s[i + 1] == '1') {
      if i >= |head| {
        assert rest[i - |head|] == '~';
        assert s[i + 1] == rest[i - |head| + 1];
      }
    }
  }

  lemma {:induction false} EscapeDecodes(s: string)
    ensures Unescape(Escape(s)) == s
    ensures EscapesPaired(Escape(s)) && Text.Free(Escape(s), '/')
    decreases |s|
  {
    if |s| > 0 {
      EscapeDecodes(s[1..]);
      var head, rest := EscapedChar(s[0]), Escape(s[1..]);
      assert Escape(s) == head + rest;
      PairedAfter(head, rest);
      assert Escape(s)[|head|..] == rest;
      assert s == [s[0]] + s[1..];
    }
  }

  lemma {:induction false} DecodeEscapes(s: string)
    requires EscapesPaired(s) && Text.Free(s, '/')
    ensures Escape(Unescape(s)) == s
    decreases |s|
  {
    if |s| > 0 {
      var n := if s[0] == '~' then 2 else 1;
      assert s[0] in s;
      PairedTail(s, n);
      DecodeEscapes(s[n..]);
      assert Unescape(s)[1..] == Unescape(s[n..]);
      assert s == s[..n] + s[n..];
    }
  }

  lemma PairedTail(s: string, n: nat)
    requires n <= |s| && EscapesPaired(s) && Text.Free(s, '/')
    ensures EscapesPaired(s[n..]) && Text.Free(s[n..], '/')
  {
    forall i | 0 <= i < |s[n..]| && s[n..][i] == '~'
      ensures i + 1 < |s[n..]| && (s[n..][i + 1] == '0' || s[n..][i + 1] == '1')
    {
      assert s[n + i] == '~';
    }
  }

  // ---- Pointers ----

  function Mapped(f: string -> string, parts: seq<string>): (r: seq<string>)
    ensures |r| == |parts| && forall i | 0 <= i < |r| :: r[i] == f(parts[i])
  {
    seq(|parts|, i requires 0 <= i < |parts| => f(parts[i]))
  }

  /** The segments of a pointer that is not empty. */
  function DecodePointer(pointer: string): seq<string>
    requires |pointer| > 0
  {
    Mapped(DecodeSegment, Text.Split(pointer[1..], '/'))
  }

  /** Each segment escaped, after a `/`. */
  function PointerOf(segments: seq<string>): string {
    "/" + Text.Join(Mapped(Escape, segments), '/')
  }

  lemma {:induction false} JoinPaired(parts: seq<string>)
    requires forall p | p in parts :: EscapesPaired(p)
    ensures EscapesPaired(Text.Join(parts, '/'))
  {
    if |parts| > 0 {
      assert parts[0] in parts;
    }
    if |parts| > 1 {
      JoinPaired(parts[1..]);
      PairedConcat(parts[0], Text.Join(parts[1..], '/'));
    }
  }

  lemma PairedConcat(a: string, b: string)
    requires EscapesPaired(a) && EscapesPaired(b)
    ensures EscapesPaired(a + ['/'] + b) && EscapesPaired(['/'] + b)
  {
    var whole, tail := a + ['/'] + b, ['/'] + b;
    forall i | 0 <= i < |whole| && whole[i] == '~'
      ensures i + 1 < |whole| && (whole[i + 1] == '0' || whole[i + 1] == '1')
    {
      if i < |a| {
        assert a[i] == '~' && whole[i + 1] == a[i + 1];
      } else {
        assert b[i - |a| - 1] == '~' && whole[i + 1] == b[i - |a|];
      }
    }
    forall i | 0 <= i < |tail| && tail[i] == '~'
      ensures i + 1 < |tail| && (tail[i + 1] == '0' || tail[i + 1] == '1')
    {
      assert b[i - 1] == '~' && tail[i + 1] == b[i];
    }
  }

  lemma {:induction false} SplitPaired(s: string)
    requires EscapesPaired(s)
    ensures forall p | p in Text.Split(s, '/') :: EscapesPaired(p)
    decreases |s|
  {
    var head := Text.Before(s, '/');
    forall i | 0 <= i < |head| && head[i] == '~'
      ensures i + 1 < |head| && (head[i + 1] == '0' || head[i + 1] == '1')
    {
      assert s[i] == '~' && (s[i + 1] == '0' || s[i + 1] == '1');
    }
    if |head| < |s| {
      var rest := s[|head| + 1..];
      forall i | 0 <= i < |rest| && rest[i] == '~'
        ensures i + 1 < |rest| && (rest[i + 1] == '0' || rest[i + 1] == '1')
      {
        assert s[|head| + 1 + i] == '~';
      }
      SplitPaired(rest);
    }
  }

  /** Every non-empty list of segments has a pointer, which decodes back to it. */
  lemma SegmentsRoundTrip(segments: seq<string>)
    requires |segments| > 0
    ensures IsPointer(PointerOf(segments)) && DecodePointer(PointerOf(segments)) == segments
  {
    var parts := Mapped(Escape, segments);
    forall i | 0 <= i < |parts|
      ensures EscapesPaired(parts[i]) && Text.Free(parts[i], '/') && DecodeSegment(parts[i]) == segments[i]
    {
      EscapeDecodes(segments[i]);
      TwoPassesAreOne(parts[i]);
    }
    var body := Text.Join(parts, '/');
    JoinPaired(parts);
    PairedConcat("", body);
    Text.SplitJoin(parts, '/');
    assert PointerOf(segments)[1..] == body;
  }

  /** And every valid pointer is the one its segments print as. */
  lemma PointerRoundTrip(pointer: string)
    requires IsPointer(pointer) && |pointer| > 0
    ensures PointerOf(DecodePointer(pointer)) == pointer
  {
    var body := pointer[1..];
    assert EscapesPaired(body) by {
      forall i | 0 <= i < |body| && body[i] == '~'
        ensures i + 1 < |body| && (body[i + 1] == '0' || body[i + 1] == '1')
      {
        assert pointer[i + 1] == '~';
      }
    }
    var parts := Text.Split(body, '/');
    SplitPaired(body);
    var back := Mapped(Escape, DecodePointer(pointer));
    forall i | 0 <= i < |parts| ensures back[i] == parts[i] {
      assert parts[i] in parts;
      TwoPassesAreOne(parts[i]);
      DecodeEscapes(parts[i]);
    }
    assert back == parts;
    Text.JoinSplit(body, '/');
  }

  // ---- Entry targets ----

  datatype EntryTarget = EntryTarget(catalog: string, key: string, segments: seq<string>, canonical: string)

  datatype TargetError = Unparsed(cause: AddressError) | NotAnEntry | NoField | EmptySegment

  function ParseEntryTarget(target: string): Result<EntryTarget, TargetError> {
    match Parse(target)
    case Failure(error) => Failure(Unparsed(error))
    case Success(address) =>
      var steps := address.steps;
      if |steps| != 2 || !steps[0].class_.Catalog? || !steps[1].class_.Entry? then Failure(NotAnEntry)
      else if !steps[0].id.Entity? || !steps[1].id.Entity? then Failure(NotAnEntry)
      else if address.pointer.None? || |address.pointer.value| == 0 then Failure(NoField)
      else
        var segments := DecodePointer(address.pointer.value);
        if "" in segments then Failure(EmptySegment)
        else Success(EntryTarget(steps[0].id.id, steps[1].id.id, segments, Display(address)))
  }

  function TargetText(catalog: string, key: string, segments: seq<string>): string {
    Display(TargetAddress(catalog, key, segments))
  }

  function TargetAddress(catalog: string, key: string, segments: seq<string>): Address {
    Address([Step(Catalog, Entity(catalog)), Step(Entry, Entity(key))], Some(PointerOf(segments)))
  }

  ghost predicate IsTarget(catalog: string, key: string, segments: seq<string>) {
    IsEntityId(catalog) && IsEntityId(key) && |segments| > 0 && "" !in segments
  }

  /** Every field of every entry has a target text, which parses to just that field. */
  lemma EveryFieldHasATarget(catalog: string, key: string, segments: seq<string>)
    requires IsTarget(catalog, key, segments)
    ensures var text := TargetText(catalog, key, segments);
            ParseEntryTarget(text) == Success(EntryTarget(catalog, key, segments, text))
  {
    SegmentsRoundTrip(segments);
    var address := TargetAddress(catalog, key, segments);
    PartsParse(address.steps, address.pointer);
    TargetValidates(catalog, key, segments);
  }

  lemma TargetValidates(catalog: string, key: string, segments: seq<string>)
    requires IsTarget(catalog, key, segments)
    ensures Validate(TargetAddress(catalog, key, segments)) == Success(TargetAddress(catalog, key, segments))
  {
    var steps := TargetAddress(catalog, key, segments).steps;
    assert NestsAt(steps, 0) && NestsAt(steps, 1);
    assert FirstMisnested(steps, 2).None?;
    assert FirstMisnested(steps, 1).None?;
  }

  lemma FieldAddress(address: Address)
    requires Valid(address) && |address.steps| == 2
    requires address.steps[0].class_.Catalog? && address.steps[0].id.Entity?
    requires address.steps[1].class_.Entry? && address.steps[1].id.Entity?
    requires address.pointer.Some? && |address.pointer.value| > 0
    ensures IsEntityId(address.steps[0].id.id) && IsEntityId(address.steps[1].id.id)
    ensures address == TargetAddress(address.steps[0].id.id, address.steps[1].id.id,
                                     DecodePointer(address.pointer.value))
  {
    assert address.steps[0] in address.steps && address.steps[1] in address.steps;
    PointerRoundTrip(address.pointer.value);
  }

  /** And nothing else is one: a parsed target is the text of its own field. */
  lemma TargetsAreCanonical(target: string)
    requires ParseEntryTarget(target).Success?
    ensures var t := ParseEntryTarget(target).value;
            IsTarget(t.catalog, t.key, t.segments) && t.canonical == target
            && target == TargetText(t.catalog, t.key, t.segments)
  {
    ParsePrints(target);
    FieldAddress(Parse(target).value);
  }

  // ---- The operations on files ----

  /** Reading and printing a TOML document, and which texts are date-times. */
  datatype Printer = Printer(read: string -> Option<Table>, render: Table -> string, stamp: string -> bool)

  const MIN_I64 := -0x8000_0000_0000_0000
  const MAX_I64 := 0x7fff_ffff_ffff_ffff

  /** What TOML can write: integers of 64 bits, and date-times that are such. */
  predicate PrintableValue(p: Printer, v: Value)
    decreases v
  {
    match v
    case TInteger(n) => MIN_I64 <= n <= MAX_I64
    case TDatetime(text) => p.stamp(text)
    case TArray(items) => forall i | 0 <= i < |items| :: PrintableValue(p, items[i])
    case TInline(entries) => forall k | k in entries :: PrintableValue(p, entries[k])
    case _ => true
  }

  predicate PrintableItem(p: Printer, item: Item)
    decreases item
  {
    match item
    case Plain(v) => PrintableValue(p, v)
    case Nested(table) => Printable(p, table)
    case Tables(tables) => forall i | 0 <= i < |tables| :: Printable(p, tables[i])
  }

  predicate Printable(p: Printer, table: Table)
    decreases table
  {
    forall k | k in table.entries :: PrintableItem(p, table.entries[k])
  }

  predicate InRange(v: Json)
    decreases v
  {
    match v
    case Number(n) => MIN_I64 <= n <= MAX_I64
    case Array(items) => forall i | 0 <= i < |items| :: InRange(items[i])
    case Object(fields) => forall k | k in fields :: InRange(fields[k])
    case _ => true
  }

  /** What is printed reads back as the document without the tables that left no trace,
      and in whatever is read everything shows. */
  ghost predicate Faithful(p: Printer) {
    && (forall t: Table | Printable(p, t) :: p.read(p.render(t)) == Some(RereadRoot(t)))
    && (forall text :: p.read(text).Some? ==> AllShow(p.read(text).value) && Printable(p, p.read(text).value))
  }

  lemma {:induction false} ValuePrintable(p: Printer, v: Json)
    requires InRange(v) && ValueFromJson(v).Some?
    ensures PrintableValue(p, ValueFromJson(v).value)
    decreases v
  {
    match v
    case Array(items) =>
      forall i | 0 <= i < |items| ensures PrintableValue(p, ValueFromJson(items[i]).value) {
        ValuePrintable(p, items[i]);
      }
    case Object(fields) =>
      forall k | k in fields ensures PrintableValue(p, ValueFromJson(fields[k]).value) {
        ValuePrintable(p, fields[k]);
      }
    case _ =>
  }

  lemma {:induction false} ItemPrintable(p: Printer, v: Json)
    requires InRange(v) && ItemFromJson(v).Some?
    ensures PrintableItem(p, ItemFromJson(v).value)
    decreases v
  {
    if v.Object? {
      forall k | k in v.fields ensures PrintableItem(p, ItemFromJson(v.fields[k]).value) {
        ItemPrintable(p, v.fields[k]);
      }
    } else {
      ValuePrintable(p, v);
    }
  }

  predicate PrintableNode(p: Printer, node: Node) {
    PrintableItem(p, ItemOf(node))
  }

  /** What is below a key of a printable table is printable, and so is the table with
      something printable there instead. */
  lemma EntryPrintable(p: Printer, table: Table, key: string)
    requires Printable(p, table)
    ensures key in table.entries ==> PrintableNode(p, NodeOf(table.entries[key]))
    ensures PrintableNode(p, InTable(Table(Implied, map[])))
    ensures forall item | PrintableItem(p, item) :: Printable(p, table.(entries := table.entries[key := item]))
    ensures Printable(p, table.(entries := table.entries - {key}))
  {
    assert Printable(p, Table(Implied, map[]));
    if key in table.entries {
      assert PrintableItem(p, table.entries[key]);
      assert ItemOf(NodeOf(table.entries[key])) == table.entries[key];
    }
  }

  lemma NodeIsTable(p: Printer, table: Table)
    ensures PrintableNode(p, InTable(table)) <==> Printable(p, table)
  {
  }

  lemma {:induction false} SetPrintable(p: Printer, node: Node, path: seq<string>, value: Json)
    requires |path| > 0 && PrintableNode(p, node) && InRange(value) && SetAt(node, path, value).Success?
    ensures PrintableNode(p, SetAt(node, path, value).value.0)
    decreases |path|
  {
    if |path| == 1 {
      AssignPrintable(p, node, path[0], value);
    } else {
      match node
      case InTable(table) =>
        var child := if path[0] in table.entries then NodeOf(table.entries[path[0]])
          else InTable(Table(Implied, map[]));
        NodeIsTable(p, table);
        EntryPrintable(p, table, path[0]);
        SetPrintable(p, child, path[1..], value);
        NodeIsTable(p, SetAt(node, path, value).value.0.table);
      case InTables(tables) =>
        var i := ParseIndex(path[0], |tables|).value;
        NodeIsTable(p, tables[i]);
        SetPrintable(p, InTable(tables[i]), path[1..], value);
      case InValue(v) => SetPrintableValue(p, v, path, value);
    }
  }

  lemma SetPrintableValue(p: Printer, v: Value, path: seq<string>, value: Json)
    requires |path| > 1 && PrintableValue(p, v) && InRange(value) && SetAt(InValue(v), path, value).Success?
    ensures PrintableNode(p, SetAt(InValue(v), path, value).value.0)
    decreases |path|, 0
  {
    match v
    case TInline(entries) =>
      var child := if path[0] in entries then entries[path[0]] else TInline(map[]);
      assert PrintableValue(p, TInline(map[]));
      SetPrintable(p, InValue(child), path[1..], value);
    case TArray(items) => SetPrintable(p, InValue(items[ParseIndex(path[0], |items|).value]), path[1..], value);
    case _ =>
  }

  lemma AssignPrintable(p: Printer, node: Node, last: string, value: Json)
    requires PrintableNode(p, node) && InRange(value) && Assign(node, last, value).Success?
    ensures PrintableNode(p, Assign(node, last, value).value.0)
  {
    if ItemFromJson(value).Some? {
      ItemPrintable(p, value);
    }
    if ValueFromJson(value).Some? {
      ValuePrintable(p, value);
    }
    if node.InTable? {
      NodeIsTable(p, node.table);
      EntryPrintable(p, node.table, last);
      assert PrintableItem(p, NewItem(node.table, last, value).value);
      NodeIsTable(p, Assign(node, last, value).value.0.table);
    }
  }

  lemma {:induction false} UnsetPrintable(p: Printer, node: Node, path: seq<string>)
    requires |path| > 0 && PrintableNode(p, node) && UnsetAt(node, path).Success?
    ensures PrintableNode(p, UnsetAt(node, path).value.0)
    decreases |path|
  {
    match node
    case InTable(table) =>
      NodeIsTable(p, table);
      EntryPrintable(p, table, path[0]);
      if |path| > 1 {
        UnsetPrintable(p, NodeOf(table.entries[path[0]]), path[1..]);
      }
      NodeIsTable(p, UnsetAt(node, path).value.0.table);
    case InTables(tables) =>
      if |path| > 1 {
        var i := ParseIndex(path[0], |tables|).value;
        NodeIsTable(p, tables[i]);
        UnsetPrintable(p, InTable(tables[i]), path[1..]);
      }
    case InValue(v) =>
      if |path| > 1 {
        match v {
          case TInline(entries) => UnsetPrintable(p, InValue(entries[path[0]]), path[1..]);
          case TArray(items) => UnsetPrintable(p, InValue(items[ParseIndex(path[0], |items|).value]), path[1..]);
          case _ =>
        }
      }
  }

  type FieldEdit = string -> Result<(string, EditEngine.Record), EditEngine.EditError>

  function Printed(printer: Printer, edited: Edited, name: string, address: string, after: Option<Json>)
    : Result<(string, EditEngine.Record), EditEngine.EditError>
  {
    match edited
    case Failure(_) => Failure(EditEngine.Refused)
    case Success((node, before)) =>
      if node.InTable? then Success((printer.render(node.table), EditEngine.Record(name, address, before, after)))
      else Failure(EditEngine.Refused)
  }

  function SetEdit(printer: Printer, target: EntryTarget, value: Json): FieldEdit
    requires |target.segments| > 0
  {
    text =>
      match printer.read(text)
      case None => Failure(EditEngine.Refused)
      case Some(root) =>
        Printed(printer, SetAt(InTable(root), target.segments, value), "set_field", target.canonical, Some(value))
  }

  function UnsetEdit(printer: Printer, target: EntryTarget): FieldEdit
    requires |target.segments| > 0
  {
    text =>
      match printer.read(text)
      case None => Failure(EditEngine.Refused)
      case Some(root) => Printed(printer, UnsetAt(InTable(root), target.segments), "unset_field", target.canonical,
                                 None)
  }

  function PathOf(target: EntryTarget): string {
    Paths.EntryPath(target.catalog, target.key)
  }

  function OwnersOf(target: EntryTarget): seq<string> {
    ["catalog=" + target.catalog, "catalog=" + target.catalog + ":entry=" + target.key]
  }

  /** `set_field` as an operation of the engine. */
  function SetField(printer: Printer, target: EntryTarget, value: Json): EditEngine.Operation
    requires |target.segments| > 0
  {
    EditEngine.Rewrite(PathOf(target), OwnersOf(target), SetEdit(printer, target, value))
  }

  function UnsetField(printer: Printer, target: EntryTarget): EditEngine.Operation
    requires |target.segments| > 0
  {
    EditEngine.Rewrite(PathOf(target), OwnersOf(target), UnsetEdit(printer, target))
  }

  /** The document an entry's file holds. */
  function Document(printer: Printer, files: Files, target: EntryTarget): Option<Table> {
    if PathOf(target) in files then printer.read(files[PathOf(target)]) else None
  }

  function EntryView(printer: Printer, files: Files, target: EntryTarget): Option<Json> {
    match Document(printer, files, target)
    case None => None
    case Some(root) => Some(JsonFromTable(root))
  }

  predicate Owned(target: EntryTarget, inherited: set<string>) {
    forall a | a in OwnersOf(target) :: a !in inherited
  }

  lemma OwnsBoth(target: EntryTarget, inherited: set<string>)
    ensures EditEngine.FirstInherited(OwnersOf(target), inherited).None? <==> Owned(target, inherited)
  {
    var a, b := OwnersOf(target)[0], OwnersOf(target)[1];
    assert OwnersOf(target)[1..] == [b] && [b][1..] == [];
    assert EditEngine.FirstInherited([b], inherited).None? <==> b !in inherited;
  }

  /** The file of the entry, and nothing else, has changed. */
  ghost predicate OnlyEntry(before: Files, after: Files, target: EntryTarget) {
    after - {PathOf(target)} == before - {PathOf(target)} && after.Keys == before.Keys
  }

  /** Performing a rewrite of the entry's file. */
  lemma EditPerforms(codec: EditEngine.Codec, inherited: set<string>, files: Files, target: EntryTarget,
                     edit: FieldEdit)
    ensures var r := EditEngine.Perform(codec, inherited, files,
                                        EditEngine.Rewrite(PathOf(target), OwnersOf(target), edit));
            && (r.Success? <==>
                  Owned(target, inherited) && PathOf(target) in files
                  && edit(files[PathOf(target)]).Success?)
            && (r.Success? ==>
                  && r.value.0 == files[PathOf(target) := edit(files[PathOf(target)]).value.0]
                  && r.value.1 == [edit(files[PathOf(target)]).value.1])
  {
    OwnsBoth(target, inherited);
  }

  lemma OnlyEntryChanges(files: Files, target: EntryTarget, text: string)
    requires PathOf(target) in files
    ensures OnlyEntry(files, files[PathOf(target) := text], target)
  {
    var after := files[PathOf(target) := text];
    assert after - {PathOf(target)} == files - {PathOf(target)};
  }

  /** What one `set_field` in an operation list does to the whole tree. It goes through
      exactly when the package owns the catalog and the entry, the entry's file is
      there and readable, and the field can be set. Then the entry's view is the JSON
      update exactly when no array on the way is indexed loosely, no other file has
      changed, and the record says what the field held. */
  lemma SetFieldEdits(codec: EditEngine.Codec, printer: Printer, inherited: set<string>, files: Files,
                      target: EntryTarget, value: Json)
    requires Faithful(printer) && |target.segments| > 0 && InRange(value)
    ensures var r := EditEngine.Perform(codec, inherited, files, SetField(printer, target, value));
            var root, view := Document(printer, files, target), EntryView(printer, files, target);
            && (r.Success? <==>
                  Owned(target, inherited) && root.Some? && SetAt(InTable(root.value), target.segments, value).Success?)
            && (root.Some? && !LooseIndex(InTable(root.value), target.segments) ==>
                  (SetAt(InTable(root.value), target.segments, value).Success? <==>
                     Set(view.value, target.segments, value).Some? && EditEngine.Representable(value)
                     && !ReplacesTables(InTable(root.value), target.segments)))
            && (r.Success? ==>
                  && OnlyEntry(files, r.value.0, target)
                  && (EntryView(printer, r.value.0, target) == Set(view.value, target.segments, value)
                      <==> !LooseIndex(InTable(root.value), target.segments))
                  && (!LooseIndex(InTable(root.value), target.segments) ==>
                        r.value.1 == [EditEngine.Record("set_field", target.canonical,
                                                        Get(view.value, target.segments), Some(value))]))
  {
    EditPerforms(codec, inherited, files, target, SetEdit(printer, target, value));
    if Document(printer, files, target).Some? {
      var root := Document(printer, files, target).value;
      if !LooseIndex(InTable(root), target.segments) {
        SetCommutes(InTable(root), target.segments, value);
      }
      if SetAt(InTable(root), target.segments, value).Success? {
        SetWritten(printer, root, target.segments, value);
        OnlyEntryChanges(files, target, printer.render(SetAt(InTable(root), target.segments, value).value.0.table));
      }
    }
  }

  lemma SetWritten(printer: Printer, root: Table, path: seq<string>, value: Json)
    requires Faithful(printer) && |path| > 0 && InRange(value) && AllShow(root) && Printable(printer, root)
    requires SetAt(InTable(root), path, value).Success?
    ensures var (node, before) := SetAt(InTable(root), path, value).value;
            && node.InTable? && printer.read(printer.render(node.table)) == Some(RereadRoot(node.table))
            && (Some(JsonFromTable(RereadRoot(node.table))) == Set(JsonFromTable(root), path, value) <==>
                !LooseIndex(InTable(root), path))
            && (!LooseIndex(InTable(root), path) ==> before == Get(JsonFromTable(root), path))
  {
    SetKeepsKind(InTable(root), path, value);
    SetExact(InTable(root), path, value);
    SetShows(InTable(root), path, value);
    SetPrintable(printer, InTable(root), path, value);
    ViewKept(SetAt(InTable(root), path, value).value.0.table);
  }

  lemma UnsetWritten(printer: Printer, root: Table, path: seq<string>)
    requires Faithful(printer) && |path| > 0 && AllShow(root) && Printable(printer, root)
    requires UnsetAt(InTable(root), path).Success?
    ensures var (node, before) := UnsetAt(InTable(root), path).value;
            && node.InTable? && printer.read(printer.render(node.table)) == Some(RereadRoot(node.table))
            && (!LooseIndex(InTable(root), path) ==>
                  && Some(JsonFromTable(RereadRoot(node.table))) == Unset(JsonFromTable(root), Cut(InTable(root), path))
                  && before == Get(JsonFromTable(root), path))
  {
    UnsetKeepsKind(InTable(root), path);
    UnsetPrintable(printer, InTable(root), path);
    if !LooseIndex(InTable(root), path) {
      UnsetExact(InTable(root), path);
      UnsetPrunes(InTable(root), path);
      SameEntries(UnsetAt(InTable(root), path).value.0.table);
    }
  }

  /** What one `unset_field` does. It goes through exactly when the entry is owned, its
      file is there and readable, and the field can be removed. Then the field is gone
      from the entry's view, together with every table that only stood for it. */
  lemma UnsetFieldEdits(codec: EditEngine.Codec, printer: Printer, inherited: set<string>, files: Files,
                        target: EntryTarget)
    requires Faithful(printer) && |target.segments| > 0
    ensures var r := EditEngine.Perform(codec, inherited, files, UnsetField(printer, target));
            var root, view := Document(printer, files, target), EntryView(printer, files, target);
            && (r.Success? <==>
                  Owned(target, inherited) && root.Some?
                  && UnsetAt(InTable(root.value), target.segments).Success?)
            && (root.Some? && !LooseIndex(InTable(root.value), target.segments) ==>
                  (UnsetAt(InTable(root.value), target.segments).Success? <==>
                   Unset(view.value, target.segments).Some?))
            && (r.Success? ==>
                  && OnlyEntry(files, r.value.0, target)
                  && (!LooseIndex(InTable(root.value), target.segments) ==>
                        && EntryView(printer, r.value.0, target) ==
                            Unset(view.value, Cut(InTable(root.value), target.segments))
                        && r.value.1 == [EditEngine.Record("unset_field", target.canonical,
                                                           Get(view.value, target.segments), None)]))
  {
    EditPerforms(codec, inherited, files, target, UnsetEdit(printer, target));
    if Document(printer, files, target).Some? {
      var root := Document(printer, files, target).value;
      if !LooseIndex(InTable(root), target.segments) {
        UnsetCommutes(InTable(root), target.segments);
      }
      if UnsetAt(InTable(root), target.segments).Success? {
        UnsetWritten(printer, root, target.segments);
        OnlyEntryChanges(files, target, printer.render(UnsetAt(InTable(root), target.segments).value.0.table));
      }
    }
  }

  /** A field that was absent, set and unset again: the entry's view is what it was
      exactly when the field's parent was there, or the field is a table and the first
      parent made for it was a standard table. */
  lemma FieldUndoneExactly(codec: EditEngine.Codec, printer: Printer, inherited: set<string>, files: Files,
                           target: EntryTarget, value: Json)
    requires Faithful(printer) && |target.segments| > 0 && InRange(value)
    requires EditEngine.Perform(codec, inherited, files, SetField(printer, target, value)).Success?
    requires var root := Document(printer, files, target).value;
             !LooseIndex(InTable(root), target.segments) && Get(JsonFromTable(root), target.segments).None?
    ensures var root := Document(printer, files, target).value;
            var made := EditEngine.Perform(codec, inherited, files, SetField(printer, target, value)).value.0;
            var r := EditEngine.Perform(codec, inherited, made, UnsetField(printer, target));
            && r.Success?
            && (EntryView(printer, r.value.0, target) == EntryView(printer, files, target) <==>
                  || Get(JsonFromTable(root), target.segments[..|target.segments| - 1]).Some?
                  || (value.Object? && CreatesTables(InTable(root), target.segments)))
  {
    var root, path := Document(printer, files, target).value, target.segments;
    EditPerforms(codec, inherited, files, target, SetEdit(printer, target, value));
    SetWritten(printer, root, path, value);
    var made := files[PathOf(target) := printer.render(SetAt(InTable(root), path, value).value.0.table)];
    var second := Document(printer, made, target).value;
    UndoneExactly(root, path, value);
    EditPerforms(codec, inherited, made, target, UnsetEdit(printer, target));
    UnsetWritten(printer, second, path);
  }
}
