/** Setting and unsetting one field of an entry document, addressed by a JSON pointer
    through whatever TOML shapes lie on the way. */
module EntryFields {
  import opened Prelude
  import opened Json
  import opened Toml
  import EditEngine
  import Decimal

  datatype FieldError =
    | NothingAt(segment: string)
    | NotANumber(segment: string)
    | OutOfRange(index: nat)
    | ThroughScalar(segment: string)
    | WholeTables(segment: string)
    | NotAField
    | NotRepresentable

  /** What a segment has been followed into. */
  datatype Node = InTable(table: Table) | InTables(tables: seq<Table>) | InValue(value: Value)

  function JsonFromNode(node: Node): Json {
    match node
    case InTable(table) => JsonFromTable(table)
    case InTables(tables) => JsonFromItem(Tables(tables))
    case InValue(value) => JsonFromValue(value)
  }

  function NodeOf(item: Item): Node {
    match item
    case Plain(value) => InValue(value)
    case Nested(table) => InTable(table)
    case Tables(tables) => InTables(tables)
  }

  function ItemOf(node: Node): Item {
    match node
    case InTable(table) => Nested(table)
    case InTables(tables) => Tables(tables)
    case InValue(value) => Plain(value)
  }

  /** An index as the source reads it: digits, after an optional plus sign. */
  function ReadIndex(segment: string): Option<nat> {
    var digits := if |segment| > 0 && segment[0] == '+' then segment[1..] else segment;
    if |digits| > 0 && Decimal.AllDigits(digits) then Some(Decimal.ValueOf(digits)) else None
  }

  function ParseIndex(segment: string, count: nat): Result<nat, FieldError> {
    match ReadIndex(segment)
    case None => Failure(NotANumber(segment))
    case Some(index) => if index < count then Success(index) else Failure(OutOfRange(index))
  }

  type Edited = Result<(Node, Option<Json>), FieldError>

  // ---- Setting ----

  function SetAt(node: Node, path: seq<string>, value: Json): Edited
    requires |path| > 0
    decreases |path|
  {
    if |path| == 1 then Assign(node, path[0], value) else
      match node
      case InTable(table) =>
        var child := if path[0] in table.entries then NodeOf(table.entries[path[0]])
          else InTable(Table(Implied, map[]));
        var (below, before) :- SetAt(child, path[1..], value);
        Success((InTable(table.(entries := table.entries[path[0] := ItemOf(below)])), before))
      case InTables(tables) =>
        var index :- ParseIndex(path[0], |tables|);
        var (below, before) :- SetAt(InTable(tables[index]), path[1..], value);
        if below.InTable? then Success((InTables(tables[index := below.table]), before)) else Failure(NotAField)
      case InValue(v) =>
        (match v
         case TInline(entries) =>
           var child := if path[0] in entries then entries[path[0]] else TInline(map[]);
           var (below, before) :- SetAt(InValue(child), path[1..], value);
           if below.InValue? then Success((InValue(TInline(entries[path[0] := below.value])), before))
             else Failure(NotAField)
         case TArray(items) =>
           var index :- ParseIndex(path[0], |items|);
           var (below, before) :- SetAt(InValue(items[index]), path[1..], value);
           if below.InValue? then Success((InValue(TArray(items[index := below.value])), before))
             else Failure(NotAField)
         case _ => Failure(ThroughScalar(path[0])))
  }

  /** Sets the final segment on its parent, with the previous value. */
  function Assign(node: Node, last: string, value: Json): Edited {
    match node
    case InTable(table) =>
      var before := if last in table.entries then Some(JsonFromItem(table.entries[last])) else None;
      if last in table.entries && table.entries[last].Tables? then Failure(WholeTables(last))
      else
        var item := NewItem(table, last, value);
        if item.None? then Failure(NotRepresentable)
        else Success((InTable(table.(entries := table.entries[last := item.value])), before))
    case InTables(_) => Failure(WholeTables(last))
    case InValue(v) =>
      (match v
       case TInline(entries) =>
         var before := if last in entries then Some(JsonFromValue(entries[last])) else None;
         (match ValueFromJson(value)
          case None => Failure(NotRepresentable)
          case Some(new_) => Success((InValue(TInline(entries[last := new_])), before)))
       case TArray(items) =>
         var index :- ParseIndex(last, |items|);
         (match ValueFromJson(value)
          case None => Failure(NotRepresentable)
          case Some(new_) => Success((InValue(TArray(items[index := new_])), Some(JsonFromValue(items[index])))))
       case _ => Failure(ThroughScalar(last)))
  }

  /** A standard table stays one when the new value is an object, as does a new key;
      anything else already there becomes a plain value. */
  function NewItem(table: Table, last: string, value: Json): Option<Item> {
    if last !in table.entries || (table.entries[last].Nested? && value.Object?) then ItemFromJson(value)
    else
      match ValueFromJson(value)
      case None => None
      case Some(v) => Some(Plain(v))
  }

  /** In a standard table an object makes a table of its own where the key is new or was
      one; where a plain value stood, a plain value stands again. */
  lemma AssignPlaces(table: Table, last: string, value: Json)
    requires Assign(InTable(table), last, value).Success?
    ensures var after := Assign(InTable(table), last, value).value.0;
            && after.InTable? && last in after.table.entries
            && (after.table.entries[last].Nested? <==>
                  value.Object? && (last in table.entries ==> table.entries[last].Nested?))
  {
  }

  // ---- Unsetting ----

  function UnsetAt(node: Node, path: seq<string>): Edited
    requires |path| > 0
    decreases |path|
  {
    if |path| == 1 then Remove(node, path[0]) else
      match node
      case InTable(table) =>
        if path[0] !in table.entries then Failure(NothingAt(path[0])) else
          var (below, before) :- UnsetAt(NodeOf(table.entries[path[0]]), path[1..]);
          Success((InTable(table.(entries := table.entries[path[0] := ItemOf(below)])), before))
      case InTables(tables) =>
        var index :- ParseIndex(path[0], |tables|);
        var (below, before) :- UnsetAt(InTable(tables[index]), path[1..]);
        if below.InTable? then Success((InTables(tables[index := below.table]), before)) else Failure(NotAField)
      case InValue(v) =>
        (match v
         case TInline(entries) =>
           if path[0] !in entries then Failure(NothingAt(path[0])) else
             var (below, before) :- UnsetAt(InValue(entries[path[0]]), path[1..]);
             if below.InValue? then Success((InValue(TInline(entries[path[0] := below.value])), before))
               else Failure(NotAField)
         case TArray(items) =>
           var index :- ParseIndex(path[0], |items|);
           var (below, before) :- UnsetAt(InValue(items[index]), path[1..]);
           if below.InValue? then Success((InValue(TArray(items[index := below.value])), before))
             else Failure(NotAField)
         case _ => Failure(ThroughScalar(path[0])))
  }

  function Remove(node: Node, last: string): Edited {
    match node
    case InTable(table) =>
      if last !in table.entries then Failure(NothingAt(last))
      else Success((InTable(table.(entries := table.entries - {last})), Some(JsonFromItem(table.entries[last]))))
    case InValue(v) =>
      (match v
       case TInline(entries) =>
         if last !in entries then Failure(NothingAt(last))
         else Success((InValue(TInline(entries - {last})), Some(JsonFromValue(entries[last]))))
       case _ => Failure(NotAField))
    case InTables(_) => Failure(NotAField)
  }

  // ---- The same edits on JSON ----

  /** An array index as RFC 6901 section 4 has it: no sign, no leading zero. */
  function PointerIndex(segment: string): Option<nat> {
    if |segment| > 0 && Decimal.AllDigits(segment) && (|segment| > 1 ==> segment[0] != '0') then
      Some(Decimal.ValueOf(segment))
    else None
  }

  function Below(v: Json, segment: string): Option<Json> {
    match v
    case Object(fields) => if segment in fields then Some(fields[segment]) else None
    case Array(items) =>
      (match PointerIndex(segment)
       case None => None
       case Some(index) => if index < |items| then Some(items[index]) else None)
    case _ => None
  }

  function Get(v: Json, path: seq<string>): Option<Json>
    decreases |path|
  {
    if |path| == 0 then Some(v) else
      match Below(v, path[0])
      case None => None
      case Some(child) => Get(child, path[1..])
  }

  /** Puts a child back where it came from. */
  function With(v: Json, segment: string, child: Json): Json {
    match v
    case Object(fields) => Object(fields[segment := child])
    case Array(items) =>
      if PointerIndex(segment).Some? && PointerIndex(segment).value < |items| then
        Array(items[PointerIndex(segment).value := child])
      else v
    case _ => v
  }

  /** The JSON with `value` at `path`; missing objects on the way are created. */
  function Set(v: Json, path: seq<string>, value: Json): Option<Json>
    decreases |path|
  {
    if |path| == 0 then Some(value)
    else if !v.Object? && Below(v, path[0]).None? then None
    else
      var child := if Below(v, path[0]).Some? then Below(v, path[0]).value else EMPTY;
      match Set(child, path[1..], value)
      case None => None
      case Some(below) => Some(With(v, path[0], below))
  }

  function Unset(v: Json, path: seq<string>): Option<Json>
    requires |path| > 0
    decreases |path|
  {
    if |path| == 1 then
      if v.Object? && path[0] in v.fields then Some(Object(v.fields - {path[0]})) else None
    else
      match Below(v, path[0])
      case None => None
      case Some(child) =>
        match Unset(child, path[1..])
        case None => None
        case Some(below) => Some(With(v, path[0], below))
  }

  lemma SetInObject(fields: map<string, Json>, path: seq<string>, value: Json)
    requires |path| > 1
    ensures var child := if path[0] in fields then fields[path[0]] else EMPTY;
            Set(Object(fields), path, value) ==
              match Set(child, path[1..], value)
              case None => None
              case Some(below) => Some(Object(fields[path[0] := below]))
    ensures Get(Object(fields), path) == if path[0] in fields then Get(fields[path[0]], path[1..]) else None
  {
  }

  lemma UnsetInObject(fields: map<string, Json>, path: seq<string>)
    requires |path| > 1
    ensures if path[0] in fields then
              && Get(Object(fields), path) == Get(fields[path[0]], path[1..])
              && Unset(Object(fields), path) ==
                   match Unset(fields[path[0]], path[1..])
                   case None => None
                   case Some(below) => Some(Object(fields[path[0] := below]))
            else Unset(Object(fields), path).None? && Get(Object(fields), path).None?
  {
  }

  lemma UnsetInArray(items: seq<Json>, path: seq<string>)
    requires |path| > 1
    ensures var index := PointerIndex(path[0]);
            if index.Some? && index.value < |items| then
              && Get(Array(items), path) == Get(items[index.value], path[1..])
              && Unset(Array(items), path) ==
                   match Unset(items[index.value], path[1..])
                   case None => None
                   case Some(below) => Some(Array(items[index.value := below]))
            else Unset(Array(items), path).None? && Get(Array(items), path).None?
  {
  }

  lemma SetInArray(items: seq<Json>, path: seq<string>, value: Json)
    requires |path| > 1
    ensures var index := PointerIndex(path[0]);
            if index.Some? && index.value < |items| then
              && Get(Array(items), path) == Get(items[index.value], path[1..])
              && Set(Array(items), path, value) ==
                   match Set(items[index.value], path[1..], value)
                   case None => None
                   case Some(below) => Some(Array(items[index.value := below]))
            else Set(Array(items), path, value).None? && Get(Array(items), path).None?
  {
  }

  // ---- The edits commute with the JSON view ----

  /** A text that is read as an index but is not how RFC 6901 writes one. */
  predicate IsLoose(segment: string) {
    ReadIndex(segment).Some? && PointerIndex(segment).None?
  }

  /** On its way the path indexes an array, or an array of tables, with such a text. */
  predicate LooseIndex(node: Node, path: seq<string>)
    requires |path| > 0
    decreases |path|
  {
    match node
    case InTable(table) =>
      |path| > 1 && path[0] in table.entries && LooseIndex(NodeOf(table.entries[path[0]]), path[1..])
    case InTables(tables) =>
      IsLoose(path[0])
      || (|path| > 1 && ParseIndex(path[0], |tables|).Success?
          && LooseIndex(InTable(tables[ParseIndex(path[0], |tables|).value]), path[1..]))
    case InValue(v) =>
      (match v
       case TInline(entries) => |path| > 1 && path[0] in entries && LooseIndex(InValue(entries[path[0]]), path[1..])
       case TArray(items) =>
         IsLoose(path[0])
         || (|path| > 1 && ParseIndex(path[0], |items|).Success?
             && LooseIndex(InValue(items[ParseIndex(path[0], |items|).value]), path[1..]))
       case _ => false)
  }

  lemma CanonicalIndex(segment: string)
    requires !IsLoose(segment)
    ensures ReadIndex(segment) == PointerIndex(segment)
  {
    if |segment| > 0 && segment[0] == '+' {
      assert segment[0] in segment;
    }
  }

  /** The edit would replace a whole `[[array of tables]]` or an element of one. */
  predicate ReplacesTables(node: Node, path: seq<string>)
    requires |path| > 0
    decreases |path|
  {
    match node
    case InTable(table) =>
      path[0] in table.entries &&
      (if |path| == 1 then table.entries[path[0]].Tables?
       else ReplacesTables(NodeOf(table.entries[path[0]]), path[1..]))
    case InTables(tables) =>
      |path| == 1
      || (ParseIndex(path[0], |tables|).Success?
          && ReplacesTables(InTable(tables[ParseIndex(path[0], |tables|).value]), path[1..]))
    case InValue(_) => false
  }

  /** Values stay values, tables stay tables. */
  lemma {:induction false} SetKeepsKind(node: Node, path: seq<string>, value: Json)
    requires |path| > 0 && SetAt(node, path, value).Success?
    ensures var after := SetAt(node, path, value).value.0;
            (node.InTable? <==> after.InTable?) && (node.InValue? <==> after.InValue?)
    decreases |path|
  {
  }

  lemma TableUpdate(table: Table, key: string, item: Item)
    ensures JsonFromTable(table.(entries := table.entries[key := item])) ==
            Object(JsonFromTable(table).fields[key := JsonFromItem(item)])
  {
  }

  lemma InlineUpdate(entries: map<string, Value>, key: string, v: Value)
    ensures JsonFromValue(TInline(entries[key := v])) ==
            Object(JsonFromValue(TInline(entries)).fields[key := JsonFromValue(v)])
  {
  }

  lemma ArrayUpdate(items: seq<Value>, i: nat, v: Value)
    requires i < |items|
    ensures JsonFromValue(TArray(items[i := v])) == Array(JsonFromValue(TArray(items)).items[i := JsonFromValue(v)])
  {
  }

  lemma TablesUpdate(tables: seq<Table>, i: nat, t: Table)
    requires i < |tables|
    ensures JsonFromItem(Tables(tables[i := t])) == Array(JsonFromItem(Tables(tables)).items[i := JsonFromTable(t)])
  {
  }

  lemma NewItemProjects(table: Table, last: string, value: Json)
    ensures NewItem(table, last, value).Some? <==> EditEngine.Representable(value)
    ensures NewItem(table, last, value).Some? ==> JsonFromItem(NewItem(table, last, value).value) == value
  {
    ItemFromJsonExact(value);
    ValueFromJsonExact(value);
  }

  /** One assignment: it succeeds exactly when the JSON update does, the value has no
      null and no array of tables is replaced; then it projects to that update. */
  lemma AssignCommutes(node: Node, last: string, value: Json)
    requires !LooseIndex(node, [last])
    ensures Commutes(node, [last], value)
  {
    match node
    case InTable(table) => AssignInTable(table, last, value);
    case InTables(_) => assert [last][1..] == [];
    case InValue(v) =>
      match v {
        case TInline(entries) => AssignInInline(entries, last, value);
        case TArray(items) => AssignInItems(items, last, value);
        case _ => assert [last][1..] == [];
      }
  }

  lemma SetLast(fields: map<string, Json>, last: string, value: Json)
    ensures Set(Object(fields), [last], value) == Some(Object(fields[last := value]))
    ensures Get(Object(fields), [last]) == if last in fields then Some(fields[last]) else None
  {
    assert [last][1..] == [];
  }

  lemma AssignInTable(table: Table, last: string, value: Json)
    ensures Commutes(InTable(table), [last], value)
  {
    NewItemProjects(table, last, value);
    SetLast(JsonFromTable(table).fields, last, value);
    if NewItem(table, last, value).Some? {
      TableUpdate(table, last, NewItem(table, last, value).value);
    }
  }

  lemma AssignInInline(entries: map<string, Value>, last: string, value: Json)
    ensures Commutes(InValue(TInline(entries)), [last], value)
  {
    ValueFromJsonExact(value);
    SetLast(JsonFromValue(TInline(entries)).fields, last, value);
    if ValueFromJson(value).Some? {
      InlineUpdate(entries, last, ValueFromJson(value).value);
    }
  }

  lemma SetElement(items: seq<Json>, last: string, value: Json)
    ensures var index := PointerIndex(last);
            if index.Some? && index.value < |items| then
              && Set(Array(items), [last], value) == Some(Array(items[index.value := value]))
              && Get(Array(items), [last]) == Some(items[index.value])
            else Set(Array(items), [last], value).None? && Get(Array(items), [last]).None?
  {
    assert [last][1..] == [];
  }

  lemma AssignInItems(items: seq<Value>, last: string, value: Json)
    requires !IsLoose(last)
    ensures Commutes(InValue(TArray(items)), [last], value)
  {
    CanonicalIndex(last);
    ValueFromJsonExact(value);
    SetElement(JsonFromValue(TArray(items)).items, last, value);
    if ValueFromJson(value).Some? && ParseIndex(last, |items|).Success? {
      ArrayUpdate(items, ParseIndex(last, |items|).value, ValueFromJson(value).value);
    }
  }

  ghost predicate Commutes(node: Node, path: seq<string>, value: Json)
    requires |path| > 0
  {
    var edited, view := SetAt(node, path, value), JsonFromNode(node);
    && (edited.Success? <==>
          Set(view, path, value).Some? && EditEngine.Representable(value)
          && !ReplacesTables(node, path))
    && (edited.Success? ==>
          Some(JsonFromNode(edited.value.0)) == Set(view, path, value) && edited.value.1 == Get(view, path))
  }

  lemma SameView(item: Item, node: Node)
    ensures JsonFromNode(NodeOf(item)) == JsonFromItem(item)
    ensures JsonFromItem(ItemOf(node)) == JsonFromNode(node)
  {
  }

  lemma EmptyViews()
    ensures JsonFromTable(Table(Implied, map[])) == EMPTY && JsonFromValue(TInline(map[])) == EMPTY
  {
    assert JsonFromTable(Table(Implied, map[])).fields == map[];
    assert JsonFromValue(TInline(map[])).fields == map[];
  }

  lemma NothingYet(path: seq<string>)
    requires |path| > 0
    ensures !ReplacesTables(InTable(Table(Implied, map[])), path)
    ensures Get(EMPTY, path).None?
  {
  }

  /** Setting below a key of a standard table, whose child already commutes. */
  lemma SetInTable(table: Table, path: seq<string>, value: Json)
    requires |path| > 1
    requires Commutes(if path[0] in table.entries then NodeOf(table.entries[path[0]])
                      else InTable(Table(Implied, map[])), path[1..], value)
    ensures Commutes(InTable(table), path, value)
  {
    var key := path[0];
    var child := if key in table.entries then NodeOf(table.entries[key]) else InTable(Table(Implied, map[]));
    EmptyViews();
    NothingYet(path[1..]);
    SameView(ItemOf(child), child);
    SetInObject(JsonFromTable(table).fields, path, value);
    assert JsonFromNode(child) == if key in table.entries then JsonFromTable(table).fields[key] else EMPTY by {
      if key in table.entries {
        SameView(table.entries[key], child);
      }
    }
    var below := SetAt(child, path[1..], value);
    if below.Success? {
      SameView(ItemOf(child), below.value.0);
      TableUpdate(table, key, ItemOf(below.value.0));
    }
  }

  lemma SetInTables(tables: seq<Table>, path: seq<string>, value: Json)
    requires |path| > 1 && ReadIndex(path[0]) == PointerIndex(path[0])
    requires ParseIndex(path[0], |tables|).Success? ==>
               Commutes(InTable(tables[ParseIndex(path[0], |tables|).value]), path[1..], value)
    ensures Commutes(InTables(tables), path, value)
  {
    SetInArray(JsonFromItem(Tables(tables)).items, path, value);
    var index := ParseIndex(path[0], |tables|);
    if index.Success? && SetAt(InTable(tables[index.value]), path[1..], value).Success? {
      SetKeepsKind(InTable(tables[index.value]), path[1..], value);
      TablesUpdate(tables, index.value, SetAt(InTable(tables[index.value]), path[1..], value).value.0.table);
    }
  }

  lemma SetInInline(entries: map<string, Value>, path: seq<string>, value: Json)
    requires |path| > 1
    requires Commutes(InValue(if path[0] in entries then entries[path[0]] else TInline(map[])), path[1..], value)
    ensures Commutes(InValue(TInline(entries)), path, value)
  {
    var child := if path[0] in entries then entries[path[0]] else TInline(map[]);
    EmptyViews();
    NothingYet(path[1..]);
    SetInObject(JsonFromValue(TInline(entries)).fields, path, value);
    var below := SetAt(InValue(child), path[1..], value);
    if below.Success? {
      SetKeepsKind(InValue(child), path[1..], value);
      InlineUpdate(entries, path[0], below.value.0.value);
    }
  }

  lemma SetInItems(items: seq<Value>, path: seq<string>, value: Json)
    requires |path| > 1 && ReadIndex(path[0]) == PointerIndex(path[0])
    requires ParseIndex(path[0], |items|).Success? ==>
               Commutes(InValue(items[ParseIndex(path[0], |items|).value]), path[1..], value)
    ensures Commutes(InValue(TArray(items)), path, value)
  {
    SetInArray(JsonFromValue(TArray(items)).items, path, value);
    var index := ParseIndex(path[0], |items|);
    if index.Success? && SetAt(InValue(items[index.value]), path[1..], value).Success? {
      SetKeepsKind(InValue(items[index.value]), path[1..], value);
      ArrayUpdate(items, index.value, SetAt(InValue(items[index.value]), path[1..], value).value.0.value);
    }
  }

  /** Setting a field commutes with the JSON view. The edit succeeds exactly when the
      pointer can be set in the JSON view, the value has no null, and no array of
      tables is replaced whole; the edited document then projects to exactly the JSON
      update, and the value recorded as `before` is the old view's. */
  lemma {:induction false} SetCommutes(node: Node, path: seq<string>, value: Json)
    requires |path| > 0 && !LooseIndex(node, path)
    ensures Commutes(node, path, value)
    decreases |path|
  {
    if |path| == 1 {
      assert path == [path[0]];
      AssignCommutes(node, path[0], value);
    } else {
      match node
      case InTable(table) =>
        SetCommutes(if path[0] in table.entries then NodeOf(table.entries[path[0]]) else InTable(Table(Implied, map[])),
                    path[1..], value);
        SetInTable(table, path, value);
      case InTables(tables) =>
        CanonicalIndex(path[0]);
        var index := ParseIndex(path[0], |tables|);
        if index.Success? {
          SetCommutes(InTable(tables[index.value]), path[1..], value);
        }
        SetInTables(tables, path, value);
      case InValue(v) =>
        match v {
          case TInline(entries) =>
            SetCommutes(InValue(if path[0] in entries then entries[path[0]] else TInline(map[])), path[1..], value);
            SetInInline(entries, path, value);
          case TArray(items) =>
            CanonicalIndex(path[0]);
            var index := ParseIndex(path[0], |items|);
            if index.Success? {
              SetCommutes(InValue(items[index.value]), path[1..], value);
            }
            SetInItems(items, path, value);
          case _ =>
        }
    }
  }

  /** A loose index names nothing in the JSON view: there is nothing to read, set or
      remove at the pointer. */
  lemma {:induction false} LooseNamesNothing(node: Node, path: seq<string>, value: Json)
    requires |path| > 0 && LooseIndex(node, path)
    ensures var view := JsonFromNode(node);
            Get(view, path).None? && Set(view, path, value).None? && Unset(view, path).None?
    decreases |path|
  {
    match node
    case InTable(table) =>
      SetInObject(JsonFromTable(table).fields, path, value);
      UnsetInObject(JsonFromTable(table).fields, path);
      SameView(table.entries[path[0]], node);
      LooseNamesNothing(NodeOf(table.entries[path[0]]), path[1..], value);
    case InTables(tables) =>
      if !IsLoose(path[0]) {
        CanonicalIndex(path[0]);
        SetInArray(JsonFromNode(node).items, path, value);
        UnsetInArray(JsonFromNode(node).items, path);
        LooseNamesNothing(InTable(tables[ParseIndex(path[0], |tables|).value]), path[1..], value);
      }
    case InValue(v) =>
      match v {
        case TInline(entries) =>
          SetInObject(JsonFromValue(v).fields, path, value);
          UnsetInObject(JsonFromValue(v).fields, path);
          LooseNamesNothing(InValue(entries[path[0]]), path[1..], value);
        case TArray(items) =>
          if !IsLoose(path[0]) {
            CanonicalIndex(path[0]);
            SetInArray(JsonFromValue(v).items, path, value);
            UnsetInArray(JsonFromValue(v).items, path);
            LooseNamesNothing(InValue(items[ParseIndex(path[0], |items|).value]), path[1..], value);
          }
        case _ =>
      }
  }

  /** A successful edit is the JSON update, and records the old view's value, exactly
      when no array on the way is indexed loosely. */
  lemma SetExact(node: Node, path: seq<string>, value: Json)
    requires |path| > 0 && SetAt(node, path, value).Success?
    ensures Some(JsonFromNode(SetAt(node, path, value).value.0)) == Set(JsonFromNode(node), path, value)
        <==> !LooseIndex(node, path)
    ensures !LooseIndex(node, path) ==> SetAt(node, path, value).value.1 == Get(JsonFromNode(node), path)
  {
    if LooseIndex(node, path) {
      LooseNamesNothing(node, path, value);
    } else {
      SetCommutes(node, path, value);
    }
  }

  // ---- Unsetting commutes too ----

  lemma {:induction false} UnsetKeepsKind(node: Node, path: seq<string>)
    requires |path| > 0 && UnsetAt(node, path).Success?
    ensures var after := UnsetAt(node, path).value.0;
            (node.InTable? <==> after.InTable?) && (node.InValue? <==> after.InValue?)
    decreases |path|
  {
  }

  lemma RemoveCommutes(node: Node, last: string)
    ensures Remove(node, last).Success? <==> Unset(JsonFromNode(node), [last]).Some?
    ensures Remove(node, last).Success? ==>
              var (after, before) := Remove(node, last).value;
              Some(JsonFromNode(after)) == Unset(JsonFromNode(node), [last])
                  && before == Get(JsonFromNode(node), [last])
  {
    assert [last][1..] == [];
    match node
    case InTable(table) =>
      if last in table.entries {
        assert JsonFromTable(table.(entries := table.entries - {last})).fields == JsonFromTable(table).fields - {last};
      }
    case InValue(TInline(entries)) =>
      if last in entries {
        assert JsonFromValue(TInline(entries - {last})).fields == JsonFromValue(TInline(entries)).fields - {last};
      }
    case _ =>
  }

  ghost predicate UnsetsAlike(node: Node, path: seq<string>)
    requires |path| > 0
  {
    var edited, view := UnsetAt(node, path), JsonFromNode(node);
    && (edited.Success? <==> Unset(view, path).Some?)
    && (edited.Success? ==>
          Some(JsonFromNode(edited.value.0)) == Unset(view, path) && edited.value.1 == Get(view, path))
  }

  lemma UnsetInTable(table: Table, path: seq<string>)
    requires |path| > 1
    requires path[0] in table.entries ==> UnsetsAlike(NodeOf(table.entries[path[0]]), path[1..])
    ensures UnsetsAlike(InTable(table), path)
  {
    UnsetInObject(JsonFromTable(table).fields, path);
    if path[0] in table.entries {
      var below := UnsetAt(NodeOf(table.entries[path[0]]), path[1..]);
      SameView(table.entries[path[0]], NodeOf(table.entries[path[0]]));
      if below.Success? {
        SameView(table.entries[path[0]], below.value.0);
        TableUpdate(table, path[0], ItemOf(below.value.0));
      }
    }
  }

  lemma UnsetInTables(tables: seq<Table>, path: seq<string>)
    requires |path| > 1 && ReadIndex(path[0]) == PointerIndex(path[0])
    requires ParseIndex(path[0], |tables|).Success? ==>
               UnsetsAlike(InTable(tables[ParseIndex(path[0], |tables|).value]), path[1..])
    ensures UnsetsAlike(InTables(tables), path)
  {
    UnsetInArray(JsonFromItem(Tables(tables)).items, path);
    var index := ParseIndex(path[0], |tables|);
    if index.Success? && UnsetAt(InTable(tables[index.value]), path[1..]).Success? {
      UnsetKeepsKind(InTable(tables[index.value]), path[1..]);
      TablesUpdate(tables, index.value, UnsetAt(InTable(tables[index.value]), path[1..]).value.0.table);
    }
  }

  lemma UnsetInInline(entries: map<string, Value>, path: seq<string>)
    requires |path| > 1
    requires path[0] in entries ==> UnsetsAlike(InValue(entries[path[0]]), path[1..])
    ensures UnsetsAlike(InValue(TInline(entries)), path)
  {
    UnsetInObject(JsonFromValue(TInline(entries)).fields, path);
    if path[0] in entries && UnsetAt(InValue(entries[path[0]]), path[1..]).Success? {
      UnsetKeepsKind(InValue(entries[path[0]]), path[1..]);
      InlineUpdate(entries, path[0], UnsetAt(InValue(entries[path[0]]), path[1..]).value.0.value);
    }
  }

  lemma UnsetInItems(items: seq<Value>, path: seq<string>)
    requires |path| > 1 && ReadIndex(path[0]) == PointerIndex(path[0])
    requires ParseIndex(path[0], |items|).Success? ==>
               UnsetsAlike(InValue(items[ParseIndex(path[0], |items|).value]), path[1..])
    ensures UnsetsAlike(InValue(TArray(items)), path)
  {
    UnsetInArray(JsonFromValue(TArray(items)).items, path);
    var index := ParseIndex(path[0], |items|);
    if index.Success? && UnsetAt(InValue(items[index.value]), path[1..]).Success? {
      UnsetKeepsKind(InValue(items[index.value]), path[1..]);
      ArrayUpdate(items, index.value, UnsetAt(InValue(items[index.value]), path[1..]).value.0.value);
    }
  }

  /** Unsetting a field succeeds exactly when the JSON view has an object field there,
      and removes exactly it; `before` is what was there. */
  lemma {:induction false} UnsetCommutes(node: Node, path: seq<string>)
    requires |path| > 0 && !LooseIndex(node, path)
    ensures UnsetsAlike(node, path)
    decreases |path|
  {
    if |path| == 1 {
      assert path == [path[0]];
      RemoveCommutes(node, path[0]);
    } else {
      match node
      case InTable(table) =>
        if path[0] in table.entries {
          UnsetCommutes(NodeOf(table.entries[path[0]]), path[1..]);
        }
        UnsetInTable(table, path);
      case InTables(tables) =>
        CanonicalIndex(path[0]);
        var index := ParseIndex(path[0], |tables|);
        if index.Success? {
          UnsetCommutes(InTable(tables[index.value]), path[1..]);
        }
        UnsetInTables(tables, path);
      case InValue(v) =>
        match v {
          case TInline(entries) =>
            if path[0] in entries {
              UnsetCommutes(InValue(entries[path[0]]), path[1..]);
            }
            UnsetInInline(entries, path);
          case TArray(items) =>
            CanonicalIndex(path[0]);
            var index := ParseIndex(path[0], |items|);
            if index.Success? {
              UnsetCommutes(InValue(items[index.value]), path[1..]);
            }
            UnsetInItems(items, path);
          case _ =>
        }
    }
  }

  lemma UnsetExact(node: Node, path: seq<string>)
    requires |path| > 0 && UnsetAt(node, path).Success?
    ensures Some(JsonFromNode(UnsetAt(node, path).value.0)) == Unset(JsonFromNode(node), path) <==>
            !LooseIndex(node, path)
    ensures !LooseIndex(node, path) ==> UnsetAt(node, path).value.1 == Get(JsonFromNode(node), path)
  {
    if LooseIndex(node, path) {
      LooseNamesNothing(node, path, Null);
    } else {
      UnsetCommutes(node, path);
    }
  }
}
