/** What a document is once it has been written and read again: a table without a
    header of its own is only there as long as something in it is. */
module Rereading {
  import opened Prelude
  import opened Json
  import opened Toml
  import opened EntryFields
  import opened FieldUpdates

  // ---- Writing and reading again ----

  /** Whether an item leaves any trace in the text. */
  predicate ItemShows(item: Item)
    decreases item
  {
    match item
    case Plain(_) => true
    case Nested(table) => Shows(table)
    case Tables(tables) => tables != []
  }

  predicate Shows(table: Table)
    decreases table
  {
    table.kind.Headed? || exists k | k in table.entries :: ItemShows(table.entries[k])
  }

  /** Key-value lines of its own, dotted ones included. */
  predicate HasValues(table: Table)
    decreases table
  {
    exists k | k in table.entries ::
      table.entries[k].Plain?
      || (table.entries[k].Nested? && table.entries[k].table.kind.Dotted? && HasValues(table.entries[k].table))
  }

  /** An implied table that has lines of its own is written with a header. */
  function KindAfter(table: Table): Kind {
    if table.kind.Headed? then Headed
    else if !HasValues(table) then Implied
    else if table.kind.Dotted? then Dotted
    else Headed
  }

  function RereadItem(item: Item): Item
    decreases item, 1
  {
    match item
    case Plain(_) => item
    case Nested(table) => Nested(Reread(table))
    case Tables(tables) =>
      Tables(seq(|tables|, i requires 0 <= i < |tables| => Table(Headed, RereadEntries(tables[i]))))
  }

  function RereadEntries(table: Table): map<string, Item>
    decreases table, 0
  {
    map k | k in table.entries && ItemShows(table.entries[k]) :: RereadItem(table.entries[k])
  }

  function Reread(table: Table): Table
    decreases table, 1
  {
    Table(KindAfter(table), RereadEntries(table))
  }

  /** The document's own table always stands. */
  function RereadRoot(table: Table): Table {
    Table(Headed, RereadEntries(table))
  }

  lemma EntriesAre(table: Table)
    ensures forall k :: k in RereadEntries(table) <==> k in table.entries && ItemShows(table.entries[k])
    ensures forall k | k in RereadEntries(table) :: RereadEntries(table)[k] == RereadItem(table.entries[k])
    ensures Reread(table).entries == RereadEntries(table) == RereadRoot(table).entries
  {
  }

  function RereadNode(node: Node): Node {
    match node
    case InTable(table) => InTable(Reread(table))
    case InTables(tables) => InTables(RereadItem(Tables(tables)).tables)
    case InValue(_) => node
  }

  // ---- Documents in which everything shows ----

  /** Nothing in the table would be lost. Whatever was read from a text is so. */
  predicate AllShow(table: Table)
    decreases table
  {
    forall k | k in table.entries :: ItemShows(table.entries[k]) && ItemAllShow(table.entries[k])
  }

  predicate ItemAllShow(item: Item)
    decreases item
  {
    match item
    case Plain(_) => true
    case Nested(table) => AllShow(table)
    case Tables(tables) => forall i | 0 <= i < |tables| :: AllShow(tables[i])
  }

  predicate NodeAllShow(node: Node) {
    ItemAllShow(ItemOf(node))
  }

  lemma ChildShows(table: Table, key: string)
    requires AllShow(table)
    ensures NodeAllShow(InTable(Table(Implied, map[])))
    ensures key in table.entries ==> ItemShows(table.entries[key]) && NodeAllShow(NodeOf(table.entries[key]))
    ensures key in table.entries ==> ItemOf(NodeOf(table.entries[key])) == table.entries[key]
  {
    assert AllShow(Table(Implied, map[]));
  }

  /** Then reading it again changes nothing in the view. */
  lemma {:induction false} ViewKept(table: Table)
    requires AllShow(table)
    ensures JsonFromTable(RereadRoot(table)) == JsonFromTable(table)
    ensures JsonFromTable(Reread(table)) == JsonFromTable(table)
    decreases table, 0
  {
    forall k | k in table.entries ensures JsonFromItem(RereadItem(table.entries[k])) == JsonFromItem(table.entries[k]) {
      ItemViewKept(table.entries[k]);
    }
    assert JsonFromTable(RereadRoot(table)).fields == JsonFromTable(table).fields;
    assert JsonFromTable(Reread(table)).fields == JsonFromTable(table).fields;
  }

  lemma {:induction false} ItemViewKept(item: Item)
    requires ItemAllShow(item)
    ensures JsonFromItem(RereadItem(item)) == JsonFromItem(item)
    decreases item, 1
  {
    match item
    case Plain(_) =>
    case Nested(table) => ViewKept(table);
    case Tables(tables) =>
      forall i | 0 <= i < |tables| ensures JsonFromTable(RereadItem(item).tables[i]) == JsonFromTable(tables[i]) {
        ViewKept(tables[i]);
        assert RereadItem(item).tables[i] == RereadRoot(tables[i]);
      }
      assert JsonFromItem(RereadItem(item)).items == JsonFromItem(item).items;
  }

  /** What has been read again is such a document. */
  lemma {:induction false} RereadShows(table: Table)
    ensures AllShow(RereadRoot(table)) && AllShow(Reread(table)) && (Shows(table) ==> Shows(Reread(table)))
    decreases table, 0
  {
    var again := Reread(table);
    EntriesAre(table);
    forall k | k in again.entries ensures ItemShows(again.entries[k]) && ItemAllShow(again.entries[k]) {
      ItemRereadShows(table.entries[k]);
    }
    if Shows(table) && !table.kind.Headed? {
      var k :| k in table.entries && ItemShows(table.entries[k]);
      assert k in again.entries && ItemShows(again.entries[k]);
    }
  }

  lemma {:induction false} ItemRereadShows(item: Item)
    requires ItemShows(item)
    ensures ItemShows(RereadItem(item)) && ItemAllShow(RereadItem(item))
    decreases item, 1
  {
    match item
    case Plain(_) =>
    case Nested(table) => RereadShows(table);
    case Tables(tables) =>
      forall i | 0 <= i < |tables| ensures AllShow(RereadItem(item).tables[i]) {
        RereadShows(tables[i]);
        assert RereadItem(item).tables[i] == RereadRoot(tables[i]);
      }
  }

  // ---- Setting loses nothing ----

  lemma {:induction false} FromJsonShows(value: Json)
    requires ItemFromJson(value).Some?
    ensures ItemShows(ItemFromJson(value).value) && ItemAllShow(ItemFromJson(value).value)
    decreases value
  {
    if value.Object? {
      var table := ItemFromJson(value).value.table;
      forall k | k in table.entries ensures ItemShows(table.entries[k]) && ItemAllShow(table.entries[k]) {
        FromJsonShows(value.fields[k]);
      }
    }
  }

  lemma EntrySet(table: Table, key: string, item: Item)
    requires AllShow(table) && ItemShows(item) && ItemAllShow(item)
    ensures AllShow(table.(entries := table.entries[key := item]))
    ensures Shows(table.(entries := table.entries[key := item]))
  {
    var after := table.(entries := table.entries[key := item]);
    assert key in after.entries && ItemShows(after.entries[key]);
  }

  /** Everything in an edited document shows, the tables made on the way included. */
  lemma {:induction false} SetShows(node: Node, path: seq<string>, value: Json)
    requires |path| > 0 && NodeAllShow(node) && SetAt(node, path, value).Success?
    ensures var after := SetAt(node, path, value).value.0;
            NodeAllShow(after) && (after.InTable? ==> Shows(after.table))
                && (node.InTables? ==> after.InTables? && |after.tables| == |node.tables|)
    decreases |path|
  {
    if |path| == 1 {
      if node.InTable? {
        var item := NewItem(node.table, path[0], value).value;
        if item.Nested? {
          FromJsonShows(value);
        } else if ItemFromJson(value).Some? {
          FromJsonShows(value);
        }
        EntrySet(node.table, path[0], item);
      }
    } else {
      match node
      case InTable(table) =>
        var child := if path[0] in table.entries then NodeOf(table.entries[path[0]])
          else InTable(Table(Implied, map[]));
        ChildShows(table, path[0]);
        SetShows(child, path[1..], value);
        SetKeepsKind(child, path[1..], value);
        EntrySet(table, path[0], ItemOf(SetAt(child, path[1..], value).value.0));
      case InTables(tables) =>
        var i := ParseIndex(path[0], |tables|).value;
        SetShows(InTable(tables[i]), path[1..], value);
      case InValue(_) =>
    }
  }

  // ---- Unsetting may take parents along ----

  /** The table is without a header, and what the path removes is all that is in it. */
  predicate Vanishes(table: Table, path: seq<string>)
    requires |path| > 0
    decreases |path|
  {
    && !table.kind.Headed? && table.entries.Keys == {path[0]}
    && (|path| == 1 || (table.entries[path[0]].Nested? && Vanishes(table.entries[path[0]].table, path[1..])))
  }

  /** The pointer that is really gone from the file: that of the outermost table that
      goes with the field. */
  function Cut(node: Node, path: seq<string>): (r: seq<string>)
    requires |path| > 0
    ensures |r| > 0 && r <= path
    decreases |path|
  {
    if |path| == 1 then path else
      match node
      case InTable(table) =>
        if path[0] !in table.entries then path
        else if table.entries[path[0]].Nested? && Vanishes(table.entries[path[0]].table, path[1..]) then path[..1]
        else path[..1] + Cut(NodeOf(table.entries[path[0]]), path[1..])
      case InTables(tables) =>
        var index := ParseIndex(path[0], |tables|);
        if index.Success? then path[..1] + Cut(InTable(tables[index.value]), path[1..]) else path
      case InValue(_) => path
  }

  lemma OtherEntries(table: Table, key: string, entries: map<string, Item>)
    requires AllShow(table) && key in table.entries && entries - {key} == table.entries - {key}
    ensures forall k | k in table.entries && k != key ::
            k in entries && ItemShows(entries[k]) && ItemAllShow(entries[k])
    ensures forall k | k in entries && k != key :: k in table.entries && entries[k] == table.entries[k]
  {
    forall k | k in table.entries && k != key ensures k in entries && entries[k] == table.entries[k] {
      assert k in table.entries - {key};
      assert (entries - {key})[k] == (table.entries - {key})[k];
    }
    forall k | k in entries && k != key ensures k in table.entries && entries[k] == table.entries[k] {
      assert k in entries - {key};
      assert (entries - {key})[k] == (table.entries - {key})[k];
    }
  }

  /** A table is left standing exactly when it does not vanish. */
  lemma {:induction false} ShowsAfterUnset(table: Table, path: seq<string>)
    requires |path| > 0 && AllShow(table) && UnsetAt(InTable(table), path).Success?
    ensures UnsetAt(InTable(table), path).value.0.InTable?
    ensures Shows(UnsetAt(InTable(table), path).value.0.table) <==> !Vanishes(table, path)
    decreases |path|, 1
  {
    var key := path[0];
    var after := UnsetAt(InTable(table), path).value.0.table;
    assert after.kind == table.kind && after.entries - {key} == table.entries - {key};
    OtherEntries(table, key, after.entries);
    if other :| other in table.entries && other != key {
      assert other in after.entries && ItemShows(after.entries[other]);
    } else {
      assert table.entries.Keys == {key};
      if |path| > 1 {
        ChildShows(table, key);
        LastChildShows(table, path);
      }
    }
  }

  lemma LastChildShows(table: Table, path: seq<string>)
    requires |path| > 1 && AllShow(table) && table.entries.Keys == {path[0]} && UnsetAt(InTable(table), path).Success?
    ensures var after := UnsetAt(InTable(table), path).value.0.table;
            Shows(after) <==>
              table.kind.Headed?
              || !(table.entries[path[0]].Nested? && Vanishes(table.entries[path[0]].table, path[1..]))
    decreases |path|, 0
  {
    var key := path[0];
    var after := UnsetAt(InTable(table), path).value.0.table;
    ItemAfterUnset(table.entries[key], path[1..]);
    ChildShows(table, key);
    assert after.entries.Keys == {key};
    assert after.entries[key] == ItemOf(UnsetAt(NodeOf(table.entries[key]), path[1..]).value.0);
  }

  /** An item below which something was removed. */
  lemma ItemAfterUnset(item: Item, path: seq<string>)
    requires |path| > 0 && ItemShows(item) && ItemAllShow(item) && UnsetAt(NodeOf(item), path).Success?
    ensures ItemShows(ItemOf(UnsetAt(NodeOf(item), path).value.0)) <==> !(item.Nested? && Vanishes(item.table, path))
    decreases |path|, 2
  {
    match item
    case Plain(_) => UnsetKeepsKind(NodeOf(item), path);
    case Nested(table) => ShowsAfterUnset(table, path);
    case Tables(_) =>
  }

  lemma RereadViews(node: Node)
    ensures JsonFromItem(RereadItem(ItemOf(node))) == JsonFromNode(RereadNode(node))
  {
  }

  /** One entry replaced in a table in which everything shows. */
  lemma RereadUpdate(table: Table, key: string, item: Item)
    requires AllShow(table)
    ensures var after, fields := table.(entries := table.entries[key := item]), JsonFromTable(table).fields;
            JsonFromTable(Reread(after)) ==
              Object(if ItemShows(item) then fields[key := JsonFromItem(RereadItem(item))] else fields - {key})
  {
    var after := table.(entries := table.entries[key := item]);
    var fields := JsonFromTable(table).fields;
    OthersKept(table, key, after);
    if ItemShows(item) {
      assert JsonFromTable(Reread(after)).fields.Keys == fields[key := JsonFromItem(RereadItem(item))].Keys;
      assert JsonFromTable(Reread(after)).fields == fields[key := JsonFromItem(RereadItem(item))];
    } else {
      assert JsonFromTable(Reread(after)).fields.Keys == (fields - {key}).Keys;
      assert JsonFromTable(Reread(after)).fields == fields - {key};
    }
  }

  lemma OthersKept(table: Table, key: string, after: Table)
    requires AllShow(table) && key in after.entries && after.entries - {key} == table.entries - {key}
    ensures var view := JsonFromTable(Reread(after)).fields;
            && (forall k :: k in view && k != key <==> k in table.entries && k != key)
            && (forall k | k in table.entries && k != key :: view[k] == JsonFromItem(table.entries[k]))
            && (key in view <==> ItemShows(after.entries[key]))
            && (key in view ==> view[key] == JsonFromItem(RereadItem(after.entries[key])))
  {
    EntriesAre(after);
    forall k | k != key ensures k in after.entries <==> k in table.entries {
      assert k in after.entries - {key} <==> k in table.entries - {key};
    }
    forall k | k in table.entries && k != key
      ensures k in after.entries && after.entries[k] == table.entries[k]
      ensures JsonFromItem(RereadItem(after.entries[k])) == JsonFromItem(table.entries[k])
    {
      assert (after.entries - {key})[k] == (table.entries - {key})[k];
      ItemViewKept(table.entries[k]);
    }
  }

  lemma RereadRemoval(table: Table, key: string)
    requires AllShow(table)
    ensures JsonFromTable(Reread(table.(entries := table.entries - {key}))) ==
            Object(JsonFromTable(table).fields - {key})
  {
    var after := table.(entries := table.entries - {key});
    ViewKept(after);
    assert JsonFromTable(after).fields == JsonFromTable(table).fields - {key};
  }

  ghost predicate Pruned(node: Node, path: seq<string>)
    requires |path| > 0 && UnsetAt(node, path).Success?
  {
    Some(JsonFromNode(RereadNode(UnsetAt(node, path).value.0))) == Unset(JsonFromNode(node), Cut(node, path))
  }

  /** What an unset leaves in the file: the view without the field, and without every
      table that only stood for it. */
  lemma {:induction false} UnsetPrunes(node: Node, path: seq<string>)
    requires |path| > 0 && NodeAllShow(node) && UnsetAt(node, path).Success? && !LooseIndex(node, path)
    ensures Pruned(node, path)
    decreases |path|
  {
    if |path| == 1 {
      assert path == [path[0]];
      if node.InTable? {
        RereadRemoval(node.table, path[0]);
      } else {
        UnsetCommutes(node, path);
      }
    } else {
      match node
      case InTable(table) =>
        ChildShows(table, path[0]);
        UnsetPrunes(NodeOf(table.entries[path[0]]), path[1..]);
        PrunedInTable(table, path);
      case InTables(tables) =>
        CanonicalIndex(path[0]);
        var i := ParseIndex(path[0], |tables|).value;
        assert AllShow(tables[i]);
        UnsetPrunes(InTable(tables[i]), path[1..]);
        PrunedInTables(tables, path, i);
      case InValue(_) => UnsetCommutes(node, path);
    }
  }

  lemma UnsetBelow(fields: map<string, Json>, key: string, rest: seq<string>)
    requires |rest| > 0 && key in fields
    ensures Unset(Object(fields), [key] + rest) ==
            match Unset(fields[key], rest)
            case None => None
            case Some(below) => Some(Object(fields[key := below]))
    ensures Unset(Object(fields), [key]) == Some(Object(fields - {key}))
  {
    var path := [key] + rest;
    assert path[1..] == rest;
    UnsetInObject(fields, path);
  }

  lemma PrunedInTable(table: Table, path: seq<string>)
    requires |path| > 1 && AllShow(table) && UnsetAt(InTable(table), path).Success?
    requires Pruned(NodeOf(table.entries[path[0]]), path[1..])
    ensures Pruned(InTable(table), path)
  {
    var key, item := path[0], table.entries[path[0]];
    var below := UnsetAt(NodeOf(item), path[1..]).value.0;
    var fields := JsonFromTable(table).fields;
    ChildShows(table, key);
    ItemAfterUnset(item, path[1..]);
    RereadUpdate(table, key, ItemOf(below));
    RereadViews(below);
    SameView(item, below);
    assert path[..1] == [key];
    UnsetBelow(fields, key, Cut(NodeOf(item), path[1..]));
  }

  lemma PrunedInTables(tables: seq<Table>, path: seq<string>, i: nat)
    requires |path| > 1 && ReadIndex(path[0]) == PointerIndex(path[0]) && ParseIndex(path[0], |tables|) == Success(i)
    requires i < |tables| && UnsetAt(InTables(tables), path).Success? && NodeAllShow(InTables(tables))
    requires Pruned(InTable(tables[i]), path[1..])
    ensures Pruned(InTables(tables), path)
  {
    var below := UnsetAt(InTable(tables[i]), path[1..]).value.0;
    UnsetKeepsKind(InTable(tables[i]), path[1..]);
    var cut := Cut(InTable(tables[i]), path[1..]);
    assert path[..1] == [path[0]] && ([path[0]] + cut)[1..] == cut;
    UnsetInArray(JsonFromItem(Tables(tables)).items, [path[0]] + cut);
    RereadTablesUpdate(tables, i, below.table);
  }

  lemma RereadTablesUpdate(tables: seq<Table>, i: nat, table: Table)
    requires i < |tables| && NodeAllShow(InTables(tables))
    ensures JsonFromNode(RereadNode(InTables(tables[i := table]))) ==
            Array(JsonFromItem(Tables(tables)).items[i := JsonFromTable(Reread(table))])
  {
    var after := tables[i := table];
    forall j | 0 <= j < |tables| && j != i ensures JsonFromTable(RereadRoot(after[j])) == JsonFromTable(tables[j]) {
      assert AllShow(tables[j]);
      ViewKept(tables[j]);
    }
    assert JsonFromTable(RereadRoot(table)) == JsonFromTable(Reread(table)) by {
      SameEntries(table);
    }
    assert JsonFromNode(RereadNode(InTables(after))).items ==
           JsonFromItem(Tables(tables)).items[i := JsonFromTable(Reread(table))];
  }

  lemma SameEntries(table: Table)
    ensures JsonFromTable(RereadRoot(table)) == JsonFromTable(Reread(table))
  {
    assert JsonFromTable(RereadRoot(table)).fields == JsonFromTable(Reread(table)).fields;
  }

  // ---- Setting, then unsetting ----

  /** How many leading segments of the path are there. */
  function Existing(v: Json, path: seq<string>): (n: nat)
    ensures n <= |path| && (Get(v, path).None? ==> n < |path|)
    decreases |path|
  {
    if |path| == 0 then 0 else
      match Below(v, path[0])
      case None => 0
      case Some(child) => 1 + Existing(child, path[1..])
  }

  /** The first parent the path misses would be made in a standard table. */
  predicate CreatesTables(node: Node, path: seq<string>)
    requires |path| > 0
    decreases |path|
  {
    |path| > 1 &&
      match node
      case InTable(table) => path[0] in table.entries ==> CreatesTables(NodeOf(table.entries[path[0]]), path[1..])
      case InTables(tables) =>
        var index := ParseIndex(path[0], |tables|);
        index.Success? && CreatesTables(InTable(tables[index.value]), path[1..])
      case InValue(_) => false
  }

  lemma GetBelow(table: Table, path: seq<string>)
    requires |path| > 1 && path[0] in table.entries
    ensures Get(JsonFromTable(table), path) == Get(JsonFromNode(NodeOf(table.entries[path[0]])), path[1..])
  {
    SameView(table.entries[path[0]], InTable(table));
    UnsetInObject(JsonFromTable(table).fields, path);
  }

  lemma SiblingStays(table: Table, path: seq<string>, value: Json, key: string)
    requires |path| > 0 && SetAt(InTable(table), path, value).Success?
    requires key in table.entries && ItemShows(table.entries[key]) && key != path[0]
    ensures SetAt(InTable(table), path, value).value.0.InTable?
    ensures key in Reread(SetAt(InTable(table), path, value).value.0.table).entries
  {
    var after := SetAt(InTable(table), path, value).value.0;
    assert after.InTable? && key in after.table.entries && after.table.entries[key] == table.entries[key];
    EntriesAre(after.table);
  }

  /** A table that was there before holds something else, and stays. */
  lemma {:induction false} ExistingStays(table: Table, path: seq<string>, value: Json)
    requires |path| > 0 && AllShow(table) && Shows(table)
    requires Get(JsonFromTable(table), path).None? && SetAt(InTable(table), path, value).Success?
    ensures SetAt(InTable(table), path, value).value.0.InTable?
    ensures !Vanishes(Reread(SetAt(InTable(table), path, value).value.0.table), path)
    decreases |path|
  {
    var key := path[0];
    SetShows(InTable(table), path, value);
    SetKeepsKind(InTable(table), path, value);
    if !table.kind.Headed? {
      var k :| k in table.entries && ItemShows(table.entries[k]);
      if k != key {
        SiblingStays(table, path, value, k);
      } else if |path| > 1 {
        GetBelow(table, path);
        ChildShows(table, key);
        if table.entries[key].Nested? {
          ExistingStays(table.entries[key].table, path[1..], value);
        }
        ChildReread(table, path, value);
      }
    }
  }

  /** What the entry on the way has become in the written document. */
  lemma ChildReread(table: Table, path: seq<string>, value: Json)
    requires |path| > 1 && AllShow(table) && path[0] in table.entries && SetAt(InTable(table), path, value).Success?
    ensures SetAt(InTable(table), path, value).value.0.InTable?
    ensures var child, after := NodeOf(table.entries[path[0]]), SetAt(InTable(table), path, value).value.0.table;
            var below := SetAt(child, path[1..], value).value.0;
            && path[0] in Reread(after).entries && Reread(after).entries[path[0]] == RereadItem(ItemOf(below))
            && NodeOf(RereadItem(ItemOf(below))) == RereadNode(below)
            && (child.InTable? <==> below.InTable?)
  {
    ChildShows(table, path[0]);
    var child := NodeOf(table.entries[path[0]]);
    SetShows(child, path[1..], value);
    SetKeepsKind(child, path[1..], value);
    EntriesAre(SetAt(InTable(table), path, value).value.0.table);
  }

  /** Tables made on the way go with the field exactly when the field is a table too:
      a value makes its table get a header when the file is written. */
  lemma {:induction false} CreatedVanishes(path: seq<string>, value: Json)
    requires |path| > 0 && SetAt(InTable(Table(Implied, map[])), path, value).Success?
    ensures var after := SetAt(InTable(Table(Implied, map[])), path, value).value.0;
            && after.InTable? && after.table.kind == Implied && after.table.entries.Keys == {path[0]}
            && Shows(after.table)
            && (Vanishes(Reread(after.table), path) <==> value.Object?)
            && (!value.Object? ==> Cut(InTable(Reread(after.table)), path) == path)
    decreases |path|
  {
    var fresh_ := Table(Implied, map[]);
    var key := path[0];
    var after := SetAt(InTable(fresh_), path, value).value.0.table;
    ChildShows(fresh_, key);
    SetShows(InTable(fresh_), path, value);
    EntriesAre(after);
    if |path| == 1 {
      FromJsonShows(value);
      assert after.entries[key] == ItemFromJson(value).value;
    } else {
      CreatedVanishes(path[1..], value);
      var below := SetAt(InTable(fresh_), path[1..], value).value.0.table;
      assert after.entries[key] == Nested(below);
      assert !HasValues(after);
      assert Reread(after).entries[key] == Nested(Reread(below));
      assert path == path[..1] + path[1..];
    }
  }

  lemma CutIgnoresKind(a: Table, b: Table, path: seq<string>)
    requires |path| > 0 && a.entries == b.entries
    ensures Cut(InTable(a), path) == Cut(InTable(b), path)
  {
  }

  /** What the unset of a field just set takes along. */
  lemma {:induction false} CutAfterSet(node: Node, path: seq<string>, value: Json)
    requires |path| > 0 && NodeAllShow(node) && !LooseIndex(node, path)
    requires Get(JsonFromNode(node), path).None? && SetAt(node, path, value).Success?
    ensures Cut(RereadNode(SetAt(node, path, value).value.0), path) == ExpectedCut(node, path, value)
    decreases |path|
  {
    if |path| > 1 {
      match node
      case InTable(table) => CutInTable(table, path, value);
      case InTables(tables) => CutInTables(tables, path, value);
      case InValue(_) => SetKeepsKind(node, path, value);
    }
  }

  function ExpectedCut(node: Node, path: seq<string>, value: Json): seq<string>
    requires |path| > 0 && Get(JsonFromNode(node), path).None?
  {
    if CreatesTables(node, path) && value.Object? then path[..Existing(JsonFromNode(node), path) + 1] else path
  }

  lemma CutInTable(table: Table, path: seq<string>, value: Json)
    requires |path| > 1 && AllShow(table) && !LooseIndex(InTable(table), path)
    requires Get(JsonFromTable(table), path).None? && SetAt(InTable(table), path, value).Success?
    ensures Cut(RereadNode(SetAt(InTable(table), path, value).value.0), path) ==
            ExpectedCut(InTable(table), path, value)
    decreases |path|, 0
  {
    var key := path[0];
    ChildShows(table, key);
    SetShows(InTable(table), path, value);
    var after := SetAt(InTable(table), path, value).value.0.table;
    EntriesAre(after);
    if key in table.entries {
      GetBelow(table, path);
      var child := NodeOf(table.entries[key]);
      CutAfterSet(child, path[1..], value);
      ChildReread(table, path, value);
      if child.InTable? {
        ExistingStays(child.table, path[1..], value);
      }
      CutThere(table, path, value);
    } else {
      CreatedVanishes(path[1..], value);
      assert path == path[..1] + path[1..];
    }
  }

  lemma CutThere(table: Table, path: seq<string>, value: Json)
    requires |path| > 1 && path[0] in table.entries && Get(JsonFromTable(table), path).None?
    requires Get(JsonFromNode(NodeOf(table.entries[path[0]])), path[1..]).None?
    ensures ExpectedCut(InTable(table), path, value) ==
            path[..1] + ExpectedCut(NodeOf(table.entries[path[0]]), path[1..], value)
  {
    SameView(table.entries[path[0]], InTable(table));
    var n := Existing(JsonFromNode(NodeOf(table.entries[path[0]])), path[1..]);
    assert Existing(JsonFromTable(table), path) == 1 + n;
    assert path[..n + 2] == path[..1] + path[1..][..n + 1];
    assert path == path[..1] + path[1..];
  }

  lemma CutInTables(tables: seq<Table>, path: seq<string>, value: Json)
    requires |path| > 1 && NodeAllShow(InTables(tables)) && !LooseIndex(InTables(tables), path)
    requires Get(JsonFromNode(InTables(tables)), path).None? && SetAt(InTables(tables), path, value).Success?
    ensures Cut(RereadNode(SetAt(InTables(tables), path, value).value.0), path) ==
            ExpectedCut(InTables(tables), path, value)
    decreases |path|, 0
  {
    CanonicalIndex(path[0]);
    var i := ParseIndex(path[0], |tables|).value;
    var child := InTable(tables[i]);
    assert AllShow(tables[i]);
    UnsetInArray(JsonFromItem(Tables(tables)).items, path);
    CutAfterSet(child, path[1..], value);
    SetKeepsKind(child, path[1..], value);
    var below := SetAt(child, path[1..], value).value.0.table;
    CutIgnoresKind(Reread(below), RereadRoot(below), path[1..]);
    var n := Existing(JsonFromTable(tables[i]), path[1..]);
    assert Existing(JsonFromNode(InTables(tables)), path) == 1 + n;
    assert path[..n + 2] == path[..1] + path[1..][..n + 1];
    assert path == path[..1] + path[1..];
  }

  /** Removing the first thing a set had to add puts the view back. */
  lemma {:induction false} UnsetFirstMissing(v: Json, path: seq<string>, value: Json)
    requires |path| > 0 && Get(v, path).None? && Set(v, path, value).Some?
    ensures Unset(Set(v, path, value).value, path[..Existing(v, path) + 1]) == Some(v)
    decreases |path|
  {
    var child := if Below(v, path[0]).Some? then Below(v, path[0]).value else EMPTY;
    var below := Set(child, path[1..], value).value;
    BelowWith(v, path[0], below);
    if Below(v, path[0]).None? {
      assert path[..1] == [path[0]];
      assert v.fields[path[0] := below] - {path[0]} == v.fields;
    } else {
      var cut := path[..Existing(v, path) + 1];
      UnsetFirstMissing(child, path[1..], value);
      assert cut[1..] == path[1..][..Existing(child, path[1..]) + 1];
      WithTwice(v, path[0], below, child);
    }
  }

  /** Whether setting a field that was absent and unsetting it again, with the file
      written and read in between, leaves the document's view as it was: exactly when
      the field's parent was there, or the field is a table and the first parent made
      for it was a standard table, since those go with it. */
  lemma UndoneExactly(table: Table, path: seq<string>, value: Json)
    requires |path| > 0 && AllShow(table) && !LooseIndex(InTable(table), path)
    requires Get(JsonFromTable(table), path).None? && SetAt(InTable(table), path, value).Success?
    ensures SetAt(InTable(table), path, value).value.0.InTable?
    ensures var set_ := RereadRoot(SetAt(InTable(table), path, value).value.0.table);
            var unset := UnsetAt(InTable(set_), path);
            && unset.Success? && unset.value.0.InTable?
            && (JsonFromTable(RereadRoot(unset.value.0.table)) == JsonFromTable(table) <==>
                  Get(JsonFromTable(table), path[..|path| - 1]).Some?
                      || (value.Object? && CreatesTables(InTable(table), path)))
  {
    var view := JsonFromTable(table);
    SetReread(table, path, value);
    var after := SetAt(InTable(table), path, value).value.0.table;
    var set_ := RereadRoot(after);
    UnsetUndoesExactly(view, path, value);
    UnsetCommutes(InTable(set_), path);
    UnsetKeepsKind(InTable(set_), path);
    UnsetPrunes(InTable(set_), path);
    CutAfterSet(InTable(table), path, value);
    CutIgnoresKind(set_, Reread(after), path);
    SameEntries(UnsetAt(InTable(set_), path).value.0.table);
    UnsetFirstMissing(view, path, value);
  }

  /** The written document shows everything, has the updated view, and no array on the
      way to the field that was set is indexed loosely in it. */
  lemma SetReread(table: Table, path: seq<string>, value: Json)
    requires |path| > 0 && AllShow(table) && !LooseIndex(InTable(table), path)
    requires SetAt(InTable(table), path, value).Success?
    ensures SetAt(InTable(table), path, value).value.0.InTable?
    ensures var set_ := RereadRoot(SetAt(InTable(table), path, value).value.0.table);
            && AllShow(set_) && !LooseIndex(InTable(set_), path)
            && Some(JsonFromTable(set_)) == Set(JsonFromTable(table), path, value)
  {
    SetCommutes(InTable(table), path, value);
    SetKeepsKind(InTable(table), path, value);
    SetShows(InTable(table), path, value);
    var after := SetAt(InTable(table), path, value).value.0.table;
    ViewKept(after);
    RereadShows(after);
    SetThenGet(JsonFromTable(table), path, value);
    if LooseIndex(InTable(RereadRoot(after)), path) {
      LooseNamesNothing(InTable(RereadRoot(after)), path, value);
    }
  }
}
