/** The shapes a TOML document takes, without comments, order or decor, and the JSON
    view of each. */
module Toml {
  import opened Prelude
  import opened Json
  import EditEngine

  datatype Value =
    | TString(text: string)
    | TInteger(integer: int)
    | TBoolean(flag: bool)
    | TDatetime(stamp: string)
    | TArray(items: seq<Value>)
    | TInline(entries: map<string, Value>)

  /** How a standard table comes to be: by a header of its own, by the headers of
      tables below it, or by dotted keys. */
  datatype Kind = Headed | Implied | Dotted

  /** A standard table, and what a key of one holds: a value, a nested table, or an
      array of tables. */
  datatype Table = Table(kind: Kind, entries: map<string, Item>)

  datatype Item = Plain(value: Value) | Nested(table: Table) | Tables(tables: seq<Table>)

  function JsonFromValue(v: Value): Json
    decreases v
  {
    match v
    case TString(text) => String(text)
    case TInteger(integer) => Number(integer)
    case TBoolean(flag) => Bool(flag)
    case TDatetime(stamp) => String(stamp)
    case TArray(items) => Array(seq(|items|, i requires 0 <= i < |items| => JsonFromValue(items[i])))
    case TInline(entries) => Object(map k | k in entries :: JsonFromValue(entries[k]))
  }

  function JsonFromItem(item: Item): Json
    decreases item
  {
    match item
    case Plain(value) => JsonFromValue(value)
    case Nested(table) => JsonFromTable(table)
    case Tables(tables) => Array(seq(|tables|, i requires 0 <= i < |tables| => JsonFromTable(tables[i])))
  }

  function JsonFromTable(table: Table): Json
    decreases table
  {
    Object(map k | k in table.entries :: JsonFromItem(table.entries[k]))
  }

  /** TOML has no null: a value with one anywhere is refused. */
  function ValueFromJson(v: Json): Option<Value>
    decreases v
  {
    match v
    case Null => None
    case Bool(flag) => Some(TBoolean(flag))
    case Number(number) => Some(TInteger(number))
    case String(text) => Some(TString(text))
    case Array(items) =>
      if forall i | 0 <= i < |items| :: ValueFromJson(items[i]).Some? then
        Some(TArray(seq(|items|, i requires 0 <= i < |items|
                        && ValueFromJson(items[i]).Some? => ValueFromJson(items[i]).value)))
      else None
    case Object(fields) =>
      if forall k | k in fields :: ValueFromJson(fields[k]).Some? then
        Some(TInline(map k | k in fields :: ValueFromJson(fields[k]).value))
      else None
  }

  /** Objects become standard tables with headers, the shape entry files use for nested
      fields. */
  function ItemFromJson(v: Json): Option<Item>
    decreases v
  {
    if v.Object? then
      if forall k | k in v.fields :: ItemFromJson(v.fields[k]).Some? then
        Some(Nested(Table(Headed, map k | k in v.fields :: ItemFromJson(v.fields[k]).value)))
      else None
    else
      match ValueFromJson(v)
      case None => None
      case Some(value) => Some(Plain(value))
  }

  /** Converting to TOML loses nothing, and fails exactly on a null somewhere. */
  lemma {:induction false} ValueFromJsonExact(v: Json)
    ensures ValueFromJson(v).Some? <==> EditEngine.Representable(v)
    ensures ValueFromJson(v).Some? ==> JsonFromValue(ValueFromJson(v).value) == v
    decreases v
  {
    match v
    case Array(items) =>
      forall i | 0 <= i < |items|
        ensures ValueFromJson(items[i]).Some? <==> EditEngine.Representable(items[i])
        ensures ValueFromJson(items[i]).Some? ==> JsonFromValue(ValueFromJson(items[i]).value) == items[i]
      {
        ValueFromJsonExact(items[i]);
      }
      assert EditEngine.Representable(v) <==> forall i | 0 <= i < |items| :: EditEngine.Representable(items[i]);
      if ValueFromJson(v).Some? {
        assert JsonFromValue(ValueFromJson(v).value).items == items;
      }
    case Object(fields) =>
      forall k | k in fields
        ensures ValueFromJson(fields[k]).Some? <==> EditEngine.Representable(fields[k])
        ensures ValueFromJson(fields[k]).Some? ==> JsonFromValue(ValueFromJson(fields[k]).value) == fields[k]
      {
        ValueFromJsonExact(fields[k]);
      }
      if ValueFromJson(v).Some? {
        assert JsonFromValue(ValueFromJson(v).value).fields == fields;
      }
    case _ =>
  }

  lemma {:induction false} ItemFromJsonExact(v: Json)
    ensures ItemFromJson(v).Some? <==> EditEngine.Representable(v)
    ensures ItemFromJson(v).Some? ==> JsonFromItem(ItemFromJson(v).value) == v
    decreases v
  {
    if v.Object? {
      forall k | k in v.fields
        ensures ItemFromJson(v.fields[k]).Some? <==> EditEngine.Representable(v.fields[k])
        ensures ItemFromJson(v.fields[k]).Some? ==> JsonFromItem(ItemFromJson(v.fields[k]).value) == v.fields[k]
      {
        ItemFromJsonExact(v.fields[k]);
      }
      if ItemFromJson(v).Some? {
        var item := ItemFromJson(v).value;
        assert JsonFromItem(item) == JsonFromTable(item.table);
        assert JsonFromTable(item.table).fields == v.fields;
      }
    } else {
      ValueFromJsonExact(v);
    }
  }
}
