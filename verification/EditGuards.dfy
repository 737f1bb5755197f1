/** What the engine refuses, and what an operation that goes through leaves: the
    conditions of creation, replacement and deletion, on the addresses they act on. */
module EditGuards {
  import opened Prelude
  import opened Json
  import opened Overlay
  import opened Paths
  import opened EditEngine
  import opened EditUndo
  import Addressing
  import EditRuns
  import Order
  import Text

  // ---- Ownership ----

  /** What an operation touches is neither inherited nor owned by something inherited. */
  predicate Local(op: Operation, inherited: set<string>)
    requires IsCreate(op)
  {
    && CreatedAddress(op) !in inherited
    && (op.CreateEntry? ==> "catalog=" + op.catalog !in inherited)
    && (op.CreateSample? ==> "evaluation-context=" + op.context !in inherited)
  }

  lemma {:induction false} InheritedExact(addresses: seq<string>, inherited: set<string>)
    ensures FirstInherited(addresses, inherited).None? <==> forall a | a in addresses :: a !in inherited
  {
    if |addresses| > 0 {
      InheritedExact(addresses[1..], inherited);
      assert addresses == [addresses[0]] + addresses[1..];
    }
  }

  lemma LocalExact(op: Operation, inherited: set<string>)
    requires IsCreate(op)
    ensures FirstInherited(OwnedAddresses(op), inherited).None? <==> Local(op, inherited)
  {
    InheritedExact(OwnedAddresses(op), inherited);
    if op.CreateEntry? {
      assert OwnedAddresses(op) == ["catalog=" + op.catalog, CreatedAddress(op)];
      assert OwnedAddresses(op)[0] in OwnedAddresses(op) && OwnedAddresses(op)[1] in OwnedAddresses(op);
    } else if op.CreateSample? {
      assert OwnedAddresses(op) == ["evaluation-context=" + op.context, CreatedAddress(op)];
      assert OwnedAddresses(op)[0] in OwnedAddresses(op) && OwnedAddresses(op)[1] in OwnedAddresses(op);
    } else {
      assert OwnedAddresses(op) == [CreatedAddress(op)];
    }
  }

  // ---- Creation ----

  /** What a creation says of the new entity is in order. */
  predicate WellSaid(op: Operation)
    requires IsCreate(op)
  {
    match op
    case CreateVariable(_, variableType, _, default) =>
      (exists c :: c in variableType && !Text.IsWhite(c)) && Representable(default)
    case CreateCatalog(_, schema) => schema.Object?
    case CreateEntry(_, _, fields) => fields.Object? && Representable(fields)
    case CreateList(_, memberType, members, _) =>
      && (exists c :: c in memberType && !Text.IsWhite(c)) && |members| > 0
      && (forall i | 0 <= i < |members| :: members[i].Bool? || members[i].Number? || members[i].String?)
      && forall i, j | 0 <= i < j < |members| :: members[i] != members[j]
    case CreateContext(_, schema) => schema.Object?
    case CreateLayer(_, unit, buckets) => (exists c :: c in unit && !Text.IsWhite(c)) && buckets >= 1
    case CreateSample(_, _, content) => content.Object?
  }

  /** An entry needs its catalog, a sample its context. */
  predicate OwnerThere(op: Operation, files: Files)
    requires IsCreate(op)
  {
    && (op.CreateEntry? ==> CatalogSchemaPath(op.catalog) in files)
    && (op.CreateSample? ==> ContextSchemaPath(op.context) in files)
  }

  lemma MembersExact(members: seq<Json>)
    ensures (forall m | m in members :: IsMember(m)) <==>
            forall i | 0 <= i < |members| :: members[i].Bool? || members[i].Number? || members[i].String?
    ensures Repeats(members) <==> exists i, j :: 0 <= i < j < |members| && members[i] == members[j]
  {
    forall i | 0 <= i < |members| ensures members[i] in members {
    }
    forall i | 0 <= i < |members| && members[i] in members[..i]
      ensures exists k, j :: 0 <= k < j < |members| && members[k] == members[j]
    {
      var k :| 0 <= k < i && members[..i][k] == members[i];
      assert members[k] == members[i];
    }
    forall i, j | 0 <= i < j < |members| && members[i] == members[j] ensures Repeats(members) {
      assert members[..j][i] == members[j];
    }
  }

  /** A creation goes through exactly when its ids are valid, what it says is in order,
      its owner is there, its file is not, and nothing of it is inherited. */
  lemma CreationExact(codec: Codec, inherited: set<string>, files: Files, op: Operation)
    requires IsCreate(op)
    ensures Perform(codec, inherited, files, op).Success? <==>
            && Local(op, inherited) && IdsValid(op) && WellSaid(op) && OwnerThere(op, files)
            && CreatedPath(op) !in files
  {
    LocalExact(op, inherited);
    if op.CreateList? {
      MembersExact(op.members);
    }
  }

  function KindName(op: Operation): string
    requires IsCreate(op)
  {
    match op
    case CreateVariable(_, _, _, _) => "variable"
    case CreateCatalog(_, _) => "catalog"
    case CreateEntry(_, _, _) => "entry"
    case CreateList(_, _, _, _) => "list"
    case CreateContext(_, _) => "context"
    case CreateLayer(_, _, _) => "layer"
    case CreateSample(_, _, _) => "sample"
  }

  /** A new context starts with an empty default sample, unless one is there. */
  lemma StarterExact(codec: Codec, inherited: set<string>, files: Files, op: Operation)
    requires op.CreateContext? && Perform(codec, inherited, files, op).Success?
    ensures var (made, records) := Perform(codec, inherited, files, op).value;
            var sample := SamplePath(op.id, "default");
            if sample in files then |records| == 1 && made[sample] == files[sample]
            else
              && sample in made && made[sample] == codec.json(EMPTY) && |records| == 2
              && records[1] == Record("create_context", CreatedAddress(op) + ":sample=default", None, Some(EMPTY))
  {
    CreatedIsValid(codec, inherited, files, op);
    SampleIsNoSchema(op.id, "default");
  }

  lemma NameIsKind(op: Operation)
    requires IsCreate(op)
    ensures OperationName(op) == "create_" + KindName(op)
  {
  }

  /** It records what was given, and writes that: JSON as it is, anything else as the
      document made of it. */
  lemma CreationWrites(codec: Codec, inherited: set<string>, files: Files, op: Operation)
    requires IsCreate(op) && Perform(codec, inherited, files, op).Success?
    ensures var (made, records) := Perform(codec, inherited, files, op).value;
            && |records| > 0 && records[0].operation == "create_" + KindName(op)
            && records[0].address == CreatedAddress(op) && records[0].before.None?
            && CreatedPath(op) in made
            && match op
               case CreateCatalog(_, schema) =>
                 made[CreatedPath(op)] == codec.json(schema) && records[0].after == Some(schema)
               case CreateContext(_, schema) =>
                 made[CreatedPath(op)] == codec.json(schema) && records[0].after == Some(schema)
               case CreateSample(_, _, content) =>
                 made[CreatedPath(op)] == codec.json(content) && records[0].after == Some(content)
               case CreateEntry(_, _, fields) =>
                 made[CreatedPath(op)] == codec.document(op).0 && records[0].after == Some(fields)
               case _ => (made[CreatedPath(op)], records[0].after) == (codec.document(op).0, Some(codec.document(op).1))
  {
    NameIsKind(op);
    CreatedIsValid(codec, inherited, files, op);
    if op.CreateContext? {
      var ops := FilesMade(codec, inherited, files, op);
      SchemaKept(codec, files, op);
    }
  }

  lemma SchemaKept(codec: Codec, files: Files, op: Operation)
    requires op.CreateContext? && IdsValid(op) && Create(codec, files, op).Success?
    ensures CreatedPath(op) in Create(codec, files, op).value.0
    ensures Create(codec, files, op).value.0[CreatedPath(op)] == codec.json(op.schema)
  {
    SampleIsNoSchema(op.id, "default");
  }

  lemma SampleIsNoSchema(id: string, key: string)
    requires Addressing.IsEntityId(id)
    ensures SamplePath(id, key) != ContextSchemaPath(id)
  {
    assert SamplesDir(id) <= SamplePath(id, key);
    EditRuns.SchemaIsNoSample(id, id);
  }

  // ---- Replacement ----

  /** Replacing a sample changes the one file a creation of that sample would make, which
      has to be there, and records what it held. */
  lemma ReplacementExact(codec: Codec, inherited: set<string>, files: Files, context: string, key: string,
                         content: Json)
    ensures var sample := CreateSample(context, key, content);
            var r := Perform(codec, inherited, files, ReplaceSample(context, key, content));
            && (r.Success? <==>
                  && Local(sample, inherited) && IdsValid(sample) && content.Object? && CreatedPath(sample) in files)
            && (r.Success? ==>
                  && r.value.0 == files[CreatedPath(sample) := codec.json(content)]
                  && r.value.1 == [Record("replace_sample", CreatedAddress(sample),
                                          codec.readJson(files[CreatedPath(sample)]), Some(content))])
  {
    var sample := CreateSample(context, key, content);
    LocalExact(sample, inherited);
    assert OwnedAddresses(ReplaceSample(context, key, content)) == OwnedAddresses(sample);
  }

  // ---- Deletion ----

  /** The files that go with an entity: its own, and for a catalog or a context whatever
      lies below its directory. */
  function GoesWith(op: Operation, files: Files): set<string>
    requires IsCreate(op)
  {
    set p | p in files &&
      (|| p == CreatedPath(op)
       || (op.CreateCatalog? && CatalogDataDir(op.id) <= p)
       || (op.CreateContext? && SamplesDir(op.id) <= p))
  }

  /** Deleting the address of an entity goes through exactly when its file is there and
      nothing of it is inherited, and takes exactly the files that go with it. */
  lemma DeletionExact(codec: Codec, inherited: set<string>, files: Files, op: Operation)
    requires IsCreate(op) && IdsValid(op)
    ensures var r := Perform(codec, inherited, files, Delete(CreatedAddress(op)));
            && (r.Success? <==> Local(op, inherited) && CreatedPath(op) in files)
            && (r.Success? ==> r.value.0 == files - GoesWith(op, files))
  {
    LocalExact(op, inherited);
    CreatedAddressReads(op);
    OwnersAre(op);
    DeleteSteps(codec, inherited, files, CreatedAddress(op), Addressing.Address(StepsOf(op), None));
    DeletedFiles(codec, files, op);
  }

  lemma DeletedFiles(codec: Codec, files: Files, op: Operation)
    requires IsCreate(op) && IdsValid(op)
    ensures var r := DeleteAt(codec, files, Addressing.Address(StepsOf(op), None));
            && (r.Success? <==> CreatedPath(op) in files)
            && (r.Success? ==> r.value.0 == files - GoesWith(op, files))
  {
    var steps := StepsOf(op);
    assert forall s | s in steps :: s == steps[0] || s == steps[|steps| - 1];
    if CreatedPath(op) in files {
      if op.CreateCatalog? {
        CascadeTakes(files, CatalogSchemaPath(op.id), CatalogDataDir(op.id), GoesWith(op, files));
      } else if op.CreateContext? {
        CascadeTakes(files, ContextSchemaPath(op.id), SamplesDir(op.id), GoesWith(op, files));
      } else {
        assert GoesWith(op, files) == {CreatedPath(op)};
      }
    }
  }

  lemma CascadeTakes(files: Files, schema: string, dir: string, gone: set<string>)
    requires schema in files && gone == set p | p in files && (p == schema || dir <= p)
    ensures var rest := files - {schema}; rest - Under(rest, dir) == files - gone
  {
  }

  lemma KeyExact(path: string, dir: string, suffix: string, key: string)
    ensures KeyIn(path, dir, suffix) == Some(key) <==> path == dir + key + suffix
  {
    if KeyIn(path, dir, suffix) == Some(key) {
      assert path == path[..|dir|] + path[|dir|..|path| - |suffix|] + path[|path| - |suffix|..];
    }
    if path == dir + key + suffix {
      assert path[..|dir|] == dir && path[|dir|..|path| - |suffix|] == key && path[|path| - |suffix|..] == suffix;
    }
  }

  ghost predicate RecordsKey(files: Files, paths: seq<string>, dir: string, suffix: string, address: string,
                             read: string -> Option<Json>, r: Record, key: string)
  {
    var path := dir + key + suffix;
    path in paths && path in files && r == Record("delete", address + key, read(files[path]), None)
  }

  lemma {:induction false} CascadeListed(files: Files, paths: seq<string>, dir: string, suffix: string, address: string,
                                         read: string -> Option<Json>, r: Record)
    requires forall p | p in paths :: p in files
    ensures r in CascadeRecords(files, paths, dir, suffix, address, read) <==>
            exists key :: RecordsKey(files, paths, dir, suffix, address, read, r, key)
  {
    if |paths| > 0 {
      var n := |paths| - 1;
      var last, init := paths[n], paths[..n];
      assert paths == init + [last] && last in paths;
      CascadeListed(files, init, dir, suffix, address, read, r);
      var before := CascadeRecords(files, init, dir, suffix, address, read);
      forall key ensures RecordsKey(files, paths, dir, suffix, address, read, r, key) <==>
                         || RecordsKey(files, init, dir, suffix, address, read, r, key)
                         || (last == dir + key + suffix
                             && r == Record("delete", address + key, read(files[last]), None))
      {
      }
      LastRecord(files, last, dir, suffix, address, read, r);
    }
  }

  /** The record of one listed file. */
  lemma LastRecord(files: Files, path: string, dir: string, suffix: string, address: string,
                   read: string -> Option<Json>, r: Record)
    requires path in files
    ensures var key := KeyIn(path, dir, suffix);
            (key.Some? && r == Record("delete", address + key.value, read(files[path]), None)) <==>
            exists k :: path == dir + k + suffix && r == Record("delete", address + k, read(files[path]), None)
  {
    var key := KeyIn(path, dir, suffix);
    if key.Some? {
      KeyExact(path, dir, suffix, key.value);
    }
    forall k | path == dir + k + suffix ensures key == Some(k) {
      KeyExact(path, dir, suffix, k);
    }
  }

  /** Deleting a catalog records the catalog, then exactly the entry documents that go
      with it, each under its key and with what it held. */
  lemma CatalogRecordsExact(codec: Codec, inherited: set<string>, files: Files, id: string, r: Record)
    requires Perform(codec, inherited, files, Delete("catalog=" + id)).Success? && Addressing.IsEntityId(id)
    ensures var records := Perform(codec, inherited, files, Delete("catalog=" + id)).value.1;
            && |records| > 0 && CatalogSchemaPath(id) in files
            && records[0] == Record("delete", "catalog=" + id, codec.readJson(files[CatalogSchemaPath(id)]), None)
            && (r in records[1..] <==>
                  exists key :: EntryPath(id, key) in files
                    && r == Record("delete", "catalog=" + id + ":entry=" + key,
                                   codec.readToml(files[EntryPath(id, key)]), None))
  {
    CatalogCascades(codec, inherited, files, id);
    CascadeRecordsExact(codec, files, CatalogSchemaPath(id), CatalogDataDir(id), ".toml", "catalog=" + id, ":entry=",
                        codec.readToml, r);
    forall key ensures EntryPath(id, key) == CatalogDataDir(id) + key + ".toml" != CatalogSchemaPath(id) {
      assert EntryPath(id, key)[0] == 'd' && CatalogSchemaPath(id)[0] == 'm';
    }
  }

  lemma CatalogCascades(codec: Codec, inherited: set<string>, files: Files, id: string)
    requires Perform(codec, inherited, files, Delete("catalog=" + id)).Success? && Addressing.IsEntityId(id)
    ensures Perform(codec, inherited, files, Delete("catalog=" + id)) ==
            DeleteCascade(codec, files, CatalogSchemaPath(id), CatalogDataDir(id), ".toml", "catalog=" + id, ":entry=",
                          codec.readToml)
  {
    var address := Addressing.Address([Entity(Addressing.Catalog, id)], None);
    CreatedAddressReads(CreateCatalog(id, Null));
    DeleteSteps(codec, inherited, files, "catalog=" + id, address);
    CatalogAt(codec, files, id);
  }

  lemma CatalogAt(codec: Codec, files: Files, id: string)
    ensures DeleteAt(codec, files, Addressing.Address([Entity(Addressing.Catalog, id)], None)) ==
            DeleteCascade(codec, files, CatalogSchemaPath(id), CatalogDataDir(id), ".toml", "catalog=" + id, ":entry=",
                          codec.readToml)
  {
    var steps := [Entity(Addressing.Catalog, id)];
    assert forall s | s in steps :: s == steps[0];
  }

  lemma {:induction false} CascadeRecordsExact(codec: Codec, files: Files, schema: string, dir: string, suffix: string,
                                               owner: string, child: string, read: string -> Option<Json>, r: Record)
    requires schema in files
    ensures var records := DeleteCascade(codec, files, schema, dir, suffix, owner, child, read).value.1;
            && |records| > 0 && records[0] == Record("delete", owner, codec.readJson(files[schema]), None)
            && (r in records[1..] <==>
                  exists key :: dir + key + suffix in files && dir + key + suffix != schema
                    && r == Record("delete", owner + child + key, read(files[dir + key + suffix]), None))
  {
    var rest := files - {schema};
    var paths := Order.Sorted(Under(rest, dir));
    CascadeIs(codec, files, schema, dir, suffix, owner, child, read, rest, paths);
    CascadeListed(rest, paths, dir, suffix, owner + child, read, r);
    var first := [Record("delete", owner, codec.readJson(files[schema]), None)];
    var others := CascadeRecords(rest, paths, dir, suffix, owner + child, read);
    assert (first + others)[1..] == others;
    forall key ensures RecordsKey(rest, paths, dir, suffix, owner + child, read, r, key) <==>
                       && dir + key + suffix in files && dir + key + suffix != schema
                       && r == Record("delete", owner + child + key, read(files[dir + key + suffix]), None)
    {
      assert dir <= dir + key + suffix;
    }
  }

  /** The entity an address with ids all through names, if it is of a kind that can be
      deleted. */
  function EntityAt(steps: seq<Addressing.Step>): Option<Operation>
    requires forall s | s in steps :: s.id.Entity?
  {
    if |steps| == 1 then
      assert steps[0] in steps;
      var id := steps[0].id.id;
      match steps[0].class_
      case Variable => Some(CreateVariable(id, "", None, Null))
      case Catalog => Some(CreateCatalog(id, Null))
      case List => Some(CreateList(id, "", [], None))
      case EvaluationContext => Some(CreateContext(id, Null))
      case Layer => Some(CreateLayer(id, "", 0))
      case _ => None
    else if |steps| == 2 then
      assert steps[0] in steps && steps[1] in steps;
      var outer, inner := steps[0].id.id, steps[1].id.id;
      if steps[0].class_.Catalog? && steps[1].class_.Entry? then Some(CreateEntry(outer, inner, Null))
      else if steps[0].class_.EvaluationContext? && steps[1].class_.Sample? then Some(CreateSample(outer, inner, Null))
      else None
    else None
  }

  lemma EntityAtReads(steps: seq<Addressing.Step>)
    requires forall s | s in steps :: s.id.Entity? && Addressing.ValidStep(s)
    requires EntityAt(steps).Some?
    ensures IsCreate(EntityAt(steps).value) && StepsOf(EntityAt(steps).value) == steps
    ensures IdsValid(EntityAt(steps).value)
  {
    assert steps[0] in steps;
    if |steps| == 2 {
      assert steps[1] in steps;
    }
  }

  /** Nothing but such an entity can be deleted: not a field, a namespace, an open slot or
      an entity of another kind. */
  lemma OnlyEntitiesDeleted(codec: Codec, inherited: set<string>, files: Files, target: string) returns (op: Operation)
    requires Perform(codec, inherited, files, Delete(target)).Success?
    ensures IsCreate(op) && IdsValid(op) && target == CreatedAddress(op)
  {
    var address := Addressing.Parse(target).value;
    Addressing.ParsePrints(target);
    assert DeleteAt(codec, files, address).Success?;
    op := EntityAt(address.steps).value;
    EntityAtReads(address.steps);
    EditUndo.CreatedText(op);
    assert Addressing.PathText(address.steps) + "" == Addressing.PathText(address.steps);
  }
}
