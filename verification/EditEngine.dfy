/** The edit engine: semantic operations applied to a working tree, in order, with a
    record of what each changed. */
module EditEngine {
  import opened Prelude
  import opened Json
  import opened Overlay
  import opened Paths
  import Addressing
  import Order
  import Text

  datatype Operation =
    | CreateVariable(id: string, variableType: string, description: Option<string>, default: Json)
    | CreateCatalog(id: string, schema: Json)
    | CreateEntry(catalog: string, key: string, fields: Json)
    | CreateList(id: string, memberType: string, members: seq<Json>, description: Option<string>)
    | CreateContext(id: string, schema: Json)
    | CreateLayer(id: string, unit: string, buckets: int)
    | CreateSample(context: string, key: string, content: Json)
    | ReplaceSample(context: string, key: string, content: Json)
    | Delete(target: string)
      // Every operation that edits one existing document in place: descriptions,
      // types, defaults, rules, queries, fields, members and allocations.
    | Rewrite(path: string, owned: seq<string>, edit: string -> Result<(string, Record), EditError>)

  datatype Record = Record(operation: string, address: string, before: Option<Json>, after: Option<Json>)

  datatype EditError =
    | NotOwned(address: string)
    | InvalidId(id: string)
    | AlreadyExists(path: string)
    | DoesNotExist(path: string)
    | Refused
    | BadTarget(cause: Addressing.AddressError)

  /** Printing and reading documents: a created document's text with its JSON view, a
      JSON document's text, and what a file's text reads as. */
  datatype Codec = Codec(
    document: Operation -> (string, Json),
    json: Json -> string,
    readToml: string -> Option<Json>,
    readJson: string -> Option<Json>)

  type Changed = Result<(Files, seq<Record>), EditError>

  // ---- Checks ----

  predicate Blank(text: string) {
    forall c | c in text :: Text.IsWhite(c)
  }

  /** TOML has no null at any depth. */
  predicate Representable(v: Json)
    decreases v
  {
    match v
    case Null => false
    case Array(items) => forall i | i in items :: Representable(i)
    case Object(fields) => forall k | k in fields :: Representable(fields[k])
    case _ => true
  }

  predicate IsMember(v: Json) {
    v.Bool? || v.Number? || v.String?
  }

  predicate Repeats(members: seq<Json>) {
    exists i | 0 <= i < |members| :: members[i] in members[..i]
  }

  function CheckedId(id: string): Option<EditError> {
    if Addressing.IsEntityId(id) then None else Some(InvalidId(id))
  }

  function Ensure(condition: bool, error: EditError): Option<EditError> {
    if condition then None else Some(error)
  }

  function Either(a: Option<EditError>, b: Option<EditError>): Option<EditError> {
    if a.Some? then a else b
  }

  /** Why a creation is refused before its path is looked at. */
  function Complaint(op: Operation, files: Files): Option<EditError> {
    match op
    case CreateVariable(id, variableType, _, default) =>
      Either(CheckedId(id), Either(Ensure(!Blank(variableType), Refused), Ensure(Representable(default), Refused)))
    case CreateCatalog(id, schema) => Either(CheckedId(id), Ensure(schema.Object?, Refused))
    case CreateEntry(catalog, key, fields) =>
      Either(CheckedId(catalog), Either(CheckedId(key),
        Either(Ensure(CatalogSchemaPath(catalog) in files, DoesNotExist(CatalogSchemaPath(catalog))),
               Ensure(fields.Object?, Refused))))
    case CreateList(id, memberType, members, _) =>
      Either(CheckedId(id), Either(Ensure(!Blank(memberType), Refused), Either(Ensure(members != [], Refused),
        Ensure((forall m | m in members :: IsMember(m)) && !Repeats(members), Refused))))
    case CreateContext(id, schema) => Either(CheckedId(id), Ensure(schema.Object?, Refused))
    case CreateLayer(id, unit, buckets) =>
      Either(CheckedId(id), Either(Ensure(!Blank(unit), Refused), Ensure(buckets > 0, Refused)))
    case CreateSample(context, key, content) =>
      Either(CheckedId(context), Either(CheckedId(key),
        Either(Ensure(ContextSchemaPath(context) in files, DoesNotExist(ContextSchemaPath(context))),
               Ensure(content.Object?, Refused))))
    case _ => None
  }

  predicate IsCreate(op: Operation) {
    op.CreateVariable? || op.CreateCatalog? || op.CreateEntry? || op.CreateList? || op.CreateContext? || op.CreateLayer?
    || op.CreateSample?
  }

  function CreatedPath(op: Operation): string
    requires IsCreate(op)
  {
    match op
    case CreateVariable(id, _, _, _) => VariablePath(id)
    case CreateCatalog(id, _) => CatalogSchemaPath(id)
    case CreateEntry(catalog, key, _) => EntryPath(catalog, key)
    case CreateList(id, _, _, _) => ListPath(id)
    case CreateContext(id, _) => ContextSchemaPath(id)
    case CreateLayer(id, _, _) => LayerPath(id)
    case CreateSample(context, key, _) => SamplePath(context, key)
  }

  /** The text a creation writes, and the value it records. */
  function CreatedText(codec: Codec, op: Operation): (string, Json)
    requires IsCreate(op)
  {
    match op
    case CreateCatalog(_, schema) => (codec.json(schema), schema)
    case CreateContext(_, schema) => (codec.json(schema), schema)
    case CreateSample(_, _, content) => (codec.json(content), content)
    case CreateEntry(_, _, fields) => (codec.document(op).0, fields)
    case _ => codec.document(op)
  }

  function OperationName(op: Operation): string
    requires IsCreate(op)
  {
    match op
    case CreateVariable(_, _, _, _) => "create_variable"
    case CreateCatalog(_, _) => "create_catalog"
    case CreateEntry(_, _, _) => "create_entry"
    case CreateList(_, _, _, _) => "create_list"
    case CreateContext(_, _) => "create_context"
    case CreateLayer(_, _, _) => "create_layer"
    case CreateSample(_, _, _) => "create_sample"
  }

  /** The canonical address of what an operation creates. */
  function CreatedAddress(op: Operation): string
    requires IsCreate(op)
  {
    match op
    case CreateVariable(id, _, _, _) => "variable=" + id
    case CreateCatalog(id, _) => "catalog=" + id
    case CreateEntry(catalog, key, _) => "catalog=" + catalog + ":entry=" + key
    case CreateList(id, _, _, _) => "list=" + id
    case CreateContext(id, _) => "evaluation-context=" + id
    case CreateLayer(id, _, _) => "layer=" + id
    case CreateSample(context, key, _) => "evaluation-context=" + context + ":sample=" + key
  }

  // ---- What each operation does to the working view ----

  function Create(codec: Codec, files: Files, op: Operation): Changed
    requires IsCreate(op)
  {
    var path := CreatedPath(op);
    var complaint := Either(Complaint(op, files), Ensure(path !in files, AlreadyExists(path)));
    if complaint.Some? then Failure(complaint.value)
    else if op.CreateEntry? && !Representable(op.fields) then Failure(Refused)
    else
      var (text, value) := CreatedText(codec, op);
      var records := [Record(OperationName(op), CreatedAddress(op), None, Some(value))];
      if op.CreateContext? then WithStarter(codec, files[path := text], op.id, records)
      else Success((files[path := text], records))
  }

  /** A new context gets an empty default sample, unless one is already there. */
  function WithStarter(codec: Codec, files: Files, id: string, records: seq<Record>): Changed {
    var sample := SamplePath(id, "default");
    if sample in files then Success((files, records))
    else Success((files[sample := codec.json(EMPTY)],
                  records + [Record("create_context", "evaluation-context=" + id + ":sample=default", None,
                                    Some(EMPTY))]))
  }

  function Replace(codec: Codec, files: Files, context: string, key: string, content: Json): Changed {
    var path := SamplePath(context, key);
    var complaint := Either(CheckedId(context), Either(CheckedId(key), Either(Ensure(content.Object?, Refused),
                       Ensure(path in files, DoesNotExist(path)))));
    if complaint.Some? then Failure(complaint.value)
    else Success((files[path := codec.json(content)],
                  [Record("replace_sample", "evaluation-context=" + context + ":sample=" + key,
                          codec.readJson(files[path]), Some(content))]))
  }

  function Rewritten(files: Files, path: string, edit: string -> Result<(string, Record), EditError>): Changed {
    if path !in files then Failure(DoesNotExist(path)) else
      match edit(files[path])
      case Failure(error) => Failure(error)
      case Success((text, record)) => Success((files[path := text], [record]))
  }

  function DeleteOne(files: Files, path: string, address: string, read: string -> Option<Json>): Changed {
    if path !in files then Failure(DoesNotExist(path))
    else Success((files - {path}, [Record("delete", address, read(files[path]), None)]))
  }

  /** The part of a path between a directory and a suffix, when it has both. */
  function KeyIn(path: string, dir: string, suffix: string): Option<string> {
    if dir <= path && |path| >= |dir| + |suffix| && path[|path| - |suffix|..] == suffix then
      Some(path[|dir|..|path| - |suffix|])
    else None
  }

  /** Records of a cascade: one for each document with the directory's suffix, in
      path order; other files go without one. */
  function CascadeRecords(files: Files, paths: seq<string>, dir: string, suffix: string, address: string,
                          read: string -> Option<Json>): seq<Record>
    requires forall p | p in paths :: p in files
  {
    if |paths| == 0 then [] else
      var n := |paths| - 1;
      assert paths[n] in paths;
      var key := KeyIn(paths[n], dir, suffix);
      CascadeRecords(files, paths[..n], dir, suffix, address, read)
      + (if key.Some? then [Record("delete", address + key.value, read(files[paths[n]]), None)] else [])
  }

  /** Deleting an entity that owns a directory: its schema, then everything below. */
  function DeleteCascade(codec: Codec, files: Files, schema: string, dir: string, suffix: string,
                         owner: string, child: string, read: string -> Option<Json>): Changed {
    var first := DeleteOne(files, schema, owner, codec.readJson);
    if first.Failure? then first else
      var rest := files - {schema};
      var paths := Order.Sorted(Under(rest, dir));
      Success((rest - Under(rest, dir),
               first.value.1 + CascadeRecords(rest, paths, dir, suffix, owner + child, read)))
  }

  function DeleteAt(codec: Codec, files: Files, address: Addressing.Address): Changed {
    var steps := address.steps;
    if address.pointer.Some? then Failure(Refused)
    else if exists s | s in steps :: !s.id.Entity? then Failure(Refused)
    else if |steps| == 1 then
      var id := steps[0].id.id;
      match steps[0].class_
      case Variable => DeleteOne(files, VariablePath(id), "variable=" + id, codec.readToml)
      case List => DeleteOne(files, ListPath(id), "list=" + id, codec.readToml)
      case Layer => DeleteOne(files, LayerPath(id), "layer=" + id, codec.readToml)
      case Catalog =>
        DeleteCascade(codec, files, CatalogSchemaPath(id), CatalogDataDir(id), ".toml", "catalog=" + id, ":entry=",
                      codec.readToml)
      case EvaluationContext =>
        DeleteCascade(codec, files, ContextSchemaPath(id), SamplesDir(id), ".json", "evaluation-context=" + id,
                      ":sample=",
                      codec.readJson)
      case _ => Failure(Refused)
    else if |steps| == 2 then
      var (outer, inner) := (steps[0].id.id, steps[1].id.id);
      if steps[0].class_.Catalog? && steps[1].class_.Entry? then
        DeleteOne(files, EntryPath(outer, inner), "catalog=" + outer + ":entry=" + inner, codec.readToml)
      else if steps[0].class_.EvaluationContext? && steps[1].class_.Sample? then
        DeleteOne(files, SamplePath(outer, inner), "evaluation-context=" + outer + ":sample=" + inner, codec.readJson)
      else Failure(Refused)
    else Failure(Refused)
  }

  // ---- Ownership ----

  /** Every prefix of an address, as the address of an entity. */
  function OwnersOf(steps: seq<Addressing.Step>, n: nat): seq<string>
    requires n <= |steps|
  {
    if n == 0 then [] else OwnersOf(steps, n - 1) + [Addressing.PathText(NoSubtree(steps[..n]))]
  }

  function NoSubtree(steps: seq<Addressing.Step>): seq<Addressing.Step> {
    seq(|steps|, i requires 0 <= i < |steps| =>
      if steps[i].id.Subtree? then steps[i].(id := Addressing.Empty) else steps[i])
  }

  function OwnedAddresses(op: Operation): seq<string> {
    match op
    case CreateEntry(catalog, key, _) => ["catalog=" + catalog, CreatedAddress(op)]
    case CreateSample(context, key, _) => ["evaluation-context=" + context, CreatedAddress(op)]
    case ReplaceSample(context, key, _) =>
      ["evaluation-context=" + context, "evaluation-context=" + context + ":sample=" + key]
    case Delete(target) =>
      (match Addressing.Parse(target)
       case Failure(_) => []
       case Success(address) => OwnersOf(address.steps, |address.steps|))
    case Rewrite(_, owned, _) => owned
    case _ => [CreatedAddress(op)]
  }

  function FirstInherited(addresses: seq<string>, inherited: set<string>): Option<EditError> {
    if |addresses| == 0 then None
    else if addresses[0] in inherited then Some(NotOwned(addresses[0]))
    else FirstInherited(addresses[1..], inherited)
  }

  /** One operation on the working view. */
  function Perform(codec: Codec, inherited: set<string>, files: Files, op: Operation): Changed {
    if op.Delete? && Addressing.Parse(op.target).Failure?
      then Failure(BadTarget(Addressing.Parse(op.target).error)) else
      var refusal := FirstInherited(OwnedAddresses(op), inherited);
      if refusal.Some? then Failure(refusal.value) else
        match op
        case Delete(target) => DeleteAt(codec, files, Addressing.Parse(target).value)
        case ReplaceSample(context, key, content) => Replace(codec, files, context, key, content)
        case Rewrite(path, _, edit) => Rewritten(files, path, edit)
        case _ => Create(codec, files, op)
  }

  datatype Applied = Applied(files: Files, records: seq<Record>) | Stopped(index: nat, error: EditError)

  /** A whole operation list, in order; the first failure stops it. */
  function Run(codec: Codec, inherited: set<string>, files: Files, ops: seq<Operation>, i: nat, records: seq<Record>)
    : Applied
    requires i <= |ops|
  {
    RunWith(Stepper(codec, inherited), files, ops, i, records)
  }

  type Step = (Files, Operation) -> Changed

  function Stepper(codec: Codec, inherited: set<string>): Step {
    (files: Files, op: Operation) => Perform(codec, inherited, files, op)
  }

  function RunWith(step: Step, files: Files, ops: seq<Operation>, i: nat, records: seq<Record>): Applied
    requires i <= |ops|
    decreases |ops| - i
  {
    if i == |ops| then Applied(files, records) else
      match step(files, ops[i])
      case Failure(error) => Stopped(i, error)
      case Success((next, made)) => RunWith(step, next, ops, i + 1, records + made)
  }

  // ---- The engine, working in place ----

  /** The call did to the tree exactly what `spec` does to its view. */
  ghost predicate Performed(r: Result<seq<Record>, EditError>, before: Files, after: Files, spec: Changed) {
    match spec
    case Failure(error) => r == Failure(error) && after == before
    case Success((files, records)) => r == Success(records) && after == files
  }

  method CheckMembers(members: seq<Json>) returns (ok: bool)
    ensures ok <==> (forall m | m in members :: IsMember(m)) && !Repeats(members)
  {
    for index := 0 to |members|
      invariant forall m | m in members[..index] :: IsMember(m)
      invariant forall i | 0 <= i < index :: members[i] !in members[..i]
    {
      if !IsMember(members[index]) || members[index] in members[..index] {
        assert members[index] in members;
        return false;
      }
      assert members[..index + 1] == members[..index] + [members[index]];
    }
    assert members[..|members|] == members;
    ok := true;
  }

  method Complain(work: WorkingTree, op: Operation) returns (r: Option<EditError>)
    ensures r == Complaint(op, work.View())
  {
    match op
    case CreateList(id, memberType, members, _) =>
      var ok := CheckMembers(members);
      r := Either(CheckedId(id), Either(Ensure(!Blank(memberType), Refused), Either(Ensure(members != [], Refused),
             Ensure(ok, Refused))));
    case CreateEntry(catalog, key, fields) =>
      var exists_ := work.Exists(CatalogSchemaPath(catalog));
      r := Either(CheckedId(catalog), Either(CheckedId(key),
             Either(Ensure(exists_, DoesNotExist(CatalogSchemaPath(catalog))), Ensure(fields.Object?, Refused))));
    case CreateSample(context, key, content) =>
      var exists_ := work.Exists(ContextSchemaPath(context));
      r := Either(CheckedId(context), Either(CheckedId(key),
             Either(Ensure(exists_, DoesNotExist(ContextSchemaPath(context))), Ensure(content.Object?, Refused))));
    case _ => r := Complaint(op, map[]);
  }

  method CreateEntity(codec: Codec, work: WorkingTree, op: Operation) returns (r: Result<seq<Record>, EditError>)
    requires IsCreate(op)
    modifies work
    ensures Performed(r, old(work.View()), work.View(), Create(codec, old(work.View()), op))
  {
    var complaint := Complain(work, op);
    if complaint.Some? {
      return Failure(complaint.value);
    }
    var path := CreatedPath(op);
    var taken := work.Exists(path);
    if taken {
      return Failure(AlreadyExists(path));
    }
    if op.CreateEntry? && !Representable(op.fields) {
      return Failure(Refused);
    }
    var (text, value) := CreatedText(codec, op);
    work.Write(path, text);
    var records := [Record(OperationName(op), CreatedAddress(op), None, Some(value))];
    if op.CreateContext? {
      var sample := SamplePath(op.id, "default");
      var present := work.Exists(sample);
      if !present {
        work.Write(sample, codec.json(EMPTY));
        records := records
          + [Record("create_context", "evaluation-context=" + op.id + ":sample=default", None, Some(EMPTY))];
      }
    }
    r := Success(records);
  }

  method ReplaceSampleFile(codec: Codec, work: WorkingTree, context: string, key: string, content: Json)
    returns (r: Result<seq<Record>, EditError>)
    modifies work
    ensures Performed(r, old(work.View()), work.View(), Replace(codec, old(work.View()), context, key, content))
  {
    var complaint := Either(CheckedId(context), Either(CheckedId(key), Ensure(content.Object?, Refused)));
    if complaint.Some? {
      return Failure(complaint.value);
    }
    var path := SamplePath(context, key);
    var existing := work.Content(path);
    if existing.None? {
      return Failure(DoesNotExist(path));
    }
    work.Write(path, codec.json(content));
    r := Success([Record("replace_sample", "evaluation-context=" + context + ":sample=" + key,
                         codec.readJson(existing.value), Some(content))]);
  }

  method RewriteDocument(work: WorkingTree, path: string, edit: string -> Result<(string, Record), EditError>)
    returns (r: Result<seq<Record>, EditError>)
    modifies work
    ensures Performed(r, old(work.View()), work.View(), Rewritten(old(work.View()), path, edit))
  {
    var content := work.Content(path);
    if content.None? {
      return Failure(DoesNotExist(path));
    }
    var edited := edit(content.value);
    if edited.Failure? {
      return Failure(edited.error);
    }
    work.Write(path, edited.value.0);
    r := Success([edited.value.1]);
  }

  method DeleteDocument(work: WorkingTree, path: string, address: string, read: string -> Option<Json>)
    returns (r: Result<seq<Record>, EditError>)
    modifies work
    ensures Performed(r, old(work.View()), work.View(), DeleteOne(old(work.View()), path, address, read))
  {
    var content := work.Content(path);
    if content.None? {
      return Failure(DoesNotExist(path));
    }
    work.Delete(path);
    r := Success([Record("delete", address, read(content.value), None)]);
  }

  /** One file of a cascade. */
  method DeleteListed(work: WorkingTree, path: string, dir: string, suffix: string, address: string,
                      read: string -> Option<Json>) returns (records: seq<Record>)
    requires path in work.View()
    modifies work
    ensures work.View() == old(work.View()) - {path}
    ensures records == (var key := KeyIn(path, dir, suffix);
                        if key.Some? then [Record("delete", address + key.value, read(old(work.View()[path])), None)]
                          else [])
  {
    var key := KeyIn(path, dir, suffix);
    if key.Some? {
      var one := DeleteDocument(work, path, address + key.value, read);
      records := one.value;
    } else {
      work.Delete(path);
      records := [];
    }
  }

  /** The files of a cascade, in the order they were listed. */
  method DeleteEach(work: WorkingTree, paths: seq<string>, dir: string, suffix: string, address: string,
                    read: string -> Option<Json>) returns (records: seq<Record>)
    requires Order.Ascending(paths) && forall p | p in paths :: p in work.View()
    modifies work
    ensures work.View() == old(work.View()) - Order.Elements(paths)
    ensures records == CascadeRecords(old(work.View()), paths, dir, suffix, address, read)
  {
    ghost var files := work.View();
    records := [];
    for i := 0 to |paths|
      invariant work.View() == files - Order.Elements(paths[..i])
      invariant records == CascadeRecords(files, paths[..i], dir, suffix, address, read)
    {
      Order.NextElement(paths, i);
      assert paths[..i + 1][..i] == paths[..i];
      var made := DeleteListed(work, paths[i], dir, suffix, address, read);
      records := records + made;
    }
    assert paths[..|paths|] == paths;
  }

  /** Deletes the schema, then walks the directory as it was listed. */
  method DeleteOwned(codec: Codec, work: WorkingTree, schema: string, dir: string, suffix: string,
                     owner: string, child: string, read: string -> Option<Json>)
    returns (r: Result<seq<Record>, EditError>)
    modifies work
    ensures Performed(r, old(work.View()), work.View(),
                      DeleteCascade(codec, old(work.View()), schema, dir, suffix, owner, child, read))
  {
    var first := DeleteDocument(work, schema, owner, codec.readJson);
    if first.Failure? {
      return first;
    }
    var paths := work.PathsUnder(dir);
    assert Order.Elements(paths) == Under(work.View(), dir);
    var records := DeleteEach(work, paths, dir, suffix, owner + child, read);
    r := Success(first.value + records);
  }

  method DeleteTarget(codec: Codec, work: WorkingTree, address: Addressing.Address)
    returns (r: Result<seq<Record>, EditError>)
    modifies work
    ensures Performed(r, old(work.View()), work.View(), DeleteAt(codec, old(work.View()), address))
  {
    var steps := address.steps;
    if address.pointer.Some? || (exists s | s in steps :: !s.id.Entity?) {
      return Failure(Refused);
    }
    if |steps| == 1 {
      var id := steps[0].id.id;
      match steps[0].class_ {
        case Variable => r := DeleteDocument(work, VariablePath(id), "variable=" + id, codec.readToml);
        case List => r := DeleteDocument(work, ListPath(id), "list=" + id, codec.readToml);
        case Layer => r := DeleteDocument(work, LayerPath(id), "layer=" + id, codec.readToml);
        case Catalog =>
          r := DeleteOwned(codec, work, CatalogSchemaPath(id), CatalogDataDir(id), ".toml", "catalog=" + id, ":entry=",
                           codec.readToml);
        case EvaluationContext =>
          r := DeleteOwned(codec, work, ContextSchemaPath(id), SamplesDir(id), ".json", "evaluation-context=" + id,
                           ":sample=",
                           codec.readJson);
        case _ => r := Failure(Refused);
      }
    } else if |steps| == 2 {
      var outer, inner := steps[0].id.id, steps[1].id.id;
      if steps[0].class_.Catalog? && steps[1].class_.Entry? {
        r := DeleteDocument(work, EntryPath(outer, inner), "catalog=" + outer + ":entry=" + inner, codec.readToml);
      } else if steps[0].class_.EvaluationContext? && steps[1].class_.Sample? {
        r := DeleteDocument(work, SamplePath(outer, inner), "evaluation-context=" + outer + ":sample=" + inner,
                            codec.readJson);
      } else {
        r := Failure(Refused);
      }
    } else {
      r := Failure(Refused);
    }
  }

  method EnsureOwned(addresses: seq<string>, inherited: set<string>) returns (r: Option<EditError>)
    ensures r == FirstInherited(addresses, inherited)
  {
    for i := 0 to |addresses|
      invariant FirstInherited(addresses, inherited) == FirstInherited(addresses[i..], inherited)
    {
      if addresses[i] in inherited {
        return Some(NotOwned(addresses[i]));
      }
    }
    r := None;
  }

  method ApplyOperation(codec: Codec, inherited: set<string>, work: WorkingTree, op: Operation)
    returns (r: Result<seq<Record>, EditError>)
    modifies work
    ensures Performed(r, old(work.View()), work.View(), Perform(codec, inherited, old(work.View()), op))
  {
    if op.Delete? && Addressing.Parse(op.target).Failure? {
      return Failure(BadTarget(Addressing.Parse(op.target).error));
    }
    var refusal := EnsureOwned(OwnedAddresses(op), inherited);
    if refusal.Some? {
      return Failure(refusal.value);
    }
    match op
    case Delete(target) => r := DeleteTarget(codec, work, Addressing.Parse(target).value);
    case ReplaceSample(context, key, content) => r := ReplaceSampleFile(codec, work, context, key, content);
    case Rewrite(path, _, edit) => r := RewriteDocument(work, path, edit);
    case _ => r := CreateEntity(codec, work, op);
  }

  datatype Outcome = Planned(plan: Plan, records: seq<Record>) | Aborted(index: nat, error: EditError)

  /** Applies a list of operations to a snapshot. Nothing but the plan comes out: the
      snapshot is a value, and a failure leaves no plan at all. */
  method Apply(codec: Codec, inherited: set<string>, base: Files, ops: seq<Operation>) returns (r: Outcome)
    ensures match Run(codec, inherited, base, ops, 0, [])
            case Stopped(index, error) => r == Aborted(index, error)
            case Applied(files, records) => r.Planned? && r.records == records && PlanFor(base, files, r.plan)
  {
    var work := new WorkingTree(base);
    var records := [];
    for i := 0 to |ops|
      invariant fresh(work) && work.base == base
      invariant Run(codec, inherited, base, ops, 0, []) == Run(codec, inherited, work.View(), ops, i, records)
    {
      var made := ApplyOperation(codec, inherited, work, ops[i]);
      if made.Failure? {
        return Aborted(i, made.error);
      }
      records := records + made.value;
    }
    var plan := work.IntoPlan();
    r := Planned(plan, records);
  }
}
