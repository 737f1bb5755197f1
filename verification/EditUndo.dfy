/** Creating and deleting undo each other: what a creation's record names is what a
    deletion of that address removes, and no two entities share a file by accident. */
module EditUndo {
  import opened Prelude
  import opened Json
  import opened Overlay
  import opened Paths
  import opened EditEngine
  import Addressing
  import EditRuns
  import Order
  import Text

  // ---- The address of what was created ----

  function Entity(class_: Addressing.EntityClass, id: string): Addressing.Step {
    Addressing.Step(class_, Addressing.Entity(id))
  }

  function StepsOf(op: Operation): seq<Addressing.Step>
    requires IsCreate(op)
  {
    match op
    case CreateVariable(id, _, _, _) => [Entity(Addressing.Variable, id)]
    case CreateCatalog(id, _) => [Entity(Addressing.Catalog, id)]
    case CreateEntry(catalog, key, _) => [Entity(Addressing.Catalog, catalog), Entity(Addressing.Entry, key)]
    case CreateList(id, _, _, _) => [Entity(Addressing.List, id)]
    case CreateContext(id, _) => [Entity(Addressing.EvaluationContext, id)]
    case CreateLayer(id, _, _) => [Entity(Addressing.Layer, id)]
    case CreateSample(context, key, _) =>
      [Entity(Addressing.EvaluationContext, context), Entity(Addressing.Sample, key)]
  }

  predicate IdsValid(op: Operation)
    requires IsCreate(op)
  {
    match op
    case CreateEntry(catalog, key, _) => Addressing.IsEntityId(catalog) && Addressing.IsEntityId(key)
    case CreateSample(context, key, _) => Addressing.IsEntityId(context) && Addressing.IsEntityId(key)
    case _ => Addressing.IsEntityId(op.id)
  }

  lemma CreatedIsValid(codec: Codec, inherited: set<string>, files: Files, op: Operation)
    requires IsCreate(op) && Perform(codec, inherited, files, op).Success?
    ensures IdsValid(op) && CreatedPath(op) !in files && FirstInherited(OwnedAddresses(op), inherited).None?
  {
  }

  lemma OneStepText(class_: Addressing.EntityClass, id: string)
    ensures Addressing.PathText([Entity(class_, id)]) == Addressing.ClassName(class_) + "=" + id
  {
    var step := Entity(class_, id);
    assert Addressing.StepTexts([step]) == [Addressing.StepText(step)];
    assert Addressing.IdText(step.id) == id;
    assert Addressing.StepText(step) == Addressing.ClassName(class_) + "=" + id;
    assert Text.Join([Addressing.StepText(step)], ':') == Addressing.StepText(step);
  }

  lemma TwoStepText(outer: Addressing.EntityClass, a: string, inner: Addressing.EntityClass, b: string)
    ensures Addressing.PathText([Entity(outer, a), Entity(inner, b)])
         == Addressing.ClassName(outer) + "=" + a + ":" + Addressing.ClassName(inner) + "=" + b
  {
    var first, second := Addressing.StepText(Entity(outer, a)), Addressing.StepText(Entity(inner, b));
    var texts := Addressing.StepTexts([Entity(outer, a), Entity(inner, b)]);
    assert texts == [first, second];
    assert texts[1..] == [second];
    assert Text.Join([second], ':') == second;
    assert Text.Join(texts, ':') == first + [':'] + second;
    Associate(first + ":", Addressing.ClassName(inner), "=", b);
  }

  lemma Associate(a: string, b: string, c: string, d: string)
    ensures a + (b + c + d) == a + b + c + d
  {
    assert a + (b + c + d) == (a + (b + c)) + d;
    assert a + (b + c) == a + b + c;
  }

  lemma CreatedText(op: Operation)
    requires IsCreate(op)
    ensures CreatedAddress(op) == Addressing.PathText(StepsOf(op))
  {
    match op
    case CreateVariable(id, _, _, _) => OneStepText(Addressing.Variable, id);
      assert "variable=" == "variable" + "=";
    case CreateCatalog(id, _) => OneStepText(Addressing.Catalog, id);
      assert "catalog=" == "catalog" + "=";
    case CreateList(id, _, _, _) => OneStepText(Addressing.List, id);
      assert "list=" == "list" + "=";
    case CreateContext(id, _) => OneStepText(Addressing.EvaluationContext, id);
      assert "evaluation-context=" == "evaluation-context" + "=";
    case CreateLayer(id, _, _) => OneStepText(Addressing.Layer, id);
      assert "layer=" == "layer" + "=";
    case CreateEntry(catalog, key, _) => NestedText(Addressing.Catalog, catalog, Addressing.Entry, key);
    case CreateSample(context, key, _) => NestedText(Addressing.EvaluationContext, context, Addressing.Sample, key);
  }

  lemma NestedText(outer: Addressing.EntityClass, a: string, inner: Addressing.EntityClass, b: string)
    requires (outer.Catalog? && inner.Entry?) || (outer.EvaluationContext? && inner.Sample?)
    ensures Addressing.PathText([Entity(outer, a), Entity(inner, b)]) ==
            if outer.Catalog? then "catalog=" + a + ":entry=" + b else "evaluation-context=" + a + ":sample=" + b
  {
    TwoStepText(outer, a, inner, b);
    if outer.Catalog? {
      assert "catalog=" == "catalog" + "=" && ":entry=" == ":" + "entry" + "=";
      Regroup("catalog", a, "entry", b);
    } else {
      assert "evaluation-context=" == "evaluation-context" + "=" && ":sample=" == ":" + "sample" + "=";
      Regroup("evaluation-context", a, "sample", b);
    }
  }

  lemma Regroup(outer: string, a: string, inner: string, b: string)
    ensures outer + "=" + a + ":" + inner + "=" + b == (outer + "=") + a + (":" + inner + "=") + b
  {
  }

  lemma StepsNest(steps: seq<Addressing.Step>)
    requires |steps| > 0 && Addressing.NestsAt(steps, 0)
    requires |steps| == 1 || (|steps| == 2 && Addressing.NestsAt(steps, 1))
    ensures Addressing.FirstMisnested(steps, 0).None?
  {
    assert Addressing.FirstMisnested(steps, |steps|).None?;
    assert Addressing.FirstMisnested(steps, 1).None?;
  }

  lemma StepsValid(op: Operation)
    requires IsCreate(op) && IdsValid(op)
    ensures forall s | s in StepsOf(op) :: Addressing.ValidStep(s)
    ensures Addressing.FirstMisnested(StepsOf(op), 0).None?
  {
    StepsNest(StepsOf(op));
  }

  /** The recorded address is read as the address of the created entity. */
  lemma CreatedAddressReads(op: Operation)
    requires IsCreate(op) && IdsValid(op)
    ensures Addressing.Parse(CreatedAddress(op)) == Success(Addressing.Address(StepsOf(op), None))
  {
    var text := Addressing.PathText(StepsOf(op));
    StepsValid(op);
    CreatedText(op);
    Addressing.PartsParse(StepsOf(op), None);
    assert text + "" == text;
  }

  // ---- Deleting what was created ----

  /** Nothing lies yet where the created entity will keep what it owns. */
  predicate OwnsNothing(op: Operation, files: Files) {
    && (op.CreateCatalog? ==> forall p | p in files :: !(CatalogDataDir(op.id) <= p))
    && (op.CreateContext? ==> forall p | p in files :: !(SamplesDir(op.id) <= p))
  }

  lemma OneOwner(class_: Addressing.EntityClass, id: string)
    ensures OwnersOf([Entity(class_, id)], 1) == [Addressing.PathText([Entity(class_, id)])]
  {
    var steps := [Entity(class_, id)];
    assert steps[..1] == steps && NoSubtree(steps) == steps;
    assert OwnersOf(steps, 0) == [];
  }

  lemma TwoOwners(outer: Addressing.EntityClass, a: string, inner: Addressing.EntityClass, b: string)
    ensures OwnersOf([Entity(outer, a), Entity(inner, b)], 2) ==
            [Addressing.PathText([Entity(outer, a)]), Addressing.PathText([Entity(outer, a), Entity(inner, b)])]
  {
    var first, steps := [Entity(outer, a)], [Entity(outer, a), Entity(inner, b)];
    assert steps[..1] == first && NoSubtree(first) == first;
    assert steps[..2] == steps && NoSubtree(steps) == steps;
    assert OwnersOf(steps, 0) == [];
    assert OwnersOf(steps, 1) == [Addressing.PathText(first)];
  }

  lemma OwnersAre(op: Operation)
    requires IsCreate(op)
    ensures OwnersOf(StepsOf(op), |StepsOf(op)|) == OwnedAddresses(op)
  {
    CreatedText(op);
    match op
    case CreateEntry(catalog, key, _) =>
      TwoOwners(Addressing.Catalog, catalog, Addressing.Entry, key);
      OneStepText(Addressing.Catalog, catalog);
      assert "catalog=" == "catalog" + "=";
    case CreateSample(context, key, _) =>
      TwoOwners(Addressing.EvaluationContext, context, Addressing.Sample, key);
      OneStepText(Addressing.EvaluationContext, context);
      assert "evaluation-context=" == "evaluation-context" + "=";
    case _ => OneOwner(StepsOf(op)[0].class_, op.id);
  }

  lemma DeleteSteps(codec: Codec, inherited: set<string>, files: Files, target: string, address: Addressing.Address)
    requires Addressing.Parse(target) == Success(address)
    ensures Perform(codec, inherited, files, Delete(target)) ==
            match FirstInherited(OwnersOf(address.steps, |address.steps|), inherited)
            case Some(refusal) => Failure(refusal)
            case None => DeleteAt(codec, files, address)
  {
  }

  /** The owners a deletion checks are the ones the creation checked. */
  lemma DeletePerforms(codec: Codec, inherited: set<string>, files: Files, op: Operation)
    requires IsCreate(op) && IdsValid(op) && FirstInherited(OwnedAddresses(op), inherited).None?
    ensures Perform(codec, inherited, files, Delete(CreatedAddress(op)))
         == DeleteAt(codec, files, Addressing.Address(StepsOf(op), None))
  {
    CreatedAddressReads(op);
    OwnersAre(op);
    DeleteSteps(codec, inherited, files, CreatedAddress(op), Addressing.Address(StepsOf(op), None));
  }

  /** What reads a document of this kind back. */
  function ReaderOf(codec: Codec, op: Operation): string -> Option<Json> {
    if op.CreateCatalog? || op.CreateContext? || op.CreateSample? then codec.readJson else codec.readToml
  }

  lemma PutAndRemoved(files: Files, path: string, text: string)
    requires path !in files
    ensures files[path := text] - {path} == files
  {
  }

  lemma OneUndone(codec: Codec, files: Files, op: Operation)
    requires IsCreate(op) && !op.CreateCatalog? && !op.CreateContext? && Create(codec, files, op).Success?
    ensures var (made, records) := Create(codec, files, op).value;
            var path := CreatedPath(op);
            && path in made && |records| == 1
            && DeleteAt(codec, made, Addressing.Address(StepsOf(op), None))
               == Success((files, [Record("delete", CreatedAddress(op), ReaderOf(codec, op)(made[path]), None)]))
  {
    PutAndRemoved(files, CreatedPath(op), EditEngine.CreatedText(codec, op).0);
    var steps := StepsOf(op);
    if |steps| == 1 {
      assert forall s | s in steps :: s == steps[0];
    } else {
      assert forall s | s in steps :: s == steps[0] || s == steps[1];
    }
  }

  /** A cascade over an empty directory takes the schema only. */
  lemma CascadeAlone(codec: Codec, files: Files, schema: string, text: string, dir: string, suffix: string,
                     owner: string,
                     child: string, read: string -> Option<Json>)
    requires schema !in files && forall p | p in files :: !(dir <= p)
    ensures DeleteCascade(codec, files[schema := text], schema, dir, suffix, owner, child, read)
         == Success((files, [Record("delete", owner, codec.readJson(text), None)]))
  {
    PutAndRemoved(files, schema, text);
    assert Under(files, dir) == {};
    assert Order.Sorted(Under(files, dir)) == [];
    assert files - Under(files, dir) == files;
    assert CascadeRecords(files, [], dir, suffix, owner + child, read) == [];
    CascadeIs(codec, files[schema := text], schema, dir, suffix, owner, child, read, files, []);
    var gone := [Record("delete", owner, codec.readJson(text), None)];
    assert gone + [] == gone;
  }

  /** The cascade, given what is left without the schema and what is listed there. */
  lemma CascadeIs(codec: Codec, files: Files, schema: string, dir: string, suffix: string, owner: string, child: string,
                  read: string -> Option<Json>, rest: Files, paths: seq<string>)
    requires schema in files && rest == files - {schema} && paths == Order.Sorted(Under(rest, dir))
    ensures forall p | p in paths :: p in rest
    ensures DeleteCascade(codec, files, schema, dir, suffix, owner, child, read) ==
            Success((rest - Under(rest, dir),
                     [Record("delete", owner, codec.readJson(files[schema]), None)]
                     + CascadeRecords(rest, paths, dir, suffix, owner + child, read)))
  {
  }

  /** A new catalog owns nothing, so deleting it takes its schema only. */
  lemma CatalogUndone(codec: Codec, files: Files, op: Operation)
    requires op.CreateCatalog? && IdsValid(op) && OwnsNothing(op, files) && Create(codec, files, op).Success?
    ensures var (made, records) := Create(codec, files, op).value;
            && CreatedPath(op) in made && |records| == 1
            && DeleteAt(codec, made, Addressing.Address(StepsOf(op), None))
               == Success((files, [Record("delete", CreatedAddress(op), codec.readJson(made[CreatedPath(op)]), None)]))
  {
    CascadeAlone(codec, files, CatalogSchemaPath(op.id), EditEngine.CreatedText(codec, op).0, CatalogDataDir(op.id),
                 ".toml", "catalog=" + op.id, ":entry=", codec.readToml);
    assert forall s | s in StepsOf(op) :: s == StepsOf(op)[0];
  }

  /** A cascade over a directory with the starter sample takes both. */
  lemma CascadeStarter(codec: Codec, files: Files, id: string, text: string, starter: string)
    requires Addressing.IsEntityId(id) && ContextSchemaPath(id) !in files
    requires forall p | p in files :: !(SamplesDir(id) <= p)
    ensures var made := files[ContextSchemaPath(id) := text][SamplePath(id, "default") := starter];
            var owner := "evaluation-context=" + id;
            DeleteCascade(codec, made, ContextSchemaPath(id), SamplesDir(id), ".json", owner, ":sample=",
                          codec.readJson)
            == Success((files, [Record("delete", owner, codec.readJson(text), None),
                                Record("delete", owner + ":sample=default", codec.readJson(starter), None)]))
  {
    var path, sample, dir := ContextSchemaPath(id), SamplePath(id, "default"), SamplesDir(id);
    assert dir <= sample;
    EditRuns.SchemaIsNoSample(id, id);
    var made := files[path := text][sample := starter];
    var rest := made - {path};
    assert rest == files[sample := starter];
    assert Under(rest, dir) == {sample};
    Order.AscendingUnique(Order.Sorted(Under(rest, dir)), [sample]);
    StarterRecord(rest, id, codec.readJson);
    PutAndRemoved(files, sample, starter);
    assert rest - Under(rest, dir) == files;
    CascadeIs(codec, made, path, dir, ".json", "evaluation-context=" + id, ":sample=", codec.readJson, rest, [sample]);
    var owner := "evaluation-context=" + id;
    var first, second := Record("delete", owner, codec.readJson(text), None),
                         Record("delete", owner + ":sample=default", codec.readJson(starter), None);
    assert [first] + [second] == [first, second];
  }

  /** A new context owns its starter sample, which goes with it. */
  lemma ContextUndone(codec: Codec, files: Files, op: Operation)
    requires op.CreateContext? && IdsValid(op) && OwnsNothing(op, files) && Create(codec, files, op).Success?
    ensures var (made, records) := Create(codec, files, op).value;
            var sample := SamplePath(op.id, "default");
            && CreatedPath(op) in made && sample in made && |records| == 2
            && records[1].address == CreatedAddress(op) + ":sample=default"
            && DeleteAt(codec, made, Addressing.Address(StepsOf(op), None))
               == Success((files, [Record("delete", CreatedAddress(op), codec.readJson(made[CreatedPath(op)]), None),
                                   Record("delete", records[1].address, codec.readJson(made[sample]), None)]))
  {
    var sample := SamplePath(op.id, "default");
    assert SamplesDir(op.id) <= sample;
    EditRuns.SchemaIsNoSample(op.id, op.id);
    CascadeStarter(codec, files, op.id, EditEngine.CreatedText(codec, op).0, codec.json(EMPTY));
    assert forall s | s in StepsOf(op) :: s == StepsOf(op)[0];
  }

  lemma StarterRecord(files: Files, id: string, read: string -> Option<Json>)
    requires SamplePath(id, "default") in files
    ensures CascadeRecords(files, [SamplePath(id, "default")], SamplesDir(id), ".json",
                           "evaluation-context=" + id + ":sample=", read)
         == [Record("delete", "evaluation-context=" + id + ":sample=default", read(files[SamplePath(id, "default")]),
                    None)]
  {
    var sample := SamplePath(id, "default");
    assert sample[|SamplesDir(id)|..|sample| - 5] == "default";
    assert KeyIn(sample, SamplesDir(id), ".json") == Some("default");
    var one: seq<string> := [sample];
    assert one[..0] == [];
    assert "evaluation-context=" + id + ":sample=" + "default" == "evaluation-context=" + id + ":sample=default";
  }

  /** Deletion undoes creation: performing `Delete` on the address a creation recorded
      gives back exactly the former files, where the new entity had nothing waiting for
      it, and the records are of the same addresses. */
  lemma DeleteUndoesCreate(codec: Codec, inherited: set<string>, files: Files, op: Operation)
    requires IsCreate(op) && OwnsNothing(op, files) && Perform(codec, inherited, files, op).Success?
    ensures var (made, records) := Perform(codec, inherited, files, op).value;
            && records != [] && records[0].address == CreatedAddress(op) && CreatedPath(op) in made
            && Undoes(Perform(codec, inherited, made, Delete(records[0].address)), files, records,
                      ReaderOf(codec, op)(made[CreatedPath(op)]))
  {
    CreatedIsValid(codec, inherited, files, op);
    assert Perform(codec, inherited, files, op) == Create(codec, files, op);
    DeletePerforms(codec, inherited, Create(codec, files, op).value.0, op);
    CreateUndone(codec, files, op);
  }

  /** Back at `files`, with one deletion recorded for each of the records, the first of
      them holding what was there. */
  ghost predicate Undoes(undone: Changed, files: Files, records: seq<Record>, before: Option<Json>) {
    && undone.Success? && undone.value.0 == files && |undone.value.1| == |records|
    && (forall i | 0 <= i < |records| ::
          && undone.value.1[i].operation == "delete" && undone.value.1[i].address == records[i].address
          && undone.value.1[i].after.None?)
    && (records != [] ==> undone.value.1[0].before == before)
  }

  lemma CreateUndone(codec: Codec, files: Files, op: Operation)
    requires IsCreate(op) && IdsValid(op) && OwnsNothing(op, files) && Create(codec, files, op).Success?
    ensures var (made, records) := Create(codec, files, op).value;
            && records != [] && records[0].address == CreatedAddress(op) && CreatedPath(op) in made
            && Undoes(DeleteAt(codec, made, Addressing.Address(StepsOf(op), None)), files, records,
                      ReaderOf(codec, op)(made[CreatedPath(op)]))
  {
    if op.CreateCatalog? {
      CatalogUndone(codec, files, op);
    } else if op.CreateContext? {
      ContextUndone(codec, files, op);
    } else {
      OneUndone(codec, files, op);
    }
  }

  // ---- Which entities share a file ----

  /** A catalog id and an entry key are only joined by `/`, which both may hold. */
  predicate SameEntryFile(a: Operation, b: Operation) {
    a.CreateEntry? && b.CreateEntry? && a.catalog + "/" + a.key == b.catalog + "/" + b.key
  }

  predicate SameKind(a: Operation, b: Operation)
    requires IsCreate(a) && IsCreate(b)
  {
    && (a.CreateVariable? <==> b.CreateVariable?) && (a.CreateCatalog? <==> b.CreateCatalog?)
    && (a.CreateEntry? <==> b.CreateEntry?) && (a.CreateList? <==> b.CreateList?)
    && (a.CreateContext? <==> b.CreateContext?) && (a.CreateLayer? <==> b.CreateLayer?)
  }

  lemma PathHead(op: Operation)
    requires IsCreate(op)
    ensures var path := CreatedPath(op);
            && |path| > 7
            && (op.CreateVariable? <==> path[0] == 'v')
            && (op.CreateEntry? <==> path[0] == 'd')
            && (op.CreateList? <==> path[0] == 'l' && path[1] == 'i')
            && (op.CreateLayer? <==> path[0] == 'l' && path[1] == 'a')
            && (op.CreateCatalog? <==> path[0] == 'm' && path[7] == 'a')
            && (op.CreateContext? || op.CreateSample? <==> path[0] == 'm' && path[7] == 'o')
  {
  }

  lemma SameFileSameKind(a: Operation, b: Operation)
    requires IsCreate(a) && IsCreate(b) && IdsValid(a) && IdsValid(b) && CreatedPath(a) == CreatedPath(b)
    ensures SameKind(a, b)
  {
    PathHead(a);
    PathHead(b);
    if a.CreateContext? && b.CreateSample? {
      assert SamplesDir(b.context) <= CreatedPath(b);
      EditRuns.SchemaIsNoSample(b.context, a.id);
    } else if a.CreateSample? && b.CreateContext? {
      assert SamplesDir(a.context) <= CreatedPath(a);
      EditRuns.SchemaIsNoSample(a.context, b.id);
    }
  }

  lemma Between(prefix: string, a: string, b: string, suffix: string)
    requires prefix + a + suffix == prefix + b + suffix
    ensures a == b
  {
    var x, y := prefix + a + suffix, prefix + b + suffix;
    assert |x| == |y|;
    assert a == x[|prefix|..|prefix| + |a|] && b == y[|prefix|..|prefix| + |b|];
  }

  lemma EntryFile(catalog: string, key: string)
    ensures EntryPath(catalog, key) == DATA + (catalog + "/" + key) + ".toml"
  {
  }

  lemma SamplesShare(a: string, b: string, k: string, l: string)
    requires Addressing.IsEntityId(a) && Addressing.IsEntityId(b) && SamplePath(a, k) == SamplePath(b, l)
    ensures a == b && k == l
  {
    assert SamplesDir(a) <= SamplePath(a, k) && SamplesDir(b) <= SamplePath(b, l);
    EditRuns.OneSamplesDir(a, b, SamplePath(a, k));
    Between(SamplesDir(a), k, l, ".json");
  }

  lemma SameKindShare(a: Operation, b: Operation)
    requires IsCreate(a) && IsCreate(b) && IdsValid(a) && IdsValid(b) && SameKind(a, b)
    requires CreatedPath(a) == CreatedPath(b)
    ensures CreatedAddress(a) == CreatedAddress(b) || SameEntryFile(a, b)
  {
    match a
    case CreateVariable(id, _, _, _) => Between("variables/", id, b.id, ".toml");
    case CreateCatalog(id, _) => Between("model/catalogs/", id, b.id, ".schema.json");
    case CreateEntry(catalog, key, _) =>
      EntryFile(catalog, key);
      EntryFile(b.catalog, b.key);
      Between(DATA, catalog + "/" + key, b.catalog + "/" + b.key, ".toml");
    case CreateList(id, _, _, _) => Between("lists/", id, b.id, ".toml");
    case CreateContext(id, _) => Between(MODEL, id, b.id, ".schema.json");
    case CreateLayer(id, _, _) => Between("layers/", id, b.id, ".toml");
    case CreateSample(context, key, _) => SamplesShare(context, b.context, key, b.key);
  }

  lemma SameAddressSharesFile(a: Operation, b: Operation)
    requires IsCreate(a) && IsCreate(b) && IdsValid(a) && IdsValid(b)
    requires CreatedAddress(a) == CreatedAddress(b) || SameEntryFile(a, b)
    ensures CreatedPath(a) == CreatedPath(b)
  {
    if SameEntryFile(a, b) {
      EntryFile(a.catalog, a.key);
      EntryFile(b.catalog, b.key);
    } else {
      CreatedAddressReads(a);
      CreatedAddressReads(b);
      assert StepsOf(a) == StepsOf(b);
      assert StepsOf(a)[0] == StepsOf(b)[0];
      if |StepsOf(a)| == 2 {
        assert StepsOf(a)[1] == StepsOf(b)[1];
      }
    }
  }

  /** Two entities share a file exactly when they are the same, or are entries whose
      catalog and key read the same once joined. */
  lemma FilesShared(a: Operation, b: Operation)
    requires IsCreate(a) && IsCreate(b) && IdsValid(a) && IdsValid(b)
    ensures CreatedPath(a) == CreatedPath(b) <==> CreatedAddress(a) == CreatedAddress(b) || SameEntryFile(a, b)
  {
    if CreatedPath(a) == CreatedPath(b) {
      SameFileSameKind(a, b);
      SameKindShare(a, b);
    } else if CreatedAddress(a) == CreatedAddress(b) || SameEntryFile(a, b) {
      SameAddressSharesFile(a, b);
    }
  }

  predicate New(before: Files, after: Files, path: string) {
    path in after && path !in before
  }

  function Starter(id: string): Operation {
    CreateSample(id, "default", EMPTY)
  }

  ghost predicate FileOf(ops: seq<Operation>, path: string)
    requires forall o | o in ops :: IsCreate(o)
  {
    exists i :: 0 <= i < |ops| && path == CreatedPath(ops[i])
  }

  /** What a creation makes: its entity, and for a context perhaps a starter sample. */
  ghost predicate Makes(op: Operation, ops: seq<Operation>) {
    && |ops| > 0 && ops[0] == op && (|ops| > 1 ==> op.CreateContext? && ops == [op, Starter(op.id)])
    && forall o | o in ops :: IsCreate(o) && IdsValid(o)
  }

  ghost predicate Recorded(ops: seq<Operation>, records: seq<Record>)
    requires forall o | o in ops :: IsCreate(o)
  {
    |ops| == |records| && forall i | 0 <= i < |ops| :: records[i].address == CreatedAddress(ops[i])
  }

  /** A successful creation makes one file for each record, where the entity of the
      record's address lives, and leaves every other file alone. */
  lemma FilesMade(codec: Codec, inherited: set<string>, files: Files, op: Operation) returns (ops: seq<Operation>)
    requires IsCreate(op) && Perform(codec, inherited, files, op).Success?
    ensures Makes(op, ops)
    ensures var (made, records) := Perform(codec, inherited, files, op).value;
            && files.Keys <= made.Keys && (forall p | p in files :: made[p] == files[p])
            && Recorded(ops, records) && forall p :: New(files, made, p) <==> FileOf(ops, p)
  {
    CreatedIsValid(codec, inherited, files, op);
    if op.CreateContext? {
      ops := ContextFilesMade(codec, files, op);
    } else {
      ops := [op];
      assert ops[0] == op;
    }
  }

  lemma ContextFilesMade(codec: Codec, files: Files, op: Operation) returns (ops: seq<Operation>)
    requires op.CreateContext? && IdsValid(op) && Create(codec, files, op).Success?
    ensures Makes(op, ops)
    ensures var (made, records) := Create(codec, files, op).value;
            && files.Keys <= made.Keys && (forall p | p in files :: made[p] == files[p])
            && Recorded(ops, records) && forall p :: New(files, made, p) <==> FileOf(ops, p)
  {
    var starter := Starter(op.id);
    assert SamplesDir(op.id) <= CreatedPath(starter);
    EditRuns.SchemaIsNoSample(op.id, op.id);
    DefaultReads();
    assert "evaluation-context=" + op.id + ":sample=" + "default" == "evaluation-context=" + op.id + ":sample=default";
    ops := if CreatedPath(starter) in files then [op] else [op, starter];
    assert ops[0] == op && (|ops| > 1 ==> ops[1] == starter);
  }

  lemma DefaultReads()
    ensures Addressing.IsEntityId("default")
  {
    var id := "default";
    forall c | c in id ensures Addressing.IsIdChar(c) {
    }
    OnePart(id);
  }

  lemma OnePart(id: string)
    requires Addressing.IsSegment(id)
    ensures Addressing.IsEntityId(id)
  {
    assert Text.Free(id, '/');
    Text.SplitCons(id, "", '/');
  }

  ghost predicate SameAddress(records: seq<Record>, others: seq<Record>) {
    exists i, j :: 0 <= i < |records| && 0 <= j < |others| && records[i].address == others[j].address
  }

  lemma SharedFile(a: Operation, ops: seq<Operation>, records: seq<Record>,
                   b: Operation, others: seq<Operation>, others': seq<Record>, p: string)
    requires Makes(a, ops) && Recorded(ops, records) && Makes(b, others) && Recorded(others, others')
    requires FileOf(ops, p) && FileOf(others, p)
    ensures SameEntryFile(a, b) || SameAddress(records, others')
  {
    var i :| 0 <= i < |ops| && p == CreatedPath(ops[i]);
    var j :| 0 <= j < |others| && p == CreatedPath(others[j]);
    var x, y := ops[i], others[j];
    assert x in ops && y in others;
    FilesShared(x, y);
    EntryIsFirst(a, ops, i);
    EntryIsFirst(b, others, j);
    assert records[i].address == CreatedAddress(x) && others'[j].address == CreatedAddress(y);
  }

  lemma EntryIsFirst(op: Operation, ops: seq<Operation>, i: nat)
    requires Makes(op, ops) && i < |ops|
    ensures ops[i].CreateEntry? ==> ops[i] == op
  {
  }

  lemma SharedRecord(a: Operation, ops: seq<Operation>, records: seq<Record>,
                     b: Operation, others: seq<Operation>, others': seq<Record>) returns (p: string)
    requires Makes(a, ops) && Recorded(ops, records) && Makes(b, others) && Recorded(others, others')
    requires SameEntryFile(a, b) || SameAddress(records, others')
    ensures FileOf(ops, p) && FileOf(others, p)
  {
    var i, j := 0, 0;
    if !SameEntryFile(a, b) {
      i, j :| 0 <= i < |records| && 0 <= j < |others'| && records[i].address == others'[j].address;
    }
    var x, y := ops[i], others[j];
    assert x in ops && y in others;
    FilesShared(x, y);
    p := CreatedPath(x);
  }

  lemma SharedOps(a: Operation, ops: seq<Operation>, records: seq<Record>,
                  b: Operation, others: seq<Operation>, others': seq<Record>)
    requires Makes(a, ops) && Recorded(ops, records) && Makes(b, others) && Recorded(others, others')
    ensures (exists p :: FileOf(ops, p) && FileOf(others, p)) <==> SameEntryFile(a, b) || SameAddress(records, others')
  {
    forall p | FileOf(ops, p) && FileOf(others, p) ensures SameEntryFile(a, b) || SameAddress(records, others') {
      SharedFile(a, ops, records, b, others, others', p);
    }
    if SameEntryFile(a, b) || SameAddress(records, others') {
      var p := SharedRecord(a, ops, records, b, others, others');
    }
  }

  /** Two successful creations, whatever tree each runs on, make a file in common exactly
      when a record of one and a record of the other have the same address, or when both
      are entries whose catalog and key read the same once joined. */
  lemma CreationsShareExactly(codec: Codec, inherited: set<string>, files: Files, a: Operation, others: Files,
                              b: Operation)
    requires IsCreate(a) && Perform(codec, inherited, files, a).Success?
    requires IsCreate(b) && Perform(codec, inherited, others, b).Success?
    ensures var (made, records) := Perform(codec, inherited, files, a).value;
            var (made', records') := Perform(codec, inherited, others, b).value;
            (exists p :: New(files, made, p) && New(others, made', p)) <==>
            SameEntryFile(a, b) || SameAddress(records, records')
  {
    var ops := FilesMade(codec, inherited, files, a);
    var ops' := FilesMade(codec, inherited, others, b);
    SharedOps(a, ops, Perform(codec, inherited, files, a).value.1, b, ops',
              Perform(codec, inherited, others, b).value.1);
  }

  /** Entry `b/c` of catalog `a` and entry `c` of catalog `a/b` are kept in one file. */
  lemma NestedEntriesCollide(fields: Json)
    ensures var a, b := CreateEntry("a", "b/c", fields), CreateEntry("a/b", "c", fields);
            IdsValid(a) && IdsValid(b) && CreatedAddress(a) != CreatedAddress(b) && CreatedPath(a) == CreatedPath(b)
  {
    var a, b := CreateEntry("a", "b/c", fields), CreateEntry("a/b", "c", fields);
    NestedIds();
    assert CreatedAddress(a)[9] != CreatedAddress(b)[9];
    assert "a" + "/" + "b/c" == "a/b" + "/" + "c";
    SameAddressSharesFile(a, b);
  }

  lemma NestedIds()
    ensures Addressing.IsEntityId("a") && Addressing.IsEntityId("c")
    ensures Addressing.IsEntityId("a/b") && Addressing.IsEntityId("b/c")
  {
    Text.SplitCons("a", "b", '/');
    Text.SplitCons("b", "c", '/');
    Text.SplitCons("c", "", '/');
    assert "a" + ['/'] + "b" == "a/b" && "b" + ['/'] + "c" == "b/c";
  }
}
