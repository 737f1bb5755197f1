/** What holds over whole runs of edits: referential integrity, composition of
    operation lists, and the uniqueness of the plan. */
module EditRuns {
  import opened Prelude
  import opened Json
  import opened Overlay
  import opened Paths
  import opened EditEngine
  import Addressing
  import Order
  import Text

  // ---- Referential integrity ----

  ghost predicate OwnedBy(files: Files, path: string, catalog: string) {
    Addressing.IsEntityId(catalog) && CatalogDataDir(catalog) <= path && CatalogSchemaPath(catalog) in files
  }

  /** Every live file of catalog data lies in the directory of a catalog whose schema
      is live, and every live sample belongs to a live context schema. */
  ghost predicate Sound(files: Files) {
    && (forall p | p in files && DATA <= p :: exists id :: OwnedBy(files, p, id))
    && (forall p, id | p in files && Addressing.IsEntityId(id) && SamplesDir(id) <= p :: ContextSchemaPath(id) in files)
  }

  lemma NoDash(id: string)
    requires Addressing.IsEntityId(id)
    ensures Text.Free(id, '-')
  {
    forall c | c in id ensures c != '-' {
      Addressing.IdChars(id, c);
    }
  }

  /** The context a sample path belongs to is what stands before the dash. */
  lemma ContextOfSample(context: string, path: string)
    requires Addressing.IsEntityId(context) && SamplesDir(context) <= path
    ensures Text.Before(path[|MODEL|..], '-') == context && '-' in path[|MODEL|..]
  {
    var rest := path[|SamplesDir(context)|..];
    NoDash(context);
    assert path == SamplesDir(context) + rest;
    assert path[|MODEL|..] == context + ['-'] + ("samples/" + rest);
    Text.BeforePrefix(context, "samples/" + rest, '-');
  }

  /** A path lies in the sample directory of at most one context. */
  lemma OneSamplesDir(a: string, b: string, path: string)
    requires Addressing.IsEntityId(a) && Addressing.IsEntityId(b)
    requires SamplesDir(a) <= path && SamplesDir(b) <= path
    ensures a == b
  {
    ContextOfSample(a, path);
    ContextOfSample(b, path);
  }

  /** Context schemas are not samples of any context. */
  lemma SchemaIsNoSample(context: string, id: string)
    requires Addressing.IsEntityId(context) && Addressing.IsEntityId(id)
    ensures !(SamplesDir(context) <= ContextSchemaPath(id))
  {
    NoDash(id);
    assert Text.Free(".schema.json", '-');
    assert ContextSchemaPath(id)[|MODEL|..] == id + ".schema.json";
    if SamplesDir(context) <= ContextSchemaPath(id) {
      ContextOfSample(context, ContextSchemaPath(id));
    }
  }

  /** The layout's directories are told apart by their first letters. */
  lemma Heads(id: string, other: string, key: string)
    ensures !(DATA <= VariablePath(id)) && !(DATA <= ListPath(id)) && !(DATA <= LayerPath(id))
    ensures !(DATA <= CatalogSchemaPath(id)) && !(DATA <= ContextSchemaPath(id)) && !(DATA <= SamplePath(id, key))
    ensures !(SamplesDir(other) <= VariablePath(id)) && !(SamplesDir(other) <= ListPath(id))
    ensures !(SamplesDir(other) <= LayerPath(id)) && !(SamplesDir(other) <= CatalogSchemaPath(id))
    ensures !(SamplesDir(other) <= EntryPath(id, key))
    ensures CatalogDataDir(id) <= EntryPath(id, key) && SamplesDir(id) <= SamplePath(id, key)
    ensures DATA <= CatalogDataDir(id)
  {
    assert SamplesDir(other)[0] == 'm' && SamplesDir(other)[7] == 'o';
    assert VariablePath(id)[0] == 'v' && ListPath(id)[0] == 'l' && LayerPath(id)[0] == 'l';
    assert CatalogSchemaPath(id)[0] == 'm' && CatalogSchemaPath(id)[7] == 'a';
    assert ContextSchemaPath(id)[0] == 'm' && SamplePath(id, key)[0] == 'm';
    assert EntryPath(id, key)[0] == 'd' && DATA[0] == 'd';
  }

  /** A path is a schema of some valid catalog or context. */
  ghost predicate IsSchema(path: string) {
    exists id :: Addressing.IsEntityId(id) && (path == CatalogSchemaPath(id) || path == ContextSchemaPath(id))
  }

  lemma SchemaHeads(path: string)
    requires IsSchema(path)
    ensures |path| > 7 && path[0] == 'm' && (path[7] == 'a' || path[7] == 'o')
    ensures forall c | Addressing.IsEntityId(c) :: !(SamplesDir(c) <= path)
  {
    var id :| Addressing.IsEntityId(id) && (path == CatalogSchemaPath(id) || path == ContextSchemaPath(id));
    forall c | Addressing.IsEntityId(c) ensures !(SamplesDir(c) <= path) {
      SchemaIsNoSample(c, id);
      Heads(id, c, "");
    }
  }

  lemma AddSound(files: Files, path: string, text: string)
    requires Sound(files)
    requires DATA <= path ==> exists id :: OwnedBy(files, path, id)
    requires forall id | Addressing.IsEntityId(id) && SamplesDir(id) <= path :: ContextSchemaPath(id) in files
    ensures Sound(files[path := text])
  {
    var after := files[path := text];
    forall p | p in after && DATA <= p ensures exists id :: OwnedBy(after, p, id) {
      var id :| OwnedBy(files, p, id);
      assert OwnedBy(after, p, id);
    }
  }

  lemma RewriteSound(files: Files, path: string, text: string)
    requires Sound(files) && path in files
    ensures Sound(files[path := text])
  {
    AddSound(files, path, text);
  }

  lemma RemoveSound(files: Files, gone: set<string>)
    requires Sound(files) && forall p | p in gone :: !IsSchema(p)
    ensures Sound(files - gone)
  {
    var after := files - gone;
    forall p | p in after && DATA <= p ensures exists id :: OwnedBy(after, p, id) {
      var id :| OwnedBy(files, p, id);
      assert IsSchema(CatalogSchemaPath(id));
      assert OwnedBy(after, p, id);
    }
    forall p, id | p in after && Addressing.IsEntityId(id) && SamplesDir(id) <= p
      ensures ContextSchemaPath(id) in after {
      assert IsSchema(ContextSchemaPath(id));
    }
  }

  lemma SchemasDiffer(a: string, b: string)
    ensures CatalogSchemaPath(a) != ContextSchemaPath(b)
    ensures CatalogSchemaPath(a) == CatalogSchemaPath(b) ==> a == b
    ensures ContextSchemaPath(a) == ContextSchemaPath(b) ==> a == b
  {
    assert CatalogSchemaPath(a)[7] == 'a' && ContextSchemaPath(b)[7] == 'o';
    var x, y := CatalogSchemaPath(a), CatalogSchemaPath(b);
    assert |x| == |y| ==> a == x[15..15 + |a|] && b == y[15..15 + |b|];
    var u, v := ContextSchemaPath(a), ContextSchemaPath(b);
    assert |u| == |v| ==> a == u[14..14 + |a|] && b == v[14..14 + |b|];
  }

  /** Deleting a catalog takes every file below its directory with it, files of nested
      catalogs included; whatever stays is owned by a catalog that stays. */
  lemma CatalogCascadeSound(files: Files, id: string)
    requires Sound(files) && Addressing.IsEntityId(id)
    ensures var rest := files - {CatalogSchemaPath(id)}; Sound(rest - Under(rest, CatalogDataDir(id)))
  {
    var rest := files - {CatalogSchemaPath(id)};
    var after := rest - Under(rest, CatalogDataDir(id));
    Heads(id, id, "");
    forall p | p in Under(rest, CatalogDataDir(id)) ensures !IsSchema(p) {
      assert p[0] == CatalogDataDir(id)[0] == 'd';
      if IsSchema(p) {
        SchemaHeads(p);
      }
    }
    forall p | p in after && DATA <= p ensures exists c :: OwnedBy(after, p, c) {
      var c :| OwnedBy(files, p, c);
      SchemasDiffer(c, id);
      assert IsSchema(CatalogSchemaPath(c));
      assert OwnedBy(after, p, c);
    }
    forall p, c | p in after && Addressing.IsEntityId(c) && SamplesDir(c) <= p ensures ContextSchemaPath(c) in after {
      SchemasDiffer(id, c);
      assert IsSchema(ContextSchemaPath(c));
    }
  }

  /** Deleting a context takes its samples with it, and no other context's. */
  lemma ContextCascadeSound(files: Files, id: string)
    requires Sound(files) && Addressing.IsEntityId(id)
    ensures var rest := files - {ContextSchemaPath(id)}; Sound(rest - Under(rest, SamplesDir(id)))
  {
    var rest := files - {ContextSchemaPath(id)};
    var after := rest - Under(rest, SamplesDir(id));
    forall p | p in Under(rest, SamplesDir(id)) ensures !IsSchema(p) {
      if IsSchema(p) {
        SchemaHeads(p);
      }
    }
    forall p | p in after && DATA <= p ensures exists c :: OwnedBy(after, p, c) {
      var c :| OwnedBy(files, p, c);
      SchemasDiffer(c, id);
      assert IsSchema(CatalogSchemaPath(c));
      assert OwnedBy(after, p, c);
    }
    forall p, c | p in after && Addressing.IsEntityId(c) && SamplesDir(c) <= p ensures ContextSchemaPath(c) in after {
      SchemasDiffer(c, id);
      assert IsSchema(ContextSchemaPath(c));
    }
  }

  lemma CreateSound(codec: Codec, files: Files, op: Operation)
    requires Sound(files) && IsCreate(op) && Create(codec, files, op).Success?
    ensures Sound(Create(codec, files, op).value.0)
  {
    var path, text := CreatedPath(op), CreatedText(codec, op).0;
    match op
    case CreateEntry(catalog, key, _) =>
      Heads(catalog, catalog, key);
      assert OwnedBy(files, path, catalog);
      forall c | Addressing.IsEntityId(c) ensures !(SamplesDir(c) <= path) {
        Heads(catalog, c, key);
      }
      AddSound(files, path, text);
    case CreateSample(context, key, _) => SampleSound(files, context, key, text);
    case CreateContext(id, _) =>
      SchemaSound(files, id, text);
      var sample := SamplePath(id, "default");
      if sample !in files {
        assert sample != path by { SchemaIsNoSample(id, id); Heads(id, id, "default"); }
        SampleSound(files[path := text], id, "default", codec.json(EMPTY));
      }
    case CreateCatalog(id, _) => PlainSound(files, id, path, text);
    case CreateVariable(id, _, _, _) => PlainSound(files, id, path, text);
    case CreateList(id, _, _, _) => PlainSound(files, id, path, text);
    case CreateLayer(id, _, _) => PlainSound(files, id, path, text);
  }

  lemma PlainSound(files: Files, id: string, path: string, text: string)
    requires Sound(files) && path in {VariablePath(id), ListPath(id), LayerPath(id), CatalogSchemaPath(id)}
    ensures Sound(files[path := text])
  {
    Heads(id, id, "");
    forall c | Addressing.IsEntityId(c) ensures !(SamplesDir(c) <= path) {
      Heads(id, c, "");
    }
    AddSound(files, path, text);
  }

  lemma SchemaSound(files: Files, id: string, text: string)
    requires Sound(files) && Addressing.IsEntityId(id)
    ensures Sound(files[ContextSchemaPath(id) := text])
  {
    Heads(id, id, "");
    forall c | Addressing.IsEntityId(c) ensures !(SamplesDir(c) <= ContextSchemaPath(id)) {
      SchemaIsNoSample(c, id);
    }
    AddSound(files, ContextSchemaPath(id), text);
  }

  lemma SampleSound(files: Files, context: string, key: string, text: string)
    requires Sound(files) && Addressing.IsEntityId(context) && ContextSchemaPath(context) in files
    ensures Sound(files[SamplePath(context, key) := text])
  {
    var path := SamplePath(context, key);
    Heads(context, context, key);
    forall c | Addressing.IsEntityId(c) && SamplesDir(c) <= path ensures ContextSchemaPath(c) in files {
      OneSamplesDir(c, context, path);
    }
    AddSound(files, path, text);
  }

  lemma DeleteOneSound(files: Files, path: string)
    requires Sound(files)
    requires (|path| > 0 && path[0] == 'm' ==> exists c :: Addressing.IsEntityId(c) && SamplesDir(c) <= path)
    ensures Sound(files - {path})
  {
    if IsSchema(path) {
      SchemaHeads(path);
    }
    RemoveSound(files, {path});
  }

  lemma DeleteSound(codec: Codec, files: Files, address: Addressing.Address)
    requires Sound(files) && Addressing.Valid(address) && DeleteAt(codec, files, address).Success?
    ensures Sound(DeleteAt(codec, files, address).value.0)
  {
    var steps := address.steps;
    assert steps[0] in steps;
    var id := steps[0].id.id;
    assert Addressing.IsEntityId(id);
    if |steps| == 1 {
      match steps[0].class_ {
        case Variable => DeleteOneSound(files, VariablePath(id));
        case List => DeleteOneSound(files, ListPath(id));
        case Layer => DeleteOneSound(files, LayerPath(id));
        case Catalog => CatalogCascadeSound(files, id);
        case EvaluationContext => ContextCascadeSound(files, id);
        case _ =>
      }
    } else {
      assert steps[1] in steps;
      var inner := steps[1].id.id;
      Heads(id, id, inner);
      if steps[0].class_.Catalog? {
        DeleteOneSound(files, EntryPath(id, inner));
      } else {
        DeleteOneSound(files, SamplePath(id, inner));
      }
    }
  }

  lemma StepSound(codec: Codec, inherited: set<string>, files: Files, op: Operation)
    requires Sound(files) && Perform(codec, inherited, files, op).Success?
    ensures Sound(Perform(codec, inherited, files, op).value.0)
  {
    match op
    case Delete(target) =>
      Addressing.ParsePrints(target);
      DeleteSound(codec, files, Addressing.Parse(target).value);
    case ReplaceSample(context, key, content) => RewriteSound(files, SamplePath(context, key), codec.json(content));
    case Rewrite(path, _, edit) => RewriteSound(files, path, edit(files[path]).value.0);
    case _ => CreateSound(codec, files, op);
  }

  /** Integrity survives any successful operation list, whatever it holds. */
  lemma {:induction false} RunSound(codec: Codec, inherited: set<string>, files: Files, ops: seq<Operation>, i: nat,
                                    records: seq<Record>)
    requires i <= |ops| && Sound(files)
    requires Run(codec, inherited, files, ops, i, records).Applied?
    ensures Sound(Run(codec, inherited, files, ops, i, records).files)
    decreases |ops| - i
  {
    if i < |ops| {
      StepSound(codec, inherited, files, ops[i]);
      var (next, made) := Perform(codec, inherited, files, ops[i]).value;
      RunSound(codec, inherited, next, ops, i + 1, records + made);
    }
  }

  // ---- Composition ----

  /** The outcome of a run that continues one with `records` after `count` operations. */
  function After(records: seq<Record>, count: nat, rest: Applied): Applied {
    match rest
    case Stopped(index, error) => Stopped(count + index, error)
    case Applied(files, more) => Applied(files, records + more)
  }

  lemma Associate(a: seq<Record>, b: seq<Record>, c: seq<Record>)
    ensures a + b + c == a + (b + c)
  {
  }

  /** A run over the tail of a list, where `second` is that tail. */
  lemma {:induction false} RunShifted(step: Step, files: Files, ops: seq<Operation>, at: nat,
                                      second: seq<Operation>, i: nat, before: seq<Record>, records: seq<Record>)
    requires i <= |second| && |ops| == at + |second| && forall k | 0 <= k < |second| :: ops[at + k] == second[k]
    ensures RunWith(step, files, ops, at + i, before + records) ==
            After(before, at, RunWith(step, files, second, i, records))
    decreases |second| - i
  {
    if i < |second| {
      match step(files, second[i])
      case Failure(_) =>
      case Success((next, made)) =>
        Associate(before, records, made);
        RunShifted(step, next, ops, at, second, i + 1, before, records + made);
    }
  }

  lemma {:induction false} RunHead(step: Step, files: Files, first: seq<Operation>, second: seq<Operation>, i: nat,
                                   records: seq<Record>)
    requires i <= |first|
    ensures RunWith(step, files, first + second, i, records) ==
            match RunWith(step, files, first, i, records)
            case Stopped(index, error) => Stopped(index, error)
            case Applied(middle, made) => RunWith(step, middle, first + second, |first|, made)
    decreases |first| - i
  {
    if i < |first| {
      assert (first + second)[i] == first[i];
      match step(files, first[i])
      case Failure(_) =>
      case Success((next, made)) => RunHead(step, next, first, second, i + 1, records + made);
    }
  }

  lemma RunJoined(step: Step, files: Files, first: seq<Operation>, second: seq<Operation>)
    ensures RunWith(step, files, first + second, 0, []) ==
            match RunWith(step, files, first, 0, [])
            case Stopped(index, error) => Stopped(index, error)
            case Applied(middle, made) => After(made, |first|, RunWith(step, middle, second, 0, []))
  {
    RunHead(step, files, first, second, 0, []);
    var head := RunWith(step, files, first, 0, []);
    if head.Applied? {
      assert head.records + [] == head.records;
      RunShifted(step, head.files, first + second, |first|, second, 0, head.records, []);
    }
  }

  /** Applying one list and then another to what it left is applying the two lists
      joined: same files, records concatenated, the same failing operation. */
  lemma RunsCompose(codec: Codec, inherited: set<string>, files: Files, first: seq<Operation>, second: seq<Operation>)
    ensures Run(codec, inherited, files, first + second, 0, []) ==
            match Run(codec, inherited, files, first, 0, [])
            case Stopped(index, error) => Stopped(index, error)
            case Applied(middle, made) => After(made, |first|, Run(codec, inherited, middle, second, 0, []))
  {
    RunJoined(Stepper(codec, inherited), files, first, second);
  }

  // ---- The plan ----

  lemma WriteIsVisible(base: Files, view: Files, plan: Plan, w: (string, string))
    requires PlanFor(base, view, plan) && w in plan.writes
    ensures Lookup(view, w.0) == Some(w.1) && w.0 in WritePaths(plan)
  {
    WritesDistinct(plan);
    WrittenIs(base, plan.writes, w.0);
    var i :| 0 <= i < |plan.writes| && plan.writes[i] == w;
    assert WritePaths(plan)[i] == w.0;
  }

  /** The plan writes exactly the files whose content differs, and deletes exactly the
      files that are gone. */
  lemma PlanIsDifference(base: Files, view: Files, plan: Plan)
    requires PlanFor(base, view, plan)
    ensures forall p, text :: (p, text) in plan.writes <==>
            Lookup(view, p) == Some(text) && Lookup(base, p) != Some(text)
    ensures forall p :: p in plan.deletes <==> p in base && p !in view
  {
    WritesDistinct(plan);
    forall p, text
      ensures (p, text) in plan.writes <==> Lookup(view, p) == Some(text) && Lookup(base, p) != Some(text) {
      if (p, text) in plan.writes {
        WriteIsVisible(base, view, plan, (p, text));
      } else if Lookup(view, p) == Some(text) {
        NotWritten(base, view, plan, p);
      }
    }
    forall p ensures p in plan.deletes <==> p in base && p !in view {
      if p in base && p !in view {
        NotWritten(base, view, plan, p);
      }
    }
  }

  lemma NotWritten(base: Files, view: Files, plan: Plan, path: string)
    requires PlanFor(base, view, plan)
    requires Lookup(view, path).None? || (path, Lookup(view, path).value) !in plan.writes
    ensures path !in plan.deletes ==> Lookup(view, path) == Lookup(base, path)
  {
    WritesDistinct(plan);
    forall w | w in plan.writes ensures w.0 != path {
      WriteIsVisible(base, view, plan, w);
    }
    WrittenIs(base, plan.writes, path);
  }

  /** So there is exactly one plan that meets the contract. */
  lemma PlanUnique(base: Files, view: Files, a: Plan, b: Plan)
    requires PlanFor(base, view, a) && PlanFor(base, view, b)
    ensures a == b
  {
    PlanIsDifference(base, view, a);
    PlanIsDifference(base, view, b);
    Order.AscendingUnique(a.deletes, b.deletes);
    forall p ensures p in WritePaths(a) <==> p in WritePaths(b) {
      SameWritePaths(base, view, a, b, p);
      SameWritePaths(base, view, b, a, p);
    }
    Order.AscendingUnique(WritePaths(a), WritePaths(b));
    forall i | 0 <= i < |a.writes| ensures a.writes[i] == b.writes[i] {
      assert WritePaths(a)[i] == WritePaths(b)[i];
      assert a.writes[i] in a.writes && b.writes[i] in b.writes;
      WriteIsVisible(base, view, a, a.writes[i]);
      WriteIsVisible(base, view, b, b.writes[i]);
    }
  }

  lemma SameWritePaths(base: Files, view: Files, a: Plan, b: Plan, p: string)
    requires PlanFor(base, view, a) && PlanFor(base, view, b)
    ensures p in WritePaths(a) ==> p in WritePaths(b)
  {
    if p in WritePaths(a) {
      var i :| 0 <= i < |a.writes| && WritePaths(a)[i] == p;
      assert a.writes[i] in a.writes;
      PlanIsDifference(base, view, a);
      PlanIsDifference(base, view, b);
      assert (p, a.writes[i].1) in a.writes;
      WriteIsVisible(base, view, b, (p, a.writes[i].1));
    }
  }
}
