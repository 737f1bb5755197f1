/** A compiled package: variables and how each one resolves, catalogs, lists and
    trace policies. */
module Package {
  import opened Prelude
  import opened Json
  import Cel

  type Id = string

  type Count = n: nat | n > 0 witness 1

  datatype Expression = Expression(source: string, ast: Cel.Expr)

  datatype SelectedValue =
    | LiteralValue(value: Json)
    | CatalogValue(catalog: string, name: string, value: Json)
    | CatalogValues(catalog: string, names: seq<string>, value: Json)

  datatype Rule = Rule(index: nat, when: Expression, value: SelectedValue)

  datatype Arm = Arm(name: string, start: nat, end: nat, value: SelectedValue)

  datatype Allocation = Allocation(
    layer: string, allocation: string, unit: Expression, buckets: Count, running: bool,
    eligibility: Option<Expression>, arms: seq<Arm>, default: SelectedValue)

  datatype Query = Query(
    catalog: string, single: bool, filter: Option<Expression>, sort: Option<Expression>,
    descending: bool, limit: Option<nat>, default: Option<SelectedValue>)

  datatype Resolution =
    | Rules(default: SelectedValue, rules: seq<Rule>)
    | ByQuery(query: Query)
    | ByAllocation(allocation: Allocation)

  datatype Package = Package(
    variables: map<Id, Resolution>,
    lists: map<Id, seq<Json>>,
    catalogs: map<string, map<string, Json>>,
    policies: seq<Expression>,
    provenance: map<Id, string>)

  datatype Error =
    | VariableNotFound(id: Id)
    | Cycle(id: Id)
    | UnknownList(id: Id)
    | EvaluationFailed(cause: Cel.EvalError)
    | NotBool
    | CatalogMissing(catalog: string)
    | NotComparable(id: Id)
    | NoMatch(id: Id)
    | ManyMatches(id: Id, count: nat)
      // Only the fuel-bounded semantics ends this way; resolution never does.
    | OutOfFuel

  datatype Source =
    | FromLiteral
    | FromCatalog(catalog: string, entry: string)
    | FromCatalogArray(catalog: string, entries: seq<string>)

  function SourceOf(selected: SelectedValue): Source {
    match selected
    case LiteralValue(_) => FromLiteral
    case CatalogValue(catalog, name, _) => FromCatalog(catalog, name)
    case CatalogValues(catalog, names, _) => FromCatalogArray(catalog, names)
  }

  datatype RuleTrace = RuleTrace(index: nat, condition: string, value: Json, source: Source, matched: bool)

  datatype AllocationTrace = AllocationTrace(
    layer: string, allocation: string, enrolled: bool, bucket: Option<nat>, arm: Option<string>)

  /** A resolved value with the explanation of how it came about. */
  datatype Trace = Trace(
    id: Id, value: Json, source: Source, defaultValue: Json, defaultSource: Source,
    rules: seq<RuleTrace>, allocation: Option<AllocationTrace>, provenance: Option<string>)

  function TraceFor(id: Id, selected: SelectedValue, default: SelectedValue, rules: seq<RuleTrace>): Trace {
    Trace(id, selected.value, SourceOf(selected), default.value, SourceOf(default), rules, None, None)
  }
}
