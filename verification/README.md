# rototo: resolution, inversion and editing, verified

rototo resolves typed configuration variables from a package: variables by rules, by
catalog query or by allocation, over a context of facts, with expressions that may
reference other variables. This project models the parts of it that are hard to get
right and proves what they are for. It is written for Dafny 4.11;
`dafny verify dfyconfig.toml` checks all of it.

What is modelled, and the main results:

- **Resolution** (`Cel`, `CelLaws`, `Package`, `Semantics`, `Binding`, `CycleDetection`,
  `Resolver`, `QueryPipeline`, `QueryMeaning`, `QueryAnswers`, `Traces`).
  `Resolver.ResolutionState` is the source's state object, with its cache and its set of
  ids in progress, and every one of its loops. It is proved against two meanings without
  a cache: `Semantics.Guarded`, which stops at an id in progress, and
  `Semantics.Fueled`, which follows references until fuel runs out. A cycle is reported
  exactly when the fuel-bounded meaning diverges for every fuel; otherwise the result is
  that meaning's value or error. A warm cache answers as a cold one. Batches agree with
  standalone calls. A sorted query returns the first entries in one strict total order,
  and the adjacent-pair check is exact. What each root of an expression reads, what a
  query answers from the entries that pass, and what a trace says are stated apart from
  the code that computes them.
- **What a resolution depends on** (`References`, `Occurrences`, `Dependence`,
  `Upcoming`). The static pass that collects references over-approximates what
  evaluation reads, through comprehension scopes and shadowing, and records only chains
  that stand free in it. Lifted to whole packages: contexts that agree along the
  recorded paths of a variable and everything it references give the same value, error
  and trace; binding only the collected variables is enough; and between two instants
  with no collected time boundary nothing changes.
- **Inversion** (`Contexts`, `Synthesis`, `SynthesisLimits`, `Invertibility`,
  `Fixtures`, `FixtureCases`). The merge of partial contexts is a least upper bound. A
  synthesised context forces its outcome in every deep extension, for shapes that are
  shown to be just the right ones leaf by leaf, and is found exactly when the shape's
  own condition holds, a common extension for a conjunction; condition variables compose
  to any depth; and the generated gate, default and firing contexts hit the case they
  are meant for, through the variables they reference.
- **Edits** (`Overlay`, `Paths`, `EditEngine`, `EditRuns`, `EditUndo`, `EditGuards`,
  `Toml`, `EntryFields`, `FieldUpdates`, `Rereading`, `FieldTargets`). The working tree
  refines a plain map, the plan is the exact difference, runs compose, and catalogs and
  contexts keep owning their files over any operation list. Deleting undoes creating,
  and two creations share a file exactly where their addresses do, one collision apart.
  Setting and unsetting a field commutes with the JSON view of the document, through
  tables, arrays of tables, inline tables and arrays, exactly when no array is indexed
  loosely; and what the written file holds afterwards is known too, down to the tables
  that only stood for the field.
- **Time** (`Civil`, `Rfc3339`, `Stamps`). Day counts and dates are inverse over all
  integers, printed stamps parse back, and the texts that parse, zones included, are
  exactly the stamps of their instants.
- **Texts that undo each other** (`Addressing`, `AddressGrammar`, `ContextArgs`,
  `CommandLine`). Addresses parse and print without loss; a printed `rototo resolve`
  command, split by a shell and read by the CLI, gives the same context back, with the
  exact condition on its keys.

`Prelude`, `Order`, `Text`, `Json` and `Decimal` hold what these share. Code that works
by updating fields or growing lists is a class or a method with the source's loops,
proved against a function; code made of expressions is functions. Parts that come from
outside are parameters: the hash behind `bucket` and the other registered functions
(`Cel.Host`), entry hydration (`World.view`), the instant (`World.now`), JSON and TOML
text (`Cli`, `Codec`, `Printer`) and the files an `@` argument names.

## Where the code does less than it promises

Each of these is proved with the condition under which the code does meet the promise,
and most with a concrete input as well.

- A context path is joined with dots and split again, so `context["a.b"]` is lost to
  inversion and to the recorded reads, and `has(context.x)` is inverted as if it were
  `context.x`, which is then there either way. A path is inverted rightly exactly when no
  segment holds a dot and there is no `has`, or only one around the whole of it where true
  is wanted (`PathInversionExact`). Comparisons, bucket tests and memberships in named
  lists have their own exact conditions: no dot, and no `has` unless presence alone
  settles the test as wanted (`CompareInversionExact`, `BucketInversionExact`,
  `NamedListExact`). Recorded reads are exact exactly for dot-free segments
  (`RecordedPathExact`).
- Membership in a list is inverted from the literal elements alone. With context chains
  among the elements that is right exactly when every chain is a prefix of the tested
  path, a proper one for a miss (`MixedListExact`, `MixedListMisread`).
- A chain into `variables.v` is driven as `variables.v`: right exactly when nothing is
  selected below `v`, and there is no `has` around it unless true is wanted
  (`VariableChainExact`; `variables.v.x` in `VariableFieldMisread`).
- A variable that resolves by allocation or by query passes as a condition without rules
  when its default is false, so asking for false asks nothing of the context. For an
  allocation that is right, whatever the hash, exactly when it is not running or no
  bucket is given anything else (`AllocationDriveExact`, `AllocationConditionMisread`);
  for a query that resolves, exactly when no entry passes its filter, its limit is zero,
  or it is single and the entry that comes first is itself `false` (`QueryDriveExact`,
  `QueryConditionMisread`).
- Instants outside years 0 to 9999 print but do not parse (`FormatParses`).
- Entry `b/c` of catalog `a` and entry `c` of catalog `a/b` are kept in one file, since
  catalog and key are only joined by a slash; no other two entities are
  (`CreationsShareExactly`, `NestedEntriesCollide`).
- An empty or subtree id is refused as a reference although the joined text parses
  (`BareIdResolves`).
- Array indices such as `007` and `+7` are accepted, which name nothing under section 4
  of RFC 6901. An edit is the JSON update exactly when no array on the way is indexed so
  (`SetExact`, `UnsetExact`, `LooseIndexAccepted`).
- Setting an absent field and unsetting it again restores the entry exactly when the
  field's parent was there, or the field is a table whose first missing parent was made
  as a standard table, since those vanish with it (`FieldUndoneExactly`).
- The path form of a context comes back exactly when its keys are clean
  (`PathFormRebuildsExactly`). A top-level key starting with `@` is read as a file, and
  one starting with `{` as JSON (`AtKeyReadsAFile`, `BraceKeyReadsJson`).
- A word that starts with a dash, such as `-x=1` for the context `{"-x": 1}`, is refused
  as an option, so the printed command comes back exactly when neither its source, its
  id nor, in the path form, a top-level key looks like one (`CommandRoundTrip`,
  `DashedKeyRefused`).
- A window test with `env.now` as a bound is not collected as a time boundary. What is
  collected is all there is exactly when the clock is the tested instant, or both bounds
  or neither, or when the other bound keeps the window shut (`WindowsCollectedExactly`,
  `ClockAsWindowStartMissed`, `ClockAsWindowEndMissed`).

## Model

| member | source | states |
|---|---|---|
| Resolver.ResolutionState.ResolveVariableValue | src/resolve.rs:563-579 | a reference resolves to its uncached guarded meaning; ids in progress are restored on success and on error; the cache only grows and stays faithful |
| Resolver.CacheGrows | src/resolve.rs:573-577 | adding a resolved value keeps every cached value equal to its meaning under any ids in progress outside the cache |
| Resolver.ResolutionState.BindVariables | src/expression/eval.rs:30-38 | eager binding of every referenced variable in id order; the first failure stops it; settled the same way whatever else is in progress |
| Resolver.ResolutionState.EvaluateValue | src/expression/eval.rs:5-58 | evaluation after binding variables and lists equals the uncached evaluation |
| Resolver.ResolutionState.EvaluateCondition | src/resolve.rs:382-387 | a condition must be a boolean; otherwise an error |
| Resolver.ResolutionState.ResolveRules | src/resolve.rs:296-335 | rules run in order, the first match wins, the trace lists exactly the rules tried |
| Resolver.ResolutionState.KeepEntry | src/resolve.rs:407-412 | the filter's verdict on one entry, an error when it has none |
| Resolver.ResolutionState.FilterEntries | src/resolve.rs:405-416 | the kept entries in name order; an entry that cannot be judged fails the query |
| Resolver.ResolutionState.SortKeys | src/resolve.rs:418-424 | one evaluated key for each match, in order |
| Resolver.ResolutionState.ArrangeMatches | src/resolve.rs:418-445 | comparability check, stable sort, reversal and truncation together |
| Resolver.ResolutionState.ResolveQuery | src/resolve.rs:388-486 | the whole query, with its single, empty and default cases |
| Resolver.ResolutionState.PickArm | src/resolve.rs:251-257 | the arm of least index whose inclusive range holds the bucket, exactly when some arm's does |
| Resolver.ResolutionState.ResolveAllocation | src/resolve.rs:230-295 | only a running allocation enrols, only an eligible unit; otherwise the default |
| Resolver.ResolutionState.ResolveTrace | src/resolve.rs:207-229 | the full trace of a variable in any valid state is the uncached trace |
| Resolver.ResolutionState.EvaluatePolicies | src/resolve.rs:51-71 | the indices of exactly the trace policies that hold, evaluated in the same state |
| Resolver.ResolveVariable | src/resolve.rs:93-101 | a single resolution is the standalone value, source and error |
| Resolver.ResolveVariableTraced | src/resolve.rs:32-50 | the trace is captured exactly when the app asked or a policy holds |
| Resolver.TraceEach | src/resolve.rs:158-180 | each call against one warm state answers as a fresh state would, whatever ran or failed before |
| Resolver.TraceOutcomes | src/resolve.rs:158-180 | the lenient batch: every id in order with its standalone trace or error |
| Resolver.TraceAll | src/resolve.rs:182-197 | the strict batch: all standalone traces, or the error of the first failing id in key order |
| Resolver.ResolveAll | src/resolve.rs:129-145 | the strict batch of values, with the same success and the same error |
| Resolver.StrictBatchDetermined | src/resolve.rs:129-197 | the strict batch succeeds exactly when every lenient outcome does, and its traces or error are then unique |
| Traces.RulesTraceTells | src/resolve.rs:296-335 | the first rule that is not simply false decides: the value, its source and the default are told, the rules up to it listed, the last alone as matched; one without a verdict fails with its error |
| Traces.QueryTraceTells | src/resolve.rs:207-229 | a query's trace tells what was selected and the declared default, or null |
| Traces.AllocationTraceTells | src/resolve.rs:230-287 | a unit is enrolled exactly when the allocation runs and it is eligible; its bucket is its hash in the layer, and the first arm that holds it gives the value |
| Traces.LayerExcludes | src/resolve.rs:289-294 | two allocations of one layer see a unit in the same bucket, so with arms apart it gets an arm of at most one |
| Traces.CapturesExactly | src/resolve.rs:51-71 | the policies that capture are exactly those true with the resolved variable as their target, ascending |
| Traces.PolicyFails | src/resolve.rs:51-71 | a policy without a verdict fails the capture with the error of the first |
| CycleDetection.CycleDetectionExact | src/resolve.rs:563-579 | a cycle is reported exactly when the unguarded meaning diverges for every fuel, for an id that diverges; otherwise the result is that meaning, reached within the number of declared ids plus one |
| CycleDetection.StandaloneExact | src/resolve.rs:199-229 | the same for a top-level trace, which does not guard its own id |
| CycleDetection.GuardedBlocksOnCycle | src/resolve.rs:563-572 | when the guard blocks, the named id is one whose unguarded meaning never settles |
| Semantics.MoreFuel | src/resolve.rs:563-579 | more fuel changes no settled answer |
| Semantics.FuelSettlesGuarded | src/resolve.rs:563-579 | what fuel settles, the guard settles the same way |
| Semantics.GuardedSettlesFuel | src/resolve.rs:563-579 | what the guard settles, as much fuel as there are ids left settles the same way |
| QueryPipeline.CheckComparable | src/resolve.rs:425-432 | the loop over adjacent pairs, against its predicate |
| QueryPipeline.AdjacentCheckExact | src/resolve.rs:501-507 | the adjacent check passes exactly when there is at most one key, or all are numbers, or all are strings |
| QueryPipeline.StableSortStrict | src/resolve.rs:433 | a stable sort of name-ordered entries orders strictly by key, then name |
| QueryPipeline.StrictUnique | src/resolve.rs:433 | there is only one strict order of the same entries |
| QueryPipeline.ArrangedIsTopK | src/resolve.rs:418-445 | the names are the first `limit` in that order, or of its exact reverse |
| QueryPipeline.KeptPrecedeDropped | src/resolve.rs:433-445 | whatever is kept comes before whatever the limit drops |
| QueryPipeline.SortedSingleYieldsHead | src/resolve.rs:433-468 | a sorted single query yields the least entry, or the greatest when descending, with its name injected as `id` |
| QueryMeaning.MatchesArePassing | src/resolve.rs:405-416 | the filter keeps exactly the entries it answers true for |
| QueryMeaning.UnjudgedFails | src/resolve.rs:405-416 | one entry the filter cannot judge fails the query, wherever it stands |
| QueryMeaning.SortedQueryExact | src/resolve.rs:388-486 | a sorted query end to end: keys of mixed kinds fail it; otherwise a strict order of the kept entries exists and the query selects from it |
| QueryMeaning.PicksFirst | src/resolve.rs:405-445 | the picked names start with the passing entry that leads all others, by name or by key and name, and there are none exactly when nothing passes or the limit is zero |
| QueryAnswers.CandidatesAre | src/resolve.rs:405-416 | every entry is judged once, through its own hydrated view, and passes where there is no filter or the filter is true of it |
| QueryAnswers.QueryAnswersExactly | src/resolve.rs:388-486 | the passing entries stand in one order; the answer is the first of them up to the limit: one entry, a list with each entry under its own id, the default where there are none, or the two errors of a single query |
| QueryAnswers.SingleUnsortedExact | src/resolve.rs:447-468 | a single unsorted query fails with the count exactly when more than one entry is let through, with no match exactly when none is and there is no default, and otherwise gives the default or the entry |
| QueryAnswers.FirstUnjudgedDecides | src/resolve.rs:405-416 | an entry that cannot be judged fails the query with the error of the first |
| Semantics.BindBinds | src/expression/eval.rs:30-38 | the bound map holds exactly the referenced ids with their resolved values |
| Binding.ContextMeans | src/expression/eval.rs:16 | a context path reads the facts along it |
| Binding.EntryMeans | src/expression/eval.rs:17 | an entry path reads the entry being judged; outside a query there is nothing to read |
| Binding.NowMeans | src/expression/eval.rs:19-28 | `env.now` is the instant of the resolution |
| Binding.ResolvingMeans | src/expression/eval.rs:25-27 | `env.resolving.variable` names the variable being resolved, and is missing except in trace policies |
| Binding.VariableMeans | src/expression/eval.rs:30-38 | a variable reference is what looking it up gives, its error included |
| Binding.MembershipMeans | src/expression/eval.rs:40-47 | a membership in a named list asks for one of the declared members; an undeclared list is an error |
| Binding.ConditionExact | src/resolve.rs:382-387 | a verdict is exactly a boolean value; any other is an error |
| Binding.FirstFailureDecides | src/expression/eval.rs:33-38 | the first referenced variable, in id order, that fails decides the error |
| CelLaws.ComparisonsExact | docs/src/expressions.md:139-153 | numbers compare by value, texts by their first difference, false before true, and mixed kinds fail except under equality |
| CelLaws.ConnectivesExact | docs/src/expressions.md:139-153 | a conjunction is false where any operand is, whatever the others do, and true where all are; a disjunction mirrors it |
| CelLaws.QuantifierExact | docs/src/expressions.md:150-155 | a quantifying loop over a list or an object's keys is decided by the first value whose body turns it or fails |
| References.Collector.Collect | src/expression/references.rs:14-77 | the mutating pass adds exactly what the specification collects and leaves the stack of bound names as it was |
| References.Collector.CollectComprehension | src/expression/references.rs:14-77 | comprehension scopes are pushed for the loop and popped afterwards |
| References.ChainWalks | src/expression/references.rs:195-217 | a chain evaluates to what walking its segments finds, with the error of the step that fails |
| References.ChainAgrees | src/expression/references.rs:195-217 | `has` around a chain is settled by where the walk leads |
| References.ReadsCovered | src/expression/references.rs:14-77 | environments that agree along every recorded read evaluate the expression alike, scoping and shadowing included |
| Occurrences.ReadsOccur | src/expression/references.rs:14-77 | every recorded read stands for a chain in the expression whose root nothing around it binds |
| Occurrences.ChainRecorded | src/expression/references.rs:130-190 | a free chain is recorded as what its root says, bad roots included, and nothing else is |
| Dependence.AlikeResolveAlike | src/resolve.rs:207-229 | worlds whose expressions mean the same over a reference-closed set resolve all of it with the same value, error and trace |
| Dependence.ContextMattersOnlyAlongReads | src/expression/references.rs:3-77 | a resolution depends on the context only along the recorded paths of the variable and all it references |
| Dependence.EagerBindingSuffices | src/expression/eval.rs:30-38 | binding the collected variables gives what binding any more of them would |
| Upcoming.CollectBoundaries | src/expression/upcoming.rs:46-68 | the recursive pass appends exactly the specified boundaries in order |
| Upcoming.BoundaryOccurs | src/expression/upcoming.rs:46-106 | every collected boundary is the instant of a test of the clock in the expression, under that test's name |
| Upcoming.TimeFunctionsTell | src/expression/eval.rs:212-226 | the time functions compare instants in nanoseconds, whatever zone each stamp is written in |
| Upcoming.WindowTells | src/expression/eval.rs:228-231 | a window holds the instants from its start up to its end |
| Upcoming.TimeFunctionsCohere | src/expression/eval.rs:212-226 | before and after mirror each other, each is the opposite of its inclusive counterpart, both spellings answer alike |
| Upcoming.WindowIsBoth | src/expression/eval.rs:228-231 | a window holds exactly the instants at or after its start and before its end |
| Upcoming.ClockSettles | src/expression/upcoming.rs:46-106 | an expression that reads the clock only in collected tests keeps its value or error between boundaries |
| Upcoming.NothingChangesBetweenBoundaries | src/expression/upcoming.rs:22-31 | a variable and all it references resolve alike at two instants with no collected boundary between them |
| Upcoming.BoundaryFlips | src/expression/upcoming.rs:70-90 | a collected two-argument test does change at its boundary |
| Upcoming.WindowEvaluates | src/expression/eval.rs:228-231 | a window over the clock and readable instants evaluates to whether the tested instant lies in it |
| Upcoming.WindowEdgesFlip | src/expression/upcoming.rs:51-56 | both collected edges flip a window exactly when it is not empty |
| Upcoming.WindowsCollectedExactly | src/expression/upcoming.rs:51-56 | a window keeps its answer between its own collected boundaries exactly when the clock is the tested instant, is both bounds or neither, or the other bound keeps the window shut |
| Upcoming.ClockAsWindowStartMissed | src/expression/upcoming.rs:51-56 | with the clock as start nothing is collected, and a window that can be open closes at the tested instant |
| Upcoming.ClockAsWindowEndMissed | src/expression/upcoming.rs:51-56 | with the clock as end nothing is collected, and a window that can open opens after the tested instant |
| Contexts.MergeObjects | src/expression/synthesize.rs:359-376 | the in-place merge loop gives the merge, or fails exactly when it is undefined |
| Contexts.MergeIsLeastUpperBound | src/expression/synthesize.rs:352-376 | the merge succeeds exactly when the contexts have a common deep extension, and is the least one |
| Contexts.MergeIdempotent | src/expression/synthesize.rs:352-376 | merging a context with itself changes nothing |
| Contexts.MergeCommutes | src/expression/synthesize.rs:352-376 | order does not matter |
| Contexts.MergeAssociates | src/expression/synthesize.rs:352-376 | grouping does not matter, failures included |
| Contexts.MergeAllBounds | src/fixtures/context_factory.rs:229-235 | a merged sequence extends each of its contexts |
| Contexts.InsertNests | src/expression/synthesize.rs:319-346 | inserting at a path into an empty context nests the value, and fails exactly on an empty segment |
| Contexts.NestWalks | src/expression/synthesize.rs:319-346 | in every extension the path leads to the inserted scalar |
| Contexts.DottedPathMisses | src/expression/synthesize.rs:319-346 | a dotted key is lost: the split path stops where the key was |
| Synthesis.MergeOperands | src/expression/synthesize.rs:72-89 | the conjunction loop gives the merge of all operands' contexts, or nothing |
| Synthesis.FirstOperand | src/expression/synthesize.rs:72-89 | the disjunction loop gives the first operand that can be inverted |
| Synthesis.BucketScan | src/expression/synthesize.rs:158-177 | the candidate loop against its specification |
| Synthesis.BucketKeyExact | src/expression/synthesize.rs:158-177 | a key is found exactly when some candidate falls inside or outside the range as wanted |
| Synthesis.EqualityForces | src/expression/synthesize.rs:95-103 | the context for an equality or inequality forces it |
| Synthesis.OrderingForces | src/expression/synthesize.rs:108-127 | the stepped value forces an ordering, in either operand order |
| Synthesis.MembershipForces | src/expression/synthesize.rs:132-154 | a member, or a value outside the list, forces a membership test |
| Synthesis.BucketForces | src/expression/synthesize.rs:158-177 | the found key forces the bucket test |
| Synthesis.SynthesisForces | src/expression/synthesize.rs:26-176 | a synthesised context drives an expression of invertible shape to the wanted outcome in every deep extension where what it references is resolved; where one operand is enough, only those the inversion may settle on need that shape |
| SynthesisLimits.PathInversionExact | src/expression/synthesize.rs:26-44 | inverting a context path is right exactly when no segment holds a dot and there is no `has`, or only one around the whole path where true is wanted |
| SynthesisLimits.CompareInversionExact | src/expression/synthesize.rs:91-127 | inverting a comparison with a literal is right exactly when the path is dot-free and has no `has`, or is wholly under one in an equality that presence settles as wanted |
| SynthesisLimits.NamedListExact | src/expression/synthesize.rs:132-154 | inverting a membership in a named list is right exactly when the list itself is named, the path is dot-free and has no `has`, or is wholly under one and presence is in the list as wanted |
| SynthesisLimits.BucketInversionExact | src/expression/synthesize.rs:158-177 | inverting a bucket test is right exactly when the path is dot-free and has no `has`, or is wholly under one and presence falls as wanted |
| SynthesisLimits.MixedListExact | src/expression/synthesize.rs:132-154 | inverting a membership among literals and context chains is right exactly when the path is dot-free and every chain is a prefix of it, a proper one for a miss |
| SynthesisLimits.VariableChainExact | src/expression/synthesize.rs:32-34 | driving the variable of a chain is right exactly when the chain is the variable itself, without `has` unless true is wanted |
| Invertibility.AllOperandsInvert | src/expression/synthesize.rs:72-85 | a junction that needs all its operands is inverted exactly when each is and some object carries all their contexts, and then by the least such |
| Invertibility.OneOperandInverts | src/expression/synthesize.rs:86-89 | one that needs a single operand is inverted exactly when some operand is, as the first that is |
| Invertibility.NegationInverts | src/expression/synthesize.rs:53 | a negation is inverted as its operand for the opposite outcome |
| Invertibility.PathInverts | src/expression/synthesize.rs:36-39 | a context path is inverted exactly when its text has no empty segment |
| Invertibility.ComparisonInverts | src/expression/synthesize.rs:91-127 | a comparison is inverted, for either outcome, exactly when it compares such a path with a literal of a fitting kind, in either order |
| Invertibility.OrderingStepsLeast | src/expression/synthesize.rs:108-127 | of all numbers that give the wanted outcome the chosen one is closest to the literal |
| Invertibility.MembershipInverts | src/expression/synthesize.rs:132-154 | a membership is inverted exactly when the list has a member, or leaves one of the spare values out, as wanted |
| Invertibility.BucketInverts | src/expression/synthesize.rs:158-177 | a bucket test is inverted exactly when some candidate falls as wanted |
| Invertibility.OthersRefused | src/expression/synthesize.rs:26-45 | nothing else is inverted |
| SynthesisLimits.RecordedPathExact | src/expression/references.rs:130-149 | a recorded dotted path stands for the chain exactly when no segment holds a dot |
| Fixtures.ConditionsCompose | src/fixtures/context_factory.rs:88-155 | a driven condition variable never resolves to the opposite value, in any extension, at any depth of references, where whatever it drives in turn resolves by rules of invertible shape for the value wanted of it, or is an allocation that gives nothing but false |
| Fixtures.DrivenVariableStandsAlone | src/fixtures/context_factory.rs:115-155 | the same for a top-level resolution |
| FixtureCases.ConditionsAre | src/fixtures/context_factory.rs:89-113 | the condition variables are those that default to false and whose rules all yield true, with the conditions of their rules |
| FixtureCases.DriveExact | src/fixtures/context_factory.rs:115-155 | one is driven to true exactly when some condition can be, to false exactly when all can be together, and never through itself |
| Fixtures.RuleLessDrive | src/fixtures/context_factory.rs:89-154 | a variable without rules and with a false default is driven to false by the empty context, and never to true |
| Fixtures.AllocationStaysFalse | src/fixtures/context_factory.rs:89-113 | an allocation that is not running, or gives no bucket anything else, keeps its false default in every context |
| Fixtures.AllocationDriveExact | src/fixtures/context_factory.rs:89-113 | for an eligible unit that is exactly when driving it to false is right under every hash |
| Fixtures.QueryDriveExact | src/fixtures/context_factory.rs:89-113 | a query that resolves and is driven to false is false exactly when no entry passes its filter, its limit is zero, or it is single and the entry that leads all others in its order is raw false |
| Fixtures.QueryConditionMisread | src/fixtures/context_factory.rs:89-113 | a query over one entry without a filter is driven to false by the empty context and is not false |
| Fixtures.PushVariableContexts | src/fixtures/context_factory.rs:157-214 | the candidate contexts in order: eligibility both ways, the default, then each rule bare and with earlier rules false |
| Fixtures.GateContextsHit | src/fixtures/context_factory.rs:173-188 | in any extension of a gate context the unit is eligible, or is not and gets the default without enrolling, as wanted, whatever resolving variables the gate references |
| Fixtures.PushRuleContexts | src/fixtures/context_factory.rs:195-213 | the two contexts of one rule |
| Fixtures.MergeContexts | src/fixtures/context_factory.rs:229-235 | the loop gives the merge of all, or nothing on a missing or conflicting one |
| FixtureCases.CandidatesAre | src/fixtures/context_factory.rs:157-214 | a variable's candidates are its gate both ways, its default and each rule's two contexts, those that exist and no others |
| FixtureCases.DefaultContextExact | src/fixtures/context_factory.rs:190-193 | there is a default context exactly when all rules can be false together |
| FixtureCases.FiringContextExact | src/fixtures/context_factory.rs:195-213 | there is a firing context exactly when the rule can be true while all earlier ones are false |
| Fixtures.DefaultContextHits | src/fixtures/context_factory.rs:190-193 | in any extension of the default context every rule is tried, none matches, and the default is chosen, whatever resolving variables the rules reference |
| Fixtures.FiringContextHits | src/fixtures/context_factory.rs:195-213 | in any extension of a firing context exactly the rules up to it are tried, only it matches, and its value is chosen, whatever resolving variables they reference |
| Civil.DaysRoundTrip | src/predicate.rs:114-147 | every day count has a valid date that counts back to it |
| Civil.DatesRoundTrip | src/predicate.rs:114-147 | every valid date comes back from its day count |
| Civil.CountsDays | src/predicate.rs:99-125 | the calendar's next day counts one more |
| Civil.EpochIsZero | src/predicate.rs:114-125 | 1970-01-01 is day 0 |
| Rfc3339.ParseDigits | src/predicate.rs:84-93 | the digit loop reads the decimal value, or refuses |
| Rfc3339.ParseFraction | src/predicate.rs:33-56 | the fraction loop reads one to nine digits as nanoseconds, and refuses none or more |
| Rfc3339.FormatRfc3339 | src/predicate.rs:158-173 | the printer pushes exactly the specified stamp |
| Rfc3339.FormatParses | src/predicate.rs:9-173 | a printed instant parses to exactly itself precisely when its year is 0 to 9999 |
| Rfc3339.ReprintKeepsInstant | src/predicate.rs:9-173 | reprinting any accepted stamp keeps its instant precisely when the UTC year is 0 to 9999 |
| Stamps.ParseExact | src/predicate.rs:9-97 | a text parses to an instant exactly when it is a valid date and time of day, an optional fraction and a zone, and the instant is the clock's local seconds less the zone's lead |
| Stamps.FormatCanonical | src/predicate.rs:158-173 | the printer writes the stamp in UTC with no zero at the end of its fraction |
| Addressing.CheckPointer | src/address.rs:441-461 | the scan accepts exactly pointers whose every `~` is an escape |
| Addressing.ValidateAddress | src/address.rs:186-252 | the loop over steps finds the first misnested one, and refuses a pointer into an entity without a document |
| Addressing.ParseAddress | src/address.rs:146-184 | the parser loop against its specification, error for error |
| Addressing.Render | src/address.rs:287-304 | the printer loop joins steps and pointer |
| Addressing.ParsePrints | src/address.rs:145-304 | a parsed address prints as the text it came from |
| Addressing.PrintParses | src/address.rs:145-304 | every valid address reparses to itself |
| Addressing.AtMostTwoSteps | src/address.rs:186-252 | a valid address has at most two steps |
| AddressGrammar.IdsExact | src/address.rs:415-439 | an id is lower-case letters, digits and underscores with single slashes between |
| AddressGrammar.ShapesExact | src/address.rs:186-252 | an address is one entity, namespace or slot at the root, or one in a catalog or context, and a pointer only goes into an entity's document |
| Addressing.BareIdResolves | src/address.rs:321-386 | a bare id against an open slot resolves to the parse of the joined texts, failures coinciding, precisely unless it is empty or a subtree |
| Addressing.FragmentResolves | src/address.rs:321-386 | a fragment resolves to the parse of the base with its pointer replaced, failures coinciding |
| Addressing.AbsoluteResolves | src/address.rs:321-349 | every valid address, printed, is a reference that resolves to itself whatever the base |
| Overlay.WorkingTree.constructor | src/edit/engine.rs:346-351 | a fresh working tree shows the base |
| Overlay.WorkingTree.Exists | src/edit/engine.rs:353-358 | whether the path is live in the working view |
| Overlay.WorkingTree.Content | src/edit/engine.rs:360-365 | the live text, if any |
| Overlay.WorkingTree.Write | src/edit/engine.rs:367-369 | a write updates the view at one path and nothing else |
| Overlay.WorkingTree.Delete | src/edit/engine.rs:371-373 | a delete removes one path from the view and nothing else |
| Overlay.WorkingTree.PathsUnder | src/edit/engine.rs:376-394 | the ascending list of exactly the live paths under the prefix |
| Overlay.WorkingTree.IntoPlan | src/edit/engine.rs:405-422 | carrying the plan out on the base gives exactly the view, with no idle write, no idle delete and no path in both lists |
| EditRuns.PlanIsDifference | src/edit/engine.rs:405-422 | the plan writes exactly the files that differ and deletes exactly those that are gone |
| EditRuns.PlanUnique | src/edit/engine.rs:405-422 | only one plan meets that contract |
| EditEngine.CheckMembers | src/edit/create.rs:116-169 | list members are scalars without repetition |
| EditEngine.CreateEntity | src/edit/create.rs:15-267 | a creation refuses bad ids, missing owners and taken paths, in the source's order, and otherwise writes its document and record; a context also gets a default sample |
| EditEngine.ReplaceSampleFile | src/edit/create.rs:269-298 | only an existing sample is replaced, with its old JSON recorded |
| EditEngine.RewriteDocument | src/edit/engine.rs:398-403 | an edit of one existing document writes that document only, and a failed one writes nothing |
| EditEngine.DeleteDocument | src/edit/create.rs:421-458 | one document goes, with its old content recorded |
| EditEngine.DeleteListed | src/edit/create.rs:349-362 | one listed file of a cascade goes, with a record when it is a document |
| EditEngine.DeleteEach | src/edit/create.rs:349-362 | exactly the listed files go, with records in path order |
| EditEngine.DeleteOwned | src/edit/create.rs:340-401 | a schema and everything below its directory go |
| EditEngine.DeleteTarget | src/edit/create.rs:300-419 | the delete of each kind of address, and the refusals |
| EditEngine.EnsureOwned | src/edit/engine.rs:288-298 | the first inherited address refuses the operation |
| EditEngine.ApplyOperation | src/edit/engine.rs:34-284 | one operation does to the tree what its specification does to the view; a failure leaves it unchanged |
| EditEngine.Apply | src/edit/engine.rs:15-32 | a list runs in order, stops at the first failure with its index, and otherwise yields the plan and all records |
| EditRuns.CatalogCascadeSound | src/edit/create.rs:340-364 | deleting a catalog leaves every remaining data file owned by a live catalog, nested catalogs included |
| EditRuns.ContextCascadeSound | src/edit/create.rs:377-401 | the same for a context and its samples |
| EditRuns.RunSound | src/edit/engine.rs:15-32 | after any successful operation list every data file belongs to a live catalog and every sample to a live context |
| EditRuns.RunsCompose | src/edit/engine.rs:15-32 | two lists in turn do what the joined list does, records concatenated, failures at the same operation |
| EditUndo.DeleteUndoesCreate | src/edit/create.rs:15-419 | deleting the address a creation recorded gives back exactly the former files, where the new entity had nothing waiting for it, with a record for each of the creation's |
| EditUndo.CreationsShareExactly | src/edit/paths.rs:19-53 | two creations make a file in common exactly when their records share an address, or both are entries whose catalog and key read the same once joined |
| EditUndo.NestedEntriesCollide | src/edit/paths.rs:39-41 | entry `b/c` of catalog `a` and entry `c` of catalog `a/b` have different addresses and one file |
| EditGuards.CreationExact | src/edit/create.rs:15-267 | a creation goes through exactly when its ids are valid, what it says is in order, its owner is there, its file is not, and nothing of it is inherited |
| EditGuards.CreationWrites | src/edit/create.rs:15-267 | it records its kind, address and value, and writes that |
| EditGuards.StarterExact | src/edit/create.rs:171-199 | a new context gets an empty default sample unless one is there |
| EditGuards.ReplacementExact | src/edit/create.rs:269-298 | a replacement changes the one file that sample's creation would make, which has to be there, and records what it held |
| EditGuards.DeletionExact | src/edit/create.rs:300-419 | a deletion goes through exactly when the entity's file is there and nothing of it is inherited, and takes exactly the files that go with it |
| EditGuards.OnlyEntitiesDeleted | src/edit/create.rs:300-340 | nothing but the address of such an entity can be deleted |
| EditGuards.CatalogRecordsExact | src/edit/create.rs:340-364 | deleting a catalog records it, then exactly its entry documents, each under its key and with what it held |
| Toml.ValueFromJsonExact | src/edit/value.rs:8-43 | a JSON value converts exactly when it holds no null, and converts back to itself |
| Toml.ItemFromJsonExact | src/edit/value.rs:45-57 | the same for items, where objects become tables |
| EntryFields.AssignCommutes | src/edit/entry.rs:226-306 | assigning the last segment is the JSON update, or fails on null, a whole array of tables, or a bad parent; only an array index must be well written |
| EntryFields.AssignPlaces | src/edit/entry.rs:237-306 | an object becomes a table of its own where the key is new or was one, and a plain value otherwise |
| EntryFields.SetCommutes | src/edit/entry.rs:87-109 | where no array is indexed loosely, setting a field succeeds exactly when the JSON pointer can be set, the value has no null and no array of tables is replaced; the document then projects to the JSON update, and `before` is the old projection |
| EntryFields.LooseNamesNothing | src/edit/entry.rs:308-320 | at a pointer with a loosely written index there is nothing to read, set or remove in the JSON view |
| EntryFields.SetExact | src/edit/entry.rs:87-109 | a successful set is the JSON update exactly when no array on the way is indexed loosely |
| EntryFields.RemoveCommutes | src/edit/entry.rs:124-146 | removing the last segment removes exactly that object field |
| EntryFields.UnsetCommutes | src/edit/entry.rs:111-154 | where no array is indexed loosely, unsetting succeeds exactly when an object field is there, and removes exactly it |
| EntryFields.UnsetExact | src/edit/entry.rs:111-154 | a successful unset is the JSON removal exactly when no array on the way is indexed loosely |
| FieldUpdates.SetThenGet | src/edit/entry.rs:87-109 | the value set is the value read back |
| FieldUpdates.SetWhere | src/edit/entry.rs:156-224 | a value can be set exactly where nothing on the way is a scalar or an array without the element asked for |
| FieldUpdates.UnsetWhere | src/edit/entry.rs:111-154 | a value can be removed exactly where it is there, in an object |
| FieldUpdates.SetLeavesOthers | src/edit/entry.rs:87-109 | every pointer neither above nor below the edited one is unchanged, present or absent |
| FieldUpdates.UnsetThenGet | src/edit/entry.rs:111-154 | the field is there before and gone after |
| FieldUpdates.UnsetLeavesOthers | src/edit/entry.rs:111-154 | other pointers are unchanged |
| FieldUpdates.SetBackUndoes | src/edit/entry.rs:231-235 | setting the recorded `before` back restores the document |
| FieldUpdates.UnsetUndoesExactly | src/edit/entry.rs:180-190 | in the document before it is written, unsetting undoes an addition exactly when the parent was already there |
| FieldUpdates.EntryDocument.SetField | src/edit/entry.rs:87-109 | the document object: a failed edit changes nothing; a successful one is the JSON update, with the old value returned, exactly when no array is indexed loosely |
| FieldUpdates.EntryDocument.UnsetField | src/edit/entry.rs:111-154 | the same for removal |
| FieldUpdates.LooseIndexAccepted | src/edit/entry.rs:308-320 | `01` and `+1` are taken as indices though they name nothing in the JSON view |
| Rereading.ViewKept | src/edit/value.rs:89-96 | writing and reading again a document in which every table shows changes nothing in its view |
| Rereading.RereadShows | src/edit/value.rs:163-167 | in a document that was read every table shows |
| Rereading.SetShows | src/edit/entry.rs:180-197 | after a set every table shows, those made on the way included |
| Rereading.UnsetPrunes | src/edit/entry.rs:111-154 | an unset leaves in the file the view without the field and without every table that only stood for it |
| Rereading.UndoneExactly | src/edit/entry.rs:180-197 | setting an absent field, writing, reading and unsetting it restores the view exactly when the parent was there, or the field is a table and the first parent made was a standard table |
| FieldTargets.TwoPassesAreOne | src/edit/entry.rs:70-73 | the two replacement passes decode what one pass does, on every text |
| FieldTargets.OrderOfPassesMatters | src/edit/entry.rs:70-73 | in the other order `~01` would be decoded wrongly |
| FieldTargets.SegmentsRoundTrip | src/edit/entry.rs:70-73 | every list of segments has a valid pointer, which decodes to it |
| FieldTargets.PointerRoundTrip | src/edit/entry.rs:70-73 | every valid pointer is the one its segments print as |
| FieldTargets.EveryFieldHasATarget | src/edit/entry.rs:41-85 | each field of each entry has a target text that parses to it |
| FieldTargets.TargetsAreCanonical | src/edit/entry.rs:41-85 | a parsed target is the text of its own catalog, key and segments, none of them empty |
| FieldTargets.SetFieldEdits | src/edit/entry.rs:87-109 | as an operation of the engine: it goes through exactly when the entry is owned, there, readable and settable; the entry's view in the new file is then the JSON update exactly when no array is indexed loosely, no other file changes, and the record holds the old value |
| FieldTargets.UnsetFieldEdits | src/edit/entry.rs:111-154 | the same for removal, which also takes the tables that only stood for the field |
| FieldTargets.FieldUndoneExactly | src/edit/entry.rs:87-154 | when the two operations in turn restore the entry's view |
| ContextArgs.CollectLeaves | src/fixtures/render.rs:84-100 | the recursive push gives the leaves in key order |
| ContextArgs.TokenReads | src/fixtures/render.rs:107-118 | a rendered value reads back as itself, JSON-looking strings included |
| ContextArgs.MergeObjects | src/cli/context.rs:97-114 | the in-place loop is the deep merge in which the source wins |
| ContextArgs.SourceWins | src/cli/context.rs:97-114 | everything the later argument says holds in the merge |
| ContextArgs.TargetKept | src/cli/context.rs:97-114 | where it says nothing, what was there before stays |
| ContextArgs.StartsObjectExact | src/cli/context.rs:25-27 | an argument is read as JSON when a brace comes first, after any white space |
| ContextArgs.ParseContext | src/cli/context.rs:5-12 | the fold over parts, stopping at the first bad one |
| ContextArgs.ArgumentParses | src/cli/context.rs:14-84 | a rendered leaf parses to the leaf nested at its path |
| ContextArgs.MergeSplit | src/cli/context.rs:97-114 | merging an object in two disjoint halves at one path is merging it whole |
| ContextArgs.PathFormRebuildsExactly | src/fixtures/render.rs:60-118 | where the arguments are assignments, parsing them gives the same context back exactly when every key on the way to a leaf is clean |
| ContextArgs.JsonFormRebuilds | src/fixtures/render.rs:60-77 | the JSON form always gives the context back |
| ContextArgs.PlainKeysAssign | src/cli/context.rs:14-39 | clean keys are assignments when no top-level key starts like a file or like JSON |
| ContextArgs.AtKeyReadsAFile | src/cli/context.rs:14-23 | a top-level key starting with `@` has an argument read as a file; the context comes back at most when that file holds an object |
| ContextArgs.BraceKeyReadsJson | src/cli/context.rs:25-27 | one starting like JSON has an argument read as a whole object |
| CommandLine.ShellReadsWords | src/fixtures/render.rs:120-133 | a shell splits the quoted words into exactly the words, whatever they hold |
| CommandLine.RenderCommand | src/fixtures/render.rs:22-40 | the rendered command is read by a shell as the command's own words |
| CommandLine.FlagsAreDashedKeys | src/main.rs:283-292 | with clean keys, some argument looks like an option exactly when a top-level key starts with a dash |
| CommandLine.CommandRoundTrip | src/fixtures/render.rs:22-118 | the printed command resolves the same variable in the same context exactly when neither source nor id looks like an option and the form is JSON, or the keys are clean and no top-level one starts with a dash |
| CommandLine.DashedKeyRefused | src/main.rs:283-292 | `{"-x": 1}` has clean keys and its printed command is refused |

## Left out

- Upcoming.NothingChangesBetweenBoundaries: covers the time functions on `env.now` and literal instants; a bare operator on `env.now` compares strings, not instants, and is outside it.
- CelLaws.QuantifierExact: how `all` and `exists` expand into loops is the parser's and not part of this model; the loop has their shape.
- Synthesis.SynthesisForces: with referenced variables, evaluation may still fail to bind one of them, and callers discard such contexts by tracing.
- Fixtures.ConditionsCompose: covers rules and allocations; for a query driven to false the theorem beside it says when that is right.
- FieldUpdates.EntryDocument.SetField: the walk through mutable references is recursion on values, so aliasing between document parts is not modelled.
- EditEngine.CreateEntity: the text of a created document is a parameter, so what it looks like is not modelled.
- FieldTargets.SetFieldEdits: the value's integers are those of 64 bits; the source turns larger ones into floats.
- Rereading.UnsetPrunes: dotted keys inside an inline table are taken as plain nesting, so an inline table emptied of them is not dropped; standard tables made by dotted keys are modelled.
- ContextArgs.PathFormRebuildsExactly: an argument that starts like a file or like JSON is outside the equivalence, since a file may hold anything.
- Numbers are integers: doubles, unsigned values, the rounding of sort keys and the step at the ends of the 64-bit range are not modelled, nor is the 32-bit cast of a year.
- The hash behind `bucket` and allocation, and the string, pattern, version and network functions of expressions, are parameters.
- The conditional operator, map and message literals and bytes are not part of the expression language here, and a comprehension's result sees only its accumulator.
- Error message texts, and the record of where an expression's missing paths are.
- Comments, decoration, key order and the reordering of arrays of tables in TOML documents; reading a package from disk; the text of created documents.
- Descriptions, types, defaults, rules, queries, list members and layer allocations are edited through one operation that carries its edit as a function.
- Entry hydration, JSON Schema validation of contexts, list membership analysis for lint, and the report structures.
- Standard-library sorting, reversal and truncation are functions, not loops; the reference sets are one set of tagged entries.
- The set of ids in progress of the condition generator is a parameter of a recursive function rather than a set pushed and popped.
