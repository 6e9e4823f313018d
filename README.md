# Volatility dependency resolver, modelled in Dafny

This project models the dependency resolver of Volatility's configuration
framework (`volatility/framework/configuration/depresolver.py`). The resolver
takes a configurable component's schema of requirements and a registry of
providers. It builds a tree of every way the requirements can be met, then
walks that tree against a live configuration, committing one provider per
required choice.

The model has these parts:

- `capability.dfy` (module `Capability`): capability values. A value is a
  single token or a list of tokens. `common_provision` is their set
  intersection.
- `configuration.dfy` (module `Configuration`): requirements (plain or
  constrained), providers, the configuration store (`map<string, Value>`) and
  the two foreign calls `requirement.validate` and `provider.fulfill`. These
  two are passed in as function values (`Collaborators`). The context also
  keeps a record of every `fulfill` call, so that properties can count them.
- `registry.dfy` (module `Registry`): the `satisfies` predicate, the capability
  index that `_build_caches` builds, and priority order.
- `tree.dfy` (module `RequirementTree`): the tree (`Leaf | Choice | List`),
  the `optional` property, and the visitor protocol. A visitor is three
  hooks (`visit_enter`, `visit_leave`, `visit`) from a node to a boolean.
  `TreeVisitor` is `DefaultVisitor`, whose hooks all answer true.
  `ValidateDependenciesVisitor` answers true on entry. On leaving and on
  visiting, it answers whether the node's requirement is optional or
  accepts the value stored at the visitor's own path.
- `builder.dfy` (module `TreeBuilder`): what `build_tree` computes, as
  functions, with the lemmas about the tree it returns.
- `validation.dfy` (module `Validation`): what `validate_dependencies`
  computes, as functions threading the context, with the lemmas about
  commits.
- `resolver.dfy` (module `DepResolver`): the class `DependencyResolver`. Its
  fields are `provided` (the source's `provides`) and `providersCache`. Its
  constructor and `_build_caches`, `build_tree` and `validate_dependencies`
  are written as imperative loops. Each is proved to compute what the
  specification modules define. It also holds the loop-based `satisfies` and
  the priority sort.

`build_tree` recurses into each candidate provider's own schema. It has no
cycle check, so a provider whose schema needs itself recurses until Python
raises RecursionError. The model gives `BuildTree` a `depth`: the number of
nested `build_tree` calls allowed. Running out of depth gives
`RecursionLimit`. Like RecursionError, and unlike `DependencyError`, the
candidate loop does not catch it. `DepthStableTree` proves that any result
reached without hitting the bound stays the same with more depth.

A provider that declares no capability is never put in `providers_cache`,
because `cache.add` sits inside the loop over its `provides` entries. Such a
provider is therefore never a candidate. The model follows the code here.

## Model

| member | source | states |
|---|---|---|
| `Capability.SingleAsList` | volatility/framework/configuration/depresolver.py:41-44 | a single value is wrapped into a one-element list before comparison, so it matches exactly as that list would |
| `Capability.NormalizeMembersOnly` | volatility/framework/configuration/depresolver.py:45-46 | a list is compared as a set: two lists naming the same tokens, in any order and with any repeats, match alike |
| `Capability.CommonProvision` | volatility/framework/configuration/depresolver.py:39-47 | the result is contained in both normalised values and holds every token they share, so it is their intersection |
| `Capability.CommonProvisionSymmetric` | volatility/framework/configuration/depresolver.py:39-47 | the intersection, and hence the overlap test, does not depend on argument order |
| `Capability.OverlapsWitness` | volatility/framework/configuration/depresolver.py:36 | `bool(common_provision(a, b))` holds exactly when some token is named by both values |
| `Registry.EmptyConstraintsSatisfied` | volatility/framework/configuration/depresolver.py:30-37 | a requirement with no constraints is satisfied by every provider |
| `Registry.UndeclaredKeysIgnored` | volatility/framework/configuration/depresolver.py:34-36 | constraint keys the provider does not declare never affect the answer; a provider declaring none of them satisfies the requirement |
| `Registry.DisjointDeclaredKeyFails` | volatility/framework/configuration/depresolver.py:34-36 | one declared key whose values are disjoint from the constraint's makes the provider fail |
| `Registry.MergeKeysLookup` | volatility/framework/configuration/depresolver.py:21-26 | merging a provider's entry for a key adds its normalised tokens to those already recorded for that key (an empty set if none) |
| `Registry.IndexKeys` | volatility/framework/configuration/depresolver.py:16-28 | the index has exactly the keys that some provider declares |
| `Registry.IndexTokens` | volatility/framework/configuration/depresolver.py:16-28 | under each key the index holds the union of the normalised values every provider declares for it |
| `Registry.InsertByPriorityPermutes` | volatility/framework/configuration/depresolver.py:13-14 | inserting a provider adds exactly one copy of it and loses nothing |
| `Registry.InsertByPriorityOrdered` | volatility/framework/configuration/depresolver.py:13-14 | inserting into a list ordered by non-increasing priority keeps it ordered |
| `DepResolver.Satisfies` | volatility/framework/configuration/depresolver.py:30-37 | the loop answers true exactly when every constraint key the provider also declares overlaps |
| `DepResolver.SortByPriority` | volatility/framework/configuration/depresolver.py:13-14 | the result is ordered by non-increasing priority and is a permutation of the cache set, so every provider appears exactly once |
| `DepResolver.DependencyResolver.constructor` | volatility/framework/configuration/depresolver.py:9-14 | after construction `provides` is the capability index and `providers_cache` holds exactly the providers declaring a capability, once each, by non-increasing priority |
| `DepResolver.DependencyResolver.BuildCaches` | volatility/framework/configuration/depresolver.py:16-28 | the nested loops leave the capability index in `provides` and return exactly the providers with at least one `provides` entry; `providers_cache` is untouched |
| `DepResolver.DependencyResolver.MergeProvider` | volatility/framework/configuration/depresolver.py:20-28 | one provider's pass adds, under each key it declares, that declaration's normalised tokens to those already recorded, and reports whether it declares anything, that is, whether it joins the cache |
| `DepResolver.DependencyResolver.BuildTree` | volatility/framework/configuration/depresolver.py:85-119 | the loops with recursion and per-candidate error handling compute `TreeBuilder.BuildTree` over `providers_cache` |
| `DepResolver.DependencyResolver.ValidateDependencies` | volatility/framework/configuration/depresolver.py:49-83 | the loops with early returns, `break` and `for ... else` compute `Validation.ValidateFrom`, both the verdict and the context afterwards |
| `TreeBuilder.SurvivorsAreCandidates` | volatility/framework/configuration/depresolver.py:105-110 | every recorded candidate is a registered provider that satisfies the requirement, paired with the tree its own `build_tree` returned |
| `TreeBuilder.CandidatesSurvive` | volatility/framework/configuration/depresolver.py:105-110 | every provider that satisfies the requirement and whose own tree builds is recorded |
| `TreeBuilder.SurvivorsFrom` | volatility/framework/configuration/depresolver.py:103-109 | every recorded candidate comes from the providers tried |
| `TreeBuilder.SurvivorsOrdered` | volatility/framework/configuration/depresolver.py:103-110 | candidates are recorded in `providers_cache` order, so by non-increasing priority |
| `TreeBuilder.SurvivorsDistinct` | volatility/framework/configuration/depresolver.py:103-109 | no provider is recorded twice, as in the source's ordered dictionary keyed by provider |
| `TreeBuilder.CandidatesAreSurvivors` | volatility/framework/configuration/depresolver.py:105-112 | the provider loop yields exactly the candidates in order; a nested `DependencyError` only drops that provider, and running out of depth aborts the whole loop |
| `TreeBuilder.ResolveConstraint` | volatility/framework/configuration/depresolver.py:102-118 | a constrained requirement becomes a choice over exactly its candidates; with none it fails with `DependencyError` naming it, even when optional |
| `TreeBuilder.BuildNodesShape` | volatility/framework/configuration/depresolver.py:95-101 | the schema loop appends exactly one node per entry, in schema order, each the node for that entry |
| `TreeBuilder.BuildNodesError` | volatility/framework/configuration/depresolver.py:97-115 | the schema loop fails exactly when some entry fails, with the error of the first failing entry |
| `TreeBuilder.BuildTreeShape` | volatility/framework/configuration/depresolver.py:95-119 | a successful result is a list with one node per schema entry in order; plain entries are leaves carrying the entry; constrained entries are choices over their non-empty candidates |
| `TreeBuilder.BuildTreeError` | volatility/framework/configuration/depresolver.py:97-119 | `build_tree` fails exactly when depth runs out or an entry cannot be resolved; the error is the first failing entry's, and no partial tree is returned |
| `TreeBuilder.PlainSchemaLeaves` | volatility/framework/configuration/depresolver.py:100-101 | a schema of plain requirements always builds, into leaves in schema order, and the providers play no part |
| `TreeBuilder.DepthStableTree` | volatility/framework/configuration/depresolver.py:99-112 | a result that did not hit the recursion bound is the same for every larger bound |
| `TreeBuilder.DepthStableNodes` | volatility/framework/configuration/depresolver.py:97-101 | the same for the schema loop |
| `TreeBuilder.DepthStableResolve` | volatility/framework/configuration/depresolver.py:100-118 | the same for a single schema entry |
| `TreeBuilder.DepthStableCandidates` | volatility/framework/configuration/depresolver.py:105-112 | the same for the provider loop |
| `TreeBuilder.BuildTreeWellFormed` | volatility/framework/configuration/depresolver.py:95-119 | every built tree is a list of leaves and choices; each candidate is again such a list; no choice is empty |
| `TreeBuilder.LinuxExample` | volatility/framework/configuration/depresolver.py:102-118 | a requirement for `os = linux` with P2 (windows, priority 20) tried before P1 (linux or mac, priority 10) yields a choice over P1 alone |
| `Validation.OptionalNodePasses` | volatility/framework/configuration/depresolver.py:63-82 | a requirement node whose `optional` property holds never fails validation and commits nothing; no candidate is selected and a missing or invalid value is tolerated |
| `RequirementTree.Accept` | volatility/framework/configuration/depresolver.py:188-246 | the method (a leaf calls `visit`; a choice or list calls `visit_enter`, walks its children until one answers false, then `visit_leave`) gives the answer and the hook calls of `Traversal` |
| `RequirementTree.TraversalAnswers` | volatility/framework/configuration/depresolver.py:188-190 | a leaf answers `visit(node)`; a choice or list always answers `visit_leave(node)`, calling `visit_enter` first and `visit_leave` last |
| `RequirementTree.EnterFalseSkipsChildren` | volatility/framework/configuration/depresolver.py:221-226 | when `visit_enter` answers false, no child is visited and the answer is `visit_leave(node)` |
| `RequirementTree.FalseChildStopsSiblings` | volatility/framework/configuration/depresolver.py:222-224 | the first child answering false ends the walk of its siblings: nothing of the later children is visited |
| `RequirementTree.DefaultVisitorWalksAll` | volatility/framework/configuration/depresolver.py:130-150 | with `TreeVisitor`, `accept` answers true and makes every call of the complete pre- and post-order walk |
| `RequirementTree.ValidateVisitorChecksFixedPath` | volatility/framework/configuration/depresolver.py:166-175 | accepting the visitor on a requirement node passes when the requirement is optional or the value at the visitor's fixed `node_path` exists and validates, whatever the node's name |
| `RequirementTree.AcceptAsWrittenFails` | volatility/framework/configuration/depresolver.py:220-246 | `accept` as written fails exactly when a choice or list is entered and has a child; otherwise it agrees with the corrected walk |
| `RequirementTree.AcceptAsWrittenCounterexample` | volatility/framework/configuration/depresolver.py:240-246 | a list holding one leaf fails under `TreeVisitor` as written, but the corrected walk answers true |
| `Validation.LeafValidation` | volatility/framework/configuration/depresolver.py:74-82 | a leaf commits nothing; it passes exactly when optional or its stored value exists and validates |
| `Validation.OptionalChoiceSkipsSelection` | volatility/framework/configuration/depresolver.py:65 | an optional choice picks no candidate, commits nothing, and passes whatever its stored value |
| `Validation.LeavesValidation` | volatility/framework/configuration/depresolver.py:63-83 | a list of leaves commits nothing, and passes exactly when every non-optional leaf's stored value exists and validates |
| `Validation.ListStopsAtFirstFailure` | volatility/framework/configuration/depresolver.py:63-83 | the loop over a list's children returns true exactly when every child passes in the context its predecessors left; the first failing child makes it return false at once, so no later sibling is selected or committed and the context is the one that child left |
| `Validation.ValidateCommitsBelow` | volatility/framework/configuration/depresolver.py:63-68 | validating at `path` keeps every earlier commit and commits only at paths below `path` |
| `Validation.NodeCommitsBelow` | volatility/framework/configuration/depresolver.py:64-68 | the same for one child |
| `Validation.SelectCommits` | volatility/framework/configuration/depresolver.py:65-73 | candidate selection keeps the earlier log, commits elsewhere only below the node's path, and at the node's own path commits once, as the last record and for one of its candidates' providers, when a candidate is found, and never otherwise |
| `Validation.SelectSkipsFailures` | volatility/framework/configuration/depresolver.py:66-69 | the candidate loop passes over a run of failing candidates without committing for any of them, continuing in the context their attempts left |
| `Validation.FirstValidExists` | volatility/framework/configuration/depresolver.py:66-73 | either every candidate fails and the loop ends in the context those attempts left, or some candidate is the first to validate after the earlier ones failed |
| `Validation.SelectFirstValid` | volatility/framework/configuration/depresolver.py:50-73 | a required choice is fulfilled for the first candidate whose subtree validates, in the context the earlier failed attempts left, and for no other; it goes unfulfilled exactly when every candidate fails |
| `Validation.ChoiceFulfilledOnce` | volatility/framework/configuration/depresolver.py:65-82 | a non-optional choice is fulfilled once at its own path when some candidate validates and not at all when every candidate fails; it passes exactly when it was fulfilled and the value then stored at its path exists and validates |

## Left out

- Provider discovery through `framework.class_subclasses` is not modelled; the constructor takes the provider sequence as a parameter.
- The runtime checks `_check_class` and `_check_type` are left out: the datatypes enforce the types. The tree shape that `validate_dependencies` needs is a precondition (`WellFormed`), and `BuildTreeWellFormed` proves every built tree meets it.
- Logging, the `__repr__` methods and the unused `configurable_cache` are left out.
- What `provider.fulfill` does and what `requirement.validate` accepts are foreign calls. They are function parameters (`Collaborators`). Any exception from `validate` is modelled as the answer false; a missing configuration key is the key being absent from the map.
- The configuration store's path handling is plain string concatenation. The separator `"."` comes from `volatility/framework/interfaces/configuration.py`, which is not part of this model.
- The context is threaded through validation as a value instead of being mutated in place. Aliasing of one context by several callers is not captured.
- `build_tree`'s unbounded recursion on cyclic provider schemas is cut off by the `depth` bound (`RecursionLimit`). Python's actual recursion limit, which also counts other frames, is not modelled.
- `build_tree` and `validate_dependencies` take the schema and the path directly. The `path=None` default corresponds to passing `""`.
- Providers are compared by value (name, priority, capabilities, schema), not by class identity.
- `list(cache)` is taken in any order before sorting. Which of several providers of equal priority comes first is left unspecified, as it is in the source.
- `RequirementTree.ValidateDependenciesVisitor`: for a list node, the source's `visit` raises AttributeError, since a list has no requirement. The model's hook answers false there.
- Visitor hooks are pure functions of the node. A visitor whose answers depend on its earlier hook calls is not modelled.
- `DepResolver.Satisfies` requires a constrained requirement. The source would raise AttributeError on a plain one, which has no `constraints`.

## Findings

| source | as written | input that shows it | evidently intended | confidence | as-written member | corrected member |
|---|---|---|---|---|---|---|
| volatility/framework/configuration/depresolver.py:220-246 | the child loops of `RequirementTreeChoice.accept` and `RequirementTreeList.accept` call `.apply(visitor)` on each child, and no tree class defines `apply` | `RequirementTreeList([RequirementTreeReq(r)]).accept(TreeVisitor())` raises AttributeError at its first child | call `accept(visitor)` on each child, as the `TreeVisitor` doc comments describe | medium, not executed; assumes `validity.ValidityRoutines` defines no `apply` (`volatility/framework/validity.py` is not part of this model) | `RequirementTree.AcceptAsWritten` | `RequirementTree.Accept` |
