# Unlocking conditions and graph dump of a learning-path supercluster

This project models the two pure computations of the archive-building plugin
for logic-based learning paths, and proves properties of them in Dafny.

The input is a **rooted supercluster**:
- a graph whose nodes are learning units `(NodeID, title)`;
- directed edges typed `All` or `AtLeastOne`;
- a set of root ids.

An `All` edge `a -> b` makes `a` a hard prerequisite of `b`. An `AtLeastOne`
edge `a -> b` makes `a` a motivator of `b`.

1. **The unlocking-condition compiler** (`add_unlocking_conditions`) gives
   every node an entry in a condition map:
   - a root maps to `None`;
   - every other node `n` maps to `Some({all_of, one_of})`;
   - `all_of` holds every node from which a chain of one or more `All`
     edges leads to `n`;
   - `one_of` holds every motivator whose motivated nodes meet `{n}` ∪
     (everything `n` transitively unlocks through `All` edges).

   The map is then turned into a string-keyed form for JSON output, with
   every id replaced by its display text.
2. **The graph dump** (`add_yamlified_graph`) writes the YAML document
   `serialized_complete_graph.yaml`:
   - a `nodes:` block, always present;
   - `all_type_edges:`, `any_type_edges:` and `roots:` blocks, each written
     only when non-empty.

Modules, one per concept:

| file | module | what it holds |
|---|---|---|
| `wrappers.dfy` | `Wrappers` | `Option` and `Result` |
| `supercluster.dfy` | `Supercluster` | nodes, typed index edges, the rooted supercluster, its well-formedness, and the id-level relation formed by each edge type |
| `reachability.dfy` | `Reachability` | reachability over a finite relation |
| `views.dfy` | `DependencyViews` | the three views the compiler queries, keyed by id |
| `conditions.dfy` | `UnlockingConditions` | the compiler itself, with the `expect` failure path as an explicit `Result` |
| `readable.dfy` | `ReadableConditions` | the string-keyed map written as JSON |
| `yaml.dfy` | `GraphYaml` | the dump as a sequence of structured lines; its text; a parser for the line structure |
| `scenarios.dfy` | `ConditionScenarios` | the linear chain, the mixed-type and the diamond examples, and the chain's dump |

In `Reachability`, the closure `ReachFrom` is computed by a terminating
saturation fixpoint (`Saturate`). It is proved equal to the existence of a
path of one or more steps (`Reaches`).

Two points about the inputs the code accepts:
- **Roots are a sequence.** The roots are a hash set. The dump lists them in
  the set's iteration order, so they are modelled as a sequence, and
  `WellFormed` requires them to be distinct.
- **An edge whose endpoint is not a node is dropped.** `Option::zip`
  followed by `flatten()` at src/lib.rs:61-67 discards such an edge without
  an error. The model does the same in `GraphYaml.EdgePairs` and in
  `Supercluster.EdgeRelation`.

Where nodes are looked up, src/lib.rs:167-189 relies on both filtered
subgraphs keeping every node at the same index:
- the code finds the node's index in `dependency_to_dependent_graph`;
- it then uses that same index in `dependent_to_dependency_revmap`.

`DependencyViews` states this as the modelling assumption that both views
are keyed by `NodeID` and hold every node.

The `expect` at src/lib.rs:175 is modelled as the error
`NodeMissingFromSubgraph`. `CompileSucceeds` proves that this error cannot
occur for views built from the graph.

## Model

| member | source | states |
|---|---|---|
| Reachability.ReachFrom | src/lib.rs:181-198 | the closure from `x` contains the direct successors of `x` and is closed under the relation; `ReachFromExact` makes it exactly the nodes a path of one or more steps reaches, and `ReachFromLeast` the least such set, as the neighbours in the transitive-closure graph are |
| Reachability.Saturate | src/lib.rs:145-159 | the saturation contains its start set, stays within the relation's targets, is closed under one more step, and lies inside every closed superset of its start set, so it is the least such set (the transitive-closure graph of the helper) |
| Reachability.ReachFromExact | src/lib.rs:181-189 | a node is in the closure from `x` iff a path of one or more steps leads from `x` to it, so the closure is exactly the neighbours in the transitive-closure graph |
| Reachability.ReachFromLeast | src/lib.rs:145-159 | the closure from `x` is the least set that contains the direct successors of `x` and is closed under the relation |
| Reachability.ReachesReverse | src/lib.rs:145-159 | a path leads from `x` to `y` in the reversed relation iff one leads from `y` to `x` in the original, so the dependent-to-dependency and dependency-to-dependent views are mirror images |
| DependencyViews.BuildViews | src/lib.rs:167-176 | each of the three views holds every node of the supercluster, which is the condition under which the subgraph lookup always finds the node |
| DependencyViews.HardDependenciesExact | src/lib.rs:181-189 | the hard-dependency view of `n` holds exactly the nodes from which a chain of `All` edges leads to `n` |
| DependencyViews.HardDependencyByClosure | src/lib.rs:181-189 | `m` is a hard dependency of `n` iff `m` lies in the closure of the dependent-to-dependency relation from `n` |
| DependencyViews.DependentsExact | src/lib.rs:190-198 | the dependent view of `n` holds exactly the nodes that a chain of `All` edges leads to from `n` |
| DependencyViews.MotivationsExact | src/lib.rs:203-210 | the motivation view of `m` holds exactly the nodes that an `AtLeastOne` edge from `m` reaches |
| UnlockingConditions.Compile | src/lib.rs:160-227 | a produced map has exactly the graph's node ids as keys, with `None` exactly for the roots; `CompileTotal` adds that it is always produced, and `AllOfExact` and `OneOfExact` give each non-root entry's two sets |
| UnlockingConditions.CompileNodes | src/lib.rs:160-227 | compilation succeeds iff every non-root node's lookup succeeds, and otherwise reports one of those nodes; on success the keys are exactly the node ids, roots map to `None`, and every other node maps to its condition |
| UnlockingConditions.CompileSucceeds | src/lib.rs:160-227 | compiling a supercluster never aborts, and every node of the graph gets exactly one entry and nothing else does |
| UnlockingConditions.CompileTotal | src/lib.rs:162-227 | the entry of each node is `None` iff the node is a root; otherwise it is `Some` of its condition |
| UnlockingConditions.AllOfExact | src/lib.rs:177-189 | `m` is in `all_of(n)` iff a chain of one or more `All` edges leads from `m` to `n` (the full transitive set) |
| UnlockingConditions.DependentSetExact | src/lib.rs:190-199 | the dependent set of `n` holds exactly `n` and everything downstream of it through `All` edges |
| UnlockingConditions.OneOfExact | src/lib.rs:200-217 | `m` is in `one_of(n)` iff an `AtLeastOne` edge leads from `m` to `n` or to some node downstream of `n` |
| UnlockingConditions.ConditionIs | src/lib.rs:177-224 | any two sets that satisfy the `all_of` and `one_of` characterisations are the condition recorded for `n` |
| UnlockingConditions.UnmotivatedCondition | src/lib.rs:200-217 | without `AtLeastOne` edges, a node's condition is its reverse `All` closure with an empty `one_of` |
| UnlockingConditions.NonMotivatorNeverInOneOf | src/lib.rs:200-217 | a node without outgoing `AtLeastOne` edges is in no `one_of` |
| UnlockingConditions.NotOwnHardDependency | src/lib.rs:177-189 | when no `All` cycle passes through `n`, `n` is not in its own `all_of` |
| ReadableConditions.ShowAllExact | src/lib.rs:232-243 | with an injective display, an id's text is among the displayed set iff the id is in the set |
| ReadableConditions.ReadableOf | src/lib.rs:231-244 | a root's `None` stays `null`, and a condition stays a condition |
| ReadableConditions.Readable | src/lib.rs:228-247 | every key carries the readable form of the value of the last entry whose id is displayed as that key, so colliding texts keep the later entry; `ReadableKeys` adds that the keys are exactly the displayed ids |
| ReadableConditions.ReadableKeys | src/lib.rs:228-247 | the keys of the JSON map are exactly the display texts of the enumerated ids |
| ReadableConditions.ReadableValue | src/lib.rs:228-247 | with an injective display, an id's text carries the displayed form of the value that the entries give that id |
| ReadableConditions.ReadableMap | src/lib.rs:228-247 | for an enumeration of a condition map and an injective display, an id's text is a key iff the id is in the map, and it carries the displayed form of the id's entry |
| ReadableConditions.ReadableConditionExact | src/lib.rs:160-247 | in the JSON map, a node's text carries `null` iff the node is a root; otherwise `all_of` holds exactly the texts of its hard prerequisites and `one_of` exactly the texts of its motivators |
| GraphYaml.EdgePairs | src/lib.rs:57-80 | the list is no longer than the edges it is taken from; `EdgePairsOfEdge`, `EdgePairsAppend` and `EdgeListedInPlace` fix what each edge contributes and where |
| GraphYaml.EdgePairsOfEdge | src/lib.rs:57-80 | one edge contributes its own id pair to the list of its own type when both endpoints are nodes, and nothing to any other list |
| GraphYaml.EdgePairsAppend | src/lib.rs:57-80 | the list taken from a concatenation of edges is the concatenation of their lists, so the pairs keep edge order |
| GraphYaml.EdgeListedInPlace | src/lib.rs:57-95 | an edge anywhere in the edge sequence appears exactly once, at its own position, in the list of its own type when both endpoints are nodes, and in no other list |
| GraphYaml.EdgePairsExact | src/lib.rs:57-68 | a pair is listed iff some edge of that type with both endpoints in the graph connects it |
| GraphYaml.EdgeList | src/lib.rs:57-80 | the edge list of a type is no longer than the graph's edge list and holds exactly the pairs of the relation the condition compiler uses for that type, as a set; multiplicity and order are fixed by `EdgeListedInPlace` |
| GraphYaml.EdgeListIsRelation | src/lib.rs:57-80 | the pairs collected from the edges of a type are exactly the pairs of that type's relation, whichever ids they join |
| GraphYaml.EdgeListsPartition | src/lib.rs:57-80 | the `all_type_edges` and `any_type_edges` lists together are exactly as long as the list of edges whose endpoints are both nodes |
| GraphYaml.EdgeListsCoverEdges | src/lib.rs:57-80 | in a well-formed supercluster the two lists together are exactly as long as the graph's edge list |
| GraphYaml.NodeLines | src/lib.rs:51-54 | the nodes block has two lines per node, an id line and a title line |
| GraphYaml.EdgeLines | src/lib.rs:84-87 | an edge block has two lines per edge, a start line and an end line |
| GraphYaml.RootLines | src/lib.rs:98-100 | the roots block has one entry line per root |
| GraphYaml.Lines | src/lib.rs:50 | the dump begins with the `nodes:` header |
| GraphYaml.SectionPresent | src/lib.rs:82-101 | each of the `all_type_edges`, `any_type_edges` and `roots` headers appears iff that list is non-empty |
| GraphYaml.ParseNodeLines | src/lib.rs:51-54 | the nodes block reads back as the nodes in graph order, each with its title |
| GraphYaml.ParseEdgeLines | src/lib.rs:84-94 | an edge block reads back as its id pairs in edge order |
| GraphYaml.ParseRootLines | src/lib.rs:98-100 | the roots block reads back as the roots in order |
| GraphYaml.RoundTrip | src/lib.rs:49-101 | reading the dump back gives every node with its title in order, both edge lists in edge order and the roots, so each appears exactly once |
| GraphYaml.RenderLine | src/lib.rs:50-99 | every written line is non-empty and ends with a line break; `LineBreaks` adds that this is its only break when the shown ids and titles have none |
| GraphYaml.RenderLines | src/lib.rs:49-101 | the text is empty iff there are no lines and otherwise ends with a line break; `RenderLinesAppend` makes it the concatenation of the lines' texts |
| GraphYaml.Serialize | src/lib.rs:50 | the YAML text starts with `nodes:` and a line break |
| GraphYaml.LineBreaks | src/lib.rs:52-99 | each written line ends with its only line break, provided the ids and titles it shows contain none |
| GraphYaml.SerializeLineCount | src/lib.rs:49-101 | when ids are displayed and titles are written without line breaks, the text has exactly one line per structured line of the dump |
| ConditionScenarios.ChainConditions | src/lib.rs:160-227 | for a root `a` with an `All` edge to `b`, the whole map is `a -> None`, `b -> {all_of: {a}, one_of: {}}` |
| ConditionScenarios.MixedMotivatedNode | src/lib.rs:200-217 | a node reached only by an `AtLeastOne` edge from `a` has `all_of` empty and `one_of` equal to `{a}` |
| ConditionScenarios.DiamondClosure | src/lib.rs:177-189 | in the diamond `a -> b -> d`, `a -> c -> d`, `all_of(d)` is `{a, b, c}`: the transitive set, not only the direct predecessors |
| ConditionScenarios.ChainLines | src/lib.rs:49-101 | the chain dumps to its nodes block, an `all_type_edges` block and a `roots` block, with no `any_type_edges` block |

## Left out

- Zip container handling (src/lib.rs:102-103, 248-253). It is a foreign library with I/O effects. The model ends at the document and the map.
- Host functions, base64 and `include_artifacts`. These are host calls, file reading and path handling.
- The error wiring of `process_paths`. It is orchestration, not logic.
- `get_params_schema`. It returns a constant empty schema.
- JSON pretty-printing by `serde_json`. It is a foreign serialiser, and the order of keys and array elements follows hash iteration. The model keeps the id-to-text mapping only.
- The internals of `graph_analysis::dependency_helpers`. This is not part of this model:
  - it covers the filtered subgraphs, the transitive-closure graphs, the toposort orders and the index remap tables;
  - the model replaces them with their meaning, which is reachability over id-keyed views;
  - the index agreement between the two subgraphs is a modelling assumption, stated above.
- Acyclicity. The external `graph_analysis::dependency_helpers` sorts the `All` subgraph topologically, so a cyclic graph is its concern. The model computes closures for any graph. `NotOwnHardDependency` takes the absence of a cycle through `n` as a requirement.
- Purity and idempotence of the compiler hold by construction, because every operation is a function.
- The two ways a node lookup can abort are not told apart. The `expect` at src/lib.rs:169-175 searches only `dependency_to_dependent_graph`; a node missing from the other subgraph would make the code panic on the index at src/lib.rs:182 instead. The model reports both as `NodeMissingFromSubgraph`, when the node is absent from the dependent view or from the hard-dependency view. `CompileSucceeds` proves that neither happens for views built from the graph.
- Nodes that share an id are merged. The views are keyed by id and built from the id-level edge relation, so a node's conditions collect the edges of every node with its id. The code instead resolves an id to its first matching node with `.get(0)` (src/lib.rs:169-175) and reads only that node's closure. For nodes `[x, y, x]` with an `All` edge from `y` to the second `x`, the model puts `y` in `all_of(x)` and the code gives an empty `all_of(x)`. `Compile` does not require unique ids, so such input is accepted; the model is faithful only when ids are unique, as `WellFormed` states.
- ReadableConditions.ReadableMap: states each key's value only for an injective display. When two ids share a text, the entry written last in iteration order wins; the contract of `Readable` states that case.
- GraphYaml.RoundTrip: reads back the structured lines, not the characters. Splitting the text into lines is covered only by `SerializeLineCount`.
- GraphYaml.SerializeLineCount: requires ids and titles without line breaks. The source writes titles and ids without YAML quoting or escaping. A title with a line break or a YAML-special character yields a different document, and this is not modelled.
