# nodemodel graph specialization, modelled in Dafny

nodemodel builds a computation from a dict of Python functions. Each function
is a node, and its parameter names are the nodes or inputs it depends on. A
node may carry a `forced_nodes` dict such as `{"x": 5}`. Such a node is a
*conditional node*: it is computed on a private copy of its ancestors in which
`x` is replaced by the constant 5. Every vertex downstream of `x` inside that
copy is renamed by appending the pair `('x', 5)` to its identity, for example
`('a', 'x', 5)`. Identical forcings written in different key order share the
same renamed vertices, because the forced entries are sorted by key first.
Two conditional nodes with the same ancestors and the same forcings likewise
get the same renamed vertices, so those are computed once for both.

The model covers five parts:

- the dependency graph (`nodes_graph`);
- the specialization of conditional nodes (`get_cond_nodes`, `model_graph`, `custom_tuple_concat`);
- the resolution of every vertex into a function and an ordered argument list (`ModelNode`);
- the `Model` class: its attributes, `compute` and `submodel`;
- the node factory (`Node`, `node_factory`, `generate_nodes`, `node_generator`, `generate_inputs`).

Modules, one per file:

| file | module | contents |
|---|---|---|
| `wrappers.dfy` | `Wrappers` | `Option`, `Result`, `Distinct` |
| `identity.dfy` | `Identity` | vertex identities (`Name` or flat `Tup` of atoms), the raised errors as values, `custom_tuple_concat` |
| `ordering.dfy` | `Ordering` | forcing dicts as ordered lists of pairs, Python string order, `sorted` by key |
| `graphs.dfy` | `Graphs` | graphs as vertex and edge sets; predecessors, ancestors, descendants, subgraph, `compose`, edge removal |
| `topo.dfy` | `Topo` | topological orders; a Kahn sort standing in for `nx.topological_sort` |
| `nodes.dfy` | `Nodes` | function descriptors and the node factory |
| `specializer.dfy` | `Specializer` | `nodes_graph`, `get_cond_nodes`, `model_graph`, `graph_subcomponent_nodes` |
| `sharing.dfy` | `Sharing` | renamed copies shared between conditional nodes with the same ancestors |
| `resolver.dfy` | `Resolver` | `ModelNode` dispatch |
| `model.dfy` | `Models` | `Model.__init__`, `compute`, `submodel` |

Modelling choices:

- A user function is seen through what the engine reads from it: an identity
  for its code, its declared parameter names (what `func_args` returns), and
  its optional `forced_nodes` and `node_cases` attributes.
- Running a user function produces the symbolic value `Call(code, args)`, so
  the contracts of `compute` can say which values each step receives.
- Python exceptions become `Failure` values that name the exception.
- networkx operations are stated relationally:
  - ancestors is the least predecessor-closed set holding the targets;
  - descendants are the ancestors in the reversed graph;
  - `topological_sort` is any order in which every edge points forward.
- Where networkx's iteration order matters, the model takes an arbitrary
  enumeration and proves the result for every one. This covers the order of
  `graph.predecessors` and the order of `list(set)`.

## Points where the code is narrower than one might expect

The model follows the code in each case below.

- **In-edges inside the copy.** The forced vertex could be expected to lose
  its in-edges inside the ancestor copy. The code relabels the copy and
  removes nothing inside it (nodemodel/graph_functions.py:44-54). The forced
  vertex `(f, v)` therefore keeps its predecessors in the graph, though its
  step takes no arguments.
- **Name of the forced vertex.** The forced vertex is renamed to the 2-tuple
  `(f, v)` itself (nodemodel/graph_functions.py:50), not to `f` concatenated
  with `(f, v)`, which would give the 3-tuple `(f, f, v)`.
- **Forcing to another node.** Forcing a node to another node's value is not
  implemented. A pair `(f, v)` always resolves to the literal `v`
  (nodemodel/model_node.py:19-21).

Two consequences of the code as written follow from the definitions, and the model reproduces them:

- **A node that neither has parameters nor is depended on.** Such a node is
  not a vertex of the dependency graph (`Specializer.NodeVertexIff`). `compute`
  therefore never computes it.
- **Forcing a node and one of its ancestors at once.** Suppose one
  `forced_nodes` dict forces both a node f and one of its ancestors g.
  - If f's entry comes first in key order, g's entry then renames the vertex
    `(f, v)` to a longer tuple, and that tuple recomputes f
    (`Specializer.ForcedPairRenamedByAncestor`).
  - If g's entry comes first, it has already renamed f. f's entry then finds no
    vertex named f and changes nothing (`Specializer.ForcingShadowedByAncestor`).
  - Either way, f is not forced. For example, take `a(x)`, `b(a)`, `c(b)` with
    `c.forced_nodes = {"a": 1, "x": 5}`. `('a', 1)` becomes
    `('a', 1, 'x', 5)`, which computes `a(5)`.

## Model

| member | source | states |
|---|---|---|
| Identity.Base | nodemodel/model_node.py:14 | the base of an identity is missing exactly for the empty tuple; otherwise it is the first atom, so a name is its own base |
| Identity.Concat | nodemodel/helpers.py:6-11 | the result is a tuple whose length is the sum of the operands' lengths; it starts with the first operand's atoms and ends with the second's; a non-tuple operand counts as a 1-tuple |
| Identity.ConcatPromotesNames | nodemodel/graph_functions.py:17-22 | a plain name on either side concatenates exactly like the 1-tuple holding it |
| Identity.AppendPairKeepsBase | nodemodel/graph_functions.py:49 | appending `(f, v)` to an identity adds exactly two atoms, keeps the old atoms as a prefix, keeps the base (first component), and never gives back the same identity |
| Ordering.StrLeTotal | nodemodel/graph_functions.py:33 | the string order `sorted` uses compares any two strings |
| Ordering.StrLeAntisymmetric | nodemodel/graph_functions.py:33 | two strings ordered both ways are equal |
| Ordering.StrLeTransitive | nodemodel/graph_functions.py:33 | the string order is transitive |
| Ordering.SortByKey | nodemodel/graph_functions.py:33 | `sorted(items)` is ascending by key and is a permutation of the items |
| Ordering.SortedUnique | nodemodel/graph_functions.py:32-33 | two key-sorted lists with distinct keys and the same items are identical |
| Ordering.SortIgnoresWrittenOrder | nodemodel/graph_functions.py:32-33 | a forcing dict written in any key order sorts to the same list |
| Graphs.Preds | nodemodel/graph_functions.py:56 | a vertex is a predecessor of v exactly when it has an edge into v |
| Graphs.Reverse | nodemodel/graph_functions.py:47 | the reversed graph has the edge (u, v) exactly when the graph has (v, u) |
| Graphs.AncestorsOrSelf | nodemodel/graph_functions.py:39-40 | the closure holds the targets, is closed under predecessors, and adds only vertices of the graph |
| Graphs.AncestorsLeast | nodemodel/graph_functions.py:39-40 | the closure lies inside every predecessor-closed set holding the targets, so it is exactly the targets and their ancestors |
| Graphs.AncestorsMonotone | nodemodel/graph_functions.py:64-69 | more targets give a larger closure |
| Graphs.Descendants | nodemodel/graph_functions.py:47 | `nx.descendants` excludes f itself, is closed under successors, and lies within the graph |
| Graphs.DescendantsLeast | nodemodel/graph_functions.py:47 | the descendants lie inside every set closed under successors apart from f, so they are exactly the vertices reachable from f |
| Graphs.Induced | nodemodel/graph_functions.py:41 | the subgraph keeps exactly the vertices in the set and the edges between them |
| Graphs.RemoveInEdges | nodemodel/graph_functions.py:56-58 | exactly the edges into v are removed, and the vertices stay |
| Topo.TopologicalSort | nodemodel/graph_functions.py:25 | on success, every vertex occurs once and every edge points forward; on failure, it returns a nonempty vertex set each of whose members has a predecessor in the set |
| Topo.OrderedGraphHasNoBlockingSet | nodemodel/model.py:22 | a graph that has a topological order has no such blocking set, so a failure means that no order exists |
| Topo.AncestorsWithinPrefix | nodemodel/graph_functions.py:25-27 | in an order respecting the edges, the ancestors of an entry all occur no later than it |
| Topo.DescendantsWithinSuffix | nodemodel/graph_functions.py:25-27 | in an order respecting the edges, the descendants of an entry all occur after it |
| Topo.PrefixSuffixDisjoint | nodemodel/model.py:22 | in a list without repetitions, the entries before a position and those from it on are disjoint |
| Nodes.NewNode | nodemodel/node_factory.py:8-10 | `Node(f).inputs` maps each declared parameter to itself, in parameter order, and the node has no forcings |
| Nodes.GenerateInputs | nodemodel/node_factory.py:36-41 | the same keys stay in the same order; a key the case has an attribute for is rebound to it; every other key keeps its value |
| Nodes.GenerateInputsIdempotent | nodemodel/node_factory.py:36-41 | rebinding twice with the same case changes nothing more |
| Nodes.GenerateInputsEmptyCase | nodemodel/node_factory.py:36-41 | a case without attributes leaves the inputs unchanged |
| Nodes.NodeGenerator | nodemodel/node_factory.py:31-34 | a generated node runs the template; each parameter is bound to the case's attribute of that name, or to itself when the case lacks one |
| Nodes.NodeGeneratorEmptyCase | nodemodel/node_factory.py:31-34 | a case without attributes generates exactly `Node(template)` |
| Nodes.GenerateNodes | nodemodel/node_factory.py:24-29 | succeeds exactly when every case has the attribute named after the template; otherwise it raises AttributeError for that name |
| Nodes.GenerateNodesKeys | nodemodel/node_factory.py:26-28 | every case's key is in the result |
| Nodes.GenerateNodesLastWins | nodemodel/node_factory.py:26-28 | the node under each key is generated from the last case with that key |
| Nodes.GeneratedNodesShareTemplate | nodemodel/node_factory.py:27-28 | every generated node runs the template's function and has no forcings |
| Nodes.PlainNode | nodemodel/node_factory.py:18-21 | a non-template entry gives a node with the function's inputs; its forcings are copied exactly when the function has them |
| Nodes.PlainNodeWithoutForcing | nodemodel/node_factory.py:18-21 | a non-template entry without forcings gives exactly `Node(f)` |
| Nodes.NodeFactory | nodemodel/node_factory.py:12-22 | succeeds exactly when every template entry names each of its cases |
| Nodes.NodeFactoryLastEntry | nodemodel/node_factory.py:14-21 | the last entry of the dict wins: a plain function's node sits under its name, and a template's generated nodes sit under their keys |
| Nodes.NodeFactoryLastWins | nodemodel/node_factory.py:12-22 | every key holds the node that the last entry yielding that key yields for it, for plain entries and templates alike |
| Nodes.NodeFactoryKeys | nodemodel/node_factory.py:12-22 | the result's keys are exactly the plain entries' names and the templates' generated keys |
| Specializer.NodesGraph | nodemodel/graph_functions.py:7-15 | the graph is valid; it has an edge dep → n exactly when dep is a parameter of node n; every vertex is the end of some edge |
| Specializer.NodeVertexIff | nodemodel/graph_functions.py:7-15 | a node is a vertex exactly when it has a parameter or a dependent |
| Specializer.CondNodes | nodemodel/graph_functions.py:24-27 | the list holds exactly the conditional names that occur in the order |
| Specializer.CondNodesKeepOrder | nodemodel/graph_functions.py:24-27 | over an order without repetitions, the list has no repetitions and keeps the relative order |
| Specializer.CondNodesFollowEdges | nodemodel/graph_functions.py:24-27 | over a topological order, an edge between two conditional nodes points forward in the list |
| Specializer.Relabel | nodemodel/graph_functions.py:51-54 | the relabelled vertices are exactly the images of the vertices; the image of every edge is kept; a valid graph stays valid |
| Specializer.RelabelEdgesAreImages | nodemodel/graph_functions.py:54 | relabelling adds no edge: every edge of the result is the image of an edge |
| Specializer.ForceOne | nodemodel/graph_functions.py:44-54 | a forced name absent from the copy changes nothing; the conditional node keeps its name; f is replaced by `(f, v)`; each descendant x of f becomes `x + (f, v)`; every other vertex is kept; every new vertex is a tuple of at least two atoms |
| Specializer.ForceOneVerticesAreImages | nodemodel/graph_functions.py:47-54 | forcing adds no vertex: when f is in the copy, every vertex of the forced copy is the renamed image of a vertex of the copy |
| Specializer.ForceOneEdges | nodemodel/graph_functions.py:46-54 | when f is in the copy, the forced copy's edges are exactly the renamed edges of the copy |
| Specializer.Rename | nodemodel/graph_functions.py:48-53 | the conditional node is never renamed; a vertex is kept or becomes a tuple of at least two atoms; a renamed vertex keeps its base, so it still recomputes the node it came from |
| Specializer.ForceAll | nodemodel/graph_functions.py:44-54 | forcing every entry in turn keeps the conditional node; every vertex it adds is a tuple of at least two atoms; a valid copy stays valid |
| Specializer.CondCopy | nodemodel/graph_functions.py:33-54 | the renamed ancestor copy of a node, forced in sorted key order, holds only vertices of the graph and tuples of at least two atoms, and is valid when the graph is |
| Specializer.ForceAllAbsentNames | nodemodel/graph_functions.py:44-46 | forced names none of which is in the copy leave it unchanged |
| Specializer.SpecializeCond | nodemodel/graph_functions.py:38-60 | no vertex is lost; every edge not into the conditional node is kept; the node's in-edges are exactly those of its renamed ancestor copy; every vertex and edge of the result comes from the graph (edges not into the node) or from the copy |
| Specializer.ModelGraph | nodemodel/graph_functions.py:30-61 | every vertex of the dependency graph survives; every edge not into a conditional node survives; every added vertex is a tuple of at least two atoms; the result is a valid graph |
| Specializer.ReaddingAncestorsRestores | nodemodel/graph_functions.py:55-60 | cutting a node's in-edges and composing back its unrenamed ancestor subgraph restores the graph |
| Specializer.UnrelatedForcingNoEffect | nodemodel/graph_functions.py:46 | forced names that are not ancestors of the conditional node leave the graph unchanged |
| Specializer.SelfForcingNoEffect | nodemodel/graph_functions.py:52-53 | forcing the conditional node's own name leaves an acyclic graph unchanged |
| Specializer.ForcingShadowedByAncestor | nodemodel/graph_functions.py:44-54 | after an entry `(g, w)` renames the descendants of g, a later entry for a descendant f finds no vertex named f and changes nothing |
| Specializer.ForcedPairRenamedByAncestor | nodemodel/graph_functions.py:44-54 | a forced vertex `(f, v)` that descends from a later forced name g loses its identity and becomes `(f, v, g, w)` |
| Specializer.WrittenOrderIrrelevant | nodemodel/graph_functions.py:32-33 | two forcing dicts with the same entries in different written order specialize a node identically |
| Specializer.ModelGraphIgnoresWrittenOrder | nodemodel/graph_functions.py:32-33 | the whole specialized graph does not depend on the written order of any forcing dict |
| Specializer.AncestorsOfUnion | nodemodel/graph_functions.py:64-69 | the closure of a union of targets is the union of the closures |
| Specializer.SubcomponentNodes | nodemodel/graph_functions.py:64-69 | fails exactly when a target is not a vertex; otherwise it returns the targets together with all their ancestors |
| Resolver.BaseDict | nodemodel/model_node.py:14 | fails on an empty tuple; otherwise every predecessor's base is a key, and each key maps to the last predecessor with that base |
| Resolver.LookupAll | nodemodel/model_node.py:15 | succeeds exactly when every parameter is a key; the values come in parameter order; a missing parameter raises KeyError |
| Resolver.ResolveInputs | nodemodel/model_node.py:12-15 | succeeds exactly when no predecessor is the empty tuple and every parameter is matched by some predecessor's base; entry i is the last predecessor whose base is parameter i; an empty tuple among the predecessors raises IndexError; otherwise a failure is a KeyError naming an unmatched parameter |
| Resolver.Resolve | nodemodel/model_node.py:9-28 | succeeds exactly when the identity is resolvable. A conditional name or a longer tuple takes its node's function, with base-matched predecessors as arguments. Any other name takes its function with its parameters as arguments. A pair `(f, v)` takes the constant v with no arguments. A name that is no node raises KeyError for that name. A longer tuple whose first component is no node raises KeyError for that component, or IntKeyError when it is an integer. For a conditional name or a longer tuple, an empty tuple among the predecessors raises IndexError, and otherwise a failure is a KeyError naming a parameter that no predecessor matches. NoBranch arises only for a tuple of fewer than two atoms |
| Resolver.UnmatchedPredecessorIgnored | nodemodel/model_node.py:14-15 | a predecessor whose base is no parameter is never an argument |
| Sharing.TwinsDescendants | nodemodel/graph_functions.py:47 | in two copies that agree apart from their conditional nodes, any other vertex has the same descendants apart from those nodes |
| Sharing.RelabelTwins | nodemodel/graph_functions.py:48-54 | relabelling two such copies with renamings that agree off the nodes gives copies that still agree |
| Sharing.ForceOwnNameInSink | nodemodel/graph_functions.py:46-54 | a node forcing its own name changes nothing in a copy where it has no out-edge |
| Sharing.ForceOneTwins | nodemodel/graph_functions.py:44-54 | one forced entry keeps two such copies in agreement |
| Sharing.ForceAllTwins | nodemodel/graph_functions.py:44-54 | all forced entries keep two such copies in agreement |
| Sharing.TwinAncestorsShareCopies | nodemodel/graph_functions.py:37-54 | two conditional nodes whose ancestor subgraphs agree, forced with the same items, get renamed copies with the same vertices and the same edges apart from the nodes themselves |
| Sharing.SameAncestorsShareCopies | nodemodel/graph_functions.py:32-54 | in an acyclic graph, two conditional nodes with the same strict ancestors and the same forcing dict, in any written order, get copies with the same vertices apart from the nodes themselves, and the same edges apart from those into the nodes, in both directions |
| Sharing.AncestorCopySink | nodemodel/graph_functions.py:39-41 | in an acyclic graph a node has no edge to any of its own ancestors |
| Sharing.InducedTwins | nodemodel/graph_functions.py:41 | subgraphs induced by two sets that agree apart from their nodes, with neither node feeding its own set, agree apart from the nodes |
| Models.Enumerate | nodemodel/model.py:21 | `list(set)` lists each member once and nothing else |
| Models.DropInputs | nodemodel/model.py:22 | the call order holds each non-input vertex once, and every edge between two of its entries points forward |
| Models.ResolvedInputsArePredecessors | nodemodel/model_node.py:16-18 | the arguments of every resolved step are predecessors of its vertex in the specialized graph |
| Models.CausalFromEdges | nodemodel/model.py:22-23 | when arguments are predecessors and the order respects the edges, no step reads a vertex that is computed at or after it |
| Models.ResolveSteps | nodemodel/model.py:23 | every call-order vertex gets a valid step whose arguments are its predecessors; a failure comes from a vertex that cannot be resolved |
| Models.ForcedTableEntries | nodemodel/model.py:19 | the forced table has an entry exactly for the functions that carry `forced_nodes`, and that entry is the attribute's value |
| Models.Build | nodemodel/model.py:16-24 | the attributes: the graphs, the forced table, inputs (dependency vertices that are no node), an edge-respecting call order of all other vertices, a valid step for each, auxiliary vertices (those specialization added, all in the call order and all tuples of at least two atoms); every plain name in the call order is a node; cycle errors mean no topological order exists; any other failure is a KeyError, IntKeyError or IndexError |
| Models.Gather | nodemodel/model.py:29 | succeeds exactly when every key is present, and then gives their values in order; otherwise KeyError names a missing key |
| Models.Run | nodemodel/model.py:27-30 | on success the dict gains exactly the call-order vertices, and every other key keeps its value; a vertex without a step or a missing input raises KeyError |
| Models.RunComputesEachStep | nodemodel/model.py:27-30 | in a causal order, every computed vertex holds its function applied to the final values of its inputs |
| Models.RunFailsOnMissingInput | nodemodel/model.py:29 | the loop fails exactly when some step needs a key that is neither supplied nor computed before it |
| Models.Delete | nodemodel/model.py:31-33 | succeeds exactly when the keys are distinct and present; the dict then loses exactly those keys and keeps the other values |
| Models.Compute | nodemodel/model.py:26-34 | on success the result keys are the caller's keys plus the call order, less the auxiliary vertices unless they are kept; a caller key outside the call order keeps the caller's value; a failure is a KeyError |
| Models.ComputeFailsOnMissingInput | nodemodel/model.py:26-34 | on a well-formed model, `compute` fails exactly when a needed value is missing from the input |
| Models.ComputeDropsOnlyAuxiliary | nodemodel/model.py:31-34 | dropping the auxiliary vertices never fails; the result without them is the result with them, less the auxiliary keys |
| Models.ComputeAppliesEachStep | nodemodel/model.py:27-30 | every call-order vertex holds its function applied to its inputs' values |
| Models.Submodel | nodemodel/model.py:36-40 | a target that is not a vertex is refused; otherwise the submodel is well formed and has exactly the nodes among the targets and their ancestors, unchanged |

## Left out

- `func_args`: parameter introspection reads `__code__`. The model replaces
  it with the declared parameter list `Callable.params`.
- `nodemodel/utils.py` is not part of this model. It holds the `node`
  decorator and the module loading, which only set function attributes or
  walk the filesystem. Their output, functions with `forced_nodes` and
  `node_cases`, is the model's input data.
- User functions run as the symbolic `Call(code, args)`. Their arithmetic,
  side effects and exceptions are not modelled.
- Topo.TopologicalSort: accepts any order in which every edge points forward.
  networkx's tie-breaking is not modelled, so the exact call order of a
  particular dict is not fixed.
- Resolver.Resolve: the order of `graph.predecessors` is a parameter. When
  two predecessors share a base, the last one wins in that given order.
  networkx's insertion order is not modelled.
- Models.Build: a failure other than a cycle is described only by its kind.
  Models.ResolveSteps states that some call-order vertex cannot be resolved.
- Models.Build: the model takes the dependency-graph ordering that
  `get_cond_nodes` would produce to be any topological order. The model graph
  is stated for that order.
- Models.Submodel: the claim that a submodel computes the same values as
  the full model on its nodes is not proved. Only the node selection and the
  well-formedness of the result are stated.
- Models.Compute: `compute` writes into the caller's dict and returns it. The
  model returns a new map and does not model the aliasing.
- Graphs.Union: `nx.compose` is stated only as keeping the graph valid. It
  models line 60 inside Specializer.SpecializeCond, whose contract bounds the
  result from both sides: everything of the cut graph and of the copy is in
  it, and nothing else is. Specializer.ReaddingAncestorsRestores also uses it,
  with its own equality as the conclusion.
- Resolver.Resolve: a tuple of fewer than two atoms fails at resolution with
  `NoBranch`. In the code, `ModelNode.__init__` accepts it without setting any
  attribute, and the error appears later as an AttributeError when `compute`
  reads `inputs`. Models.Build proves that no vertex of a specialized graph has
  this shape, so a built model never meets it.
- Forced values are strings or integers (`Atom`). Floats, booleans, `None` and
  tuples as forced values are not modelled. Python's equality, under which
  `('x', 1)`, `('x', 1.0)` and `('x', True)` name the same vertex, is not
  modelled either.
- Specializer.ModelGraph: sharing between two conditional nodes is stated for
  one specialization step at a time (Sharing.TwinAncestorsShareCopies), not as
  a property of the whole loop.
- Node attribute lookups in `generate_nodes` and `generate_inputs` use
  `getattr` with dynamic names. Case objects are modelled as maps from
  attribute names to string values.
- Forcing a node to another node's value is not part of this model. The code
  has no such feature, as described above.
- Docs, tests and `docs/conf.py` are not part of this model.
