# DagYo hyperedge store, modelled in Dafny

This project models the core of DagYo's directed acyclic graph store and
proves properties of the model:

- **The store (`DirectedAcyclicGraph`).** It keeps a table of concept nodes
  and a table of edges, each keyed by id. An edge is an ordered tuple of
  nodes: concept nodes, string literals or primitives. The store also keeps
  a registry of modules, called through hooks on every change.
- **The related-edge module (`RelatedEdgeModule`).** Its index maps each
  concept node to a map from 1-based position to the set of edges holding
  that node there. Its query (`execute`) locates one bucket per constraint,
  sorts the buckets, folds them with intersection and difference, and then
  filters on the non-concept nodes.
- **The string-literal node (`StringNode`).** It strips repeated outer quote
  pairs and puts one pair back when printed.

The files:

- `base.dfy` (module `Base`): nodes, edges, `Option`, `Result` and the Java
  exceptions that the modelled code can raise.
- `string_nodes.dfy` (module `StringNodes`): `StringNode`.
- `edge_query.dfy` (module `EdgeQuery`): the index as a value and the
  meaning of a query, as functions.
- `edge_query_facts.dfy` (module `EdgeQueryFacts`): lemmas about those
  functions. These include the declarative meaning of `execute` under the
  index invariant.
- `related_edges.dfy` (module `RelatedEdges`): `RelatedEdgeModule` as a
  class whose methods update the index map in place. Each method is proved
  against the functions of `EdgeQuery`.
- `graph.dfy` (module `Graph`): `DirectedAcyclicGraph` as a class.
  - The node table is a map from id to name: the node with id `i` is
    `Concept(i, nodes[i])`.
  - The edge table is a map from id to edge.
  - The class also holds the id counters, the registry (a map from class
    name to module) and the properties of nodes and edges.
  - It keeps a log of hook rounds. Each round is an event together with the
    registry keys whose module received it.
  - The related-edge module is one object, `related`.

The store's invariant `Valid()` has four parts:

- node ids are below the node counter, and names are unique;
- every edge sits under its own id, below the edge counter, and no two edges
  have the same nodes;
- every module is registered under a name it is assignable to;
- the related-edge index holds exactly the stored edges, and there are no
  edges while that module is not registered. Without the module,
  `findOrCreateEdge` fails before it stores anything.

Every operation keeps `Valid()`.

## Model

| member | source | states |
|---|---|---|
| StringNodes.StripQuotes | src/graph/core/StringNode.java:13-16 | the constructor's loop stores `Unquote(s)`; the stored value never both starts and ends with a quote, and a lone `"` throws |
| StringNodes.UnquoteNotWrapped | src/graph/core/StringNode.java:14-16 | the stored value never both starts and ends with a quote |
| StringNodes.UnquoteFailsExactly | src/graph/core/StringNode.java:14-15 | construction throws exactly when the text is an odd number of quotes and nothing else |
| StringNodes.Identifier | src/graph/core/StringNode.java:50-57 | `toString` (and so `getIdentifier`) is the value with one quote added at each end, and nothing else |
| StringNodes.QuotedSameAsBare | src/graph/core/StringNode.java:13-16 | `"Test"` and `Test` construct the same node |
| StringNodes.ReparseIdentifier | src/graph/core/StringNode.java:13-57 | constructing a node from another node's identifier gives an equal node |
| StringNodes.StringNodeEquals | src/graph/core/StringNode.java:20-34 | `equals` holds exactly for another string node with the same value; it is false for null and for other classes, so it is reflexive and symmetric |
| StringNodes.Wrap32 | src/graph/core/StringNode.java:42-47 | Java `int` arithmetic: the result is in the 32-bit range and congruent to the exact value modulo 2^32 |
| StringNodes.HashCode | src/graph/core/StringNode.java:42-47 | `hashCode` is a Java `int` |
| StringNodes.EqualsConsistentWithHash | src/graph/core/StringNode.java:20-47 | equal string nodes have equal hash codes |
| EdgeQuery.Put | src/graph/module/RelatedEdgeModule.java:98-119 | putting a bucket with creation changes that one bucket only and adds at most the one node key |
| EdgeQuery.Compare | src/graph/module/RelatedEdgeModule.java:233-242 | the comparator puts additive collections before subtractive ones, then smaller before larger; it is at most 0 exactly when `a` may come first |
| EdgeQueryFacts.LookupMeaning | src/graph/module/RelatedEdgeModule.java:98-119 | under the index invariant, the collection for a concept constraint is exactly the indexed edges meeting it (anywhere, or at the position) |
| EdgeQueryFacts.LocateMembers | src/graph/module/RelatedEdgeModule.java:121-146 | the located collections are exactly one per concept-node constraint; non-concept nodes are skipped |
| EdgeQueryFacts.SortFacts | src/graph/module/RelatedEdgeModule.java:166 | the sorted collections are ordered by the comparator and are a permutation of the input |
| EdgeQueryFacts.SortMembers | src/graph/module/RelatedEdgeModule.java:166 | sorting keeps exactly the same collections |
| EdgeQueryFacts.FoldMeaning | src/graph/module/RelatedEdgeModule.java:167-178 | an edge survives the fold iff it is in the seed, in every additive collection and in no subtractive one |
| EdgeQueryFacts.FoldFromEmpty | src/graph/module/RelatedEdgeModule.java:176-177 | an empty intermediate result stays empty, so returning early is sound |
| EdgeQueryFacts.CandidatesMeaning | src/graph/module/RelatedEdgeModule.java:165-178 | with an additive concept constraint, the fold is the declarative answer: the indexed edges meeting every additive and no subtractive concept constraint |
| EdgeQueryFacts.ExecuteMeaning | src/graph/module/RelatedEdgeModule.java:162-182 | `execute` is the non-concept filter applied to that declarative answer |
| EdgeQueryFacts.ExecuteWithoutConcepts | src/graph/module/RelatedEdgeModule.java:61-68 | with no concept constraint, `execute` returns null |
| EdgeQueryFacts.AllSubtractive | src/graph/module/RelatedEdgeModule.java:165-177 | with only subtractive concept constraints, the seed is a smallest subtractive collection and the rest are removed from it |
| EdgeQueryFacts.SmallestFirst | src/graph/module/RelatedEdgeModule.java:233-242 | among subtractive collections, the sorted order starts with a smallest one |
| EdgeQueryFacts.SubtractiveFold | src/graph/module/RelatedEdgeModule.java:173-174 | folding subtractive collections removes exactly their edges |
| EdgeQueryFacts.SingleNodeQuery | src/graph/module/RelatedEdgeModule.java:109-110 | `execute(n)` is every indexed edge that contains `n` anywhere |
| EdgeQueryFacts.PositionalQuery | src/graph/module/RelatedEdgeModule.java:129-136 | `execute(n, p)` with `p > 0` is every indexed edge with `n` at position `p` |
| EdgeQueryFacts.CheckEdgeMeaning | src/graph/module/RelatedEdgeModule.java:73-86 | an edge passes the non-concept checks iff each holds: equality at the index, or membership when there is no index |
| EdgeQueryFacts.CheckEdgeThrows | src/graph/module/RelatedEdgeModule.java:82 | a check throws only for an index outside the edge's node array |
| EdgeQueryFacts.IndexAdd | src/graph/module/RelatedEdgeModule.java:148-155 | adding an edge to the bucket of each of its concept nodes keeps the index invariant, now including the edge |
| EdgeQueryFacts.IndexRemove | src/graph/module/RelatedEdgeModule.java:189-198 | taking an edge out of its buckets keeps the index invariant, now without the edge |
| EdgeQueryFacts.IndexedIff | src/graph/module/RelatedEdgeModule.java:189-198 | an edge is indexed iff the bucket of one of its concept nodes at that node's position holds it |
| EdgeQueryFacts.ParseIndexed | src/graph/module/RelatedEdgeModule.java:36-43 | `asIndexed(nodes)` reads back as node `i` at position `i + 1` |
| EdgeQueryFacts.IndexedAt | src/graph/module/RelatedEdgeModule.java:36-43 | slot `2i` of `asIndexed` is node `i` and slot `2i + 1` is `i + 1` |
| EdgeQueryFacts.PositionalAt | src/graph/module/RelatedEdgeModule.java:36-43 | the positional constraints put node `i` at position `i + 1` |
| EdgeQueryFacts.FindByNodesMeaning | src/graph/module/RelatedEdgeModule.java:184-187 | the arity-checked search is exactly the stored edges whose nodes are `nodes`, given a concept node |
| EdgeQueryFacts.FindByNodesWithoutConcepts | src/graph/module/RelatedEdgeModule.java:184-187 | without a concept node, the search returns null |
| EdgeQueryFacts.PrefixEdgeMatches | src/graph/module/RelatedEdgeModule.java:184-187 | as written, searching for (isa, cow) finds the stored edge (isa, cow, mammal) |
| EdgeQueryFacts.ShorterEdgeThrows | src/graph/module/RelatedEdgeModule.java:184-187 | as written, searching for (isa, cow, "x") over the stored edge (isa, cow) throws in the filter |
| RelatedEdges.RelatedEdgeModule.constructor | src/graph/module/RelatedEdgeModule.java:34 | a new module indexes no edge |
| RelatedEdges.RelatedEdgeModule.AsIndexed | src/graph/module/RelatedEdgeModule.java:36-43 | the array has length `2n`, with node `i` at `2i` and `i + 1` at `2i + 1` |
| RelatedEdges.RelatedEdgeModule.GetEdges | src/graph/module/RelatedEdgeModule.java:98-119 | without creation: the node's bucket at the key, or all its edges without a key; empty for an unknown node or key; the index is unchanged |
| RelatedEdges.RelatedEdgeModule.LocateEdgeCollections | src/graph/module/RelatedEdgeModule.java:121-146 | a class-cast error for an integer in node position; otherwise one collection per concept constraint; a negative selector makes it subtractive |
| RelatedEdges.RelatedEdgeModule.Candidates | src/graph/module/RelatedEdgeModule.java:165-178 | the loop computes the fold of the sorted collections, returning early on an empty result |
| RelatedEdges.RelatedEdgeModule.CheckNonConcepts | src/graph/module/RelatedEdgeModule.java:73-86 | the inner loop passes an edge iff every non-concept constraint matches it, stopping at the first mismatch |
| RelatedEdges.RelatedEdgeModule.FilterNonDags | src/graph/module/RelatedEdgeModule.java:45-96 | `filterNonDAGs`: null or no non-concept constraint passes the candidates through; otherwise the candidates that pass all checks, which is a subset |
| RelatedEdges.RelatedEdgeModule.Execute | src/graph/module/RelatedEdgeModule.java:162-182 | `execute` computes the query's meaning over the current index |
| RelatedEdges.RelatedEdgeModule.FindEdgeByNodesAsWritten | src/graph/module/RelatedEdgeModule.java:184-187 | `findEdgeByNodes` as written is `execute(asIndexed(nodes))` |
| RelatedEdges.RelatedEdgeModule.FindEdgeByNodes | src/graph/module/RelatedEdgeModule.java:184-187 | the edges whose node sequence is exactly `nodes`, or null with no concept node |
| RelatedEdges.RelatedEdgeModule.AddEdge | src/graph/module/RelatedEdgeModule.java:148-155 | the module now indexes the edge iff it has a concept node; the call always returns true |
| RelatedEdges.RelatedEdgeModule.RemoveEdge | src/graph/module/RelatedEdgeModule.java:189-198 | the edge is no longer indexed and every other edge stays; the result is true iff it was. No node key and no position key is added, as `locateEdgeCollections(false, …)` creates none |
| RelatedEdges.RelatedEdgeModule.DropAt | src/graph/module/RelatedEdgeModule.java:195-196 | one bucket loses the edge and the others keep theirs; the node keys and each node's position keys are unchanged, so no bucket is created; the result says whether the edge was there |
| RelatedEdges.RelatedEdgeModule.Clear | src/graph/module/RelatedEdgeModule.java:157-160 | the index is empty |
| Graph.AssignableToRelated | src/graph/core/DirectedAcyclicGraph.java:395-406 | only the related-edge module is assignable to its class |
| Graph.Effect | src/graph/module/RelatedEdgeModule.java:148-198 | what each hook does to the related-edge module's edge set: add an edge with a concept node, remove an edge, empty on clear, nothing otherwise |
| Graph.EffectIdempotent | src/graph/core/DirectedAcyclicGraph.java:245-246 | running the related-edge hook twice, through two registry keys, equals running it once |
| Graph.DecimalRoundTrip | src/graph/core/DirectedAcyclicGraph.java:360-361 | a node's id written in decimal is all digits and parses back to the id |
| Graph.Classify | src/graph/core/DirectedAcyclicGraph.java:354-366 | the order of the parse cases: null only for no text; all-digit text is always the id case; the name case excludes digits and the empty text under `createNew` |
| Graph.ConceptsCheckMeaning | src/graph/core/DirectedAcyclicGraph.java:307-313 | the existence check passes iff every concept node is stored; it fails only on a missing concept node and throws only on an id beyond a long |
| Graph.Without | src/graph/core/DirectedAcyclicGraph.java:543-553 | the edge table minus the edges of a set, with the rest kept under their ids |
| Graph.WithoutStep | src/graph/core/DirectedAcyclicGraph.java:543-544 | removing one edge and then the rest of a set removes the whole set |
| Graph.DirectedAcyclicGraph.DistinctTuples | src/graph/core/DirectedAcyclicGraph.java:304-316 | no two stored edges have the same nodes |
| Graph.DirectedAcyclicGraph.StoredHaveConcept | src/graph/module/RelatedEdgeModule.java:139-140 | every stored edge holds a concept node |
| Graph.DirectedAcyclicGraph.constructor | src/graph/core/DirectedAcyclicGraph.java:90-113 | a new store has empty tables and an empty registry |
| Graph.DirectedAcyclicGraph.Notify | src/graph/module/RelatedEdgeModule.java:148-198 | the related-edge module's hook applies the event's effect to its edge set |
| Graph.DirectedAcyclicGraph.Fire | src/graph/core/DirectedAcyclicGraph.java:253-255 | a hook round reaches every registry key; the related index changes by the event's effect iff that module is registered |
| Graph.DirectedAcyclicGraph.CallHooks | src/graph/core/DirectedAcyclicGraph.java:245-246 | the loop calls the hook once per registry key and reports whether the related-edge module was among them |
| Graph.DirectedAcyclicGraph.AddModule | src/graph/core/DirectedAcyclicGraph.java:222-225 | the module is registered under its class name, replacing any module there |
| Graph.DirectedAcyclicGraph.GetModule | src/graph/core/DirectedAcyclicGraph.java:395-406 | an exact hit is returned with no change; otherwise the first assignable module is cached under the requested name and returned; otherwise null and no change |
| Graph.DirectedAcyclicGraph.GetNamedModule | src/graph/core/DirectedAcyclicGraph.java:395-406 | a request for the related-edge or alias class answers iff that module is registered, and leaves the registry unchanged |
| Graph.DirectedAcyclicGraph.GetNodeById | src/graph/core/DirectedAcyclicGraph.java:419-421 | the node with that id, null iff there is none |
| Graph.DirectedAcyclicGraph.GetEdgeById | src/graph/core/DirectedAcyclicGraph.java:391-393 | the edge with that id, null iff there is none |
| Graph.DirectedAcyclicGraph.GetNumNodes | src/graph/core/DirectedAcyclicGraph.java:427-429 | the number of stored nodes |
| Graph.DirectedAcyclicGraph.GetNumEdges | src/graph/core/DirectedAcyclicGraph.java:423-425 | the number of stored edges |
| Graph.DirectedAcyclicGraph.FindDagNode | src/graph/core/DirectedAcyclicGraph.java:258-267 | throws without the alias module; null iff no node has the name; otherwise a stored node with that name |
| Graph.DirectedAcyclicGraph.FindOrCreateNamed | src/graph/core/DirectedAcyclicGraph.java:366-378 | a found node is returned as is; a new node is created only when lookup fails, `createNew` holds and the name is valid; it gets the next id and is announced once per key |
| Graph.DirectedAcyclicGraph.InsertNode | src/graph/core/DirectedAcyclicGraph.java:368-375 | the node is stored under the next id, is retrievable by that id, and the `addNode` round is logged |
| Graph.DirectedAcyclicGraph.FindOrCreateNode | src/graph/core/DirectedAcyclicGraph.java:348-382 | the result for each parse case in order: null; an unstored fresh node; a string literal; an id lookup that never creates; a primitive; the by-name outcome. Only the by-name case changes the node table |
| Graph.DirectedAcyclicGraph.FindOrCreateNodeTwice | src/graph/core/DirectedAcyclicGraph.java:366-378 | two calls with the same name give the same answer, and the node table grows by at most one |
| Graph.DirectedAcyclicGraph.FindEdge | src/graph/core/DirectedAcyclicGraph.java:276-285 | built on the corrected search (see Findings): throws without the related-edge module or without a concept node; otherwise the stored edge with exactly these nodes, null iff none |
| Graph.DirectedAcyclicGraph.FindEdgeAsWritten | src/graph/core/DirectedAcyclicGraph.java:276-285 | `findEdge` over the search as written: throws without the related-edge module, passes on the search's exception, throws when it returns null, and otherwise returns null iff the hits are empty, else one of the hits |
| Graph.DirectedAcyclicGraph.CheckConcepts | src/graph/core/DirectedAcyclicGraph.java:307-313 | the loop computes the existence check and leaves the node table unchanged |
| Graph.DirectedAcyclicGraph.LookupConcept | src/graph/core/DirectedAcyclicGraph.java:309-311 | `findOrCreateNode` on a concept node's identifier finds it iff its id is stored, and throws for an id beyond a long |
| Graph.DirectedAcyclicGraph.InsertEdge | src/graph/core/DirectedAcyclicGraph.java:315-321 | the new edge gets the next id, joins the table and the index, and the `addEdge` round is logged |
| Graph.DirectedAcyclicGraph.StoreEdge | src/graph/core/DirectedAcyclicGraph.java:315-316 | the edge table gains exactly the new edge |
| Graph.DirectedAcyclicGraph.FindOrCreateEdge | src/graph/core/DirectedAcyclicGraph.java:300-327 | an existing edge is returned with the tables unchanged. Otherwise, with checks on: a concept node missing from the table gives the error edge with nothing stored and no hook run, and an id beyond a long throws; with checks off or every concept node present, exactly one new edge is stored under the next id and announced. The error edge is returned only for a missing concept node. A missing module or concept node throws |
| Graph.DirectedAcyclicGraph.CreateEdge | src/graph/core/DirectedAcyclicGraph.java:306-321 | the check-then-insert half of `findOrCreateEdge`, in both directions: with checks on, a failed existence check gives the error edge with nothing stored and no hook run, and a check that throws stores nothing; with checks off or a passed check, the new edge is stored under the next id and announced |
| Graph.DirectedAcyclicGraph.FindOrCreateEdgeTwice | src/graph/core/DirectedAcyclicGraph.java:304-305 | once an edge is returned, asking again for the same nodes returns the same edge |
| Graph.DirectedAcyclicGraph.RemoveEdge | src/graph/core/DirectedAcyclicGraph.java:487-505 | false for null or an absent edge, with nothing changed. Otherwise the edge leaves the table and the index, and the `removeEdge` round is logged. The node table is outside its frame |
| Graph.DirectedAcyclicGraph.DropEdge | src/graph/core/DirectedAcyclicGraph.java:494 | the edge table loses exactly that edge |
| Graph.DirectedAcyclicGraph.RemoveEdgeById | src/graph/core/DirectedAcyclicGraph.java:514-516 | true iff an edge had that id; then it is gone and its `removeEdge` round is logged, otherwise nothing changes |
| Graph.DirectedAcyclicGraph.RemoveEach | src/graph/core/DirectedAcyclicGraph.java:543-553 | removing each edge of a set leaves the table without exactly those edges, and logs one `removeEdge` round per edge, each edge once |
| Graph.DirectedAcyclicGraph.RemoveNode | src/graph/core/DirectedAcyclicGraph.java:527-564 | false for null or an absent node, with nothing changed. Otherwise the node is removed, exactly the edges containing it are removed, and all other edges stay; the log gains one `removeEdge` round per removed edge, each once, then the `removeNode` round |
| Graph.DirectedAcyclicGraph.RelatedEdgesOf | src/graph/core/DirectedAcyclicGraph.java:538-553 | the edges `removeNode` takes out are exactly the stored edges containing the node, whether found by query or by scan |
| Graph.DirectedAcyclicGraph.ScanEdges | src/graph/core/DirectedAcyclicGraph.java:546-550 | the scan collects exactly the stored edges containing the node |
| Graph.DirectedAcyclicGraph.RemoveNodeById | src/graph/core/DirectedAcyclicGraph.java:574-576 | true iff a node had that id; then it is gone, the edges containing it are removed with one `removeEdge` round each, and the `removeNode` round follows; otherwise nothing changes |
| Graph.DirectedAcyclicGraph.AddProperty | src/graph/core/DirectedAcyclicGraph.java:237-247 | the object's property is set, other objects keep theirs, and the round is logged |
| Graph.DirectedAcyclicGraph.RemoveProperty | src/graph/core/DirectedAcyclicGraph.java:578-583 | the object's property is dropped, other objects keep theirs, and the round is logged |
| Graph.DirectedAcyclicGraph.Clear | src/graph/core/DirectedAcyclicGraph.java:249-256 | both tables are empty, the index is empty, and the `clear` round is logged |

## Left out

- Locks and `synchronized`: every operation is atomic and sequential.
- Reading and saving state, serialisation, `saveState`, `shutdown`: file
  I/O. The constructor builds an empty store instead of reading files.
- `getRandomNode`/`getRandomEdge`: randomness and floating point.
- Console output: the warnings about duplicate names and edges, and
  `toString` of the module.
- `DAGNode.isValidName` and `PrimitiveNode.parseNode` are not part of this
  model. They are the store's parameters `isValidName` and
  `parsePrimitive`.
- `preParseNode` is the identity, as in the source.
- `DAGNode.getIdentifier` is not part of this model.
  - It is taken to be the node's id in decimal, so the existence check of
    `findOrCreateEdge` is an id lookup.
  - That lookup never creates a node, so `createNodes` has no effect there.
- The alias module's `findNodeByName` is not part of this model. It is
  taken to be a lookup by name in the node table. Node names are unique in
  the model, which makes the first match the only one.
- `DAGNode` equality is modelled as equal id and name, and `DAGEdge`
  equality as equal id and nodes.
  - `removeEdge` and `removeNode` treat an object that differs from the
    stored one as absent.
- The `creator` arguments are not modelled; nodes and edges carry no
  creator.
- Graph.DirectedAcyclicGraph.FindEdge: built on the corrected search
  `FindEdgeByNodes`, which matches only edges of the same length. The
  source's search has no length check (see Findings);
  `FindEdgeAsWritten` models it.
- Graph.DirectedAcyclicGraph.FindOrCreateEdge: built on `FindEdge`, so on
  the corrected search. As written, a longer stored edge with the given
  nodes as a prefix is returned instead of storing a new edge, and a
  shorter stored edge can make the call throw.
- Graph.DirectedAcyclicGraph.InsertEdge: the source returns the new edge
  unstored and runs no hook when `edges_.add` fails. In the model that
  insert cannot fail, because the id is fresh and no stored edge has these
  nodes.
- StringNodes.HashCode: the fold runs over Dafny characters, which are
  Unicode scalar values. Java's `String.hashCode` runs over UTF-16 code
  units, so the two differ for a character outside the Basic Multilingual
  Plane (for U+1F600 the model gives 128512 and Java 1772899).
- Graph.DirectedAcyclicGraph.FindOrCreateNamed: the source returns null
  when the table insert fails. In the model that insert cannot fail,
  because the name is unknown and the id is fresh.
- The `allowVariables` argument is accepted and unused, as in the code. The
  `?`-prefix check on variables sits in `parseNodes`, which is outside the
  core.
- Graph.DirectedAcyclicGraph.FindOrCreateNode: the anonymous node that
  `createNew` with empty text gives is not stored. The model consumes an
  id for it and runs no hook.
- Modules other than the related-edge and alias modules are values with a
  class name and supertype names. Their hooks are recorded in the log, not
  executed.
  - These modules are assumed not to be subclasses of the two named
    modules (`WellFormed`).
  - `DAGModule`'s hooks and persistence are not part of this model.
- Graph.DirectedAcyclicGraph.Fire: `modules_.values()` calls a module once
  per registry key. A module cached by `getModule` under a second name is
  therefore called twice.
  - The log records the keys of each round.
  - The related-edge module's hook is applied once. `EffectIdempotent`
    shows that a second call changes nothing.
  - Hook order within a round is not modelled.
- There is one related-edge module object. Registering it makes its index
  the one the store keeps in step.
  - The model's invariant ties that index to the edge table.
  - Edges exist only while the module is registered. Without it,
    `findOrCreateEdge` throws before storing anything.
- `idModule_` re-resolution of edges through `getEdgeByID` is the identity.
- EdgeQuery.Sort: `Collections.sort` is a stable merge sort; the model uses
  a stable insertion sort. The proofs cover ordering and permutation, not
  stability itself.
- Sizes (`getNumNodes`, `getNumEdges`, `EdgeCol.size`) are unbounded
  integers, not Java `int`.
- Graph.DirectedAcyclicGraph.RemoveEach: the loop over the edges to remove
  is written as recursion, one `removeEdge` per step.
- Properties are kept in a map in the store, not on the node or edge
  objects. The `update` of the indexed collections after `put` is not
  modelled.
- A query without a concept node returns null, not all edges
  (`EdgeQueryFacts.ExecuteWithoutConcepts`), as in the code.

## Findings

| source | as written | input that shows it | evidently intended | confidence | as-written member | corrected member |
|---|---|---|---|---|---|---|
| src/graph/module/RelatedEdgeModule.java:184-187 | `findEdgeByNodes` queries each node at its position and never checks the edge's length | stored edge (isa, cow, mammal), search (isa, cow): the longer edge is returned, so `findEdge` reports it and `findOrCreateEdge` never stores (isa, cow). Stored edge (isa, cow), search (isa, cow, "x"): `filterNonDAGs` indexes past the end and throws | only edges whose nodes are exactly the given nodes, as `findEdge` documents | not executed | EdgeQueryFacts.PrefixEdgeMatches, EdgeQueryFacts.ShorterEdgeThrows, RelatedEdges.RelatedEdgeModule.FindEdgeByNodesAsWritten, Graph.DirectedAcyclicGraph.FindEdgeAsWritten | RelatedEdges.RelatedEdgeModule.FindEdgeByNodes, EdgeQueryFacts.FindByNodesMeaning |
