# pybel-tools core, modelled in Dafny

This project models the core of pybel-tools, a toolbox around pybel's
`BELGraph`: a networkx multigraph whose nodes are pybel node tuples
(`(FUNCTION, NAMESPACE, NAME, …)`) carrying attribute dictionaries, and
whose edges carry a `relation` and optional citation, evidence and
annotations.

The modelled parts are:

- **the reified-graph assembler** (`Reified`): every BEL edge is turned into
  a reified statement node with `subject` and `object` role edges, chosen by
  the first matching converter in a fixed list (translation, transcription,
  phosphorylation, hydroxylation, activation, degradation, promotion of
  translation, abundance, has-variant); edges no converter accepts are
  skipped;
- **graph mutation** (`Mutation`, `Collapse`, `Inference`, `Pruning`,
  `Integration`): left merge, collapsing nodes (and the central dogma
  GENE → RNA → PROTEIN) onto key nodes with networkx 1.x `add_edge`
  semantics, inferring central-dogma and inverse edges, pruning by
  namespace or function, merging node attributes;
- **selection and comparison** (`Selection`, `Utils`, `Comparison`,
  `Expansion`, `Neighbourhood`): sub-graphs by annotation or node set,
  edge counters, content and provenance comparisons, sub-graph expansion
  and fill-in edges, the neighbourhood service;
- **documents and namespaces** (`Documents`, `Belns`, `DefinitionUtils`,
  `NamespaceUtils`, `Owl`, `Orthology`): BEL document headers and
  boilerplate as line lists, BEL namespace files, OWL-derived namespaces,
  orthology files and their collapse;
- **summaries** (`Summary`, `ErrorSummary`): counters over relations,
  functions, namespaces, annotations and parser warnings.

The graph substrate lives in `BelGraph` (graph datatype, well-formedness,
`add_node`/`add_edge`/`remove_node` semantics); `Wrappers`, `Seqs`, `Text`
and `Sorting` are helpers.

Conventions:

- A graph is `Graph(nodes, attrs, edges)`: the node order, the node
  attribute map, and the edges as `Edge(u, v, key, data)` in iteration
  order. networkx's per-node grouping of iteration is abstracted to one
  sequence order.
- Python exceptions (`KeyError`, `NetworkXError`, …) are the `Failure`
  case of a `Result`.
- Counters are multisets; Python dicts are maps; lists of output lines are
  `seq<string>`.
- Relation names and the relation sets the code uses (the causal
  increase and decrease sets, the inverse-relation table) are constants
  with pybel's values; `unqualified_edge_code`, the allowed namespace
  domains, the default encodings, the default namespace and annotation
  URL tables (`defaults`), the clock and the user name are parameters.
- The source is Python 3. Where a loop over a networkx 1.x `edges_iter`
  generator adds edges as it goes, it is modelled twice: as written (the
  generator reads the live dictionaries, each edge's data when it is
  reached, and raises `RuntimeError` when a dictionary it is walking
  grew), and corrected, over the list of edges taken when the loop
  starts; "## Findings" pairs the two.
- `collapse_nodes` also walks live dictionaries, but a copy lands in a
  dictionary it is walking only when a node is in its own group, and a
  qualified copy then raises `RuntimeError` at once; that case is part of
  Collapse.MoveEdge, and otherwise the loops are modelled over the value
  node's edges in iteration order.

## Model

| member | source | states |
|---|---|---|
| Reified.FirstMatch | src/pybel_tools/assembler/reified_graph/assembler.py:239-241 | there is no converter exactly when no predicate in the list accepts the edge; otherwise the converter found is one in the list whose predicate accepts it |
| Reified.ReifyEdge | src/pybel_tools/assembler/reified_graph/assembler.py:223-247 | a conversion keeps the edge's subject and object; it is positive exactly for an increase or `regulates`, and negative exactly for a decrease or `regulates` |
| Reified.ReifyEdgeIsFirstMatch | src/pybel_tools/assembler/reified_graph/assembler.py:228-247 | the outcome is the conversion by the first converter in list order whose predicate holds, and the edge is unmatched exactly when none holds |
| Reified.CausalIsNotDogma | src/pybel_tools/assembler/reified_graph/assembler.py:202-217 | no causal relation name is a substring of `transcribedTo` or `translatedTo`, so the central-dogma converters never see a causal edge |
| Reified.CausalLabel | src/pybel_tools/assembler/reified_graph/assembler.py:86-238 | every causal edge is converted: a phosphorylated object gives `phosphorylates`, then a hydroxylated one `hydroxylates`; an increase of an activity gives `activates` and of a degradation `degradates`; an RNA object gives `translates`; anything else gives `abundance` |
| Reified.NonCausalOutcome | src/pybel_tools/assembler/reified_graph/assembler.py:133-247 | a non-causal edge is converted exactly when a central-dogma converter accepts it, and then labelled `translates`; `hasVariant` edges, and only they, are dropped on purpose |
| Reified.TranslationAcceptsSubstrings | src/pybel_tools/assembler/reified_graph/assembler.py:203-217 | the `in` test on a string accepts any piece of `translatedTo`: a relation `To` from an RNA to a protein is converted |
| Reified.Conversions | src/pybel_tools/assembler/reified_graph/assembler.py:259-260 | a conversion is in the list exactly when some outcome is that conversion, and the list is at most as long as the outcomes |
| Reified.ConversionsOfOne | src/pybel_tools/assembler/reified_graph/assembler.py:259-260 | one outcome contributes its conversion when it is one, and nothing otherwise |
| Reified.ConversionsAppend | src/pybel_tools/assembler/reified_graph/assembler.py:259-260 | the conversions keep the outcomes' order: those of `a + b` are those of `a` followed by those of `b` |
| Reified.Assemble | src/pybel_tools/assembler/reified_graph/assembler.py:253-268 | there is one statement node per conversion, numbered 0, 1, … in order, since the counter advances only on a conversion |
| Reified.Reify | src/pybel_tools/assembler/reified_graph/assembler.py:250-270 | `reify_bel_graph` makes one statement node per converted edge |
| Reified.AssembleStatements | src/pybel_tools/assembler/reified_graph/assembler.py:261-266 | statement i carries the label and the (positive, negative) pair of the i-th conversion |
| Reified.AssembleRoleEdges | src/pybel_tools/assembler/reified_graph/assembler.py:267-268 | every conversion has its subject edge and its object edge into its statement, and there are no other role edges |
| Reified.AssembleRoleLabels | src/pybel_tools/assembler/reified_graph/assembler.py:267-268 | object edges are labelled `object`; a subject edge is labelled `subject` unless subject and object coincide, when the single edge keeps the later `object` label |
| Reified.AssembleEntities | src/pybel_tools/assembler/reified_graph/assembler.py:264-268 | the entity nodes are exactly the entities that have a role edge |
| Reified.NothingConvertedMeansEmpty | src/pybel_tools/assembler/reified_graph/assembler.py:259-260 | edges that are not converted leave no trace: outcomes with no conversion give the empty graph |
| Reified.ReifyTwo | src/pybel_tools/assembler/reified_graph/assembler.py:255-268 | two converted edges give statements 0 and 1, in edge order |
| Reified.TestDephosphorylates | src/pybel_tools/assembler/reified_graph/assembler.py:315-338 | `act(p(CDK5)) -\| p(MAPT, pmod(Ph))` gives one `phosphorylates` statement that is negative only |
| Reified.TestPhosphorylates | src/pybel_tools/assembler/reified_graph/assembler.py:340-363 | `act(p(CDK5)) => p(MAPT, pmod(Ph))` gives one positive `phosphorylates` statement |
| Reified.TestTwoPhosphorylations | src/pybel_tools/assembler/reified_graph/assembler.py:365-394 | two kinases phosphorylating the same protein give two statements, both with MAPT as object |
| Reified.TestActivates | src/pybel_tools/assembler/reified_graph/assembler.py:396-418 | `p(CDK5) => act(p(CASP8))` gives one positive `activates` statement |
| Reified.TestIncreasesAbundance | src/pybel_tools/assembler/reified_graph/assembler.py:420-443 | `a(oxaliplatin) -> a(ROS)` gives one positive `abundance` statement |
| Reified.TestDegradates | src/pybel_tools/assembler/reified_graph/assembler.py:445-472 | `a(Microglia) -> deg(a(amyloid-beta))` gives one positive `degradates` statement |
| Reified.TestPromotesTranslation | src/pybel_tools/assembler/reified_graph/assembler.py:474-502 | `act(p(CTNNB1)) -> r(BIRC5)` gives one positive `translates` statement |
| Reified.TestAbundanceThenPhosphorylates | src/pybel_tools/assembler/reified_graph/assembler.py:504-544 | an abundance change followed by a phosphorylation gives the same entities and the same statements, up to numbering, whichever order the edges come in |
| Reified.SelfLoopKeepsObjectLabel | src/pybel_tools/assembler/reified_graph/assembler.py:267-268 | a self-referencing edge gives a single role edge, labelled `object` |
| Integration.OverlayData | src/pybel_tools/integration.py:13-31 | `overlay_data` adds no node, touches no edge and keeps the graph well-formed |
| Integration.OverlayDataAt | src/pybel_tools/integration.py:24-31 | each node is overlaid once, with the table's value for it, judged against its dictionary before the overlay |
| Integration.OverlayDataSpec | src/pybel_tools/integration.py:24-31 | only the label changes, only on nodes the table names; an existing label survives unless `overwrite` is set; otherwise the node gets the table's value |
| Integration.TypeItems | src/pybel_tools/integration.py:55-62 | building `new_data` raises `KeyError` exactly when a node with a namespace lacks a function, or matches and lacks a name; it holds one entry per matching node, with the table's value for its name or `impute` |
| Integration.OverlayTypeData | src/pybel_tools/integration.py:34-64 | `overlay_type_data` keeps the graph well-formed |
| Integration.OverlayTypeDataSpec | src/pybel_tools/integration.py:57-64 | it raises exactly when some node cannot be read; otherwise every node with the function and namespace gets `data.get(name, impute)` under the label unless it has one and `overwrite` is off, and every other node is left alone |
| Integration.TupleLookup | src/pybel_tools/operations.py:74 | re-keying loses nothing: the tuple table answers for a node what the name table answers for its name, and no other node is in it |
| Integration.OverlayTupleData | src/pybel_tools/operations.py:55-75 | the `operations` variant adds no node and touches no edge |
| Integration.OverlayTupleDataSpec | src/pybel_tools/operations.py:74-75 | a node `(function, namespace, name)` gets the table's value for `name`, under the same `overwrite` rule; a node the table does not name is unaffected, since nothing is imputed |
| Integration.TestOverlayTypeData | tests/test_integrate.py:12-42 | genes `a`, `b`, `c` get 1, 2 and -1 and gene `d` the imputed 0 |
| Integration.TestOverlayTypeDataSkips | tests/test_integrate.py:36-37 | the RNA and the protein get no label |
| Mutation.MergeEdgeSpec | src/pybel_tools/mutation.py:33-40 | one step keeps the edges of `g`, leaves the edge of `h` represented, changes nothing when it already was, and adds at most a copy of it |
| Mutation.MergeEdges | src/pybel_tools/mutation.py:33-40 | the edge loop keeps the nodes and a well-formed graph |
| Mutation.MergeEdgesSpec | src/pybel_tools/mutation.py:33-40 | the edge loop keeps every edge of `g`, leaves every edge of `h` represented, and adds nothing but copies of edges of `h` |
| Mutation.MergeNodes | src/pybel_tools/mutation.py:29-31 | every node of `h` ends up in `g`; nodes already in `g` keep their dictionary and new ones bring `h`'s |
| Mutation.LeftMerge | src/pybel_tools/mutation.py:18-40 | the corrected `left_merge` keeps the graph well-formed |
| Mutation.LeftMergeNodes | src/pybel_tools/mutation.py:29-31 | every node of `h` ends up in `g`, nodes already in `g` keep their own dictionary, and new nodes bring `h`'s |
| Mutation.LeftMergeEdges | src/pybel_tools/operations.py:24-31 | the edges of `g` stay as they were, every edge of `h` is represented afterwards, and every added edge copies an edge of `h` that `g` did not represent |
| Mutation.MergeEdgesNoop | src/pybel_tools/mutation.py:34-40 | a graph that already represents every edge is left as it is |
| Mutation.LeftMergeIdempotent | src/pybel_tools/mutation.py:18-40 | merging the same graph a second time adds nothing |
| Mutation.MergeEdgeAsWritten | src/pybel_tools/mutation.py:36-39 | as written, one step raises `KeyError` exactly when `g` has no edge between the pair yet; otherwise it agrees with the corrected step |
| Mutation.LeftMergeAsWrittenAgrees | src/pybel_tools/mutation.py:18-40 | where `left_merge` as written succeeds, it agrees with the corrected merge |
| Mutation.LeftMergeAsWrittenFailsOnNewPair | src/pybel_tools/mutation.py:33-39 | as written, merging raises at the first edge of `h` that joins a pair neither `g` nor an earlier edge of `h` joins |
| Mutation.TestLeftMergeAsWritten | tests/test_integrate.py:44-113 | as written, the merge of the test raises `KeyError` at the `p1 -> p3` edge |
| Mutation.TestLeftMerge | tests/test_integrate.py:108-120 | corrected, the merge copies both edges `g` lacked: the second `p1 -> p2` statement and the `p1 -> p3` one |
| Mutation.TestLeftMergeNodes | tests/test_integrate.py:115-119 | the merged graph has the three nodes of `h` |
| Collapse.MoveEdgeSpec | src/pybel_tools/mutation.py:53-64 | a qualified edge of a value node raises `RuntimeError` exactly when its copy lands in the key dictionary being walked (the key node is the value node) and is otherwise copied onto the key node; an unqualified one fails exactly when the key node is missing, or when its slot is free and its key has no relation name |
| Collapse.MoveEdges | src/pybel_tools/mutation.py:54-66 | after the inner loops every edge of the snapshot has its copy on the key node, and no edge or node dictionary already there is lost |
| Collapse.MoveEdgesQualified | src/pybel_tools/mutation.py:53-57 | with only qualified edges around, moving them raises `RuntimeError` exactly when one is copied into the dictionary being walked, and otherwise adds only qualified edges |
| Collapse.MoveEdgesIntoWalked | src/pybel_tools/mutation.py:53-64 | when every edge walked is copied back into the dictionary being walked, the unqualified ones find their slot taken and change nothing, and the first qualified one raises `RuntimeError` |
| Collapse.CollapseValueQualified | src/pybel_tools/mutation.py:52-68 | collapsing a present node in a graph of qualified edges fails exactly when the node is its own key node and has an edge, and otherwise keeps every edge qualified |
| Collapse.CollapseKeyIsValue | src/pybel_tools/mutation.py:52-68 | a node collapsed onto itself raises `RuntimeError` exactly when it has a qualified edge; otherwise its unqualified edges change nothing and the node is just removed |
| Collapse.CollapseValue | src/pybel_tools/mutation.py:52-68 | collapsing a value node missing from the graph raises `NetworkXError`; a successful collapse removes it |
| Collapse.CollapseValueSteps | src/pybel_tools/mutation.py:54-68 | the out-edges are copied first, then the in-edges read after that copy, then the value node is removed |
| Collapse.CollapseValueNodes | src/pybel_tools/mutation.py:52-68 | collapsing one value node removes it, may add the key node, and leaves every other node's dictionary alone |
| Collapse.CollapseValueEdges | src/pybel_tools/mutation.py:52-68 | collapsing one value node keeps the edges away from it, and every edge it adds touches the key node |
| Collapse.CollapseValueCopies | src/pybel_tools/mutation.py:54-66 | every edge between the value node and another node has its copy on the key node |
| Collapse.Assignments | src/pybel_tools/mutation.py:52-53 | the (key node, value node) pairs the two outer loops visit are exactly the group members under their keys |
| Collapse.CollapseNodes | src/pybel_tools/mutation.py:43-73 | `collapse_nodes` leaves a well-formed graph without self-loops |
| Collapse.CollapseAllNodesFrom | src/pybel_tools/mutation.py:52-68 | whatever the groups, collapsing adds no node but key nodes |
| Collapse.CollapseAllNodes | src/pybel_tools/mutation.py:52-68 | when no node is both a key and a member and none is a member twice, the members are gone and every other node keeps its dictionary |
| Collapse.CollapseAllEdges | src/pybel_tools/mutation.py:52-68 | under the same condition the edges away from members stay, and every edge added touches a key node |
| Collapse.CollapseAllCopies | src/pybel_tools/mutation.py:52-68 | under the same condition every edge between a member and a node outside the groups has its copy on the member's key node |
| Collapse.CollapseAllMissingValue | src/pybel_tools/mutation.py:68 | a member that is not in the graph and that no group makes a key node makes the loop raise |
| Collapse.CollapseNodesSpec | src/pybel_tools/mutation.py:43-73 | no collapsed node and no self-loop remains, the other nodes keep their dictionaries, the edges between other nodes stay, and each edge between a member and an outside node reappears on its key node |
| Collapse.CollapseNodesMissingValue | src/pybel_tools/mutation.py:43-68 | a collapsed node that is not in the graph and keys no group makes `collapse_nodes` raise |
| Collapse.AddMember | src/pybel_tools/mutation.py:92 | `collapse_dict[k].add(x)` adds `x` to the group of `k` only, creating the group if needed |
| Collapse.Translations | src/pybel_tools/mutation.py:88-93 | every `translatedTo` edge puts its RNA in its protein's group, and the RNA-to-protein map holds exactly the translated RNAs, each with one of its proteins |
| Collapse.TranslationsKeepLast | src/pybel_tools/mutation.py:88-93 | the protein recorded for a translated RNA is the target of its last `translatedTo` edge in edge order, since later edges overwrite earlier ones |
| Collapse.Transcriptions | src/pybel_tools/mutation.py:95-102 | every `transcribedTo` edge puts its gene in the group of the protein its RNA is translated to, or else in the RNA's group |
| Collapse.BuildCentralDogmaCollapseDict | src/pybel_tools/mutation.py:77-104 | it raises `KeyError` exactly when some edge has no relation; otherwise a node is in a group exactly when a translation or transcription edge puts it there |
| Collapse.CollapseByCentralDogma | src/pybel_tools/mutation.py:107-115 | a missing relation raises `KeyError`; a successful collapse leaves a well-formed graph without self-loops |
| Collapse.SelfTranslationDict | src/pybel_tools/mutation.py:77-104 | a `translatedTo` self-loop followed by an edge of another relation puts the node alone in its own group |
| Collapse.DogmaSelfTranslationRaises | src/pybel_tools/mutation.py:51-115 | a protein translated from itself, with a qualified edge to another protein, makes `collapse_by_central_dogma` raise `RuntimeError` |
| Collapse.CollapseOneQualified | src/pybel_tools/mutation.py:52-73 | collapsing one present node in a graph of qualified edges fails exactly when the node is its own key node and has an edge |
| Collapse.CollapseAllFirstFails | src/pybel_tools/mutation.py:51-52 | when collapsing the first pair raises, the outer loops raise that error |
| Collapse.CollapseOwnGroupRaises | src/pybel_tools/mutation.py:51-64 | `collapse_nodes` with `{A: {A}}` or `{A: {A, B}}`, `A` visited first and holding a qualified edge, raises `RuntimeError` |
| Collapse.CollapseOneNodes | src/pybel_tools/mutation.py:52-73 | collapsing one node onto another present node removes exactly that node |
| Collapse.TestCollapseNodes | tests/test_mutation.py:41-60 | collapsing `p2` onto `p1` leaves exactly the nodes `p1` and `p3` |
| Collapse.TestCollapseEdges | tests/test_mutation.py:41-61 | it keeps the `p1 -> p3` edge and gives `p1` a copy of `p2 -> p3` |
| Collapse.MoveEdgesSucceeds | src/pybel_tools/mutation.py:53-66 | moving edges whose unqualified keys all name an entry of the unqualified relation list fails exactly when a qualified one is copied into the dictionary being walked, and every unqualified key it leaves behind still names an entry |
| Collapse.CollapseValueSucceeds | src/pybel_tools/mutation.py:52-68 | collapsing a node that is present onto a key node that is present, when every unqualified key names an entry of the unqualified relation list, fails exactly when the node is its own key node and has a qualified edge |
| Collapse.CollapseAllSucceeds | src/pybel_tools/mutation.py:51-68 | collapsing any list of separate (key, value) pairs over present nodes never fails when every unqualified key names an entry of the list |
| Collapse.CollapseNodesSucceeds | src/pybel_tools/mutation.py:43-73 | `collapse_nodes` with a dictionary whose keys and members are all in the graph, no node both kept and collapsed, raises nothing |
| Collapse.TestCollapseEdgeCount | tests/test_mutation.py:41-61 | collapsing the second node of a three-node chain into the first leaves exactly two edges, the original one and the copy onto the key node |
| Collapse.TestCollapseDogmaTranslation | tests/test_mutation.py:63-81 | a protein with its translating RNA collapses to the protein alone, with no edge left |
| Collapse.TestCollapseDogmaChain | tests/test_mutation.py:83-99 | gene, RNA and protein linked by transcription and translation collapse to the protein alone, with no edge left |
| Collapse.TestCollapseDogmaTranscription | tests/test_mutation.py:101-115 | an RNA with its transcribing gene, and no protein, collapses to the RNA alone |
| Collapse.DogmaCollapse | src/pybel_tools/mutation.py:107-115 | when the central-dogma dictionary has one group covering every other node of the graph, collapsing leaves only that group's node and no edge |
| Inference.Converted | src/pybel_tools/mutation.py:118-124 | `_infer_converter_helper` gives the tuple with its function replaced and a copy of the dictionary whose function is the new one, every other entry kept |
| Inference.ConvertedRoundTrip | src/pybel_tools/mutation.py:118-124 | converting back to the original function restores the node and its dictionary |
| Inference.InferAt | src/pybel_tools/mutation.py:134-137 | one turn raises `KeyError` on a node without a function; a turn keeps every node, and a turn that changes the graph adds the converted node and its edge |
| Inference.InferEach | src/pybel_tools/mutation.py:133-137 | the loop keeps every node and a well-formed graph |
| Inference.InferTranslations | src/pybel_tools/mutation.py:127-137 | translation inference keeps the graph well-formed |
| Inference.InferTranscriptions | src/pybel_tools/mutation.py:140-150 | transcription inference keeps the graph well-formed |
| Inference.InferCentralDogma | src/pybel_tools/mutation.py:153-161 | inferring the central dogma keeps the graph well-formed |
| Inference.TargetOfSource | src/pybel_tools/mutation.py:119-121 | the converted node of a candidate is a target of the loop |
| Inference.InferAtNodes | src/pybel_tools/mutation.py:134-136 | a turn at a candidate succeeds and adds exactly the converted node |
| Inference.InferAtAttrs | src/pybel_tools/mutation.py:136-137 | the dictionaries after a turn are those of adding the converted node alone: the edge joins two nodes already there |
| Inference.InferAtEdges | src/pybel_tools/mutation.py:137 | a turn at a candidate stores the edge from the converted node with the fixed key and the relation, and changes no other slot |
| Inference.SourcesStep | src/pybel_tools/mutation.py:133-134 | the nodes the rest of the loop converts are those it converted before, less the first one, with dictionaries unchanged |
| Inference.InferEachNodes | src/pybel_tools/mutation.py:133-137 | when every node's function matches its tuple, the loop never fails, and its nodes are the old ones plus the converted candidates |
| Inference.InferEachKeeps | src/pybel_tools/mutation.py:133-137 | every dictionary other than the converted nodes' is left as it was |
| Inference.InferEachTargets | src/pybel_tools/mutation.py:135-136 | every converted node's dictionary is its old one, if any, updated with its source's, which carries the new function |
| Inference.InferEachEdges | src/pybel_tools/mutation.py:137 | every candidate gains the edge from its converted node with the fixed key and the relation |
| Inference.InferEachSlots | src/pybel_tools/mutation.py:133-137 | no edge slot other than the inferred ones changes |
| Inference.InferEachMissingFunction | src/pybel_tools/mutation.py:134 | a node without a function makes the loop raise, unless an earlier turn creates its dictionary |
| Inference.InferTopLevel | src/pybel_tools/mutation.py:133-137 | over all nodes of a graph: the new nodes are exactly the converted candidates, each joined to its source |
| Inference.InferTranslationsSpec | src/pybel_tools/mutation.py:127-137 | every named protein without variants gains its RNA and a `translatedTo` edge from it; no other node is added |
| Inference.InferTranscriptionsSpec | src/pybel_tools/mutation.py:140-150 | every named RNA without variants gains its gene and a `transcribedTo` edge from it; no other node is added |
| Inference.InferCentralDogmaChain | src/pybel_tools/mutation.py:153-161 | because translations run first, a named protein without variants whose RNA is missing ends with the whole chain gene, RNA, protein |
| Inference.WithRelation | src/pybel_tools/mutation.py:239 | corrected, over the list of edges taken when the loop starts: `edges_iter(relation=r)` gives exactly the edges whose relation is `r` |
| Inference.AddInverses | src/pybel_tools/mutation.py:239-240 | corrected, over the list of edges taken when the loop starts: the inner loop raises `KeyError` at the first edge of a relation missing from either table, and never touches the nodes |
| Inference.AddInversesKeeps | src/pybel_tools/mutation.py:239-240 | corrected, over the list of edges taken when the loop starts: no edge slot other than the reverse ones changes |
| Inference.AddInversesSpec | src/pybel_tools/constants.py:10-17 | corrected, over the list of edges taken when the loop starts: every edge of the relation gains its reverse, carrying the inverse relation from the table |
| Inference.AddInferredFor | src/pybel_tools/mutation.py:238-240 | corrected, over the list of edges taken when the loop starts: the loop over relations keeps the nodes and a well-formed graph |
| Inference.AddInferredEdges | src/pybel_tools/mutation.py:226-240 | corrected, over the list of edges taken when the loop starts: `add_inferred_edges` keeps the nodes and a well-formed graph |
| Inference.SingleIsInverses | src/pybel_tools/mutation.py:235-236 | a single relation name is handled as a one-element list |
| Inference.AddInferredSingle | src/pybel_tools/mutation.py:235-240 | corrected, over the list of edges taken when the loop starts: for one relation every edge carrying it gains its reverse and nothing else changes; a relation without an inverse raises as soon as an edge carries it |
| Inference.AddInferredForKeeps | src/pybel_tools/mutation.py:238-240 | corrected, over the list of edges taken when the loop starts: with every relation in both tables the loop succeeds, and only slots keyed by one of their codes change |
| Inference.AddInversesAsWritten | src/pybel_tools/mutation.py:239-240 | as written, the live inner loop keeps the nodes and a well-formed graph, and fails only with `KeyError` for the relation or with `RuntimeError` |
| Inference.AddInferredForAsWritten | src/pybel_tools/mutation.py:238-240 | as written, the outer loop over the relations keeps a well-formed graph with the same node dictionaries, and fails only with `KeyError` for one of the listed relations or with `RuntimeError` |
| Inference.AddInferredForAsWrittenKeeps | src/pybel_tools/mutation.py:238-240 | as written, a successful run over all the relations changes no edge slot whose key is not the code of a listed relation |
| Inference.AsWrittenNoCode | src/pybel_tools/mutation.py:239-240 | as written, a relation missing from the code table leaves the graph unchanged when the loop succeeds, since any edge carrying it raises `KeyError` |
| Inference.AddInferredEdgesAsWritten | src/pybel_tools/mutation.py:226-240 | `add_inferred_edges` as written: the result is well-formed with the same node dictionaries, and the only failures are `RuntimeError` and a `KeyError` that names the single relation given, or one of the listed ones |
| Inference.AsWrittenRaises | src/pybel_tools/mutation.py:239-240 | as written, with the relation in both tables, the loop raises exactly when it reaches a self-loop still carrying the relation on a node with no edge to itself under the code, and then with `RuntimeError` |
| Inference.AsWrittenKeeps | src/pybel_tools/mutation.py:239-240 | as written, a successful loop changes no slot whose key is not the relation's code |
| Inference.AsWrittenCovers | src/pybel_tools/mutation.py:239-240 | as written, after a successful loop every edge that carried the relation at the start has its reverse with the inverse relation, or was itself rewritten under the code into the reverse of an earlier one |
| Inference.AddInferredAsWrittenErrors | src/pybel_tools/mutation.py:226-240 | as written, a relation no edge carries leaves the graph as it is, and a relation missing from either table raises `KeyError` when some edge carries it |
| Inference.AddInferredAsWrittenSpec | src/pybel_tools/mutation.py:226-240 | as written, with the relation in both tables: success exactly when every self-loop carrying it already has an edge to itself under the code, `RuntimeError` otherwise; on success every carrying edge has its reverse or became one, and only slots keyed by the code change |
| Inference.AddInferredSelfLoopRaises | src/pybel_tools/mutation.py:239-240 | a qualified self-loop carrying the relation, on a node without an edge to itself under the code, raises `RuntimeError` as written, where the corrected loop succeeds |
| Pruning.SelectByNamespace | src/pybel_tools/mutation.py:183-187 | the selection loop raises `KeyError` exactly when some node has no function; otherwise it picks exactly the nodes of that function whose namespace is the given one, a missing namespace meaning no match |
| Pruning.PruneByNamespaceSpec | src/pybel_tools/mutation.py:170-189 | `prune_by_namespace` fails exactly when some node has no function; otherwise it removes exactly the nodes of that function and namespace, keeps the data of every other node, and keeps exactly the edges between kept nodes |
| Pruning.PruneByTypeSpec | src/pybel_tools/mutation.py:192-212 | `prune_by_type` removes exactly the nodes of that function with at most the threshold of distinct successors, with their edges, keeps every other node's data, and returns the number of nodes removed |
| Pruning.PruneKeepsOthers | src/pybel_tools/mutation.py:215-223 | `prune` only ever removes genes and RNAs: every other node stays with its data |
| Pruning.PruneKeepsEdges | src/pybel_tools/mutation.py:215-223 | every edge between two nodes that are neither genes nor RNAs survives `prune` |
| Selection.GroupEdgesSpec | src/pybel_tools/selection.py:13-32 | `group_subgraphs` has a group for every value the annotation takes and no other, and a node is in a group exactly when an edge with that value touches it |
| Selection.GroupsAreNodes | src/pybel_tools/selection.py:24-30 | every grouped node is a node of the graph |
| Selection.GroupEdgesStrictAgrees | src/pybel_tools/operations.py:78-94 | the `operations` version gives the same groups when every edge has an annotation dictionary, and raises `KeyError` otherwise |
| Selection.GroupSubgraphsStrict | src/pybel_tools/operations.py:87-94 | the `operations` version succeeds exactly when every edge has an annotation dictionary, and then agrees with the `selection` version |
| Selection.PairMergeNone | src/pybel_tools/selection.py:52-60 | two nodes get an edge in the subgraph exactly when some selected edge joins them |
| Selection.CopyNode | src/pybel_tools/selection.py:54-58 | a node missing from the subgraph is added with its dictionary from the graph; nodes already there keep theirs |
| Selection.CopyEdge | src/pybel_tools/selection.py:54-60 | copying an edge adds its missing endpoints with their graph dictionaries and merges its data into the one slot; no other slot changes |
| Selection.SubgraphEdges | src/pybel_tools/selection.py:48-62 | the edge loop only adds nodes of the graph, each with its graph dictionary |
| Selection.SubgraphNodes | src/pybel_tools/selection.py:48-62 | the subgraph's nodes are exactly the endpoints of the edges whose annotation has the value |
| Selection.SubgraphEdgeData | src/pybel_tools/selection.py:60 | between two nodes the subgraph has at most one edge, under the annotation key, holding the data of the selected edges between them merged in order |
| Selection.SubgraphByAnnotationSpec | src/pybel_tools/selection.py:35-62 | `get_subgraph_by_annotation` holds exactly the endpoints of the matching edges with their graph dictionaries, and exactly one edge per pair joined by a matching edge |
| Utils.CounterCountsOccurrences | src/pybel_tools/utils.py:20 | `Counter(s)` gives every element the number of positions where it occurs |
| Utils.CountDefaultdict | src/pybel_tools/utils.py:12-20 | `count_defaultdict` keeps the keys and counts, for every key, how often each element occurs in its list |
| Utils.CountersAtMostLengths | src/pybel_tools/utils.py:12-30 | counting the counters of a dictionary of lists never gives more than counting the lists, and gives the same exactly for lists without repeats |
| Utils.Annotation | src/pybel_tools/utils.py:33-55 | an annotation value is found exactly when `check_has_annotation` holds, and it is the one stored under the key |
| Utils.KeepNode | src/pybel_tools/utils.py:58-86 | `keep_node` raises `KeyError` exactly when the node or its function is missing; otherwise it keeps the node exactly when it is not a pathology and not on the blacklist |
| Utils.EmptyBlacklistKeeps | src/pybel_tools/utils.py:83 | an empty blacklist excludes nothing, exactly like no blacklist |
| Comparison.TopologicallyEqualSpec | src/pybel_tools/comparison.py:23-36 | topologically equal graphs have the same nodes and the same connected node pairs |
| Comparison.Transform | src/pybel_tools/graph_operations.py:12-16 | `graph_content_transform` raises `KeyError` exactly when some edge has no relation |
| Comparison.TransformSpec | src/pybel_tools/graph_operations.py:12-16 | the transform has an entry for every connected ordered pair and no other, holding exactly the relations of that pair's edges |
| Comparison.RelationsEqual | src/pybel_tools/comparison.py:39-56 | the only error `graph_relations_equal` can raise is the `KeyError` of a missing relation |
| Comparison.RelationsEqualSpec | src/pybel_tools/comparison.py:50-56 | it raises exactly when the graphs are topologically equal and some edge lacks a relation; it holds exactly when, besides, every pair carries the same relations in both graphs |
| Comparison.RelationsEqualSymmetric | src/pybel_tools/graph_operations.py:48-61 | whether two graphs have the same relations does not depend on the order they are given in |
| Comparison.ProvenanceEqual | src/pybel_tools/comparison.py:59-79 | `graph_provenance_equal` as written fails exactly when the relation test fails, and holds only when the relation test holds |
| Comparison.EqualityChain | src/pybel_tools/graph_operations.py:27-79 | provenance equality implies relation equality, which implies topological equality, which implies equal nodes and equal pairs |
| Comparison.ProvenanceEqualIntended | src/pybel_tools/comparison.py:59-62 | the test the docstring describes: equal relations, and every pair carries the same edge data with the same multiplicities in both graphs |
| Comparison.PairDataEmpty | src/pybel_tools/graph_operations.py:75 | a pair has no edge data exactly when no edge joins it |
| Comparison.ProvenanceEqualIntendedSymmetric | src/pybel_tools/graph_operations.py:64-70 | the intended provenance test does not depend on the order of the graphs |
| Comparison.ProvenanceEqualAccepts | src/pybel_tools/comparison.py:71-79 | as written, a graph with one `a -> b` statement passes against a graph with that statement and a second one |
| Comparison.ProvenanceEqualRejects | src/pybel_tools/comparison.py:71-79 | as written, the same two graphs fail in the other order |
| Comparison.ProvenanceEqualIntendedTellsApart | src/pybel_tools/graph_operations.py:64-79 | the intended test tells those two graphs apart in both orders |
| Comparison.EdgesIntersection | src/pybel_tools/comparison.py:82-92 | `graph_edges_intersection` holds exactly the node pairs connected in both graphs, keys and data ignored |
| Comparison.EdgesSubtract | src/pybel_tools/comparison.py:95-105 | `graph_edges_subtract` holds exactly the node pairs connected in the first graph and not the second |
| Comparison.EdgesXor | src/pybel_tools/comparison.py:108-118 | `graph_edges_xor` holds exactly the node pairs connected in one graph and not the other |
| Comparison.EdgeSetLaws | src/pybel_tools/graph_diff.py:1-44 | intersection and xor are symmetric; xor is the union of both subtractions; a graph's pairs split into shared and own; `graph_edges_equal` holds exactly when the xor is empty |
| Comparison.CountFunctions | src/pybel_tools/graph_operations.py:9 | counting functions over listed nodes raises `KeyError` exactly when one lacks a function; otherwise it counts each function by the nodes having it, totalling the nodes listed |
| Comparison.CountNodes | src/pybel_tools/graph_operations.py:7-9 | `count_nodes` counts every node once, under its function, so the counts add up to the number of nodes |
| Comparison.CountRelationsPerPair | src/pybel_tools/graph_operations.py:24 | a relation is counted once per ordered pair it joins, however many edges carry it there |
| Comparison.CountEdges | src/pybel_tools/graph_operations.py:19-24 | `count_edges` succeeds exactly when every edge has a relation, and then counts each relation by the pairs it joins |
| Comparison.CountEdgesSpec | src/pybel_tools/graph_operations.py:19-24 | a relation's count never exceeds the number of connected pairs, and its pairs are exactly those whose transform entry holds it |
| Expansion.SuccessorEdges | src/pybel_tools/subgraph_expansion.py:12-21 | `get_possible_successor_edges` raises `NetworkXError` exactly when the node set leaves the graph; otherwise it gives the node pairs leaving the set |
| Expansion.PredecessorEdges | src/pybel_tools/subgraph_expansion.py:28-37 | `get_possible_predecessor_edges` raises `NetworkXError` exactly when the node set leaves the graph; otherwise it gives the node pairs entering the set |
| Expansion.BoundarySpec | src/pybel_tools/subgraph_expansion.py:21-37 | a successor boundary pair is exactly an inside node with an outside successor; a predecessor boundary pair is exactly an outside node with an edge into an inside node; the two boundaries are disjoint |
| Expansion.CountPossibleSuccessors | src/pybel_tools/subgraph_expansion.py:24-25 | `count_possible_successors` raises exactly when the node set leaves the graph |
| Expansion.CountPossiblePredecessors | src/pybel_tools/subgraph_expansion.py:40-41 | `count_possible_predecessors` raises exactly when the node set leaves the graph |
| Expansion.CountersSpec | src/pybel_tools/subgraph_expansion.py:24-41 | the successor counter counts outside nodes only, each by its distinct inside predecessors; the predecessor counter counts inside nodes only, each by its distinct outside predecessors |
| Expansion.SubgraphEdges | src/pybel_tools/subgraph_expansion.py:44-55 | `get_subgraph_edges` yields, as a subsequence of the edge list (same relative order), exactly the edges whose annotation under the key equals the name and whose ends pass the filters |
| Expansion.SubgraphEdgesDefault | src/pybel_tools/subgraph_expansion.py:8-9 | with the default filters only the annotation decides |
| Expansion.FillEdges | src/pybel_tools/subgraph_expansion.py:58-86 | `get_subgraph_fill_edges` raises exactly when the node set leaves the graph |
| Expansion.FillEdgesSpec | src/pybel_tools/subgraph_expansion.py:72-86 | as written, a fill pair has exactly one end inside, its outside end passes the filter and follows at least two inside nodes; edges into the set never qualify a node |
| Expansion.OutsideTally | src/pybel_tools/subgraph_expansion.py:73-78 | for an outside node the predecessor counter is silent and the successor counter gives its number of inside predecessors |
| Expansion.FillEdgesIntended | src/pybel_tools/subgraph_expansion.py:58-67 | the corrected fill edges raise exactly when the node set leaves the graph |
| Expansion.FillEdgesIntendedSpec | src/pybel_tools/subgraph_expansion.py:72-86 | corrected, an outside node qualifies when it is joined to the set by at least two boundary pairs in either direction and passes the filter, and then all its boundary pairs are fill pairs |
| Expansion.FillEdgesMissesPredecessors | src/pybel_tools/subgraph_expansion.py:76 | as written, a node with edges into two inside nodes and no other edge yields no fill pair |
| Expansion.FillEdgesIntendedFindsFan | src/pybel_tools/subgraph_expansion.py:78-86 | corrected, both of that node's edges fill the gap |
| Orthology.ParseRow | src/pybel_tools/orthology.py:61 | unpacking the stripped tab-split line raises `ValueError` unless it has exactly five fields; the kept fields, put back with the other two, give the line again |
| Orthology.Entry | src/pybel_tools/orthology.py:64-65 | an identifier keeps only characters of its piece |
| Orthology.Entries | src/pybel_tools/orthology.py:63-71 | a column gives one identifier per comma-separated piece, so one more than it has commas, and none holds a comma |
| Orthology.ReadLine | src/pybel_tools/orthology.py:61-71 | one line fails exactly when it does not have five fields; otherwise it adds at least one pair to each list, all carrying the line's symbol |
| Orthology.StructureWithFails | src/pybel_tools/orthology.py:60-61 | the loop fails exactly when some line is unreadable, with that line's error |
| Orthology.StructureWithAppend | src/pybel_tools/orthology.py:57-73 | reading the lines in two parts gives the concatenated lists, and fails exactly when a part fails |
| Orthology.StructureWithMembers | src/pybel_tools/orthology.py:57-73 | the collected pairs are exactly the pairs the lines give: none lost, none made up |
| Orthology.StructureOrthologies | src/pybel_tools/orthology.py:48-73 | a malformed line anywhere raises `ValueError`; otherwise each line contributes at least one pair to each list |
| Orthology.StructureAppend | src/pybel_tools/orthology.py:57-73 | the table read in two parts gives the concatenated MGI and RGD lists |
| Orthology.StructureOrigin | src/pybel_tools/orthology.py:61-71 | every pair carries the symbol of some well-formed line, and its identifier holds no comma |
| Orthology.StructureLine | src/pybel_tools/orthology.py:60-73 | a one-line table gives exactly what reading that line gives |
| Orthology.AddStatement | src/pybel_tools/orthology.py:85-95 | a pair whose ortholog is missing changes nothing; otherwise the human gene is added as a simple node when missing, and it gets an `orthologous` edge to the ortholog; no other node data or edge changes |
| Orthology.AddStatements | src/pybel_tools/orthology.py:76-116 | the only nodes added are the simple HGNC genes of pairs whose ortholog is present, and existing nodes keep their data |
| Orthology.AddStatementsEdges | src/pybel_tools/orthology.py:85-116 | exactly the linked slots change and gain the `orthologous` relation, however many pairs link them; every other edge keeps its data |
| Orthology.IntegrateOrthologies | src/pybel_tools/orthology.py:119-128 | a malformed table raises before the graph is touched; otherwise nodes are only added, and each added node is a simple HGNC gene |
| Orthology.IntegrateEdges | src/pybel_tools/orthology.py:126-128 | after integration, every pair of the table whose ortholog is in the graph has its `orthologous` edge from the human gene, and no other edge has changed |
| Orthology.CopyEdge | src/pybel_tools/orthology.py:147-157 | an edge moved onto the human gene lands under its own key when that is negative, and with its data under some non-negative key otherwise; nothing already there is lost |
| Orthology.CopyEdges | src/pybel_tools/orthology.py:147-157 | copying only grows the graph and, between existing nodes, adds no node |
| Orthology.CopyEdgesCover | src/pybel_tools/orthology.py:147-157 | every edge in the list gets its copy between its new endpoints |
| Orthology.CollapseEach | src/pybel_tools/orthology.py:145-159 | corrected, over the list of edges taken when the loop starts: the outer loop only grows the edges and adds no node |
| Orthology.CollapseEachCovers | src/pybel_tools/orthology.py:145-159 | corrected, over the list of edges taken when the loop starts: every in- and out-edge an ortholog had at the start is copied onto the human gene of each link, and later turns keep the copy |
| Orthology.CollapseOrthologies | src/pybel_tools/orthology.py:131-161 | corrected, over the list of edges taken when the loop starts: the result has every non-ortholog node with its data, no ortholog, and no edge touching an ortholog |
| Orthology.CollapseKeeps | src/pybel_tools/orthology.py:145-161 | corrected, over the list of edges taken when the loop starts: edges between surviving nodes survive, and those with a non-negative key keep their data |
| Orthology.CollapseMoves | src/pybel_tools/orthology.py:145-161 | corrected, over the list of edges taken when the loop starts: every edge into or out of an ortholog reappears on the human gene of each of its links when its other end survives |
| Orthology.CollapseSelfLoop | src/pybel_tools/orthology.py:147-161 | corrected, over the list of edges taken when the loop starts: an unqualified orthology link becomes a self-loop on the human gene, since the ortholog's in-edges include the link itself |
| Orthology.CollapseTurn | src/pybel_tools/orthology.py:145-159 | as written, one turn raises `RuntimeError` when copying gave the human gene a new successor or a new key towards the ortholog, or when the link is a self-loop and its node has a qualified edge; a turn that does not raise grows the graph, adds no node and leaves the human gene's successors as they were |
| Orthology.CollapseEachAsWritten | src/pybel_tools/orthology.py:145-159 | as written, the live loop grows the graph, adds no node, and can fail only with `RuntimeError` |
| Orthology.CollapseOrthologiesAsWritten | src/pybel_tools/orthology.py:131-161 | as written, `collapse_orthologies` gives a well-formed graph or raises `RuntimeError` |
| Orthology.TurnRaises | src/pybel_tools/orthology.py:147-151 | as written, a turn raises whenever the human gene has no self-loop, since the link itself is one of the ortholog's in-edges and its copy makes the gene its own successor |
| Orthology.CollapseOrthologiesRaises | src/pybel_tools/orthology.py:145-151 | as written, a graph whose first link in edge order comes from a human gene without a self-loop raises `RuntimeError`, before any ortholog is removed |
| Orthology.SelfLinkRaises | src/pybel_tools/orthology.py:145-157 | as written, a graph whose first link in edge order is a self-loop `h -> h` of a node with a qualified edge raises `RuntimeError`, since the inner loops copy that edge into the key dictionary they are walking |
| Neighbourhood.AddAbsent | src/pybel_tools/service/dict_service_utils.py:183-187 | each neighbour not yet in the graph is added with the chosen dictionary; nodes already there keep theirs and no edge changes |
| Neighbourhood.CopyAll | src/pybel_tools/service/dict_service_utils.py:189-196 | copying edges loses no edge and no dictionary already there, and joins no pair but those of the copied edges |
| Neighbourhood.CopyAllCovers | src/pybel_tools/service/dict_service_utils.py:193-196 | each copied edge lands under its own key when that is negative, and with its data under some non-negative key otherwise |
| Neighbourhood.ExpandIn | src/pybel_tools/service/dict_service_utils.py:182-196 | the predecessor half adds the absent predecessors and copies only their edges into the node |
| Neighbourhood.ExpandOut | src/pybel_tools/service/dict_service_utils.py:198-211 | the successor half adds the absent successors and copies edges out of the node only |
| Neighbourhood.Expand | src/pybel_tools/service/dict_service_utils.py:165-211 | `expand_graph_around_node` raises `ValueError` exactly when the node is not in the query graph; otherwise it adds the node with its query data if absent, plus its predecessors and successors, keeping every node and edge already there |
| Neighbourhood.ExpandCopiesIn | src/pybel_tools/service/dict_service_utils.py:189-196 | every edge into the node from a predecessor that was not in the graph is copied, an unqualified one under its own key |
| Neighbourhood.ExpandCopiesOut | src/pybel_tools/service/dict_service_utils.py:198-211 | every edge out of the node is copied, whether or not its target was already in the graph, since `skip_successors` stays empty |
| Neighbourhood.ExpandSkipsKnownPredecessors | src/pybel_tools/service/dict_service_utils.py:182-191 | a predecessor already in the graph is skipped entirely: no edge from it into the node is added |
| Neighbourhood.ExpandCopiesCentreData | src/pybel_tools/service/dict_service_utils.py:187-202 | as written, a new neighbour gets the centre's dictionary, not its own |
| Neighbourhood.ExpandKeepsNeighbourData | src/pybel_tools/service/dict_service_utils.py:180-202 | corrected, every node the expansion adds carries its own query-graph dictionary, as the centre does |
| Neighbourhood.CitationToTuple | src/pybel_tools/service/dict_service_utils.py:38-46 | `_citation_to_tuple` gives six fields |
| Neighbourhood.CitationRoundTrip | src/pybel_tools/service/dict_service_utils.py:38-46 | the tuple keeps exactly the six citation fields in their fixed order: reading it back gives the citation's entries for those fields and nothing else |
| Neighbourhood.TupleRoundTrip | src/pybel_tools/service/dict_service_utils.py:39-46 | every six-field tuple, None meaning absent, is the tuple of the citation it describes |
| Neighbourhood.BuildEdgeJson | src/pybel_tools/service/dict_service_utils.py:49-54 | `_build_edge_json` has exactly the keys source, target and data |
| Neighbourhood.EdgeJsonInjective | src/pybel_tools/service/dict_service_utils.py:49-54 | the record loses nothing: it determines the endpoints and the data |
| Belns.FieldRoundTrip | src/pybel_tools/definition_utils.py:34-41 | a `Key=value` line reads back as its key and its value, whatever the value holds, as long as the key has no `=` |
| Belns.OrDefault | src/pybel_tools/definition_utils.py:39-40 | `x if x else default`: a missing or empty value falls back to the default, any other value is kept |
| Belns.SectionOfBlock | src/pybel_tools/definition_utils.py:166-183 | a section printed with its trailing blank line is found under its own title, and a search for another title passes over it |
| Belns.SectionsSkip | src/pybel_tools/definition_utils.py:166-183 | looking up a title that no printed header carries skips every header and lands in the closing section |
| Belns.SectionsReadBack | src/pybel_tools/definition_utils.py:166-183 | every header of a printed definition file reads back, under its title, as exactly its own field lines, provided no earlier header shares the title |
| Belns.SectionsLast | src/pybel_tools/definition_utils.py:187-191 | the closing `[Values]` section runs to the end of the file and reads back as its lines |
| Belns.HeaderKeys | src/pybel_tools/definition_utils.py:34-52 | a header is a section whose keys are the always-present keys then the optional keys that were given, in that order |
| Belns.HeaderHolds | src/pybel_tools/definition_utils.py:34-52 | every field a header was given, fixed or optional, appears in it with its value |
| Belns.NameLineReadsBack | src/pybel_tools/definition_utils.py:191 | a value line reads back as its stripped name: the text between the prefix and the last `\|` |
| Belns.NameLinesOrder | src/pybel_tools/definition_utils.py:188-191 | blank names get no line, and the lines keep the order of the names they come from |
| DefinitionUtils.NamespaceHeaderWith | src/pybel_tools/definition_utils.py:17-52 | the `[Namespace]` section fails with `ValueError` exactly for a domain outside the allowed list; otherwise it holds keyword, name, domain, defaulted version and creation time, and each optional field only when given |
| DefinitionUtils.NamespaceHeader | src/pybel_tools/definition_utils.py:17-52 | `make_namespace_header` with version 1.0.0 when no version (or an empty one) is given |
| DefinitionUtils.AuthorLines | src/pybel_tools/definition_utils.py:63-72 | the `[Author]` keys are name, copyright and then contact only when given; copyright defaults to Other/Proprietary |
| DefinitionUtils.AuthorHeader | src/pybel_tools/definition_utils.py:55-72 | a missing author name becomes the login name, which is a parameter; a given one is written as is |
| DefinitionUtils.CitationHeader | src/pybel_tools/definition_utils.py:75-103 | the `[Citation]` keys are the name, then date, version, description and URL, each only when given, each with its value |
| DefinitionUtils.AnnotationHeader | src/pybel_tools/definition_utils.py:214-243 | the `[AnnotationDefinition]` section always has type `list`, a version defaulting to 1.0.0 and a creation time, and description and usage only when given |
| DefinitionUtils.PropertiesIsSection | src/pybel_tools/definition_utils.py:106-113 | the constant `[Processing]` block is a well-formed section under its title |
| DefinitionUtils.FunctionCodesLetters | src/pybel_tools/definition_utils.py:185 | with one-letter function codes, the encoding suffix holds exactly the letters of the given functions, or of the default encodings when `functions` is None, each as often as it occurs, in ascending order |
| DefinitionUtils.BuildNamespace | src/pybel_tools/definition_utils.py:116-191 | `build_namespace` fails exactly for a bad domain; otherwise every one of the five sections of the printed file reads back under its title as the section its builder made |
| DefinitionUtils.ReadDefinitionFile | src/pybel_tools/definition_utils.py:164-191 | each section of a printed definition file, values included, reads back under its title |
| DefinitionUtils.ReadFourSections | src/pybel_tools/definition_utils.py:164-191 | four headers with distinct titles and a closing section read back section by section |
| DefinitionUtils.NamespaceValuesSorted | src/pybel_tools/definition_utils.py:187-191 | the namespace values come out sorted, blank ones dropped, each stripped and followed by the codes |
| DefinitionUtils.BuildAnnotation | src/pybel_tools/definition_utils.py:246-285 | `build_annotation`: the annotation, author, one-line citation, processing and values sections each read back under their titles |
| DefinitionUtils.AnnotationValuesSorted | src/pybel_tools/definition_utils.py:281-285 | the annotation values come out sorted by key, every entry with a non-blank key exactly once |
| Documents.LastWhere | src/pybel_tools/document_utils.py:25-27 | the index of the last line satisfying the test, none exactly when no line does |
| Documents.SplitDocument | src/pybel_tools/document_utils.py:19-34 | `split_document` fails with `ValueError` exactly when there is no SET DOCUMENT line or no DEFINE line; the metadata and definitions it keeps are input lines that are not comments |
| Documents.SplitDocumentAt | src/pybel_tools/document_utils.py:24-32 | the three sections in terms of the last metadata line and the last definition line; with the definitions after the metadata, the statements hold neither kind of line |
| Documents.SplitDocumentOfParts | src/pybel_tools/document_utils.py:19-34 | a metadata block ending in SET DOCUMENT, a definition block ending in DEFINE and plain statements split back into exactly those three parts, comments aside |
| Documents.MetadataLines | src/pybel_tools/document_utils.py:106-124 | one SET DOCUMENT line per key, in the order Name, Version, License, Description, Authors, ContactInfo, Copyright, the optional ones only when given |
| Documents.MetadataValues | src/pybel_tools/document_utils.py:106-124 | where each value lands: every given value has its line, each optional one shifting the later lines by one |
| Documents.MakeDocumentMetadata | src/pybel_tools/document_utils.py:85-124 | the document utilities' builder writes the version exactly as given |
| Documents.BoilerplateMetadata | src/boilerplate.py:78-117 | the boilerplate builder writes version 1.0 for a missing or empty version, the given one otherwise |
| Documents.MetadataBuildersAgree | src/boilerplate.py:99-117 | the two metadata builders agree for a non-empty version and differ only in how a missing one defaults |
| Documents.NameLineUnclosed | src/pybel_tools/document_utils.py:108 | the Name line has no closing quote: it ends in the name itself |
| Documents.DefinitionLines | src/pybel_tools/document_utils.py:138 | one DEFINE line per dictionary item, ordered by URL |
| Documents.DefinitionLinesStable | src/pybel_tools/document_utils.py:138 | items sharing a URL keep their dictionary order among the lines, since the sort is stable |
| Documents.MakeDocumentNamespaces | src/pybel_tools/document_utils.py:127-138 | as many `DEFINE NAMESPACE` lines as entries of the given dictionary, or of the default table when none is given |
| Documents.MakeDocumentAnnotations | src/pybel_tools/document_utils.py:141-152 | as many `DEFINE ANNOTATION` lines as entries of the given dictionary, or of the default table when none is given |
| Documents.SplitEach | src/pybel_tools/document_utils.py:55-60 | every input is split in turn; the merge fails, with that error, exactly when some input fails to split |
| Documents.MergedDefinitions | src/pybel_tools/document_utils.py:70-71 | the merged definitions are sorted, without repeats, and are exactly the lines of the inputs' definition sections |
| Documents.DocumentUtilsMerge | src/pybel_tools/document_utils.py:37-82 | `merge` fails exactly when some input cannot be split; otherwise the output starts with the metadata header at version 1.0.0 |
| Documents.MergerMerge | src/pybel_tools/merger.py:32-71 | the merger module's `merge` behaves alike, with the boilerplate header at version 1.0 |
| Documents.MergeLayout | src/pybel_tools/document_utils.py:73-82 | each input's subdocument follows the previous ones: a blank line, its metadata as `# SUBDOCUMENT` comments, a blank line, its statements verbatim |
| Documents.MergeDefinitionsFollowHeader | src/pybel_tools/document_utils.py:66-71 | the merged definitions follow the header directly |
| Documents.MergeSplitsBack | src/pybel_tools/document_utils.py:19-82 | a merged document splits back into its header, the merged definitions and the subdocuments |
| Documents.SubdocumentsArePlain | src/pybel_tools/document_utils.py:73-82 | the subdocuments show a later split nothing but their statements: blank lines and comments are neither metadata nor definitions |
| NamespaceUtils.NamespaceHeader | src/pybel_tools/namespace_utils.py:16-51 | the older `[Namespace]` section raises `ValueError` exactly for a domain outside the allowed list, and writes version 1.0 when none (or an empty one) is given |
| NamespaceUtils.AuthorHeader | src/pybel_tools/namespace_utils.py:54-71 | the older `[Author]` section writes the name as given, defaults the copyright to Other/Proprietary, and has a contact only when one is given |
| NamespaceUtils.BuildNamespace | src/pybel_tools/namespace_utils.py:115-168 | the older `build_namespace` raises exactly for a bad domain; otherwise its sections read back under their titles and its values come in the order given, blank ones skipped |
| NamespaceUtils.BuildersAgree | src/pybel_tools/namespace_utils.py:143-168 | with a version given and the values already sorted, the older builder prints the same file as the newer one, given the same author name |
| NamespaceUtils.DefaultVersionsDiffer | src/pybel_tools/namespace_utils.py:38 | with no version given the two namespace headers disagree: 1.0 in the older builder, 1.0.0 in the newer |
| Owl.NamespaceHeader | src/pybel_tools/owlparser.py:11-24 | the `[Namespace]` section always has name, keyword, description, version (default 1.0) and creation time (default now), and the domain and species only when given, with no domain check |
| Owl.AuthorHeader | src/pybel_tools/owlparser.py:27-36 | the `[Author]` section has the name and contact always, in that order, and the copyright only when given, with no default |
| Owl.CitationHeader | src/pybel_tools/owlparser.py:39-48 | the `[Citation]` section has exactly five fields in fixed order, with the version defaulting to 1.0 and the date to now |
| Owl.MakeValuesReadsBack | src/pybel_tools/owlparser.py:60-63 | corrected, the lines split at their first `\|` give back the dictionary's entries sorted by key, as long as no key holds a `\|` |
| Owl.MakeValuesReturnsNothing | src/pybel_tools/owlparser.py:60-63 | as written, the function returns None for every dictionary, losing the lines it builds |
| Owl.Label | src/pybel_tools/owlparser.py:95-97 | a labelled IRI becomes its `rdfs:label`; an unlabelled one becomes what `u.strip('#').strip()` leaves: some `t` is the IRI with every leading and trailing '#' cut off, and the label is `t` with every leading and trailing whitespace character cut off (each cut slice neither starts nor ends with a cut character) |
| Owl.StrippedUnique | src/pybel_tools/owlparser.py:96 | `str.strip(chars)` has one answer: two slices of a string that both cut off every leading and trailing character of the set are equal |
| Owl.LabelDetermined | src/pybel_tools/owlparser.py:96 | for an unlabelled IRI, any string obtained by the '#' strip and then the whitespace strip is the node name |
| Owl.LabelOfHashes | src/pybel_tools/owlparser.py:96 | the unlabelled IRI `##a##` becomes the node `a` |
| Owl.Endpoints | src/pybel_tools/owlparser.py:98 | the nodes `add_edge` creates are exactly the endpoints of the edges |
| Owl.Nodes | src/pybel_tools/owlparser.py:133 | `sorted(G.nodes())` is sorted, has no repeats, and holds exactly the relabelled endpoints |
| Owl.NodeLinesListNodes | src/pybel_tools/owlparser.py:132-134 | a name has a line in `[Values]` exactly when it is a node, and only one line |
| Owl.Build | src/pybel_tools/owlparser.py:101-134 | reading the written file back section by section gives the namespace header with no domain or species and default version, the author header without copyright, a citation named after the author that points at the ontology IRI, the processing section, and the node lines under `[Values]` |
| Summary.NodeValuesCount | src/pybel_tools/summary.py:28 | over nodes listed once, each function (or other key) value occurs in the histogram as often as there are nodes holding it |
| Summary.NodeHistogram | src/pybel_tools/summary.py:31-38 | over a whole graph, the values under a node key are counted once per node holding one, and nodes without the key add nothing |
| Summary.CountFunctions | src/pybel_tools/summary.py:21-28 | `count_functions` succeeds exactly when every node has a function, else raises `KeyError`; its counts add up to the number of nodes and count each function by the nodes having it |
| Summary.CountNamespaces | src/pybel_tools/summary.py:31-38 | `count_namespaces` counts each namespace by the nodes carrying it; its total is the number of nodes that have a namespace |
| Summary.CountFunctionsIsCountNodes | src/pybel_tools/graph_operations.py:7-9 | `count_functions` and `count_nodes` compute the same counter and fail alike |
| Summary.EdgeValuesCount | src/pybel_tools/error_analysis.py:64 | each value under an edge key occurs as often as there are edges holding it; edges without the key add nothing |
| Summary.SizeByAnnotation | src/pybel_tools/error_analysis.py:63-64 | `calculate_size_by_annotation` counts each value by the edges holding it; its total is the number of edges that have the key |
| Summary.CountRelations | src/pybel_tools/summary.py:43-50 | `count_relations` succeeds exactly when every edge has a relation, else raises `KeyError`; its counts add up to the number of edges and count each relation by the edges carrying it |
| Summary.CountUniqueRelations | src/pybel_tools/summary.py:53-62 | `count_unique_relations` counts a relation once for each ordered node pair it joins, however many edges carry it there |
| Summary.PairsAtMostEdges | src/pybel_tools/graph_operations.py:12-16 | the node pairs a relation joins are no more than the edges carrying it, and there are some exactly when there is such an edge |
| Summary.UniqueRelationsAtMostRelations | src/pybel_tools/summary.py:43-62 | counting per node pair never exceeds counting per edge, and both histograms mention the same relations |
| Summary.CountAnnotations | src/pybel_tools/summary.py:65-72 | `count_annotations` raises `KeyError` exactly when some edge has no annotation dictionary; otherwise each annotation is counted by the edges using it |
| Summary.CountAnnotationInstances | src/pybel_tools/summary.py:75-84 | `count_annotation_instances` raises `KeyError` exactly when some edge has no annotation dictionary; otherwise each value is counted by the edges carrying the annotation with that value |
| Summary.InstancesAddUp | src/pybel_tools/summary.py:65-84 | the instances of an annotation add up to that annotation's count in `count_annotations` |
| Summary.ErrorCounter | src/pybel_tools/summary.py:89-96 | `calculate_error_counter` counts every warning once, under its exception's class name |
| Summary.NakedNames | src/pybel_tools/summary.py:99-106 | `calculate_naked_names` counts each name by the naked-name warnings reporting it; other warnings add nothing |
| Summary.NakedNamesAtMostCounted | src/pybel_tools/error_analysis.py:25-34 | there are no more naked names than warnings counted under `NakedNameWarning` |
| Summary.IncorrectNameDict | src/pybel_tools/summary.py:109-123 | a namespace is a key exactly when some filed warning names it; its list is the names of those warnings in warning order, and the lists together hold one name per filed warning |
| Summary.IncorrectNameDictVersions | src/pybel_tools/summary/error_summary.py:102-114 | the version that also files pattern failures only adds namespaces, and agrees with the older one when there are no pattern failures |
| Summary.FiledValuesSpec | src/pybel_tools/summary.py:144-154 | a value is a key of the result exactly when some warning is filed under it |
| Summary.ErrorsUnderEmpty | src/pybel_tools/summary.py:141-156 | the list under a value is empty exactly when no warning is filed under it |
| Summary.ErrorByAnnotation | src/pybel_tools/summary.py:141-156 | `calculate_error_by_annotation`: a value has a list exactly when some warning is filed under it, and that list is never empty |
| Summary.ErrorByAnnotationAt | src/pybel_tools/error_analysis.py:67-82 | reading the result like the `defaultdict` gives, for every value, the class names of the warnings filed under it, in warning order |
| Summary.ErrorByAnnotationAppend | src/pybel_tools/error_analysis.py:70-80 | processing more warnings appends to every list: the lists for `a + b` are those for `a` followed by those for `b` |
| Summary.ErrorByAnnotationOne | src/pybel_tools/error_analysis.py:74-80 | one warning is filed under each value as often as its annotation value names it |
| Summary.StringFiledOnce | src/pybel_tools/summary.py:150-151 | a warning whose annotation value is a string is filed once, under that string |
| Summary.ListFiledPerElement | src/pybel_tools/summary.py:152-154 | a warning whose annotation value is a list is filed under each element, once per occurrence, and under nothing else |
| Summary.DictFiledPerKey | src/pybel_tools/summary/error_summary.py:128-134 | read from the annotation dictionary, a dictionary value is iterable and files the warning once under each key; the older top-level lookup files it under nothing |
| Summary.OtherValuesIgnored | src/pybel_tools/summary.py:145-154 | a warning with no context, no value for the annotation, or a value that is a number, boolean or None is not filed |
| Summary.ContextValueCases | src/pybel_tools/summary/error_summary.py:125-127 | the annotation-dictionary lookup reads a value exactly when the context is non-empty, has the annotation and the value is true in Python's sense, and then reads that value |
| Summary.EmptyStringSkippedWhenNested | src/pybel_tools/summary/error_summary.py:125 | a warning whose annotation is the empty string is not filed by the annotation-dictionary lookup |
| ErrorSummary.NamespacesWithIncorrectNames | src/pybel_tools/summary/error_summary.py:37-43 | a namespace is in the set exactly when some missing-name or pattern-failure warning names it |
| ErrorSummary.IncorrectNamesByNamespace | src/pybel_tools/summary/error_summary.py:46-55 | a name is in the set exactly when some missing-name or pattern-failure warning reports it in that namespace |
| ErrorSummary.UndefinedNamespaces | src/pybel_tools/summary/error_summary.py:69-75 | a namespace is in the set exactly when some undefined-namespace warning names it |
| ErrorSummary.UndefinedNamespaceNames | src/pybel_tools/summary/error_summary.py:78-87 | a name is in the set exactly when some undefined-namespace warning reports it in that namespace |
| ErrorSummary.UndefinedAnnotations | src/pybel_tools/summary/error_summary.py:90-99 | an annotation is in the set exactly when some undefined-annotation warning names it |
| ErrorSummary.UndefinedNamesOfUndefined | src/pybel_tools/summary/error_summary.py:69-87 | a namespace has undefined names exactly when it is an undefined namespace |
| ErrorSummary.IncorrectNameDict | src/pybel_tools/summary/error_summary.py:102-114 | the keys are exactly the namespaces with incorrect names, the names listed under each are exactly its incorrect names, and the lists hold one name per such warning |
| ErrorSummary.IncorrectNamesListed | src/pybel_tools/summary/error_summary.py:46-55 | the names listed under a namespace in the dictionary are the names `get_incorrect_names_by_namespace` returns |
| ErrorSummary.GroupErrors | src/pybel_tools/summary/error_summary.py:139-149 | `group_errors`: the keys are the messages that occur; each list holds the line numbers of the warnings with that message in warning order; every warning lands in exactly one list |
| ErrorSummary.GroupErrorsCounts | src/pybel_tools/utils.py:23-30 | `count_dict_values` over `group_errors` gives each message the number of warnings carrying it |

## Left out

Contracts stated under an assumption the source does not make:

- Inference.TargetOfSource: stated only for graphs whose every node's `function` attribute equals the first element of its tuple, the invariant pybel's `add_simple_node` keeps; the source does not check it.
- Inference.InferAtNodes: stated only for such consistent graphs, for the same reason.
- Inference.InferAtAttrs: stated only for such consistent graphs, for the same reason.
- Inference.InferAtEdges: stated only for such consistent graphs, for the same reason.
- Inference.SourcesStep: stated only for such consistent graphs, for the same reason.
- Inference.InferEachNodes: stated only for such consistent graphs, for the same reason.
- Inference.InferEachKeeps: stated only for consistent graphs.
- Inference.InferEachTargets: stated only for consistent graphs.
- Inference.InferEachEdges: stated only for consistent graphs.
- Inference.InferEachSlots: stated only for consistent graphs.
- Inference.InferTopLevel: stated only for consistent graphs.
- Inference.InferTranslationsSpec: stated only for consistent graphs.
- Inference.InferTranscriptionsSpec: stated only for consistent graphs.
- Inference.InferCentralDogmaChain: stated only for consistent graphs.
- Collapse.CollapseAllNodes: stated only for "separate" pairs (no kept node is also collapsed, no node collapsed twice); the source accepts any dictionary, where a key node removed earlier is re-created by `add_edge`, which the contract does not describe.
- Collapse.CollapseAllEdges: stated only for separate pairs, as above.
- Collapse.CollapseAllCopies: stated only for separate pairs, as above.
- Collapse.CollapseNodesSpec: stated only for separate dictionaries, as above.
- Collapse.CollapseAllSucceeds: stated only for separate pairs, as above.
- Collapse.CollapseNodesSucceeds: stated only for separate dictionaries, as above.
- Collapse.DogmaCollapse: covers only the one-group dictionary the central-dogma tests build, not every dictionary `build_central_dogma_collapse_dict` can return.
- Utils.Annotation: an `annotations` value that is not a dictionary is read as "has no such key", where Python would raise `TypeError` on the membership test.
- Selection.SubgraphEdges: the edge key the source uses (the annotation name, a string) is modelled by an integer parameter, since edge keys are integers in the model.
- Orthology.CollapseEach: the corrected loop over the edges taken when it starts; as written the loop walks live dictionaries and raises `RuntimeError`, which Orthology.CollapseOrthologiesAsWritten models (see "## Findings").
- Orthology.CollapseEachCovers: the corrected loop over the edges taken when it starts; as written the loop walks live dictionaries and raises `RuntimeError`, which Orthology.CollapseOrthologiesAsWritten models (see "## Findings").
- Orthology.CollapseOrthologies: the corrected loop over the edges taken when it starts; as written the loop walks live dictionaries and raises `RuntimeError`, which Orthology.CollapseOrthologiesAsWritten models (see "## Findings").
- Orthology.CollapseKeeps: the corrected loop over the edges taken when it starts; as written the loop walks live dictionaries and raises `RuntimeError`, which Orthology.CollapseOrthologiesAsWritten models (see "## Findings").
- Orthology.CollapseMoves: the corrected loop over the edges taken when it starts; as written the loop walks live dictionaries and raises `RuntimeError`, which Orthology.CollapseOrthologiesAsWritten models (see "## Findings").
- Orthology.CollapseSelfLoop: the corrected loop over the edges taken when it starts; as written the loop walks live dictionaries and raises `RuntimeError`, which Orthology.CollapseOrthologiesAsWritten models (see "## Findings").
- Inference.WithRelation: the list of edges carrying the relation, taken when the loop starts; as written the filter reads each edge's data only when it reaches it, so an edge rewritten by an earlier turn is passed over, which Inference.AddInversesAsWritten models.
- Inference.AddInverses: the corrected loop over the edges taken when it starts; as written the live loop passes over edges an earlier turn rewrote (so when the second of two mutual edges is stored under the relation's code key, the first turn rewrites it into the first one's reverse and it is passed over) and raises `RuntimeError` on a qualified self-loop, which Inference.AddInferredEdgesAsWritten models (see "## Findings").
- Inference.AddInversesKeeps: the corrected loop over the edges taken when it starts; as written the live loop passes over edges an earlier turn rewrote (so when the second of two mutual edges is stored under the relation's code key, the first turn rewrites it into the first one's reverse and it is passed over) and raises `RuntimeError` on a qualified self-loop, which Inference.AddInferredEdgesAsWritten models (see "## Findings").
- Inference.AddInversesSpec: the corrected loop over the edges taken when it starts; as written the live loop passes over edges an earlier turn rewrote (so when the second of two mutual edges is stored under the relation's code key, the first turn rewrites it into the first one's reverse and it is passed over) and raises `RuntimeError` on a qualified self-loop, which Inference.AddInferredEdgesAsWritten models (see "## Findings").
- Inference.AddInferredFor: the corrected loop over the edges taken when it starts; as written the live loop passes over edges an earlier turn rewrote (so when the second of two mutual edges is stored under the relation's code key, the first turn rewrites it into the first one's reverse and it is passed over) and raises `RuntimeError` on a qualified self-loop, which Inference.AddInferredEdgesAsWritten models (see "## Findings").
- Inference.AddInferredEdges: the corrected loop over the edges taken when it starts; as written the live loop passes over edges an earlier turn rewrote (so when the second of two mutual edges is stored under the relation's code key, the first turn rewrites it into the first one's reverse and it is passed over) and raises `RuntimeError` on a qualified self-loop, which Inference.AddInferredEdgesAsWritten models (see "## Findings").
- Inference.AddInferredSingle: the corrected loop over the edges taken when it starts; as written the live loop passes over edges an earlier turn rewrote (so when the second of two mutual edges is stored under the relation's code key, the first turn rewrites it into the first one's reverse and it is passed over) and raises `RuntimeError` on a qualified self-loop, which Inference.AddInferredEdgesAsWritten models (see "## Findings").
- Inference.AddInferredForKeeps: the corrected loop over the edges taken when it starts; as written the live loop passes over edges an earlier turn rewrote (so when the second of two mutual edges is stored under the relation's code key, the first turn rewrites it into the first one's reverse and it is passed over) and raises `RuntimeError` on a qualified self-loop, which Inference.AddInferredEdgesAsWritten models (see "## Findings").
- Documents.MergerMerge: `merger.py` imports its header writer from `pybel_tools/boilerplate.py`, which is not part of this model; the header is assumed to be the one `src/boilerplate.py` writes, at version 1.0.

Parts of the system not modelled:

- Web front ends and services (Flask apps, `dict_service.py` routes, the d3/jQuery graph controllers, `cli.py`): request plumbing, uploads and database access.
- `dict_service_utils.py` beyond `_citation_to_tuple`, `_build_edge_json` and `expand_graph_around_node`: the rest works on module-level caches, database loading and Python's `hash()`.
- Network downloads: `download_orthologies`, the `lines is None` path of `structure_orthologies`, `make_document_statement_group`, and `assess_completeness.py` (INDRA).
- File output: `write_boilerplate`, `make_boilerplate`, and the `open`/`print` parts of `merge`, `build` and `to_file`; their content is modelled as returned line lists.
- The clock (`time.strftime`, `time.asctime`) and `getpass.getuser`: passed in as parameters.
- Floating point: `npa.py` scores, `betweenness_centrality` in node properties, `plot_summary` (pandas, matplotlib), and `calculate_suggestions` (fuzzywuzzy string similarity).
- Thin wrappers over pybel or networkx (`filters/node_deletion.py`, `grouping.py`, `mutation/bound.py`, `query.py`, `filters/typing.py`, `visualization.py`, the ideogram assembler): they add no logic of their own.
- `processing.py`: its pruning depends on a `type=` filter of a `nodes_iter` that is not part of this model; its inverse-edge logic is the one modelled from `mutation.py`.
- `build_namespace_from_owl` and OWL/XML parsing: the parser is an external library; the model starts from parsed (term, label) pairs.
- `src/pybel-tools/owlparser.py`: an older copy of the OWL writer with a hard-coded template; it differs from the modelled one only in not stripping labels.
- The `NotImplementedError` stubs `convert_dogma`, `add_inferred_two_way_edge`, `infer_subgraph_expansion` and `enrich_unqualified`: they have no behaviour.
- `get_most_common_errors`: calls `.most_common` on a plain dictionary and always raises; `get_incorrect_names` and `get_names_including_errors*` depend on pybel's namespace loaders.
- Logging calls: no effect on results.
- `graph_content_transform` is imported by `comparison.py` and `summary.py` from `utils.py`, which does not define it; the definition in `graph_operations.py` is the one modelled.
- networkx iteration order: edges and nodes are iterated in the model's sequence order, where networkx groups edges by source node. The as-written loops depend on this order (which link is reached first, which edge an earlier turn rewrote), and the as-written orthology loop passes over edges added while it runs, where networkx would reach those placed after its position.
- Aliasing of attribute dictionaries between graphs (networkx copies by reference): the model copies values.
- pybel's `add_unqualified_edge` is not part of this model: it is modelled as `add_edge` with the key taken from an `unqualified_edge_code` parameter.
- Unhashable list elements in counters, and the text of pybel's warning messages (`str(e)`), given as a field of the warning.
- `constants.py` URL tables (`default_namespaces`, `default_annotations`): their download locations are not copied; they are the fallbacks of `make_document_namespaces` and `make_document_annotations` (document_utils.py:136 and 150), where the model takes them as the `defaults` parameter of Documents.MakeDocumentNamespaces and Documents.MakeDocumentAnnotations.

Where the documented behaviour and the code disagree, the model follows the code:

- The reified object role edge points from the object entity to the statement node, not the other way round.
- The converter list starts with translation and transcription, before phosphorylation.
- The transcription and translation predicates test the relation by substring (`in`), not by equality.

## Findings

| source | as written | input that shows it | evidently intended | confidence | as-written member | corrected member |
|---|---|---|---|---|---|---|
| src/pybel_tools/mutation.py:36-39 | `left_merge` reads `g.edge[u][v]` for every edge of `h`, raising `KeyError` when `g` has no `u -> v` edge | `g` with edge p1→p2, `h` with edge p1→p3 | copy the missing edge from `h` into `g` | not executed | Mutation.LeftMergeAsWrittenFailsOnNewPair | Mutation.LeftMergeEdges |
| src/pybel_tools/comparison.py:71-79 | `graph_provenance_equal` walks only the first graph's statements, so a second graph with an extra statement on the same pair still passes, and the answer depends on the order of the arguments | `g` with one `a -> b` statement, `h` with that statement and a second one | the two graphs carry the same statements with the same multiplicities, in either order | not executed | Comparison.ProvenanceEqualAccepts | Comparison.ProvenanceEqualIntendedTellsApart |
| src/pybel_tools/subgraph_expansion.py:76 | `get_subgraph_fill_edges` keys the predecessor counter by the inside node, so an outside node is never counted as a predecessor | an outside node with edges into two inside nodes and none out | count outside nodes by their edges into the sub-graph | not executed | Expansion.FillEdgesMissesPredecessors | Expansion.FillEdgesIntendedFindsFan |
| src/pybel_tools/owlparser.py:60-63 | `make_values` builds the value list and returns nothing | any list of terms | return the value lines | not executed | Owl.MakeValuesReturnsNothing | Owl.MakeValuesReadsBack |
| src/pybel_tools/orthology.py:145-157 | `collapse_orthologies` adds edges to the human gene while a generator walks the gene's live adjacency dictionary, so under Python 3 the next step raises `RuntimeError: dictionary changed size during iteration` | nodes HGNC:A1BG and MGI:a with one link HGNC:A1BG → MGI:a; the link is an in-edge of MGI:a, and its copy makes the human gene its own successor | take the links as a list first, then copy the edges | not executed | Orthology.CollapseOrthologiesRaises | Orthology.CollapseMoves |
| src/pybel_tools/mutation.py:239-240 | `add_inferred_edges` adds inverse edges while a generator filters the live edge dictionaries: a qualified self-loop carrying the relation gets a new key in the dictionary being walked and raises `RuntimeError`, and when the second of two mutual edges is stored under the relation's code key, it is rewritten into the first one's reverse and passed over | a node A with one `hasVariant` self-loop under key 0, with `unqualified_edge_code[hasVariant]` not 0 | every edge of the relation gains its reverse, over a list taken up front | not executed | Inference.AddInferredSelfLoopRaises | Inference.AddInferredSingle |
| src/pybel_tools/service/dict_service_utils.py:187-202 | the neighbourhood expansion adds each new neighbour with the centre node's data instead of its own | a centre with data `{function: Protein}` and a neighbour with `{function: RNA}` | each added neighbour keeps its own data | not executed | Neighbourhood.ExpandCopiesCentreData | Neighbourhood.ExpandKeepsNeighbourData |
