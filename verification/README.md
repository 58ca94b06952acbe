# rcd-light in Dafny

A Dafny model of the core of rcd-light, a library for relational causal
discovery. Relational causal discovery learns, from a relational schema
(entities, binary relationships with ONE/MANY ends, attributes) and a
conditional-independence (CI) oracle, which relational dependencies
`[A, AB, B].Y -> [A].X` hold and which way they point.

The modules follow the program's layers. Some source files are split into several modules:

- RCD.py: `RCD`, `RCDPhaseOne`, `RCDPhaseTwo` and `RCDInputs`.
- RCDLight.py: `RCDLight`, `Ancestrals`, `Parents` and `Skeleton`.
- RCDLightNew.py: `RCDLightNew` and `SharedPaths`.
- snc_rules.py: `Pdags` and `OrientationRules`.
- Model.py: `CausalModel` and `Digraphs`.
- InMemoryDataStore.py: `DataStores` and `DataQueries`.
- SchemaGenerator.py: `SchemaGenerators` and `EntityGraphs`.

`Sepsets` holds the separating-set search that RCD, RCD-Light and RCDLightNew share.

Four helper modules have no source file of their own:

- `Wrappers`: results and options.
- `Collections`: facts about sequences and sets, `list.remove`, and duplicate columns.
- `Strings`: split, strip, lower-casing and number printing.
- `Config`: the hop-threshold and depth argument checks.

The layers are:

- **Relational data model.** Covers the schema (`Schemas`), relational variables and dependencies with
  `reverse` and `intersects` (`RelVars`), and the `[A, AB].X -> [A].Y` parser (`ParserUtil`, `Strings`).
  It also covers the validity rules for paths, variables, dependencies and variable sets (`Validity`),
  the bounded enumeration of paths, variables and dependencies (`Space`),
  and the model with its precedence graph and cycle check (`CausalModel`, `Digraphs`).
- **Abstract ground graphs (AGGs).** Graphs are built per perspective, with
  intersection nodes, subsumption, an ancestor closure and tag-based edge
  removal (`AGGs`).
- **d-separation** over an AGG: intersection aliases and a labelled-link
  reachability search (`DSeparation`).
- **Edge orientation.** Covers CD, KNC, CA, MR3 and RBO on graphs that store an undirected edge as two arcs
  (`EdgeOrientation`), and the PDAG with the Meek and SNC rules (`Pdags`, `OrientationRules`, `Ancestrals`).
  It also covers the path helpers of the RCD-Light rewrite (`SharedPaths`).
- **Learning drivers.** RCD Phase I, with the separating-set search, the CI cache and
  propagated removals (`RCD`, `Sepsets`, `RCDPhaseOne`), and Phase II's orientation schedule
  (`RCDPhaseTwo`). Also covered: the setters that replace Phase I (`RCDInputs`), the PC
  wrapper (`PC`), RCD-Light and its rewrite (`RCDLight`, `RCDLightNew`,
  `Skeleton`, `Parents`), and precision/recall as exact ratios (`Evaluation`).
- **In-memory relational store and generators.** Covers tables as maps with
  insertion checks and path traversal (`DataStores`, `DataQueries`, `EntityGraphs`),
  aggregators (`Aggregators`), and the schema and model generators (`SchemaGenerators`,
  `ModelGenerators`).

Python exceptions become `Result`/`Outcome` values carrying the message;
dynamically typed arguments become small sum types (`Obj`, `Num`, `Arg`).
The CI oracle, random pickers and distributions are function
parameters. Where the program iterates a set or a dictionary, the
model takes the iteration order as a free choice and the contracts hold for
every order.

## Model

Each row names a member whose contract states the property in the third column, and the source lines it models. Paths are relative to the repository root.

| member | source | states |
|---|---|---|
| Schemas.ParseCardinality | src/causality/model/Schema.py:74-75 | a cardinality is accepted exactly when it is the string 'one' or 'many' |
| Schemas.MakeAttribute | src/causality/model/Schema.py:272-279 | an attribute is created exactly when its data type is absent or one of the codes 0, 1, 2, and it keeps its name and type |
| Schemas.AttrNames | src/causality/model/Schema.py:199 | the name list the duplicate test searches has one entry per attribute, and a name is in it exactly when some attribute of the item carries that name |
| Schemas.AddItemAttribute | src/causality/model/Schema.py:198-203 | the reserved name 'exists' and a name the item already has are refused; otherwise the attribute is appended and nothing else changes |
| Schemas.GetCardinality | src/causality/model/Schema.py:247-250 | succeeds exactly for the two ends; when both ends are the same entity the second end's cardinality is the one reported |
| Schemas.AttributeOrderIrrelevant | src/causality/model/Schema.py:182-187 | two items that declare the same attributes in the opposite order are equal |
| Schemas.SelfRelationshipKeepsSecondCard | src/causality/model/Schema.py:224-228 | for a relationship from an entity to itself only the second cardinality survives, so swapping the ends gives a different relationship |
| Schemas.GetEntity | src/causality/model/Schema.py:49-52 | succeeds exactly for entity names, returning a stored entity of that name |
| Schemas.GetRelationship | src/causality/model/Schema.py:84-87 | succeeds exactly for relationship names, returning a stored relationship of that name |
| Schemas.GetSchemaItem | src/causality/model/Schema.py:100-106 | succeeds exactly for item names; an entity is found before a relationship of the same name |
| Schemas.AddEntity | src/causality/model/Schema.py:37-42 | refused exactly when the name is taken, with the entity message before the relationship one; otherwise one attribute-less entity is appended |
| Schemas.AddRelationship | src/causality/model/Schema.py:59-77 | accepted exactly when the name is free, both ends are entities and both cardinalities are 'one' or 'many'; a taken name gives a name-clash error |
| Schemas.AddAttribute | src/causality/model/Schema.py:113-114 | fails for an unknown item; succeeds exactly when the item accepts the attribute, and then only that item changes |
| Schemas.GetRelationshipsForEntity | src/causality/model/Schema.py:117-123 | refused for a non-entity; otherwise holds exactly the relationships with the entity at one end |
| Schemas.GetRelationshipsBetweenEntities | src/causality/model/Schema.py:126-133 | refused unless both names are entities; otherwise holds exactly the relationships touching both |
| Schemas.BetweenEntitiesSymmetric | src/causality/model/Schema.py:126-133 | the relationships between two entities do not depend on the order the entities are named in |
| Schemas.EntityOrderIrrelevant | src/causality/model/Schema.py:19-25 | adding two distinct fresh entities in either order gives equal schemas |
| Schemas.AddEntityWellFormed | src/causality/model/Schema.py:37-42 | adding an entity keeps names unique and relationship ends valid |
| Schemas.AddRelationshipWellFormed | src/causality/model/Schema.py:59-77 | adding a relationship keeps names unique and relationship ends valid |
| Schemas.AddAttributeWellFormed | src/causality/model/Schema.py:113-114 | adding an attribute keeps the schema well formed and the item's attribute names unique |
| RelVars.MakeDependency | src/causality/model/RelationalDependency.py:97-102 | a dependency is built exactly from two relational variables, the first as cause and the second as effect |
| RelVars.IntersectsIffNotPrefix | src/causality/model/RelationalDependency.py:88-92 | two variables intersect exactly when they agree on base, terminal and attribute and neither path is a prefix of the other |
| RelVars.Reverse | src/causality/model/RelationalDependency.py:127-134 | the reverse's cause path is the original cause path read backwards, ending at the original base; its effect is the one-item path of the cause's terminal item; the two attributes are swapped |
| RelVars.ReverseInvolution | src/causality/model/RelationalDependency.py:127-134 | reversing twice gives the dependency back exactly when its effect is the single base item of its cause |
| RelVars.VarLessStrict | src/causality/model/RelationalDependency.py:63-69 | the key order (path, then attribute) on relational variables is irreflexive, asymmetric and total |
| RelVars.MakeIntersection | src/causality/model/RelationalDependency.py:139-144 | an intersection is built exactly from two relational variables |
| RelVars.IntersectionKey | src/causality/model/RelationalDependency.py:149-154 | the key holds the same two variables, the smaller one first |
| RelVars.IntersectionOrderIrrelevant | src/causality/model/RelationalDependency.py:149-158 | an intersection equals the one built from its variables in the other order |
| ParserUtil.ParseRelVarString | src/causality/model/ParserUtil.py:15-27 | text with other than one dot, one '[' or one ']' is refused with the matching message, checked in that order; with one of each, an empty path before the dot is the IndexError of indexing an empty string, a path not wrapped in brackets is refused, and a bracketed path always parses; a parse splits at the dot, unbrackets the path and strips every name and the attribute |
| ParserUtil.ParseRelVar | src/causality/model/ParserUtil.py:5-14 | a relational variable passes through unchanged, text is parsed, and anything else is refused |
| ParserUtil.ParseRelDep | src/causality/model/ParserUtil.py:30-43 | a dependency passes through, anything but text or a dependency is refused, text needs exactly one arrow, and the stripped text on each side parses to the cause and the effect; text with one arrow parses exactly when both stripped sides parse |
| ParserUtil.ParseShow | src/causality/model/ParserUtil.py:5-27 | printing a variable with plain names and parsing the text gives the variable back |
| ParserUtil.ShowParse | src/causality/model/RelationalDependency.py:72-73 | the printed form of a variable parses, and printing the result gives the same text |
| ParserUtil.ParseShowDep | src/causality/model/ParserUtil.py:30-43 | printing a dependency with plain names and parsing the text gives the dependency back |
| Validity.CheckPath | src/causality/model/RelationalValidity.py:3-30 | the path check passes exactly when every item exists, every consecutive pair passes and every consecutive triple passes; a missing item is reported before any other problem |
| Validity.EntityNotRelationship | src/causality/model/Schema.py:37-42 | in a well-formed schema no name is both an entity and a relationship |
| Validity.PairPassesIff | src/causality/model/RelationalValidity.py:11-20 | on a well-formed schema a pair passes exactly when one item is an entity taking part in the other, a relationship |
| Validity.TriplePassesIff | src/causality/model/RelationalValidity.py:22-29 | on a well-formed schema a triple passes exactly when it turns back only at an entity through a relationship that is MANY there |
| Validity.CheckPathValid | src/causality/model/RelationalValidity.py:3-30 | on a well-formed schema the path check passes exactly on alternating paths that turn back only through MANY ends |
| Validity.ReversedPathValid | src/causality/model/RelationalValidity.py:3-30 | a valid path read backwards is valid |
| Validity.CheckVariable | src/causality/model/RelationalValidity.py:32-37 | a variable passes exactly when its path passes and it is the existence variable or its attribute is declared on its terminal item; a path failure is reported as is |
| Validity.CheckVariableValid | src/causality/model/RelationalValidity.py:32-37 | on a well-formed schema the variable check passes exactly on valid variables |
| Validity.CheckDependency | src/causality/model/RelationalValidity.py:40-51 | a non-singleton effect is refused as not canonical, then differing bases as inconsistent; otherwise the check passes exactly when both variables pass |
| Validity.CheckDependencyValid | src/causality/model/RelationalValidity.py:40-51 | on a well-formed schema the dependency check passes exactly on valid dependencies |
| Validity.ReverseValid | src/causality/model/RelationalDependency.py:127-134 | the reverse of a valid dependency is valid |
| Validity.CheckEach | src/causality/model/RelationalValidity.py:59-62 | the per-variable loop passes exactly when every variable is within the hop threshold and valid |
| Validity.CheckVariableSet | src/causality/model/RelationalValidity.py:54-62 | an empty collection fails, a mixed perspective is refused, and otherwise the set passes exactly when every variable is within the hop threshold and valid |
| Validity.CheckVariableSetValid | src/causality/model/RelationalValidity.py:54-62 | whatever order the set is iterated in, the check passes exactly when the set is nonempty, has one perspective and holds only valid variables within the threshold |
| Space.ExtendThroughTo | src/causality/modelspace/RelationalSpace.py:38-51 | every relationship of the terminal entity that the turn-back rule admits gives an extension |
| Space.ExtendThroughFrom | src/causality/modelspace/RelationalSpace.py:38-51 | every extension through an entity comes from one of its relationships that the turn-back rule admits |
| Space.ExtendOneShape | src/causality/modelspace/RelationalSpace.py:23-52 | every extension of a path is that path with exactly one more item |
| Space.ExtendPathsTo | src/causality/modelspace/RelationalSpace.py:23-52 | every extension of every given path is listed |
| Space.ExtendPathsFrom | src/causality/modelspace/RelationalSpace.py:23-52 | every listed path extends one of the given paths |
| Space.Singletons | src/causality/modelspace/RelationalSpace.py:14 | the starting paths are the one-item paths of the schema items, in order |
| Space.PathsUpToHas | src/causality/modelspace/RelationalSpace.py:15-20 | every path of every frontier up to the hop threshold is in the result |
| Space.PathLevel | src/causality/modelspace/RelationalSpace.py:15-20 | every path in the result belongs to one of the frontiers up to the hop threshold |
| Space.GetRelationalPaths | src/causality/modelspace/RelationalSpace.py:7-20 | a threshold that is not a number, or is negative, is refused with its own message; otherwise the result is the enumeration up to that threshold |
| Space.ValidPrefix | src/causality/model/RelationalValidity.py:3-30 | every prefix of a valid path is valid |
| Space.ValidExtend | src/causality/model/RelationalValidity.py:3-30 | a valid path extended by one item is valid exactly when the step alternates, stays within a relationship's endpoints, and turns back only through a MANY end |
| Space.LookupRelationship | src/causality/model/Schema.py:84-87 | in a well-formed schema looking up a listed relationship by name finds that relationship |
| Space.ExtendAtRelationship | src/causality/modelspace/RelationalSpace.py:27-36 | from a relationship the one-hop extensions are exactly the valid steps to one of its endpoints |
| Space.AdmitsIff | src/causality/modelspace/RelationalSpace.py:40-49 | a relationship is admitted after an entity exactly when going back into it is a legal turn |
| Space.ExtendAtEntity | src/causality/modelspace/RelationalSpace.py:37-51 | from an entity the one-hop extensions are exactly the valid steps to a relationship it takes part in |
| Space.ExtendOneValid | src/causality/modelspace/RelationalSpace.py:23-52 | from a valid path the one-hop extensions are exactly its valid one-item extensions |
| Space.SingletonsHas | src/causality/modelspace/RelationalSpace.py:14 | a path is a starting path exactly when it is a single schema item |
| Space.Level0Valid | src/causality/modelspace/RelationalSpace.py:14 | the starting frontier holds exactly the valid one-item paths |
| Space.StepComplete | src/causality/modelspace/RelationalSpace.py:16-19 | a valid path whose prefix is in the previous frontier is in the next one |
| Space.StepValid | src/causality/modelspace/RelationalSpace.py:16-19 | every extension of a valid path is a valid path one item longer |
| Space.LevelSound | src/causality/modelspace/RelationalSpace.py:15-20 | every path of the k-th frontier is a valid path of k + 1 items |
| Space.LevelComplete | src/causality/modelspace/RelationalSpace.py:15-20 | every valid path of k + 1 items is in the k-th frontier |
| Space.LevelValid | src/causality/modelspace/RelationalSpace.py:15-20 | the k-th frontier holds exactly the valid paths of k + 1 items |
| Space.PathsUpToSound | src/causality/modelspace/RelationalSpace.py:7-20 | every enumerated path is valid and has at most threshold + 1 items |
| Space.PathsUpToComplete | src/causality/modelspace/RelationalSpace.py:7-20 | every valid path with at most threshold + 1 items is enumerated |
| Space.PathsUpToValid | src/causality/modelspace/RelationalSpace.py:7-20 | the enumerated paths are exactly the valid paths of at most the threshold's hops |
| Space.EnumeratedPathsPass | src/causality/modelspace/RelationalSpace.py:7-20 | every enumerated path passes the path validity check |
| Space.SelfRelationshipListedTwice | src/causality/modelspace/RelationalSpace.py:34-36 | a relationship with one entity at both ends extends to that entity twice |
| Space.SelfRelationshipTurnsBackInvalid | src/causality/modelspace/RelationalSpace.py:44-47 | for a well-formed schema with R(E many, E one), the enumeration lists [R, E, R], reading the first end's MANY, while the validity rules refuse it, reading the ONE that the second end leaves in the cardinalities dict |
| Space.VarsOn | src/causality/modelspace/RelationalSpace.py:59-64 | the variables made for one path are exactly that path with each declared attribute, plus existence when asked for |
| Space.VarsOf | src/causality/modelspace/RelationalSpace.py:57-65 | a variable is produced exactly when its path is given and its attribute is declared on its terminal item, or is existence when asked for |
| Space.GetRelationalVariables | src/causality/modelspace/RelationalSpace.py:55-65 | errors of the path enumeration pass through; otherwise the variables are built over all enumerated paths |
| Space.VariablesValid | src/causality/modelspace/RelationalSpace.py:55-65 | the enumerated variables are exactly the valid variables within the threshold, with no existence variable unless asked for |
| Space.Occurrences | src/causality/modelspace/RelationalSpace.py:98 | the count is at most the path length and zero exactly when the item is absent |
| Space.EffectsOf | src/causality/modelspace/RelationalSpace.py:87-102 | for one cause, a dependency is produced exactly for each candidate effect the seven filters keep |
| Space.DepsOf | src/causality/modelspace/RelationalSpace.py:82-102 | a dependency is produced exactly when its cause and effect are candidates and the filters keep the pair |
| Space.GetRelationalDependencies | src/causality/modelspace/RelationalSpace.py:68-102 | errors of the enumeration pass through; otherwise every pair of enumerated variables is filtered |
| Space.DependenciesValid | src/causality/modelspace/RelationalSpace.py:68-102 | the enumerated dependencies are exactly the valid dependencies within the threshold that the filters keep |
| Space.EnumeratedDependenciesPass | src/causality/modelspace/RelationalSpace.py:68-102 | every enumerated dependency passes the dependency validity check |
| CausalModel.ParseAll | src/causality/model/Model.py:26 | every entry is parsed in order; the result has one dependency per entry, and an error is the error of some entry that does not parse |
| CausalModel.CheckAll | src/causality/model/Model.py:27-28 | the checker passes on the list exactly when it passes on every dependency; a failure is one dependency's failure |
| CausalModel.Nodes | src/causality/model/Model.py:40-62 | every arc of the DAG joins two of its nodes |
| CausalModel.MakeModel | src/causality/model/Model.py:18-67 | duplicates are refused first, then parse errors, then checker failures; a model is built exactly when all pass and the DAG of existence, attribute and dependency arcs is acyclic |
| CausalModel.ForeignEntriesReachParser | src/causality/model/Model.py:21-26 | two different foreign entries, such as Python's `[1, 2]`, are no duplicates, so the constructor fails with the parser's "not a string or RelationalDependency object" error |
| CausalModel.ItemNodes | src/causality/model/Model.py:34-53 | every schema item has an existence node and every declared attribute a node |
| CausalModel.PrecedenceArcs | src/causality/model/Model.py:46-55 | each entity's existence precedes every relationship it takes part in, and each item's existence precedes its attributes |
| CausalModel.DependencyParents | src/causality/model/Model.py:58-62 | a dependency's cause attribute, on its terminal item, and the existence of every item on the cause path past the base are parents of its effect |
| CausalModel.UniqueItem | src/causality/model/Schema.py:37-77 | in a well-formed schema a name belongs to only one item |
| CausalModel.LookupItem | src/causality/model/Schema.py:100-106 | looking up a listed item by name finds that item |
| CausalModel.SingleItemVariable | src/causality/model/RelationalValidity.py:32-37 | a valid variable on one item is that item's existence or one of its declared attributes |
| CausalModel.PathItemExists | src/causality/model/Model.py:61-62 | every item on a valid path has an existence node |
| CausalModel.NodesExact | src/causality/model/Model.py:40-62 | with valid dependencies the arcs add no nodes: the nodes are the existence nodes and the attribute variables |
| CausalModel.DefaultCheckerNodes | src/causality/model/Model.py:18-62 | a model built with the library's own dependency check has exactly the existence nodes and the attribute variables as nodes |
| CausalModel.ArcInside | src/causality/model/Model.py:40-62 | with valid dependencies both ends of every arc are existence nodes or attribute variables |
| CausalModel.ItemRelVars | src/causality/model/Model.py:82-83 | the item variables are exactly the nodes that are existence variables |
| CausalModel.AttrRelVars | src/causality/model/Model.py:86-87 | the attribute variables are exactly the other nodes |
| CausalModel.NextItemOrAttribute | src/causality/model/Model.py:90-96 | the order lists every node once, each after all of its parents |
| CausalModel.ParentsFirst | src/causality/model/Model.py:90-96 | in that order a dependency's cause attribute comes before its effect |
| Digraphs.CycleIsStuck | src/causality/model/Model.py:64-65 | the nodes of a cycle form a set with no source, so an acyclic graph has no cycle |
| Digraphs.Peel | src/causality/model/Model.py:64-65 | what is left after repeatedly removing every source lies in the graph and, if not empty, is a set in which every node has a predecessor |
| Digraphs.PeelKeepsStuck | src/causality/model/Model.py:64-65 | peeling sources never removes a node of a set in which every node has a predecessor |
| Digraphs.PeelDecides | src/causality/model/Model.py:64-65 | peeling removes every node exactly when the graph is acyclic |
| Digraphs.TopoOrderAcyclic | src/causality/model/Model.py:90-96 | a graph with a topological order is acyclic |
| Digraphs.TopoSort | src/causality/model/Model.py:90-96 | an acyclic graph gets an order that lists every node once, each after all its predecessors |
| Digraphs.AncestorsFrom | src/causality/dseparation/AbstractGroundGraph.py:123-150 | the ancestor closure contains the start set, is closed under predecessors and lies inside every such set |
| Digraphs.AncestorsReach | src/causality/dseparation/AbstractGroundGraph.py:123-150 | a node is an ancestor of n exactly when some walk leads from it to n |
| Digraphs.AncestorsUnion | src/causality/dseparation/AbstractGroundGraph.py:123-150 | the ancestors of a union of start sets are the union of their ancestors |
| Digraphs.AncestorsOfNothing | src/causality/dseparation/AbstractGroundGraph.py:123-150 | the empty set has no ancestors |
| Digraphs.AcyclicClosedUnion | src/causality/model/Model.py:64-65 | two acyclic node sets, one closed under predecessors, make an acyclic union |
| AGGs.FindPivots | src/causality/dseparation/AbstractGroundGraph.py:167-173 | the pivots are 1..k where k is the length of the longest common prefix of the two paths |
| AGGs.Splice | src/causality/dseparation/AbstractGroundGraph.py:158 | a splice at pivot k is as long as both paths together less 2k - 1 items |
| AGGs.KeepValid | src/causality/dseparation/AbstractGroundGraph.py:157-163 | a splice is kept exactly when it passes the path check; the kept splices are strictly shorter the later their pivot |
| AGGs.ExtendPath | src/causality/dseparation/AbstractGroundGraph.py:153-164 | the extensions are exactly the splices at the pivots of the reversed original and the extension that pass the path check, with no repeats |
| AGGs.ExtendPathEnds | src/causality/dseparation/AbstractGroundGraph.py:153-164 | every extension starts at the original's base, ends at the extension's terminal item and is a valid path |
| AGGs.SpliceEnds | src/causality/dseparation/AbstractGroundGraph.py:158 | a splice at a pivot within the overlap starts where the original starts and ends where the extension ends |
| AGGs.Canon | src/causality/model/RelationalDependency.py:149-154 | the canonical intersection holds the same two variables, the smaller first |
| AGGs.CanonSymmetric | src/causality/dseparation/AbstractGroundGraph.py:57-60 | the intersection node of a pair does not depend on the order of the pair |
| AGGs.Assemble | src/causality/dseparation/AbstractGroundGraph.py:27-103 | the assembled graph keeps its perspective, threshold and variables, starts with an empty cache, and its edges join nodes, carry at least one dependency, and every variable subsumes itself |
| AGGs.Build | src/causality/dseparation/AbstractGroundGraph.py:13-34 | an unknown perspective is refused first, then a threshold that is not a non-negative integer; otherwise the graph is well formed with an empty cache |
| AGGs.VariableNodes | src/causality/dseparation/AbstractGroundGraph.py:27-28 | the variable nodes are exactly the valid non-existence variables of at most the threshold's hops based at the perspective |
| AGGs.EdgeAt | src/causality/dseparation/AbstractGroundGraph.py:36-103 | between two nodes the graph carries exactly the pair's tags, an absent edge reading as none |
| AGGs.VariableEdges | src/causality/dseparation/AbstractGroundGraph.py:36-51 | an edge between variable nodes is tagged with exactly the dependencies whose effect is the target's attribute on its terminal item and whose cause path, extended along the target's path, is the source; such a source shares the target's base and has a valid path |
| AGGs.IntersectionNodes | src/causality/dseparation/AbstractGroundGraph.py:53-63 | intersection nodes are exactly the canonical pairs of intersecting variable nodes, and a variable subsumes exactly itself and the intersections it is part of |
| AGGs.IntersectionIff | src/causality/dseparation/AbstractGroundGraph.py:57-60 | an intersection is built exactly from two intersecting variables, in canonical form |
| AGGs.SubsumedIsSource | src/causality/dseparation/AbstractGroundGraph.py:61-62 | anything else a variable subsumes is an intersection it is part of |
| AGGs.SourceIsSubsumed | src/causality/dseparation/AbstractGroundGraph.py:61-62 | every intersection a variable is part of is subsumed by it |
| AGGs.IntersectionEdges | src/causality/dseparation/AbstractGroundGraph.py:65-103 | an intersection node's edges into and out of a variable pool the tags of its two sources' edges; no edge joins two intersection nodes |
| AGGs.GetSubsumedVariables | src/causality/dseparation/AbstractGroundGraph.py:114-120 | a non-variable is refused first, then a variable that is not a node; otherwise the answer contains the variable and only nodes |
| AGGs.GetAncestors | src/causality/dseparation/AbstractGroundGraph.py:123-136 | a cached answer is returned as is; an unknown node is refused; otherwise the ancestors are computed, which fails exactly when they hold a cycle, and a fresh answer is cached; the cache stays true to the graph |
| AGGs.AncestorsAreWalks | src/causality/dseparation/AbstractGroundGraph.py:123-136 | with a cache true to the graph, the answer holds exactly the nodes from which a walk reaches the node |
| AGGs.DropTag | src/causality/dseparation/AbstractGroundGraph.py:141-149 | an edge is kept exactly when its tags are not just the removed dependency, and then keeps its other tags |
| AGGs.OtherTags | src/causality/dseparation/AbstractGroundGraph.py:140-147 | the reported dependencies are exactly the others found on edges that carried the removed one |
| AGGs.RemoveEdgesForDependencyAsWritten | src/causality/dseparation/AbstractGroundGraph.py:139-150 | as written: the tags are dropped and the other dependencies reported, and the ancestor cache is kept |
| AGGs.RemoveEdgesForDependency | src/causality/dseparation/AbstractGroundGraph.py:139-150 | the same edges and report, with the ancestor cache cleared so it stays true to the graph |
| AGGs.RemoveEdgesExact | src/causality/dseparation/AbstractGroundGraph.py:139-150 | after the removal no edge carries the dependency, edges that did not carry it are untouched, and removing it again changes nothing and reports nothing |
| AGGs.RemoveEdgesCommute | src/causality/dseparation/AbstractGroundGraph.py:139-150 | removing two dependencies leaves the same edges in either order |
| AGGs.DropTwice | src/causality/dseparation/AbstractGroundGraph.py:148-149 | a tag set survives two removals exactly when it is empty or holds a third dependency |
| AGGs.StaleExample | src/causality/dseparation/AbstractGroundGraph.py:13-51 | the graph with the single arc x -> y is well formed and its empty cache is true to it |
| AGGs.StaleExampleAsked | src/causality/dseparation/AbstractGroundGraph.py:123-129 | asking for the ancestors of y there answers {x, y} and caches it |
| AGGs.StaleAncestorsAfterRemoval | src/causality/dseparation/AbstractGroundGraph.py:123-150 | after the removal as written, x is still reported as an ancestor of y although no walk leads from x to y |
| AGGs.SingleArcAncestors | src/causality/dseparation/AbstractGroundGraph.py:132-136 | with the one arc x -> y, the ancestors of y are x and y and there is no cycle |
| AGGs.NoArcsNoReach | src/causality/dseparation/AbstractGroundGraph.py:132-136 | without arcs no walk leads from one node to another |
| DSeparation.Mirror | src/causality/dseparation/DSeparation.py:73-75 | the mirrored links are exactly the arcs and their reverses |
| DSeparation.Agg2Ug | src/causality/dseparation/DSeparation.py:70-80 | the mirrored graph holds every arc, every link goes both ways and comes from an arc, and no source link is present yet |
| DSeparation.Next | src/causality/dseparation/DSeparation.py:168-185 | the links a labelled link leads on to are exactly the legal moves out of its head |
| DSeparation.Seeds | src/causality/dseparation/DSeparation.py:158-161 | the first labelled links are exactly those from the source node to each node of X |
| DSeparation.SeedTrail | src/causality/dseparation/DSeparation.py:158-161 | each node of X is reached by a trail of its own |
| DSeparation.TrailExtend | src/causality/dseparation/DSeparation.py:168-185 | a trail followed by a legal move is a trail |
| DSeparation.NextHasTrail | src/causality/dseparation/DSeparation.py:168-185 | every link the search labels from a link with a trail has a trail too |
| DSeparation.TrailInClosed | src/causality/dseparation/DSeparation.py:163-187 | a set of links that holds the seeds and is closed under legal moves holds the last link of every trail |
| DSeparation.FollowLink | src/causality/dseparation/DSeparation.py:170-185 | reaching Y means X and Y are connected; otherwise every legal unlabelled move is labelled and none enters Y |
| DSeparation.FollowRound | src/causality/dseparation/DSeparation.py:166-187 | one round either finds a connection or labels every legal move from the previous round, each with a trail and none in Y |
| DSeparation.Search | src/causality/dseparation/DSeparation.py:156-190 | the labelling search answers separated exactly when no legal trail leads from X into Y |
| DSeparation.ConnectedSymmetric | src/causality/dseparation/DSeparation.py:168-185 | with links both ways and no conditioned node in Y, a trail from X into Y read backwards is a trail from Y into X |
| DSeparation.ReversedStep | src/causality/dseparation/DSeparation.py:172-178 | the legality of a move is the same read backwards |
| DSeparation.Descendants | src/causality/dseparation/DSeparation.py:150-154 | the table is exactly the conditioned nodes and their ancestors; it fails exactly when those ancestors hold a cycle; only the graph's cache changes, and it stays true |
| DSeparation.AskAncestors | src/causality/dseparation/DSeparation.py:153 | one ancestor query on a graph that differs only in its cache gives the ancestors of the node, failing exactly on a cycle |
| DSeparation.GatherStep | src/causality/dseparation/DSeparation.py:151-154 | adding one node's cycle-free ancestors to a cycle-free gathered set adds exactly them, still without a cycle |
| DSeparation.GatherFails | src/causality/dseparation/DSeparation.py:151-154 | a cycle among one conditioned node's ancestors is a cycle among the ancestors of the whole set |
| DSeparation.Subsume | src/causality/dseparation/DSeparation.py:51-53 | the expansion holds exactly what the given variables subsume, all of it nodes |
| DSeparation.Expand | src/causality/dseparation/DSeparation.py:51-53 | the expansion succeeds exactly when every variable is a node, and otherwise quotes one that is not |
| DSeparation.SeparatedSymmetric | src/causality/dseparation/DSeparation.py:17-65 | d-separation is symmetric in X and Y |
| DSeparation.OverlapConnected | src/causality/dseparation/DSeparation.py:58-59 | a node in both X and Y connects them |
| DSeparation.BfsReachability | src/causality/dseparation/DSeparation.py:148-190 | fails exactly on a cycle among the conditioned nodes' ancestors; otherwise answers separated exactly when no legal trail joins X and Y, and takes the source links out again |
| DSeparation.ParseAll | src/causality/dseparation/DSeparation.py:26 | the parsed set holds exactly the variables the entries parse to; an error is that of the first entry that does not parse |
| DSeparation.ReadArg | src/causality/dseparation/DSeparation.py:24-34 | an argument that is not iterable, or empty when it must not be, is refused with its message; otherwise every entry must parse |
| DSeparation.ReadArgs | src/causality/dseparation/DSeparation.py:24-34 | X is read first, then Y, then Z; X and Y must be nonempty |
| DSeparation.NewDSep | src/causality/dseparation/DSeparation.py:12-15 | a new object holds the model and no graphs |
| DSeparation.GetAgg | src/causality/dseparation/DSeparation.py:39-47 | a stored graph is reused unchanged; otherwise the graph is built and stored under its perspective and threshold, or the construction error is passed on and nothing is stored |
| DSeparation.Store | src/causality/dseparation/DSeparation.py:43-44 | storing keeps every stored graph the one construction gives for its key |
| DSeparation.SearchedOk | src/causality/dseparation/DSeparation.py:148-190 | a search changes a stored graph's cache only, so it stays the one construction gives |
| DSeparation.SeparatedIgnoresCache | src/causality/dseparation/DSeparation.py:148-190 | the answer a graph gives does not depend on its cache |
| DSeparation.Query | src/causality/dseparation/DSeparation.py:50-65 | an answer says exactly whether the expanded X and Y, less the expanded Z, are joined by no legal trail; an answer is given whenever X, Y and Z are variables of the graph and the ancestors of the expanded Z form no cycle; an error names a variable that is not a node, or is the recursion limit on such a cycle |
| DSeparation.DSeparated | src/causality/dseparation/DSeparation.py:17-65 | argument errors come first and change nothing; an answer is the reference d-separation of X and Y given Z in the graph stored for X's perspective; parsed arguments that the checker accepts in any order, and whose every X perspective builds a graph that can answer, always get an answer |
| DSeparation.QueryParsed | src/causality/dseparation/DSeparation.py:36-65 | an answer is the reference one in the graph stored for the perspective of some variable of X; arguments the checker accepts whose X perspectives all build answerable graphs always get one |
| DSeparation.AnswerableIgnoresCache | src/causality/dseparation/DSeparation.py:42-47 | whether a query can be answered does not depend on the ancestor cache of the stored graph |
| DSeparation.Restore | src/causality/dseparation/DSeparation.py:40-47 | a graph whose cache changed is stored back under its key |
| DSeparation.QueryStored | src/causality/dseparation/DSeparation.py:46-65 | a query on a stored graph answers by the reference and stores the cache changes back; it answers whenever the stored graph can answer it |
| EdgeOrientation.AdjacentNodes | src/causality/learning/EdgeOrientation.py:29-36 | both ends of an adjacency are nodes of the graph |
| EdgeOrientation.UnshieldedTriplesExact | src/causality/learning/EdgeOrientation.py:29-36 | the generator enumerates exactly the unshielded triples, and their three nodes are distinct |
| EdgeOrientation.Yield | src/causality/learning/EdgeOrientation.py:12-14 | a yielded arc is deleted only while its edge is undirected; afterwards the edge is not undirected and the flag records whether anything was deleted |
| EdgeOrientation.SoundKeepsAdjacency | src/causality/learning/EdgeOrientation.py:6-15 | orienting never changes which nodes are adjacent |
| EdgeOrientation.SoundKeepsUnshielded | src/causality/learning/EdgeOrientation.py:29-36 | orienting never changes which triples are unshielded |
| EdgeOrientation.UnshieldedTriplesKept | src/causality/learning/EdgeOrientation.py:18-36 | the unshielded triples of an oriented graph are those of the graph it started from, so enumerating while deleting sees the same triples |
| EdgeOrientation.YieldSound | src/causality/learning/EdgeOrientation.py:12-14 | deleting one direction of an undirected edge only orients it and sets the flag exactly when the graph changed |
| EdgeOrientation.DropsSound | src/causality/learning/EdgeOrientation.py:52-54 | a pass of deletions only orients edges and reports whether it changed the graph |
| EdgeOrientation.DropsShrink | src/causality/learning/EdgeOrientation.py:52-54 | a pass deletes only target arcs |
| EdgeOrientation.DropsSettle | src/causality/learning/EdgeOrientation.py:52-54 | after a pass no target's edge is undirected |
| EdgeOrientation.TargetsOf | src/causality/learning/EdgeOrientation.py:58-63 | the targets list the arc of each candidate, in the same order |
| EdgeOrientation.RulePassFacts | src/causality/learning/EdgeOrientation.py:45-63 | a pass over collected candidates only orients, deletes only candidate arcs, and leaves no candidate's edge undirected |
| EdgeOrientation.ApplyKnownNonColliders | src/causality/learning/EdgeOrientation.py:45-76 | known non-colliders only orient; every deleted arc is 3 -> 2 for some 1 -> 2 - 3 with 1, 3 not adjacent; afterwards no such 2 - 3 is undirected |
| EdgeOrientation.KNCFacts | src/causality/learning/EdgeOrientation.py:58-76 | the facts of the known-non-collider pass for every candidate order |
| EdgeOrientation.ApplyCycleAvoidance | src/causality/learning/EdgeOrientation.py:79-110 | cycle avoidance only orients; every deleted arc is 3 -> 1 for some 1 -> 2 -> 3 with 1 - 3; afterwards no such 1 - 3 is undirected |
| EdgeOrientation.CAFacts | src/causality/learning/EdgeOrientation.py:92-110 | the facts of the cycle-avoidance pass for every candidate order |
| EdgeOrientation.ApplyMR3 | src/causality/learning/EdgeOrientation.py:113-149 | Meek's rule 3 only orients; every deleted arc is 2 -> 1 where 1 has three or more undirected neighbours, among them 2 and two non-adjacent ones pointing into 2; afterwards no such 1 - 2 is undirected |
| EdgeOrientation.MR3Facts | src/causality/learning/EdgeOrientation.py:126-149 | the facts of the rule-3 pass for every candidate order |
| EdgeOrientation.CDStepFacts | src/causality/learning/EdgeOrientation.py:18-26 | one triple of collider detection only orients, and only the edges 1 - 2 and 2 - 3 of a valid candidate, after which it is no longer a valid candidate |
| EdgeOrientation.CDPassFacts | src/causality/learning/EdgeOrientation.py:6-26 | a collider-detection pass only orients, deletes only 2 -> 1 or 2 -> 3 of valid candidates, and leaves no triple a valid candidate |
| EdgeOrientation.CDPassInert | src/causality/learning/EdgeOrientation.py:6-26 | a pass with no valid candidate changes nothing |
| EdgeOrientation.ApplyColliderDetection | src/causality/learning/EdgeOrientation.py:6-42 | collider detection only orients; each deleted arc points out of the middle of an unshielded triple whose sepset excludes the middle; afterwards no unshielded triple with such a sepset can still become a collider |
| EdgeOrientation.CDFacts | src/causality/learning/EdgeOrientation.py:6-42 | the facts of collider detection for every enumeration order |
| EdgeOrientation.ColliderDetectionIdempotent | src/causality/learning/EdgeOrientation.py:6-42 | running collider detection again on its own result changes nothing and reports no new orientation |
| EdgeOrientation.ColliderDetectionOrderMatters | src/causality/learning/EdgeOrientation.py:18-36 | on X - Z - Y - W with empty sepsets for (X, Y) and (W, Z), the two enumeration orders orient different colliders |
| EdgeOrientation.RBOStepFacts | src/causality/learning/EdgeOrientation.py:152-163 | one RBO triple only orients, and only its 2 - 3 edge, as a common cause or a common effect, after which it is no longer a valid candidate |
| EdgeOrientation.RBOPassFacts | src/causality/learning/EdgeOrientation.py:152-163 | an RBO pass only orients, deletes only the common-cause or common-effect arc of valid candidates, and leaves none a valid candidate |
| EdgeOrientation.ApplyRBO | src/causality/learning/EdgeOrientation.py:152-163 | RBO only orients; each deleted arc is 3 -> 2 when 2 is in sepset(1, 3) or intersects a member of it, and 2 -> 3 otherwise; afterwards no triple is still a valid candidate |
| EdgeOrientation.RBOFacts | src/causality/learning/EdgeOrientation.py:152-163 | the facts of RBO for every enumeration order |
| Pdags.Empty | src/shlee/snc_rules.py:13-16 | a new PDAG has no arcs and empty parent/child maps |
| Pdags.AddEdge | src/shlee/snc_rules.py:87-91 | adds exactly the arc (x, y), and the parent/child maps keep mirroring the arcs |
| Pdags.AddEdges | src/shlee/snc_rules.py:83-85 | adds exactly the listed arcs, keeping the maps consistent |
| Pdags.FromEdges | src/shlee/RCDLight.py:288-293 | a PDAG built from an edge list has exactly those arcs and consistent maps |
| Pdags.AddUndirectedEdge | src/shlee/snc_rules.py:93-96 | leaves x -- y undirected, adds no other arc, removes none |
| Pdags.Vertices | src/shlee/snc_rules.py:18-19 | on a consistent graph every end point of an arc is a vertex |
| Pdags.Orient | src/shlee/snc_rules.py:101-108 | answers True iff x -- y was undirected; then exactly (y, x) is gone and x --> y is directed; otherwise nothing changes |
| Pdags.OrientOnly | src/shlee/snc_rules.py:101-108 | orienting between distinct vertices only removes arcs whose reverse stays, and the flag says whether one went |
| Pdags.OrientOnlyIf | src/shlee/snc_rules.py:101-108 | on a consistent graph orient only orients and keeps the maps consistent |
| Pdags.Orients | src/shlee/snc_rules.py:98-99 | orienting a list of pairs keeps the maps consistent |
| Pdags.OrientsDrops | src/shlee/snc_rules.py:98-99 | orients is the edge-orientation rules' deletion pass over the reversed pairs |
| Pdags.OrientsFacts | src/shlee/snc_rules.py:98-99 | after orients only orientations happened, every removed arc is the reverse of a listed pair, and no listed pair is left undirected |
| Pdags.OrientsConsistent | src/shlee/snc_rules.py:98-99 | on a consistent graph orients only orients, for any pairs, and leaves none of them undirected |
| Pdags.OrientedFromThen | src/shlee/snc_rules.py:101-108 | orienting twice in a row is still orienting from the first arc set |
| Pdags.IsOriented | src/shlee/snc_rules.py:116-117 | true iff exactly one of the two arcs is present |
| Pdags.OrientedEdges | src/shlee/RCDLight.py:326-331 | holds exactly the directed edges |
| Pdags.UnorientedEdges | src/shlee/RCDLight.py:333-338 | holds the end-point pair of an arc iff that edge is undirected, and nothing else |
| Pdags.Adj | src/shlee/snc_rules.py:119-131 | the adjacent vertices split into disjoint parents, children and neighbours |
| Pdags.IsAdj | src/shlee/snc_rules.py:80-81 | true iff an arc joins x and y in either direction |
| Pdags.DirectedArcs | src/shlee/snc_rules.py:127-128 | the directed edges as a digraph over the PDAG's nodes |
| Pdags.ReversedDirectedArcs | src/shlee/snc_rules.py:130-131 | the directed edges reversed, as a digraph over the PDAG's nodes |
| Pdags.An | src/shlee/snc_rules.py:24-33 | the least set holding x's parents and closed under taking parents along directed edges |
| Pdags.De | src/shlee/snc_rules.py:35-44 | the least set holding x's children and closed under taking children along directed edges |
| Pdags.RemoveVertex | src/shlee/snc_rules.py:53-66 | drops exactly the arcs at v, v's own map entries and v from every other entry, keeping consistency |
| Pdags.Count | src/shlee/snc_rules.py:227-230 | adds one under the name exactly when the result is true and touches no other name |
| Pdags.SoundThen | src/shlee/snc_rules.py:139-158 | two orienting steps in a row orient, and together changed something iff one of them did |
| Pdags.ValidThen | src/shlee/snc_rules.py:139-158 | two valid orienting steps compose into a valid step with the or of their flags |
| Pdags.OrientStep | src/shlee/snc_rules.py:227-230 | a counted orient: changed iff x -- y was undirected, then exactly (y, x) removed and counted, otherwise nothing |
| Pdags.Rule1 | src/shlee/snc_rules.py:220-225 | x --> y leaves y -- z oriented and changes iff it was undirected; else z --> y does the same for y -- x; else nothing changes |
| Pdags.Rule4 | src/shlee/snc_rules.py:212-218 | MR4 only orients and, when it changes nothing, leaves graph and counter unchanged |
| Pdags.Rule4Meaning | src/shlee/snc_rules.py:212-218 | a directed path z --> w --> x orients y -- x; failing that x --> w --> z orients y -- z; with neither nothing changes |
| Pdags.SncRule2 | src/shlee/snc_rules.py:204-210 | x --> z leaves y -- z oriented; else z --> x leaves y -- x oriented; else nothing changes |
| Pdags.Rule3 | src/shlee/snc_rules.py:189-194 | removes exactly the arcs (w, y) for the w with x --> w <-- z and w -- y, and changes iff there is such a w |
| Pdags.Rule3Valid | src/shlee/snc_rules.py:189-194 | MR3 on a consistent graph only orients |
| Pdags.Rule3ValidC | src/shlee/snc_rules.py:189-194 | MR3's arc removals with their map updates keep the graph an orientation of the original |
| Pdags.DropIntoConsistent | src/shlee/snc_rules.py:101-108 | removing the arcs (w, y) with the matching map updates keeps a consistent graph consistent |
| Pdags.Pairs | src/shlee/snc_rules.py:192-193 | the pairs (y, w), one per w, in order |
| Pdags.OrientsToward | src/shlee/snc_rules.py:192-193 | orienting y --> w for several w removes exactly their arcs (w, y), whatever the order |
| Pdags.OrientTowardFirst | src/shlee/snc_rules.py:192-193 | the first orientation removes (w0, y) and leaves the remaining pairs still present for the rest |
| Pdags.Rule3AnyOrder | src/shlee/snc_rules.py:189-194 | run_mr3 in any iteration order of its target set gives the same arcs and the same answer |
| Pdags.Rule2At | src/shlee/snc_rules.py:198-201 | MR2 on one arc only orients and leaves everything unchanged when it does nothing |
| Pdags.Rule2Over | src/shlee/snc_rules.py:196-202 | MR2 over a list of arcs, each checked on the current graph, only orients |
| Pdags.ValidThenIf | src/shlee/snc_rules.py:196-202 | on a consistent graph two valid steps compose into one valid step |
| Pdags.Rule2 | src/shlee/snc_rules.py:196-202 | run_mr2 only orients, and when it reports no change no undirected x -- y has a directed path x --> w --> y |
| Pdags.Rule2Quiet | src/shlee/snc_rules.py:196-202 | a quiet MR2 pass met no arc with the MR2 pattern, so over all arcs nothing is left for MR2 |
| Pdags.Rule2Justified | src/shlee/snc_rules.py:196-202 | every arc MR2 removed has, in the result, the directed path x --> w --> y that justified it |
| OrientationRules.MeekQuietCloses | src/shlee/RCDLight.py:191-193 | when MR1, MR3 and MR4 each change nothing on x -- y -- z, none of their patterns is left there |
| OrientationRules.OrientPlain | src/shlee/RCDLight.py:397-404 | the counter-free orient: changed iff x -- y was undirected, and afterwards it is not |
| OrientationRules.AncestralRule | src/shlee/RCDLight.py:195-198 | x recorded as an ancestor of z leaves y -- z oriented; else z of x leaves y -- x oriented; else nothing changes |
| OrientationRules.AncestralRuleBlank | src/shlee/RCDLight.py:195-198 | on a blank ancestral record the ancestral step changes nothing |
| OrientationRules.MeekStep | src/shlee/RCDLight.py:190-198 | the four rules on one non-collider only orient, and a quiet step leaves the graph as it was |
| OrientationRules.MeekInertCloses | src/shlee/RCDLight.py:190-198 | a non-collider on which no rule acts carries no pattern of MR1, MR3, MR4 or the ancestral step |
| OrientationRules.MeekPass | src/shlee/RCDLight.py:190-198 | one pass over the non-colliders only orients; a quiet pass found every non-collider inert |
| OrientationRules.QuietHead | src/shlee/RCDLight.py:190-198 | a quiet pass was quiet on its first non-collider and on the rest |
| OrientationRules.SoundShrinks | src/shlee/RCDLight.py:185-198 | a step that changed something has strictly fewer arcs, so the fixpoint loop ends |
| OrientationRules.ApplyRules | src/shlee/RCDLight.py:176-198 | the fixpoint only orients edges of the input, leaves no MR2 pattern anywhere and no MR1, MR3, MR4 or ancestral pattern on any non-collider |
| OrientationRules.DeletableKept | src/shlee/snc_rules.py:145-153 | orienting more edges never revives a non-collider the loop dropped |
| OrientationRules.SncStep | src/shlee/snc_rules.py:155-158 | MR1, MR3, MR4 and SNC rule 2 on one non-collider only orient; a quiet step changes nothing, counter included |
| OrientationRules.SncInertCloses | src/shlee/snc_rules.py:155-158 | a non-collider on which the four rules do nothing carries no pattern of them |
| OrientationRules.SncPass | src/shlee/snc_rules.py:145-158 | a pass only orients, keeps a subset of the non-colliders, each dropped one is deletable, and a quiet pass found the kept ones inert |
| OrientationRules.DropsHead | src/shlee/snc_rules.py:145-153 | what one pass drops is the head, if dropped, plus what the rest of the pass drops |
| OrientationRules.SncPassHead | src/shlee/snc_rules.py:145-158 | composing the head's step with the rest of the pass keeps deletability of dropped ones and inertness of kept ones |
| OrientationRules.BothSides | src/shlee/snc_rules.py:162 | holds both readings x -- y -- z and z -- y -- x of every non-collider, and nothing else |
| OrientationRules.ChainArcs | src/shlee/snc_rules.py:163-171 | an arc from x -- y -- z to a -- b -- c exactly when (y, z) == (a, b) |
| OrientationRules.Successors | src/shlee/snc_rules.py:176 | exactly the triples a given triple leads to in the chain graph |
| OrientationRules.Descendants | src/shlee/snc_rules.py:173-179 | the descendant set holds the successors, stays within the triples and is closed under successors |
| OrientationRules.RequestedPairs | src/shlee/snc_rules.py:181-186 | the listed orientations cover every orientation the chained rule asks for |
| OrientationRules.AskedCons | src/shlee/snc_rules.py:181-186 | the orientations asked by a list of requests are covered by the head's two and the rest's |
| OrientationRules.SettledKept | src/shlee/snc_rules.py:181-186 | once no listed orientation is undirected, further orienting keeps it so |
| OrientationRules.OrientsCounted | src/shlee/snc_rules.py:185-186 | counted orients gives orients' graph and flag, grows only its own counter, and grows it iff something changed |
| OrientationRules.ChainCyclic | src/shlee/snc_rules.py:173 | true iff the chain graph over both readings of the non-colliders has a cycle |
| OrientationRules.ChainedSncs | src/shlee/snc_rules.py:160-187 | fails exactly on a cyclic chain graph; otherwise orients the requested pairs and counts only under SNC-R3 |
| OrientationRules.ChainedSettles | src/shlee/snc_rules.py:160-187 | the chained rule only orients, and leaves no requested orientation undirected |
| OrientationRules.RuleBasedOrient | src/shlee/snc_rules.py:133-158 | fails exactly on a cyclic chain graph; otherwise only orients, settles every chained request, leaves no MR2 pattern, and every non-collider is deletable or free of MR1, MR3, MR4 and SNC rule 2 patterns |
| Ancestrals.Grow | src/shlee/RCDLight.py:270-276 | adds the extra set under exactly the given keys and leaves every other entry as it was |
| Ancestrals.AddAsWrittenRecordsNothing | src/shlee/RCDLight.py:261-280 | on a blank record, add as written leaves the record blank and the pair just added is not contained |
| Ancestrals.AddsAsWrittenBlank | src/shlee/RCDLight.py:257-280 | any sequence of adds as written from a fresh record leaves every membership test false |
| Ancestrals.Add | src/shlee/RCDLight.py:261-276 | the corrected add keeps the vertex set |
| Ancestrals.AddRecords | src/shlee/RCDLight.py:261-280 | the corrected add records its pair, and on a dual transitive record adds exactly the ancestors of ancestor times the descendants of x, both inclusive |
| Ancestrals.AddGrows | src/shlee/RCDLight.py:261-280 | the corrected add records its pair and loses nothing recorded before |
| Ancestrals.AddKeepsDual | src/shlee/RCDLight.py:267-276 | the corrected add keeps the ancestor and descendant maps mirroring each other |
| Ancestrals.DescendantOfDescendant | src/shlee/RCDLight.py:267-276 | on a dual transitive record a descendant of a descendant (inclusive) of v is one too |
| Ancestrals.AddKeepsTransitive | src/shlee/RCDLight.py:261-276 | the corrected add keeps the record transitive |
| Ancestrals.TryAdd | src/shlee/RCDLight.py:261-263 | succeeds iff ancestor differs from x and x is not already an ancestor of it; otherwise fails with the assertion error |
| Ancestrals.TryAddAsWritten | src/shlee/RCDLight.py:261-276 | the add as written fails with the assertion error under the same condition, and on a blank record fails only when ancestor is x and leaves the record blank |
| Ancestrals.AddAsWrittenKeepsBlank | src/shlee/RCDLight.py:264-276 | an add as written that passes the assertions leaves a blank record blank |
| Ancestrals.AddsKeep | src/shlee/RCDLight.py:257-259 | when every add goes through, a dual transitive record stays dual and transitive |
| Ancestrals.AddsRecords | src/shlee/RCDLight.py:257-259 | adds keeps every earlier pair and records every added pair |
| SharedPaths.ManyStep | src/shlee/RCDLightNew.py:241 | only a relationship at p[i] can fail, and a non-relationship step is never a MANY step |
| SharedPaths.LlrspFrom | src/shlee/RCDLightNew.py:238-243 | the scan stops at the first differing position or first MANY step, and all positions before it agree and step into ONE ends |
| SharedPaths.LLRSP | src/shlee/RCDLightNew.py:235-243 | empty paths fail with IndexError and different bases with AssertionError; otherwise the answer is between 1 and the shorter length, the paths agree up to it with no MANY step, and it stops at a difference or MANY step |
| SharedPaths.LlrspFromSymmetric | src/shlee/RCDLightNew.py:238-243 | the scan gives the same answer with the two paths swapped |
| SharedPaths.LLRSPSymmetric | src/shlee/RCDLightNew.py:235-243 | the shared-path length does not depend on the order of the two paths |
| SharedPaths.Join | src/shlee/RCDLightNew.py:246-248 | succeeds iff P ends where Q starts; then the result has length len P + len Q - 1, starts with P and ends with Q |
| SharedPaths.JoinSplit | src/shlee/RCDLightNew.py:246-248 | cutting a path at any item and joining the halves gives it back |
| SharedPaths.JoinAssociative | src/shlee/RCDLightNew.py:246-248 | joining three paths is associative |
| SharedPaths.Intersectible | src/shlee/RCDLightNew.py:251-267 | fails exactly on equal, empty or different-base paths, or when a shared-length scan it needs fails; false for different terminals or prefix pairs; true only when the shared stretches from both ends leave room |
| SharedPaths.IntersectibleSymmetric | src/shlee/RCDLightNew.py:251-267 | intersectibility does not depend on the order of the two paths |
| SharedPaths.IntersectibleIntersects | src/shlee/RCDLightNew.py:251-267 | intersectible paths give intersecting relational variables for any attribute |
| RCD.NewRCD | src/causality/learning/RCD.py:23-41 | succeeds iff the hop threshold is a non-negative integer and the depth is None or one; the hop error comes first; a new learner holds the given schema, hop and depth |
| RCD.ConstructAggs | src/causality/learning/RCD.py:365-369 | one well-formed graph per schema item, for that perspective, at times the hop threshold, with an empty ancestor cache |
| RCD.ConstructedTags | src/causality/learning/RCD.py:365-369 | the graphs only carry tags of the dependencies they were built from |
| RCD.Neighbours | src/causality/learning/RCD.py:106-129 | the neighbour set never holds the cause and respects the optional path-length bound |
| RCD.NeighboursShrink | src/causality/learning/RCD.py:106-129 | a graph with fewer edges gives no new neighbours |
| RCD.FindSepset | src/causality/learning/RCD.py:105-149 | fails iff the effect is not a node of its perspective's graph, with the lookup's error; otherwise tests iff the size fits the neighbours, and a set returned is a same-size neighbour subset the tester finds independent |
| RCD.DropAll | src/causality/dseparation/AbstractGroundGraph.py:139-150 | dropping a set of tags keeps no edge that was not there |
| RCD.DropNothing | src/causality/dseparation/AbstractGroundGraph.py:139-150 | dropping no tag changes nothing |
| RCD.DropAllTag | src/causality/learning/RCD.py:382-384 | dropping one more tag is dropping the larger set, so the loop over a set of dependencies drops the whole set in any order |
| RCD.DropFrom | src/causality/learning/RCD.py:382-384 | dropping tags keeps the graph's perspective, hop and nodes and only removes edges |
| RCD.DropFromWf | src/causality/learning/RCD.py:382-384 | dropping tags keeps a graph well formed and drops exactly those tags |
| RCD.RemoveAll | src/causality/learning/RCD.py:383-384 | removing every dependency of a set from one graph, in any order, drops exactly that set |
| RCD.PropagateEdgeRemoval | src/causality/learning/RCD.py:380-384 | without recursion every graph loses exactly the tags of the given dependencies and stays well formed |
| RCD.DroppedThinned | src/causality/learning/RCD.py:380-384 | dropping a set of tags everywhere only loses tags of that set |
| RCD.ThinnedTagsWithin | src/causality/learning/RCD.py:380-386 | losing tags keeps every graph's tags inside any bound they were in |
| RCD.DroppedTagsWithin | src/causality/learning/RCD.py:380-384 | dropping a set of tags everywhere takes them out of every bound |
| RCD.OthersCoTagged | src/causality/learning/RCD.py:384-386 | the other tags met while removing one of the set were sharing an edge with it from the start |
| RCD.RemoveOneThinned | src/causality/dseparation/AbstractGroundGraph.py:139-150 | the graph's own removal of one dependency drops exactly that tag and leaves none of it |
| RCD.RemoveOne | src/causality/learning/RCD.py:383-386 | one recursive step leaves no edge tagged with the dependency and only loses co-tagged dependencies anywhere; every other tag stays on its edge unless it was found beside the dependency, and those found are gone from every graph |
| RCD.DropAndPropagate | src/causality/learning/RCD.py:384-386 | removing the dependency from one graph and propagating the tags found beside it drops only those tags, keeps every other tag on its edge, and leaves no graph with a propagated tag |
| RCD.PropagatedTags | src/causality/learning/RCD.py:384-386 | after one removal and the non-recursive propagation every other tag keeps its edge and the propagated tags are gone everywhere |
| RCD.GoneThinned | src/causality/learning/RCD.py:380-386 | a tag gone from every graph stays gone while graphs only lose tags |
| RCD.StepBookkeeping | src/causality/learning/RCD.py:383-386 | after one step the tags that shared an edge with the dependency in that graph at the start are gone everywhere, the dependencies still to remove keep their edges, and every other tag is kept or gone |
| RCD.RemoveFrom | src/causality/learning/RCD.py:383-386 | the loop over the set for one graph leaves that graph with none of the set's tags, losing only co-tagged ones elsewhere; every tag that shared an edge with one of the set in that graph at the start is gone from every graph, and other graphs keep the set's tags |
| RCD.PropagateFrom | src/causality/learning/RCD.py:382-386 | one turn of the loop over the graphs keeps the loop's bookkeeping for the graphs left |
| RCD.CoTaggedGone | src/causality/learning/RCD.py:380-386 | once the set and every tag that shared an edge with it are gone, no graph carries a co-tagged dependency |
| RCD.PropagateRecursive | src/causality/learning/RCD.py:380-386 | with recursion no graph keeps any tag of the set, and the only tags lost are the set and the dependencies that shared an edge with it at the start; every one of those is gone from every graph |
| RCD.NbThinned | src/causality/learning/RCD.py:106-129 | after losing tags every effect is located where it was and has no new neighbours |
| RCD.MaxDepth | src/causality/learning/RCD.py:59 | fails iff there are no graphs; otherwise the largest node count of any graph less two |
| Sepsets.SubsetOfSize | src/shlee/RCDLight.py:205-208 | a set has a subset of every size up to its own, so a size within the neighbour count is always tried |
| Sepsets.AskedOnceThen | src/shlee/RCDLight.py:208-214 | two searches in a row over disjoint candidates still ask the tester at most once per key and remember every answer |
| Sepsets.AskFresh | src/shlee/RCDLight.py:211-214 | asking on a key not yet cached records the tester's answer under it |
| Sepsets.FindSepsetWithSize | src/shlee/RCDLight.py:200-220 | tests iff the size fits the neighbours; a set returned is one of that size that the tester finds independent, and none is returned only when no such set is independent; the cache only gains the tester's answers |
| Sepsets.GrowSepset | src/shlee/RCDLight.py:222-234 | a set returned is a neighbour subset within the depth limit that separates, and no smaller subset separates; when none is returned no subset within the limit separates |
| RCDPhaseOne.TestedThinned | src/causality/learning/RCD.py:106-131 | thinner graphs keep every negative test result and give no more neighbours |
| RCDPhaseOne.ProgressKept | src/causality/learning/RCD.py:64-94 | what a round knows survives thinner graphs, more records and a shorter list |
| RCDPhaseOne.TestedOneMore | src/causality/learning/RCD.py:131-149 | when no set of size k separates, sets of every size up to k have been tried |
| RCDPhaseOne.KeptProgress | src/causality/learning/RCD.py:74-76 | a visited dependency no size-k set separates has had size k tried, or has too few neighbours for it |
| RCDPhaseOne.KeptStep | src/causality/learning/RCD.py:74-76 | visiting a dependency that stays keeps the Phase I invariant and extends the round's knowledge by one |
| RCDPhaseOne.Record | src/causality/learning/RCD.py:79-80 | records the separating set under both orders of the pair and adds no other key |
| RCDPhaseOne.NewKeyIsPair | src/causality/learning/RCD.py:79-83 | the two keys recorded for a dependency remove no canonical candidate other than it and its reverse |
| RCDPhaseOne.DroppedAfter | src/causality/learning/RCD.py:79-83 | separating a dependency removes exactly it and its reverse from the candidates |
| RCDPhaseOne.ListsStep | src/causality/learning/RCD.py:79-83 | after separating, the list still holds only candidates and everything off it was removed |
| RCDPhaseOne.SeparatedProgress | src/causality/learning/RCD.py:77-83 | after separating, every visited dependency is still removed or tried at size k |
| RCDPhaseOne.Visit | src/causality/learning/RCD.py:69-87 | a visit fails only on a missing graph, a missing node or a reverse no longer listed; otherwise it keeps the invariant, extends the round's knowledge and only shortens the list |
| RCDPhaseOne.SeparateAndDrop | src/causality/learning/RCD.py:77-87 | after separating, the set is recorded both ways and the pair is taken off the list, failing only when the reverse is gone; edges are removed at once, or left pending in the order-independent mode |
| RCDPhaseOne.Separated | src/causality/learning/RCD.py:79-83 | separating records the set both ways, takes the pair off the list, and adds exactly the pair to the removed candidates |
| RCDPhaseOne.PendingStep | src/causality/learning/RCD.py:86-87 | in the order-independent mode a separated dependency waits with its edges and the invariant holds |
| RCDPhaseOne.GoneFewer | src/causality/learning/RCD.py:152-154 | graphs carrying none of a set carry none of a smaller one |
| RCDPhaseOne.DropPair | src/causality/learning/RCD.py:152-154 | removing a dependency and its reverse everywhere loses only removed candidates and leaves the pair on no graph |
| RCDPhaseOne.RemovedStep | src/causality/learning/RCD.py:84-85 | removing a separated dependency's edges at once keeps the invariant and the round's knowledge |
| RCDPhaseOne.BothCons | src/causality/learning/RCD.py:88-90 | the dependencies of a pending list and their reverses are the first pair plus those of the rest |
| RCDPhaseOne.FlushStep | src/causality/learning/RCD.py:89-90 | removing the first pending dependency's edges keeps the invariant and the round's knowledge |
| RCDPhaseOne.Flush | src/causality/learning/RCD.py:88-91 | the end of an order-independent size empties the pending list, keeps the remaining list and keeps the invariant |
| RCDPhaseOne.RoundEnd | src/causality/learning/RCD.py:64-94 | at the end of a size every remaining dependency was tried at that size, and when nothing was tried every set of its neighbours has been |
| RCDPhaseOne.Round | src/causality/learning/RCD.py:64-94 | one size fails only on lookups or a vanished reverse; otherwise every remaining dependency is removed or tried up to this size, and the list only shrinks |
| RCDPhaseOne.Search | src/causality/learning/RCD.py:64-94 | the size loop keeps the invariant and leaves each listed dependency removed, tried at every size up to the depth, or tried with every set of its neighbours |
| RCDPhaseOne.PhaseOneCandidates | src/causality/learning/RCD.py:47-48 | the candidates are all canonical, so each reverses back |
| RCDPhaseOne.StartSound | src/causality/learning/RCD.py:49-61 | Phase I starts sound from the full graphs, no records and every candidate listed |
| RCDPhaseOne.Finished | src/causality/learning/RCD.py:92-96 | the search's end state gives the Phase I promise: sound records, undirected dependencies among the candidates, every other candidate separated, graphs that lost exactly the separated tags |
| RCDPhaseOne.IdentifyUndirected | src/causality/learning/RCD.py:44-96 | fails with the max error exactly when no depth was given and the schema has no items; otherwise fails only on lookups; on success the model meets the Phase I promise |
| RCDPhaseTwo.ThinnedFewer | src/causality/learning/RCD.py:380-386 | graphs that only lost tags carry no new arcs and no new dependencies |
| RCDPhaseTwo.RecordsGrowTrans | src/causality/learning/RCD.py:318-334 | records that grew twice have grown |
| RCDPhaseTwo.RecordsGrowSound | src/causality/learning/RCD.py:318-334 | sound separating-set records stay sound as they grow |
| RCDPhaseTwo.WentTrans | src/causality/learning/RCD.py:216-276 | two runs of steps compose, and the combined flag is the or of theirs |
| RCDPhaseTwo.WentArcs | src/causality/learning/RCD.py:216-276 | a run of steps leaves each graph with no more arcs than it had |
| RCDPhaseTwo.CoTaggedCarried | src/causality/learning/RCD.py:380-386 | what one level of propagation may remove is carried by the graphs |
| RCDPhaseTwo.RemoveArc | src/causality/learning/RCD.py:222-223 | every graph drops the arc's dependencies and one level of co-tagged ones; the arc itself goes, so the arcs strictly shrink |
| RCDPhaseTwo.Orient | src/causality/learning/EdgeOrientation.py:12-14 | a step changes something iff the edge is still undirected, and then the arc is gone and records and cache are untouched; otherwise nothing changes |
| RCDPhaseTwo.FindRecord | src/causality/learning/RCD.py:318-334 | a recorded pair is answered from the records; otherwise the search fails iff the effect is not located; a set found is recorded under both orders and the records only grow |
| RCDPhaseTwo.ValidCD | src/causality/learning/RCD.py:279-296 | a triple failing the graph checks is no candidate at no cost; otherwise it is a collider iff a separating set exists and node 2 is not in it and intersects none of its members |
| RCDPhaseTwo.ValidRBO | src/causality/learning/RCD.py:299-315 | a triple failing the graph checks is no candidate at no cost; otherwise it is one iff a separating set is recorded or found |
| RCDPhaseTwo.CDTriple | src/causality/learning/EdgeOrientation.py:18-26 | something is oriented iff the triple is a valid collider, and then neither edge is left undirected |
| RCDPhaseTwo.RBOTriple | src/causality/learning/EdgeOrientation.py:152-163 | something is oriented iff the triple is valid; node 2 blocking the separating set orients 2 -> 3, otherwise 3 -> 2 |
| RCDPhaseTwo.TripleStep | src/causality/learning/RCD.py:216-239 | one triple of either rule fails only on lookups and otherwise only loses tags and grows records |
| RCDPhaseTwo.ThirdNodes | src/causality/learning/EdgeOrientation.py:33-36 | the loop over node 3 fails only on lookups and only loses tags and grows records |
| RCDPhaseTwo.SecondNodes | src/causality/learning/EdgeOrientation.py:31-36 | the loop over node 2 fails only on lookups and only loses tags and grows records |
| RCDPhaseTwo.TriplePass | src/causality/learning/EdgeOrientation.py:29-36 | CD or RBO over one graph, each triple seeing the graphs as earlier ones left them, only loses tags and grows records |
| RCDPhaseTwo.TripleRuleEverywhere | src/causality/learning/RCD.py:216-239 | CD or RBO on every graph only loses tags, grows records, and reports a change iff some arc went |
| RCDPhaseTwo.TargetPass | src/causality/learning/RCD.py:242-276 | a rule on one graph reports a change iff some arc went, and when it reports none the rule has nothing left to orient there |
| RCDPhaseTwo.TargetRuleEverywhere | src/causality/learning/RCD.py:242-276 | KNC, CA or MR3 on every graph; a quiet run leaves every graph with nothing for that rule |
| RCDPhaseTwo.SepsetFreeRound | src/causality/learning/RCD.py:211-213 | KNC, then CA only if KNC did nothing, then MR3 only if neither did; a quiet round leaves nothing for any of the three |
| RCDPhaseTwo.FewerArcs | src/causality/learning/RCD.py:209-213 | a change leaves strictly fewer arcs in total, so the loop ends |
| RCDPhaseTwo.SepsetFree | src/causality/learning/RCD.py:208-213 | the loop ends with nothing left for KNC, CA or MR3 to orient in any graph |
| RCDPhaseTwo.ProgressedTrans | src/causality/learning/RCD.py:190-205 | losing tags and growing records compose |
| RCDPhaseTwo.RunTriple | src/causality/learning/RCD.py:216-239 | CD or RBO on every graph fails only on lookups and otherwise only loses tags and grows records |
| RCDPhaseTwo.RunSepsetFree | src/causality/learning/RCD.py:208-213 | the sepset-free rules run to their end, leaving nothing for any of them |
| RCDPhaseTwo.ApplyOrientationRules | src/causality/learning/RCD.py:190-205 | an unknown order fails before any rule runs; every known order fails only on lookups and ends with nothing left for KNC, CA or MR3 |
| RCDPhaseTwo.OrientDependencies | src/causality/learning/RCD.py:157-187 | fails first on missing undirected dependencies, then missing sepsets, then a missing depth with no graphs to take the max of, then an unknown order; on success only the depth, graphs, records, cache and result change, the graphs only lost tags, nothing is left for KNC, CA or MR3, and the oriented dependencies are the tags left on the graphs |
| RCDPhaseTwo.OrientedWithin | src/causality/learning/RCD.py:179-183 | the oriented dependencies were carried by the graphs before Phase II, and sound records stay sound |
| RCDPhaseTwo.OrientedUndirected | src/causality/learning/RCD.py:157-187 | after Phase I, every oriented dependency is among the undirected ones |
| RCDPhaseTwo.PhaseOneTags | src/causality/learning/RCD.py:92-96 | the graphs Phase I leaves carry only dependencies it left undirected |
| RCDPhaseTwo.LearnedUndirected | src/causality/learning/RCD.py:393-397 | Phase II after Phase I orients only dependencies Phase I left undirected |
| RCDPhaseTwo.RunRCD | src/causality/learning/RCD.py:393-397 | constructor rejections come through unchanged, and what is returned is among the dependencies Phase I left undirected |
| RCDInputs.ParseChecked | src/causality/learning/RCD.py:338-345 | a non-iterable is refused; otherwise the first entry that does not parse decides the error, then the first parsed dependency the checker rejects; success iff every entry parses and passes |
| RCDInputs.SetUndirectedAsWritten | src/causality/learning/RCD.py:337-347 | every call fails and the graphs are never touched; the dependencies are stored once they parse and pass the checker |
| RCDInputs.SetUndirectedAsWrittenFails | src/causality/learning/RCD.py:346-347 | one valid dependency given to a fresh learner is stored, the graphs stay unbuilt, and the call still fails on the undefined name |
| RCDInputs.RebuiltAggs | src/causality/learning/RCD.py:365-369 | the rebuilt graphs are well formed, one per schema item, and carry only the supplied dependencies |
| RCDInputs.SetUndirected | src/causality/learning/RCD.py:337-347 | the corrected setter fails exactly when parsing or checking fails, with that error; otherwise it stores the dependencies and the graphs built from them at twice the hop threshold, keeping everything else |
| RCDInputs.SetThenOrient | src/causality/learning/RCD.py:337-347 | orienting after the corrected setter leaves oriented dependencies only among the supplied ones |
| RCDInputs.ParseEntry | src/causality/learning/RCD.py:357-359 | an entry parses iff its set is iterable and every part parses; the parsed key and set are the parses of its strings |
| RCDInputs.ParseTable | src/causality/learning/RCD.py:357-359 | the table parses iff every item parses, and a failure is the error of some item |
| RCDInputs.ParseTableLast | src/causality/learning/RCD.py:357-359 | a nonempty table is the table of all items but the last, updated with the last |
| RCDInputs.ParseTableKeys | src/causality/learning/RCD.py:357-359 | the keys of the parsed table are exactly the parsed keys of the items |
| RCDInputs.ParseTableLastWins | src/causality/learning/RCD.py:357-359 | a key given by several items keeps the set of the last of them |
| RCDInputs.CheckListing | src/causality/model/RelationalValidity.py:54-62 | checking any listing of a variable set passes iff the set is valid: nonempty, one perspective, every variable valid and within hop threshold plus one |
| RCDInputs.SetSepsets | src/causality/learning/RCD.py:350-362 | a non-dictionary or a parse failure changes nothing and raises; otherwise the parsed table is stored, and the call passes iff every entry's variable set is valid |
| RCDInputs.CheckEntry | src/causality/learning/RCD.py:361-362 | checking a listing of one entry's variables decides that entry |
| RCDInputs.AllListed | src/causality/learning/RCD.py:361-362 | every listed entry passing is every stored entry passing |
| RCDInputs.CheckEntries | src/causality/learning/RCD.py:361-362 | the checking loop passes iff every stored entry's variable set is valid |
| PC.AttrVars | src/causality/learning/PC.py:39-41 | one variable per attribute of the entity, in order, on the entity's one-item path |
| PC.Graph | src/causality/learning/PC.py:41-42 | the graph has one arc per dependency and the given nodes plus the arcs' ends, and no other node |
| PC.NewPC | src/causality/learning/PC.py:11-16 | a fresh learner on the schema with nothing learned and an RCD learner at hop 0 with no depth limit |
| PC.PcPhaseI | src/causality/learning/PC.py:31-42 | fails after Phase I when the schema has no entity; on success Phase I's promise holds and the separating sets are the RCD learner's |
| PC.PhaseOneCovers | src/causality/learning/PC.py:36-42 | after Phase I every arc the graphs carry is an arc of the skeleton |
| PC.PcPhaseII | src/causality/learning/PC.py:45-59 | refused without a skeleton, then without separating sets; on success the result graph's arcs lie within the skeleton's |
| PC.PhaseTwoCovers | src/causality/learning/PC.py:52-58 | the oriented dependencies' arcs lie within those the graphs carried, and they are exactly the tags left |
| PC.LearnModel | src/causality/learning/PC.py:19-28 | on success both graphs are present, the learned arcs lie within the skeleton, and the oriented dependencies are among those Phase I left undirected |
| PC.ExpectedNodes | src/causality/learning/PC.py:66-71 | no entity gives no nodes; otherwise the first entity's attribute variables |
| PC.SetUndirectedSkeleton | src/causality/learning/PC.py:62-80 | a non-graph is refused; a graph is refused iff its nodes differ from the expected ones in number or as a set; otherwise its arcs become the undirected dependencies and the rebuilt graphs carry nothing else |
| PC.ArcDeps | src/causality/learning/PC.py:78-79 | the dependencies made from a graph's arcs are distinct and are exactly its arcs |
| PC.SuppliedCovers | src/causality/learning/PC.py:78-80 | graphs built from a skeleton's arcs carry only arcs of that skeleton |
| PC.SetSepsets | src/causality/learning/PC.py:83-88 | a non-dictionary is refused; otherwise the RCD setter runs and its separating sets are taken over only when it passes |
| RCDLight.NewLight | src/shlee/RCDLight.py:36-48 | succeeds iff the hop threshold is a non-negative integer, and then holds the schema and hop |
| RCDLight.Potential | src/shlee/RCDLight.py:54 | every candidate dependency is canonical: its effect is the single base item of its cause |
| RCDLight.Progress | src/shlee/RCDLight.py:62-77 | a round that leaves dependencies on the worklist ran at a size at most one more than the number of causes, so the size loop ends |
| RCDLight.IdentifyUndirected | src/shlee/RCDLight.py:50-80 | fails only with a KeyError on candidates not closed under reversal; otherwise gives the Phase I result, and each remaining dependency is dependent given every set of its effect's other remaining causes |
| RCDLight.Ruts | src/shlee/RCDLight.py:82-99 | every triple QR.z -- Qy -- Vx has Qy -> Vx undirected, QR.z not Vx and not among Vx's causes, and comes from an undirected dependency on z into y |
| RCDLight.Partition | src/shlee/RCDLight.py:123-124 | the two parts together are a permutation of the triples, one with a recorded separating set and one without |
| RCDLight.CachedFirst | src/shlee/RCDLight.py:123-124 | a permutation of the triples in which every triple with a recorded separating set comes before every one without |
| RCDLight.FindSepset | src/shlee/RCDLight.py:222-234 | a recorded pair is answered from the record; otherwise fails iff the effect has no entry; a set found is one of the smallest that separate, and when none is found no set of the effect's other causes separates |
| RCDLight.OrientIn | src/shlee/RCDLight.py:397-404 | orienting only orients, and leaves x -- y not undirected |
| RCDLight.OrientAll | src/shlee/RCDLight.py:394-395 | orienting a list only orients and leaves none of its pairs undirected |
| RCDLight.OrientTriple | src/shlee/RCDLight.py:126-154 | one triple fails only on the ancestral record's assertions, and with the add as written on a blank record only for a triple whose ends share an attribute; a skippable triple changes nothing; otherwise the class graph only orients, the non-colliders only grow, the searches stay sound, and the outcome holds after the rules: a separating set without the middle leaves neither edge at the middle undirected, a set with it leaves y -- x not undirected when x is z and records the non-collider otherwise, and no set leaves an adjacent x -- z not undirected; the add as written keeps the record blank, and with no set the corrected add records x as an ancestor of z when they are not adjacent |
| RCDLight.Decide | src/shlee/RCDLight.py:139-152 | the decision for one triple, before the rules: the same outcomes and failures as the triple's contract states |
| RCDLight.DecidedKept | src/shlee/RCDLight.py:154 | the rules that follow the decision only orient and keep the non-colliders, so the decision's outcome survives them |
| RCDLight.RecordAncestor | src/shlee/RCDLight.py:152 | recording x as an ancestor of z fails with the assertion error iff x is z or z is already an ancestor of x, whichever add is used |
| RCDLight.StartGraph | src/shlee/RCDLight.py:112-116 | the class graph, after the background orientations and the rules, only orients the attribute pairs of the dependencies |
| RCDLight.Triples | src/shlee/RCDLight.py:125-154 | the loop over the triples fails only on the ancestral assertions, with the add as written on a blank record only when some triple's ends share an attribute; otherwise it only orients and keeps the searches sound |
| RCDLight.ReadBack | src/shlee/RCDLight.py:156-174 | reflecting and reading back fails only with a KeyError on a map not closed under reversal, and on a closed map gives exactly the dependencies directed from cause to effect |
| RCDLight.OrientedExactIf | src/shlee/RCDLight.py:157-174 | on a closed map the read-back succeeds and gives exactly the dependencies directed from cause to effect |
| RCDLight.PhaseTwo | src/shlee/RCDLight.py:101-159 | Phase II with either add: the class graph ends up an orientation of the attribute pairs, and the output is the read-back of it |
| RCDLight.OrientDependencies | src/shlee/RCDLight.py:101-159 | Phase II as written: the class graph ends up an orientation of the attribute pairs; the output lies within the undirected dependencies, and on a closed map is exactly those whose attribute edge is directed from cause to effect; the ancestral assertion fails only for a triple whose ends share an attribute |
| RCDLight.OrientDependenciesCorrected | src/shlee/RCDLight.py:101-159 | Phase II with the corrected add: the same orientation and read-back promises |
| Parents.Deps | src/shlee/RCDLight.py:79 | a dependency is held iff its cause is among its effect's causes |
| Parents.Group | src/shlee/RCDLight.py:56-59 | one key per effect, and the map holds exactly the given dependencies |
| Parents.ReverseCanonical | src/causality/model/RelationalDependency.py:127-134 | the reverse of a canonical dependency is canonical, reverses back, and differs from it |
| Parents.ReverseInjective | src/causality/model/RelationalDependency.py:127-134 | reversal is one-to-one on canonical dependencies |
| Parents.Unlink | src/shlee/RCDLight.py:74 | succeeds iff the dependency is held, and then exactly it is gone; otherwise a KeyError |
| Parents.UnlinkPair | src/shlee/RCDLight.py:74-75 | succeeds iff the dependency and its distinct reverse are held, and then exactly those two are gone |
| Parents.UnlinkPairClosed | src/shlee/RCDLight.py:72-75 | on a closed map unlinking a held dependency with its reverse succeeds and leaves a closed map |
| Parents.Reflect | src/shlee/RCDLight.py:161-165 | keeps the effects, and holds a dependency iff it was held and the class graph does not direct its effect's attribute towards its cause's |
| Parents.Oriented | src/shlee/RCDLight.py:167-174 | the oriented dependencies are held ones; a failed reverse lookup is a KeyError |
| Parents.OrientedExact | src/shlee/RCDLight.py:157-174 | on a closed map, reflecting and reading back gives exactly the held dependencies whose attribute edge is directed from cause to effect |
| Parents.OrientedOneWay | src/shlee/RCDLight.py:167-174 | among canonical dependencies an oriented one never comes with its reverse, which differs from it |
| Parents.ClassArcs | src/shlee/RCDLight.py:113 | every held dependency gives its attribute pair as a class edge |
| Parents.ClassArcsUndirected | src/shlee/RCDLight.py:113 | on a closed map every class edge is present in both directions between distinct attributes, so the class graph starts undirected |
| Skeleton.SpaceCanonical | src/causality/modelspace/RelationalSpace.py:68-102 | every dependency enumerated without existence variables is canonical |
| Skeleton.TestedAll | src/shlee/RCDLight.py:205-206 | having tested every size up to past the neighbour count tests every neighbour subset |
| Skeleton.RecordKeeps | src/shlee/RCDLight.py:216-217 | recording a separating set keeps every record sound |
| Skeleton.SepsetWithSize | src/shlee/RCDLight.py:200-220 | fails iff the effect has no entry; tests iff the size fits the other causes; a set returned is one of that size that separates and is recorded; none returned means none of that size separates |
| Skeleton.ShrinkKeeps | src/shlee/RCDLight.py:62-77 | fewer causes keep every negative test result |
| Skeleton.VisitDropped | src/shlee/RCDLight.py:69-70 | a dependency with too few neighbours for the size leaves the worklist with the round invariant kept |
| Skeleton.VisitKept | src/shlee/RCDLight.py:67-70 | a dependency no size-k set separates stays on the worklist, tested up to k |
| Skeleton.VisitSeparated | src/shlee/RCDLight.py:71-75 | a separated dependency leaves the map and the worklist together with its reverse |
| Skeleton.Visit | src/shlee/RCDLight.py:63-75 | one visit fails only with a KeyError on candidates not closed under reversal, and otherwise keeps the round invariant |
| Skeleton.Round | src/shlee/RCDLight.py:63-75 | a round visits every worklist dependency once in any order and ends with the invariant for an empty to-do set |
| RCDLightNew.NewLightNew | src/shlee/RCDLightNew.py:28-47 | succeeds iff the hop threshold is a non-negative integer and the depth is None or one, the hop error first; then holds the schema, hop and depth, and no non-colliders yet |
| RCDLightNew.MaxCauses | src/shlee/RCDLightNew.py:63 | fails iff the map is empty; otherwise the largest number of causes of any effect |
| RCDLightNew.DepthExhausts | src/shlee/RCDLightNew.py:62-66 | with the depth at least every effect's cause count, testing every size up to the depth tests every neighbour subset |
| RCDLightNew.Stopped | src/shlee/RCDLightNew.py:66-68 | where the rounds stop, every remaining dependency has been tested up to the depth or exhaustively, and exhaustively when the depth covers every cause count |
| RCDLightNew.NextSize | src/shlee/RCDLightNew.py:70-82 | one round fails only on candidates not closed under reversal, and otherwise readies the next size with the causes only shrinking |
| RCDLightNew.Rounds | src/shlee/RCDLightNew.py:66-82 | the size loop stops after the depth or on an empty worklist, with the causes only shrinking |
| RCDLightNew.PhaseOne | src/shlee/RCDLightNew.py:65-84 | fails only on candidates not closed under reversal; otherwise gives the Phase I result, each remaining dependency tested up to the depth or exhaustively |
| RCDLightNew.NoEffects | src/shlee/RCDLightNew.py:59-63 | grouping gives no effect only for no dependency |
| RCDLightNew.IdentifyUndirected | src/shlee/RCDLightNew.py:54-84 | fails with a KeyError only on non-closed candidates, or with the max error only on no candidates and no depth; a given depth is kept; with no depth every remaining dependency has had all its neighbour subsets tested |
| RCDLightNew.SkipPhase1 | src/shlee/RCDLightNew.py:86-90 | the undirected set holds the given dependencies and their reverses, the map holds exactly that set, one key per effect, and canonical input gives a closed set |
| RCDLightNew.FindRecordAndReturnSepset | src/shlee/RCDLightNew.py:220-232 | a recorded pair is answered from the record; otherwise fails iff the effect has no entry; a set found is one of the smallest and is recorded; none found means no set of at most the depth separates |
| RCDLightNew.GrownThen | src/shlee/RCDLightNew.py:160-211 | growing the class graph twice in a row is growing it |
| RCDLightNew.CountedOrient | src/shlee/snc_rules.py:227-230 | a counted orient only orients, leaves x -- y not undirected, and counts one exactly when it was undirected |
| RCDLightNew.MaybeRules | src/shlee/RCDLightNew.py:166-167 | without simultaneous orientation nothing happens; otherwise the rules only orient and fail only on a cyclic chain graph |
| RCDLightNew.OrientTriple | src/shlee/RCDLightNew.py:169-208 | one triple fails only on a self-loop, whose ends share an attribute, or a cyclic chain graph; a skippable triple changes nothing; otherwise the class graph grows by orientations and arcs between non-adjacent attributes, the non-colliders only grow, and the outcome holds after the rules: a triple already pointing out of the middle is recorded as a non-collider; otherwise a separating set without the middle leaves neither edge at the middle undirected, a set with it leaves y -- x not undirected when x is z and records the non-collider otherwise, and no set leaves an adjacent x -- z not undirected and directs x -> z between non-adjacent attributes |
| RCDLightNew.Decide | src/shlee/RCDLightNew.py:183-208 | the decision for one triple, before the rules: the same outcomes, failing only on a self-loop |
| RCDLightNew.DecidedKept | src/shlee/RCDLightNew.py:209-210 | the rules that follow the decision only orient and keep the non-colliders, so the decision's outcome survives them |
| RCDLightNew.StartGraph | src/shlee/RCDLightNew.py:160-167 | the starting class graph is grown from the attribute pairs, with the rules run over the non-colliders the learner already holds, which it keeps; it fails only on a cyclic chain graph |
| RCDLightNew.Triples | src/shlee/RCDLightNew.py:169-208 | the triple loop grows the class graph, only adds non-colliders and keeps the searches sound |
| RCDLightNew.Finish | src/shlee/RCDLightNew.py:210-218 | the final rules leave no MR2 pattern and every non-collider settled or free of MR1, MR3 and SNC rule 2 patterns; reflection keeps only held dependencies, exactly the directed ones on a closed map |
| RCDLightNew.OrientDependencies | src/shlee/RCDLightNew.py:111-123 | fails only on an empty map, a self-loop, a cyclic chain graph or a non-closed map; otherwise it keeps every non-collider the learner held before the run, the class graph is grown from the attribute pairs and closed under MR2, and on a closed map the output is exactly the held dependencies directed from cause to effect |
| Evaluation.CheckInput | src/causality/learning/ModelEvaluation.py:62-65 | accepts exactly a non-string iterable, giving its items; anything else is rejected |
| Evaluation.Precision | src/causality/learning/ModelEvaluation.py:4-10 | lies in [0, 1], equals 1 iff every learned value is true, and otherwise is the exact share of learned values that are true |
| Evaluation.Recall | src/causality/learning/ModelEvaluation.py:13-19 | lies in [0, 1] and equals 1 iff every true value was learned |
| Evaluation.RecallIsSwappedPrecision | src/causality/learning/ModelEvaluation.py:4-19 | recall is precision with the two sets swapped |
| Evaluation.Undirected | src/causality/learning/ModelEvaluation.py:26-27 | holds exactly the listed dependencies and their reverses |
| Evaluation.ParseLearned | src/causality/learning/ModelEvaluation.py:23-25 | a rejected input fails the check; otherwise every entry is parsed in order |
| Evaluation.SkeletonPrecision | src/causality/learning/ModelEvaluation.py:22-28 | succeeds iff the input parses, and is 1 iff every learned edge, either direction, is a true edge |
| Evaluation.SkeletonRecall | src/causality/learning/ModelEvaluation.py:31-37 | succeeds iff the input parses, and is 1 iff every true edge, either direction, was learned |
| Evaluation.SkeletonIgnoresOrientation | src/causality/learning/ModelEvaluation.py:24-27 | learning a dependency or its reverse gives the same undirected closure, so the skeleton scores agree |
| Evaluation.Oriented | src/causality/learning/ModelEvaluation.py:44-47 | holds exactly the learned dependencies whose reverse was not learned |
| Evaluation.OrientedOneWay | src/causality/learning/ModelEvaluation.py:44-47 | no dependency counts as oriented together with its reverse |
| Evaluation.OrientedPrecision | src/causality/learning/ModelEvaluation.py:40-48 | succeeds iff the input parses, and is 1 iff every learned one-way dependency is true |
| Evaluation.OrientedRecall | src/causality/learning/ModelEvaluation.py:51-59 | succeeds iff the input parses, and is 1 iff every true dependency was learned without its reverse |
| Evaluation.OrientedCovers | src/causality/learning/ModelEvaluation.py:51-59 | the true set lies within the oriented ones iff each true dependency was learned and its reverse was not |
| Evaluation.DuplicatesIgnored | src/causality/learning/ModelEvaluation.py:5-6 | listing a learned dependency twice changes neither its set nor its undirected closure, so no score |
| DataStores.AddTable | src/causality/datastore/InMemoryDataStore.py:18-23 | succeeds exactly for a schema item that has no table yet, adding one empty table under that name and leaving every other table as it was; a name that is not a schema item is rejected first |
| DataStores.AddTableOk | src/causality/datastore/InMemoryDataStore.py:18-23 | adding a table keeps the store's name list and table map in step |
| DataStores.TableNames | src/causality/datastore/DataStore.py:49-54 | lists one lower-cased name per table, in the order the tables were added |
| DataStores.TableNamesListed | src/causality/datastore/DataStore.py:49-54 | a name is listed exactly when some table's name lower-cases to it |
| DataStores.Project | src/causality/datastore/InMemoryDataStore.py:39-45 | gives one value per requested column: the row's value, or None where the row lacks that column |
| DataStores.GetAllRows | src/causality/datastore/InMemoryDataStore.py:26-46 | succeeds exactly when the table exists, the item is in the schema and every column not ending in "id" is one of its attributes; a missing table is its own error; on success one tuple per stored row, each as wide as the column list |
| DataStores.RowOf | src/causality/datastore/InMemoryDataStore.py:70-72 | the stored row has exactly the listed columns, each holding the value at its position |
| DataStores.Position | src/causality/datastore/InMemoryDataStore.py:63 | is the first position holding the column, as list.index finds it |
| DataStores.IdsOf | src/causality/datastore/InMemoryDataStore.py:64-67 | lists each new row's id, read at the id column's position, in row order |
| DataStores.AddedRowsKeys | src/causality/datastore/InMemoryDataStore.py:64-72 | the rows written are keyed by exactly the ids of the inserted rows |
| DataStores.AddedRowsAt | src/causality/datastore/InMemoryDataStore.py:64-72 | with distinct ids, every inserted row is found under its own id with its own values |
| DataStores.InsertRows | src/causality/datastore/InMemoryDataStore.py:49-72 | a missing table, an empty column list, a list without "id" and a repeated column each fail with the store unchanged; otherwise the longest insertable prefix of the rows goes in, the insert passes iff that is all of them, and the next row is exactly one with the wrong width or an id already present; other tables never change and a consistent store stays consistent |
| DataStores.AppendOne | src/causality/datastore/InMemoryDataStore.py:64-72 | one more row with a fresh id extends the insertable prefix and adds exactly that row, its id at the end of the order |
| DataStores.AppendOneTable | src/causality/datastore/InMemoryDataStore.py:64-72 | appending a row adds its id at the end of the order and stores its values under that id |
| DataStores.AppendOneInsertable | src/causality/datastore/InMemoryDataStore.py:64-69 | a row of the right width whose id is new to the table and to the rows before it keeps the batch insertable |
| DataStores.NotInsertableId | src/causality/datastore/InMemoryDataStore.py:67-69 | a row whose id is already in the table reached so far stops the batch |
| DataStores.RepeatedId | src/causality/datastore/InMemoryDataStore.py:67-69 | a row whose id is in the table, or among the rows before it, cannot be inserted |
| DataStores.AppendedOk | src/causality/datastore/InMemoryDataStore.py:64-72 | inserting an insertable batch keeps the table's id order and row map in step, with no id twice |
| DataStores.ReadBackAppended | src/causality/datastore/InMemoryDataStore.py:26-72 | after an insert, the j-th new row reads back, column by column, as exactly the values inserted |
| DataStores.UpdateRowValue | src/causality/datastore/InMemoryDataStore.py:75-79 | fails exactly when the table is missing; otherwise only the named cell of an existing row changes, to the new value, and a missing row leaves everything as it was |
| DataStores.Without | src/causality/datastore/InMemoryDataStore.py:82-86 | keeps every id except the removed one |
| DataStores.WithoutDistinct | src/causality/datastore/InMemoryDataStore.py:82-86 | removing an id from a list without repeats leaves a list without repeats |
| DataStores.DeleteRow | src/causality/datastore/InMemoryDataStore.py:82-86 | fails exactly when the table is missing; otherwise exactly the cells of the deleted row disappear and all other cells are unchanged |
| DataStores.UpdateDeleteOk | src/causality/datastore/InMemoryDataStore.py:75-86 | updating a cell or deleting a row keeps a consistent store consistent |
| DataStores.DropAllTables | src/causality/datastore/InMemoryDataStore.py:93-97 | leaves a consistent store with no tables |
| DataStores.CheckTables | src/causality/datastore/DataStore.py:93-95 | passes iff every path item, lower-cased, names a table; a failure is always the missing-table error |
| DataStores.CheckAlternation | src/causality/datastore/DataStore.py:97-101 | passes iff every consecutive pair of items are both schema items of different kinds |
| DataStores.ValidateRelPath | src/causality/datastore/DataStore.py:91-101 | passes iff every item has a table and consecutive items alternate between entity and relationship; the table check is reported first |
| DataStores.ValidPathAlternates | src/causality/datastore/DataStore.py:97-101 | every path valid in a well-formed schema passes the alternation check |
| DataStores.ParticipantsAlternate | src/causality/datastore/DataStore.py:97-101 | an entity and a relationship it takes part in are of different kinds, in either order |
| DataStores.VerifyAttrsExist | src/causality/datastore/DataStore.py:104-109 | passes iff the terminal item is in the schema and the variable is an existence variable, is named "id", or names one of the item's attributes |
| DataQueries.FirstCaseDecides | src/causality/datastore/InMemoryDataStore.py:118-141 | once every earlier case statement has failed its test, the next one that holds gives its value, the next one whose comparison raises gives that error, and the else value comes back only when none is left |
| DataQueries.Aggregate | src/causality/datastore/InMemoryDataStore.py:107-143 | count is always the number of values; an unknown aggregator raises; identity, choice, average and max give None on no values; only identity returns the values themselves, unchanged and nonempty |
| DataQueries.CaseAggregate | src/causality/datastore/InMemoryDataStore.py:118-141 | a case aggregator passes on its nested aggregator's error, and otherwise returns the value of the first case statement whose test holds, or the else value |
| DataQueries.MaxFoldOk | src/causality/datastore/InMemoryDataStore.py:116-117 | the running maximum succeeds exactly when nothing is left or every value is of the same kind (all numbers or all strings) as the one it started from |
| DataQueries.MaxFoldGreatest | src/causality/datastore/InMemoryDataStore.py:116-117 | over numbers the fold returns one of its inputs, at least as large as every one of them |
| DataQueries.MaxAggregate | src/causality/datastore/InMemoryDataStore.py:116-117 | max over a nonempty list succeeds exactly for one value, all numbers or all strings, and over numbers gives a member of the list that no other value exceeds |
| DataQueries.SumBounded | src/causality/datastore/InMemoryDataStore.py:112-113 | when every value lies in [lo, hi], the sum lies between count times lo and count times hi |
| DataQueries.AverageBounded | src/causality/datastore/InMemoryDataStore.py:112-113 | the average of numbers that all lie in [lo, hi] is a number in [lo, hi] |
| DataQueries.OrderIrrelevant | src/causality/datastore/InMemoryDataStore.py:114-117 | two orders of the same set of instance ids give the same count and, over numbers, the same maximum |
| DataQueries.Linked | src/causality/datastore/InMemoryDataStore.py:186-203 | an instance is reached exactly when some two-column relationship row links it to a current instance: the row's id going towards the relationship, its entity id coming back |
| DataQueries.Step | src/causality/datastore/InMemoryDataStore.py:186-203 | one step reaches only instances of the next item not visited before, adds them to that item's visited set, and leaves every other item's visited set as it was |
| DataQueries.WalkTo | src/causality/datastore/InMemoryDataStore.py:183-184 | the walk starts at the start instance, recorded as the only visited instance of the first item |
| DataQueries.WalkStep | src/causality/datastore/InMemoryDataStore.py:186-205 | each step only adds to the visited sets, and what it reaches was not visited for its item before |
| DataQueries.VisitedGrows | src/causality/datastore/InMemoryDataStore.py:186-205 | the visited sets reached at a position are contained in those of every later position |
| DataQueries.NeverRevisits | src/causality/datastore/InMemoryDataStore.py:186-205 | an item met twice on a path is never reached at an instance already reached at its first occurrence, whatever the store returns |
| DataQueries.TerminalAvoidsStart | src/causality/datastore/InMemoryDataStore.py:173-206 | a path of more than one item that ends on its first item never leads back to the instance it started from |
| DataQueries.OneStep | src/causality/datastore/InMemoryDataStore.py:173-206 | a one-step walk between two different items gives exactly the instances the store links to the start |
| DataQueries.Cells | src/causality/datastore/InMemoryDataStore.py:221-228 | collects at most one value per reached instance |
| DataQueries.CellsExact | src/causality/datastore/InMemoryDataStore.py:221-228 | a value is collected exactly when some reached instance has a row holding it under the attribute; missing rows and missing attributes are skipped |
| DataQueries.TerminalFor | src/causality/datastore/InMemoryDataStore.py:209-228 | succeeds exactly when the path passes the table and alternation checks, the attribute check passes and the walk succeeds; a path error is reported first; an existence variable gives the reached instance ids, any other variable the values found on them |
| DataQueries.Summary | src/causality/datastore/InMemoryDataStore.py:156-164 | an aggregator's wrapped result for one instance is never empty |
| DataQueries.InstanceLists | src/causality/datastore/InMemoryDataStore.py:155-164 | one wrapped, nonempty result per aggregator, in order |
| DataQueries.PrependMembers | src/causality/datastore/InMemoryDataStore.py:165 | prefixing holds exactly the tuples whose head comes from the first list and whose tail is one of the given tails |
| DataQueries.PrependLength | src/causality/datastore/InMemoryDataStore.py:165 | prefixing gives one tuple per pair of a value and a tail |
| DataQueries.ProductMembers | src/causality/datastore/InMemoryDataStore.py:165 | the Cartesian product holds exactly the tuples whose k-th value comes from the k-th list |
| DataQueries.ProductLength | src/causality/datastore/InMemoryDataStore.py:165 | the product has one tuple per combination, and at least one when no list is empty |
| DataQueries.GetValues | src/causality/datastore/InMemoryDataStore.py:149-151 | a base item without a table raises before anything is produced |
| DataQueries.RowsForExact | src/causality/datastore/InMemoryDataStore.py:153-166 | the run completes exactly when every base instance's aggregators succeed, and then a row (x, t) is produced exactly when x is a base instance and t takes one value from each of x's wrapped results |
| DataQueries.RowsForStops | src/causality/datastore/InMemoryDataStore.py:153-166 | when the instance at position k is the first whose aggregators raise, the output is every row of the instances before it, then that error |
| DataQueries.InstanceEmits | src/causality/datastore/InMemoryDataStore.py:159-166 | an instance whose wrapped results are all nonempty yields at least one row in a completed run |
| DataQueries.EveryInstanceEmits | src/causality/datastore/InMemoryDataStore.py:149-166 | every base instance yields at least one row in a completed run |
| EntityGraphs.Touching | src/causality/modelspace/SchemaGenerator.py:123 | holds exactly the nodes adjacent to some member of the given set, all of them edge ends |
| EntityGraphs.ConnectedMore | src/causality/modelspace/SchemaGenerator.py:114 | adding edges to the entity graph never disconnects two connected nodes |
| EntityGraphs.ExploreSound | src/causality/modelspace/SchemaGenerator.py:128-136 | whenever the search rounds report the target, the target is connected to the start |
| EntityGraphs.ExploreComplete | src/causality/modelspace/SchemaGenerator.py:128-136 | while only frontier nodes may have unvisited neighbours, the rounds find every unvisited node connected to the start |
| EntityGraphs.ExploreSkipsVisited | src/causality/modelspace/SchemaGenerator.py:128-136 | a node already visited is never reported by the rounds |
| EntityGraphs.FirstRound | src/causality/modelspace/SchemaGenerator.py:123-125 | a node among the start's neighbours is connected to it, and reaching the start itself that way needs a self-loop |
| EntityGraphs.SearchDecides | src/causality/modelspace/SchemaGenerator.py:126-136 | after the first round, the search answers true for a distinct target exactly when it is connected to the start, and never for the start itself |
| EntityGraphs.DoesPathExist | src/causality/modelspace/SchemaGenerator.py:119-136 | for two distinct nodes, answers exactly whether some walk connects them; a node reaches itself only through a self-loop |
| EntityGraphs.ChooseAcyclic | src/causality/modelspace/SchemaGenerator.py:109-115 | the accepted pair is a candidate whose ends the graph did not yet connect, its edge is added to the graph, and every picked pair leaves the candidate list, which loses no other pair and gains none |
| EntityGraphs.ChooseAcyclicFinds | src/causality/modelspace/SchemaGenerator.py:109-115 | while some candidate joins two unconnected nodes, a picker that samples the candidates always ends the loop with a pair |
| EntityGraphs.ChooseEntityPair | src/causality/modelspace/SchemaGenerator.py:102-116 | with cycles allowed the picker's pair is returned and the graph is untouched, the pair leaving the candidates exactly when one relationship per pair is wanted (a pair not in the list then raises); without cycles the acyclic loop decides |
| EntityGraphs.ForestGrows | src/causality/modelspace/SchemaGenerator.py:109-115 | adding a pair whose ends are distinct and not yet connected keeps the edges a forest, so the generated relationships never close a cycle |
| Aggregators.MakeAggregator | src/causality/model/Aggregator.py:8-9 | succeeds exactly when the variable text parses, giving an aggregator of the requested class on that variable, and otherwise carries the parser's error |
| Aggregators.OperatorCode | src/causality/model/Aggregator.py:71-75 | a known operator stands for one of the six codes, and a boolean operator for NOT_EQUALS exactly when it is True |
| Aggregators.MakeCase | src/causality/model/Aggregator.py:78-88 | rejects an empty statement list first; succeeds exactly when there is a statement and every operator is one of the six integer codes; the result wraps the nested aggregator's variable |
| SchemaGenerators.CheckArguments | src/causality/modelspace/SchemaGenerator.py:26-43 | succeeds exactly for valid arguments, returning the two counts; the checks fail in the source's order (entity count, relationship count, too few entities, the acyclic bound, the pair bound, then the three distributions) and the pair bound n(n-1)/2 is compared exactly |
| SchemaGenerators.AcyclicWithinPairs | src/causality/modelspace/SchemaGenerator.py:32-37 | when cycles are forbidden, passing the n-1 bound already keeps the relationships within the n(n-1)/2 entity pairs |
| SchemaGenerators.EntityNamesDistinct | src/causality/modelspace/SchemaGenerator.py:45-51 | the entities are named by distinct letters |
| SchemaGenerators.PrefixOf | src/causality/modelspace/SchemaGenerator.py:46 | an attribute prefix exists exactly for the six entity names A to F, each mapped to its own letter |
| SchemaGenerators.Numbered | src/causality/modelspace/SchemaGenerator.py:59-61 | k attributes named prefix1 to prefixk, in that order |
| SchemaGenerators.FreshNumber | src/causality/modelspace/SchemaGenerator.py:59-61 | the k-th numbered attribute is not among the first k-1, so addAttribute never finds a duplicate |
| SchemaGenerators.NumberLastEntity | src/causality/modelspace/SchemaGenerator.py:59-61 | numbering the attributes of the entity just added never fails and gives it exactly prefix1 to prefixk |
| SchemaGenerators.NumberLastRelationship | src/causality/modelspace/SchemaGenerator.py:95-97 | numbering the attributes of the relationship just added never fails and gives it exactly prefix1 to prefixk |
| SchemaGenerators.EntityStep | src/causality/modelspace/SchemaGenerator.py:50-61 | one round of the entity loop appends the next lettered entity with its numbered attributes |
| SchemaGenerators.EntityLoopBuilds | src/causality/modelspace/SchemaGenerator.py:50-61 | the entity loop succeeds exactly when at most six entities are asked for and every attribute count drawn is a non-negative integer, then yields exactly the generated entities; a seventh entity fails for want of a name |
| SchemaGenerators.EntityLoopWellFormed | src/causality/modelspace/SchemaGenerator.py:49-61 | the entity loop keeps the schema well formed |
| SchemaGenerators.BaseNameSymmetric | src/causality/modelspace/SchemaGenerator.py:70 | a relationship's base name does not depend on which endpoint the picker listed first |
| SchemaGenerators.AddGenerated | src/causality/modelspace/SchemaGenerator.py:70-97 | a successful round keeps the schema well formed, leaves the entities alone and appends one relationship, between the chosen pair, named and numbered from the drawn counts and cardinalities |
| SchemaGenerators.Combinations | src/causality/modelspace/SchemaGenerator.py:65 | pairs entries of the list only, n(n-1)/2 pairs in all |
| SchemaGenerators.CombinationsComplete | src/causality/modelspace/SchemaGenerator.py:65 | every pair of distinct positions is a candidate, earlier entry first |
| SchemaGenerators.CombinationsDistinct | src/causality/modelspace/SchemaGenerator.py:65 | over distinct entities the candidate pairs are distinct and never pair an entity with itself |
| SchemaGenerators.NewEnds | src/causality/modelspace/SchemaGenerator.py:69-76 | a round adds the chosen pair's endpoints and base name, raises that base name's count by one and continues with the chooser's candidates and graph |
| SchemaGenerators.RelStepKeeps | src/causality/modelspace/SchemaGenerator.py:67-97 | every successful round of the relationship loop keeps its invariant: generated relationships, counts per base name, candidates and entity graph in step |
| SchemaGenerators.RelLoopKeeps | src/causality/modelspace/SchemaGenerator.py:67-97 | the invariant holds after any number of successful rounds |
| SchemaGenerators.GenerateSchema | src/causality/modelspace/SchemaGenerator.py:11-99 | argument errors come first; a generated schema is well formed, holds exactly the requested entities and relationships, each relationship as the draws dictate, no pair used twice when one per pair is asked or cycles are forbidden, and the relationships forming a forest when cycles are forbidden; more than six entities fail for want of a name |
| ModelGenerators.Objs | src/causality/modelspace/ModelGenerator.py:17 | one dependency object per dependency, in order |
| ModelGenerators.ParseObjs | src/causality/modelspace/ModelGenerator.py:17 | parsing dependency objects that are already dependencies gives back exactly those dependencies |
| ModelGenerators.ObjsDistinct | src/causality/modelspace/ModelGenerator.py:17 | the objects repeat exactly when the dependencies repeat |
| ModelGenerators.BuiltHolds | src/causality/modelspace/ModelGenerator.py:33 | a model built from a list of dependencies holds exactly that list, with no repeats |
| ModelGenerators.ParentCountAppend | src/causality/modelspace/ModelGenerator.py:34-35 | appending a dependency raises its effect's parent count by one and no other count |
| ModelGenerators.ParentCountRemove | src/causality/modelspace/ModelGenerator.py:31-40 | appending a dependency and then removing its first occurrence leaves every effect's parent count as before |
| ModelGenerators.Try | src/causality/modelspace/ModelGenerator.py:29-40 | a successful draw takes exactly one dependency out of the pool and consumes one pick; a draw fails only when the picker fails or returns a dependency not in the pool |
| ModelGenerators.TryCases | src/causality/modelspace/ModelGenerator.py:29-40 | the drawn dependency came from the pool and leaves it; either it is kept, the kept list builds a model and its effect's count stays within the limit, or it is removed from the kept list again and there is no current model |
| ModelGenerators.Loop | src/causality/modelspace/ModelGenerator.py:28-40 | the loop stops only when the pool is empty or enough dependencies are kept, and consumes exactly one pick per dependency taken from the pool |
| ModelGenerators.LoopErr | src/causality/modelspace/ModelGenerator.py:28-40 | the loop fails only by the picker failing or drawing a dependency not in the pool |
| ModelGenerators.CountsKeep | src/causality/modelspace/ModelGenerator.py:34-40 | the recorded counts bound every effect's parent count in the kept list and the parent limit is respected, whether the draw is kept or rejected |
| ModelGenerators.PoolShrinks | src/causality/modelspace/ModelGenerator.py:29-40 | the kept dependencies and the remaining pool together stay within the original pool |
| ModelGenerators.TryKeeps | src/causality/modelspace/ModelGenerator.py:29-40 | a successful draw keeps the loop invariant |
| ModelGenerators.LoopKeeps | src/causality/modelspace/ModelGenerator.py:28-40 | the loop invariant holds when the loop ends |
| ModelGenerators.DrawModel | src/causality/modelspace/ModelGenerator.py:24-45 | a successful drawing returns exactly the requested number of dependencies, drawn from the pool and within the parent limit, together with the model they build; a failure is a picker failure, a non-candidate or no model found |
| ModelGenerators.GenerateModel | src/causality/modelspace/ModelGenerator.py:6-45 | a pool error comes through; too small a pool fails; zero dependencies gives the empty model; otherwise the result is the drawing's |
| ModelGenerators.GeneratedModelValid | src/causality/modelspace/ModelGenerator.py:6-45 | a generated model holds exactly the requested number of distinct dependencies, all from the pool and within the parent limit, and the model constructor accepts exactly them |
| Config.CheckHop | src/causality/learning/RCD.py:24-25 | accepts exactly a non-negative integer hop threshold, giving it back; a float, even a whole one, fails with the hop message |
| Config.CheckDepth | src/causality/learning/RCD.py:26-27 | accepts no depth, meaning no limit, or a non-negative integer depth, and fails with the depth message otherwise |
| Collections.Remove | src/causality/modelspace/ModelGenerator.py:30 | list.remove succeeds exactly when the value is present, taking out one occurrence and nothing else; a missing value fails |
| Collections.NoDuplicatesIff | src/causality/datastore/InMemoryDataStore.py:60 | the size comparison with the set of columns fails exactly when some column repeats |
| Strings.Split | src/causality/model/ParserUtil.py:21-26 | one piece more than there are separators, no piece holding the separator, and joining the pieces gives back the text |
| Strings.SplitAround | src/causality/model/ParserUtil.py:21 | text with exactly one separator splits into the part before it and the part after it |
| Strings.Lower | src/causality/datastore/DataStore.py:54 | lower-cases each ASCII capital in place and keeps every other character, keeping the length |
| Strings.NatToStringValue | src/causality/modelspace/SchemaGenerator.py:60-61 | the decimal digits of a number read back to that number |
| Strings.NatToStringInjective | src/causality/modelspace/SchemaGenerator.py:76 | distinct numbers print differently, so numbered names are distinct |

## Left out

- RCDLightNew.Finish: the final `complete` call (src/shlee/RCDLightNew.py:212) is not modelled. That call runs the Dor–Tarsi extension test of snc_rules.py:232-285, which picks sinks in a random order. The claims about MR2 and the other rule patterns therefore describe the class graph after the last `rule_based_orient` and before completion.
- RCDLightNew.OrientDependencies: inherits the same gap. Its oriented output is read from the graph before `complete`.
- `PDAG.complete` and `dor_and_tarsi_2` (src/shlee/snc_rules.py:232-285) are left out as a whole. They are driven by random sink choices and exist only to extend the graph to a consistent DAG.
- `extend2` (src/shlee/RCDLightNew.py:270-334) is not modelled. Its only call site is commented out.
- The `old_mode` flag of `orient_dependencies` and `phase_2` is not modelled, because every branch that reads it is commented out.
- `random.shuffle` of the triples and the sort that moves pairs with a recorded separating set to the front are modelled together by one input order. The contracts hold for every order that lists each triple once, with recorded pairs first (`RCDLight.CachedFirst`).
- Python's set, dict and node iteration orders are free choices. Every contract holds for every enumeration.
- The edge-orientation rule counters, logging and the CI test records (`ciRecord`, the `record` argument) are not modelled. They never influence a result.
- The CI test, the distributions and the random pickers are function parameters. CITest.py and Distribution.py are not part of this model.
- The sampling distributions of the generators are given by the sequence of values they return.
- When a learning driver raises, the model returns the error without the partial state the Python object would keep. The setters and the insert are the exceptions, and their models return the state the object is left in. `RCDInputs.SetUndirectedAsWritten` keeps the dependencies it stored before the NameError. `RCDInputs.SetSepsets` keeps the parsed table when an entry then fails the check. `PC.SetSepsets` leaves that table in its RCD learner. `DataStores.InsertRows` returns the store it reached.
- RCDLight.OrientTriple: states that the edges a decision orients are no longer undirected, not which way they point. An edge the rules had already directed the other way keeps that direction, and the contract does not assume that the triple's edges are in the class graph.
- RCDLightNew.OrientTriple: states its decisions in the same way, as edges left not undirected.
- Strings.Lower: folds only the ASCII capitals A-Z. Python's `str.lower` folds every cased letter, and for a few, such as U+0130, it changes the length. So the table-name lookup of src/causality/datastore/DataStore.py:54 agrees with the source on ASCII names only.
- ParserUtil.ParseRelVarString: strips only ASCII whitespace (`Strings.IsSpace`, used by `Strings.Strip`). Python's `str.strip` also removes Unicode whitespace such as U+00A0 and U+2003, so for text padded with it the model keeps those characters in the names where the source drops them. `ParserUtil.ParseRelDep` inherits this.
- Many lemmas require well-formed states (`Wf`, `Agrees`, `Good`, `Consistent`). The source maintains these by construction and does not check them.
- `__repr__`/`__str__` text is not modelled except the variable and dependency printing that the parser round trip needs.
- `Model.__key`, `__eq__` and `__hash__` (src/causality/model/Model.py:70-80) are not modelled. A model is compared by its dependency list.
- `Schema.toFile`/`fromFile`, the JSON dictionaries, and `Model.toFile`/`fromFile` are file and JSON I/O, and are left out.
- The SQL data stores (SqlDataStore.py, MySqlDataStore.py, PostgreSqlDataStore.py, Sqlite3DataStore.py) are I/O against a database and are not part of this model. `close` and `rollback` do nothing in memory.
- `bfsReachability_original` (src/causality/dseparation/DSeparation.py:83-145) is not modelled, because it is no longer called.
- `getRelationalVariableNodes` and `getRelationalVariableIntersectionNodes` (src/causality/dseparation/AbstractGroundGraph.py:106-111) are only filters over the node set and are not modelled separately. The nodes are kept as two sets.
- networkx is modelled by sets of arcs: a directed graph is a node set with an arc set. Recursion depth limits become the `RecursionLimit` error on a cycle.
- The dependency checker that `Model` takes is a parameter of `CausalModel.MakeModel`. So is the variable-set checker of `dSeparated`. The variable-set checker of `setSepsets` is fixed to the default validity check.
- CausalModel.MakeModel: every entry is taken to be hashable. An unhashable entry, such as a list, makes `set(dependencies)` raise TypeError at src/causality/model/Model.py:21, and the model has no such error.
- `setSepsets` builds its dictionary by comprehension. The model evaluates an entry's conditioning set before its key, as CPython did before version 3.8. Under a later CPython, only the error reported when both parts of one entry are malformed would differ.
- The Space lemmas about relationship endpoints require a schema without self-relationships, because for a relationship from an entity to itself the enumeration and the validity rules read different cardinalities. When `extendRelationalPaths` turns back into such a relationship, it reads `entity1Card`, since the entity matches the first end (src/causality/modelspace/RelationalSpace.py:44-47). Validity reads the relationship's `cardinalities` dict, where the second end's entry overwrites the first (src/causality/model/Schema.py:224-228). So for `R(E many, E one)`, `getRelationalPaths` lists `[R, E, R]` and `isValidRelationalPath` refuses it (`Space.SelfRelationshipTurnsBackInvalid`). The length-1 branch of `extendRelationalPaths` also lists such a relationship's entity twice (src/causality/modelspace/RelationalSpace.py:34-36, `Space.SelfRelationshipListedTwice`). The enumeration and the validity rules disagree only on these schemas, and the source does not say which reading is meant, so the model states its equalities for schemas without self-relationships.
- The RCDLight fuzzing and test helpers under src/shlee are left out, as are the example scripts.
- Floating-point division is modelled as exact `real` arithmetic (precision, recall, the average aggregator).

## Findings

| source | as written | input that shows it | evidently intended | confidence | as-written member | corrected member |
|---|---|---|---|---|---|---|
| src/shlee/RCDLight.py:261-276 | `Ancestral.add` merges the ancestor's ancestors into x's descendants' ancestor sets, but never puts `ancestor` itself into `ans[x]` or `x` into `des[ancestor]` | a fresh `Ancestral`, then `add(a, b)`: afterwards `(a, b) in` it is False, and the record stays empty after any sequence of adds | `ancestor` and its ancestors become ancestors of `x` and of its descendants | not executed | Ancestrals.AddAsWrittenRecordsNothing, RCDLight.OrientDependencies | Ancestrals.AddRecords, RCDLight.OrientDependenciesCorrected |
| src/causality/dseparation/AbstractGroundGraph.py:123-150 | `removeEdgesForDependency` deletes edges but keeps the memoised ancestor sets of `getAncestors` | the AGG with one arc x -> y tagged by d: ask the ancestors of y, which gives {x, y}, then remove d; the ancestors of y are still {x, y} | clearing the ancestor cache whenever an edge is removed | not executed | AGGs.StaleAncestorsAfterRemoval | AGGs.RemoveEdgesForDependency |
| src/causality/learning/RCD.py:346-347 | `setUndirectedDependencies` refers to the undefined name `times` after storing the dependencies, so it always raises NameError before rebuilding the AGGs | a fresh learner given one valid dependency: the call fails with the dependencies stored and the AGGs untouched | rebuilding the AGGs at twice the hop threshold, as `identifyUndirectedDependencies` does through `constructAggsFromDependencies` with `times=2` (src/causality/learning/RCD.py:42-49, 365-369) | not executed | RCDInputs.SetUndirectedAsWrittenFails | RCDInputs.SetUndirected |
