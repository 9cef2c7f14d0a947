# ontolib core, modelled in Dafny

This project models the algorithmic core of ontolib, a Java library for
working with biomedical ontologies such as the Human Phenotype Ontology (HPO):

- **Topological sorting** (`graph/algo/TopologicalSorting`). Tarjan's depth-first
  sort keeps two marker sets and detects cycles (`topological_sorting.dfy`,
  over the directed-graph model in `graphs.dfy`).
- **Ancestor queries** of an ontology, whose term graph has edges from child to
  parent. The queries are `getAncestors` and `getAllAncestorTermIds` with
  and without the root, plus `getParentTermIds` and `existsPath` as the
  ontology tests use them (`ontology.dfy`).
- **The all-pairs shortest-path table** (`ShortestPathTable`). It is a dense
  `int` array filled by a visitor during the forward topological sort
  (`shortest_path_table.dfy`). Its term-id index comes from sorting the term ids
  (`term_ids.dfy`).
- **The term-overlap similarity** (`term_overlap_similarity.dfy`).
- **The score-distribution tools of the command-line module.**
  - The text-file reader groups rows by term count and object id
    (`text_file_score_distribution_reader.dfy`). It uses Java's
    `String.split`/`trim` in `text.dfy` and the `TreeMap` model in
    `score_distribution.dfy`.
  - The H2 writer resamples each object's observed scores into a
    `scores`/`pValues` row (`h2_score_distribution_writer.dfy`).
- **The HPO gene-annotation line parser**, with its one-line look-ahead cursor
  (`hpo_gene_annotation_parser.dfy`).
- **The uPheno OBO factory**, which checks stanza tag cardinalities, builds terms
  and hands out `is_a` relation ids from a counter (`upheno_obo_factory.dfy`).

Where the Java code mutates state, the model does too.

- The topological sort is a `Tarjan` object whose `unmarked`, `tmpMarked`
  and visit-sequence fields the recursive visit updates.
- The shortest-path table is a class over an `array<int>`, and its visitor is a
  class with a `seen` set.
- The readers and the parser are classes with a `nextLine` cursor over the
  file's lines.
- The writer is a class whose table is the list of inserted rows.
- The factory is a class with the `nextRelationId` counter.

Each method is proved against a specification:

- **Reachability and paths.** Each ancestor set is proved equal to reachability
  along child-to-parent edges.
- **Shortest distances.** The shortest-path table is proved to hold the least
  number of such edges, or `-1` when there is none. The sort fails exactly on
  cyclic graphs, and otherwise visits every vertex once, after its neighbours.
- **Reader and parser functions.** Every reader and parser method equals a
  function of the lines it has not yet read. Those functions are tied to the
  line format by round-trip and element-wise lemmas.

Library calls whose code is not part of this model are parameters of the
operations that use them:

- `Integer.parseInt`, `Double.parseDouble` and `ImmutableTermId.constructWithPrefix`;
- `ObjectScoreDistribution.observedScores` and `estimatePValue`;
- the `SimpleDateFormat` date parser.

## Model

| member | source | states |
|---|---|---|
| Graphs.NextFrom | ontolib-core/src/main/java/com/github/phenomics/ontolib/graph/algo/TopologicalSorting.java:73 | The neighbour selector: `w` is returned for `v` exactly when some edge leads from `v` to `w` in the selector's direction (out-edges forward, in-edges reverse). |
| Graphs.ReverseNeighbors | ontolib-core/src/main/java/com/github/phenomics/ontolib/graph/algo/TopologicalSorting.java:29 | The reverse selector's neighbours of `v` are exactly the vertices whose forward neighbours include `v`. |
| Graphs.CycleEitherWay | ontolib-core/src/main/java/com/github/phenomics/ontolib/graph/algo/TopologicalSorting.java:22-31 | A cycle along out-edges exists exactly when one along in-edges does, so both selectors detect the same non-DAGs. |
| Graphs.ReachableTrans | ontolib-core/src/main/java/com/github/phenomics/ontolib/graph/algo/TopologicalSorting.java:72-79 | Reachability along the selector's edges is transitive. |
| TermIds.TermLessTotal | ontolib-core/src/main/java/com/github/phenomics/ontolib/ontology/algo/ShortestPathTable.java:55 | The term-id order (prefix, then local id, each compared as `String.compareTo` does) is total on distinct ids; `TermLessTransitive` and `TermLessIrreflexive` make it a strict order. |
| TermIds.Least | ontolib-core/src/main/java/com/github/phenomics/ontolib/ontology/algo/ShortestPathTable.java:55 | Returns an element of a non-empty set that is below every other element. |
| TermIds.SortedCopy | ontolib-core/src/main/java/com/github/phenomics/ontolib/ontology/algo/ShortestPathTable.java:55 | `ImmutableSortedSet.copyOf`: the result holds exactly the set's elements, each once, in strictly ascending term-id order, and has the set's size. |
| TopologicalSorting.Tarjan.constructor | ontolib-core/src/main/java/com/github/phenomics/ontolib/graph/algo/TopologicalSorting.java:41-48 | `unmarked` starts as every vertex of the graph, `tmpMarked` empty and nothing visited. |
| TopologicalSorting.Tarjan.StartFromImpl | ontolib-core/src/main/java/com/github/phenomics/ontolib/graph/algo/TopologicalSorting.java:66-83 | Returns "not a DAG" only when the graph has a cycle along the selector; a normal return leaves `tmpMarked` as it was and `v` no longer unmarked. Visits are only appended, each vertex at most once and after all its selector neighbours (the class invariant). |
| TopologicalSorting.Tarjan.FinishVisit | ontolib-core/src/main/java/com/github/phenomics/ontolib/graph/algo/TopologicalSorting.java:77-81 | Once all selector neighbours of `v` are finished, `v` leaves both marks and is appended to the visits, keeping every visit after its neighbours. |
| TopologicalSorting.CycleThroughStack | ontolib-core/src/main/java/com/github/phenomics/ontolib/graph/algo/TopologicalSorting.java:68-70 | Reaching a vertex that is on the current recursion path (temporarily marked) closes a cycle. |
| TopologicalSorting.OrderedAppend | ontolib-core/src/main/java/com/github/phenomics/ontolib/graph/algo/TopologicalSorting.java:72-79 | Visiting a vertex after all of its selector neighbours keeps the visit sequence topologically ordered. |
| TopologicalSorting.OrderedMeansAcyclic | ontolib-core/src/main/java/com/github/phenomics/ontolib/graph/algo/TopologicalSorting.java:51-54 | A topological order of all vertices rules out a cycle, so a run that finishes proves the graph a DAG. |
| TopologicalSorting.StartImpl | ontolib-core/src/main/java/com/github/phenomics/ontolib/graph/algo/TopologicalSorting.java:40-55 | Fails exactly when the graph has a cycle along the selector; otherwise the visitor was called once for every vertex, and on each vertex after all its selector neighbours. |
| TopologicalSorting.StartForward | ontolib-core/src/main/java/com/github/phenomics/ontolib/graph/algo/TopologicalSorting.java:21-25 | `startImpl` with the out-edge selector: fails iff the graph is cyclic, else a topological order along out-edges. |
| TopologicalSorting.StartReverse | ontolib-core/src/main/java/com/github/phenomics/ontolib/graph/algo/TopologicalSorting.java:27-31 | `startImpl` with the in-edge selector: fails iff the graph is cyclic (along out-edges too), else a topological order along in-edges. |
| Ontologies.NotIn | ontolib-core/src/main/java/de/charite/compbio/ontolib/ontology/data/Ontology.java:47-55 | The terms of a list not already found, in order: `x` is kept iff it is in the list and not found. |
| Ontologies.Closure | ontolib-core/src/main/java/de/charite/compbio/ontolib/ontology/data/Ontology.java:27-34 | The breadth-first ancestor closure: contains the found set, stays within the graph, is closed under parents and holds nothing but found terms and terms reachable from the frontier. |
| Ontologies.ClosureInvariant | ontolib-core/src/main/java/de/charite/compbio/ontolib/ontology/data/Ontology.java:27-34 | Adding the unfound parents of the first frontier term keeps the closure invariant (found terms within the graph, frontier found, non-frontier terms closed under parents) and does not grow what is left to find. |
| Ontologies.ReachFrom | ontolib-core/src/main/java/de/charite/compbio/ontolib/ontology/data/Ontology.java:47-55 | `x` is in the result iff it is reachable from one of the seeds along child-to-parent edges. |
| Ontologies.GetAncestors | ontolib-core/src/main/java/de/charite/compbio/ontolib/ontology/data/Ontology.java:27-34 | `getAncestors(t, includeRoot)`: `x` is in the result iff it is reachable from `t` along child-to-parent edges (`t` itself included), and `x` is not the root unless `includeRoot`. |
| Ontologies.GetAncestorsWithRoot | ontolib-core/src/main/java/de/charite/compbio/ontolib/ontology/data/Ontology.java:43-45 | `getAncestors(t)`: every term reachable from `t`, the root included, the same as `includeRoot = true`. |
| Ontologies.AncestorsContainTerm | ontolib-core/src/main/java/de/charite/compbio/ontolib/ontology/data/Ontology.java:27-34 | A term is always among its own ancestors, unless it is the root and the root is excluded. |
| Ontologies.AncestorsTransitive | ontolib-core/src/main/java/de/charite/compbio/ontolib/ontology/data/Ontology.java:27-34 | An ancestor's ancestors are ancestors. |
| Ontologies.GetAllAncestorTermIds | ontolib-core/src/main/java/de/charite/compbio/ontolib/ontology/data/Ontology.java:47-55 | `getAllAncestorTermIds(ts, includeRoot)`: `x` is in the result iff it is reachable from some term of `ts`, and is not the root unless `includeRoot`. |
| Ontologies.GetAllAncestorTermIdsWithRoot | ontolib-core/src/main/java/de/charite/compbio/ontolib/ontology/data/Ontology.java:64-66 | `getAllAncestorTermIds(ts)`: every term reachable from `ts`, the root included. |
| Ontologies.AllAncestorsIsUnion | ontolib-core/src/main/java/de/charite/compbio/ontolib/ontology/data/Ontology.java:47-55 | The joint closure equals the union of the single-term ancestor sets. |
| Ontologies.AllAncestorsContainInputs | ontolib-core/src/main/java/de/charite/compbio/ontolib/ontology/data/Ontology.java:47-55 | Every input term is in the result, except a root the caller excluded. |
| Ontologies.GetParentTermIds | ontolib-core/src/test/java/com/github/phenomics/ontolib/ontology/data/ImmutableOntologyTest.java:35-37 | The parents of `t` are exactly the targets of its out-edges, and all of them are ancestors of `t`. |
| Ontologies.ExistsPath | ontolib-core/src/test/java/com/github/phenomics/ontolib/ontology/data/ImmutableOntologyTest.java:41-57 | `existsPath(s, d)` holds iff there is a walk of at least one child-to-parent edge from `s` to `d`. |
| Ontologies.ProperPathTrans | ontolib-core/src/test/java/com/github/phenomics/ontolib/ontology/data/ImmutableOntologyTest.java:41-57 | Two consecutive proper walks form a proper walk. |
| Ontologies.NoSelfPath | ontolib-core/src/test/java/com/github/phenomics/ontolib/ontology/data/ImmutableOntologyTest.java:56-57 | In an acyclic ontology no term has a path to itself. |
| Ontologies.PathAntisymmetric | ontolib-core/src/test/java/com/github/phenomics/ontolib/ontology/data/ImmutableOntologyTest.java:44-55 | A path from `a` to `b` rules out one from `b` back to `a`. |
| Ontologies.ExampleValid | ontolib-core/src/test/java/com/github/phenomics/ontolib/ontology/data/ImmutableOntologyTest.java:15 | The five-term test graph (id1 to id2, id3 and id4; id2, id3 and id4 to id5, six edges in all) is a valid acyclic ontology, for any five distinct ids. |
| Ontologies.ExampleWellFormed | ontolib-core/src/test/java/com/github/phenomics/ontolib/ontology/data/ImmutableOntologyTest.java:41 | The test graph has distinct vertices, edges between them with distinct ids, contains its root and its term ids. |
| Ontologies.ExampleParents | ontolib-core/src/test/java/com/github/phenomics/ontolib/ontology/data/ImmutableOntologyTest.java:35-37 | In the test graph the parents of id1 are exactly id2, id3 and id4. |
| Ontologies.ExampleFirstNeighbors | ontolib-core/src/test/java/com/github/phenomics/ontolib/ontology/data/ImmutableOntologyTest.java:35-37 | The out-edges of id1 lead to id2, id3 and id4, in edge order. |
| Ontologies.ExamplePaths | ontolib-core/src/test/java/com/github/phenomics/ontolib/ontology/data/ImmutableOntologyTest.java:43-57 | Every path query of the test: id1 to id2, id3, id4, id5, id2 to id5 and id4 to id5 exist, none of the reverse paths do, and id5 has no path to itself. |
| ShortestPaths.CellIndex | ontolib-core/src/main/java/com/github/phenomics/ontolib/ontology/algo/ShortestPathTable.java:84 | Cell `(i, j)` of the row-major `n * n` array lies below `n * n`, and different cells have different positions. |
| ShortestPaths.ShortestPathTable.constructor | ontolib-core/src/main/java/com/github/phenomics/ontolib/ontology/algo/ShortestPathTable.java:49-57 | The indexed terms are exactly the non-obsolete ids, their indices are a bijection onto `[0, n)` that follows ascending term-id order, and the array is new. |
| ShortestPaths.Positions | ontolib-core/src/main/java/com/github/phenomics/ontolib/ontology/algo/ShortestPathTable.java:54-57 | Every term of the sorted copy gets its own position as index, and every index below the term count is used by exactly one term. |
| ShortestPaths.PositionsOrdered | ontolib-core/src/main/java/com/github/phenomics/ontolib/ontology/algo/ShortestPathTable.java:55-56 | Over a strictly ascending copy, a term sorts before another exactly when its index is smaller. |
| ShortestPaths.ShortestPathTable.SetDistance | ontolib-core/src/main/java/com/github/phenomics/ontolib/ontology/algo/ShortestPathTable.java:81-85 | Writes the cell of `(s, d)` and leaves every other cell unchanged. |
| ShortestPaths.ShortestPathTable.GetDistance | ontolib-core/src/main/java/com/github/phenomics/ontolib/ontology/algo/ShortestPathTable.java:104-112 | `DISTANCE_INFINITY` when either id has no index, else the stored cell; in a built table, the least number of child-to-parent edges from `s` to `d`, or `-1` iff there is no walk. |
| ShortestPaths.ShortestPathTable.UnknownUnreachable | ontolib-core/src/main/java/com/github/phenomics/ontolib/ontology/algo/ShortestPathTable.java:104-112 | Answering `-1` for an unindexed term is correct: such a pair has no walk. |
| ShortestPaths.ShortestPathTable.GetDistanceSymmetric | ontolib-core/src/main/java/com/github/phenomics/ontolib/ontology/algo/ShortestPathTable.java:125-132 | `-1` iff neither term reaches the other; otherwise a true shortest distance in one of the two directions, and the forward one when it exists. |
| ShortestPaths.ShortestPathTable.PrecomputeDistances | ontolib-core/src/main/java/com/github/phenomics/ontolib/ontology/algo/ShortestPathTable.java:63-72 | Fills every cell with `-1`, then runs the forward topological sorting with the visitor. It passes iff the graph has no cycle and every vertex is indexed, and then every cell holds the true shortest distance. "Not a DAG" is reported only for a graph with a cycle. A null-index failure names a vertex without an index. |
| ShortestPaths.ShortestPathTable.ClearAll | ontolib-core/src/main/java/com/github/phenomics/ontolib/ontology/algo/ShortestPathTable.java:64-67 | Every cell becomes `-1`, so no row is finished yet and every row holds only `-1`. |
| ShortestPaths.ShortestPathTable.VisitAll | ontolib-core/src/main/java/com/github/phenomics/ontolib/ontology/algo/ShortestPathTable.java:68-71 | Calls the visitor on the terms in a forward topological order. It passes iff every vertex is indexed, and then every row holds the true shortest distances. Otherwise it stops at the first term of the order without an index, with that term's null-index failure. |
| ShortestPaths.ShortestPathTable.VisitNext | ontolib-core/src/main/java/com/github/phenomics/ontolib/ontology/algo/ShortestPathTable.java:68-71 | One call of the visitor on `order[i]`, all earlier terms being done: it fails with `order[i]`'s null-index failure iff that term has no index (the first in the order), else the finished rows grow by `order[i]` and stay closed under parents. |
| ShortestPaths.ShortestPathTable.SetRowCell | ontolib-core/src/main/java/com/github/phenomics/ontolib/ontology/algo/ShortestPathTable.java:162-164 | A write into the row of an unfinished term sets that one cell: the rest of the row, the finished rows and the untouched rows keep their values. |
| ShortestPaths.ShortestPathTable.Create | ontolib-core/src/main/java/com/github/phenomics/ontolib/ontology/algo/ShortestPathTable.java:49-60 | The constructor as a whole. It succeeds iff the term graph has no cycle and all its vertices are non-obsolete, and then every answer of the table is a true shortest distance. "Not a DAG" comes only from a cycle. A null-index failure names an obsolete vertex. |
| ShortestPaths.BuildDistanceTableVertexVisitor.constructor | ontolib-core/src/main/java/com/github/phenomics/ontolib/ontology/algo/ShortestPathTable.java:140 | `seen` starts empty. |
| ShortestPaths.BuildDistanceTableVertexVisitor.DistanceVia | ontolib-core/src/main/java/com/github/phenomics/ontolib/ontology/algo/ShortestPathTable.java:150-161 | The inner loop over the parents of `v`: one more than the least finite parent distance to `d`, or `-1` if no parent reaches `d`, which is the true distance from `v` to `d`. |
| ShortestPaths.BuildDistanceTableVertexVisitor.FillRow | ontolib-core/src/main/java/com/github/phenomics/ontolib/ontology/algo/ShortestPathTable.java:149-165 | For every seen `d` the row of `v` gets the true distance to `d`; the cell `(v, v)` and the cells of unseen terms are untouched. |
| ShortestPaths.BuildDistanceTableVertexVisitor.FillCell | ontolib-core/src/main/java/com/github/phenomics/ontolib/ontology/algo/ShortestPathTable.java:150-164 | One turn of the `seen` loop: the cell towards `d` gets the true distance; the cells done before keep theirs and the rest of the row stays `-1`. |
| ShortestPaths.BuildDistanceTableVertexVisitor.Visit | ontolib-core/src/main/java/com/github/phenomics/ontolib/ontology/algo/ShortestPathTable.java:143-169 | A term without an index makes the first `setDistance` throw: a null-index failure, with nothing written and `seen` unchanged. Otherwise `visit` sets the distance of `v` to itself to 0 and fills its row towards the seen terms. It adds exactly `v` to `seen`, keeps every finished row correct and returns `true`. |
| ShortestPaths.RowDone | ontolib-core/src/main/java/com/github/phenomics/ontolib/ontology/algo/ShortestPathTable.java:167 | Once the row of `v` holds true distances to the seen terms and 0 to itself, the finished rows extend to `seen + {v}`. |
| ShortestPaths.ShortestViaNeighbors | ontolib-core/src/main/java/com/github/phenomics/ontolib/ontology/algo/ShortestPathTable.java:149-165 | The visitor's recurrence is right: the distance from `v` to another term is one more than the least distance from a parent of `v`, or infinite when no parent reaches it. |
| ShortestPaths.UnseenUnreachable | ontolib-core/src/main/java/com/github/phenomics/ontolib/ontology/algo/ShortestPathTable.java:147-148 | When every parent of `v` is already seen (topological order), nothing outside the seen terms and `v` is reachable from `v`. |
| ShortestPaths.ShortestDistanceUnique | ontolib-core/src/main/java/com/github/phenomics/ontolib/ontology/algo/ShortestPathTable.java:21-23 | The shortest distance between two terms is unique. |
| ShortestPaths.TriangleInequality | ontolib-core/src/main/java/com/github/phenomics/ontolib/ontology/algo/ShortestPathTable.java:21-23 | Distances obey the triangle inequality. |
| ShortestPaths.AtMostOneDirection | ontolib-core/src/main/java/com/github/phenomics/ontolib/ontology/algo/ShortestPathTable.java:114-132 | In an acyclic graph two different terms are connected in at most one direction. |
| ShortestPaths.SymmetricDistanceSymmetric | ontolib-core/src/main/java/com/github/phenomics/ontolib/ontology/algo/ShortestPathTable.java:125-132 | `getDistanceSymmetric(s, d) == getDistanceSymmetric(d, s)` in a built table. |
| ShortestPaths.DistanceToSelf | ontolib-core/src/main/java/com/github/phenomics/ontolib/ontology/algo/ShortestPathTable.java:145 | Every term is at distance 0 from itself. |
| ShortestPaths.ExampleDistance | ontolib-core/src/main/java/com/github/phenomics/ontolib/ontology/algo/ShortestPathTable.java:125-132 | In the five-term test graph id1 is two edges below id5, and the symmetric query from id5 also answers 2. |
| ShortestPaths.ExampleShortest | ontolib-core/src/main/java/com/github/phenomics/ontolib/ontology/algo/ShortestPathTable.java:125-132 | In the five-term test graph the shortest walk from id1 to id5 has exactly two edges. |
| ShortestPaths.ExampleNoShortcut | ontolib-core/src/main/java/com/github/phenomics/ontolib/ontology/algo/ShortestPathTable.java:125-132 | In the test graph there is no walk of zero or one edge from id1 to id5. |
| TermOverlap.WithOntology | ontolib-core/src/main/java/com/github/phenomics/ontolib/ontology/similarity/TermOverlapSimilarity.java:49-51 | The one-argument constructor keeps the ontology and sets `normalized`. |
| TermOverlap.ParametersShowFlag | ontolib-core/src/main/java/com/github/phenomics/ontolib/ontology/similarity/TermOverlapSimilarity.java:70-72 | `getParameters` is `{normalized: true}` or `{normalized: false}` exactly as the flag is. |
| TermOverlap.DefaultQueries | ontolib-core/src/test/java/de/charite/compbio/ontolib/ontology/similarity/TermOverlapSimilarityTest.java:24-26 | A default instance answers the name `Term overlap similarity`, is symmetric and reports `{normalized: true}`. |
| TermOverlap.AncestorUnion | ontolib-core/src/main/java/com/github/phenomics/ontolib/ontology/similarity/TermOverlapSimilarity.java:81-82 | Both inputs are expanded to the union of their ancestors with the root excluded. |
| TermOverlap.ComputeScore | ontolib-core/src/main/java/com/github/phenomics/ontolib/ontology/similarity/TermOverlapSimilarity.java:80-90 | Unnormalized: the size of the intersection of the two root-free ancestor unions, at most the smaller union's size. Normalized: NaN iff the smaller union is empty, otherwise the overlap divided by the smaller size, which lies in `[0, 1]`. |
| TermOverlap.ScoreOfSets | ontolib-core/src/main/java/com/github/phenomics/ontolib/ontology/similarity/TermOverlapSimilarity.java:84-89 | The score of two ancestor sets: the shared count (at most the smaller size), or normalized NaN iff the smaller set is empty and otherwise the ratio, in `[0, 1]`. |
| TermOverlap.ScoreSymmetric | ontolib-core/src/main/java/com/github/phenomics/ontolib/ontology/similarity/TermOverlapSimilarity.java:75-77 | `computeScore(q, t) == computeScore(t, q)`, agreeing with `isSymmetric()`. |
| TermOverlap.SelfSimilarity | ontolib-core/src/main/java/com/github/phenomics/ontolib/ontology/similarity/TermOverlapSimilarity.java:84-88 | A set compared with itself scores its union's size, or 1.0 when normalized and the union is non-empty. |
| Text.FieldsJoin | ontolib-cli/src/main/java/com/github/phenomics/ontolib/cli/TextFileScoreDistributionReader.java:83 | No piece of a cut string holds the separator, and joining the pieces with it gives the string back. |
| Text.FieldsHaveNoSeparator | ontolib-cli/src/main/java/com/github/phenomics/ontolib/cli/TextFileScoreDistributionReader.java:83 | No piece of a cut string holds the separator. |
| Text.FieldsOfJoin | ontolib-cli/src/main/java/com/github/phenomics/ontolib/cli/TextFileScoreDistributionReader.java:83 | Cutting joined separator-free pieces gives the pieces back. |
| Text.SplitSpec | ontolib-cli/src/main/java/com/github/phenomics/ontolib/cli/TextFileScoreDistributionReader.java:83 | `String.split` on one ordinary character: the string itself when the separator is absent, otherwise the pieces up to the last non-empty one with only empty pieces dropped; no piece holds the separator. |
| Text.SplitOfJoin | ontolib-io/src/main/java/com/github/phenomics/ontolib/io/obo/hpo/HpoGeneAnnotationParser.java:93 | Splitting a tab-joined line whose last field is not empty gives its fields back. |
| Text.Trim | ontolib-cli/src/main/java/com/github/phenomics/ontolib/cli/TextFileScoreDistributionReader.java:83 | `String.trim`: a slice of the input after its leading blanks, with only blanks cut from the end, neither starting nor ending with a blank. |
| Text.TrimIdempotent | ontolib-cli/src/main/java/com/github/phenomics/ontolib/cli/TextFileScoreDistributionReader.java:83 | Trimming twice is trimming once. |
| ScoreDistributions.Get | ontolib-cli/src/main/java/com/github/phenomics/ontolib/cli/TextFileScoreDistributionReader.java:89 | A `TreeMap` lookup: `None` iff the key is absent, else the value stored with it. |
| ScoreDistributions.Put | ontolib-cli/src/main/java/com/github/phenomics/ontolib/cli/TextFileScoreDistributionReader.java:92 | `TreeMap.put`: keys stay strictly ascending, the key maps to the new value, every other key keeps its value, and the size grows only for a new key. |
| ScoreDistributions.PutAll | ontolib-cli/src/main/java/com/github/phenomics/ontolib/cli/TextFileScoreDistributionReader.java:89-93 | The distribution map built from the pairs has strictly ascending keys. |
| ScoreDistributions.PutAllLastWins | ontolib-cli/src/main/java/com/github/phenomics/ontolib/cli/TextFileScoreDistributionReader.java:90-93 | A repeated score keeps the value of its last pair. |
| ScoreDistributions.PutAllKeys | ontolib-cli/src/main/java/com/github/phenomics/ontolib/cli/TextFileScoreDistributionReader.java:90-93 | A score is a key of the map iff some pair carries it. |
| ScoreDistributions.GetObjectScoreDistribution | ontolib-cli/src/main/java/com/github/phenomics/ontolib/cli/TextFileScoreDistributionReader.java:122 | The lookup finds a distribution iff the object id is present, and it is the stored one. |
| TextFileScoreDistributionReading.FieldAt | ontolib-cli/src/main/java/com/github/phenomics/ontolib/cli/TextFileScoreDistributionReader.java:87 | `arr[i]`, failing exactly when the line has too few fields. |
| TextFileScoreDistributionReading.IntField | ontolib-cli/src/main/java/com/github/phenomics/ontolib/cli/TextFileScoreDistributionReader.java:84-86 | `Integer.parseInt(arr[i])`: fails iff the field is missing or does not parse, else the parsed value. |
| TextFileScoreDistributionReading.RealField | ontolib-cli/src/main/java/com/github/phenomics/ontolib/cli/TextFileScoreDistributionReader.java:92 | `Double.parseDouble(arr[i])`: fails iff the field is missing or does not parse, else the parsed value. |
| TextFileScoreDistributionReading.ParsePair | ontolib-cli/src/main/java/com/github/phenomics/ontolib/cli/TextFileScoreDistributionReader.java:91-92 | A `score:frequency` piece parses iff it splits into at least two parts that both parse, giving those two values. |
| TextFileScoreDistributionReading.ParseEachSpec | ontolib-cli/src/main/java/com/github/phenomics/ontolib/cli/TextFileScoreDistributionReader.java:90-93 | Parsing a list succeeds iff every element parses, and then yields one result per element, in order. |
| TextFileScoreDistributionReading.ParseEachFailedPrefix | ontolib-cli/src/main/java/com/github/phenomics/ontolib/cli/TextFileScoreDistributionReader.java:82-108 | The first failing line decides the outcome: later lines are not looked at. |
| TextFileScoreDistributionReading.ParseRow | ontolib-cli/src/main/java/com/github/phenomics/ontolib/cli/TextFileScoreDistributionReader.java:83-96 | A parsed row has at least four tab fields of the trimmed line, its term count, object id and sample size are fields 0 to 2 parsed, and its frequency table has ascending scores. |
| TextFileScoreDistributionReading.GroupKeys | ontolib-cli/src/main/java/com/github/phenomics/ontolib/cli/TextFileScoreDistributionReader.java:98-101 | Rows are grouped by term count, then object id: a group or entry exists iff some row carries it. |
| TextFileScoreDistributionReading.GroupLastWins | ontolib-cli/src/main/java/com/github/phenomics/ontolib/cli/TextFileScoreDistributionReader.java:101 | Within a group a later row with the same object id replaces an earlier one. |
| TextFileScoreDistributionReading.ToDistributions | ontolib-cli/src/main/java/com/github/phenomics/ontolib/cli/TextFileScoreDistributionReader.java:110-113 | One `ScoreDistribution` per term count of the grouping, wrapping that group. |
| TextFileScoreDistributionReading.ReadAgainFindsNothing | ontolib-cli/src/main/java/com/github/phenomics/ontolib/cli/TextFileScoreDistributionReader.java:82 | With the cursor used up a second read finds no rows, so every term count is missing. |
| TextFileScoreDistributionReading.TermCountGroup | ontolib-cli/src/main/java/com/github/phenomics/ontolib/cli/TextFileScoreDistributionReader.java:67-74 | `readForTermCount` fails iff no row has that term count; otherwise the group holds exactly the object ids of those rows. |
| TextFileScoreDistributionReading.AsWrittenNeverFinds | ontolib-cli/src/main/java/com/github/phenomics/ontolib/cli/TextFileScoreDistributionReader.java:121-128 | As written, the lookup fails when the object is present and returns null when it is absent. |
| TextFileScoreDistributionReading.ForObject | ontolib-cli/src/main/java/com/github/phenomics/ontolib/cli/TextFileScoreDistributionReader.java:121-128 | Corrected lookup: succeeds iff the object id is in the group, returning its distribution, and fails with "not found" otherwise. |
| TextFileScoreDistributionReading.TextFileScoreDistributionReader.constructor | ontolib-cli/src/main/java/com/github/phenomics/ontolib/cli/TextFileScoreDistributionReader.java:41-44 | A reader over the file's lines with no line read yet. |
| TextFileScoreDistributionReading.TextFileScoreDistributionReader.Advance | ontolib-cli/src/main/java/com/github/phenomics/ontolib/cli/TextFileScoreDistributionReader.java:104 | `readLine`: the cursor takes the next unread line, or null at the end. |
| TextFileScoreDistributionReading.TextFileScoreDistributionReader.ReadHeader | ontolib-cli/src/main/java/com/github/phenomics/ontolib/cli/TextFileScoreDistributionReader.java:51-64 | Fails on an empty file or a first line other than the header; on success the cursor holds the first data line. |
| TextFileScoreDistributionReading.TextFileScoreDistributionReader.Open | ontolib-cli/src/main/java/com/github/phenomics/ontolib/cli/TextFileScoreDistributionReader.java:41-49 | Opening succeeds iff the first line is the header, and then the rows to read are the lines after it. |
| TextFileScoreDistributionReading.TextFileScoreDistributionReader.ReadRows | ontolib-cli/src/main/java/com/github/phenomics/ontolib/cli/TextFileScoreDistributionReader.java:82-108 | The row loop gives the grouping of the unread rows, or the error of the first row that fails. A successful read consumes every line. After a failure the cursor stays on the failing line, and every line before it has parsed. |
| TextFileScoreDistributionReading.GroupedStep | ontolib-cli/src/main/java/com/github/phenomics/ontolib/cli/TextFileScoreDistributionReader.java:82-108 | One more line that parses adds its record to the grouping of the lines before it. |
| TextFileScoreDistributionReading.GroupedStepFails | ontolib-cli/src/main/java/com/github/phenomics/ontolib/cli/TextFileScoreDistributionReader.java:82-108 | After a prefix that parses, the first line that fails decides the result: the error of that line. |
| TextFileScoreDistributionReading.FailureRepeats | ontolib-cli/src/main/java/com/github/phenomics/ontolib/cli/TextFileScoreDistributionReader.java:82-108 | After a failed read the cursor holds a malformed line, so reading the rest again fails with the same error. |
| TextFileScoreDistributionReading.TextFileScoreDistributionReader.ReadAll | ontolib-cli/src/main/java/com/github/phenomics/ontolib/cli/TextFileScoreDistributionReader.java:77-116 | `readAll`: the distributions of the unread rows, keyed by term count. A successful read consumes every line. After a failure the cursor stays on the first malformed line. |
| TextFileScoreDistributionReading.TextFileScoreDistributionReader.ReadForTermCount | ontolib-cli/src/main/java/com/github/phenomics/ontolib/cli/TextFileScoreDistributionReader.java:67-74 | `readForTermCount`: the group of that term count from `readAll`, or "not found". It leaves the cursor where `readAll` does. |
| TextFileScoreDistributionReading.TextFileScoreDistributionReader.ReadForTermCountAndObjectAsWritten | ontolib-cli/src/main/java/com/github/phenomics/ontolib/cli/TextFileScoreDistributionReader.java:119-129 | The method as written, with its inverted test. It leaves the cursor where `readAll` does. |
| TextFileScoreDistributionReading.TextFileScoreDistributionReader.ReadForTermCountAndObject | ontolib-cli/src/main/java/com/github/phenomics/ontolib/cli/TextFileScoreDistributionReader.java:119-129 | The corrected method: the object's distribution in that group, or "not found". It leaves the cursor where `readAll` does. |
| H2ScoreDistributionWriting.PositionBounds | ontolib-cli/src/main/java/com/github/phenomics/ontolib/cli/H2ScoreDistributionWriter.java:155 | For `n >= 1` observations and `0 <= i <= r`, the sample position lies in `[0, n - 1]`. |
| H2ScoreDistributionWriting.IndexBounds | ontolib-cli/src/main/java/com/github/phenomics/ontolib/cli/H2ScoreDistributionWriter.java:155-157 | `0 <= left <= right <= n - 1`, `right - left <= 1`, `left <= pos <= right`, and `left == right` iff the position is a whole index. |
| H2ScoreDistributionWriting.InterpolateAtIndex | ontolib-cli/src/main/java/com/github/phenomics/ontolib/cli/H2ScoreDistributionWriter.java:158-160 | When `left == right` the interpolated score is `obs[left]`. |
| H2ScoreDistributionWriting.Endpoints | ontolib-cli/src/main/java/com/github/phenomics/ontolib/cli/H2ScoreDistributionWriter.java:154-160 | The first sample is `obs[0]` and the last is `obs[n - 1]`. |
| H2ScoreDistributionWriting.InterpolateBetween | ontolib-cli/src/main/java/com/github/phenomics/ontolib/cli/H2ScoreDistributionWriter.java:156-160 | With ascending observations each sample lies between `obs[left]` and `obs[right]`. |
| H2ScoreDistributionWriting.InterpolateMonotone | ontolib-cli/src/main/java/com/github/phenomics/ontolib/cli/H2ScoreDistributionWriter.java:154-160 | With ascending observations the samples ascend with `i`. |
| H2ScoreDistributionWriting.Resampled | ontolib-cli/src/main/java/com/github/phenomics/ontolib/cli/H2ScoreDistributionWriter.java:150-152 | With resolution `r != 0` there are `r + 1` samples. |
| H2ScoreDistributionWriting.PValues | ontolib-cli/src/main/java/com/github/phenomics/ontolib/cli/H2ScoreDistributionWriter.java:162 | `pValues[i] == estimatePValue(scores[i])` for every `i`. |
| H2ScoreDistributionWriting.ResampledSpan | ontolib-cli/src/main/java/com/github/phenomics/ontolib/cli/H2ScoreDistributionWriter.java:154-161 | With ascending observations the samples run from `obs[0]` to `obs[n - 1]` in ascending order. |
| H2ScoreDistributionWriting.ResampleInto | ontolib-cli/src/main/java/com/github/phenomics/ontolib/cli/H2ScoreDistributionWriter.java:150-163 | The resampling loop fills `scores` with the interpolated samples and `pValues` with their estimated p-values. |
| H2ScoreDistributionWriting.CopiedAsWritten | ontolib-cli/src/main/java/com/github/phenomics/ontolib/cli/H2ScoreDistributionWriter.java:164-172 | The arrays the resolution-0 branch leaves, which have the table's length. |
| H2ScoreDistributionWriting.CopyFrequenciesAsWritten | ontolib-cli/src/main/java/com/github/phenomics/ontolib/cli/H2ScoreDistributionWriter.java:164-172 | The resolution-0 loop as written: every entry is written to index 0, which ends up holding the last entry, and the rest stay 0. |
| H2ScoreDistributionWriting.AsWrittenLosesScores | ontolib-cli/src/main/java/com/github/phenomics/ontolib/cli/H2ScoreDistributionWriter.java:168-172 | For a table of two or more entries the written scores are not the table's keys: slot 0 holds the largest score. |
| H2ScoreDistributionWriting.KeysStrictlyAscend | ontolib-cli/src/main/java/com/github/phenomics/ontolib/cli/H2ScoreDistributionWriter.java:169-171 | The scores of a cumulative-frequency table strictly ascend. |
| H2ScoreDistributionWriting.CopyFrequencies | ontolib-cli/src/main/java/com/github/phenomics/ontolib/cli/H2ScoreDistributionWriter.java:164-172 | The corrected loop: `scores` are the table's keys and `pValues` its values, entry by entry. |
| H2ScoreDistributionWriting.ObjectRow | ontolib-cli/src/main/java/com/github/phenomics/ontolib/cli/H2ScoreDistributionWriter.java:144-185 | The row for one object, or an error. It is built iff the resolution is at least -1 and, when the resolution is positive, observations exist; otherwise the error is negative array size or index out of bounds. The row carries the number of terms, the object id and the sample size. It holds `r + 1` samples, or at resolution 0 one cell per table entry. |
| H2ScoreDistributionWriting.CorrectedObjectRow | ontolib-cli/src/main/java/com/github/phenomics/ontolib/cli/H2ScoreDistributionWriter.java:144-185 | The row with the resolution-0 copy corrected. It has the same errors, fields and lengths as the row as written. |
| H2ScoreDistributionWriting.RowContents | ontolib-cli/src/main/java/com/github/phenomics/ontolib/cli/H2ScoreDistributionWriter.java:146-173 | At a non-zero resolution each p-value is the estimate of its score; ascending observations give ascending samples from the least to the greatest observation. At resolution 0, cell 0 holds the table's last score and frequency and every other cell holds 0.0. So an ascending table of two or more entries does not get its scores back. |
| H2ScoreDistributionWriting.CorrectedRowContents | ontolib-cli/src/main/java/com/github/phenomics/ontolib/cli/H2ScoreDistributionWriter.java:164-172 | Away from resolution 0 the corrected row is the row as written. At resolution 0 it holds the table's scores and frequencies entry by entry, and an ascending table gives strictly ascending scores. |
| H2ScoreDistributionWriting.H2ScoreDistributionWriter.constructor | ontolib-cli/src/main/java/com/github/phenomics/ontolib/cli/H2ScoreDistributionWriter.java:106-113 | The freshly created table is empty. |
| H2ScoreDistributionWriting.H2ScoreDistributionWriter.WriteObjectScoreDistribution | ontolib-cli/src/main/java/com/github/phenomics/ontolib/cli/H2ScoreDistributionWriter.java:144-185 | Inserts exactly the object's row as written (resolution 0 through the copying loop as written) iff it can be built. Otherwise the table is unchanged and the error is the row's. |
| H2ScoreDistributionWriting.H2ScoreDistributionWriter.Write | ontolib-cli/src/main/java/com/github/phenomics/ontolib/cli/H2ScoreDistributionWriter.java:127-134 | Inserts one row per object id, in the order the ids are visited and each id once; succeeds iff every object's row can be built, and then every object id was written. |
| HpoGeneAnnotations.ParseLine | ontolib-io/src/main/java/com/github/phenomics/ontolib/io/obo/hpo/HpoGeneAnnotationParser.java:92-101 | A line parses iff it has at least four tab fields, the gene id parses and the term id parses; the annotation is gene id, symbol, term name and term id from fields 0 to 3. |
| HpoGeneAnnotations.ParseLineOfFields | ontolib-io/src/main/java/com/github/phenomics/ontolib/io/obo/hpo/HpoGeneAnnotationParser.java:93-97 | Tab-joining four fields and parsing the line gives back the annotation built from those fields. |
| HpoGeneAnnotations.ParseLinesSpec | ontolib-io/src/test/java/com/github/phenomics/ontolib/io/obo/hpo/HpoGeneAnnotationParserTest.java:45-51 | Parsing the data lines succeeds iff every line parses, and then yields one annotation per line, in order. |
| HpoGeneAnnotations.HpoGeneAnnotationParser.constructor | ontolib-io/src/main/java/com/github/phenomics/ontolib/io/obo/hpo/HpoGeneAnnotationParser.java:65-68 | The cursor holds the file's first line, or null for an empty file. |
| HpoGeneAnnotations.HpoGeneAnnotationParser.Advance | ontolib-io/src/main/java/com/github/phenomics/ontolib/io/obo/hpo/HpoGeneAnnotationParser.java:99 | `readLine`: the cursor takes the next unread line, or null at the end. |
| HpoGeneAnnotations.HpoGeneAnnotationParser.CheckHeader | ontolib-io/src/main/java/com/github/phenomics/ontolib/io/obo/hpo/HpoGeneAnnotationParser.java:78-84 | Passes iff the cursor holds the expected header, then moves it on by one line; otherwise fails with the line found and changes nothing. |
| HpoGeneAnnotations.HpoGeneAnnotationParser.Open | ontolib-io/src/main/java/com/github/phenomics/ontolib/io/obo/hpo/HpoGeneAnnotationParser.java:65-70 | Construction succeeds iff the first line is the expected header; the cursor then holds the second line. |
| HpoGeneAnnotations.HpoGeneAnnotationParser.HasNext | ontolib-io/src/main/java/com/github/phenomics/ontolib/io/obo/hpo/HpoGeneAnnotationParser.java:86-89 | True iff a line is left to parse (the cursor is not null). |
| HpoGeneAnnotations.HpoGeneAnnotationParser.Next | ontolib-io/src/main/java/com/github/phenomics/ontolib/io/obo/hpo/HpoGeneAnnotationParser.java:92-102 | Fails at the end of the file; otherwise returns the parse of the cursor line and, on success, advances by exactly one line. |
| HpoGeneAnnotations.ParseFile | ontolib-io/src/test/java/com/github/phenomics/ontolib/io/obo/hpo/HpoGeneAnnotationParserTest.java:37-51 | The usage loop: a header error, or after a good header exactly the parse of the lines after it, one annotation per line. |
| UphenoOboFactories.Lookup | ontolib-io/src/main/java/com/github/phenomics/ontolib/io/obo/upheno/UphenoOboFactory.java:72 | `termIds.get(key)`: the id stored under the key, or null. |
| UphenoOboFactories.GetCardinalityOneEntry | ontolib-io/src/main/java/com/github/phenomics/ontolib/io/obo/upheno/UphenoOboFactory.java:157-167 | Succeeds iff the tag is present with exactly one entry, returning it; fails with the tag and its count (or null) otherwise. |
| UphenoOboFactories.GetCardinalityZeroOrOneEntry | ontolib-io/src/main/java/com/github/phenomics/ontolib/io/obo/upheno/UphenoOboFactory.java:178-189 | Null iff the tag is absent; fails for a present list whose size is not 1 (0 included); otherwise returns the single entry. |
| UphenoOboFactories.CardinalitiesAgree | ontolib-io/src/main/java/com/github/phenomics/ontolib/io/obo/upheno/UphenoOboFactory.java:157-189 | Both helpers agree: exactly one entry is the success of the first and a present result of the second. |
| UphenoOboFactories.EntriesOf | ontolib-io/src/main/java/com/github/phenomics/ontolib/io/obo/upheno/UphenoOboFactory.java:78 | The entries of a tag, empty when the tag is absent, each of the kind that tag carries. |
| UphenoOboFactories.SynonymOf | ontolib-io/src/main/java/com/github/phenomics/ontolib/io/obo/upheno/UphenoOboFactory.java:108-119 | A synonym keeps the entry's text, scope and type name, with one cross reference per db xref, in order, its id looked up in the term ids. |
| UphenoOboFactories.CreationDateOf | ontolib-io/src/main/java/com/github/phenomics/ontolib/io/obo/upheno/UphenoOboFactory.java:130-143 | No date without the tag; with it, fails iff the date does not parse, else the parsed date. |
| UphenoOboFactories.ConstructTerm | ontolib-io/src/main/java/com/github/phenomics/ontolib/io/obo/upheno/UphenoOboFactory.java:69-147 | Succeeds iff the term ids are set, `id` and `name` occur exactly once, `def`, `comment`, `is_obsolete`, `created_by` and `creation_date` at most once, and any creation date parses; the checks fail in the source's order with the first failing tag. |
| UphenoOboFactories.ConstructTermIdName | ontolib-io/src/main/java/com/github/phenomics/ontolib/io/obo/upheno/UphenoOboFactory.java:71-75 | A constructed term's id is the looked-up `id` tag and its name the single `name` tag. |
| UphenoOboFactories.ConstructTermLists | ontolib-io/src/main/java/com/github/phenomics/ontolib/io/obo/upheno/UphenoOboFactory.java:77-120 | Absent `alt_id`, `subset` and `synonym` tags give empty lists; present ones are mapped element-wise, in order. |
| UphenoOboFactories.ConstructTermDefaults | ontolib-io/src/main/java/com/github/phenomics/ontolib/io/obo/upheno/UphenoOboFactory.java:86-143 | Absent `is_obsolete` gives false; absent `def`, `comment`, `created_by` and `creation_date` give null, present ones their value. |
| UphenoOboFactories.UphenoOboFactory.constructor | ontolib-io/src/main/java/com/github/phenomics/ontolib/io/obo/upheno/UphenoOboFactory.java:59-62 | No term ids yet and the relation counter at 1. |
| UphenoOboFactories.UphenoOboFactory.SetTermIds | ontolib-io/src/main/java/com/github/phenomics/ontolib/io/obo/upheno/UphenoOboFactory.java:64-67 | Stores the term ids and leaves the counter alone. |
| UphenoOboFactories.UphenoOboFactory.ConstructTermRelation | ontolib-io/src/main/java/com/github/phenomics/ontolib/io/obo/upheno/UphenoOboFactory.java:191-220 | An `is_a` entry gives the IS_A relation from the stanza's `id` to the entry's target with the current counter value, then increments the counter, so issued ids strictly increase from 1; every other relation tag fails as unsupported, and every failure leaves the counter unchanged. |

## Left out

- **Database writes.** JDBC in the H2 writer is not modelled: the connection, the
  table creation and drop, the INSERT statement and its `SQLException`s. The
  table is modelled as the list of rows the INSERT statement would receive. The
  unique index on (term count, object id) is not modelled either, so a repeated
  row is not rejected. The use of `conn` before it is assigned in
  `openConnection` belongs to this untouched I/O path.
- **File reading.** `BufferedReader`/`FileReader` and their `IOException`s are
  not modelled: a file is the sequence of its lines, and `close`/`getFile` are
  left out.
- **Opaque library calls.** `Integer.parseInt`, `Double.parseDouble`,
  `ImmutableTermId.constructWithPrefix`, `estimatePValue`, `observedScores` and
  date parsing are uninterpreted parameters; a parse failure is a `None` result.
  The internals of `ObjectScoreDistribution`, `ScoreDistribution` and
  `ImmutableTermId` are not part of this model.
- **Term-id order.** It is assumed to be lexicographic on prefix, then local id,
  as `String.compareTo` orders them.
- **Floating point.** Doubles are exact reals, so rounding in the resampling and
  in the normalized overlap is not modelled. The division by an empty smaller set
  in `computeScore` is modelled as NaN.
- **Integer overflow.** Java's 32-bit `int` wrap-around is not modelled: indices,
  distances, `resolution + 1` and `nextRelationId++` use unbounded integers.
- **Visitor callback.** The visitor's boolean result is not modelled. It only
  guards a `return` that is the last statement of the visit, so it changes
  nothing.
  - `TopologicalSorting.StartImpl` returns the visit sequence in place of
    calling a visitor.
  - `ShortestPaths.ShortestPathTable.PrecomputeDistances` runs the sort and then
    applies `BuildDistanceTableVertexVisitor.Visit` to the vertices in the
    returned order. This matches interleaved calls because the sort does not
    read the table. When the sort fails, the Java constructor throws and no
    table is observable.
- **Graph inputs.** The graph is a list of vertices and edges. The
  `DirectedGraph` implementation and its iterators are not part of this model.
  The set iteration orders of `HashSet`/`HashMap` are left open (any choice).
- **Build errors of the shortest-path table.** When the graph has both a cycle
  and an obsolete vertex, the model always reports the cycle, because it runs the
  sort before replaying the visits. In Java, whichever the interleaved visit meets
  first is thrown, so the contracts of `Create` and `PrecomputeDistances` allow
  either. The rows a failing `precomputeDistances` has already written are left
  unspecified.
- ShortestPaths.ShortestPathTable.SetDistance: requires both terms to be indexed.
  The `NullPointerException` its unboxing throws otherwise can only come from the
  first call in `visit`, and is modelled there, by
  `BuildDistanceTableVertexVisitor.Visit`.
- Ontologies.GetAncestors: with `t` the root and `includeRoot` false, the result
  leaves out `t` itself. `getAncestors`' documentation promises both "including
  itself" and "without the root", and says nothing about this case; the model lets
  the root exclusion win. `AncestorsContainTerm` is stated for every other case.
- **Query preconditions.** The ancestor queries require the given terms to be in
  the graph, and the ontology to be well-formed and acyclic. The Java interface
  leaves unknown ids unspecified.
- **The ontology test fixture.** The five-term ontology of the ontology tests is
  modelled for any five distinct term ids, not the concrete `HP:000000x` ids.
  Its `toString` output is left out.
- **String splitting.** `Text.Split` models `String.split` only for a single
  character that is not a regular-expression metacharacter (tab, `,`, `:`), which
  is all the readers use.
- **Stanza entry types.** Each stanza entry is assumed to carry the type of its tag
  (`UphenoOboFactories.WellTyped`), a precondition of `ConstructTerm`. The Java casts would otherwise throw
  `ClassCastException`.
- **Factory term ids.** `constructTerm` reads the factory's `termIds` field. It is
  modelled as a function of that field's value, where `None` stands for null and
  fails like the `NullPointerException` would.
- **Synonym scopes.** Synonym scopes are the four OBO 1.4 scopes.
- **Similarity getters.** `getName`, `getParameters` and `isSymmetric` are
  constant functions, stated through `TermOverlap.DefaultQueries` and
  `TermOverlap.ParametersShowFlag`.
- **Out of scope.** These parts are not modelled:
  - the OBO parser facades, the OBO lexer and grammar, and `HpoOntology`/`UphenoOntology`;
  - the other similarity measures (Resnik, Jiang, cosine, Jaccard, feature vectors);
  - data holders, exceptions and interfaces.

  They are delegation, file I/O, generated code, floating-point formulas over
  code that is not part of this model, or plain data.
- **TextFileScoreDistributionReading.ParseRow**
  - Its `ensures` does not spell out how the frequency pairs map to the table.
    That is stated by `ParsePair`, `ParseEachSpec`, `PutAllKeys` and
    `PutAllLastWins` over the same pieces.
  - Its error value for a malformed line is one of `MissingField`/`BadNumber`.
    Java's exception types are not distinguished further.

## Findings

| source | as written | input that shows it | evidently intended | confidence | as-written member | corrected member |
|---|---|---|---|---|---|---|
| ontolib-cli/src/main/java/com/github/phenomics/ontolib/cli/H2ScoreDistributionWriter.java:164-172 | With resolution 0, the copy loop never increments `i`, so every entry is written to index 0 | a cumulative-frequency table with two entries `{0.1: 0.5, 0.2: 1.0}` writes `scores = [0.2, 0.0]`, `pValues = [1.0, 0.0]` | `scores[k]` and `pValues[k]` are the k-th key and value of the table | not executed | H2ScoreDistributionWriting.AsWrittenLosesScores | H2ScoreDistributionWriting.CopyFrequencies |
| ontolib-cli/src/main/java/com/github/phenomics/ontolib/cli/TextFileScoreDistributionReader.java:121-128 | `readForTermCountAndObject` throws when the object's distribution is found and returns null when it is missing | a file holding a row for term count 2 and object 7, queried with `(2, 7)`, throws "Distribution not found" | return the distribution when found and throw when it is missing | not executed | TextFileScoreDistributionReading.AsWrittenNeverFinds | TextFileScoreDistributionReading.ForObject |

The writer is modelled as written: `ObjectRow`, `WriteObjectScoreDistribution`
and `Write` use the copying loop as written (`CopyFrequenciesAsWritten`). The
intended row is `CorrectedObjectRow`, whose arrays `CopyFrequencies` builds.
