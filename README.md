# first-glance, modelled in Dafny

first-glance suggests where to start reading a code base. It looks at the
files of the head commit, leaving out every path that contains `test`. It
joins every pair of different files by an undirected edge of weight 1. For
each commit reachable from the head, every ordered pair of paths the commit
changed adds 1 to the weight of the edge between them. Every weight `w` is
then replaced by the distance `1 / w`, so files that change together end up
close. For every ordered pair of different files, a shortest path between
them is searched. Each file strictly inside that path gains one point. The
files are then sorted by descending score, stably (ties keep the head-tree
order).

The model follows the program's structure:

- `seqs.dfy` (`Seqs`): occurrence counting, repetition-free sequences and reversal.
- `repository_input.dfy` (`RepositoryInput`):
  - the test-path filter, built on a model of Java's `String.indexOf`;
  - the changed-path list of one commit: the whole tree for a root commit; otherwise one path per diff entry against the first parent, the old path for a deletion and the new path for anything else.
- `graph.dfy` (`Graph`): the weighted undirected graph, as a class.
  - An edge is the unordered pair of its end points, a two-element `set`.
  - `{f, f}` has one element, so a file never has an edge to itself.
  - The methods are the graph operations the program calls.
- `cochange.dfy` (`CoChange`):
  - building the complete graph and the zero scores;
  - the per-commit weight update over the commit history;
  - the inversion into distances.
- `centrality.dfy` (`Centrality`): the score tally over the shortest paths found.
- `ranking.dfy` (`Ranking`): the in-place stable sort by descending score.
- `first_glance.dfy` (`FirstGlance`): the whole analysis, composed from the above, and the closed form of the final graph.

Each imperative step is a method with loops, proved against a function that
specifies it. The properties the program relies on are lemmas about those
functions.

The weight update counts ordered pairs, as the code's double loop does:

- The loop visits both orientations (f, g) and (g, f) of an edge. When no commit lists a path twice, a commit that changes both files adds 2 to their edge, not 1 (`CoChange.CommitIncrement`). In general the edge gains count(f)·count(g) + count(g)·count(f), where count is the number of times the commit lists the path (`CoChange.PairHitsOfPair`): a commit listing [A, A, B] adds 4 to A–B.
- Take three files A, B, C and two commits that change {A, B} and {B, C}. Counting +1 per co-changing unordered pair would put A–B at distance 1/2. The code's loop over ordered pairs puts it at 1/3. `FirstGlance.ThreeFileExample` proves the 1/3.

## Model

| member | source | states |
|---|---|---|
| `RepositoryInput.IndexOfFrom` | src/main/java/com/jhonnold/firstglance/FirstGlance.java:102 | the result is -1 exactly when the pattern occurs at no position from the start point on; otherwise it is the first such position |
| `RepositoryInput.FilesInRepository` | src/main/java/com/jhonnold/firstglance/FirstGlance.java:93-108 | the one-pass loop over the head tree yields exactly `NonTestPaths(tree)` |
| `RepositoryInput.NonTestPathsCount` | src/main/java/com/jhonnold/firstglance/FirstGlance.java:101-105 | the filter keeps each path without `test` as often as the tree lists it and drops each path with `test` |
| `RepositoryInput.NonTestPathsMembers` | src/main/java/com/jhonnold/firstglance/FirstGlance.java:101-105 | a path is a file of the graph exactly when it is in the head tree and does not contain `test` |
| `RepositoryInput.NonTestPathsDistinct` | src/main/java/com/jhonnold/firstglance/FirstGlance.java:101-105 | a tree without repeated paths yields a file list without repeated paths |
| `RepositoryInput.EntryPaths` | src/main/java/com/jhonnold/firstglance/FirstGlance.java:136-143 | one path per diff entry, in order: the old path for a deletion, the new path otherwise |
| `RepositoryInput.RenameUsesNewPath` | src/main/java/com/jhonnold/firstglance/FirstGlance.java:140-142 | a renamed or copied file is counted under its new path only |
| `RepositoryInput.ChangedFilesInCommit` | src/main/java/com/jhonnold/firstglance/FirstGlance.java:110-150 | a root commit yields its whole tree; any other commit yields, per diff entry and in order, the old path of a deletion and the new path of anything else |
| `Graph.PairIsEdge` | src/main/java/com/jhonnold/firstglance/FirstGlance.java:51 | `{f, g}` is an edge over a vertex set exactly when both are vertices and `f != g`, so no loop is ever an edge |
| `Graph.PairEquality` | src/main/java/com/jhonnold/firstglance/FirstGlance.java:61 | two end-point pairs denote the same undirected edge exactly when they agree in either order |
| `Graph.CompleteEdgesCard` | src/main/java/com/jhonnold/firstglance/FirstGlance.java:49-53 | the complete graph on n vertices has n(n-1)/2 edges |
| `Graph.CompleteEdgesMembers` | src/main/java/com/jhonnold/firstglance/FirstGlance.java:49-53 | `{f, g}` is an edge of the complete graph exactly when both are vertices and differ |
| `Graph.CoChangeGraph.constructor` | src/main/java/com/jhonnold/firstglance/FirstGlance.java:43 | a new graph is empty: no vertices and no edges |
| `Graph.CoChangeGraph.AddVertex` | src/main/java/com/jhonnold/firstglance/FirstGlance.java:46 | the vertex set grows by the vertex (no change if it was there) and the edges are untouched |
| `Graph.CoChangeGraph.AddEdge` | src/main/java/com/jhonnold/firstglance/FirstGlance.java:51 | adds the edge at weight 1 unless it is already present, in which case nothing changes |
| `Graph.CoChangeGraph.GetEdge` | src/main/java/com/jhonnold/firstglance/FirstGlance.java:61-62 | returns the edge `{f, g}` when the graph has it, and nothing otherwise (in particular for `f == g` and for a path that is not a vertex) |
| `Graph.CoChangeGraph.SetEdgeWeight` | src/main/java/com/jhonnold/firstglance/FirstGlance.java:64 | the weight of that one edge is replaced and every other weight, and the vertex set, is unchanged |
| `CoChange.AddVertices` | src/main/java/com/jhonnold/firstglance/FirstGlance.java:46 | the vertex set becomes exactly the set of files, with no edges yet |
| `CoChange.AddEdgeUnlessSame` | src/main/java/com/jhonnold/firstglance/FirstGlance.java:50-51 | one step of the inner loop: the edges become those from `f` to every file up to the current one other than `f`, vertices unchanged, every weight still 1 |
| `CoChange.AddEdgesFrom` | src/main/java/com/jhonnold/firstglance/FirstGlance.java:50-52 | the inner loop for one file `f` adds exactly the edges from `f` to every other file, vertices unchanged, every weight still 1 |
| `CoChange.AddAllEdges` | src/main/java/com/jhonnold/firstglance/FirstGlance.java:49-53 | the double loop leaves exactly the complete graph over the files, every edge at weight 1 |
| `CoChange.BuildCompleteGraph` | src/main/java/com/jhonnold/firstglance/FirstGlance.java:43-53 | a fresh graph whose vertices are the files and whose edges are every pair of different files, at weight 1 |
| `CoChange.InitialScores` | src/main/java/com/jhonnold/firstglance/FirstGlance.java:44-47 | every file has score 0 and nothing else has a score |
| `CoChange.CompleteGraphShape` | src/main/java/com/jhonnold/firstglance/FirstGlance.java:43-53 | for n distinct files the start graph has n(n-1)/2 edges, joins exactly the pairs of different files and has no loop |
| `CoChange.PairHitsOfPair` | src/main/java/com/jhonnold/firstglance/FirstGlance.java:59-65 | the visits the double loop pays to edge {f, g} number count(f)·count(g) + count(g)·count(f) |
| `CoChange.CommitIncrement` | src/main/java/com/jhonnold/firstglance/FirstGlance.java:56-67 | with no repeated path, a commit adds 2 to an edge both of whose files it changed and 0 to every other edge |
| `CoChange.HistoryIncrement` | src/main/java/com/jhonnold/firstglance/FirstGlance.java:56-67 | when no commit lists a path twice, over the whole history an edge gains twice the number of commits that changed both of its files |
| `CoChange.RecordCoChanges` | src/main/java/com/jhonnold/firstglance/FirstGlance.java:59-66 | vertices and edge set unchanged; each edge's weight, read with `GetEdgeWeight`, gains exactly its number of visits from the commit's ordered path pairs |
| `CoChange.RecordHistory` | src/main/java/com/jhonnold/firstglance/FirstGlance.java:56-67 | vertices and edge set unchanged; each edge gains exactly its visits summed over every commit's changed paths |
| `CoChange.History` | src/main/java/com/jhonnold/firstglance/FirstGlance.java:56-57 | one changed-path list per commit, in walk order, each the one the commit-reading rule gives |
| `CoChange.PairDistance` | src/main/java/com/jhonnold/firstglance/FirstGlance.java:56-70 | with no repeated path per commit, two different files end at distance 1/(1+2c), where c counts the commits that changed both |
| `CoChange.BuiltWeight` | src/main/java/com/jhonnold/firstglance/FirstGlance.java:51-67 | a weight never drops below the starting weight 1 |
| `CoChange.Distance` | src/main/java/com/jhonnold/firstglance/FirstGlance.java:69-70 | every distance lies in (0, 1], so the reciprocal is always defined |
| `CoChange.InvertWeights` | src/main/java/com/jhonnold/firstglance/FirstGlance.java:69-72 | every edge weight w, read with `GetEdgeWeight`, becomes 1/w; edges and vertices unchanged; weights stay positive |
| `CoChange.DistanceAntitone` | src/main/java/com/jhonnold/firstglance/FirstGlance.java:64-70 | an edge with more visits is no longer than one with fewer |
| `CoChange.DistanceShrinks` | src/main/java/com/jhonnold/firstglance/FirstGlance.java:56-70 | reading one more commit never lengthens an edge |
| `CoChange.CoChangeOrdersDistance` | src/main/java/com/jhonnold/firstglance/FirstGlance.java:56-70 | when no commit lists a path twice, a pair of files that changed together in at least as many commits as another pair ends up no farther apart |
| `Centrality.CreditInterior` | src/main/java/com/jhonnold/firstglance/FirstGlance.java:79-81 | same score keys; each vertex gains its occurrences on the path, and the two end points gain nothing |
| `Centrality.TallyRow` | src/main/java/com/jhonnold/firstglance/FirstGlance.java:75-83 | same keys; each file gains its interior hits over the paths from one `f` to every other file |
| `Centrality.TallyCentrality` | src/main/java/com/jhonnold/firstglance/FirstGlance.java:74-84 | same keys; each score grows by exactly its interior hits over all ordered pairs of different files |
| `Centrality.InteriorHitsOnSimplePath` | src/main/java/com/jhonnold/firstglance/FirstGlance.java:79-80 | on a path without repeated vertices, exactly the interior vertices gain one point |
| `Centrality.CentralityZero` | src/main/java/com/jhonnold/firstglance/FirstGlance.java:74-84 | a file scores 0 exactly when it is interior to none of the paths found |
| `Centrality.ScoreBound` | src/main/java/com/jhonnold/firstglance/FirstGlance.java:74-84 | with simple paths and distinct files, a file scores at most (n-1)(n-2) |
| `Centrality.UnorderedTally` | src/main/java/com/jhonnold/firstglance/FirstGlance.java:74-84 | when the path for (g, f) is the reverse of the path for (f, g), every score is twice its tally over unordered pairs |
| `Ranking.InsertPermutation` | src/main/java/com/jhonnold/firstglance/FirstGlance.java:86 | inserting a file adds exactly that file to the multiset of files |
| `Ranking.InsertAtSplit` | src/main/java/com/jhonnold/firstglance/FirstGlance.java:86 | a file is inserted right after the files that tie or beat it, before the first one that scores less |
| `Ranking.InsertSorted` | src/main/java/com/jhonnold/firstglance/FirstGlance.java:86 | inserting into a list sorted by descending score keeps it sorted |
| `Ranking.InsertStable` | src/main/java/com/jhonnold/firstglance/FirstGlance.java:86 | inserting keeps the order of the files already there and places the new file last among its ties |
| `Ranking.SortDescSorted` | src/main/java/com/jhonnold/firstglance/FirstGlance.java:86 | the sorted list has non-increasing scores |
| `Ranking.SortDescPermutation` | src/main/java/com/jhonnold/firstglance/FirstGlance.java:86 | the sorted list is a permutation of the input |
| `Ranking.SortDescStable` | src/main/java/com/jhonnold/firstglance/FirstGlance.java:86 | for every score, the files with that score appear in their original order |
| `Ranking.InsertNext` | src/main/java/com/jhonnold/firstglance/FirstGlance.java:86 | one step of the in-place sort: the prefix becomes the insertion of the next file, and the rest of the array is untouched |
| `Ranking.SortByScore` | src/main/java/com/jhonnold/firstglance/FirstGlance.java:86 | sorts the array in place into exactly the stable descending sort of its old contents |
| `FirstGlance.FinalGraphEdges` | src/main/java/com/jhonnold/firstglance/FirstGlance.java:43-72 | the final graph joins exactly the pairs of different files; with no repeated path per commit, each edge is at distance 1/(1+2c), where c counts the commits that changed both files |
| `FirstGlance.ThreeFileExample` | src/main/java/com/jhonnold/firstglance/FirstGlance.java:56-72 | with commits {A, B} and {B, C}, A–B and B–C end at distance 1/3 and A–C at 1 |
| `FirstGlance.WeighAndInvert` | src/main/java/com/jhonnold/firstglance/FirstGlance.java:56-72 | from the start graph, reading the history and inverting gives exactly the final graph |
| `FirstGlance.Analyze` | src/main/java/com/jhonnold/firstglance/FirstGlance.java:41-86 | the scores are defined exactly on the files and equal the centrality in the final graph; the ranking is a permutation of the files, sorted by descending score and stable |

## Left out

- Opening the repository, walking commits and trees, and computing diffs with rename detection (FirstGlance.java:29-39, 96-99, 112-135) is done by the version-control library. The model takes their results as parameters: the head tree's paths, and per commit its parent count, tree paths and diff entries.
- RepositoryHelper.java is not part of this model.
- The shortest-path search is a parameter `sp`. The model does not prove that the path it returns is shortest, or which of several equally short paths it returns. Take a star pattern: one file changes with every other file in every commit, and no other pair ever changes together. That the hub then gains every point depends on the search's optimality, so it is not stated.
- `Analyze` requires that every interior vertex of a path found has a score entry. It always does when the search returns vertices of the graph. Otherwise the Java code fails on a missing map entry.
- `Centrality.ScoreBound` is stated only under the hypothesis that every path found visits no vertex twice. The model does not derive that from the search.
- `Centrality.UnorderedTally` is stated only under the hypothesis that the search returns reversed paths for reversed pairs. The library does not promise this when several paths tie.
- `CoChange.Distance`: weights and distances are exact reals. Rounding of Java `double` arithmetic is not modelled, so nothing is said about ties that rounding could create or break.
- Scores are unbounded integers. Java's `int` overflow of a score, and of the comparator `b - a` (FirstGlance.java:86), is not modelled. When paths are simple, scores stay at most (n-1)(n-2), so overflow needs tens of thousands of files.
- `Ranking.SortByScore` is an insertion sort. The Java library's merge sort is not modelled. The model keeps its contract: the same comparison, stable, in place.
- `Graph.CoChangeGraph.SetEdgeWeight` takes the edge rather than its two end points. The overload `setEdgeWeight(f, g, w)` (FirstGlance.java:64) sets the weight of `getEdge(f, g)`, which is the same edge.
- Swallowing every exception while reading a commit, and releasing the walk (FirstGlance.java:145-148), are not modelled. Nothing is read from the library beyond the parameters.
- Printing the ranked files (FirstGlance.java:88-90) is output only and is left out.
- Iteration order of the graph's edge set during inversion (FirstGlance.java:69) is not fixed. The model picks edges in any order, and the result does not depend on it.
