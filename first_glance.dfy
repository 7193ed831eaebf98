/**
 * The whole analysis: read the files at the head commit, build the
 * co-change graph from the commit history, invert its weights into
 * distances, tally how often each file lies strictly inside the shortest
 * path between two others, and rank the files by that score.
 */
module FirstGlance {
  import opened Seqs
  import opened Graph
  import opened RepositoryInput
  import opened CoChange
  import opened Centrality
  import opened Ranking

  /** The graph the shortest paths are searched in: complete over the files, each edge at its distance. */
  ghost function FinalGraph(files: seq<Path>, history: seq<seq<Path>>): WeightedGraph
  {
    WeightedGraph(FileSet(files), map e | e in CompleteEdges(FileSet(files)) :: Distance(history, e))
  }

  /**
   * Between two different files the final graph has exactly one edge, at
   * distance 1 / (1 + 2c) where c is the number of commits that changed both
   * (when no commit lists a path twice); a file has no edge to itself.
   */
  lemma FinalGraphEdges(files: seq<Path>, history: seq<seq<Path>>, f: Path, g: Path)
    requires forall k :: 0 <= k < |history| ==> Distinct(history[k])
    ensures {f, g} in FinalGraph(files, history).weight <==> f in files && g in files && f != g
    ensures f in files && g in files && f != g ==>
      FinalGraph(files, history).weight[{f, g}] == 1.0 / (1.0 + (2 * CoChanges(history, f, g)) as real)
  {
    FinalGraphMembers(files, history, f, g);
    if f in files && g in files && f != g {
      PairDistance(history, f, g);
      assert FinalGraph(files, history).weight[{f, g}] == Distance(history, {f, g});
    }
  }

  lemma FinalGraphMembers(files: seq<Path>, history: seq<seq<Path>>, f: Path, g: Path)
    ensures {f, g} in FinalGraph(files, history).weight <==> {f, g} in CompleteEdges(FileSet(files))
    ensures {f, g} in FinalGraph(files, history).weight <==> f in files && g in files && f != g
  {
    CompleteEdgesMembers(FileSet(files), f, g);
  }

  /** The example of three files A, B, C and two commits {A, B} and {B, C}. */
  lemma ThreeFileExample()
    ensures Distance([["A", "B"], ["B", "C"]], {"A", "B"}) == 1.0 / 3.0
    ensures Distance([["A", "B"], ["B", "C"]], {"B", "C"}) == 1.0 / 3.0
    ensures Distance([["A", "B"], ["B", "C"]], {"A", "C"}) == 1.0
  {
    var history: seq<seq<Path>> := [["A", "B"], ["B", "C"]];
    assert history[..1] == [["A", "B"]];
    assert history[..1][..0] == [];
    HistoryIncrement(history, "A", "B");
    HistoryIncrement(history, "B", "C");
    HistoryIncrement(history, "A", "C");
  }

  /**
   * FirstGlance.java:56-70: every commit's changed paths raise the weights of the edges
   * they share, then every weight is replaced by its reciprocal.
   */
  method WeighAndInvert(graph: CoChangeGraph, files: seq<Path>, commits: seq<Commit>)
    requires graph.Valid() && IsCompleteAtDefault(graph.Snapshot(), files)
    modifies graph
    ensures graph.Valid()
    ensures graph.Snapshot() == FinalGraph(files, History(commits))
  {
    ghost var history := History(commits);
    RecordHistory(graph, commits);
    assert forall e | e in graph.weight :: graph.weight[e] == BuiltWeight(history, e);
    InvertWeights(graph);
    assert graph.weight.Keys == CompleteEdges(FileSet(files));
    assert forall e | e in graph.weight :: graph.weight[e] == Distance(history, e);
  }

  /**
   * The analysis of one repository. `headTree` lists the paths of the head
   * commit's tree, `commits` the commits reachable from it in walk order,
   * and `sp` is the shortest-path search. Returns the files in ranked order
   * and the score of each file.
   */
  method Analyze(headTree: seq<Path>, commits: seq<Commit>, sp: ShortestPath)
    returns (ranked: seq<Path>, scores: map<Path, int>)
    requires InteriorsScored(FinalGraph(NonTestPaths(headTree), History(commits)), sp,
                             NonTestPaths(headTree), FileSet(NonTestPaths(headTree)))
    ensures forall p :: p in scores <==> p in NonTestPaths(headTree)
    ensures forall p | p in scores ::
      scores[p] == CentralityScore(FinalGraph(NonTestPaths(headTree), History(commits)), sp, NonTestPaths(headTree), p)
    ensures AllScored(NonTestPaths(headTree), scores)
    ensures ranked == SortDesc(NonTestPaths(headTree), scores)
    ensures multiset(ranked) == multiset(NonTestPaths(headTree))
    ensures AllScored(ranked, scores) && SortedDesc(ranked, scores)
    ensures forall k :: WithScore(ranked, scores, k) == WithScore(NonTestPaths(headTree), scores, k)
  {
    // FirstGlance.java:41: the files of the head tree, test paths left out.
    var files := FilesInRepository(headTree);

    // FirstGlance.java:43-53: the complete graph over the files, and zero scores.
    var graph := BuildCompleteGraph(files);
    scores := InitialScores(files);

    // FirstGlance.java:56-70.
    WeighAndInvert(graph, files, commits);

    // FirstGlance.java:74-84.
    assert scores.Keys == FileSet(files);
    scores := TallyCentrality(graph.Snapshot(), sp, files, scores);

    // FirstGlance.java:86: the file list is sorted in place.
    var list := new Path[|files|](i requires 0 <= i < |files| => files[i]);
    assert list[..] == files;
    SortByScore(list, scores);
    ranked := list[..];

    SortDescPermutation(files, scores);
    SortDescSorted(files, scores);
    forall k ensures WithScore(ranked, scores, k) == WithScore(files, scores, k) {
      SortDescStable(files, scores, k);
    }
  }
}
