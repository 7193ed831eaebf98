/**
 * Building the co-change graph: one vertex per file, the complete set of
 * edges at the default weight, one increment per visit of an ordered pair
 * of changed files that the graph joins, and finally every weight replaced
 * by its reciprocal, so that files which often change together are close.
 */
module CoChange {
  import opened Seqs
  import opened Graph
  import RepositoryInput

  // ---------------------------------------------------------------------
  // Edge sets visited by the construction loops
  // ---------------------------------------------------------------------

  /** The edges between a file of `fs` and a different file of `gs`. */
  ghost function EdgesBetween(fs: seq<Path>, gs: seq<Path>): set<Edge>
  {
    set f, g | f in fs && g in gs && f != g :: {f, g}
  }

  /** The edges between `f` and a different file of `gs`. */
  ghost function EdgesFrom(f: Path, gs: seq<Path>): set<Edge>
  {
    set g | g in gs && g != f :: {f, g}
  }

  lemma EdgesFromStep(f: Path, gs: seq<Path>, j: nat)
    requires j < |gs|
    ensures EdgesFrom(f, gs[..j + 1]) == EdgesFrom(f, gs[..j]) + (if gs[j] != f then {{f, gs[j]}} else {})
  {
    assert gs[..j + 1] == gs[..j] + [gs[j]];
  }

  lemma EdgesBetweenStep(fs: seq<Path>, gs: seq<Path>, i: nat)
    requires i < |fs|
    ensures EdgesBetween(fs[..i + 1], gs) == EdgesBetween(fs[..i], gs) + EdgesFrom(fs[i], gs)
  {
    assert fs[..i + 1] == fs[..i] + [fs[i]];
    forall e | e in EdgesBetween(fs[..i + 1], gs)
      ensures e in EdgesBetween(fs[..i], gs) + EdgesFrom(fs[i], gs)
    {
      var f, g :| f in fs[..i + 1] && g in gs && f != g && e == {f, g};
      if f == fs[i] {
        assert e in EdgesFrom(fs[i], gs);
      } else {
        assert f in fs[..i];
      }
    }
  }

  /** The set of the files of a list. */
  ghost function FileSet(files: seq<Path>): set<Path>
  {
    set f | f in files
  }

  lemma EdgesBetweenAll(files: seq<Path>)
    ensures EdgesBetween(files, files) == CompleteEdges(FileSet(files))
  {
  }

  // ---------------------------------------------------------------------
  // FirstGlance.java:43-53: vertices, the complete set of edges, zero scores
  // ---------------------------------------------------------------------

  /** The graph before any commit is read: the complete graph over the files, every edge at weight 1. */
  ghost predicate IsCompleteAtDefault(graph: WeightedGraph, files: seq<Path>)
  {
    && graph.vertices == FileSet(files)
    && graph.weight.Keys == CompleteEdges(FileSet(files))
    && forall e | e in graph.weight :: graph.weight[e] == DefaultEdgeWeight
  }

  /**
   * Builds the graph the analysis starts from: every file becomes a vertex,
   * then every ordered pair of different files asks for an edge (the second
   * request for the same pair finds the edge there and changes nothing).
   */
  method BuildCompleteGraph(files: seq<Path>) returns (graph: CoChangeGraph)
    ensures fresh(graph)
    ensures graph.Valid()
    ensures IsCompleteAtDefault(graph.Snapshot(), files)
  {
    graph := new CoChangeGraph();
    AddVertices(graph, files);
    AddAllEdges(graph, files);
  }

  /** FirstGlance.java:46: every file becomes a vertex. */
  method AddVertices(graph: CoChangeGraph, files: seq<Path>)
    requires graph.Valid()
    requires graph.vertices == {} && graph.weight == map[]
    modifies graph
    ensures graph.Valid()
    ensures graph.vertices == FileSet(files) && graph.weight == map[]
  {
    for i := 0 to |files|
      invariant graph.Valid()
      invariant graph.vertices == FileSet(files[..i])
      invariant graph.weight == map[]
    {
      assert files[..i + 1] == files[..i] + [files[i]];
      graph.AddVertex(files[i]);
    }
    assert files[..|files|] == files;
  }

  /** FirstGlance.java:49-53: every ordered pair of different files asks for an edge. */
  method AddAllEdges(graph: CoChangeGraph, files: seq<Path>)
    requires graph.Valid()
    requires graph.vertices == FileSet(files) && graph.weight == map[]
    modifies graph
    ensures graph.Valid()
    ensures IsCompleteAtDefault(graph.Snapshot(), files)
  {
    for i := 0 to |files|
      invariant graph.Valid()
      invariant graph.vertices == FileSet(files)
      invariant graph.weight.Keys == EdgesBetween(files[..i], files)
      invariant forall e | e in graph.weight :: graph.weight[e] == DefaultEdgeWeight
    {
      AddEdgesFrom(graph, files, i);
      EdgesBetweenStep(files, files, i);
    }
    assert files[..|files|] == files;
    EdgesBetweenAll(files);
  }

  /** FirstGlance.java:50-52: the inner loop, for the file at position `i`. */
  method AddEdgesFrom(graph: CoChangeGraph, files: seq<Path>, i: nat)
    requires i < |files|
    requires graph.Valid()
    requires graph.vertices == FileSet(files)
    requires forall e | e in graph.weight :: graph.weight[e] == DefaultEdgeWeight
    modifies graph
    ensures graph.Valid()
    ensures graph.vertices == FileSet(files)
    ensures graph.weight.Keys == old(graph.weight.Keys) + EdgesFrom(files[i], files)
    ensures forall e | e in graph.weight :: graph.weight[e] == DefaultEdgeWeight
  {
    var f := files[i];
    ghost var start := graph.weight.Keys;
    assert EdgesFrom(f, files[..0]) == {};
    for j := 0 to |files|
      invariant graph.Valid()
      invariant graph.vertices == FileSet(files)
      invariant graph.weight.Keys == start + EdgesFrom(f, files[..j])
      invariant forall e | e in graph.weight :: graph.weight[e] == DefaultEdgeWeight
    {
      AddEdgeUnlessSame(graph, files, f, j, start);
    }
    assert files[..|files|] == files;
  }

  /**
   * FirstGlance.java:51, for the file at position `j`: asks for the edge between `f`
   * and it unless they are the same file.
   */
  method AddEdgeUnlessSame(graph: CoChangeGraph, files: seq<Path>, f: Path, j: nat, ghost start: set<Edge>)
    requires j < |files|
    requires graph.Valid()
    requires graph.vertices == FileSet(files) && f in graph.vertices
    requires graph.weight.Keys == start + EdgesFrom(f, files[..j])
    requires forall e | e in graph.weight :: graph.weight[e] == DefaultEdgeWeight
    modifies graph
    ensures graph.Valid()
    ensures graph.vertices == old(graph.vertices)
    ensures graph.weight.Keys == start + EdgesFrom(f, files[..j + 1])
    ensures forall e | e in graph.weight :: graph.weight[e] == DefaultEdgeWeight
  {
    EdgesFromStep(f, files, j);
    var g := files[j];
    if f != g {
      assert g in graph.vertices;
      graph.AddEdge(f, g);
    }
  }

  /** Every file starts with score 0. */
  method InitialScores(files: seq<Path>) returns (scores: map<Path, int>)
    ensures forall p :: p in scores <==> p in files
    ensures forall p | p in scores :: scores[p] == 0
  {
    scores := map[];
    for i := 0 to |files|
      invariant forall p :: p in scores <==> p in files[..i]
      invariant forall p | p in scores :: scores[p] == 0
    {
      assert files[..i + 1] == files[..i] + [files[i]];
      scores := scores[files[i] := 0];
    }
    assert files[..|files|] == files;
  }

  /** The graph just built has n(n-1)/2 edges for n distinct files, each at weight 1, and no loop. */
  lemma CompleteGraphShape(graph: WeightedGraph, files: seq<Path>)
    requires Distinct(files)
    requires IsCompleteAtDefault(graph, files)
    ensures 2 * |graph.weight| == |files| * (|files| - 1)
    ensures forall f, g :: {f, g} in graph.weight <==> f in files && g in files && f != g
    ensures forall f :: {f} !in graph.weight
  {
    CompleteEdgesCard(FileSet(files));
    DistinctFileSet(files);
    assert graph.weight.Keys == CompleteEdges(FileSet(files));
    forall f, g ensures {f, g} in graph.weight <==> f in files && g in files && f != g {
      CompleteEdgesMembers(FileSet(files), f, g);
    }
    forall f ensures {f} !in graph.weight {
      CompleteEdgesMembers(FileSet(files), f, f);
      assert {f, f} == {f};
    }
  }

  /** A list without repetitions has as many files as its set. */
  lemma {:induction false} DistinctFileSet(files: seq<Path>)
    requires Distinct(files)
    ensures |FileSet(files)| == |files|
  {
    if files != [] {
      var init, last := files[..|files| - 1], files[|files| - 1];
      assert Distinct(init);
      DistinctFileSet(init);
      forall i | 0 <= i < |init| ensures init[i] != last {
        assert init[i] == files[i];
      }
      assert files == init + [last];
      assert FileSet(files) == FileSet(init) + {last};
    }
  }

  // ---------------------------------------------------------------------
  // FirstGlance.java:56-67: counting co-changes
  // ---------------------------------------------------------------------

  /** How many `y` of `ys` make `{x, y}` the edge `e`. */
  function RowHits(x: Path, ys: seq<Path>, e: Edge): nat
  {
    if ys == [] then 0
    else RowHits(x, ys[..|ys| - 1], e) + (if {x, ys[|ys| - 1]} == e then 1 else 0)
  }

  /** How many ordered pairs `(x, y)` of `xs` by `ys` have `e` as their edge. */
  function PairHits(xs: seq<Path>, ys: seq<Path>, e: Edge): nat
  {
    if xs == [] then 0
    else PairHits(xs[..|xs| - 1], ys, e) + RowHits(xs[|xs| - 1], ys, e)
  }

  /** How often the edge `e` is incremented while the changed-path lists of `history` are read. */
  function TotalHits(history: seq<seq<Path>>, e: Edge): nat
  {
    if history == [] then 0
    else TotalHits(history[..|history| - 1], e) + PairHits(history[|history| - 1], history[|history| - 1], e)
  }

  /** The number of change lists that name both `f` and `g`. */
  function CoChanges(history: seq<seq<Path>>, f: Path, g: Path): nat
  {
    if history == [] then 0
    else CoChanges(history[..|history| - 1], f, g)
         + (if f in history[|history| - 1] && g in history[|history| - 1] then 1 else 0)
  }

  lemma {:induction false} RowHitsOfPair(x: Path, ys: seq<Path>, f: Path, g: Path)
    requires f != g
    ensures RowHits(x, ys, {f, g}) == if x == f then Count(ys, g) else if x == g then Count(ys, f) else 0
  {
    if ys != [] {
      var init, last := ys[..|ys| - 1], ys[|ys| - 1];
      RowHitsOfPair(x, init, f, g);
      PairEquality(x, last, f, g);
    }
  }

  /**
   * Each ordered pair is visited once, and the pair and its reverse name the
   * same edge: the edge between two different files gains
   * count(f) * count(g) from the pairs (f, g) and as much again from (g, f).
   */
  lemma {:induction false} PairHitsOfPair(xs: seq<Path>, ys: seq<Path>, f: Path, g: Path)
    requires f != g
    ensures PairHits(xs, ys, {f, g}) == Count(xs, f) * Count(ys, g) + Count(xs, g) * Count(ys, f)
  {
    if xs != [] {
      var init, last := xs[..|xs| - 1], xs[|xs| - 1];
      PairHitsOfPair(init, ys, f, g);
      RowHitsOfPair(last, ys, f, g);
      var a, b := Count(init, f), Count(init, g);
      var cf, cg := Count(ys, f), Count(ys, g);
      var a', b' := Count(xs, f), Count(xs, g);
      assert a' == a + (if last == f then 1 else 0);
      assert b' == b + (if last == g then 1 else 0);
      var row := RowHits(last, ys, {f, g});
      assert PairHits(xs, ys, {f, g}) == a * cg + b * cf + row;
      ProductStep(a, cg, last == f);
      ProductStep(b, cf, last == g);
    }
  }

  lemma ProductStep(a: int, c: int, step: bool)
    ensures (a + (if step then 1 else 0)) * c == a * c + (if step then c else 0)
  {
    if step {
      assert (a + 1) * c == a * c + c;
    }
  }

  /**
   * One commit whose changed-path list has no repetitions adds exactly 2 to
   * the edge between two different changed files, and nothing to an edge
   * one of whose ends it did not change.
   */
  lemma CommitIncrement(changed: seq<Path>, f: Path, g: Path)
    requires Distinct(changed) && f != g
    ensures PairHits(changed, changed, {f, g}) == if f in changed && g in changed then 2 else 0
  {
    PairHitsOfPair(changed, changed, f, g);
    CountDistinct(changed, f);
    CountDistinct(changed, g);
  }

  /** Over a history of repetition-free change lists, an edge gains 2 per commit that changed both its ends. */
  lemma {:induction false} HistoryIncrement(history: seq<seq<Path>>, f: Path, g: Path)
    requires forall k :: 0 <= k < |history| ==> Distinct(history[k])
    requires f != g
    ensures TotalHits(history, {f, g}) == 2 * CoChanges(history, f, g)
  {
    if history != [] {
      var init := history[..|history| - 1];
      assert forall k :: 0 <= k < |init| ==> init[k] == history[k];
      HistoryIncrement(init, f, g);
      CommitIncrement(history[|history| - 1], f, g);
    }
  }

  /** The weight of an edge once the whole history is read, before inversion. */
  function BuiltWeight(history: seq<seq<Path>>, e: Edge): (w: real)
    ensures w >= DefaultEdgeWeight
  {
    DefaultEdgeWeight + TotalHits(history, e) as real
  }

  /** The distance an edge ends up with: the reciprocal of its built weight. */
  function Distance(history: seq<seq<Path>>, e: Edge): (d: real)
    ensures 0.0 < d <= 1.0
  {
    1.0 / BuiltWeight(history, e)
  }

  /** With repetition-free change lists, two different files end at distance 1 / (1 + 2c), c their co-changes. */
  lemma PairDistance(history: seq<seq<Path>>, f: Path, g: Path)
    requires forall k :: 0 <= k < |history| ==> Distinct(history[k])
    requires f != g
    ensures Distance(history, {f, g}) == 1.0 / (1.0 + (2 * CoChanges(history, f, g)) as real)
  {
    HistoryIncrement(history, f, g);
    var w := BuiltWeight(history, {f, g});
    assert w == 1.0 + (2 * CoChanges(history, f, g)) as real;
    assert Distance(history, {f, g}) == 1.0 / w;
  }

  lemma ReciprocalAntitone(a: real, b: real)
    requires 0.0 < a <= b
    ensures 1.0 / b <= 1.0 / a
  {
    assert 1.0 / b * b == 1.0;
    assert 1.0 / a * a == 1.0;
    assert 1.0 / b * a <= 1.0 / b * b;
  }

  /** An edge incremented more often is at least as short. */
  lemma DistanceAntitone(history: seq<seq<Path>>, e1: Edge, e2: Edge)
    requires TotalHits(history, e1) >= TotalHits(history, e2)
    ensures Distance(history, e1) <= Distance(history, e2)
  {
    ReciprocalAntitone(BuiltWeight(history, e2), BuiltWeight(history, e1));
  }

  /** Reading one more commit never makes an edge longer. */
  lemma DistanceShrinks(history: seq<seq<Path>>, changed: seq<Path>, e: Edge)
    ensures Distance(history + [changed], e) <= Distance(history, e)
  {
    assert (history + [changed])[..|history|] == history;
    ReciprocalAntitone(BuiltWeight(history, e), BuiltWeight(history + [changed], e));
  }

  /**
   * With repetition-free change lists, a pair of files that changed together
   * in at least as many commits as another pair ends up no farther apart.
   */
  lemma CoChangeOrdersDistance(history: seq<seq<Path>>, f1: Path, g1: Path, f2: Path, g2: Path)
    requires forall k :: 0 <= k < |history| ==> Distinct(history[k])
    requires f1 != g1 && f2 != g2
    requires CoChanges(history, f1, g1) >= CoChanges(history, f2, g2)
    ensures Distance(history, {f1, g1}) <= Distance(history, {f2, g2})
  {
    HistoryIncrement(history, f1, g1);
    HistoryIncrement(history, f2, g2);
    DistanceAntitone(history, {f1, g1}, {f2, g2});
  }

  /**
   * One commit's update: every ordered pair of its changed paths is looked
   * up; a pair the graph does not join (the same path twice, or a path that
   * is not a vertex) is skipped, and every other visit adds 1 to its edge.
   */
  method RecordCoChanges(graph: CoChangeGraph, changed: seq<Path>)
    requires graph.Valid()
    modifies graph
    ensures graph.Valid()
    ensures graph.vertices == old(graph.vertices)
    ensures graph.weight.Keys == old(graph.weight.Keys)
    ensures forall e | e in graph.weight :: graph.weight[e] == old(graph.weight[e]) + PairHits(changed, changed, e) as real
  {
    for i := 0 to |changed|
      invariant graph.Valid()
      invariant graph.vertices == old(graph.vertices)
      invariant graph.weight.Keys == old(graph.weight.Keys)
      invariant forall e | e in graph.weight ::
        graph.weight[e] == old(graph.weight[e]) + PairHits(changed[..i], changed, e) as real
    {
      var f := changed[i];
      assert changed[..i + 1][..i] == changed[..i];
      for j := 0 to |changed|
        invariant graph.Valid()
        invariant graph.vertices == old(graph.vertices)
        invariant graph.weight.Keys == old(graph.weight.Keys)
        invariant forall e | e in graph.weight ::
          graph.weight[e] == old(graph.weight[e]) + (PairHits(changed[..i], changed, e) + RowHits(f, changed[..j], e)) as real
      {
        var g := changed[j];
        assert changed[..j + 1][..j] == changed[..j];
        var edge := graph.GetEdge(f, g);
        if edge.None? {
          continue;
        }
        graph.SetEdgeWeight(edge.value, graph.GetEdgeWeight(edge.value) + 1.0);
      }
      assert changed[..|changed|] == changed;
    }
    assert changed[..|changed|] == changed;
  }

  /** The changed-path lists of a commit history, in order. */
  function History(commits: seq<RepositoryInput.Commit>): (h: seq<seq<Path>>)
    ensures |h| == |commits|
    ensures forall k :: 0 <= k < |commits| ==> h[k] == RepositoryInput.ChangedPaths(commits[k])
  {
    if commits == [] then []
    else History(commits[..|commits| - 1]) + [RepositoryInput.ChangedPaths(commits[|commits| - 1])]
  }

  /** The loop over the commit history: each commit's changed paths update the graph in turn. */
  method RecordHistory(graph: CoChangeGraph, commits: seq<RepositoryInput.Commit>)
    requires graph.Valid()
    modifies graph
    ensures graph.Valid()
    ensures graph.vertices == old(graph.vertices)
    ensures graph.weight.Keys == old(graph.weight.Keys)
    ensures forall e | e in graph.weight :: graph.weight[e] == old(graph.weight[e]) + TotalHits(History(commits), e) as real
  {
    for k := 0 to |commits|
      invariant graph.Valid()
      invariant graph.vertices == old(graph.vertices)
      invariant graph.weight.Keys == old(graph.weight.Keys)
      invariant forall e | e in graph.weight ::
        graph.weight[e] == old(graph.weight[e]) + TotalHits(History(commits[..k]), e) as real
    {
      var changed := RepositoryInput.ChangedFilesInCommit(commits[k]);
      assert commits[..k + 1][..k] == commits[..k];
      RecordCoChanges(graph, changed);
    }
    assert commits[..|commits|] == commits;
  }

  // ---------------------------------------------------------------------
  // FirstGlance.java:69-70: inversion
  // ---------------------------------------------------------------------

  /** Every edge weight is positive. */
  ghost predicate PositiveWeights(graph: WeightedGraph)
  {
    forall e | e in graph.weight :: graph.weight[e] > 0.0
  }

  /** Replaces every edge weight `w` by `1 / w`. */
  method InvertWeights(graph: CoChangeGraph)
    requires graph.Valid()
    requires PositiveWeights(graph.Snapshot())
    modifies graph
    ensures graph.Valid()
    ensures PositiveWeights(graph.Snapshot())
    ensures graph.vertices == old(graph.vertices)
    ensures graph.weight.Keys == old(graph.weight.Keys)
    ensures forall e | e in graph.weight :: graph.weight[e] == 1.0 / old(graph.weight[e])
  {
    var pending := graph.weight.Keys;
    while pending != {}
      invariant graph.Valid()
      invariant graph.vertices == old(graph.vertices)
      invariant graph.weight.Keys == old(graph.weight.Keys)
      invariant pending <= graph.weight.Keys
      invariant forall e | e in pending :: graph.weight[e] == old(graph.weight[e])
      invariant forall e | e in graph.weight && e !in pending :: graph.weight[e] == 1.0 / old(graph.weight[e])
      decreases pending
    {
      var edge :| edge in pending;
      graph.SetEdgeWeight(edge, 1.0 / graph.GetEdgeWeight(edge));
      pending := pending - {edge};
    }
  }
}
