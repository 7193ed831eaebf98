/**
 * The centrality tally: for every ordered pair of different files, a
 * shortest path between them is asked for, and each vertex on it other than
 * the two end points gains one point.
 */
module Centrality {
  import opened Seqs
  import opened Graph

  /**
   * The shortest-path search run on the finished graph: given the graph and
   * two different vertices, the vertex list of a path from the first to
   * the second. Which path it picks among equally short ones is up to it.
   */
  type ShortestPath = (WeightedGraph, Path, Path) -> seq<Path>

  /** The points `p` gains from the path found for the pair (f, g): once per occurrence, unless it is an end point. */
  function InteriorHits(path: seq<Path>, f: Path, g: Path, p: Path): nat
  {
    if p == f || p == g then 0 else Count(path, p)
  }

  /** The points `p` gains from the pairs (f, g) with g taken from `gs` and different from f. */
  function RowGain(graph: WeightedGraph, sp: ShortestPath, f: Path, gs: seq<Path>, p: Path): nat
  {
    if gs == [] then 0
    else
      var g := gs[|gs| - 1];
      RowGain(graph, sp, f, gs[..|gs| - 1], p) + (if f != g then InteriorHits(sp(graph, f, g), f, g, p) else 0)
  }

  /** The points `p` gains from the pairs (f, g), f from `fs`, g from `gs`, f and g different. */
  function Gain(graph: WeightedGraph, sp: ShortestPath, fs: seq<Path>, gs: seq<Path>, p: Path): nat
  {
    if fs == [] then 0
    else Gain(graph, sp, fs[..|fs| - 1], gs, p) + RowGain(graph, sp, fs[|fs| - 1], gs, p)
  }

  /** The final score of `p`: its points over all ordered pairs of different files. */
  function CentralityScore(graph: WeightedGraph, sp: ShortestPath, files: seq<Path>, p: Path): nat
  {
    Gain(graph, sp, files, files, p)
  }

  /** `p` lies on the path found for (f, g) without being one of its ends. */
  predicate IsInterior(graph: WeightedGraph, sp: ShortestPath, f: Path, g: Path, p: Path)
  {
    f != g && p != f && p != g && p in sp(graph, f, g)
  }

  /** Every vertex that can gain a point has a score entry. */
  ghost predicate InteriorsScored(graph: WeightedGraph, sp: ShortestPath, files: seq<Path>, keys: set<Path>)
  {
    forall f, g, v :: f in files && g in files && IsInterior(graph, sp, f, g, v) ==> v in keys
  }

  /** Every path found between two different files visits no vertex twice. */
  ghost predicate SimplePaths(graph: WeightedGraph, sp: ShortestPath, files: seq<Path>)
  {
    forall f, g :: f in files && g in files && f != g ==> Distinct(sp(graph, f, g))
  }

  // ---------------------------------------------------------------------
  // FirstGlance.java:79-80: crediting the interior of one path
  // ---------------------------------------------------------------------

  /** Walks one path and adds 1 to every vertex on it that is neither `f` nor `g`. */
  method CreditInterior(scores: map<Path, int>, path: seq<Path>, f: Path, g: Path) returns (result: map<Path, int>)
    requires forall v :: v in path && v != f && v != g ==> v in scores
    ensures result.Keys == scores.Keys
    ensures forall p | p in result :: result[p] == scores[p] + InteriorHits(path, f, g, p)
  {
    result := scores;
    for k := 0 to |path|
      invariant result.Keys == scores.Keys
      invariant forall p | p in result :: result[p] == scores[p] + InteriorHits(path[..k], f, g, p)
    {
      assert path[..k + 1][..k] == path[..k];
      var v := path[k];
      if v != f && v != g {
        result := result[v := result[v] + 1];
      }
    }
    assert path[..|path|] == path;
  }

  /** FirstGlance.java:75-83 for one `f`: every different `g` of `gs` asks for a path and credits its interior. */
  method TallyRow(graph: WeightedGraph, sp: ShortestPath, files: seq<Path>, f: Path, scores: map<Path, int>)
    returns (result: map<Path, int>)
    requires f in files
    requires InteriorsScored(graph, sp, files, scores.Keys)
    ensures result.Keys == scores.Keys
    ensures forall p | p in result :: result[p] == scores[p] + RowGain(graph, sp, f, files, p)
  {
    result := scores;
    for j := 0 to |files|
      invariant result.Keys == scores.Keys
      invariant forall p | p in result :: result[p] == scores[p] + RowGain(graph, sp, f, files[..j], p)
    {
      var g := files[j];
      assert files[..j + 1][..j] == files[..j];
      if f != g {
        var path := sp(graph, f, g);
        assert forall v :: v in path && v != f && v != g ==> IsInterior(graph, sp, f, g, v);
        result := CreditInterior(result, path, f, g);
      }
    }
    assert files[..|files|] == files;
  }

  /** FirstGlance.java:74-84: the tally over every ordered pair of different files. */
  method TallyCentrality(graph: WeightedGraph, sp: ShortestPath, files: seq<Path>, scores: map<Path, int>)
    returns (result: map<Path, int>)
    requires InteriorsScored(graph, sp, files, scores.Keys)
    ensures result.Keys == scores.Keys
    ensures forall p | p in result :: result[p] == scores[p] + CentralityScore(graph, sp, files, p)
  {
    result := scores;
    for i := 0 to |files|
      invariant result.Keys == scores.Keys
      invariant forall p | p in result :: result[p] == scores[p] + Gain(graph, sp, files[..i], files, p)
    {
      assert files[..i + 1][..i] == files[..i];
      result := TallyRow(graph, sp, files, files[i], result);
    }
    assert files[..|files|] == files;
  }

  // ---------------------------------------------------------------------
  // What the tally means
  // ---------------------------------------------------------------------

  /**
   * On a path without repeated vertices, exactly the vertices other than the
   * two end points gain one point; the end points and every vertex off the
   * path gain nothing.
   */
  lemma InteriorHitsOnSimplePath(path: seq<Path>, f: Path, g: Path, p: Path)
    requires Distinct(path)
    ensures InteriorHits(path, f, g, p) == if p in path && p != f && p != g then 1 else 0
  {
    CountDistinct(path, p);
  }

  lemma {:induction false} RowGainZero(graph: WeightedGraph, sp: ShortestPath, f: Path, gs: seq<Path>, p: Path)
    ensures RowGain(graph, sp, f, gs, p) == 0 <==> forall g :: g in gs ==> !IsInterior(graph, sp, f, g, p)
  {
    if gs != [] {
      var init, last := gs[..|gs| - 1], gs[|gs| - 1];
      RowGainZero(graph, sp, f, init, p);
      assert gs == init + [last];
      var term := if f != last then InteriorHits(sp(graph, f, last), f, last, p) else 0;
      assert term == 0 <==> !IsInterior(graph, sp, f, last, p);
      assert RowGain(graph, sp, f, gs, p) == RowGain(graph, sp, f, init, p) + term;
      assert (forall g :: g in gs ==> !IsInterior(graph, sp, f, g, p)) <==>
        (forall g :: g in init ==> !IsInterior(graph, sp, f, g, p)) && !IsInterior(graph, sp, f, last, p);
    }
  }

  lemma {:induction false} GainZero(graph: WeightedGraph, sp: ShortestPath, fs: seq<Path>, gs: seq<Path>, p: Path)
    ensures Gain(graph, sp, fs, gs, p) == 0 <==>
      forall f, g :: f in fs && g in gs ==> !IsInterior(graph, sp, f, g, p)
  {
    if fs != [] {
      var init, last := fs[..|fs| - 1], fs[|fs| - 1];
      GainZero(graph, sp, init, gs, p);
      RowGainZero(graph, sp, last, gs, p);
      assert fs == init + [last];
    }
  }

  /** A file scores 0 exactly when it is interior to none of the paths found. */
  lemma CentralityZero(graph: WeightedGraph, sp: ShortestPath, files: seq<Path>, p: Path)
    ensures CentralityScore(graph, sp, files, p) == 0 <==>
      forall f, g :: f in files && g in files ==> !IsInterior(graph, sp, f, g, p)
  {
    GainZero(graph, sp, files, files, p);
  }

  /** How many entries of `gs` are neither `f` nor `p`. */
  function CountOthers(gs: seq<Path>, f: Path, p: Path): nat
  {
    if gs == [] then 0
    else CountOthers(gs[..|gs| - 1], f, p) + (if gs[|gs| - 1] != f && gs[|gs| - 1] != p then 1 else 0)
  }

  lemma {:induction false} CountOthersValue(gs: seq<Path>, f: Path, p: Path)
    requires f != p
    ensures CountOthers(gs, f, p) == |gs| - Count(gs, f) - Count(gs, p)
  {
    if gs != [] {
      CountOthersValue(gs[..|gs| - 1], f, p);
    }
  }

  /** With simple paths, one row gives `p` at most one point per partner that is neither end. */
  lemma {:induction false} RowGainBound(graph: WeightedGraph, sp: ShortestPath, files: seq<Path>, f: Path, gs: seq<Path>, p: Path)
    requires SimplePaths(graph, sp, files)
    requires f in files && forall g :: g in gs ==> g in files
    ensures RowGain(graph, sp, f, gs, p) <= if f == p then 0 else CountOthers(gs, f, p)
  {
    if gs != [] {
      var init, last := gs[..|gs| - 1], gs[|gs| - 1];
      assert forall g :: g in init ==> g in gs;
      RowGainBound(graph, sp, files, f, init, p);
      if f != last {
        InteriorHitsOnSimplePath(sp(graph, f, last), f, last, p);
      }
    }
  }

  lemma {:induction false} GainBound(graph: WeightedGraph, sp: ShortestPath, files: seq<Path>, fs: seq<Path>, p: Path)
    requires SimplePaths(graph, sp, files)
    requires Distinct(files) && p in files
    requires forall f :: f in fs ==> f in files
    ensures Gain(graph, sp, fs, files, p) <= (|fs| - Count(fs, p)) * (|files| - 2)
  {
    if fs != [] {
      var init, last := fs[..|fs| - 1], fs[|fs| - 1];
      assert forall f :: f in init ==> f in fs;
      GainBound(graph, sp, files, init, p);
      RowGainBound(graph, sp, files, last, files, p);
      var k := |init| - Count(init, p);
      if last != p {
        RowGainAtMost(graph, sp, files, last, p);
        MulSucc(k, |files| - 2);
      }
    }
  }

  /** One row gives a file `p` at most n - 2 points when the row's file is another file. */
  lemma RowGainAtMost(graph: WeightedGraph, sp: ShortestPath, files: seq<Path>, f: Path, p: Path)
    requires Distinct(files) && f in files && p in files && f != p
    requires RowGain(graph, sp, f, files, p) <= CountOthers(files, f, p)
    ensures RowGain(graph, sp, f, files, p) <= |files| - 2
  {
    CountOthersValue(files, f, p);
    CountDistinct(files, f);
    CountDistinct(files, p);
  }

  lemma MulSucc(k: int, m: int)
    ensures (k + 1) * m == k * m + m
  {
  }

  /**
   * When every path found visits no vertex twice, a file's final score is at
   * most (n-1)(n-2): the number of ordered pairs of different files that
   * leave it out.
   */
  lemma ScoreBound(graph: WeightedGraph, sp: ShortestPath, files: seq<Path>, p: Path)
    requires SimplePaths(graph, sp, files)
    requires Distinct(files) && p in files
    ensures CentralityScore(graph, sp, files, p) <= (|files| - 1) * (|files| - 2)
  {
    GainBound(graph, sp, files, files, p);
    CountDistinct(files, p);
  }

  // ---------------------------------------------------------------------
  // Both orientations of a pair
  // ---------------------------------------------------------------------

  /** The path found for (g, f) is the one found for (f, g), walked backwards. */
  ghost predicate ReversiblePaths(graph: WeightedGraph, sp: ShortestPath, files: seq<Path>)
  {
    forall f, g :: f in files && g in files && f != g ==> sp(graph, g, f) == Reverse(sp(graph, f, g))
  }

  /** The points `p` gains from the pairs (f, g), f from `fs`, for one fixed `g`. */
  function ColumnGain(graph: WeightedGraph, sp: ShortestPath, fs: seq<Path>, g: Path, p: Path): nat
  {
    if fs == [] then 0
    else
      var f := fs[|fs| - 1];
      ColumnGain(graph, sp, fs[..|fs| - 1], g, p) + (if f != g then InteriorHits(sp(graph, f, g), f, g, p) else 0)
  }

  /** The points `p` gains from each unordered pair of entries of `fs`, counted once. */
  function UnorderedGain(graph: WeightedGraph, sp: ShortestPath, fs: seq<Path>, p: Path): nat
  {
    if fs == [] then 0
    else UnorderedGain(graph, sp, fs[..|fs| - 1], p) + RowGain(graph, sp, fs[|fs| - 1], fs[..|fs| - 1], p)
  }

  lemma {:induction false} GainSnocColumn(graph: WeightedGraph, sp: ShortestPath, fs: seq<Path>, gs: seq<Path>, y: Path, p: Path)
    ensures Gain(graph, sp, fs, gs + [y], p) == Gain(graph, sp, fs, gs, p) + ColumnGain(graph, sp, fs, y, p)
  {
    assert (gs + [y])[..|gs|] == gs;
    if fs != [] {
      GainSnocColumn(graph, sp, fs[..|fs| - 1], gs, y, p);
    }
  }

  lemma {:induction false} ColumnIsRow(graph: WeightedGraph, sp: ShortestPath, files: seq<Path>, fs: seq<Path>, y: Path, p: Path)
    requires ReversiblePaths(graph, sp, files)
    requires y in files && forall f :: f in fs ==> f in files
    ensures ColumnGain(graph, sp, fs, y, p) == RowGain(graph, sp, y, fs, p)
  {
    if fs != [] {
      var init, f := fs[..|fs| - 1], fs[|fs| - 1];
      assert forall x :: x in init ==> x in fs;
      ColumnIsRow(graph, sp, files, init, y, p);
      if f != y {
        CountReverse(sp(graph, f, y), p);
      }
    }
  }

  lemma {:induction false} GainDoubles(graph: WeightedGraph, sp: ShortestPath, files: seq<Path>, fs: seq<Path>, p: Path)
    requires ReversiblePaths(graph, sp, files)
    requires forall f :: f in fs ==> f in files
    ensures Gain(graph, sp, fs, fs, p) == 2 * UnorderedGain(graph, sp, fs, p)
  {
    if fs != [] {
      var init, x := fs[..|fs| - 1], fs[|fs| - 1];
      assert forall f :: f in init ==> f in fs;
      assert fs == init + [x];
      GainDoubles(graph, sp, files, init, p);
      GainSnocColumn(graph, sp, init, init, x, p);
      ColumnIsRow(graph, sp, files, init, x, p);
      assert RowGain(graph, sp, x, fs, p) == RowGain(graph, sp, x, init, p);
    }
  }

  /**
   * When the two orientations of a pair get the same path reversed, tallying
   * each unordered pair once with a doubled increment gives the same scores
   * as the tally over ordered pairs; every score is then even.
   */
  lemma UnorderedTally(graph: WeightedGraph, sp: ShortestPath, files: seq<Path>, p: Path)
    requires ReversiblePaths(graph, sp, files)
    ensures CentralityScore(graph, sp, files, p) == 2 * UnorderedGain(graph, sp, files, p)
  {
    GainDoubles(graph, sp, files, files, p);
  }
}
