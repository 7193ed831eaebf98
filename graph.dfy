/**
 * The weighted undirected graph the analysis builds: a simple graph whose
 * vertices are file paths and whose edges carry a real weight. Only the
 * graph operations the analysis calls are modelled: adding a vertex, adding
 * an edge, looking an edge up, and reading and setting its weight.
 */
module Graph {
  import opened Seqs

  /** An undirected edge is the unordered pair of its two end points. */
  type Edge = set<Path>

  datatype Option<T> = None | Some(value: T)

  /** A read-only view of a graph, as handed to a shortest-path search. */
  datatype WeightedGraph = WeightedGraph(vertices: set<Path>, weight: map<Edge, real>)

  /** The weight a freshly added edge carries. */
  const DefaultEdgeWeight: real := 1.0

  /** `e` joins two distinct vertices of `vs`. */
  ghost predicate IsEdgeOver(vs: set<Path>, e: Edge)
  {
    |e| == 2 && e <= vs
  }

  /** Distinct end points make a proper edge; a single point never does. */
  lemma PairIsEdge(vs: set<Path>, f: Path, g: Path)
    ensures IsEdgeOver(vs, {f, g}) <==> f in vs && g in vs && f != g
  {
    if f == g {
      assert {f, g} == {f};
    }
  }

  /** Two pairs are the same edge exactly when they have the same end points, in either order. */
  lemma PairEquality(x: Path, y: Path, f: Path, g: Path)
    requires f != g
    ensures {x, y} == {f, g} <==> (x == f && y == g) || (x == g && y == f)
  {
    if {x, y} == {f, g} {
      assert x in {f, g} && y in {f, g};
      assert f in {x, y} && g in {x, y};
    }
  }

  /** Every edge of the complete graph over `vs`. */
  ghost function CompleteEdges(vs: set<Path>): set<Edge>
  {
    set f, g | f in vs && g in vs && f != g :: {f, g}
  }

  /** The edges that join `v` to each vertex of `us`. */
  ghost function StarEdges(v: Path, us: set<Path>): set<Edge>
  {
    set u | u in us :: {u, v}
  }

  /** A vertex outside `us` has one edge to each vertex of `us`. */
  lemma {:induction false} StarEdgesCard(v: Path, us: set<Path>)
    requires v !in us
    ensures |StarEdges(v, us)| == |us|
    decreases |us|
  {
    if us != {} {
      var u :| u in us;
      var rest := us - {u};
      StarEdgesCard(v, rest);
      forall x | x in rest ensures {x, v} != {u, v} {
        assert u !in {x, v};
      }
      assert StarEdges(v, us) == StarEdges(v, rest) + {{u, v}};
    }
  }

  /** Taking one vertex out splits the complete graph into the rest and that vertex's star. */
  lemma CompleteEdgesSplit(vs: set<Path>, v: Path)
    requires v in vs
    ensures CompleteEdges(vs) == CompleteEdges(vs - {v}) + StarEdges(v, vs - {v})
    ensures CompleteEdges(vs - {v}) !! StarEdges(v, vs - {v})
  {
    var rest := vs - {v};
    forall e | e in CompleteEdges(vs) ensures e in CompleteEdges(rest) + StarEdges(v, rest) {
      var f, g :| f in vs && g in vs && f != g && e == {f, g};
      if f == v {
        assert e == {g, v};
        assert e in StarEdges(v, rest);
      } else if g == v {
        assert e in StarEdges(v, rest);
      } else {
        assert e in CompleteEdges(rest);
      }
    }
    forall e | e in CompleteEdges(rest) + StarEdges(v, rest) ensures e in CompleteEdges(vs) {
      if e in StarEdges(v, rest) {
        var u :| u in rest && e == {u, v};
        assert e in CompleteEdges(vs);
      } else {
        var f, g :| f in rest && g in rest && f != g && e == {f, g};
        assert e in CompleteEdges(vs);
      }
    }
    forall e | e in CompleteEdges(rest) ensures e !in StarEdges(v, rest) {
      var f, g :| f in rest && g in rest && f != g && e == {f, g};
      assert v !in e;
    }
  }

  /** The complete graph over n vertices has n(n-1)/2 edges. */
  lemma {:induction false} CompleteEdgesCard(vs: set<Path>)
    ensures 2 * |CompleteEdges(vs)| == |vs| * (|vs| - 1)
    decreases |vs|
  {
    if vs != {} {
      var v :| v in vs;
      var rest := vs - {v};
      CompleteEdgesCard(rest);
      StarEdgesCard(v, rest);
      CompleteEdgesSplit(vs, v);
      var m := |rest|;
      assert |vs| == m + 1;
      assert (m + 1) * m == m * (m - 1) + 2 * m;
    }
  }

  /** An edge of the complete graph joins two distinct vertices, and every such pair is one. */
  lemma CompleteEdgesMembers(vs: set<Path>, f: Path, g: Path)
    ensures {f, g} in CompleteEdges(vs) <==> f in vs && g in vs && f != g
  {
    if {f, g} in CompleteEdges(vs) {
      var x, y :| x in vs && y in vs && x != y && {f, g} == {x, y};
      PairEquality(f, g, x, y);
    }
  }

  /**
   * The graph object: its vertex set and, for each edge, its weight. The
   * keys of `weight` are the edges; the graph allows no parallel edges, and
   * the analysis never asks for a loop.
   */
  class CoChangeGraph {
    var vertices: set<Path>
    var weight: map<Edge, real>

    /** Every edge joins two distinct vertices of the graph. */
    ghost predicate Valid()
      reads this
    {
      forall e | e in weight :: IsEdgeOver(vertices, e)
    }

    /** An empty graph. */
    constructor ()
      ensures Valid()
      ensures vertices == {} && weight == map[]
    {
      vertices := {};
      weight := map[];
    }

    /** Adds `v`; adding a vertex that is already there changes nothing. */
    method AddVertex(v: Path)
      requires Valid()
      modifies this
      ensures Valid()
      ensures vertices == old(vertices) + {v}
      ensures weight == old(weight)
    {
      vertices := vertices + {v};
    }

    /**
     * Adds the edge between two distinct vertices with the default weight;
     * when the graph already has that edge, nothing changes.
     */
    method AddEdge(f: Path, g: Path)
      requires Valid()
      requires f in vertices && g in vertices && f != g
      modifies this
      ensures Valid()
      ensures vertices == old(vertices)
      ensures weight == if {f, g} in old(weight) then old(weight) else old(weight)[{f, g} := DefaultEdgeWeight]
    {
      PairIsEdge(vertices, f, g);
      if {f, g} !in weight {
        weight := weight[{f, g} := DefaultEdgeWeight];
      }
    }

    /** The edge between `f` and `g`, if the graph has one. */
    function GetEdge(f: Path, g: Path): (r: Option<Edge>)
      requires Valid()
      reads this
      ensures r.Some? ==> f != g && f in vertices && g in vertices
      ensures r.Some? ==> r.value == {f, g} && r.value in weight
      ensures r.None? <==> {f, g} !in weight
    {
      if {f, g} in weight then
        assert IsEdgeOver(vertices, {f, g});
        PairIsEdge(vertices, f, g);
        Some({f, g})
      else None
    }

    /** The weight of an edge the graph has. */
    function GetEdgeWeight(e: Edge): real
      requires e in weight
      reads this
    {
      weight[e]
    }

    /** Overwrites the weight of an existing edge. */
    method SetEdgeWeight(e: Edge, w: real)
      requires Valid()
      requires e in weight
      modifies this
      ensures Valid()
      ensures vertices == old(vertices)
      ensures weight == old(weight)[e := w]
    {
      weight := weight[e := w];
    }

    /** The current graph as a value. */
    function Snapshot(): WeightedGraph
      reads this
    {
      WeightedGraph(vertices, weight)
    }
  }
}
