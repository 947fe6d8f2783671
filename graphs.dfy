/**
 * A directed multigraph with planar node coordinates and per-edge length and
 * travel time, as the isochrone code receives it from the graph builder.
 * Nodes are identified by their index in `nodes`; parallel edges are
 * separate entries of `edges`.
 */
module Graphs {

  datatype Option<T> = None | Some(value: T)

  /** The one error the core raises: a search from a node the graph lacks. */
  datatype Error = NodeNotFound(node: nat)

  datatype Result<T> = Ok(value: T) | Err(error: Error)

  /** Planar (projected) coordinates of a node. */
  datatype Point = Point(x: real, y: real)

  /** A directed edge with its physical length (metres) and travel time (minutes). */
  datatype Edge = Edge(src: nat, dst: nat, length: real, time: real)

  datatype Graph = Graph(nodes: seq<Point>, edges: seq<Edge>)

  predicate HasNode(g: Graph, v: nat)
  {
    v < |g.nodes|
  }

  /** The set of node identifiers of `g`. */
  function NodeIds(g: Graph): (ids: set<nat>)
    ensures forall v :: v in ids <==> HasNode(g, v)
  {
    set v: nat | v < |g.nodes| && HasNode(g, v)
  }

  /** Every edge joins two nodes of the graph. */
  predicate ValidGraph(g: Graph)
  {
    forall e :: e in g.edges ==> HasNode(g, e.src) && HasNode(g, e.dst)
  }

  /** Dijkstra's precondition: no edge has a negative travel time. */
  predicate NonNegativeTimes(g: Graph)
  {
    forall e :: e in g.edges ==> e.time >= 0.0
  }

  /**
   * `p` is a directed walk in `g` from `s` to `v`: consecutive edges of `g`,
   * each leaving the node the previous one entered. The empty walk goes from
   * `s` to `s`.
   */
  ghost predicate IsWalk(g: Graph, s: nat, p: seq<Edge>, v: nat)
    decreases |p|
  {
    if p == [] then v == s
    else
      var e := p[|p| - 1];
      e in g.edges && e.dst == v && IsWalk(g, s, p[..|p| - 1], e.src)
  }

  /** Total travel time of a walk. */
  function Cost(p: seq<Edge>): (c: real)
    decreases |p|
  {
    if p == [] then 0.0 else Cost(p[..|p| - 1]) + p[|p| - 1].time
  }

  /** Appending an edge that leaves the end of a walk extends the walk and adds its time. */
  lemma WalkExtend(g: Graph, s: nat, p: seq<Edge>, u: nat, e: Edge)
    requires IsWalk(g, s, p, u) && e in g.edges && e.src == u
    ensures IsWalk(g, s, p + [e], e.dst)
    ensures Cost(p + [e]) == Cost(p) + e.time
  {
    assert (p + [e])[..|p|] == p;
  }

  /** With non-negative edge times every walk costs at least zero. */
  lemma {:induction false} CostNonNegative(g: Graph, s: nat, p: seq<Edge>, v: nat)
    requires NonNegativeTimes(g) && IsWalk(g, s, p, v)
    ensures Cost(p) >= 0.0
  {
    if p != [] {
      CostNonNegative(g, s, p[..|p| - 1], p[|p| - 1].src);
    }
  }

  /** A non-empty walk ends at a node of the graph. */
  lemma WalkEndsInGraph(g: Graph, s: nat, p: seq<Edge>, v: nat)
    requires ValidGraph(g) && IsWalk(g, s, p, v) && p != []
    ensures HasNode(g, v)
  {
  }
}
