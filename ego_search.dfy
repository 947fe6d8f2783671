/**
 * The bounded search behind networkx's `ego_graph(G, center, radius, distance="time")`:
 * Dijkstra from `center` following out-edges only, where an edge is relaxed only
 * when the accumulated time stays within the radius. The centre itself is always
 * part of the result, whatever the radius.
 */
module EgoSearch {
  import opened Graphs

  /** `v` lies in the ego graph of `c` with radius `r`. */
  ghost predicate InEgo(g: Graph, c: nat, r: real, v: nat)
  {
    v == c || exists p :: IsWalk(g, c, p, v) && Cost(p) <= r
  }

  /**
   * `dist` holds exactly the nodes reached from `s` within `cutoff` (and `s`),
   * each with its shortest directed travel time from `s`.
   */
  ghost predicate IsShortestTimes(g: Graph, s: nat, cutoff: real, dist: map<nat, real>)
  {
    && s in dist && dist[s] == 0.0
    && (forall v :: v in dist ==> HasNode(g, v))
    && (forall v :: v in dist && v != s ==> dist[v] <= cutoff)
    // every recorded time is the cost of some walk ...
    && (forall v :: v in dist ==> exists p :: IsWalk(g, s, p, v) && Cost(p) == dist[v])
    // ... and no walk is cheaper
    && (forall v, p :: v in dist && IsWalk(g, s, p, v) ==> dist[v] <= Cost(p))
    // every node a walk reaches within the cutoff is recorded
    && (forall v, p :: IsWalk(g, s, p, v) && Cost(p) <= cutoff ==> v in dist)
  }

  /** Ego graphs grow with the radius. */
  lemma EgoNested(g: Graph, c: nat, r1: real, r2: real, v: nat)
    requires r1 <= r2 && InEgo(g, c, r1, v)
    ensures InEgo(g, c, r2, v)
  {
  }

  /** The nodes of a shortest-times map are exactly the ego graph. */
  lemma ShortestTimesAreEgo(g: Graph, s: nat, cutoff: real, dist: map<nat, real>, v: nat)
    requires ValidGraph(g) && IsShortestTimes(g, s, cutoff, dist)
    ensures v in dist <==> InEgo(g, s, cutoff, v)
  {
    if v in dist && v != s {
      var p :| IsWalk(g, s, p, v) && Cost(p) == dist[v];
      assert Cost(p) <= cutoff;
    }
  }

  /** Settled nodes have had their out-edges relaxed against `seen`. */
  ghost predicate Relaxed(g: Graph, cutoff: real, dist: map<nat, real>, seen: map<nat, real>, e: Edge)
    requires e.src in dist
  {
    dist[e.src] + e.time <= cutoff ==> e.dst in seen && seen[e.dst] <= dist[e.src] + e.time
  }

  /**
   * Once every settled node is relaxed and nothing is left unsettled, every walk
   * within the cutoff ends at a recorded node, no cheaper than the record.
   */
  lemma {:induction false} ClosedMapBoundsWalks(g: Graph, s: nat, cutoff: real, dist: map<nat, real>, p: seq<Edge>, v: nat)
    requires NonNegativeTimes(g)
    requires s in dist && dist[s] == 0.0
    requires forall e :: e in g.edges && e.src in dist ==> Relaxed(g, cutoff, dist, dist, e)
    requires IsWalk(g, s, p, v) && Cost(p) <= cutoff
    ensures v in dist && dist[v] <= Cost(p)
  {
    if p != [] {
      var q, e := p[..|p| - 1], p[|p| - 1];
      assert IsWalk(g, s, q, e.src);
      assert e.time >= 0.0;
      ClosedMapBoundsWalks(g, s, cutoff, dist, q, e.src);
      assert Relaxed(g, cutoff, dist, dist, e);
    }
  }

  /** Index of an unsettled node with the least tentative time (the heap pop). */
  method ClosestUnsettled(seen: map<nat, real>, frontier: set<nat>) returns (u: nat)
    requires frontier != {} && frontier <= seen.Keys
    ensures u in frontier
    ensures forall w :: w in frontier ==> seen[u] <= seen[w]
  {
    u :| u in frontier;
    var rest := frontier - {u};
    while rest != {}
      invariant rest <= frontier && u in frontier
      invariant forall w :: w in frontier - rest ==> seen[u] <= seen[w]
      decreases rest
    {
      var w :| w in rest;
      if seen[w] < seen[u] {
        u := w;
      }
      rest := rest - {w};
    }
  }

  /**
   * What holds of the search state between steps: `seen` holds tentative
   * times, each the cost of a recorded walk within the cutoff, and `dist` the
   * settled part of `seen`, every settled time no larger than any unsettled one.
   */
  ghost predicate SearchState(g: Graph, source: nat, cutoff: real, seen: map<nat, real>,
                              dist: map<nat, real>, paths: map<nat, seq<Edge>>)
  {
    && dist.Keys <= seen.Keys && seen.Keys <= NodeIds(g)
    && source in seen && seen[source] == 0.0
    && (forall v :: v in dist ==> dist[v] == seen[v])
    && (forall v :: v in seen ==> seen[v] >= 0.0)
    && (forall v :: v in seen && v != source ==> seen[v] <= cutoff)
    && (forall v :: v in seen ==> v in paths && IsWalk(g, source, paths[v], v) && Cost(paths[v]) == seen[v])
    && (forall a, b :: a in dist && b in seen && b !in dist ==> dist[a] <= seen[b])
  }

  /** `seen1` knows every node `seen0` knows, each at no larger time. */
  ghost predicate Improves(seen0: map<nat, real>, seen1: map<nat, real>)
  {
    seen0.Keys <= seen1.Keys && forall v :: v in seen0 ==> seen1[v] <= seen0[v]
  }

  /** Improving the tentative times keeps relaxed edges relaxed. */
  lemma ImprovesKeepsRelaxed(g: Graph, cutoff: real, dist: map<nat, real>, seen0: map<nat, real>,
                             seen1: map<nat, real>, e: Edge)
    requires e.src in dist && Improves(seen0, seen1) && Relaxed(g, cutoff, dist, seen0, e)
    ensures Relaxed(g, cutoff, dist, seen1, e)
  {
  }

  /** One relaxation step along the edge `e` out of the just-settled node `u`. */
  method RelaxEdge(g: Graph, source: nat, cutoff: real, u: nat, e: Edge, seen0: map<nat, real>,
                   dist: map<nat, real>, ghost paths0: map<nat, seq<Edge>>)
    returns (seen: map<nat, real>, ghost paths: map<nat, seq<Edge>>)
    requires ValidGraph(g) && NonNegativeTimes(g)
    requires SearchState(g, source, cutoff, seen0, dist, paths0)
    requires u in dist && forall a :: a in dist ==> dist[a] <= dist[u]
    requires e in g.edges && e.src == u
    ensures SearchState(g, source, cutoff, seen, dist, paths)
    ensures Improves(seen0, seen) && Relaxed(g, cutoff, dist, seen, e)
  {
    seen, paths := seen0, paths0;
    var nd := dist[u] + e.time;
    if e.dst in dist {
      // networkx raises "Contradictory paths found" here; with
      // non-negative times a settled time is never beaten
      assert dist[e.dst] <= nd;
    } else if nd <= cutoff && (e.dst !in seen || nd < seen[e.dst]) {
      WalkExtend(g, source, paths[u], u, e);
      seen := seen[e.dst := nd];
      paths := paths[e.dst := paths[u] + [e]];
    }
  }

  /**
   * Every edge out of a settled node is relaxed, except the out-edges of `u`
   * from index `j` on, which are still to be scanned.
   */
  ghost predicate RelaxedBefore(g: Graph, cutoff: real, dist: map<nat, real>, seen: map<nat, real>, u: nat, j: nat)
  {
    forall k :: 0 <= k < |g.edges| && g.edges[k].src in dist && (g.edges[k].src != u || k < j) ==>
      Relaxed(g, cutoff, dist, seen, g.edges[k])
  }

  /** Scanning edge `j` (relaxed if it leaves `u`) moves the boundary one edge on. */
  lemma RelaxedBeforeStep(g: Graph, cutoff: real, dist: map<nat, real>, seen0: map<nat, real>,
                          seen1: map<nat, real>, u: nat, j: nat)
    requires j < |g.edges| && u in dist && Improves(seen0, seen1)
    requires RelaxedBefore(g, cutoff, dist, seen0, u, j)
    requires g.edges[j].src == u ==> Relaxed(g, cutoff, dist, seen1, g.edges[j])
    ensures RelaxedBefore(g, cutoff, dist, seen1, u, j + 1)
  {
    forall k | 0 <= k < |g.edges| && g.edges[k].src in dist && (g.edges[k].src != u || k < j + 1)
      ensures Relaxed(g, cutoff, dist, seen1, g.edges[k])
    {
      if k != j || g.edges[j].src != u {
        ImprovesKeepsRelaxed(g, cutoff, dist, seen0, seen1, g.edges[k]);
      }
    }
  }

  /** Relaxation stated per edge and per edge index agree. */
  lemma RelaxedBeforeEdges(g: Graph, cutoff: real, dist: map<nat, real>, seen: map<nat, real>, u: nat, j: nat)
    ensures RelaxedBefore(g, cutoff, dist, seen, u, 0) <==>
            forall e :: e in g.edges && e.src in dist && e.src != u ==> Relaxed(g, cutoff, dist, seen, e)
    ensures RelaxedBefore(g, cutoff, dist, seen, u, |g.edges|) <==>
            forall e :: e in g.edges && e.src in dist ==> Relaxed(g, cutoff, dist, seen, e)
  {
    if RelaxedBefore(g, cutoff, dist, seen, u, 0) {
      forall e | e in g.edges && e.src in dist && e.src != u
        ensures Relaxed(g, cutoff, dist, seen, e)
      {
        var k :| 0 <= k < |g.edges| && g.edges[k] == e;
      }
    }
    if RelaxedBefore(g, cutoff, dist, seen, u, |g.edges|) {
      forall e | e in g.edges && e.src in dist
        ensures Relaxed(g, cutoff, dist, seen, e)
      {
        var k :| 0 <= k < |g.edges| && g.edges[k] == e;
      }
    }
  }

  /**
   * Relaxes every out-edge of the node `u` that was just settled: the inner
   * loop of networkx's `_dijkstra_multisource` over `G_succ[u]`, with the
   * cheapest of several parallel edges winning.
   */
  method RelaxOutEdges(g: Graph, source: nat, cutoff: real, u: nat, seen0: map<nat, real>,
                       dist: map<nat, real>, ghost paths0: map<nat, seq<Edge>>)
    returns (seen: map<nat, real>, ghost paths: map<nat, seq<Edge>>)
    requires ValidGraph(g) && NonNegativeTimes(g)
    requires SearchState(g, source, cutoff, seen0, dist, paths0)
    requires u in dist && forall a :: a in dist ==> dist[a] <= dist[u]
    requires forall e :: e in g.edges && e.src in dist && e.src != u ==> Relaxed(g, cutoff, dist, seen0, e)
    ensures SearchState(g, source, cutoff, seen, dist, paths)
    ensures forall e :: e in g.edges && e.src in dist ==> Relaxed(g, cutoff, dist, seen, e)
  {
    seen, paths := seen0, paths0;
    RelaxedBeforeEdges(g, cutoff, dist, seen, u, 0);
    var j := 0;
    while j < |g.edges|
      invariant 0 <= j <= |g.edges|
      invariant SearchState(g, source, cutoff, seen, dist, paths)
      invariant RelaxedBefore(g, cutoff, dist, seen, u, j)
    {
      var e := g.edges[j];
      ghost var before := seen;
      if e.src == u {
        seen, paths := RelaxEdge(g, source, cutoff, u, e, seen, dist, paths);
      }
      RelaxedBeforeStep(g, cutoff, dist, before, seen, u, j);
      j := j + 1;
    }
    RelaxedBeforeEdges(g, cutoff, dist, seen, u, j);
  }

  /**
   * Settling an unsettled node of least tentative time keeps the search state,
   * makes it the latest settled node and leaves the other settled nodes relaxed.
   */
  lemma SettleKeepsState(g: Graph, source: nat, cutoff: real, seen: map<nat, real>,
                         dist0: map<nat, real>, dist: map<nat, real>, paths: map<nat, seq<Edge>>, u: nat)
    requires SearchState(g, source, cutoff, seen, dist0, paths)
    requires forall e :: e in g.edges && e.src in dist0 ==> Relaxed(g, cutoff, dist0, seen, e)
    requires u in seen.Keys - dist0.Keys
    requires forall w :: w in seen.Keys - dist0.Keys ==> seen[u] <= seen[w]
    requires dist == dist0[u := seen[u]]
    ensures SearchState(g, source, cutoff, seen, dist, paths)
    ensures u in dist && forall a :: a in dist ==> dist[a] <= dist[u]
    ensures forall e :: e in g.edges && e.src in dist && e.src != u ==> Relaxed(g, cutoff, dist, seen, e)
  {
  }

  /**
   * Single-source Dijkstra with a cutoff, as networkx's
   * `single_source_dijkstra_path_length(G, source, cutoff, weight)`.
   */
  method ShortestPathLengths(g: Graph, source: nat, cutoff: real) returns (dist: map<nat, real>)
    requires ValidGraph(g) && NonNegativeTimes(g) && HasNode(g, source)
    ensures IsShortestTimes(g, source, cutoff, dist)
  {
    var seen: map<nat, real> := map[source := 0.0];
    ghost var paths: map<nat, seq<Edge>> := map[source := []];
    dist := map[];
    while dist.Keys != seen.Keys
      invariant SearchState(g, source, cutoff, seen, dist, paths)
      invariant forall e :: e in g.edges && e.src in dist ==> Relaxed(g, cutoff, dist, seen, e)
      decreases NodeIds(g) - dist.Keys
    {
      assert seen.Keys - dist.Keys != {} by {
        if seen.Keys - dist.Keys == {} {
          forall x | x in seen.Keys
            ensures x in dist.Keys
          {
            assert x !in seen.Keys - dist.Keys;
          }
          assert false;
        }
      }
      var u := ClosestUnsettled(seen, seen.Keys - dist.Keys);
      ghost var dist0 := dist;
      dist := dist[u := seen[u]];
      SettleKeepsState(g, source, cutoff, seen, dist0, dist, paths, u);
      seen, paths := RelaxOutEdges(g, source, cutoff, u, seen, dist, paths);
    }
    assert dist == seen;
    ShortestTimesFromClosedState(g, source, cutoff, dist, paths);
  }

  /** A finished search (nothing unsettled) has found the shortest times. */
  lemma ShortestTimesFromClosedState(g: Graph, source: nat, cutoff: real, dist: map<nat, real>,
                                    paths: map<nat, seq<Edge>>)
    requires ValidGraph(g) && NonNegativeTimes(g)
    requires SearchState(g, source, cutoff, dist, dist, paths)
    requires forall e :: e in g.edges && e.src in dist ==> Relaxed(g, cutoff, dist, dist, e)
    ensures IsShortestTimes(g, source, cutoff, dist)
  {
    forall v | v in dist
      ensures exists p :: IsWalk(g, source, p, v) && Cost(p) == dist[v]
    {
      assert IsWalk(g, source, paths[v], v);
    }
    forall v, p | IsWalk(g, source, p, v) && Cost(p) <= cutoff
      ensures v in dist
    {
      ClosedMapBoundsWalks(g, source, cutoff, dist, p, v);
    }
    forall v, p | v in dist && IsWalk(g, source, p, v)
      ensures dist[v] <= Cost(p)
    {
      CostNonNegative(g, source, p, v);
      if Cost(p) <= cutoff {
        ClosedMapBoundsWalks(g, source, cutoff, dist, p, v);
      }
    }
  }

  /**
   * The node set of `ego_graph(G, center, radius, distance="time")`; networkx
   * raises `NodeNotFound` for a centre outside the graph.
   */
  method EgoGraph(g: Graph, center: nat, radius: real) returns (r: Result<set<nat>>)
    requires ValidGraph(g) && NonNegativeTimes(g)
    ensures r.Err? <==> !HasNode(g, center)
    ensures r.Err? ==> r.error == NodeNotFound(center)
    ensures r.Ok? ==> r.value <= NodeIds(g) && forall v :: v in r.value <==> InEgo(g, center, radius, v)
  {
    if !HasNode(g, center) {
      return Err(NodeNotFound(center));
    }
    var dist := ShortestPathLengths(g, center, radius);
    forall v
      ensures v in dist <==> InEgo(g, center, radius, v)
    {
      ShortestTimesAreEgo(g, center, radius, dist, v);
    }
    return Ok(dist.Keys);
  }
}
