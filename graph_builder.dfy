/**
 * `GraphBuilder`: holds the network graph and derives, for every edge, the
 * travel time in minutes from its length in metres and the travel speed in
 * km/h.
 */
module GraphBuilder {
  import opened Graphs

  /** `travel_speed * 1000 / 60`: a speed in km/h as metres per minute. */
  function MetersPerMinute(travelSpeed: real): (m: real)
    ensures m * 60.0 == travelSpeed * 1000.0
  {
    travelSpeed * 1000.0 / 60.0
  }

  /** `length / meters_per_minute`: the minutes it takes to cover `length` metres. */
  function EdgeTime(length: real, travelSpeed: real): (t: real)
    requires travelSpeed != 0.0
    ensures t * MetersPerMinute(travelSpeed) == length
  {
    length / MetersPerMinute(travelSpeed)
  }

  /** 1000 m at 6 km/h take 10 minutes; 300 m take 3 minutes. */
  lemma EdgeTimeExamples()
    ensures EdgeTime(1000.0, 6.0) == 10.0
    ensures EdgeTime(300.0, 6.0) == 3.0
  {
  }

  /** A positive length at a positive speed takes a positive time. */
  lemma EdgeTimePositive(length: real, travelSpeed: real)
    requires length > 0.0 && travelSpeed > 0.0
    ensures EdgeTime(length, travelSpeed) > 0.0
  {
  }

  /** Time is linear in the length ... */
  lemma EdgeTimeLinearInLength(l1: real, l2: real, k: real, travelSpeed: real)
    requires travelSpeed != 0.0
    ensures EdgeTime(l1 + l2, travelSpeed) == EdgeTime(l1, travelSpeed) + EdgeTime(l2, travelSpeed)
    ensures EdgeTime(k * l1, travelSpeed) == k * EdgeTime(l1, travelSpeed)
  {
  }

  /** ... and inversely proportional to the speed. */
  lemma EdgeTimeInverseInSpeed(length: real, travelSpeed: real, k: real)
    requires travelSpeed != 0.0 && k != 0.0
    ensures k * EdgeTime(length, k * travelSpeed) == EdgeTime(length, travelSpeed)
  {
  }

  /**
   * `pg` is `g` with every edge's time derived from its length: same nodes,
   * same edges in the same order with the same endpoints and lengths.
   */
  ghost predicate TimesDerived(g: Graph, pg: Graph, travelSpeed: real)
    requires travelSpeed != 0.0
  {
    && pg.nodes == g.nodes
    && |pg.edges| == |g.edges|
    && forall k :: 0 <= k < |g.edges| ==>
         pg.edges[k] == g.edges[k].(time := EdgeTime(g.edges[k].length, travelSpeed))
  }

  /**
   * With a positive speed and non-negative lengths the derived graph is one the
   * bounded search accepts; with positive lengths every time is positive.
   */
  lemma DerivedGraphSearchable(g: Graph, pg: Graph, travelSpeed: real)
    requires travelSpeed > 0.0 && TimesDerived(g, pg, travelSpeed)
    requires ValidGraph(g) && forall e :: e in g.edges ==> e.length >= 0.0
    ensures ValidGraph(pg) && NonNegativeTimes(pg)
    ensures (forall e :: e in g.edges ==> e.length > 0.0) ==> forall e :: e in pg.edges ==> e.time > 0.0
  {
    forall e | e in pg.edges
      ensures HasNode(pg, e.src) && HasNode(pg, e.dst) && e.time >= 0.0
      ensures (forall e0 :: e0 in g.edges ==> e0.length > 0.0) ==> e.time > 0.0
    {
      var k :| 0 <= k < |pg.edges| && pg.edges[k] == e;
      assert g.edges[k] in g.edges;
      if g.edges[k].length > 0.0 {
        EdgeTimePositive(g.edges[k].length, travelSpeed);
      }
    }
  }

  class GraphBuilder {
    const place: string
    const transportationMode: string
    /** In km/h. */
    const travelSpeed: real
    var graph: Option<Graph>
    var projectedGraph: Option<Graph>

    constructor (place: string, transportationMode: string, travelSpeed: real)
      ensures this.place == place && this.transportationMode == transportationMode
      ensures this.travelSpeed == travelSpeed
      ensures graph == None && projectedGraph == None
    {
      this.place := place;
      this.transportationMode := transportationMode;
      this.travelSpeed := travelSpeed;
      graph := None;
      projectedGraph := None;
    }

    /** `initialize_graph`, with the network the map provider returns for `place` as a parameter. */
    method InitializeGraph(downloaded: Graph) returns (g: Graph)
      modifies this
      ensures graph == Some(downloaded) && g == downloaded
      ensures projectedGraph == old(projectedGraph)
    {
      graph := Some(downloaded);
      g := downloaded;
    }

    /**
     * `initialize_projected_graph`: stores the projected graph and then
     * overwrites the `time` of every edge, parallel edges included, with
     * `length / meters_per_minute`. The coordinates are taken as already planar.
     * A zero speed only fails once there is an edge to divide for.
     */
    method InitializeProjectedGraph() returns (pg: Graph)
      requires graph.Some? && (travelSpeed != 0.0 || graph.value.edges == [])
      modifies this
      ensures graph == old(graph)
      ensures projectedGraph == Some(pg)
      ensures travelSpeed != 0.0 ==> TimesDerived(graph.value, pg, travelSpeed)
      ensures graph.value.edges == [] ==> pg == graph.value
    {
      projectedGraph := graph;
      var metersPerMinute := travelSpeed * 1000.0 / 60.0;
      var i := 0;
      while i < |projectedGraph.value.edges|
        invariant graph == old(graph) && projectedGraph.Some?
        invariant projectedGraph.value.nodes == graph.value.nodes
        invariant |projectedGraph.value.edges| == |graph.value.edges|
        invariant 0 <= i <= |graph.value.edges|
        invariant i > 0 ==> travelSpeed != 0.0
        invariant forall k :: 0 <= k < i ==>
                    projectedGraph.value.edges[k] ==
                      graph.value.edges[k].(time := EdgeTime(graph.value.edges[k].length, travelSpeed))
        invariant forall k :: i <= k < |graph.value.edges| ==> projectedGraph.value.edges[k] == graph.value.edges[k]
      {
        var current := projectedGraph.value;
        var data := current.edges[i];
        projectedGraph := Some(current.(edges := current.edges[i := data.(time := data.length / metersPerMinute)]));
        i := i + 1;
      }
      pg := projectedGraph.value;
    }
  }
}
