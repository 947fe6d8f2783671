# Isochrone reachability and classification

A Dafny model of the isochrone engine of `metricas-espacios-publicos`. The
engine has two parts:

- `GraphBuilder` works out a travel time in minutes for every edge of a
  street network. It uses the edge's length in metres and a walking or
  riding speed in km/h.
- `IsochronePlots` looks, for every trip time, at the set of nodes reachable
  from a centre within that time: networkx's `ego_graph` over the `time`
  attribute. It then classifies every node by the smallest trip time that
  reaches it, or by the sentinel `INFINITY = 10000` when none does. The same
  classification is merged over several centres. The module also collects the
  point sets behind the convex-hull isochrones and builds the colour map and
  node sizes used for plotting.

Modules:

- `Graphs` (graphs.dfy): the directed multigraph. Nodes are indices into a
  sequence of planar points. Edges are a sequence, so parallel edges are
  separate entries. It also defines walks and their cost.
- `EgoSearch` (ego_search.dfy): a Dijkstra search with a cutoff, following
  networkx's `_dijkstra_multisource`. `seen` holds tentative times and `dist`
  the settled ones; a node whose time would exceed the cutoff is never pushed.
  The method is proved against `IsShortestTimes`, a declarative statement of
  shortest walk times. `EgoGraph` turns the result into the node set of
  `ego_graph`, stated as `InEgo`: the centre, plus every node that a directed
  walk of cost at most the radius reaches.
- `Sorting` (sorting.dfy): `sorted(trip_times, reverse=True)`.
- `IsochronePlots` (isochrone_plots.dfy): the bucket classifier, the
  multi-source merge, the hull point sets, the colour map and the node sizes.
  - `Bucket` is defined independently of the loop, as the smallest covering
    trip time, or `INFINITY`.
  - `MergedBucket` folds `Bucket` over the centres with `min`.
  - The methods that mirror the source loops are proved to compute exactly
    these.
- `GraphBuilder` (graph_builder.dfy): the class with its
  `initialize_projected_graph` loop, and the edge-time formula with its
  algebraic properties.
- `Scenarios` (scenarios.dfy): a worked three-node chain A→B→C at 6 km/h
  (1000 m, then 300 m) with trip times 3, 10 and 20. It gives the concrete
  buckets from A, from B and merged.

Times, lengths and speeds are Dafny `real`s, so the arithmetic is exact.
`INFINITY` is `10000.0`. The colours returned by the plotting library's
colormap are a parameter: a sequence of strings, one per trip time.

## Model

| member | source | states |
|---|---|---|
| Graphs.WalkExtend | isochrone_plots.py:53 | appending an out-edge of a walk's end gives a walk to that edge's target, costing the edge's time more |
| Graphs.CostNonNegative | isochrone_plots.py:53 | with non-negative edge times, every walk costs at least 0 |
| Graphs.WalkEndsInGraph | isochrone_plots.py:53 | a non-empty walk in a well-formed graph ends at a node of the graph, a cycle back to its start included |
| EgoSearch.EgoNested | isochrone_plots.py:52-53 | ego graphs are nested: a node within radius r1 is within every radius r2 >= r1 |
| EgoSearch.ShortestTimesAreEgo | isochrone_plots.py:53 | the keys of a shortest-times map with cutoff r are exactly the ego graph of radius r, in both directions |
| EgoSearch.ClosedMapBoundsWalks | isochrone_plots.py:53 | once every settled node's out-edges are relaxed, each walk within the cutoff ends at a settled node, whose time is no larger than the walk's cost |
| EgoSearch.ClosestUnsettled | isochrone_plots.py:53 | the node popped is an unsettled node of least tentative time |
| EgoSearch.RelaxEdge | isochrone_plots.py:53 | relaxing one out-edge of the last settled node keeps the search invariant, never raises a tentative time, and leaves the edge relaxed; a settled target is never improved |
| EgoSearch.RelaxOutEdges | isochrone_plots.py:53 | after scanning all edges that leave the settled node, cheapest parallel edge included, every out-edge of every settled node is relaxed |
| EgoSearch.SettleKeepsState | isochrone_plots.py:53 | settling an unsettled node of least tentative time keeps the invariant, and that node has the largest settled time |
| EgoSearch.ShortestTimesFromClosedState | isochrone_plots.py:53 | a search with nothing unsettled and every edge relaxed has found the shortest times within the cutoff |
| EgoSearch.ShortestPathLengths | isochrone_plots.py:53 | Dijkstra from the centre with a cutoff returns every node a directed walk reaches within the cutoff (the centre always, at 0), each at its least walk cost, and no other node |
| EgoSearch.EgoGraph | isochrone_plots.py:53 | `ego_graph(G, center, radius, distance="time")`: `NodeNotFound(center)` exactly when the centre is not a node; otherwise the nodes of the graph in the ego graph, in both directions |
| Sorting.Insert | isochrone_plots.py:52 | insertion adds exactly the one element to the multiset |
| Sorting.InsertDescending | isochrone_plots.py:52 | inserting into a descending sequence keeps it descending |
| Sorting.DescendingCons | isochrone_plots.py:52 | a head no smaller than any element of a descending tail gives a descending sequence |
| Sorting.SortDescending | isochrone_plots.py:52 | `sorted(trip_times, reverse=True)` is descending and a permutation of its input |
| Sorting.SortDescendingSameElements | isochrone_plots.py:52 | sorting keeps exactly the elements of the input |
| IsochronePlots.SmallestCoverIsMinimum | isochrone_plots.py:52-55 | a node has a smallest cover exactly when some trip time covers it; it is then a covering trip time no larger than any other covering one |
| IsochronePlots.BucketIsSmallestCover | isochrone_plots.py:52-55 | the bucket is the smallest covering trip time, or `INFINITY` when none covers |
| IsochronePlots.SmallestCoverUnique | isochrone_plots.py:52-55 | at most one value is the smallest cover |
| IsochronePlots.BucketOfSmallestCover | isochrone_plots.py:52-55 | any value that is the smallest cover (or `INFINITY` when nothing covers) is the bucket: with `BucketIsSmallestCover`, the bucket is the smallest cover and nothing else |
| IsochronePlots.BucketRange | isochrone_plots.py:51-55 | every bucket is one of the trip times or `INFINITY` |
| IsochronePlots.CenterGetsSmallestTripTime | isochrone_plots.py:53-55 | with at least one trip time, the centre gets `min(trip_times)` |
| IsochronePlots.BucketWithinIffInEgo | isochrone_plots.py:52-55 | for a trip time t below `INFINITY`, a node's bucket is at most t exactly when the ego graph of radius t holds it; buckets are therefore nested across trip times |
| IsochronePlots.Overwrite | isochrone_plots.py:54-55 | the inner loop sets every node of the ego graph to the trip time and leaves the others unchanged |
| IsochronePlots.SmallestCoverStep | isochrone_plots.py:52-55 | adding a trip time no larger than those already processed either overwrites the node (if it is reached) or keeps the node's smallest cover |
| IsochronePlots.OverwriteStep | isochrone_plots.py:52-55 | one pass of the descending loop keeps every entry the smallest cover of the trip times processed so far |
| IsochronePlots.SmallestCoverIsBucket | isochrone_plots.py:52-56 | after all trip times are processed, in descending order, every entry is the node's bucket |
| IsochronePlots.SubGraphsForTripTimes | isochrone_plots.py:50-56 | an entry for every node, each equal to its bucket (`INFINITY` when unreached); `NodeNotFound(center)` exactly when there are trip times and the centre is not a node |
| IsochronePlots.MergedBucketIsMinimum | isochrone_plots.py:43-47 | the merged bucket is at most `INFINITY`, no larger than any centre's bucket, and equal to one of them unless it is `INFINITY`; so no centres give `INFINITY` |
| IsochronePlots.MergedBucketOrderIndependent | isochrone_plots.py:44-47 | reordering or repeating the centres does not change the merge |
| IsochronePlots.MergedBucketIdempotent | isochrone_plots.py:43-47 | with every trip time at most `INFINITY`, merging a centre with itself gives that centre's buckets (larger trip times are capped by the `INFINITY` seed) |
| IsochronePlots.MergedBucketRange | isochrone_plots.py:43-47 | every merged value is a trip time or `INFINITY` |
| IsochronePlots.MergedBucketWithinIffReached | isochrone_plots.py:44-47 | for a trip time t below `INFINITY`, the merged bucket is at most t exactly when some centre's ego graph of radius t holds the node |
| IsochronePlots.MergedBucketInfinityIffUnreached | isochrone_plots.py:43-47 | with trip times below `INFINITY`, the merged bucket is `INFINITY` exactly when no centre reaches the node within any trip time |
| IsochronePlots.MinInto | isochrone_plots.py:46-47 | the inner loop lowers each entry to the minimum of its old value and the new centre's value |
| IsochronePlots.AllInGraphStep | isochrone_plots.py:44-45 | scanning the centres in order finds either one more present centre or the first missing one |
| IsochronePlots.MinIntoStep | isochrone_plots.py:44-47 | one pass of the outer loop folds the next centre into the running minimum |
| IsochronePlots.SubGraphsForTripTimesFromList | isochrone_plots.py:42-48 | an entry for every node equal to the merged bucket over all centres; when there are trip times, the first centre the graph lacks gives `NodeNotFound`, and there is an error only then |
| IsochronePlots.EgoPointsNested | isochrone_plots.py:77-79 | the point set for a smaller trip time is a subset of the one for a larger trip time |
| IsochronePlots.ConvexHullPointSets | isochrone_plots.py:75-82 | one point set per trip time, from the largest trip time to the smallest, each the coordinates of that ego graph's nodes, each within the previous one; `NodeNotFound` as for the classifier |
| IsochronePlots.EnumerateColorsSlots | isochrone_plots.py:24 | the dict comprehension's keys are the listed trip times, and each trip time gets the colour at its last position |
| IsochronePlots.GetColorMap | isochrone_plots.py:22-26 | the keys are exactly the trip times plus `INFINITY`; `INFINITY` maps to "none"; the i-th largest trip time gets colour slot i (for its last occurrence, unless it is `INFINITY`) |
| IsochronePlots.MergedBucketHasColor | isochrone_plots.py:29-31 | every merged bucket's colour lookup succeeds |
| IsochronePlots.HiddenIffUnreached | isochrone_plots.py:29-32 | the size `NodeSizes` gives a node (0 or 15) is 0 exactly when no centre reaches it within any trip time (trip times below `INFINITY`) |
| GraphBuilder.EdgeTimeExamples | graph_builder.py:25-28 | `EdgeTime`, `length / (travel_speed * 1000 / 60)`: 1000 m at 6 km/h take 10 minutes; 300 m take 3 |
| GraphBuilder.EdgeTimePositive | graph_builder.py:25-28 | a positive length at a positive speed takes a positive time |
| GraphBuilder.EdgeTimeLinearInLength | graph_builder.py:28 | the time is additive and homogeneous in the length |
| GraphBuilder.EdgeTimeInverseInSpeed | graph_builder.py:25-28 | multiplying the speed by k divides the time by k |
| GraphBuilder.DerivedGraphSearchable | graph_builder.py:25-28 | with a positive speed and non-negative lengths the derived graph is well formed with non-negative times, all positive when every length is |
| GraphBuilder.GraphBuilder.constructor | graph_builder.py:4-8 | stores place, mode and speed; no graph yet |
| GraphBuilder.GraphBuilder.InitializeGraph | graph_builder.py:10-15 | stores and returns the downloaded network |
| GraphBuilder.GraphBuilder.InitializeProjectedGraph | graph_builder.py:23-30 | stores and returns the projected graph; with a non-zero speed every edge, parallel edges included, has `time == length / meters_per_minute`, and nodes, edge order, endpoints and lengths are unchanged; an edgeless graph is returned as it is, whatever the speed; `graph` is left as it was |
| Scenarios.ChainTimesDerived | graph_builder.py:25-28 | the example chain's times are the ones the builder derives at 6 km/h |
| Scenarios.ChainWalks | isochrone_plots.py:53 | the chain's only walks are the empty one, A→B, B→C and A→B→C |
| Scenarios.EgoFromA | isochrone_plots.py:53 | from A, B is within t exactly when t >= 10, and C exactly when t >= 13 |
| Scenarios.EgoFromB | isochrone_plots.py:53 | from B, A is never reached (edges are directed), and C is within t exactly when t >= 3 |
| Scenarios.BucketsFromA | isochrone_plots.py:50-56 | from A the buckets are 3, 10 and 20 |
| Scenarios.BucketsFromB | isochrone_plots.py:50-56 | from B the buckets are `INFINITY`, 3 and 3 |
| Scenarios.MergeCapsAtInfinity | isochrone_plots.py:43-47 | a trip time of 20000 is A's bucket from A alone, but the merge, seeded with `INFINITY`, gives `INFINITY` |
| Scenarios.MergedBucketsFromAAndB | isochrone_plots.py:42-48 | merged over A and B, every node gets 3 |

## Left out

- Plotting: `plot_node_isochrones`, `plot_convex_hull_isochrones` and the rendering part of `plot_node_isochrones_from_list`. They produce UI output. Only the node-size rule and the colour lookup of `plot_node_isochrones_from_list` are modelled.
- `get_colors`: the colour strings come from the plotting library's colormap. The model takes them as a parameter, one string per trip time.
- Convex hull geometry (`unary_union.convex_hull`) is a foreign geometry call on floats. Only the point set behind each hull is modelled.
- `ox.project_graph`: the coordinate projection is taken as the identity, because coordinates are already planar in the model.
- `initialize_graph`: the map download is a parameter of `InitializeGraph`.
- `calculate_centroid`: a geometry centroid and a nearest-node lookup in foreign libraries; not modelled.
- park_coordinates.py is file and JSON input; it is not part of this model.
- Floating point: times, lengths and speeds are exact reals, so float rounding and float comparison at bucket boundaries are not modelled.
- networkx's default weight of 1 for an edge without a `time` attribute: every modelled edge carries a time.
- The binary heap of Dijkstra is modelled as a linear scan for an unsettled node of least tentative time. Ties between equal times may then be broken differently, which does not change the distances.
- `ego_graph` returns a subgraph. Only its node set is modelled, because the classifier and the hulls read nothing else.
- `INFINITY` is the integer 10000 in the source. The model uses the real 10000.0, which compares the same way with the trip times.
- GraphBuilder.GraphBuilder.InitializeProjectedGraph: requires a stored graph and a non-zero speed unless the graph has no edges. In the source, calling it before `initialize_graph` hands `None` to the projection and fails, and a zero speed fails at the division only when there is an edge. These failures are not modelled as error results. Positivity of the times, in `EdgeTimePositive` and `DerivedGraphSearchable`, needs `travel_speed > 0`.
- The search, and the classifier, merge and hull point sets built on it, require every edge time to be non-negative, which holds for `travel_speed > 0` and non-negative lengths (`DerivedGraphSearchable`). For negative times, such as a negative speed gives, networkx either raises `ValueError("Contradictory paths found: negative weights?")` or returns distances; that behaviour is not modelled.
- The code validates nothing else:
  - a zero or negative speed raises no error at construction, and neither does an edge of length 0;
  - an empty trip-time list gives `INFINITY` for every node, with no search performed, so even an unknown centre is no error then;
  - on graphs with non-negative times, the only error is networkx's `NodeNotFound` for a centre outside the graph.
- Reachability follows edge direction only (networkx's `undirected=False` default).
- The merge is seeded with `INFINITY` and takes `min`, so a trip time above `INFINITY` never survives it (`Scenarios.MergeCapsAtInfinity`); the single-centre classifier keeps such a trip time.
- IsochronePlots.GetColorMap: states the colour slot only for the last occurrence of a repeated trip time, and not for a trip time equal to `INFINITY`. In the source, later occurrences of a key overwrite earlier ones, and the `INFINITY` entry is overwritten with "none".
- IsochronePlots.BucketWithinIffInEgo: stated for trip times below `INFINITY`. A trip time of `INFINITY` or more cannot be told apart from the sentinel.
