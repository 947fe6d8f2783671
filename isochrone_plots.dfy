/**
 * The classification half of `IsochronePlots`: every node gets the smallest
 * trip time within which some centre reaches it (or `INFINITY`), the point
 * sets behind the convex-hull isochrones, the colour map and the node-size
 * rule used when plotting. The class only stores `trip_times`, so it is passed
 * to each operation here as `tripTimes`.
 */
module IsochronePlots {
  import opened Graphs
  import opened EgoSearch
  import opened Sorting

  /** The bucket of a node no threshold covers. */
  const INFINITY: real := 10000.0

  function Min(a: real, b: real): (m: real)
  {
    if a <= b then a else b
  }

  // ---------------------------------------------------------------------------
  // Reference definition of a node's bucket for one centre
  // ---------------------------------------------------------------------------

  /** The smallest trip time in `ts` whose ego graph around `c` holds `v`, if any. */
  ghost function SmallestCover(g: Graph, c: nat, ts: seq<real>, v: nat): (s: Option<real>)
    decreases |ts|
  {
    if ts == [] then None
    else
      var rest := SmallestCover(g, c, ts[1..], v);
      if !InEgo(g, c, ts[0], v) then rest
      else if rest.Some? && rest.value <= ts[0] then rest
      else Some(ts[0])
  }

  /** The bucket of `v`: its smallest covering trip time, or `INFINITY`. */
  ghost function Bucket(g: Graph, c: nat, ts: seq<real>, v: nat): (b: real)
  {
    var s := SmallestCover(g, c, ts, v);
    if s.Some? then s.value else INFINITY
  }

  /** Some trip time in `ts` covers `v`. */
  ghost predicate Covered(g: Graph, c: nat, ts: seq<real>, v: nat)
  {
    exists t :: t in ts && InEgo(g, c, t, v)
  }

  /**
   * `b` is the smallest trip time of `ts` whose ego graph holds `v`, or
   * `INFINITY` when there is none.
   */
  ghost predicate IsSmallestCover(g: Graph, c: nat, ts: seq<real>, v: nat, b: real)
  {
    if Covered(g, c, ts, v) then
      b in ts && InEgo(g, c, b, v) && forall t :: t in ts && InEgo(g, c, t, v) ==> b <= t
    else
      b == INFINITY
  }

  lemma {:induction false} SmallestCoverIsMinimum(g: Graph, c: nat, ts: seq<real>, v: nat)
    ensures SmallestCover(g, c, ts, v).None? <==> !Covered(g, c, ts, v)
    ensures SmallestCover(g, c, ts, v).Some? ==>
              var b := SmallestCover(g, c, ts, v).value;
              b in ts && InEgo(g, c, b, v) && forall t :: t in ts && InEgo(g, c, t, v) ==> b <= t
    decreases |ts|
  {
    if ts != [] {
      SmallestCoverIsMinimum(g, c, ts[1..], v);
      assert ts == [ts[0]] + ts[1..];
      assert forall t :: t in ts <==> t == ts[0] || t in ts[1..];
    }
  }

  /** `Bucket` is the smallest covering trip time, or `INFINITY` when none covers. */
  lemma BucketIsSmallestCover(g: Graph, c: nat, ts: seq<real>, v: nat)
    ensures IsSmallestCover(g, c, ts, v, Bucket(g, c, ts, v))
  {
    SmallestCoverIsMinimum(g, c, ts, v);
  }

  /** At most one value is the smallest cover. */
  lemma SmallestCoverUnique(g: Graph, c: nat, ts: seq<real>, v: nat, b1: real, b2: real)
    requires IsSmallestCover(g, c, ts, v, b1) && IsSmallestCover(g, c, ts, v, b2)
    ensures b1 == b2
  {
  }

  /** Conversely, a value that is the smallest cover is the bucket. */
  lemma BucketOfSmallestCover(g: Graph, c: nat, ts: seq<real>, v: nat, b: real)
    requires IsSmallestCover(g, c, ts, v, b)
    ensures Bucket(g, c, ts, v) == b
  {
    BucketIsSmallestCover(g, c, ts, v);
    SmallestCoverUnique(g, c, ts, v, b, Bucket(g, c, ts, v));
  }

  /** Every bucket is one of the trip times or `INFINITY`. */
  lemma BucketRange(g: Graph, c: nat, ts: seq<real>, v: nat)
    ensures Bucket(g, c, ts, v) in ts || Bucket(g, c, ts, v) == INFINITY
  {
    SmallestCoverIsMinimum(g, c, ts, v);
  }

  /** The centre lies in each of its ego graphs, so it gets the smallest trip time. */
  lemma CenterGetsSmallestTripTime(g: Graph, c: nat, ts: seq<real>)
    requires ts != []
    ensures Bucket(g, c, ts, c) in ts
    ensures forall t :: t in ts ==> Bucket(g, c, ts, c) <= t
  {
    assert InEgo(g, c, ts[0], c);
    BucketIsSmallestCover(g, c, ts, c);
    forall t | t in ts
      ensures Bucket(g, c, ts, c) <= t
    {
      assert InEgo(g, c, t, c);
    }
  }

  /**
   * The isochrone meaning of a bucket: for a trip time `t` of the list below
   * `INFINITY`, a node's bucket is at most `t` exactly when `t`'s ego graph
   * holds it.
   */
  lemma BucketWithinIffInEgo(g: Graph, c: nat, ts: seq<real>, v: nat, t: real)
    requires t in ts && t < INFINITY
    ensures Bucket(g, c, ts, v) <= t <==> InEgo(g, c, t, v)
  {
    BucketIsSmallestCover(g, c, ts, v);
    var b := Bucket(g, c, ts, v);
    if b <= t && Covered(g, c, ts, v) {
      EgoNested(g, c, b, t, v);
    }
  }

  // ---------------------------------------------------------------------------
  // sub_graphs_for_trip_times
  // ---------------------------------------------------------------------------

  /** Overwrites the entry of every node of `nodes` with `t`, as the inner loop does. */
  method Overwrite(times: map<nat, real>, nodes: set<nat>, t: real) returns (r: map<nat, real>)
    requires nodes <= times.Keys
    ensures r.Keys == times.Keys
    ensures forall v :: v in r ==> r[v] == if v in nodes then t else times[v]
  {
    r := times;
    var rest := nodes;
    while rest != {}
      invariant rest <= nodes && r.Keys == times.Keys
      invariant forall v :: v in r ==> r[v] == if v in nodes - rest then t else times[v]
      decreases rest
    {
      var v :| v in rest;
      r := r[v := t];
      rest := rest - {v};
    }
  }

  /**
   * Adding the next, smaller threshold `t` to the processed prefix: nodes of
   * its ego graph take `t`, the others keep their bucket.
   */
  lemma SmallestCoverStep(g: Graph, c: nat, done: seq<real>, t: real, v: nat, b: real, inEgo: bool)
    requires forall s :: s in done ==> t <= s
    requires inEgo == InEgo(g, c, t, v)
    requires IsSmallestCover(g, c, done, v, b)
    ensures IsSmallestCover(g, c, done + [t], v, if inEgo then t else b)
  {
    var ts := done + [t];
    assert forall s :: s in ts <==> s in done || s == t;
    if inEgo {
      assert t in ts && InEgo(g, c, t, v);
    } else if Covered(g, c, ts, v) {
      var s :| s in ts && InEgo(g, c, s, v);
      assert s in done;
    }
  }

  /** One round of the descending loop keeps every entry the smallest cover of the processed prefix. */
  lemma OverwriteStep(g: Graph, c: nat, desc: seq<real>, i: nat, nodes: set<nat>,
                      before: map<nat, real>, after: map<nat, real>)
    requires Descending(desc) && i < |desc|
    requires forall v :: v in nodes <==> InEgo(g, c, desc[i], v)
    requires after.Keys == before.Keys
    requires forall v :: v in after ==> after[v] == if v in nodes then desc[i] else before[v]
    requires forall v :: v in before ==> IsSmallestCover(g, c, desc[..i], v, before[v])
    ensures forall v :: v in after ==> IsSmallestCover(g, c, desc[..i + 1], v, after[v])
  {
    assert desc[..i + 1] == desc[..i] + [desc[i]];
    forall s | s in desc[..i]
      ensures desc[i] <= s
    {
      var k :| 0 <= k < i && desc[k] == s;
    }
    forall v | v in after
      ensures IsSmallestCover(g, c, desc[..i + 1], v, after[v])
    {
      SmallestCoverStep(g, c, desc[..i], desc[i], v, before[v], v in nodes);
    }
  }

  /** Once every threshold is processed, in any order, each entry is the node's `Bucket`. */
  lemma SmallestCoverIsBucket(g: Graph, c: nat, desc: seq<real>, ts: seq<real>, times: map<nat, real>)
    requires forall t :: t in desc <==> t in ts
    requires forall v :: v in times ==> IsSmallestCover(g, c, desc, v, times[v])
    ensures forall v :: v in times ==> times[v] == Bucket(g, c, ts, v)
  {
    forall v | v in times
      ensures times[v] == Bucket(g, c, ts, v)
    {
      assert Covered(g, c, desc, v) <==> Covered(g, c, ts, v);
      assert IsSmallestCover(g, c, ts, v, times[v]);
      BucketIsSmallestCover(g, c, ts, v);
      SmallestCoverUnique(g, c, ts, v, times[v], Bucket(g, c, ts, v));
    }
  }

  /**
   * `sub_graphs_for_trip_times`: every node starts at `INFINITY`; for each trip
   * time from the largest down, every node of its ego graph is overwritten
   * with it, so the last (smallest) covering trip time survives.
   */
  method SubGraphsForTripTimes(g: Graph, tripTimes: seq<real>, center: nat) returns (r: Result<map<nat, real>>)
    requires ValidGraph(g) && NonNegativeTimes(g)
    ensures r.Err? <==> tripTimes != [] && !HasNode(g, center)
    ensures r.Err? ==> r.error == NodeNotFound(center)
    ensures r.Ok? ==> r.value.Keys == NodeIds(g)
    ensures r.Ok? ==> forall v :: v in r.value ==> r.value[v] == Bucket(g, center, tripTimes, v)
  {
    var times: map<nat, real> := map v | v in NodeIds(g) :: INFINITY;
    var desc := SortDescending(tripTimes);
    SortDescendingSameElements(tripTimes);
    for i := 0 to |desc|
      invariant times.Keys == NodeIds(g)
      invariant i > 0 ==> HasNode(g, center)
      invariant forall v :: v in times ==> IsSmallestCover(g, center, desc[..i], v, times[v])
    {
      var sub := EgoGraph(g, center, desc[i]);
      if sub.Err? {
        return Err(sub.error);
      }
      ghost var before := times;
      times := Overwrite(times, sub.value, desc[i]);
      OverwriteStep(g, center, desc, i, sub.value, before, times);
    }
    assert desc[..|desc|] == desc;
    SmallestCoverIsBucket(g, center, desc, tripTimes, times);
    return Ok(times);
  }

  // ---------------------------------------------------------------------------
  // sub_graphs_for_trip_times_from_list
  // ---------------------------------------------------------------------------

  /** The buckets of `v` for each centre, folded with `min` from the seed `INFINITY`. */
  ghost function MergedBucket(g: Graph, centers: seq<nat>, ts: seq<real>, v: nat): (b: real)
    decreases |centers|
  {
    if centers == [] then INFINITY
    else Min(MergedBucket(g, centers[..|centers| - 1], ts, v), Bucket(g, centers[|centers| - 1], ts, v))
  }

  /**
   * The merged bucket is the least of `INFINITY` and the centres' buckets:
   * no larger than any of them, and equal to one of them.
   */
  lemma {:induction false} MergedBucketIsMinimum(g: Graph, centers: seq<nat>, ts: seq<real>, v: nat)
    ensures MergedBucket(g, centers, ts, v) <= INFINITY
    ensures forall c :: c in centers ==> MergedBucket(g, centers, ts, v) <= Bucket(g, c, ts, v)
    ensures MergedBucket(g, centers, ts, v) == INFINITY ||
            exists c :: c in centers && MergedBucket(g, centers, ts, v) == Bucket(g, c, ts, v)
    decreases |centers|
  {
    if centers != [] {
      var init := centers[..|centers| - 1];
      MergedBucketIsMinimum(g, init, ts, v);
      assert centers == init + [centers[|centers| - 1]];
      assert forall c :: c in centers <==> c in init || c == centers[|centers| - 1];
    }
  }

  /**
   * The merge depends only on which centres are listed: reordering or
   * repeating centres leaves every node's bucket unchanged.
   */
  lemma MergedBucketOrderIndependent(g: Graph, cs1: seq<nat>, cs2: seq<nat>, ts: seq<real>, v: nat)
    requires forall c :: c in cs1 <==> c in cs2
    ensures MergedBucket(g, cs1, ts, v) == MergedBucket(g, cs2, ts, v)
  {
    MergedBucketIsMinimum(g, cs1, ts, v);
    MergedBucketIsMinimum(g, cs2, ts, v);
  }

  /** Merging one centre with itself gives its own buckets (trip times at most `INFINITY`). */
  lemma MergedBucketIdempotent(g: Graph, c: nat, ts: seq<real>, v: nat)
    requires forall t :: t in ts ==> t <= INFINITY
    ensures MergedBucket(g, [c, c], ts, v) == Bucket(g, c, ts, v)
  {
    BucketRange(g, c, ts, v);
    assert [c, c][..1] == [c];
    assert [c][..0] == [];
    assert MergedBucket(g, [c], ts, v) == Min(INFINITY, Bucket(g, c, ts, v));
  }

  /** Every merged bucket is one of the trip times or `INFINITY`. */
  lemma MergedBucketRange(g: Graph, centers: seq<nat>, ts: seq<real>, v: nat)
    ensures MergedBucket(g, centers, ts, v) == INFINITY || MergedBucket(g, centers, ts, v) in ts
  {
    MergedBucketIsMinimum(g, centers, ts, v);
    if MergedBucket(g, centers, ts, v) != INFINITY {
      var c :| c in centers && MergedBucket(g, centers, ts, v) == Bucket(g, c, ts, v);
      BucketRange(g, c, ts, v);
    }
  }

  /**
   * The multi-source isochrone: for a trip time `t` of the list below
   * `INFINITY`, a node's merged bucket is at most `t` exactly when the ego
   * graph of radius `t` around some centre holds it.
   */
  lemma MergedBucketWithinIffReached(g: Graph, centers: seq<nat>, ts: seq<real>, v: nat, t: real)
    requires t in ts && t < INFINITY
    ensures MergedBucket(g, centers, ts, v) <= t <==> exists c :: c in centers && InEgo(g, c, t, v)
  {
    MergedBucketIsMinimum(g, centers, ts, v);
    if MergedBucket(g, centers, ts, v) <= t {
      var c :| c in centers && MergedBucket(g, centers, ts, v) == Bucket(g, c, ts, v);
      BucketWithinIffInEgo(g, c, ts, v, t);
    }
    if exists c :: c in centers && InEgo(g, c, t, v) {
      var c :| c in centers && InEgo(g, c, t, v);
      BucketWithinIffInEgo(g, c, ts, v, t);
    }
  }

  /**
   * With every trip time below `INFINITY`, a node's merged bucket is
   * `INFINITY` exactly when no centre reaches it within any trip time.
   */
  lemma MergedBucketInfinityIffUnreached(g: Graph, centers: seq<nat>, ts: seq<real>, v: nat)
    requires forall t :: t in ts ==> t < INFINITY
    ensures MergedBucket(g, centers, ts, v) == INFINITY <==>
            forall c, t :: c in centers && t in ts ==> !InEgo(g, c, t, v)
  {
    MergedBucketRange(g, centers, ts, v);
    if MergedBucket(g, centers, ts, v) != INFINITY {
      MergedBucketWithinIffReached(g, centers, ts, v, MergedBucket(g, centers, ts, v));
    } else {
      forall c, t | c in centers && t in ts
        ensures !InEgo(g, c, t, v)
      {
        MergedBucketWithinIffReached(g, centers, ts, v, t);
      }
    }
  }

  /** Lowers each entry of `times` to the matching entry of `newTimes`, as the inner loop does. */
  method MinInto(times: map<nat, real>, newTimes: map<nat, real>) returns (r: map<nat, real>)
    requires newTimes.Keys <= times.Keys
    ensures r.Keys == times.Keys
    ensures forall v :: v in r ==> r[v] == if v in newTimes then Min(times[v], newTimes[v]) else times[v]
  {
    r := times;
    var rest := newTimes.Keys;
    while rest != {}
      invariant rest <= newTimes.Keys && r.Keys == times.Keys
      invariant forall v :: v in r ==>
                  r[v] == if v in newTimes.Keys - rest then Min(times[v], newTimes[v]) else times[v]
      decreases rest
    {
      var v :| v in rest;
      r := r[v := Min(r[v], newTimes[v])];
      rest := rest - {v};
    }
  }

  /** Every listed centre is a node of the graph. */
  predicate AllInGraph(g: Graph, cs: seq<nat>)
  {
    forall c :: c in cs ==> HasNode(g, c)
  }

  /** `centers[k]` is the first listed centre that the graph lacks. */
  predicate FirstMissing(g: Graph, centers: seq<nat>, k: nat)
  {
    k < |centers| && !HasNode(g, centers[k]) && forall j :: 0 <= j < k ==> HasNode(g, centers[j])
  }

  /** Scanning the centres in order: one more present centre, or the first missing one. */
  lemma AllInGraphStep(g: Graph, centers: seq<nat>, i: nat)
    requires i < |centers| && AllInGraph(g, centers[..i])
    ensures HasNode(g, centers[i]) ==> AllInGraph(g, centers[..i + 1])
    ensures !HasNode(g, centers[i]) ==> FirstMissing(g, centers, i) && exists c :: c in centers && !HasNode(g, c)
  {
    assert centers[..i + 1] == centers[..i] + [centers[i]];
    forall j | 0 <= j < i
      ensures HasNode(g, centers[j])
    {
      assert centers[j] in centers[..i];
    }
  }

  /** One round of the merge loop folds centre `i` into the running minimum. */
  lemma MinIntoStep(g: Graph, centers: seq<nat>, ts: seq<real>, i: nat, newTimes: map<nat, real>,
                    before: map<nat, real>, after: map<nat, real>)
    requires i < |centers| && newTimes.Keys == before.Keys == after.Keys
    requires forall v :: v in newTimes ==> newTimes[v] == Bucket(g, centers[i], ts, v)
    requires forall v :: v in before ==> before[v] == MergedBucket(g, centers[..i], ts, v)
    requires forall v :: v in after ==> after[v] == Min(before[v], newTimes[v])
    ensures forall v :: v in after ==> after[v] == MergedBucket(g, centers[..i + 1], ts, v)
  {
    var done := centers[..i + 1];
    assert done[..i] == centers[..i] && done[i] == centers[i];
  }

  /**
   * `sub_graphs_for_trip_times_from_list`: the per-node minimum, seeded with
   * `INFINITY`, of the buckets for each centre in turn. The first centre the
   * graph lacks stops it with `NodeNotFound` (when there are trip times).
   */
  method SubGraphsForTripTimesFromList(g: Graph, tripTimes: seq<real>, centers: seq<nat>)
    returns (r: Result<map<nat, real>>)
    requires ValidGraph(g) && NonNegativeTimes(g)
    ensures r.Err? <==> tripTimes != [] && exists c :: c in centers && !HasNode(g, c)
    ensures r.Err? ==> exists k: nat :: FirstMissing(g, centers, k) && r.error == NodeNotFound(centers[k])
    ensures r.Ok? ==> r.value.Keys == NodeIds(g)
    ensures r.Ok? ==> forall v :: v in r.value ==> r.value[v] == MergedBucket(g, centers, tripTimes, v)
  {
    var times: map<nat, real> := map v | v in NodeIds(g) :: INFINITY;
    assert centers[..0] == [];
    for i := 0 to |centers|
      invariant times.Keys == NodeIds(g)
      invariant forall v :: v in times ==> times[v] == MergedBucket(g, centers[..i], tripTimes, v)
      invariant tripTimes != [] ==> AllInGraph(g, centers[..i])
    {
      if tripTimes != [] {
        AllInGraphStep(g, centers, i);
      }
      var newTimes := SubGraphsForTripTimes(g, tripTimes, centers[i]);
      if newTimes.Err? {
        return Err(newTimes.error);
      }
      ghost var before := times;
      times := MinInto(times, newTimes.value);
      MinIntoStep(g, centers, tripTimes, i, newTimes.value, before, times);
    }
    assert centers[..|centers|] == centers;
    return Ok(times);
  }

  // ---------------------------------------------------------------------------
  // convex_hulls_for_trip_times: the point set behind each hull
  // ---------------------------------------------------------------------------

  /** Coordinates of the nodes of the ego graph of radius `t` around `c`. */
  ghost function EgoPoints(g: Graph, c: nat, t: real): (pts: set<Point>)
  {
    set v | v in NodeIds(g) && InEgo(g, c, t, v) :: g.nodes[v]
  }

  /** A larger radius never loses a point. */
  lemma EgoPointsNested(g: Graph, c: nat, t1: real, t2: real)
    requires t1 <= t2
    ensures EgoPoints(g, c, t1) <= EgoPoints(g, c, t2)
  {
    forall pt | pt in EgoPoints(g, c, t1)
      ensures pt in EgoPoints(g, c, t2)
    {
      var v :| v in NodeIds(g) && InEgo(g, c, t1, v) && g.nodes[v] == pt;
      EgoNested(g, c, t1, t2, v);
    }
  }

  /**
   * The point sets `convex_hulls_for_trip_times` hands to the hull
   * computation: one per trip time, from the largest trip time to the
   * smallest, each the coordinates of that trip time's ego graph.
   */
  method ConvexHullPointSets(g: Graph, tripTimes: seq<real>, center: nat) returns (r: Result<seq<set<Point>>>)
    requires ValidGraph(g) && NonNegativeTimes(g)
    ensures r.Err? <==> tripTimes != [] && !HasNode(g, center)
    ensures r.Err? ==> r.error == NodeNotFound(center)
    ensures r.Ok? ==> |r.value| == |tripTimes|
    ensures r.Ok? ==> forall i :: 0 <= i < |r.value| ==>
              r.value[i] == EgoPoints(g, center, SortDescending(tripTimes)[i])
    ensures r.Ok? ==> forall i, j :: 0 <= i <= j < |r.value| ==> r.value[j] <= r.value[i]
  {
    var desc := SortDescending(tripTimes);
    SortDescendingSameElements(tripTimes);
    var polys: seq<set<Point>> := [];
    for i := 0 to |desc|
      invariant |polys| == i
      invariant i > 0 ==> HasNode(g, center)
      invariant forall k :: 0 <= k < i ==> polys[k] == EgoPoints(g, center, desc[k])
    {
      var sub := EgoGraph(g, center, desc[i]);
      if sub.Err? {
        return Err(sub.error);
      }
      var nodes := sub.value;
      var points := set v | v in nodes :: g.nodes[v];
      assert points == EgoPoints(g, center, desc[i]);
      polys := polys + [points];
    }
    forall i, j | 0 <= i <= j < |polys|
      ensures polys[j] <= polys[i]
    {
      EgoPointsNested(g, center, desc[j], desc[i]);
    }
    return Ok(polys);
  }

  // ---------------------------------------------------------------------------
  // get_color_map and the node-size rule
  // ---------------------------------------------------------------------------

  /**
   * `{t: colors[i] for i, t in enumerate(desc)}`: later entries overwrite
   * earlier ones with the same key.
   */
  function EnumerateColors(desc: seq<real>, colors: seq<string>): (m: map<real, string>)
    requires |colors| == |desc|
    decreases |desc|
  {
    if desc == [] then map[]
    else
      var n := |desc| - 1;
      EnumerateColors(desc[..n], colors[..n])[desc[n] := colors[n]]
  }

  /**
   * The keys of the enumeration are the listed values, and each value gets the
   * colour at its last position.
   */
  lemma {:induction false} EnumerateColorsSlots(desc: seq<real>, colors: seq<string>)
    requires |colors| == |desc|
    ensures forall t :: t in EnumerateColors(desc, colors) <==> t in desc
    ensures forall i :: 0 <= i < |desc| && (forall j :: i < j < |desc| ==> desc[j] != desc[i]) ==>
              desc[i] in EnumerateColors(desc, colors) && EnumerateColors(desc, colors)[desc[i]] == colors[i]
    decreases |desc|
  {
    if desc != [] {
      var n := |desc| - 1;
      EnumerateColorsSlots(desc[..n], colors[..n]);
      assert desc == desc[..n] + [desc[n]];
      assert forall t :: t in desc <==> t in desc[..n] || t == desc[n];
      forall i | 0 <= i < n && (forall j :: i < j < |desc| ==> desc[j] != desc[i])
        ensures EnumerateColors(desc, colors)[desc[i]] == colors[i]
      {
        assert desc[..n][i] == desc[i] && colors[..n][i] == colors[i];
        assert forall j :: i < j < n ==> desc[..n][j] == desc[j];
      }
    }
  }

  /**
   * `get_color_map`: the i-th largest trip time gets colour slot `i` of
   * `colors` (the colormap's `len(trip_times)` colours), and `INFINITY`
   * maps to "none".
   */
  function GetColorMap(tripTimes: seq<real>, colors: seq<string>): (m: map<real, string>)
    requires |colors| == |tripTimes|
    ensures forall t :: t in m <==> t in tripTimes || t == INFINITY
    ensures m[INFINITY] == "none"
    ensures var desc := SortDescending(tripTimes);
            forall i :: 0 <= i < |desc| && desc[i] != INFINITY && (forall j :: i < j < |desc| ==> desc[j] != desc[i]) ==>
              desc[i] in m && m[desc[i]] == colors[i]
  {
    SortDescendingSameElements(tripTimes);
    EnumerateColorsSlots(SortDescending(tripTimes), colors);
    EnumerateColors(SortDescending(tripTimes), colors)[INFINITY := "none"]
  }

  /** The colour lookup of every merged bucket succeeds. */
  lemma MergedBucketHasColor(g: Graph, centers: seq<nat>, ts: seq<real>, colors: seq<string>, v: nat)
    requires |colors| == |ts|
    ensures MergedBucket(g, centers, ts, v) in GetColorMap(ts, colors)
  {
    MergedBucketRange(g, centers, ts, v);
  }

  /** The node sizes of `plot_node_isochrones_from_list`: 0 for `INFINITY`, 15 otherwise. */
  function NodeSizes(g: Graph, buckets: map<nat, real>): (ns: seq<int>)
    requires NodeIds(g) <= buckets.Keys
    ensures |ns| == |g.nodes|
    ensures forall v :: 0 <= v < |ns| ==> (ns[v] == 0 <==> buckets[v] == INFINITY) && (ns[v] == 0 || ns[v] == 15)
  {
    seq(|g.nodes|, v requires 0 <= v < |g.nodes| => if buckets[v] == INFINITY then 0 else 15)
  }

  /**
   * A node is drawn with size 0 exactly when no centre reaches it within any
   * trip time (trip times below `INFINITY`).
   */
  lemma HiddenIffUnreached(g: Graph, centers: seq<nat>, ts: seq<real>, buckets: map<nat, real>, v: nat)
    requires forall t :: t in ts ==> t < INFINITY
    requires NodeIds(g) <= buckets.Keys && HasNode(g, v) && buckets[v] == MergedBucket(g, centers, ts, v)
    ensures NodeSizes(g, buckets)[v] == 0 <==> forall c, t :: c in centers && t in ts ==> !InEgo(g, c, t, v)
  {
    MergedBucketInfinityIffUnreached(g, centers, ts, v);
  }
}
