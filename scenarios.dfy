/**
 * A three-node chain A -> B -> C (1000 m, then 300 m, walked at 6 km/h) with
 * trip times [3, 10, 20]: the buckets from A, from B and merged over both.
 */
module Scenarios {
  import opened Graphs
  import opened EgoSearch
  import opened IsochronePlots
  import GraphBuilder

  const A: nat := 0
  const B: nat := 1
  const C: nat := 2

  const AB: Edge := Edge(A, B, 1000.0, 10.0)
  const BC: Edge := Edge(B, C, 300.0, 3.0)

  /** The network before travel times are derived. */
  const Raw: Graph := Graph([Point(0.0, 0.0), Point(1000.0, 0.0), Point(1300.0, 0.0)],
                            [Edge(A, B, 1000.0, 0.0), Edge(B, C, 300.0, 0.0)])

  /** The network with travel times. */
  const Chain: Graph := Graph(Raw.nodes, [AB, BC])

  const TripTimes: seq<real> := [3.0, 10.0, 20.0]

  /** The chain's times are the ones the builder derives at 6 km/h. */
  lemma ChainTimesDerived()
    ensures GraphBuilder.TimesDerived(Raw, Chain, 6.0)
    ensures ValidGraph(Chain) && NonNegativeTimes(Chain)
  {
    GraphBuilder.EdgeTimeExamples();
    GraphBuilder.DerivedGraphSearchable(Raw, Chain, 6.0);
  }

  /** The only walks of the chain: the empty one, A->B, B->C and A->B->C. */
  lemma {:induction false} ChainWalks(s: nat, p: seq<Edge>, v: nat)
    requires IsWalk(Chain, s, p, v)
    ensures || (p == [] && v == s)
            || (p == [AB] && s == A && v == B)
            || (p == [BC] && s == B && v == C)
            || (p == [AB, BC] && s == A && v == C)
    decreases |p|
  {
    if p != [] {
      var q, e := p[..|p| - 1], p[|p| - 1];
      assert p == q + [e];
      ChainWalks(s, q, e.src);
    }
  }

  /** From A, B lies within `t` exactly when `t >= 10`, and C exactly when `t >= 13`. */
  lemma EgoFromA(t: real)
    ensures InEgo(Chain, A, t, B) <==> t >= 10.0
    ensures InEgo(Chain, A, t, C) <==> t >= 13.0
  {
    assert [AB][..0] == [];
    assert AB in Chain.edges && IsWalk(Chain, A, [], A);
    assert IsWalk(Chain, A, [AB], B);
    assert Cost([AB]) == 10.0;
    assert [AB, BC][..1] == [AB];
    assert IsWalk(Chain, A, [AB, BC], C) && Cost([AB, BC]) == 13.0;
    forall p | IsWalk(Chain, A, p, B)
      ensures Cost(p) == 10.0
    {
      ChainWalks(A, p, B);
    }
    forall p | IsWalk(Chain, A, p, C)
      ensures Cost(p) == 13.0
    {
      ChainWalks(A, p, C);
    }
  }

  /** From B, A is never reached (there is no edge into A) and C lies within `t` exactly when `t >= 3`. */
  lemma EgoFromB(t: real)
    ensures !InEgo(Chain, B, t, A)
    ensures InEgo(Chain, B, t, C) <==> t >= 3.0
  {
    assert [BC][..0] == [];
    assert BC in Chain.edges && IsWalk(Chain, B, [], B);
    assert IsWalk(Chain, B, [BC], C);
    assert Cost([BC]) == 3.0;
    forall p | IsWalk(Chain, B, p, A)
      ensures false
    {
      ChainWalks(B, p, A);
    }
    forall p | IsWalk(Chain, B, p, C)
      ensures Cost(p) == 3.0
    {
      ChainWalks(B, p, C);
    }
  }

  /** From A: A gets 3 (distance 0), B gets 10 (distance 10), C gets 20 (distance 13). */
  lemma BucketsFromA()
    ensures Bucket(Chain, A, TripTimes, A) == 3.0
    ensures Bucket(Chain, A, TripTimes, B) == 10.0
    ensures Bucket(Chain, A, TripTimes, C) == 20.0
  {
    CenterGetsSmallestTripTime(Chain, A, TripTimes);
    EgoFromA(3.0);
    EgoFromA(10.0);
    EgoFromA(20.0);
    assert InEgo(Chain, A, 10.0, B);
    BucketOfSmallestCover(Chain, A, TripTimes, B, 10.0);
    assert InEgo(Chain, A, 20.0, C);
    BucketOfSmallestCover(Chain, A, TripTimes, C, 20.0);
  }

  /** From B: A stays at `INFINITY` (no edge B -> A), B gets 3, C gets 3 (distance 3). */
  lemma BucketsFromB()
    ensures Bucket(Chain, B, TripTimes, A) == INFINITY
    ensures Bucket(Chain, B, TripTimes, B) == 3.0
    ensures Bucket(Chain, B, TripTimes, C) == 3.0
  {
    CenterGetsSmallestTripTime(Chain, B, TripTimes);
    EgoFromB(3.0);
    EgoFromB(10.0);
    EgoFromB(20.0);
    assert !Covered(Chain, B, TripTimes, A);
    BucketOfSmallestCover(Chain, B, TripTimes, A, INFINITY);
    assert InEgo(Chain, B, 3.0, C);
    BucketOfSmallestCover(Chain, B, TripTimes, C, 3.0);
  }

  /**
   * The `INFINITY` seed of the merge caps a trip time above it: from A alone
   * with the single trip time 20000, A's bucket is 20000, but its merged
   * bucket is `INFINITY`.
   */
  lemma MergeCapsAtInfinity()
    ensures Bucket(Chain, A, [20000.0], A) == 20000.0
    ensures MergedBucket(Chain, [A], [20000.0], A) == INFINITY
  {
    CenterGetsSmallestTripTime(Chain, A, [20000.0]);
    assert [A][..0] == [];
  }

  /** Merged over the centres A and B, every node gets 3. */
  lemma MergedBucketsFromAAndB()
    ensures MergedBucket(Chain, [A, B], TripTimes, A) == 3.0
    ensures MergedBucket(Chain, [A, B], TripTimes, B) == 3.0
    ensures MergedBucket(Chain, [A, B], TripTimes, C) == 3.0
  {
    BucketsFromA();
    BucketsFromB();
    assert [A, B][..1] == [A];
    assert [A][..0] == [];
    forall v | v in {A, B, C}
      ensures MergedBucket(Chain, [A, B], TripTimes, v) ==
              Min(Min(INFINITY, Bucket(Chain, A, TripTimes, v)), Bucket(Chain, B, TripTimes, v))
    {
      assert MergedBucket(Chain, [A], TripTimes, v) == Min(INFINITY, Bucket(Chain, A, TripTimes, v));
    }
  }
}
