/** The farthest-point ("kmedoids++") initialisation: a seed point, then k - 1
    times the point farthest from the medoids chosen so far. */
module Init {
  import opened Matrix
  import opened Assign

  /** How many medoids the initialisation returns: the seed plus k - 1 more, and
      just the seed when k is 0 (range(-1) is empty). */
  function MedoidCount(k: nat): (r: nat)
    ensures r >= 1 && (k >= 1 ==> r == k)
  {
    if k == 0 then 1 else k
  }

  /** np.min(distmat[:, medoids], axis=1) at row p: the distance from point p to
      its closest chosen medoid, at most the distance to each of them. */
  function MinDistance(d: seq<seq<int>>, p: nat, chosen: seq<nat>): (r: int)
    requires IsMatrix(d, |d|) && p < |d| && ValidMedoids(|d|, chosen)
    ensures forall e {:trigger d[p][chosen[e]]} :: 0 <= e < |chosen| ==> r <= d[p][chosen[e]]
  {
    var last := d[p][chosen[|chosen| - 1]];
    if |chosen| == 1 then last
    else
      var rest := MinDistance(d, p, chosen[..|chosen| - 1]);
      assert forall e :: 0 <= e < |chosen| - 1 ==> chosen[e] == chosen[..|chosen| - 1][e];
      if last < rest then last else rest
  }

  /** The closest-medoid distance is the distance to one chosen medoid. */
  lemma {:induction false} MinDistanceIsClosest(d: seq<seq<int>>, p: nat, chosen: seq<nat>) returns (t: nat)
    requires IsMatrix(d, |d|) && p < |d| && ValidMedoids(|d|, chosen)
    ensures t < |chosen| && MinDistance(d, p, chosen) == d[p][chosen[t]]
  {
    if |chosen| == 1 {
      t := 0;
    } else {
      var init := chosen[..|chosen| - 1];
      var t' := MinDistanceIsClosest(d, p, init);
      t := if d[p][chosen[|chosen| - 1]] < d[p][init[t']] then |chosen| - 1 else t';
    }
  }

  /** np.argmax of the closest-medoid distances: the first point that is farthest
      from every chosen medoid. */
  function Farthest(d: seq<seq<int>>, chosen: seq<nat>): (r: nat)
    requires IsMatrix(d, |d|) && ValidMedoids(|d|, chosen)
    ensures r < |d|
    ensures forall p :: 0 <= p < |d| ==> MinDistance(d, p, chosen) <= MinDistance(d, r, chosen)
    ensures forall p :: 0 <= p < r ==> MinDistance(d, p, chosen) < MinDistance(d, r, chosen)
  {
    assert chosen[0] < |d|;
    ArgMax(ClosestDistances(d, chosen))
  }

  /** np.min(distmat[:, medoids], axis=1). */
  function ClosestDistances(d: seq<seq<int>>, chosen: seq<nat>): (r: seq<int>)
    requires IsMatrix(d, |d|) && ValidMedoids(|d|, chosen)
    ensures |r| == |d| && forall p :: 0 <= p < |d| ==> r[p] == MinDistance(d, p, chosen)
  {
    seq(|d|, p requires 0 <= p < |d| => MinDistance(d, p, chosen))
  }

  /** Position t of r is the farthest point from the medoids before it. */
  predicate FarthestStep(d: seq<seq<int>>, r: seq<nat>, t: nat)
    requires IsMatrix(d, |d|) && ValidMedoids(|d|, r) && 1 <= t < |r|
  {
    r[t] == Farthest(d, r[..t])
  }

  /** The medoids the initialisation picks from a given seed point. */
  function FarthestPoints(d: seq<seq<int>>, k: nat, seed: nat): (r: seq<nat>)
    requires IsMatrix(d, |d|) && seed < |d|
    ensures |r| == MedoidCount(k) && r[0] == seed && ValidMedoids(|d|, r)
  {
    if k <= 1 then [seed]
    else
      var prev := FarthestPoints(d, k - 1, seed);
      assert prev[0] < |d|;
      prev + [Farthest(d, prev)]
  }

  /** Every medoid after the seed is the farthest point from the medoids before it. */
  lemma {:induction false} FarthestPointsSteps(d: seq<seq<int>>, k: nat, seed: nat)
    requires IsMatrix(d, |d|) && seed < |d|
    ensures forall t :: 1 <= t < |FarthestPoints(d, k, seed)| ==> FarthestStep(d, FarthestPoints(d, k, seed), t)
  {
    if k > 1 {
      var prev := FarthestPoints(d, k - 1, seed);
      FarthestPointsSteps(d, k - 1, seed);
      var r := prev + [Farthest(d, prev)];
      assert r == FarthestPoints(d, k, seed);
      forall t | 1 <= t < |r|
        ensures FarthestStep(d, r, t)
      {
        assert r[..t] == prev[..t];
        if t < |prev| {
          assert FarthestStep(d, prev, t);
        } else {
          assert r[..t] == prev;
        }
      }
    }
  }

  /** better_medoids_initialization, with the point drawn by the seeded generator
      passed in as `seed`. */
  method BetterMedoidsInitialization(d: seq<seq<int>>, k: nat, seed: nat) returns (medoids: seq<nat>)
    requires IsMatrix(d, |d|) && seed < |d|
    ensures medoids == FarthestPoints(d, k, seed)
  {
    medoids := [seed];
    var i := 0;
    while i + 1 < k
      invariant i + 1 <= MedoidCount(k)
      invariant medoids == FarthestPoints(d, i + 1, seed)
    {
      FarthestPointsNext(d, i + 1, seed);
      medoids := medoids + [Farthest(d, medoids)];
      i := i + 1;
    }
    assert i + 1 == MedoidCount(k);
    if k == 0 {
      assert FarthestPoints(d, 0, seed) == FarthestPoints(d, 1, seed);
    }
  }

  /** One more medoid: the farthest point from the ones before. */
  lemma FarthestPointsNext(d: seq<seq<int>>, k: nat, seed: nat)
    requires IsMatrix(d, |d|) && seed < |d| && k >= 1
    ensures FarthestPoints(d, k + 1, seed)
         == FarthestPoints(d, k, seed) + [Farthest(d, FarthestPoints(d, k, seed))]
  {
  }

  /** In a dissimilarity, a chosen point has distance 0 to the chosen medoids and no
      point has a negative one. */
  lemma ChosenAtZero(d: seq<seq<int>>, chosen: seq<nat>, p: nat)
    requires IsMatrix(d, |d|) && IsDissimilarity(d) && ValidMedoids(|d|, chosen) && p < |d|
    ensures MinDistance(d, p, chosen) >= 0
    ensures p in chosen ==> MinDistance(d, p, chosen) == 0
  {
    var u := MinDistanceIsClosest(d, p, chosen);
    if p in chosen {
      var t :| 0 <= t < |chosen| && chosen[t] == p;
      assert MinDistance(d, p, chosen) <= d[p][chosen[t]];
    }
  }

  /** The farthest point is an already chosen one only when every point lies at
      distance 0 from some chosen medoid. */
  lemma RepeatOnlyWhenCovered(d: seq<seq<int>>, chosen: seq<nat>)
    requires IsMatrix(d, |d|) && IsDissimilarity(d) && ValidMedoids(|d|, chosen)
    requires Farthest(d, chosen) in chosen
    ensures forall p :: 0 <= p < |d| ==> MinDistance(d, p, chosen) == 0
  {
    ChosenAtZero(d, chosen, Farthest(d, chosen));
    forall p | 0 <= p < |d|
      ensures MinDistance(d, p, chosen) == 0
    {
      ChosenAtZero(d, chosen, p);
    }
  }

  /** s without any occurrence of x. */
  function Without(s: seq<nat>, x: nat): (r: seq<nat>)
    ensures forall y :: y in r <==> y in s && y != x
    ensures x in s ==> |r| < |s|
    ensures |r| <= |s|
  {
    if s == [] then []
    else (if s[0] == x then [] else [s[0]]) + Without(s[1..], x)
  }

  /** Fewer than n values leave some point of 0 .. n - 1 unchosen. */
  lemma {:induction false} Unchosen(chosen: seq<nat>, n: nat) returns (p: nat)
    requires |chosen| < n
    decreases n
    ensures p < n && p !in chosen
  {
    if n - 1 !in chosen {
      p := n - 1;
    } else {
      var rest := Without(chosen, n - 1);
      p := Unchosen(rest, n - 1);
    }
  }

  /** When distinct points are at positive distance, asking for at most n medoids
      yields pairwise distinct ones. */
  lemma {:induction false} DistinctWhenSeparated(d: seq<seq<int>>, k: nat, seed: nat)
    requires IsMatrix(d, |d|) && IsDissimilarity(d) && seed < |d| && k <= |d|
    requires forall p, q :: 0 <= p < |d| && 0 <= q < |d| && p != q ==> d[p][q] > 0
    ensures Distinct(FarthestPoints(d, k, seed))
  {
    if k > 1 {
      DistinctWhenSeparated(d, k - 1, seed);
      var prev := FarthestPoints(d, k - 1, seed);
      var f := Farthest(d, prev);
      var r := FarthestPoints(d, k, seed);
      assert r == prev + [f];
      var p := Unchosen(prev, |d|);
      var u := MinDistanceIsClosest(d, p, prev);
      assert MinDistance(d, p, prev) > 0;
      if f in prev {
        RepeatOnlyWhenCovered(d, prev);
        assert false;
      }
      forall s, t | 0 <= s < t < |r|
        ensures r[s] != r[t]
      {
        if t < |prev| {
          assert r[s] == prev[s] && r[t] == prev[t] && prev[s] != prev[t];
        } else {
          assert r[s] == prev[s] && r[t] == f && prev[s] in prev;
        }
      }
    }
  }
}
