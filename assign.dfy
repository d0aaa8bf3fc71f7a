/** Nearest-medoid assignment: the full pass that initialises the labels and the
    batched pass that each iteration runs with one task per point of a batch. */
module Assign {
  import opened Matrix

  /** Every medoid index names a point, and there is at least one medoid. */
  predicate ValidMedoids(n: nat, meds: seq<nat>)
  {
    |meds| > 0 && Indices(meds, n)
  }

  /** distmat[p, medoids]: the distances from point p to each medoid, in medoid order. */
  function MedoidDistances(d: seq<seq<int>>, p: nat, meds: seq<nat>): (r: seq<int>)
    requires IsMatrix(d, |d|) && p < |d| && Indices(meds, |d|)
    ensures |r| == |meds| && forall c :: 0 <= c < |meds| ==> r[c] == d[p][meds[c]]
  {
    seq(|meds|, c requires 0 <= c < |meds| => d[p][meds[c]])
  }

  /** Label c is a nearest medoid of point p, the first one among ties. */
  predicate IsNearest(d: seq<seq<int>>, meds: seq<nat>, p: nat, c: nat)
    requires IsMatrix(d, |d|) && p < |d| && Indices(meds, |d|)
  {
    c < |meds|
    && (forall e :: 0 <= e < |meds| ==> d[p][meds[c]] <= d[p][meds[e]])
    && (forall e :: 0 <= e < c ==> d[p][meds[c]] < d[p][meds[e]])
  }

  /** np.argmin(distmat[p, medoids]). */
  function NearestMedoid(d: seq<seq<int>>, p: nat, meds: seq<nat>): (r: nat)
    requires IsMatrix(d, |d|) && p < |d| && ValidMedoids(|d|, meds)
    ensures IsNearest(d, meds, p, r)
  {
    ArgMin(MedoidDistances(d, p, meds))
  }

  /** The nearest-medoid label is the only label with that property. */
  lemma NearestUnique(d: seq<seq<int>>, p: nat, meds: seq<nat>, c: nat)
    requires IsMatrix(d, |d|) && p < |d| && ValidMedoids(|d|, meds)
    requires IsNearest(d, meds, p, c)
    ensures c == NearestMedoid(d, p, meds)
  {
  }

  /** The labels of the initial pass: every point gets its nearest medoid. */
  function InitialLabels(d: seq<seq<int>>, meds: seq<nat>): (r: seq<nat>)
    requires IsMatrix(d, |d|) && ValidMedoids(|d|, meds)
    ensures |r| == |d|
    ensures forall p :: 0 <= p < |d| ==> IsNearest(d, meds, p, r[p])
  {
    seq(|d|, p requires 0 <= p < |d| => NearestMedoid(d, p, meds))
  }

  /** Labels that name a nearest medoid of every point are the initial pass's labels. */
  lemma NearestLabels(d: seq<seq<int>>, meds: seq<nat>, labels: seq<nat>)
    requires IsMatrix(d, |d|) && ValidMedoids(|d|, meds) && |labels| == |d|
    requires forall p :: 0 <= p < |d| ==> IsNearest(d, meds, p, labels[p])
    ensures InitialLabels(d, meds) == labels
  {
    var r := InitialLabels(d, meds);
    forall p | 0 <= p < |d|
      ensures r[p] == labels[p]
    {
      NearestUnique(d, p, meds, labels[p]);
    }
  }

  /** Points relabelled by the batched pass: floor(n / w) full batches of w points,
      never past the end and leaving fewer than w points out. */
  function Covered(n: nat, w: nat): (r: nat)
    requires w > 0
    ensures r <= n && n - r < w
  {
    assert n == (n / w) * w + n % w;
    (n / w) * w
  }

  /** The batched pass as written: the first Covered(n, w) points get their nearest
      medoid, the remaining n mod w points keep their label. */
  function Relabelled(d: seq<seq<int>>, meds: seq<nat>, labels: seq<nat>, w: nat): (r: seq<nat>)
    requires IsMatrix(d, |labels|) && ValidMedoids(|labels|, meds) && w > 0
    ensures |r| == |labels|
    ensures forall p :: 0 <= p < Covered(|labels|, w) ==> IsNearest(d, meds, p, r[p])
    ensures forall p :: Covered(|labels|, w) <= p < |labels| ==> r[p] == labels[p]
  {
    var n := Covered(|labels|, w);
    CoveredBounds(|labels|, w);
    seq(|labels|, p requires 0 <= p < |labels| => RelabelledAt(d, meds, labels, n, p))
  }

  /** Point p's label after the batched pass that relabels the first n points. */
  function RelabelledAt(d: seq<seq<int>>, meds: seq<nat>, labels: seq<nat>, n: nat, p: nat): (c: nat)
    requires IsMatrix(d, |labels|) && ValidMedoids(|labels|, meds) && n <= |labels| && p < |labels|
    ensures p < n ==> IsNearest(d, meds, p, c)
    ensures n <= p ==> c == labels[p]
  {
    if p < n then NearestMedoid(d, p, meds) else labels[p]
  }

  /** When w <= n at least one batch runs. */
  lemma CoveredBounds(n: nat, w: nat)
    requires w > 0
    ensures w <= n ==> w <= Covered(n, w)
  {
    if w <= n {
      assert n / w >= 1;
      assert (n / w) * w >= 1 * w;
    }
  }

  /** When w divides n the batched pass relabels every point, as the initial pass does. */
  lemma RelabelFullWhenDivides(d: seq<seq<int>>, meds: seq<nat>, labels: seq<nat>, w: nat)
    requires IsMatrix(d, |labels|) && ValidMedoids(|labels|, meds) && w > 0
    requires |labels| % w == 0
    ensures Relabelled(d, meds, labels, w) == InitialLabels(d, meds)
  {
    var n := |labels|;
    assert n == (n / w) * w + n % w;
    var r := Relabelled(d, meds, labels, w);
    var s := InitialLabels(d, meds);
    forall p | 0 <= p < n
      ensures r[p] == s[p]
    {
      NearestUnique(d, p, meds, r[p]);
      NearestUnique(d, p, meds, s[p]);
    }
  }

  /** Labels that already name every point's nearest medoid are left as they are. */
  lemma RelabelKeepsNearest(d: seq<seq<int>>, meds: seq<nat>, labels: seq<nat>, w: nat)
    requires IsMatrix(d, |labels|) && ValidMedoids(|labels|, meds) && w > 0
    requires InitialLabels(d, meds) == labels
    ensures Relabelled(d, meds, labels, w) == labels
  {
    var r := Relabelled(d, meds, labels, w);
    forall p | 0 <= p < Covered(|labels|, w)
      ensures r[p] == labels[p]
    {
      CoveredBounds(|labels|, w);
      NearestUnique(d, p, meds, r[p]);
    }
  }

  /** Running the batched pass twice with the same medoids changes nothing more. */
  lemma RelabelIdempotent(d: seq<seq<int>>, meds: seq<nat>, labels: seq<nat>, w: nat)
    requires IsMatrix(d, |labels|) && ValidMedoids(|labels|, meds) && w > 0
    ensures Relabelled(d, meds, Relabelled(d, meds, labels, w), w) == Relabelled(d, meds, labels, w)
  {
    var r := Relabelled(d, meds, labels, w);
    var rr := Relabelled(d, meds, r, w);
    forall p | 0 <= p < |labels|
      ensures rr[p] == r[p]
    {
      if p < Covered(|labels|, w) {
        NearestUnique(d, p, meds, r[p]);
        NearestUnique(d, p, meds, rr[p]);
      }
    }
  }

  /** The batched pass never moves a point to a farther medoid: a covered point
      takes its nearest one and the others keep theirs. */
  lemma RelabelNeverFarther(d: seq<seq<int>>, meds: seq<nat>, labels: seq<nat>, w: nat)
    requires IsMatrix(d, |labels|) && ValidMedoids(|labels|, meds) && w > 0
    requires forall p :: 0 <= p < |labels| ==> labels[p] < |meds|
    ensures var r := Relabelled(d, meds, labels, w);
            forall p :: 0 <= p < |labels| ==> d[p][meds[r[p]]] <= d[p][meds[labels[p]]]
  {
  }

  /** Three points, medoids 0 and 2, two workers: point 2 is a medoid, yet the
      batched pass leaves it in cluster 0 because only the first two points are
      relabelled. */
  lemma RelabelSkipsTail()
    ensures var d := [[0, 1, 5], [1, 0, 5], [5, 5, 0]];
            var r := Relabelled(d, [0, 2], [0, 0, 0], 2);
            r[2] == 0 && !IsNearest(d, [0, 2], 2, r[2]) && InitialLabels(d, [0, 2])[2] == 1
  {
    var d := [[0, 1, 5], [1, 0, 5], [5, 5, 0]];
    assert Covered(3, 2) == 2;
    assert d[2][[0, 2][1]] < d[2][[0, 2][0]];
    NearestUnique(d, 2, [0, 2], 1);
  }

  /** The initial full pass (a loop over every point). */
  method InitialAssignment(d: seq<seq<int>>, meds: seq<nat>) returns (labels: array<nat>)
    requires IsMatrix(d, |d|) && ValidMedoids(|d|, meds)
    ensures fresh(labels)
    ensures labels[..] == InitialLabels(d, meds)
  {
    labels := new nat[|d|](_ => 0);
    var i := 0;
    while i < |d|
      invariant 0 <= i <= |d| == labels.Length
      invariant forall p :: 0 <= p < i ==> labels[p] == NearestMedoid(d, p, meds)
    {
      labels[i] := ArgMin(MedoidDistances(d, i, meds));
      i := i + 1;
    }
  }

  /** The batched pass: batch i relabels points i * w .. i * w + w - 1, for the
      floor(n / w) full batches. */
  method Relabel(d: seq<seq<int>>, meds: seq<nat>, labels: array<nat>, w: nat)
    requires IsMatrix(d, labels.Length) && ValidMedoids(labels.Length, meds) && w > 0
    modifies labels
    ensures labels[..] == Relabelled(d, meds, old(labels[..]), w)
  {
    var n := labels.Length;
    var i, start := 0, 0;
    while i < n / w
      invariant 0 <= i <= n / w && start == i * w && start <= n
      invariant forall p :: 0 <= p < start ==> labels[p] == NearestMedoid(d, p, meds)
      invariant forall p :: start <= p < n ==> labels[p] == old(labels[p])
    {
      BatchFits(n, w, i);
      var j := 0;
      while j < w
        invariant 0 <= j <= w
        invariant forall p :: 0 <= p < start + j ==> labels[p] == NearestMedoid(d, p, meds)
        invariant forall p :: start + j <= p < n ==> labels[p] == old(labels[p])
      {
        labels[start + j] := ArgMin(MedoidDistances(d, start + j, meds));
        j := j + 1;
      }
      i, start := i + 1, start + w;
    }
    assert start == Covered(n, w);
  }

  lemma BatchFits(n: nat, w: nat, i: nat)
    requires w > 0 && i < n / w
    ensures i * w + w <= n
  {
    assert i + 1 <= n / w;
    assert (i + 1) * w <= (n / w) * w == Covered(n, w);
  }
}
