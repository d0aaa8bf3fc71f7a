/** Worker allocation for the branch with more workers than clusters: one worker
    per cluster, the rest shared in proportion to cluster size, and the rounding
    leftover handed one each to the largest clusters. Also the cap that keeps the
    number of workers at most the number of points. */
module Workers {
  import opened Matrix
  import opened Medoid

  /** np.where(labels == c)[0].shape[0] for c in range(k). */
  function Sizes(labels: seq<nat>, k: nat): (r: seq<int>)
    ensures |r| == k && forall c :: 0 <= c < k ==> r[c] == |Members(labels, c)|
  {
    seq(k, c requires 0 <= c < k => |Members(labels, c)|)
  }

  /** When every label is a cluster index, the sizes add up to the number of points. */
  lemma {:induction false} SizesSum(labels: seq<nat>, k: nat)
    requires forall p :: 0 <= p < |labels| ==> labels[p] < k
    ensures Sum(Sizes(labels, k)) == |labels|
  {
    if labels == [] {
      SumZero(Sizes(labels, k));
    } else {
      var n := |labels| - 1;
      var x := labels[n];
      var before := Sizes(labels[..n], k);
      SizesSum(labels[..n], k);
      SizesSnoc(labels, k);
      SumUpdate(before, x, before[x] + 1);
    }
  }

  /** The last point adds one to its own cluster's size and nothing elsewhere. */
  lemma SizesSnoc(labels: seq<nat>, k: nat)
    requires |labels| > 0 && labels[|labels| - 1] < k
    ensures var n := |labels| - 1;
            var before := Sizes(labels[..n], k);
            Sizes(labels, k) == before[labels[n] := before[labels[n]] + 1]
  {
    var n := |labels| - 1;
    var before := Sizes(labels[..n], k);
    var after := Sizes(labels, k);
    forall c | 0 <= c < k
      ensures after[c] == before[labels[n] := before[labels[n]] + 1][c]
    {
      assert |Members(labels, c)| == |Members(labels[..n], c)| + (if labels[n] == c then 1 else 0);
    }
  }

  lemma {:induction false} SumZero(s: seq<int>)
    requires forall i :: 0 <= i < |s| ==> s[i] == 0
    ensures Sum(s) == 0
  {
    if s != [] {
      SumZero(s[1..]);
    }
  }

  // ---------------------------------------------------------------------------
  // Proportional shares. The source computes size / total * (W - K) in floating
  // point and truncates; the model uses the exact quotient size * (W - K) / total.

  /** floor(size * (w - k) / n): cluster c's part of the w - k workers beyond the
      first one per cluster. */
  function Share(sizes: seq<int>, w: nat, n: nat, c: nat): (r: int)
    requires n > 0 && w >= |sizes| && c < |sizes|
    ensures sizes[c] >= 0 ==> r >= 0
  {
    var x := sizes[c] * (w - |sizes|);
    assert sizes[c] >= 0 ==> x >= 0;
    x / n
  }

  /** The share is the exact proportional part size * (w - k) / n rounded down. */
  lemma ShareIsFloor(sizes: seq<int>, w: nat, n: nat, c: nat)
    requires n > 0 && w >= |sizes| && c < |sizes|
    ensures var r := Share(sizes, w, n, c);
            n * r <= sizes[c] * (w - |sizes|) < n * (r + 1)
  {
    var x := sizes[c] * (w - |sizes|);
    assert x == n * (x / n) + x % n;
  }

  /** 1 + Share for every cluster. */
  function BaseShares(sizes: seq<int>, w: nat, n: nat): (r: seq<int>)
    requires n > 0 && w >= |sizes|
    ensures |r| == |sizes|
    ensures forall c :: 0 <= c < |sizes| ==> r[c] == 1 + Share(sizes, w, n, c)
  {
    seq(|sizes|, c requires 0 <= c < |sizes| => 1 + Share(sizes, w, n, c))
  }

  /** The truncated proportional shares of a workers. */
  function Quotients(sizes: seq<int>, a: nat, n: nat): (r: seq<int>)
    requires n > 0
    ensures |r| == |sizes| && forall c :: 0 <= c < |sizes| ==> r[c] == sizes[c] * a / n
  {
    seq(|sizes|, c requires 0 <= c < |sizes| => sizes[c] * a / n)
  }

  /** The shares lose less than one worker per cluster to truncation:
      n * Sum(quotients) <= a * Sum(sizes) <= n * Sum(quotients) + (n - 1) * |sizes|. */
  lemma {:induction false} QuotientBounds(sizes: seq<int>, a: nat, n: nat)
    requires n > 0
    ensures n * Sum(Quotients(sizes, a, n)) <= a * Sum(sizes)
    ensures a * Sum(sizes) <= n * Sum(Quotients(sizes, a, n)) + (n - 1) * |sizes|
  {
    if sizes != [] {
      var qs := Quotients(sizes, a, n);
      assert Quotients(sizes[1..], a, n) == qs[1..];
      QuotientBounds(sizes[1..], a, n);
      QuotientStep(n, sizes[0], a, Sum(sizes[1..]), Sum(qs[1..]), |sizes| - 1);
    }
  }

  /** One more term in QuotientBounds. */
  lemma QuotientStep(n: int, s0: int, a: int, rest: int, qrest: int, len: int)
    requires n > 0
    requires n * qrest <= a * rest <= n * qrest + (n - 1) * len
    ensures n * ((s0 * a) / n + qrest) <= a * (s0 + rest)
    ensures a * (s0 + rest) <= n * ((s0 * a) / n + qrest) + (n - 1) * (len + 1)
  {
    var x := s0 * a;
    assert x == n * (x / n) + x % n;
    assert a * (s0 + rest) == x + a * rest;
    assert n * (x / n + qrest) == n * (x / n) + n * qrest;
    assert (n - 1) * (len + 1) == (n - 1) * len + (n - 1);
  }

  /** A gap g with 0 <= n * g <= (n - 1) * k lies in 0 .. k - 1. */
  lemma GapBounds(n: int, k: int, g: int)
    requires n > 0 && k > 0 && 0 <= n * g <= (n - 1) * k
    ensures 0 <= g < k
  {
  }

  lemma LeftoverArith(n: int, k: int, a: int, q: int)
    requires n > 0 && k > 0 && n * q <= a * n <= n * q + (n - 1) * k
    ensures 0 <= a - q < k
  {
    assert n * (a - q) == a * n - n * q;
    GapBounds(n, k, a - q);
  }

  /** With total n > 0 the leftover w - Sum(base) is at least 0 and below k. */
  lemma LeftoverBounds(sizes: seq<int>, w: nat, n: nat)
    requires n > 0 && w >= |sizes| && Sum(sizes) == n && |sizes| > 0
    ensures 0 <= w - Sum(BaseShares(sizes, w, n)) < |sizes|
  {
    var k := |sizes|;
    var a := w - k;
    var base := BaseShares(sizes, w, n);
    var qs := Quotients(sizes, a, n);
    SumPlusOne(base, qs);
    QuotientBounds(sizes, a, n);
    LeftoverArith(n, k, a, Sum(qs));
  }

  // ---------------------------------------------------------------------------
  // np.argsort(sizes)[::-1]: cluster indices from largest to smallest size. The
  // reversed stable order puts, among equal sizes, the higher index first.

  /** Cluster a comes before cluster b in the descending order. */
  predicate Before(sizes: seq<int>, a: nat, b: nat)
    requires a < |sizes| && b < |sizes|
  {
    sizes[a] > sizes[b] || (sizes[a] == sizes[b] && a > b)
  }

  predicate SortedDescending(sizes: seq<int>, order: seq<nat>)
    requires Indices(order, |sizes|)
  {
    forall i, j :: 0 <= i < j < |order| ==> Before(sizes, order[i], order[j])
  }

  /** Insertion of cluster c into a descending order. */
  function Insert(sizes: seq<int>, order: seq<nat>, c: nat): (r: seq<nat>)
    requires Indices(order, |sizes|) && c < |sizes|
    ensures |r| == |order| + 1 && Indices(r, |sizes|)
    ensures forall x :: x in r <==> x in order || x == c
  {
    if order == [] then [c]
    else if Before(sizes, c, order[0]) then [c] + order
    else [order[0]] + Insert(sizes, order[1..], c)
  }

  /** Insertion keeps the order descending. */
  lemma {:induction false} InsertSorted(sizes: seq<int>, order: seq<nat>, c: nat)
    requires Indices(order, |sizes|) && c < |sizes|
    requires SortedDescending(sizes, order) && c !in order
    ensures SortedDescending(sizes, Insert(sizes, order, c))
  {
    var r := Insert(sizes, order, c);
    if order != [] && !Before(sizes, c, order[0]) {
      var tail := order[1..];
      assert SortedDescending(sizes, tail) by {
        forall i, j | 0 <= i < j < |tail|
          ensures Before(sizes, tail[i], tail[j])
        {
          assert tail[i] == order[i + 1] && tail[j] == order[j + 1];
        }
      }
      assert c !in tail;
      InsertSorted(sizes, tail, c);
      var t := Insert(sizes, tail, c);
      assert r == [order[0]] + t;
      forall j | 0 < j < |r|
        ensures Before(sizes, order[0], r[j])
      {
        assert r[j] == t[j - 1] && t[j - 1] in t;
        if r[j] != c {
          var i :| 0 <= i < |tail| && tail[i] == r[j];
          assert order[i + 1] == r[j];
        }
      }
      forall i, j | 0 <= i < j < |r|
        ensures Before(sizes, r[i], r[j])
      {
        if i > 0 {
          assert r[i] == t[i - 1] && r[j] == t[j - 1];
        }
      }
    } else if order != [] {
      forall j | 0 < j < |r|
        ensures Before(sizes, c, r[j])
      {
        assert r[j] == order[j - 1];
        if j > 1 {
          assert Before(sizes, order[0], order[j - 1]);
        }
      }
      forall i, j | 0 <= i < j < |r|
        ensures Before(sizes, r[i], r[j])
      {
        if i > 0 {
          assert r[i] == order[i - 1] && r[j] == order[j - 1];
        }
      }
    }
  }

  /** The clusters 0 .. k - 1 from largest to smallest. */
  function DescendingOrder(sizes: seq<int>, k: nat): (r: seq<nat>)
    requires k <= |sizes|
    ensures |r| == k && Indices(r, |sizes|)
    ensures forall c: nat :: c in r <==> c < k
  {
    if k == 0 then []
    else Insert(sizes, DescendingOrder(sizes, k - 1), k - 1)
  }

  lemma {:induction false} DescendingOrderSorted(sizes: seq<int>, k: nat)
    requires k <= |sizes|
    ensures SortedDescending(sizes, DescendingOrder(sizes, k))
  {
    if k > 0 {
      DescendingOrderSorted(sizes, k - 1);
      InsertSorted(sizes, DescendingOrder(sizes, k - 1), k - 1);
    }
  }

  /** A strictly ordered list holds every cluster once. */
  lemma SortedIsDistinct(sizes: seq<int>, order: seq<nat>)
    requires Indices(order, |sizes|) && SortedDescending(sizes, order)
    ensures Distinct(order)
  {
    forall i, j | 0 <= i < j < |order|
      ensures order[i] != order[j]
    {
      assert Before(sizes, order[i], order[j]);
    }
  }

  // ---------------------------------------------------------------------------
  // thread_distribution[cluster_ind_sorted[:leftover]] += 1

  /** Add one to every listed position (numpy adds once even for a repeated index). */
  function Bump(td: seq<int>, idx: seq<nat>): (r: seq<int>)
    ensures |r| == |td|
    ensures forall c :: 0 <= c < |td| ==> r[c] == td[c] + (if c in idx then 1 else 0)
  {
    seq(|td|, c requires 0 <= c < |td| => td[c] + (if c in idx then 1 else 0))
  }

  /** Bumping distinct positions adds their number to the total. */
  lemma {:induction false} SumBump(td: seq<int>, idx: seq<nat>)
    requires Indices(idx, |td|) && Distinct(idx)
    ensures Sum(Bump(td, idx)) == Sum(td) + |idx|
  {
    if idx == [] {
      assert Bump(td, idx) == td;
    } else {
      var m := |idx| - 1;
      var x := idx[m];
      var prev := Bump(td, idx[..m]);
      SumBump(td, idx[..m]);
      assert x !in idx[..m];
      assert forall c :: c in idx <==> c in idx[..m] || c == x;
      assert Bump(td, idx) == prev[x := prev[x] + 1];
      SumUpdate(prev, x, prev[x] + 1);
    }
  }

  /** cluster_ind_sorted[:w - sum(base)]: the largest clusters, one for each worker
      the shares leave over. */
  function TopClusters(sizes: seq<int>, w: nat, n: nat): (r: seq<nat>)
    requires n > 0 && w >= |sizes| > 0 && Sum(sizes) == n
    ensures |r| < |sizes| && Indices(r, |sizes|)
    ensures Sum(BaseShares(sizes, w, n)) + |r| == w
  {
    var order := DescendingOrder(sizes, |sizes|);
    LeftoverBounds(sizes, w, n);
    order[..w - Sum(BaseShares(sizes, w, n))]
  }

  /** The number of workers of each cluster in the branch with more workers
      (w) than clusters (|sizes|), for n points in all. */
  function ThreadDistribution(sizes: seq<int>, w: nat, n: nat): (r: seq<int>)
    requires n > 0 && w > |sizes| && (|sizes| > 0 ==> Sum(sizes) == n)
    ensures |r| == |sizes|
  {
    if |sizes| == 0 then []
    else Bump(BaseShares(sizes, w, n), TopClusters(sizes, w, n))
  }

  /** All w workers are handed out. */
  lemma ThreadDistributionTotal(sizes: seq<int>, w: nat, n: nat)
    requires n > 0 && w > |sizes| > 0 && Sum(sizes) == n
    ensures Sum(ThreadDistribution(sizes, w, n)) == w
  {
    var order := DescendingOrder(sizes, |sizes|);
    var top := TopClusters(sizes, w, n);
    DescendingOrderSorted(sizes, |sizes|);
    SortedIsDistinct(sizes, order);
    assert top == order[..|top|];
    SumBump(BaseShares(sizes, w, n), top);
  }

  /** Every cluster gets at least one worker: its share plus one, and possibly one
      more. */
  lemma ThreadDistributionShares(sizes: seq<int>, w: nat, n: nat)
    requires n > 0 && w > |sizes| && (|sizes| > 0 ==> Sum(sizes) == n)
    requires forall c :: 0 <= c < |sizes| ==> sizes[c] >= 0
    ensures var r := ThreadDistribution(sizes, w, n);
            forall c :: 0 <= c < |sizes| ==>
              r[c] >= 1 && (r[c] == 1 + Share(sizes, w, n, c) || r[c] == 2 + Share(sizes, w, n, c))
  {
    forall c | 0 <= c < |sizes|
      ensures Share(sizes, w, n, c) >= 0
    {
      assert sizes[c] * (w - |sizes|) >= 0;
    }
  }

  /** An extra worker never goes to a cluster smaller than one left without. */
  lemma ThreadDistributionLargestFirst(sizes: seq<int>, w: nat, n: nat, a: nat, b: nat)
    requires n > 0 && w > |sizes| && Sum(sizes) == n && a < |sizes| && b < |sizes|
    requires ThreadDistribution(sizes, w, n)[a] == 2 + Share(sizes, w, n, a)
    requires ThreadDistribution(sizes, w, n)[b] == 1 + Share(sizes, w, n, b)
    ensures sizes[a] >= sizes[b]
  {
    var k := |sizes|;
    var order := DescendingOrder(sizes, k);
    var top := TopClusters(sizes, w, n);
    var L := |top|;
    var base := BaseShares(sizes, w, n);
    var r := Bump(base, top);
    assert r == ThreadDistribution(sizes, w, n);
    assert r[a] == base[a] + (if a in top then 1 else 0);
    assert r[b] == base[b] + (if b in top then 1 else 0);
    assert a in top && b !in top;
    var i :| 0 <= i < L && top[i] == a;
    assert b in order;
    var j :| 0 <= j < k && order[j] == b;
    assert top[i] == order[i] && i < j;
    DescendingOrderSorted(sizes, k);
    assert Before(sizes, order[i], order[j]);
  }

  /** The leftover goes to distinct clusters. */
  lemma TopClustersDistinct(sizes: seq<int>, w: nat, n: nat)
    requires n > 0 && w >= |sizes| > 0 && Sum(sizes) == n
    ensures Distinct(TopClusters(sizes, w, n))
  {
    var order := DescendingOrder(sizes, |sizes|);
    DescendingOrderSorted(sizes, |sizes|);
    SortedIsDistinct(sizes, order);
    var top := TopClusters(sizes, w, n);
    assert forall i :: 0 <= i < |top| ==> top[i] == order[i];
  }

  /** thread_distribution as the program builds it: an array of 1 + share per
      cluster, then one more for each of the largest clusters, written in place. */
  method AllocateThreads(sizes: seq<int>, w: nat, n: nat) returns (td: array<int>)
    requires n > 0 && w > |sizes| && (|sizes| > 0 ==> Sum(sizes) == n)
    ensures fresh(td) && td[..] == ThreadDistribution(sizes, w, n)
  {
    var k := |sizes|;
    td := new int[k](c requires 0 <= c < k => 1 + Share(sizes, w, n, c));
    if k == 0 {
      return;
    }
    ghost var base := BaseShares(sizes, w, n);
    assert td[..] == base;
    var top := TopClusters(sizes, w, n);
    TopClustersDistinct(sizes, w, n);
    var i := 0;
    while i < |top|
      invariant 0 <= i <= |top| && td.Length == k
      invariant forall c :: 0 <= c < k ==> td[c] == base[c] + (if c in top[..i] then 1 else 0)
    {
      assert top[i] !in top[..i];
      assert forall c :: c in top[..i + 1] <==> c in top[..i] || c == top[i];
      td[top[i]] := td[top[i]] + 1;
      i := i + 1;
    }
    assert top[..i] == top;
  }

  /** main(): more workers than points are cut down to one per point. */
  function CapWorkers(n: nat, w: nat): (r: nat)
    ensures r <= n && r <= w && (r == w || r == n)
    ensures w <= n ==> r == w
  {
    if n < w then n else w
  }
}
