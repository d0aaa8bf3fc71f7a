/** The clustering driver: one iteration (`kmedoids_iter`), the loop that repeats it
    until the labels stop changing (`kmedoids`), and the worker cap of `main`.
    Every pool dispatch runs its tasks in dispatch order and collects their
    results in that order. */
module Engine {
  import opened Results
  import opened Matrix
  import opened Medoid
  import opened Assign
  import opened Init
  import opened Workers

  /** The split-and-combine choice and the relabelling pass, either as the program
      writes them or corrected to what they evidently intend. */
  datatype Variant = AsWritten | Corrected

  /** Medoids and labels between two iterations. */
  datatype State = State(medoids: seq<nat>, labels: seq<nat>)

  /** What a finished run returns: medoids, labels and whether it converged. */
  datatype Outcome = Outcome(medoids: seq<nat>, labels: seq<nat>, converged: bool)

  /** Medoids name points, there are MedoidCount(k) of them, and every label names a
      medoid. */
  predicate ValidState(d: seq<seq<int>>, k: nat, meds: seq<nat>, labels: seq<nat>)
  {
    IsMatrix(d, |labels|) && |labels| > 0
    && |meds| == MedoidCount(k) && Indices(meds, |labels|)
    && forall p :: 0 <= p < |labels| ==> labels[p] < |meds|
  }

  // ---------------------------------------------------------------------------
  // Update phase

  /** Workers per cluster in the branch with more workers than clusters. */
  function ClusterWorkers(labels: seq<nat>, k: nat, w: nat): (r: seq<nat>)
    requires |labels| > 0 && w > k
    requires k > 0 ==> forall p :: 0 <= p < |labels| ==> labels[p] < k
    ensures |r| == k && forall c :: 0 <= c < k ==> r[c] >= 1
  {
    var sizes := Sizes(labels, k);
    SizesSumWhenClusters(labels, k);
    ThreadDistributionShares(sizes, w, |labels|);
    var td := ThreadDistribution(sizes, w, |labels|);
    seq(k, c requires 0 <= c < k => td[c])
  }

  lemma SizesSumWhenClusters(labels: seq<nat>, k: nat)
    requires k > 0 ==> forall p :: 0 <= p < |labels| ==> labels[p] < k
    ensures k > 0 ==> Sum(Sizes(labels, k)) == |labels|
  {
    if k > 0 {
      SizesSum(labels, k);
    }
  }

  /** The medoid of cluster c computed by m workers over contiguous pieces. */
  function SplitMedoid(v: Variant, d: seq<seq<int>>, labels: seq<nat>, c: nat, m: nat): (r: Result<nat>)
    requires IsMatrix(d, |labels|)
    ensures r.Ok? <==> 1 <= m <= |Members(labels, c)|
    ensures r.Ok? ==> r.value < |labels| && labels[r.value] == c
    ensures r.Ok? && v == Corrected ==> r == UpdateMedoid(d, labels, c)
  {
    if v == AsWritten then SplitChoice(d, labels, c, m) else IntendedSplitChoice(d, labels, c, m)
  }

  /** Each of the clusters 0 .. k - 1 has a member. */
  predicate NoEmptyCluster(labels: seq<nat>, k: nat)
  {
    forall c :: 0 <= c < k ==> |Members(labels, c)| > 0
  }

  /** The update_medoids task of every cluster, in dispatch order. */
  function MedoidTasks(d: seq<seq<int>>, k: nat, labels: seq<nat>): (r: seq<Result<nat>>)
    requires IsMatrix(d, |labels|)
    ensures |r| == k && forall c :: 0 <= c < k ==> r[c] == UpdateMedoid(d, labels, c)
  {
    seq(k, c requires 0 <= c < k => UpdateMedoid(d, labels, c))
  }

  /** One update_medoids task per cluster, collected in cluster order. */
  function ClusterTasks(d: seq<seq<int>>, k: nat, labels: seq<nat>): (r: Result<seq<nat>>)
    requires IsMatrix(d, |labels|)
    ensures r.Ok? <==> NoEmptyCluster(labels, k)
    ensures r.Ok? ==> |r.value| == k
    ensures r.Ok? ==> forall c :: 0 <= c < k ==> Ok(r.value[c]) == UpdateMedoid(d, labels, c)
  {
    MedoidTasksOkOnlyIf(d, k, labels);
    MedoidTasksOkIf(d, k, labels);
    Collect(MedoidTasks(d, k, labels))
  }

  /** The collected tasks succeed only when every cluster has a member ... */
  lemma MedoidTasksOkOnlyIf(d: seq<seq<int>>, k: nat, labels: seq<nat>)
    requires IsMatrix(d, |labels|)
    ensures Collect(MedoidTasks(d, k, labels)).Ok? ==> NoEmptyCluster(labels, k)
  {
    var rs := MedoidTasks(d, k, labels);
    if Collect(rs).Ok? {
      forall c | 0 <= c < k
        ensures |Members(labels, c)| > 0
      {
        assert rs[c].Ok?;
      }
    }
  }

  /** ... and then they do. */
  lemma MedoidTasksOkIf(d: seq<seq<int>>, k: nat, labels: seq<nat>)
    requires IsMatrix(d, |labels|)
    ensures NoEmptyCluster(labels, k) ==> Collect(MedoidTasks(d, k, labels)).Ok?
  {
    var rs := MedoidTasks(d, k, labels);
    if NoEmptyCluster(labels, k) {
      forall c | 0 <= c < k
        ensures rs[c].Ok?
      {
        assert |Members(labels, c)| > 0;
      }
    }
  }

  /** The split medoid of every cluster c with td[c] workers, in dispatch order. */
  function SplitMedoidTasks(v: Variant, d: seq<seq<int>>, k: nat, labels: seq<nat>, td: seq<nat>): (r: seq<Result<nat>>)
    requires IsMatrix(d, |labels|) && |td| == k
    ensures |r| == k && forall c :: 0 <= c < k ==> r[c] == SplitMedoid(v, d, labels, c, td[c])
  {
    seq(k, c requires 0 <= c < k => SplitMedoid(v, d, labels, c, td[c]))
  }

  /** The split medoids of all clusters, collected in cluster order. */
  function SplitTasks(v: Variant, d: seq<seq<int>>, k: nat, labels: seq<nat>, td: seq<nat>): (r: Result<seq<nat>>)
    requires IsMatrix(d, |labels|) && |td| == k
    ensures r.Ok? <==> forall c :: 0 <= c < k ==> 1 <= td[c] <= |Members(labels, c)|
    ensures r.Ok? ==> |r.value| == k
    ensures r.Ok? ==> forall c :: 0 <= c < k ==> Ok(r.value[c]) == SplitMedoid(v, d, labels, c, td[c])
  {
    SplitTasksOkOnlyIf(v, d, k, labels, td);
    SplitTasksOkIf(v, d, k, labels, td);
    Collect(SplitMedoidTasks(v, d, k, labels, td))
  }

  /** The collected split tasks succeed only when every cluster has at least as many
      members as workers ... */
  lemma SplitTasksOkOnlyIf(v: Variant, d: seq<seq<int>>, k: nat, labels: seq<nat>, td: seq<nat>)
    requires IsMatrix(d, |labels|) && |td| == k
    ensures Collect(SplitMedoidTasks(v, d, k, labels, td)).Ok? ==>
              forall c :: 0 <= c < k ==> 1 <= td[c] <= |Members(labels, c)|
  {
    var rs := SplitMedoidTasks(v, d, k, labels, td);
    if Collect(rs).Ok? {
      forall c | 0 <= c < k
        ensures 1 <= td[c] <= |Members(labels, c)|
      {
        assert rs[c].Ok?;
      }
    }
  }

  /** ... and then they do. */
  lemma SplitTasksOkIf(v: Variant, d: seq<seq<int>>, k: nat, labels: seq<nat>, td: seq<nat>)
    requires IsMatrix(d, |labels|) && |td| == k
    ensures (forall c :: 0 <= c < k ==> 1 <= td[c] <= |Members(labels, c)|) ==>
              Collect(SplitMedoidTasks(v, d, k, labels, td)).Ok?
  {
    var rs := SplitMedoidTasks(v, d, k, labels, td);
    if forall c :: 0 <= c < k ==> 1 <= td[c] <= |Members(labels, c)| {
      forall c | 0 <= c < k
        ensures rs[c].Ok?
      {
        assert 1 <= td[c] <= |Members(labels, c)|;
      }
    }
  }

  /** The update phase of kmedoids_iter. With at most as many workers as clusters
      each cluster's medoid is one task and a new medoid list is built; otherwise
      clusters are split among the workers and medoids[c] is overwritten for
      c < k, leaving any later entry as it was. */
  function UpdatePhase(v: Variant, d: seq<seq<int>>, k: nat, w: nat, meds: seq<nat>, labels: seq<nat>): (r: Result<seq<nat>>)
    requires ValidState(d, k, meds, labels) && w > 0
    ensures r.Ok? ==> |r.value| == |meds| && Indices(r.value, |labels|) && r.value[k..] == meds[k..]
    ensures r.Ok? ==> forall c :: 0 <= c < k ==> labels[r.value[c]] == c
  {
    if w <= k then ClusterTasks(d, k, labels)
    else
      match SplitTasks(v, d, k, labels, ClusterWorkers(labels, k, w))
      case Err(e) => Err(e)
      case Ok(vs) => Ok(vs + meds[k..])
  }

  /** The update phase fails exactly when some cluster is empty (one task per
      cluster) or has fewer members than workers (split clusters). */
  lemma UpdatePhaseSucceeds(v: Variant, d: seq<seq<int>>, k: nat, w: nat, meds: seq<nat>, labels: seq<nat>)
    requires ValidState(d, k, meds, labels) && w > 0
    ensures w <= k ==> (UpdatePhase(v, d, k, w, meds, labels).Ok?
                        <==> NoEmptyCluster(labels, k))
    ensures w > k ==> (UpdatePhase(v, d, k, w, meds, labels).Ok?
                       <==> forall c :: 0 <= c < k ==> ClusterWorkers(labels, k, w)[c] <= |Members(labels, c)|)
  {
  }

  /** Medoids from one task per cluster, and from split clusters when corrected, are
      members of their cluster with the smallest summed distance to it. */
  lemma UpdatePhaseOptimal(v: Variant, d: seq<seq<int>>, k: nat, w: nat, meds: seq<nat>, labels: seq<nat>)
    requires ValidState(d, k, meds, labels) && w > 0
    requires w <= k || v == Corrected
    requires UpdatePhase(v, d, k, w, meds, labels).Ok?
    ensures var m := UpdatePhase(v, d, k, w, meds, labels).value;
            forall c, q :: 0 <= c < k && 0 <= q < |labels| && labels[q] == c ==>
              ClusterCost(d, labels, c, m[c]) <= ClusterCost(d, labels, c, q)
  {
    var m := UpdatePhase(v, d, k, w, meds, labels).value;
    forall c | 0 <= c < k
      ensures forall q :: 0 <= q < |labels| && labels[q] == c ==>
                ClusterCost(d, labels, c, m[c]) <= ClusterCost(d, labels, c, q)
    {
      assert UpdateMedoid(d, labels, c) == Ok(m[c]);
      UpdateMedoidMinimises(d, labels, c);
    }
  }

  // ---------------------------------------------------------------------------
  // Relabelling phase, one iteration, the loop

  /** The relabelling pass: the batched pass as written, or every point. */
  function Relabelling(v: Variant, d: seq<seq<int>>, meds: seq<nat>, labels: seq<nat>, w: nat): (r: seq<nat>)
    requires IsMatrix(d, |labels|) && ValidMedoids(|labels|, meds) && w > 0
    requires forall p :: 0 <= p < |labels| ==> labels[p] < |meds|
    ensures |r| == |labels| && forall p :: 0 <= p < |labels| ==> r[p] < |meds|
    ensures forall p :: 0 <= p < |labels| && (v == Corrected || p < Covered(|labels|, w)) ==>
              IsNearest(d, meds, p, r[p])
    ensures v == AsWritten ==> forall p :: Covered(|labels|, w) <= p < |labels| ==> r[p] == labels[p]
  {
    if v == AsWritten then Relabelled(d, meds, labels, w) else InitialLabels(d, meds)
  }

  /** kmedoids_iter: the update phase, then relabelling with the new medoids; a pool
      of zero processes raises. */
  function Step(v: Variant, d: seq<seq<int>>, k: nat, w: nat, meds: seq<nat>, labels: seq<nat>): (r: Result<State>)
    requires ValidState(d, k, meds, labels)
    ensures w == 0 ==> r == Err(NoWorkers)
    ensures r.Ok? ==> ValidState(d, k, r.value.medoids, r.value.labels)
  {
    if w == 0 then Err(NoWorkers)
    else
      match UpdatePhase(v, d, k, w, meds, labels)
      case Err(e) => Err(e)
      case Ok(m) => Ok(State(m, Relabelling(v, d, m, labels, w)))
  }

  /** The main loop with at most `fuel` iterations left: it stops when an
      iteration leaves the labels unchanged. */
  function Iterate(v: Variant, d: seq<seq<int>>, k: nat, w: nat, meds: seq<nat>, labels: seq<nat>, fuel: nat): (r: Result<Outcome>)
    requires ValidState(d, k, meds, labels)
    ensures r.Ok? ==> ValidState(d, k, r.value.medoids, r.value.labels)
    decreases fuel
  {
    if fuel == 0 then Ok(Outcome(meds, labels, false))
    else
      match Step(v, d, k, w, meds, labels)
      case Err(e) => Err(e)
      case Ok(s) =>
        if s.labels == labels then Ok(Outcome(s.medoids, s.labels, true))
        else Iterate(v, d, k, w, s.medoids, s.labels, OneLess(fuel))
  }

  /** The iteration budget left after one iteration. */
  function OneLess(fuel: nat): (r: nat)
    requires fuel > 0
    ensures r < fuel
  {
    fuel - 1
  }

  /** How many times the main loop calls kmedoids_iter with `fuel` iterations
      left: never more than the budget, and at least once when there is one. */
  function Calls(v: Variant, d: seq<seq<int>>, k: nat, w: nat, meds: seq<nat>, labels: seq<nat>, fuel: nat): (r: nat)
    requires ValidState(d, k, meds, labels)
    ensures r <= fuel
    ensures fuel > 0 ==> r >= 1
    decreases fuel
  {
    if fuel == 0 then 0
    else
      match Step(v, d, k, w, meds, labels)
      case Err(_) => 1
      case Ok(s) =>
        if s.labels == labels then 1
        else 1 + Calls(v, d, k, w, s.medoids, s.labels, OneLess(fuel))
  }

  /** kmedoids: farthest-point initialisation from `seed` (the point the seeded
      generator draws), the full nearest-medoid pass, then the main loop. */
  function Run(v: Variant, d: seq<seq<int>>, k: nat, w: nat, maxIter: nat, seed: nat): (r: Result<Outcome>)
    requires IsMatrix(d, |d|) && seed < |d|
    ensures r.Ok? ==> ValidState(d, k, r.value.medoids, r.value.labels)
  {
    var meds := FarthestPoints(d, k, seed);
    Iterate(v, d, k, w, meds, InitialLabels(d, meds), maxIter)
  }

  // ---------------------------------------------------------------------------
  // Properties of the loop

  /** The number of kmedoids_iter calls of a whole run. */
  function RunCalls(v: Variant, d: seq<seq<int>>, k: nat, w: nat, maxIter: nat, seed: nat): (r: nat)
    requires IsMatrix(d, |d|) && seed < |d|
    ensures r <= maxIter && (maxIter > 0 ==> r >= 1)
  {
    var meds := FarthestPoints(d, k, seed);
    Calls(v, d, k, w, meds, InitialLabels(d, meds), maxIter)
  }

  /** A run that ends without converging has used its whole budget. */
  lemma {:induction false} UnconvergedUsesAllCalls(v: Variant, d: seq<seq<int>>, k: nat, w: nat, meds: seq<nat>, labels: seq<nat>, fuel: nat)
    requires ValidState(d, k, meds, labels)
    requires Iterate(v, d, k, w, meds, labels, fuel).Ok? && !Iterate(v, d, k, w, meds, labels, fuel).value.converged
    ensures Calls(v, d, k, w, meds, labels, fuel) == fuel
    decreases fuel
  {
    if fuel > 0 {
      IterateOnce(v, d, k, w, meds, labels, fuel);
      CallsOnce(v, d, k, w, meds, labels, fuel);
      var s := Step(v, d, k, w, meds, labels).value;
      UnconvergedUsesAllCalls(v, d, k, w, s.medoids, s.labels, OneLess(fuel));
    }
  }

  /** One call of kmedoids_iter, counted. */
  lemma CallsOnce(v: Variant, d: seq<seq<int>>, k: nat, w: nat, meds: seq<nat>, labels: seq<nat>, fuel: nat)
    requires ValidState(d, k, meds, labels) && fuel > 0
    ensures var r := Step(v, d, k, w, meds, labels);
            Calls(v, d, k, w, meds, labels, fuel)
            == if r.Err? || r.value.labels == labels then 1
               else 1 + Calls(v, d, k, w, r.value.medoids, r.value.labels, OneLess(fuel))
  {
  }

  /** The update phase reads the old medoids only beyond position k. */
  lemma UpdatePhaseIgnoresMedoids(v: Variant, d: seq<seq<int>>, k: nat, w: nat, m1: seq<nat>, m2: seq<nat>, labels: seq<nat>)
    requires ValidState(d, k, m1, labels) && ValidState(d, k, m2, labels) && w > 0
    requires m1[k..] == m2[k..]
    ensures UpdatePhase(v, d, k, w, m1, labels) == UpdatePhase(v, d, k, w, m2, labels)
  {
  }

  /** A converged outcome is a fixed point: one more iteration from it returns it
      unchanged. */
  lemma {:induction false} ConvergedIsFixedPoint(v: Variant, d: seq<seq<int>>, k: nat, w: nat, meds: seq<nat>, labels: seq<nat>, fuel: nat, o: Outcome)
    requires ValidState(d, k, meds, labels)
    requires Iterate(v, d, k, w, meds, labels, fuel) == Ok(o) && o.converged
    ensures ValidState(d, k, o.medoids, o.labels)
    ensures Step(v, d, k, w, o.medoids, o.labels) == Ok(State(o.medoids, o.labels))
    decreases fuel
  {
    ConvergedHasFuel(v, d, k, w, meds, labels, fuel, o);
    var s := ConvergedNext(v, d, k, w, meds, labels, fuel, o);
    if s.labels == labels {
      StepUnchangedLabels(v, d, k, w, meds, labels);
    } else {
      ConvergedIsFixedPoint(v, d, k, w, s.medoids, s.labels, OneLess(fuel), o);
    }
  }

  /** A run that converges performs at least one iteration. */
  lemma ConvergedHasFuel(v: Variant, d: seq<seq<int>>, k: nat, w: nat, meds: seq<nat>, labels: seq<nat>, fuel: nat, o: Outcome)
    requires ValidState(d, k, meds, labels)
    requires Iterate(v, d, k, w, meds, labels, fuel) == Ok(o) && o.converged
    ensures fuel > 0
  {
  }

  /** The first iteration of a converging run succeeds; if it changes the labels,
      the remaining iterations converge to the same outcome. */
  lemma ConvergedNext(v: Variant, d: seq<seq<int>>, k: nat, w: nat, meds: seq<nat>, labels: seq<nat>, fuel: nat, o: Outcome)
    returns (s: State)
    requires ValidState(d, k, meds, labels) && fuel > 0
    requires Iterate(v, d, k, w, meds, labels, fuel) == Ok(o)
    ensures Step(v, d, k, w, meds, labels) == Ok(s) && ValidState(d, k, s.medoids, s.labels)
    ensures s.labels == labels ==> o == Outcome(s.medoids, s.labels, true)
    ensures s.labels != labels ==> Iterate(v, d, k, w, s.medoids, s.labels, OneLess(fuel)) == Ok(o)
  {
    s := Step(v, d, k, w, meds, labels).value;
  }

  /** An iteration that leaves the labels unchanged leads to a state that the next
      iteration maps to itself. */
  lemma StepUnchangedLabels(v: Variant, d: seq<seq<int>>, k: nat, w: nat, meds: seq<nat>, labels: seq<nat>)
    requires ValidState(d, k, meds, labels)
    requires Step(v, d, k, w, meds, labels).Ok? && Step(v, d, k, w, meds, labels).value.labels == labels
    ensures var m := Step(v, d, k, w, meds, labels).value.medoids;
            Step(v, d, k, w, m, labels) == Ok(State(m, labels))
  {
    var m := Step(v, d, k, w, meds, labels).value.medoids;
    assert UpdatePhase(v, d, k, w, meds, labels) == Ok(m);
    UpdatePhaseIgnoresMedoids(v, d, k, w, meds, m, labels);
  }

  /** With the corrected choice and relabelling, a converged run ends at a local
      optimum: every point is labelled with its nearest medoid (first among ties),
      and each medoid is a member of its cluster with the smallest summed distance
      to it. */
  lemma CorrectedConvergedIsLocalOptimum(d: seq<seq<int>>, k: nat, w: nat, maxIter: nat, seed: nat)
    requires IsMatrix(d, |d|) && seed < |d|
    requires Run(Corrected, d, k, w, maxIter, seed).Ok? && Run(Corrected, d, k, w, maxIter, seed).value.converged
    ensures var o := Run(Corrected, d, k, w, maxIter, seed).value;
            (forall p :: 0 <= p < |d| ==> IsNearest(d, o.medoids, p, o.labels[p]))
            && (forall c :: 0 <= c < k ==> o.labels[o.medoids[c]] == c)
            && (forall c, q :: 0 <= c < k && 0 <= q < |d| && o.labels[q] == c ==>
                  ClusterCost(d, o.labels, c, o.medoids[c]) <= ClusterCost(d, o.labels, c, q))
  {
    var meds := FarthestPoints(d, k, seed);
    var o := Run(Corrected, d, k, w, maxIter, seed).value;
    ConvergedIsFixedPoint(Corrected, d, k, w, meds, InitialLabels(d, meds), maxIter, o);
    assert w > 0;
    UpdatePhaseOptimal(Corrected, d, k, w, o.medoids, o.labels);
  }

  /** As written, a converged run labels the first Covered(N, W) points with their
      nearest medoid, every medoid belongs to its own cluster, and with at most as
      many workers as clusters each medoid has the smallest summed distance. */
  lemma AsWrittenConverged(d: seq<seq<int>>, k: nat, w: nat, maxIter: nat, seed: nat)
    requires IsMatrix(d, |d|) && seed < |d|
    requires Run(AsWritten, d, k, w, maxIter, seed).Ok? && Run(AsWritten, d, k, w, maxIter, seed).value.converged
    ensures w > 0
    ensures var o := Run(AsWritten, d, k, w, maxIter, seed).value;
            (forall p :: 0 <= p < |d| && p < Covered(|d|, w) ==> IsNearest(d, o.medoids, p, o.labels[p]))
            && (forall c :: 0 <= c < k ==> o.labels[o.medoids[c]] == c)
            && (w <= k ==> forall c, q :: 0 <= c < k && 0 <= q < |d| && o.labels[q] == c ==>
                  ClusterCost(d, o.labels, c, o.medoids[c]) <= ClusterCost(d, o.labels, c, q))
  {
    var meds := FarthestPoints(d, k, seed);
    var o := Run(AsWritten, d, k, w, maxIter, seed).value;
    ConvergedIsFixedPoint(AsWritten, d, k, w, meds, InitialLabels(d, meds), maxIter, o);
    AsWrittenFixedPoint(d, k, w, o.medoids, o.labels);
  }

  /** What a fixed point of the iteration as written satisfies. */
  lemma AsWrittenFixedPoint(d: seq<seq<int>>, k: nat, w: nat, meds: seq<nat>, labels: seq<nat>)
    requires ValidState(d, k, meds, labels)
    requires Step(AsWritten, d, k, w, meds, labels) == Ok(State(meds, labels))
    ensures w > 0
    ensures (forall p :: 0 <= p < |d| && p < Covered(|d|, w) ==> IsNearest(d, meds, p, labels[p]))
            && (forall c :: 0 <= c < k ==> labels[meds[c]] == c)
            && (w <= k ==> forall c, q :: 0 <= c < k && 0 <= q < |d| && labels[q] == c ==>
                  ClusterCost(d, labels, c, meds[c]) <= ClusterCost(d, labels, c, q))
  {
    if w <= k {
      UpdatePhaseOptimal(AsWritten, d, k, w, meds, labels);
    }
  }

  /** With at most as many workers as clusters and a worker count dividing the
      number of points, the program as written and the corrected one agree. */
  lemma {:induction false} VariantsAgreeIterate(d: seq<seq<int>>, k: nat, w: nat, meds: seq<nat>, labels: seq<nat>, fuel: nat)
    requires ValidState(d, k, meds, labels) && 0 < w <= k && |labels| % w == 0
    ensures Iterate(AsWritten, d, k, w, meds, labels, fuel) == Iterate(Corrected, d, k, w, meds, labels, fuel)
    decreases fuel
  {
    if fuel > 0 {
      IterateOnce(AsWritten, d, k, w, meds, labels, fuel);
      IterateOnce(Corrected, d, k, w, meds, labels, fuel);
      var phase := UpdatePhase(AsWritten, d, k, w, meds, labels);
      assert phase == UpdatePhase(Corrected, d, k, w, meds, labels);
      if phase.Ok? {
        RelabelFullWhenDivides(d, phase.value, labels, w);
        var s := Step(AsWritten, d, k, w, meds, labels).value;
        assert Step(Corrected, d, k, w, meds, labels) == Ok(s);
        if s.labels != labels {
          VariantsAgreeIterate(d, k, w, s.medoids, s.labels, OneLess(fuel));
        }
      }
    }
  }

  /** One iteration of the loop. */
  lemma IterateOnce(v: Variant, d: seq<seq<int>>, k: nat, w: nat, meds: seq<nat>, labels: seq<nat>, fuel: nat)
    requires ValidState(d, k, meds, labels) && fuel > 0
    ensures var r := Step(v, d, k, w, meds, labels);
            Iterate(v, d, k, w, meds, labels, fuel)
            == if r.Err? then Err(r.error)
               else if r.value.labels == labels then Ok(Outcome(r.value.medoids, labels, true))
               else Iterate(v, d, k, w, r.value.medoids, r.value.labels, OneLess(fuel))
  {
  }

  lemma VariantsAgree(d: seq<seq<int>>, k: nat, w: nat, maxIter: nat, seed: nat)
    requires IsMatrix(d, |d|) && seed < |d| && 0 < w <= k && |d| % w == 0
    ensures Run(AsWritten, d, k, w, maxIter, seed) == Run(Corrected, d, k, w, maxIter, seed)
  {
    var meds := FarthestPoints(d, k, seed);
    VariantsAgreeIterate(d, k, w, meds, InitialLabels(d, meds), maxIter);
  }

  /** The split-and-combine choice as written in a whole run: four points, one
      cluster, two workers, seed point 0. The run converges at once on medoid 0,
      whose summed distance to the cluster is 15, although point 2 has 7; the
      corrected choice converges on medoid 2. */
  lemma SplitChoiceRunExample(maxIter: nat)
    requires maxIter >= 1
    ensures var d := [[0, 5, 5, 5], [5, 0, 1, 9], [5, 1, 0, 1], [5, 9, 1, 0]];
            Run(AsWritten, d, 1, 2, maxIter, 0) == Ok(Outcome([0], [0, 0, 0, 0], true))
            && Run(Corrected, d, 1, 2, maxIter, 0) == Ok(Outcome([2], [0, 0, 0, 0], true))
            && ClusterCost(d, [0, 0, 0, 0], 0, 2) < ClusterCost(d, [0, 0, 0, 0], 0, 0)
  {
    var d := [[0, 5, 5, 5], [5, 0, 1, 9], [5, 1, 0, 1], [5, 9, 1, 0]];
    var labels := [0, 0, 0, 0];
    assert FarthestPoints(d, 1, 0) == [0];
    var meds := [0];
    assert InitialLabels(d, meds) == labels by {
      forall p | 0 <= p < 4
        ensures InitialLabels(d, meds)[p] == 0
      {
      }
    }
    SplitChoiceMissesMedoid();
    ExampleWorkers();
    ExampleRelabelling(AsWritten, 0);
    ExampleRelabelling(Corrected, 2);
    OneClusterRun(AsWritten, d, labels, maxIter, 0, 0);
    OneClusterRun(Corrected, d, labels, maxIter, 0, 2);
  }

  /** The split choice as written can make a run worse. On the same four points,
      from seed point 2, which is already the cluster's 1-median (summed distance
      7), the first iteration moves the medoid to point 0 (summed distance 15), and
      the run converges there. */
  lemma SplitChoiceRaisesCost(maxIter: nat)
    requires maxIter >= 1
    ensures var d := [[0, 5, 5, 5], [5, 0, 1, 9], [5, 1, 0, 1], [5, 9, 1, 0]];
            FarthestPoints(d, 1, 2) == [2]
            && Run(AsWritten, d, 1, 2, maxIter, 2) == Ok(Outcome([0], [0, 0, 0, 0], true))
            && ClusterCost(d, [0, 0, 0, 0], 0, 2) < ClusterCost(d, [0, 0, 0, 0], 0, 0)
  {
    var d := [[0, 5, 5, 5], [5, 0, 1, 9], [5, 1, 0, 1], [5, 9, 1, 0]];
    var labels := [0, 0, 0, 0];
    assert FarthestPoints(d, 1, 2) == [2];
    var meds := [2];
    assert InitialLabels(d, meds) == labels by {
      forall p | 0 <= p < 4
        ensures InitialLabels(d, meds)[p] == 0
      {
      }
    }
    SplitChoiceMissesMedoid();
    ExampleWorkers();
    ExampleRelabelling(AsWritten, 0);
    OneClusterRun(AsWritten, d, labels, maxIter, 2, 0);
  }

  /** In the example the single cluster gets both workers. */
  lemma ExampleWorkers()
    ensures ClusterWorkers([0, 0, 0, 0], 1, 2) == [2]
  {
    var labels := [0, 0, 0, 0];
    ExampleMembers();
    var sizes := Sizes(labels, 1);
    assert sizes == [4];
    assert BaseShares(sizes, 2, 4) == [2];
    assert TopClusters(sizes, 2, 4) == [];
  }

  /** A one-cluster run from the seed point whose first iteration picks medoid m
      and keeps the labels converges there. */
  lemma OneClusterRun(v: Variant, d: seq<seq<int>>, labels: seq<nat>, maxIter: nat, seed: nat, m: nat)
    requires IsMatrix(d, |d|) && seed < |d| && maxIter >= 1
    requires FarthestPoints(d, 1, seed) == [seed] && InitialLabels(d, [seed]) == labels
    requires ClusterWorkers(labels, 1, 2) == [2] && SplitMedoid(v, d, labels, 0, 2) == Ok(m)
    requires Relabelling(v, d, [m], labels, 2) == labels
    ensures Run(v, d, 1, 2, maxIter, seed) == Ok(Outcome([m], labels, true))
  {
    OneClusterUpdatePhase(v, d, labels, seed, m);
    IterateOnce(v, d, 1, 2, [seed], labels, maxIter);
  }

  /** With one cluster and its two workers, the update phase returns the cluster's
      split medoid. */
  lemma OneClusterUpdatePhase(v: Variant, d: seq<seq<int>>, labels: seq<nat>, seed: nat, m: nat)
    requires ValidState(d, 1, [seed], labels)
    requires ClusterWorkers(labels, 1, 2) == [2] && SplitMedoid(v, d, labels, 0, 2) == Ok(m)
    ensures UpdatePhase(v, d, 1, 2, [seed], labels) == Ok([m])
  {
    OneClusterSplitTasks(v, d, labels, m);
    UpdatePhaseSplit(v, d, 1, 2, [seed], labels, [m]);
    assert [m] + [seed][1..] == [m];
  }

  /** With more workers than clusters, the split medoids followed by the old
      medoids beyond position k. */
  lemma UpdatePhaseSplit(v: Variant, d: seq<seq<int>>, k: nat, w: nat, meds: seq<nat>, labels: seq<nat>, vs: seq<nat>)
    requires ValidState(d, k, meds, labels) && w > k
    requires SplitTasks(v, d, k, labels, ClusterWorkers(labels, k, w)) == Ok(vs)
    ensures UpdatePhase(v, d, k, w, meds, labels) == Ok(vs + meds[k..])
  {
  }

  lemma OneClusterSplitTasks(v: Variant, d: seq<seq<int>>, labels: seq<nat>, m: nat)
    requires IsMatrix(d, |labels|) && SplitMedoid(v, d, labels, 0, 2) == Ok(m)
    ensures SplitTasks(v, d, 1, labels, [2]) == Ok([m])
  {
    assert SplitMedoidTasks(v, d, 1, labels, [2]) == [Ok(m)];
    CollectOne(m);
  }

  lemma ExampleRelabelling(v: Variant, m: nat)
    requires m == 0 || m == 2
    ensures var d := [[0, 5, 5, 5], [5, 0, 1, 9], [5, 1, 0, 1], [5, 9, 1, 0]];
            Relabelling(v, d, [m], [0, 0, 0, 0], 2) == [0, 0, 0, 0]
  {
  }

  /** Four points in two well-separated pairs, {0, 1} and {2, 3}, given row by row. */
  predicate TwoPairs(d: seq<seq<int>>)
  {
    |d| == 4 && d[0] == [0, 1, 4, 5] && d[1] == [1, 0, 5, 4] && d[2] == [4, 5, 0, 1] && d[3] == [5, 4, 1, 0]
  }

  /** Two well-separated pairs, two clusters, one worker, seed point 0: the run
      converges after one iteration on the pairs {0, 1} and {2, 3}, with medoids 0
      and 2 (the lower index of each pair). */
  lemma TwoPairsScenario(d: seq<seq<int>>, maxIter: nat)
    requires TwoPairs(d)
    requires maxIter >= 1
    ensures Run(AsWritten, d, 2, 1, maxIter, 0) == Ok(Outcome([0, 2], [0, 0, 1, 1], true))
  {
    TwoPairsInitialisation(d);
    TwoPairsStep(d);
    TwoClustersRun(d, [0, 3], [0, 0, 1, 1], [0, 2], maxIter);
  }

  /** The first iteration from medoids 0 and 3: each pair's update_medoids task
      picks its lower index, and the relabelling keeps the pairs. */
  lemma TwoPairsStep(d: seq<seq<int>>)
    requires TwoPairs(d)
    ensures Step(AsWritten, d, 2, 1, [0, 3], [0, 0, 1, 1]) == Ok(State([0, 2], [0, 0, 1, 1]))
  {
    TwoPairsMembers();
    PairMedoid(d, [0, 0, 1, 1], 0, 0, 1);
    PairMedoid(d, [0, 0, 1, 1], 1, 2, 3);
    TwoPairsRelabel(d);
    TwoClustersStep(d, [0, 3], [0, 0, 1, 1], 0, 2);
  }

  /** A run whose first iteration with one worker returns medoids m and keeps the
      initial labels converges there. */
  lemma {:induction false} TwoClustersRun(d: seq<seq<int>>, meds: seq<nat>, labels: seq<nat>, m: seq<nat>, maxIter: nat)
    requires IsMatrix(d, |d|) && |d| > 0 && maxIter >= 1
    requires FarthestPoints(d, 2, 0) == meds && InitialLabels(d, meds) == labels
    requires ValidState(d, 2, meds, labels) && Step(AsWritten, d, 2, 1, meds, labels) == Ok(State(m, labels))
    ensures Run(AsWritten, d, 2, 1, maxIter, 0) == Ok(Outcome(m, labels, true))
  {
    IterateOnce(AsWritten, d, 2, 1, meds, labels, maxIter);
  }

  /** The farthest point from point 0 is point 3, and the nearest-medoid pass
      splits the points into the two pairs. */
  lemma TwoPairsInitialisation(d: seq<seq<int>>)
    requires TwoPairs(d)
    ensures FarthestPoints(d, 2, 0) == [0, 3] && InitialLabels(d, [0, 3]) == [0, 0, 1, 1]
  {
    TwoPairsFarthest(d);
    TwoPairsNearest(d, [0, 3]);
    NearestLabels(d, [0, 3], [0, 0, 1, 1]);
  }

  lemma TwoPairsFarthest(d: seq<seq<int>>)
    requires TwoPairs(d)
    ensures FarthestPoints(d, 2, 0) == [0, 3]
  {
    assert FarthestPoints(d, 1, 0) == [0];
    var c := ClosestDistances(d, [0]);
    assert c[0] == 0 && c[1] == 1 && c[2] == 4 && c[3] == 5;
    ArgMaxIs(c, 3);
  }

  /** With medoids 0 and 3, or 0 and 2, the pairs are the nearest-medoid labels. */
  lemma TwoPairsNearest(d: seq<seq<int>>, meds: seq<nat>)
    requires TwoPairs(d)
    requires meds == [0, 3] || meds == [0, 2]
    ensures forall p :: 0 <= p < 4 ==> IsNearest(d, meds, p, [0, 0, 1, 1][p])
  {
  }

  lemma TwoPairsMembers()
    ensures Members([0, 0, 1, 1], 0) == [0, 1] && Members([0, 0, 1, 1], 1) == [2, 3]
  {
    var labels := [0, 0, 1, 1];
    assert labels[..3] == [0, 0, 1] && labels[..3][..2] == [0, 0] && labels[..3][..2][..1] == [0];
    assert [0][..0] == [];
    assert Members([0], 0) == [0] && Members([0], 1) == [];
    assert Members([0, 0], 0) == [0, 1] && Members([0, 0], 1) == [];
    assert Members([0, 0, 1], 0) == [0, 1] && Members([0, 0, 1], 1) == [2];
  }

  /** A cluster of two points a < b at equal distance from each other has medoid a. */
  lemma PairMedoid(d: seq<seq<int>>, labels: seq<nat>, c: nat, a: nat, b: nat)
    requires IsMatrix(d, |labels|) && Members(labels, c) == [a, b] && a < |labels| && b < |labels|
    requires d[a][a] + d[a][b] == d[b][a] + d[b][b]
    ensures UpdateMedoid(d, labels, c) == Ok(a)
  {
    var sub := SubMatrix(d, [a, b]);
    assert sub[0] == [d[a][a], d[a][b]] && sub[1] == [d[b][a], d[b][b]];
    SumTwo(d[a][a], d[a][b]);
    SumTwo(d[b][a], d[b][b]);
    ArgMinIs(RowSums(sub), 0);
  }

  /** With medoids 0 and 2 the nearest-medoid labels are still the pairs. */
  lemma TwoPairsRelabel(d: seq<seq<int>>)
    requires TwoPairs(d)
    ensures InitialLabels(d, [0, 2]) == [0, 0, 1, 1]
  {
    TwoPairsNearest(d, [0, 2]);
    NearestLabels(d, [0, 2], [0, 0, 1, 1]);
  }

  /** With two clusters the update_medoids tasks return the two clusters' medoids. */
  lemma {:induction false} TwoClustersTasks(d: seq<seq<int>>, labels: seq<nat>, a: nat, b: nat)
    requires IsMatrix(d, |labels|)
    requires UpdateMedoid(d, labels, 0) == Ok(a) && UpdateMedoid(d, labels, 1) == Ok(b)
    ensures ClusterTasks(d, 2, labels) == Ok([a, b])
  {
    TwoClustersNonEmpty(d, labels);
    var r := ClusterTasks(d, 2, labels);
    assert r.Ok? && |r.value| == 2;
    assert Ok(r.value[0]) == UpdateMedoid(d, labels, 0);
    assert Ok(r.value[1]) == UpdateMedoid(d, labels, 1);
    assert r.value == [a, b];
  }

  lemma TwoClustersNonEmpty(d: seq<seq<int>>, labels: seq<nat>)
    requires IsMatrix(d, |labels|)
    requires UpdateMedoid(d, labels, 0).Ok? && UpdateMedoid(d, labels, 1).Ok?
    ensures NoEmptyCluster(labels, 2)
  {
    forall c | 0 <= c < 2
      ensures |Members(labels, c)| > 0
    {
      assert UpdateMedoid(d, labels, c).Ok?;
    }
  }

  /** One worker and two clusters whose medoids a and b leave every point's
      nearest-medoid label as it was: the iteration returns a and b and keeps the
      labels. */
  lemma {:induction false} TwoClustersStep(d: seq<seq<int>>, meds: seq<nat>, labels: seq<nat>, a: nat, b: nat)
    requires ValidState(d, 2, meds, labels)
    requires UpdateMedoid(d, labels, 0) == Ok(a) && UpdateMedoid(d, labels, 1) == Ok(b)
    requires a < |labels| && b < |labels| && InitialLabels(d, [a, b]) == labels
    ensures Step(AsWritten, d, 2, 1, meds, labels) == Ok(State([a, b], labels))
  {
    TwoClustersTasks(d, labels, a, b);
    RelabelKeepsNearest(d, [a, b], labels, 1);
  }

  /** One cluster and one worker: every point is labelled 0, the first iteration
      converges, and the medoid is the point with the smallest summed distance to
      all points. */
  lemma SingleCluster(v: Variant, d: seq<seq<int>>, maxIter: nat, seed: nat)
    requires IsMatrix(d, |d|) && seed < |d| && maxIter >= 1
    ensures Run(v, d, 1, 1, maxIter, seed).Ok?
    ensures var o := Run(v, d, 1, 1, maxIter, seed).value;
            o.converged && o.labels == seq(|d|, p => 0)
            && forall q :: 0 <= q < |d| ==> ClusterCost(d, o.labels, 0, o.medoids[0]) <= ClusterCost(d, o.labels, 0, q)
  {
    var meds := FarthestPoints(d, 1, seed);
    var labels := InitialLabels(d, meds);
    SingleClusterStep(v, d, meds, labels);
    IterateOnce(v, d, 1, 1, meds, labels, maxIter);
  }

  /** With one cluster every label is 0, and one iteration with one worker keeps
      the labels and picks the point with the smallest summed distance. */
  lemma SingleClusterStep(v: Variant, d: seq<seq<int>>, meds: seq<nat>, labels: seq<nat>)
    requires ValidState(d, 1, meds, labels)
    ensures labels == seq(|labels|, p => 0)
    ensures var r := Step(v, d, 1, 1, meds, labels);
            r.Ok? && r.value.labels == labels
            && forall q :: 0 <= q < |labels| ==>
                 ClusterCost(d, labels, 0, r.value.medoids[0]) <= ClusterCost(d, labels, 0, q)
  {
    var zeros := seq(|labels|, p => 0);
    assert labels == zeros;
    UpdatePhaseSucceeds(v, d, 1, 1, meds, labels);
    assert |Members(labels, 0)| > 0 by {
      assert labels[0] == 0;
    }
    var s := Step(v, d, 1, 1, meds, labels).value;
    assert s.labels == zeros;
    UpdatePhaseOptimal(v, d, 1, 1, meds, labels);
    assert s.medoids == UpdatePhase(v, d, 1, 1, meds, labels).value;
    forall q | 0 <= q < |labels|
      ensures ClusterCost(d, labels, 0, s.medoids[0]) <= ClusterCost(d, labels, 0, q)
    {
      assert labels[q] == 0;
    }
  }

  // ---------------------------------------------------------------------------
  // The program's own driver, on arrays

  datatype Status = Done | Failed(error: Error)

  /** kmedoids_iter on the program's arrays. The labels are relabelled in place and
      their old contents returned as a copy; with more workers than clusters the
      medoids array itself is overwritten and returned, otherwise a new one is
      and the caller's medoids array is left as it was. */
  method KMedoidsIter(d: seq<seq<int>>, k: nat, w: nat, medoids: array<nat>, labels: array<nat>)
    returns (newMedoids: array<nat>, labelsOld: array<nat>, status: Status)
    requires ValidState(d, k, medoids[..], labels[..]) && medoids != labels
    modifies medoids, labels
    ensures fresh(labelsOld) && labelsOld[..] == old(labels[..])
    ensures newMedoids == medoids || fresh(newMedoids)
    ensures w > k ==> newMedoids == medoids
    ensures 0 < w <= k ==> fresh(newMedoids)
    ensures w <= k ==> medoids[..] == old(medoids[..])
    ensures var s := Step(AsWritten, d, k, w, old(medoids[..]), old(labels[..]));
            (s.Err? ==> status == Failed(s.error) && labels[..] == old(labels[..]))
            && (s.Ok? ==> status == Done && newMedoids[..] == s.value.medoids && labels[..] == s.value.labels)
  {
    labelsOld := CopyLabels(labels);
    newMedoids := medoids;
    if w == 0 {
      return newMedoids, labelsOld, Failed(NoWorkers);
    }
    newMedoids, status := UpdateMedoids(d, k, w, medoids, labels);
    if status.Failed? {
      return;
    }
    Relabel(d, newMedoids[..], labels, w);
  }

  /** labels.copy(). */
  method CopyLabels(labels: array<nat>) returns (copy: array<nat>)
    ensures fresh(copy) && copy[..] == labels[..]
  {
    copy := new nat[labels.Length](i reads labels requires 0 <= i < labels.Length => labels[i]);
    assert copy[..] == labels[..];
  }

  /** The update phase on the program's arrays: a new medoids array from one task
      per cluster, or medoids[c] overwritten cluster by cluster. */
  method UpdateMedoids(d: seq<seq<int>>, k: nat, w: nat, medoids: array<nat>, labels: array<nat>)
    returns (newMedoids: array<nat>, status: Status)
    requires ValidState(d, k, medoids[..], labels[..]) && medoids != labels && w > 0
    modifies medoids
    ensures newMedoids == medoids || fresh(newMedoids)
    ensures w > k ==> newMedoids == medoids
    ensures w <= k ==> fresh(newMedoids) && medoids[..] == old(medoids[..])
    ensures var r := UpdatePhase(AsWritten, d, k, w, old(medoids[..]), labels[..]);
            (r.Err? ==> status == Failed(r.error))
            && (r.Ok? ==> status == Done && newMedoids[..] == r.value)
  {
    if w <= k {
      newMedoids, status := MedoidsByCluster(d, k, labels[..]);
    } else {
      newMedoids := medoids;
      var sizes := Sizes(labels[..], k);
      SizesSumWhenClusters(labels[..], k);
      var td := AllocateThreads(sizes, w, labels.Length);
      assert td[..] == ClusterWorkers(labels[..], k, w);
      status := MedoidsBySplit(d, k, td[..], medoids, labels[..]);
    }
  }

  /** One update_medoids task per cluster, collected into a new array. */
  method MedoidsByCluster(d: seq<seq<int>>, k: nat, labels: seq<nat>) returns (newMedoids: array<nat>, status: Status)
    requires IsMatrix(d, |labels|)
    ensures fresh(newMedoids)
    ensures var r := ClusterTasks(d, k, labels);
            (r.Err? ==> status == Failed(r.error))
            && (r.Ok? ==> status == Done && newMedoids[..] == r.value)
  {
    var results := Collect(MedoidTasks(d, k, labels));
    if results.Err? {
      newMedoids := new nat[0];
      return newMedoids, Failed(results.error);
    }
    newMedoids := new nat[k](i requires 0 <= i < k => results.value[i]);
    assert newMedoids[..] == results.value;
    status := Done;
  }

  /** Split clusters: for c = 0 .. k - 1 the combined choice over the cluster's
      workers overwrites medoids[c]; the first failing cluster stops the loop. */
  method MedoidsBySplit(d: seq<seq<int>>, k: nat, td: seq<nat>, medoids: array<nat>, labels: seq<nat>) returns (status: Status)
    requires IsMatrix(d, |labels|) && |td| == k <= medoids.Length
    modifies medoids
    ensures var r := Collect(SplitMedoidTasks(AsWritten, d, k, labels, td));
            (r.Err? ==> status == Failed(r.error))
            && (r.Ok? ==> status == Done && medoids[..] == r.value + old(medoids[..])[k..])
  {
    var choose := (c: nat) => if c < k then SplitChoice(d, labels, c, td[c]) else Err(NoSections);
    assert seq(k, c requires 0 <= c < k => choose(c)) == SplitMedoidTasks(AsWritten, d, k, labels, td);
    status := OverwriteInOrder(medoids, k, choose);
  }

  /** medoids[c] := choose(c) for c = 0 .. k - 1 in turn, stopping at the first
      choice that fails. */
  method OverwriteInOrder(medoids: array<nat>, k: nat, choose: nat -> Result<nat>) returns (status: Status)
    requires k <= medoids.Length
    modifies medoids
    ensures var r := Collect(seq(k, c requires 0 <= c < k => choose(c)));
            (r.Err? ==> status == Failed(r.error))
            && (r.Ok? ==> status == Done && medoids[..] == r.value + old(medoids[..])[k..])
  {
    ghost var rs := seq(k, c requires 0 <= c < k => choose(c));
    var c := 0;
    while c < k
      invariant 0 <= c <= k
      invariant forall e :: 0 <= e < c ==> rs[e].Ok? && medoids[e] == rs[e].value
      invariant medoids[c..] == old(medoids[c..])
    {
      var choice := choose(c);
      if choice.Err? {
        CollectFirstError(rs, c);
        return Failed(choice.error);
      }
      medoids[c] := choice.value;
      c := c + 1;
    }
    assert medoids[..] == Collect(rs).value + old(medoids[..])[k..];
    status := Done;
  }

  /** kmedoids on the program's arrays: the loop stops after maxIter iterations or
      as soon as an iteration leaves the labels unchanged. */
  method KMedoids(d: seq<seq<int>>, k: nat, w: nat, maxIter: nat, seed: nat)
    returns (medoids: array<nat>, labels: array<nat>, status: Status, converged: bool, iterations: nat)
    requires IsMatrix(d, |d|) && seed < |d|
    ensures iterations == RunCalls(AsWritten, d, k, w, maxIter, seed) <= maxIter
    ensures var r := Run(AsWritten, d, k, w, maxIter, seed);
            (r.Err? ==> status == Failed(r.error))
            && (r.Ok? ==> status == Done && medoids[..] == r.value.medoids
                          && labels[..] == r.value.labels && converged == r.value.converged)
  {
    var init := BetterMedoidsInitialization(d, k, seed);
    labels := InitialAssignment(d, init);
    medoids := new nat[|init|](i requires 0 <= i < |init| => init[i]);
    assert medoids[..] == init;
    status, converged, iterations := Done, false, 0;
    var iter := 0;
    ghost var fuel: nat := maxIter;
    while iter < maxIter
      invariant 0 <= iter <= maxIter && fuel == maxIter - iter && medoids != labels
      invariant fresh(medoids) && fresh(labels)
      invariant ValidState(d, k, medoids[..], labels[..])
      invariant Iterate(AsWritten, d, k, w, medoids[..], labels[..], fuel) == Run(AsWritten, d, k, w, maxIter, seed)
      invariant iter + Calls(AsWritten, d, k, w, medoids[..], labels[..], fuel) == RunCalls(AsWritten, d, k, w, maxIter, seed)
      decreases fuel
    {
      IterateOnce(AsWritten, d, k, w, medoids[..], labels[..], fuel);
      CallsOnce(AsWritten, d, k, w, medoids[..], labels[..], fuel);
      var newMedoids, labelsOld, st := KMedoidsIter(d, k, w, medoids, labels);
      if st.Failed? {
        status, iterations := st, iter + 1;
        return;
      }
      medoids := newMedoids;
      if labels[..] == labelsOld[..] {
        converged, iterations := true, iter + 1;
        return;
      }
      iter, fuel := iter + 1, OneLess(fuel);
    }
    iterations := iter;
  }

  /** main(): the number of workers is capped at the number of points before the
      clustering runs. */
  method ClusterMain(d: seq<seq<int>>, k: nat, w: nat, maxIter: nat, seed: nat)
    returns (medoids: array<nat>, labels: array<nat>, status: Status)
    requires IsMatrix(d, |d|) && seed < |d|
    ensures var r := Run(AsWritten, d, k, CapWorkers(|d|, w), maxIter, seed);
            (r.Err? ==> status == Failed(r.error))
            && (r.Ok? ==> status == Done && medoids[..] == r.value.medoids && labels[..] == r.value.labels)
  {
    var converged, iterations;
    medoids, labels, status, converged, iterations := KMedoids(d, k, CapWorkers(|d|, w), maxIter, seed);
  }

  /** After the cap, any positive worker count relabels at least one full batch and
      leaves fewer points than workers out of each batched pass. */
  lemma CappedCoverage(n: nat, w: nat)
    requires n > 0 && w > 0
    ensures var r := CapWorkers(n, w);
            0 < r <= n && r <= Covered(n, r) <= n && n - Covered(n, r) < r
  {
    CoveredBounds(n, CapWorkers(n, w));
  }
}
