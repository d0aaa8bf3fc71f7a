/** 1-median selection: `update_medoids`, `candidate_medoids_parallel` and the
    split-and-combine choice of the branch with more workers than clusters. */
module Medoid {
  import opened Results
  import opened Matrix

  /** np.where(labels == c)[0]: the members of cluster c in increasing index order. */
  function Members(labels: seq<nat>, c: nat): (r: seq<nat>)
    ensures forall a :: 0 <= a < |r| ==> r[a] < |labels| && labels[r[a]] == c
  {
    if labels == [] then []
    else
      var n := |labels| - 1;
      Members(labels[..n], c) + (if labels[n] == c then [n] else [])
  }

  /** The member list is strictly increasing and holds every point labelled c. */
  lemma {:induction false} MembersSortedComplete(labels: seq<nat>, c: nat)
    ensures var r := Members(labels, c);
            (forall a, b :: 0 <= a < b < |r| ==> r[a] < r[b])
            && (forall p :: 0 <= p < |labels| && labels[p] == c ==> p in r)
  {
    if labels != [] {
      var n := |labels| - 1;
      MembersSortedComplete(labels[..n], c);
      var prev := Members(labels[..n], c);
      var r := Members(labels, c);
      assert r == prev + (if labels[n] == c then [n] else []);
      forall p | 0 <= p < |labels| && labels[p] == c
        ensures p in r
      {
        if p < n {
          assert labels[..n][p] == c;
        }
      }
    }
  }

  /** Position of a member inside the member list, and the order it keeps. */
  lemma MemberPosition(labels: seq<nat>, c: nat, q: nat) returns (j: nat)
    requires q < |labels| && labels[q] == c
    ensures j < |Members(labels, c)| && Members(labels, c)[j] == q
  {
    var cl := Members(labels, c);
    MembersSortedComplete(labels, c);
    assert q in cl;
    j :| 0 <= j < |cl| && cl[j] == q;
  }

  /** Sum of the distances from point x to every member of cluster c:
      its row of the cluster's sub-matrix, summed. */
  function ClusterCost(d: seq<seq<int>>, labels: seq<nat>, c: nat, x: nat): int
    requires IsMatrix(d, |labels|) && x < |labels|
  {
    var cl := Members(labels, c);
    Sum(seq(|cl|, j requires 0 <= j < |cl| => d[x][cl[j]]))
  }

  lemma RowSumIsCost(d: seq<seq<int>>, labels: seq<nat>, c: nat, j: nat)
    requires IsMatrix(d, |labels|)
    requires j < |Members(labels, c)|
    ensures RowSums(SubMatrix(d, Members(labels, c)))[j]
         == ClusterCost(d, labels, c, Members(labels, c)[j])
  {
    var cl := Members(labels, c);
    assert SubMatrix(d, cl)[j] == seq(|cl|, b requires 0 <= b < |cl| => d[cl[j]][cl[b]]);
  }

  /** A cluster has members exactly when some point carries its label. */
  lemma MembersNonEmpty(labels: seq<nat>, c: nat)
    ensures |Members(labels, c)| > 0 <==> exists p :: 0 <= p < |labels| && labels[p] == c
  {
    MembersSortedComplete(labels, c);
    if |Members(labels, c)| > 0 {
      assert labels[Members(labels, c)[0]] == c;
    }
  }

  /** update_medoids: a member of cluster c, picked by the smallest row sum of the
      cluster's sub-matrix (first such member); argmin of an empty cluster raises. */
  function UpdateMedoid(d: seq<seq<int>>, labels: seq<nat>, c: nat): (r: Result<nat>)
    requires IsMatrix(d, |labels|)
    ensures r.Ok? <==> |Members(labels, c)| > 0
    ensures r.Err? ==> r.error == EmptyArgMin
    ensures r.Ok? ==> r.value < |labels| && labels[r.value] == c
  {
    var cl := Members(labels, c);
    if |cl| == 0 then Err(EmptyArgMin)
    else Ok(cl[ArgMin(RowSums(SubMatrix(d, cl)))])
  }

  /** The medoid update_medoids picks has the smallest summed distance to its
      cluster, and every member before it has a larger one. */
  lemma UpdateMedoidMinimises(d: seq<seq<int>>, labels: seq<nat>, c: nat)
    requires IsMatrix(d, |labels|) && UpdateMedoid(d, labels, c).Ok?
    ensures var x := UpdateMedoid(d, labels, c).value;
            (forall q :: 0 <= q < |labels| && labels[q] == c ==>
               ClusterCost(d, labels, c, x) <= ClusterCost(d, labels, c, q))
            && (forall q :: 0 <= q < x && labels[q] == c ==>
               ClusterCost(d, labels, c, x) < ClusterCost(d, labels, c, q))
  {
    UpdateMedoidOptimal(d, labels, c, ArgMin(RowSums(SubMatrix(d, Members(labels, c)))));
  }

  lemma UpdateMedoidOptimal(d: seq<seq<int>>, labels: seq<nat>, c: nat, k: nat)
    requires IsMatrix(d, |labels|)
    requires |Members(labels, c)| > 0
    requires k == ArgMin(RowSums(SubMatrix(d, Members(labels, c))))
    ensures forall q :: 0 <= q < |labels| && labels[q] == c ==>
              ClusterCost(d, labels, c, Members(labels, c)[k]) <= ClusterCost(d, labels, c, q)
    ensures forall q :: 0 <= q < Members(labels, c)[k] && labels[q] == c ==>
              ClusterCost(d, labels, c, Members(labels, c)[k]) < ClusterCost(d, labels, c, q)
  {
    var cl := Members(labels, c);
    var s := RowSums(SubMatrix(d, cl));
    MembersSortedComplete(labels, c);
    RowSumIsCost(d, labels, c, k);
    forall q | 0 <= q < |labels| && labels[q] == c
      ensures ClusterCost(d, labels, c, cl[k]) <= ClusterCost(d, labels, c, q)
      ensures q < cl[k] ==> ClusterCost(d, labels, c, cl[k]) < ClusterCost(d, labels, c, q)
    {
      var j := MemberPosition(labels, c, q);
      RowSumIsCost(d, labels, c, j);
      if q < cl[k] {
        assert j < k;
      }
    }
  }

  // ---------------------------------------------------------------------------
  // np.array_split: n rows into m contiguous pieces, the first n % m of them one
  // row longer than the others. The pieces are described by q = n / m and
  // rem = n % m.

  function PieceSize(q: nat, rem: nat, j: nat): nat
  {
    q + (if j < rem then 1 else 0)
  }

  /** First row of piece j. */
  function PieceStart(q: nat, rem: nat, j: nat): nat
  {
    if j == 0 then 0 else PieceStart(q, rem, j - 1) + PieceSize(q, rem, j - 1)
  }

  lemma {:induction false} PieceStartClosed(q: nat, rem: nat, j: nat)
    ensures PieceStart(q, rem, j) == j * q + (if j < rem then j else rem)
  {
    if j > 0 {
      PieceStartClosed(q, rem, j - 1);
      assert j * q == (j - 1) * q + q;
    }
  }

  lemma {:induction false} PieceStartMono(q: nat, rem: nat, i: nat, j: nat)
    requires i <= j
    ensures PieceStart(q, rem, i) <= PieceStart(q, rem, j)
  {
    if i < j {
      PieceStartMono(q, rem, i, j - 1);
    }
  }

  /** The m pieces end exactly at the last row. */
  lemma PieceStartEnd(n: nat, m: nat)
    requires m > 0
    ensures PieceStart(n / m, n % m, m) == n
  {
    PieceStartClosed(n / m, n % m, m);
  }

  lemma PieceBounds(n: nat, m: nat, j: nat)
    requires m > 0 && j < m
    ensures PieceStart(n / m, n % m, j) + PieceSize(n / m, n % m, j) <= n
  {
    PieceStartMono(n / m, n % m, j + 1, m);
    PieceStartEnd(n, m);
  }

  /** Every row lies in some piece. */
  lemma PieceContaining(n: nat, q: nat, rem: nat, m: nat, i: nat) returns (j: nat)
    requires PieceStart(q, rem, m) == n && i < n
    ensures j < m
    ensures PieceStart(q, rem, j) <= i < PieceStart(q, rem, j) + PieceSize(q, rem, j)
  {
    j := 0;
    while PieceStart(q, rem, j + 1) <= i
      invariant j < m && PieceStart(q, rem, j) <= i
      decreases m - j
    {
      if j + 1 >= m {
        PieceStartMono(q, rem, m, j + 1);
      }
      j := j + 1;
    }
  }

  /** Rows PieceStart(j) up to the start of piece j + 1. */
  function PieceOf<T>(rows: seq<T>, q: nat, rem: nat, j: nat): (r: seq<T>)
    requires PieceStart(q, rem, j) + PieceSize(q, rem, j) <= |rows|
    ensures |r| == PieceSize(q, rem, j)
    ensures forall i :: 0 <= i < |r| ==> r[i] == rows[PieceStart(q, rem, j) + i]
  {
    rows[PieceStart(q, rem, j)..PieceStart(q, rem, j) + PieceSize(q, rem, j)]
  }

  /** Piece j of np.array_split(rows, m). */
  function Piece<T>(rows: seq<T>, m: nat, j: nat): (r: seq<T>)
    requires m > 0 && j < m
    ensures PieceStart(|rows| / m, |rows| % m, j) + PieceSize(|rows| / m, |rows| % m, j) <= |rows|
    ensures r == PieceOf(rows, |rows| / m, |rows| % m, j)
  {
    PieceBounds(|rows|, m, j);
    PieceOf(rows, |rows| / m, |rows| % m, j)
  }

  /** np.array_split(rows, m): m contiguous pieces that together are all the rows. */
  function ArraySplit(rows: seq<seq<int>>, m: nat): (r: seq<seq<seq<int>>>)
    requires m > 0
    ensures |r| == m
    ensures forall j :: 0 <= j < m ==> r[j] == Piece(rows, m, j)
  {
    seq(m, j requires 0 <= j < m => Piece(rows, m, j))
  }

  /** Every piece is non-empty exactly when there are at least as many rows as pieces. */
  lemma PiecesNonEmpty(n: nat, m: nat)
    requires m > 0
    ensures (forall j :: 0 <= j < m ==> PieceSize(n / m, n % m, j) > 0) <==> m <= n
  {
    if m > n {
      assert n / m == 0 && n % m == n;
      assert PieceSize(n / m, n % m, m - 1) == 0;
    } else {
      assert n / m >= 1;
    }
  }

  /** candidate_medoids_parallel: within piece j, the position of the row with the
      smallest sum (a LOCAL index into that piece); argmin of an empty piece raises. */
  function CandidateMedoid(pieces: seq<seq<seq<int>>>, j: nat): (r: Result<nat>)
    requires j < |pieces|
    ensures r.Ok? <==> |pieces[j]| > 0
    ensures r.Err? ==> r.error == EmptyArgMin
    ensures r.Ok? ==> r.value < |pieces[j]|
    ensures r.Ok? ==> forall i :: 0 <= i < |pieces[j]| ==> Sum(pieces[j][r.value]) <= Sum(pieces[j][i])
    ensures r.Ok? ==> forall i :: 0 <= i < r.value ==> Sum(pieces[j][r.value]) < Sum(pieces[j][i])
  {
    if |pieces[j]| == 0 then Err(EmptyArgMin) else Ok(ArgMin(RowSums(pieces[j])))
  }

  /** The candidates of all pieces, collected in dispatch order. */
  function Candidates(pieces: seq<seq<seq<int>>>): (r: Result<seq<nat>>)
    ensures r.Ok? <==> forall j :: 0 <= j < |pieces| ==> |pieces[j]| > 0
    ensures r.Ok? ==> |r.value| == |pieces|
    ensures r.Ok? ==> forall j :: 0 <= j < |pieces| ==> r.value[j] == ArgMin(RowSums(pieces[j]))
  {
    var cs := seq(|pieces|, j requires 0 <= j < |pieces| => CandidateMedoid(pieces, j));
    assert forall j :: 0 <= j < |pieces| ==> (cs[j].Ok? <==> |pieces[j]| > 0);
    Collect(cs)
  }

  /** The pieces of cluster c's sub-matrix. */
  function ClusterPieces(d: seq<seq<int>>, labels: seq<nat>, c: nat, m: nat): (r: seq<seq<seq<int>>>)
    requires IsMatrix(d, |labels|) && m > 0
    ensures |r| == m
    ensures (forall j :: 0 <= j < m ==> |r[j]| > 0) <==> m <= |Members(labels, c)|
  {
    var n := |Members(labels, c)|;
    var r := ArraySplit(SubMatrix(d, Members(labels, c)), m);
    PiecesNonEmpty(n, m);
    assert forall j :: 0 <= j < m ==> |r[j]| == PieceSize(n / m, n % m, j);
    r
  }

  /** The W > K branch AS WRITTEN: medoids[k] = cluster[argmin(local candidates)].
      The position j of the smallest local index is used as a position in the
      whole cluster. */
  function SplitChoice(d: seq<seq<int>>, labels: seq<nat>, c: nat, m: nat): (r: Result<nat>)
    requires IsMatrix(d, |labels|)
    ensures r.Ok? <==> 1 <= m <= |Members(labels, c)|
    ensures r.Ok? ==> exists j :: 0 <= j < m && r.value == Members(labels, c)[j]
    ensures r.Ok? ==> r.value < |labels| && labels[r.value] == c
  {
    var cl := Members(labels, c);
    if m == 0 then Err(NoSections)
    else
      var locals := Candidates(ClusterPieces(d, labels, c, m));
      if locals.Err? then Err(locals.error)
      else Ok(cl[ArgMin(locals.value)])
  }

  /** Four points in one cluster split over two workers: both pieces report local
      index 0, so the choice as written returns point 0 (summed distance 15), while
      update_medoids returns point 2 (summed distance 7). */
  lemma SplitChoiceMissesMedoid()
    ensures var d := [[0, 5, 5, 5], [5, 0, 1, 9], [5, 1, 0, 1], [5, 9, 1, 0]];
            var labels := [0, 0, 0, 0];
            SplitChoice(d, labels, 0, 2) == Ok(0) && UpdateMedoid(d, labels, 0) == Ok(2)
            && ClusterCost(d, labels, 0, 2) < ClusterCost(d, labels, 0, 0)
  {
    var d := [[0, 5, 5, 5], [5, 0, 1, 9], [5, 1, 0, 1], [5, 9, 1, 0]];
    var labels := [0, 0, 0, 0];
    ExampleMembers();
    var sub := ExampleSubMatrix();
    var sums := RowSums(sub);
    assert sums == [15, 15, 7, 15];
    ArgMinIs(sums, 2);
    RowSumIsCost(d, labels, 0, 2);
    RowSumIsCost(d, labels, 0, 0);
    ExampleCandidates();
    ArgMinIs([0, 0], 0);
  }

  /** Both pieces of the example report local index 0. */
  lemma ExampleCandidates()
    ensures var d := [[0, 5, 5, 5], [5, 0, 1, 9], [5, 1, 0, 1], [5, 9, 1, 0]];
            Candidates(ClusterPieces(d, [0, 0, 0, 0], 0, 2)) == Ok([0, 0])
  {
    var d := [[0, 5, 5, 5], [5, 0, 1, 9], [5, 1, 0, 1], [5, 9, 1, 0]];
    ExampleMembers();
    var sub := ExampleSubMatrix();
    var pieces := ClusterPieces(d, [0, 0, 0, 0], 0, 2);
    assert PieceStart(2, 0, 1) == 2;
    assert pieces[0] == sub[..2] && pieces[1] == sub[2..];
    assert RowSums(pieces[0]) == [15, 15] && RowSums(pieces[1]) == [7, 15];
    ArgMinIs(RowSums(pieces[0]), 0);
    ArgMinIs(RowSums(pieces[1]), 0);
    var locals := Candidates(pieces);
    assert locals.Ok? && |locals.value| == 2;
    assert locals.value[0] == 0 && locals.value[1] == 0;
    assert locals.value == [0, 0];
  }

  lemma ExampleMembers()
    ensures Members([0, 0, 0, 0], 0) == [0, 1, 2, 3]
  {
    var labels := [0, 0, 0, 0];
    assert labels[..3] == [0, 0, 0] && labels[..3][..2] == [0, 0] && labels[..3][..2][..1] == [0];
    assert [0][..0] == [];
    assert Members([0], 0) == [0];
    assert Members([0, 0], 0) == [0, 1];
    assert Members([0, 0, 0], 0) == [0, 1, 2];
  }

  /** The example's sub-matrix is the whole matrix, with row sums 15, 15, 7, 15. */
  lemma ExampleSubMatrix() returns (sub: seq<seq<int>>)
    ensures var d := [[0, 5, 5, 5], [5, 0, 1, 9], [5, 1, 0, 1], [5, 9, 1, 0]];
            sub == SubMatrix(d, [0, 1, 2, 3]) && |sub| == 4
            && Sum(sub[0]) == 15 && Sum(sub[1]) == 15 && Sum(sub[2]) == 7 && Sum(sub[3]) == 15
  {
    var d := [[0, 5, 5, 5], [5, 0, 1, 9], [5, 1, 0, 1], [5, 9, 1, 0]];
    sub := SubMatrix(d, [0, 1, 2, 3]);
    assert sub[0] == d[0] && sub[1] == d[1] && sub[2] == d[2] && sub[3] == d[3];
    assert Sum(d[0]) == 15 && Sum(d[1]) == 15 && Sum(d[2]) == 7 && Sum(d[3]) == 15;
  }

  /** What the split-and-combine step evidently intends: piece j's candidate sits at
      row PieceStart(j) + local index of the cluster; keep the candidate whose row sum
      is smallest (first piece among ties). */
  function IntendedSplitChoice(d: seq<seq<int>>, labels: seq<nat>, c: nat, m: nat): (r: Result<nat>)
    requires IsMatrix(d, |labels|)
    ensures r.Ok? <==> 1 <= m <= |Members(labels, c)|
    ensures r.Ok? ==> r == UpdateMedoid(d, labels, c)
  {
    var cl := Members(labels, c);
    if m == 0 then Err(NoSections)
    else
      var pieces := ClusterPieces(d, labels, c, m);
      var locals := Candidates(pieces);
      if locals.Err? then Err(locals.error)
      else
        var s := RowSums(SubMatrix(d, cl));
        ClusterCandidates(d, labels, c, m);
        CombineLocalArgMins(s, |s| / m, |s| % m, m, locals.value);
        UpdateMedoidIsArgMin(d, labels, c);
        Ok(cl[CombineByValue(s, |s| / m, |s| % m, locals.value)])
  }

  /** Piece j's candidate as a row of the whole sequence. */
  function GlobalRow(q: nat, rem: nat, a: seq<nat>, j: nat): nat
    requires j < |a|
  {
    PieceStart(q, rem, j) + a[j]
  }

  /** Among the pieces' candidates, the row of the one with the smallest value. */
  function CombineByValue(s: seq<int>, q: nat, rem: nat, a: seq<nat>): nat
    requires |a| > 0
    requires forall j :: 0 <= j < |a| ==> GlobalRow(q, rem, a, j) < |s|
  {
    GlobalRow(q, rem, a, ArgMin(CandidateValues(s, q, rem, a)))
  }

  /** The row sums of the pieces' candidates, in piece order. */
  function CandidateValues(s: seq<int>, q: nat, rem: nat, a: seq<nat>): (r: seq<int>)
    requires forall j :: 0 <= j < |a| ==> GlobalRow(q, rem, a, j) < |s|
    ensures |r| == |a| && forall j :: 0 <= j < |a| ==> r[j] == s[GlobalRow(q, rem, a, j)]
  {
    seq(|a|, j requires 0 <= j < |a| => s[GlobalRow(q, rem, a, j)])
  }

  lemma UpdateMedoidIsArgMin(d: seq<seq<int>>, labels: seq<nat>, c: nat)
    requires IsMatrix(d, |labels|) && |Members(labels, c)| > 0
    ensures UpdateMedoid(d, labels, c)
         == Ok(Members(labels, c)[ArgMin(RowSums(SubMatrix(d, Members(labels, c))))])
  {
  }

  /** The first argmin of a contiguous slice, seen as a position of the whole sequence. */
  lemma SliceArgMin(s: seq<int>, lo: nat, sz: nat, x: nat)
    requires 0 < sz && lo + sz <= |s| && x == ArgMin(s[lo..lo + sz])
    ensures lo + x < lo + sz
    ensures forall i :: lo <= i < lo + sz ==> s[lo + x] <= s[i]
    ensures forall i :: lo <= i < lo + x ==> s[lo + x] < s[i]
  {
    var p := s[lo..lo + sz];
    forall i | lo <= i < lo + sz
      ensures s[i] == p[i - lo]
    {
    }
  }

  /** a[j] is the local candidate of piece j of s. */
  predicate IsPieceCandidate(s: seq<int>, q: nat, rem: nat, a: seq<nat>, j: nat)
    requires j < |a|
  {
    0 < PieceSize(q, rem, j) && PieceStart(q, rem, j) + PieceSize(q, rem, j) <= |s| &&
    a[j] == ArgMin(PieceOf(s, q, rem, j))
  }

  /** Piece j's candidate row lies before the start of piece j + 1. */
  predicate RowInPiece(q: nat, rem: nat, a: seq<nat>, j: nat)
    requires j < |a|
  {
    GlobalRow(q, rem, a, j) < PieceStart(q, rem, j + 1)
  }

  lemma CandidatesInPieces(s: seq<int>, q: nat, rem: nat, m: nat, a: seq<nat>)
    requires 1 <= m <= |s| && |a| == m && PieceStart(q, rem, m) == |s|
    requires forall j :: 0 <= j < m ==> IsPieceCandidate(s, q, rem, a, j)
    ensures forall j :: 0 <= j < m ==> RowInPiece(q, rem, a, j) && GlobalRow(q, rem, a, j) < |s|
  {
    forall j | 0 <= j < m
      ensures RowInPiece(q, rem, a, j) && GlobalRow(q, rem, a, j) < |s|
    {
      assert IsPieceCandidate(s, q, rem, a, j);
      SliceArgMin(s, PieceStart(q, rem, j), PieceSize(q, rem, j), a[j]);
    }
  }

  /** The candidate of the piece holding the first global argmin is that argmin. */
  lemma CandidateOfArgMinPiece(s: seq<int>, q: nat, rem: nat, a: seq<nat>, J: nat)
    requires |s| > 0 && J < |a| && IsPieceCandidate(s, q, rem, a, J)
    requires PieceStart(q, rem, J) <= ArgMin(s) < PieceStart(q, rem, J) + PieceSize(q, rem, J)
    ensures GlobalRow(q, rem, a, J) == ArgMin(s)
  {
    var lo := PieceStart(q, rem, J);
    SliceArgMin(s, lo, PieceSize(q, rem, J), a[J]);
  }

  /** Taking the first smallest of the values v[j] == s[g[j]] picks position J
      when g[J] is the first argmin of s and every earlier g[j] lies before it. */
  lemma PickByValue(s: seq<int>, g: seq<nat>, v: seq<int>, J: nat)
    requires |s| > 0 && J < |g| && |v| == |g|
    requires forall j :: 0 <= j < |g| ==> g[j] < |s| && v[j] == s[g[j]]
    requires g[J] == ArgMin(s)
    requires forall j :: 0 <= j < J ==> g[j] < g[J]
    ensures ArgMin(v) == J
  {
    ArgMinIs(v, J);
  }

  /** Candidates of earlier pieces lie in earlier rows. */
  lemma EarlierPiecesEarlierRows(q: nat, rem: nat, a: seq<nat>, J: nat)
    requires J < |a|
    requires forall j :: 0 <= j < |a| ==> RowInPiece(q, rem, a, j)
    ensures forall j :: 0 <= j < J ==> GlobalRow(q, rem, a, j) < GlobalRow(q, rem, a, J)
  {
    forall j | 0 <= j < J
      ensures GlobalRow(q, rem, a, j) < GlobalRow(q, rem, a, J)
    {
      assert RowInPiece(q, rem, a, j);
      PieceStartMono(q, rem, j + 1, J);
    }
  }

  /** Comparing the candidates by value picks the piece holding the first argmin. */
  lemma ValuesPickArgMinPiece(s: seq<int>, q: nat, rem: nat, a: seq<nat>, J: nat)
    requires |s| > 0 && J < |a|
    requires forall j :: 0 <= j < |a| ==> GlobalRow(q, rem, a, j) < |s|
    requires GlobalRow(q, rem, a, J) == ArgMin(s)
    requires forall j :: 0 <= j < J ==> GlobalRow(q, rem, a, j) < GlobalRow(q, rem, a, J)
    ensures CombineByValue(s, q, rem, a) == ArgMin(s)
  {
    var g := seq(|a|, j requires 0 <= j < |a| => GlobalRow(q, rem, a, j));
    PickByValue(s, g, CandidateValues(s, q, rem, a), J);
  }

  /** Combining the first argmins of contiguous pieces by their values, first piece
      among ties, gives the first argmin of the whole sequence. */
  lemma CombineLocalArgMins(s: seq<int>, q: nat, rem: nat, m: nat, a: seq<nat>)
    requires 1 <= m <= |s| && |a| == m && PieceStart(q, rem, m) == |s|
    requires forall j :: 0 <= j < m ==> IsPieceCandidate(s, q, rem, a, j)
    ensures forall j :: 0 <= j < m ==> GlobalRow(q, rem, a, j) < |s|
    ensures CombineByValue(s, q, rem, a) == ArgMin(s)
  {
    CandidatesInPieces(s, q, rem, m, a);
    var J := PieceContaining(|s|, q, rem, m, ArgMin(s));
    CandidateOfArgMinPiece(s, q, rem, a, J);
    EarlierPiecesEarlierRows(q, rem, a, J);
    ValuesPickArgMinPiece(s, q, rem, a, J);
  }

  /** The candidates the pool returns for cluster c are the pieces' local argmins
      of the cluster's row sums. */
  lemma ClusterCandidates(d: seq<seq<int>>, labels: seq<nat>, c: nat, m: nat)
    requires IsMatrix(d, |labels|) && m > 0
    requires Candidates(ClusterPieces(d, labels, c, m)).Ok?
    ensures var s := RowSums(SubMatrix(d, Members(labels, c)));
            var a := Candidates(ClusterPieces(d, labels, c, m)).value;
            |a| == m && PieceStart(|s| / m, |s| % m, m) == |s| &&
            forall j :: 0 <= j < m ==> IsPieceCandidate(s, |s| / m, |s| % m, a, j)
  {
    var s := RowSums(SubMatrix(d, Members(labels, c)));
    var a := Candidates(ClusterPieces(d, labels, c, m)).value;
    PieceStartEnd(|s|, m);
    forall j | 0 <= j < m
      ensures IsPieceCandidate(s, |s| / m, |s| % m, a, j)
    {
      ClusterPieceCandidate(d, labels, c, m, j);
    }
  }

  lemma ClusterPieceCandidate(d: seq<seq<int>>, labels: seq<nat>, c: nat, m: nat, j: nat)
    requires IsMatrix(d, |labels|) && j < m
    requires Candidates(ClusterPieces(d, labels, c, m)).Ok?
    ensures var s := RowSums(SubMatrix(d, Members(labels, c)));
            var a := Candidates(ClusterPieces(d, labels, c, m)).value;
            |a| == m && IsPieceCandidate(s, |s| / m, |s| % m, a, j)
  {
    var sub := SubMatrix(d, Members(labels, c));
    var s := RowSums(sub);
    var pieces := ClusterPieces(d, labels, c, m);
    PieceBounds(|s|, m, j);
    assert pieces[j] == PieceOf(sub, |s| / m, |s| % m, j);
    assert RowSums(pieces[j]) == PieceOf(s, |s| / m, |s| % m, j);
  }
}
