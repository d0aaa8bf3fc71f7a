/** Distance matrices and the numpy reductions the engine applies to them
    (sum, argmin, argmax, min, sub-matrix selection). */
module Matrix {

  /** An n-by-n matrix of integer distances. */
  predicate IsMatrix(d: seq<seq<int>>, n: nat)
  {
    |d| == n && forall i :: 0 <= i < n ==> |d[i]| == n
  }

  /** Every index in `idx` names a row of an n-point matrix. */
  predicate Indices(idx: seq<nat>, n: nat)
  {
    forall i :: 0 <= i < |idx| ==> idx[i] < n
  }

  /** No index occurs twice. */
  predicate Distinct(idx: seq<nat>)
  {
    forall i, j :: 0 <= i < j < |idx| ==> idx[i] != idx[j]
  }

  /** Non-negative distances with a zero diagonal. */
  predicate IsDissimilarity(d: seq<seq<int>>)
    requires IsMatrix(d, |d|)
  {
    forall i, j :: 0 <= i < |d| && 0 <= j < |d| ==> d[i][j] >= 0 && (i == j ==> d[i][j] == 0)
  }

  function Sum(s: seq<int>): int
  {
    if s == [] then 0 else s[0] + Sum(s[1..])
  }

  lemma {:induction false} SumUpdate(s: seq<int>, i: nat, v: int)
    requires i < |s|
    ensures Sum(s[i := v]) == Sum(s) - s[i] + v
  {
    if i == 0 {
      assert s[i := v][1..] == s[1..];
    } else {
      assert s[i := v][1..] == s[1..][i - 1 := v];
      SumUpdate(s[1..], i - 1, v);
    }
  }

  /** The sum of a sequence whose every element is one more than the matching
      element of another. */
  lemma {:induction false} SumPlusOne(s: seq<int>, t: seq<int>)
    requires |s| == |t|
    requires forall i :: 0 <= i < |s| ==> s[i] == 1 + t[i]
    ensures Sum(s) == |t| + Sum(t)
  {
    if s != [] {
      SumPlusOne(s[1..], t[1..]);
    }
  }

  lemma SumTwo(x: int, y: int)
    ensures Sum([x, y]) == x + y
  {
    assert [x, y][1..] == [y] && [y][1..] == [];
    assert Sum([y]) == y;
  }

  /** np.argmin: the first position holding the smallest value. */
  function ArgMin(s: seq<int>): (r: nat)
    requires |s| > 0
    ensures r < |s|
    ensures forall j :: 0 <= j < |s| ==> s[r] <= s[j]
    ensures forall j :: 0 <= j < r ==> s[r] < s[j]
  {
    if |s| == 1 then 0
    else
      var r' := ArgMin(s[..|s| - 1]);
      if s[|s| - 1] < s[r'] then |s| - 1 else r'
  }

  /** The two ensures of ArgMin pin its result down. */
  lemma ArgMinIs(s: seq<int>, x: nat)
    requires x < |s|
    requires forall j :: 0 <= j < |s| ==> s[x] <= s[j]
    requires forall j :: 0 <= j < x ==> s[x] < s[j]
    ensures ArgMin(s) == x
  {
  }

  /** np.argmax: the first position holding the largest value. */
  function ArgMax(s: seq<int>): (r: nat)
    requires |s| > 0
    ensures r < |s|
    ensures forall j :: 0 <= j < |s| ==> s[j] <= s[r]
    ensures forall j :: 0 <= j < r ==> s[j] < s[r]
  {
    if |s| == 1 then 0
    else
      var r' := ArgMax(s[..|s| - 1]);
      if s[r'] < s[|s| - 1] then |s| - 1 else r'
  }

  /** The two ensures of ArgMax pin its result down. */
  lemma ArgMaxIs(s: seq<int>, x: nat)
    requires x < |s|
    requires forall j :: 0 <= j < |s| ==> s[j] <= s[x]
    requires forall j :: 0 <= j < x ==> s[j] < s[x]
    ensures ArgMax(s) == x
  {
  }

  /** distmat[idx][:, idx]: the rows and columns named by idx, in that order. */
  function SubMatrix(d: seq<seq<int>>, idx: seq<nat>): (r: seq<seq<int>>)
    requires IsMatrix(d, |d|) && Indices(idx, |d|)
    ensures IsMatrix(r, |idx|)
  {
    seq(|idx|, a requires 0 <= a < |idx| =>
      seq(|idx|, b requires 0 <= b < |idx| => d[idx[a]][idx[b]]))
  }

  /** np.sum(m, axis=1). */
  function RowSums(m: seq<seq<int>>): (r: seq<int>)
    ensures |r| == |m|
    ensures forall i :: 0 <= i < |m| ==> r[i] == Sum(m[i])
  {
    seq(|m|, i requires 0 <= i < |m| => Sum(m[i]))
  }
}
