/**
 * `levenshtein` (src/App.jsx): edit distance by dynamic programming over a
 * 2-D table whose cell (i, j) holds the distance between the first i
 * characters of `a` and the first j characters of `b`.
 */
module EditDistance {

  function Min3(x: nat, y: nat, z: nat): (r: nat)
    ensures r <= x && r <= y && r <= z
    ensures r == x || r == y || r == z
  {
    if x <= y && x <= z then x else if y <= z then y else z
  }

  /**
   * The recurrence the table fills in, read on prefixes: when the last
   * characters agree the diagonal is taken as is, otherwise one plus the
   * least of deletion, insertion and substitution.
   */
  function Lev(a: string, b: string): nat
    decreases |a| + |b|
  {
    if |a| == 0 then |b|
    else if |b| == 0 then |a|
    else if a[|a| - 1] == b[|b| - 1] then Lev(a[..|a| - 1], b[..|b| - 1])
    else 1 + Min3(Lev(a[..|a| - 1], b), Lev(a, b[..|b| - 1]), Lev(a[..|a| - 1], b[..|b| - 1]))
  }

  /** The table borders: from or to the empty string the distance is the other length. */
  lemma {:induction false} LevBorders(a: string, b: string)
    ensures Lev(a, []) == |a| && Lev([], b) == |b|
  {
  }

  /** Cell (i, j) of the table in terms of the cells above, to the left and diagonally before it. */
  lemma LevCell(a: string, b: string, i: nat, j: nat)
    requires 1 <= i <= |a| && 1 <= j <= |b|
    ensures Lev(a[..i], b[..j]) ==
      if a[i - 1] == b[j - 1] then Lev(a[..i - 1], b[..j - 1])
      else 1 + Min3(Lev(a[..i - 1], b[..j]), Lev(a[..i], b[..j - 1]), Lev(a[..i - 1], b[..j - 1]))
  {
    assert a[..i][..i - 1] == a[..i - 1];
    assert b[..j][..j - 1] == b[..j - 1];
  }

  /** The distance is zero exactly when the strings are equal. */
  lemma {:induction false} LevZeroIffEqual(a: string, b: string)
    ensures Lev(a, b) == 0 <==> a == b
    decreases |a| + |b|
  {
    if |a| > 0 && |b| > 0 {
      var a', b' := a[..|a| - 1], b[..|b| - 1];
      assert a == a' + [a[|a| - 1]] && b == b' + [b[|b| - 1]];
      if a[|a| - 1] == b[|b| - 1] {
        LevZeroIffEqual(a', b');
      }
    }
  }

  /** The distance never exceeds the longer length. */
  lemma {:induction false} LevAtMostMax(a: string, b: string)
    ensures Lev(a, b) <= if |a| <= |b| then |b| else |a|
    decreases |a| + |b|
  {
    if |a| > 0 && |b| > 0 {
      LevAtMostMax(a[..|a| - 1], b[..|b| - 1]);
    }
  }

  /** The distance is symmetric. */
  lemma {:induction false} LevSymmetric(a: string, b: string)
    ensures Lev(a, b) == Lev(b, a)
    decreases |a| + |b|
  {
    if |a| > 0 && |b| > 0 {
      var a', b' := a[..|a| - 1], b[..|b| - 1];
      LevSymmetric(a', b');
      if a[|a| - 1] != b[|b| - 1] {
        LevSymmetric(a', b);
        LevSymmetric(a, b');
      }
    }
  }

  /** The inner loop of `levenshtein`: fills row `i` from the row above it, left to right. */
  method FillRow(a: string, b: string, dp: array2<nat>, i: nat)
    requires dp.Length0 == |a| + 1 && dp.Length1 == |b| + 1 && 1 <= i <= |a|
    requires forall k, l :: 0 <= k < i && 0 <= l <= |b| ==> dp[k, l] == Lev(a[..k], b[..l])
    requires dp[i, 0] == i
    modifies dp
    ensures forall k, l :: 0 <= k <= i && 0 <= l <= |b| ==> dp[k, l] == Lev(a[..k], b[..l])
    ensures forall k :: i < k <= |a| ==> dp[k, 0] == old(dp[k, 0])
  {
    LevBorders(a[..i], b[..0]);
    for j := 1 to |b| + 1
      invariant forall k, l :: 0 <= k < i && 0 <= l <= |b| ==> dp[k, l] == Lev(a[..k], b[..l])
      invariant forall l :: 0 <= l < j ==> dp[i, l] == Lev(a[..i], b[..l])
      invariant forall k :: i < k <= |a| ==> dp[k, 0] == old(dp[k, 0])
    {
      LevCell(a, b, i, j);
      var cell := if a[i - 1] == b[j - 1] then dp[i - 1, j - 1]
                  else 1 + Min3(dp[i - 1, j], dp[i, j - 1], dp[i - 1, j - 1]);
      assert cell == Lev(a[..i], b[..j]);
      dp[i, j] := cell;
    }
  }

  /** `levenshtein(a, b)`: fills the (|a|+1) x (|b|+1) table row by row. */
  method Levenshtein(a: string, b: string) returns (d: nat)
    ensures d == Lev(a, b)
  {
    var m, n := |a|, |b|;
    var dp := new nat[m + 1, n + 1];
    for i := 0 to m + 1
      invariant forall k :: 0 <= k < i ==> dp[k, 0] == k
    {
      dp[i, 0] := i;
    }
    for j := 1 to n + 1
      invariant forall k :: 0 <= k <= m ==> dp[k, 0] == k
      invariant forall l :: 0 <= l < j ==> dp[0, l] == l
    {
      dp[0, j] := j;
    }
    for i := 1 to m + 1
      invariant forall k, l :: 0 <= k < i && 0 <= l <= n ==> dp[k, l] == Lev(a[..k], b[..l])
      invariant forall k :: i <= k <= m ==> dp[k, 0] == k
    {
      FillRow(a, b, dp, i);
    }
    assert a[..m] == a && b[..n] == b;
    d := dp[m, n];
  }
}
