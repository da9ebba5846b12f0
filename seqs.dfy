/**
 * Sequence helpers shared by the distractor generators and the favorites set:
 * duplicate-freedom, the order in which a JavaScript `Set` keeps its elements,
 * removal of one value, and `slice(0, n)`.
 */
module Seqs {

  predicate NoDup<T(==)>(xs: seq<T>) {
    forall i, j :: 0 <= i < j < |xs| ==> xs[i] != xs[j]
  }

  /**
   * `[...new Set(xs)]`: the distinct elements of `xs`, each at the place of its
   * first occurrence. Inserting the elements one by one, a value already
   * present is skipped and a new one is appended at the end.
   */
  function Distinct<T(==)>(xs: seq<T>): (r: seq<T>)
    ensures NoDup(r)
    ensures forall i :: 0 <= i < |r| ==> r[i] in xs
    ensures forall i :: 0 <= i < |xs| ==> xs[i] in r
    ensures |r| <= |xs|
    decreases |xs|
  {
    if xs == [] then []
    else
      var d := Distinct(xs[..|xs| - 1]);
      var x := xs[|xs| - 1];
      assert xs == xs[..|xs| - 1] + [x];
      if x in d then d else d + [x]
  }

  /** A duplicate-free sequence is its own set order. */
  lemma {:induction false} DistinctOfNoDup<T>(xs: seq<T>)
    requires NoDup(xs)
    ensures Distinct(xs) == xs
    decreases |xs|
  {
    if xs != [] {
      DistinctOfNoDup(xs[..|xs| - 1]);
      assert xs[|xs| - 1] !in xs[..|xs| - 1];
      assert xs == xs[..|xs| - 1] + [xs[|xs| - 1]];
    }
  }

  /** `xs.filter(y => y !== x)`. */
  function Without<T(==)>(xs: seq<T>, x: T): (r: seq<T>)
    ensures x !in r
    ensures forall i :: 0 <= i < |r| ==> r[i] in xs
    ensures forall i :: 0 <= i < |xs| && xs[i] != x ==> xs[i] in r
    ensures |r| <= |xs|
  {
    if xs == [] then []
    else
      var rest := Without(xs[1..], x);
      assert forall i :: 0 < i < |xs| ==> xs[i] == xs[1..][i - 1];
      if xs[0] == x then rest else [xs[0]] + rest
  }

  /** Filtering out a value that is not there changes nothing. */
  lemma {:induction false} WithoutAbsent<T>(xs: seq<T>, x: T)
    requires x !in xs
    ensures Without(xs, x) == xs
  {
    if xs != [] {
      WithoutAbsent(xs[1..], x);
      assert xs == [xs[0]] + xs[1..];
    }
  }

  /** Filtering adds no duplicates. */
  lemma {:induction false} WithoutNoDup<T>(xs: seq<T>, x: T)
    requires NoDup(xs)
    ensures NoDup(Without(xs, x))
  {
    if xs != [] {
      var rest := Without(xs[1..], x);
      assert NoDup(xs[1..]);
      WithoutNoDup(xs[1..], x);
      if xs[0] != x {
        assert xs[0] !in xs[1..];
        assert xs[0] !in rest;
        var r := [xs[0]] + rest;
        forall i, j | 0 <= i < j < |r|
          ensures r[i] != r[j]
        {
          assert r[j] == rest[j - 1];
          if i > 0 {
            assert r[i] == rest[i - 1];
          }
        }
      }
    }
  }

  /** `xs.slice(0, n)`. */
  function Take<T>(xs: seq<T>, n: nat): (r: seq<T>)
    ensures |r| == if |xs| <= n then |xs| else n
    ensures r <= xs
  {
    if |xs| <= n then xs else xs[..n]
  }

  lemma NoDupPrefix<T>(xs: seq<T>, ys: seq<T>)
    requires NoDup(ys) && xs <= ys
    ensures NoDup(xs)
  {
    assert forall i :: 0 <= i < |xs| ==> xs[i] == ys[i];
  }

  /** The index of the first occurrence of `x`: `xs.indexOf(x)`. */
  function FirstIndex<T(==)>(xs: seq<T>, x: T): (r: nat)
    requires x in xs
    ensures r < |xs| && xs[r] == x
    ensures forall k :: 0 <= k < r ==> xs[k] != x
  {
    if xs[0] == x then 0 else 1 + FirstIndex(xs[1..], x)
  }

  /** `r` lists elements of `xs` in the order of their first occurrences there. */
  predicate InFirstOccurrenceOrder<T(==)>(r: seq<T>, xs: seq<T>) {
    (forall i :: 0 <= i < |r| ==> r[i] in xs)
    && forall i, j :: 0 <= i < j < |r| ==> FirstIndex(xs, r[i]) < FirstIndex(xs, r[j])
  }

  lemma FirstIndexAppend<T>(xs: seq<T>, x: T, y: T)
    requires y in xs
    ensures FirstIndex(xs + [x], y) == FirstIndex(xs, y)
  {
    assert (xs + [x])[FirstIndex(xs, y)] == y;
  }

  lemma FirstIndexLast<T>(xs: seq<T>, x: T)
    requires x !in xs
    ensures FirstIndex(xs + [x], x) == |xs|
  {
    assert forall k :: 0 <= k < |xs| ==> (xs + [x])[k] == xs[k];
  }

  /** Appending to `xs` does not move the first occurrences of what was already there. */
  lemma AppendKeepsOrder<T>(d: seq<T>, xs: seq<T>, x: T)
    requires InFirstOccurrenceOrder(d, xs)
    ensures InFirstOccurrenceOrder(d, xs + [x])
  {
    forall i | 0 <= i < |d|
      ensures FirstIndex(xs + [x], d[i]) == FirstIndex(xs, d[i])
    {
      FirstIndexAppend(xs, x, d[i]);
    }
  }

  /** A value new to `xs` comes after everything already listed. */
  lemma AppendNewOrder<T>(d: seq<T>, xs: seq<T>, x: T)
    requires InFirstOccurrenceOrder(d, xs) && x !in xs
    ensures InFirstOccurrenceOrder(d + [x], xs + [x])
  {
    AppendKeepsOrder(d, xs, x);
    FirstIndexLast(xs, x);
    var r := d + [x];
    forall i, j | 0 <= i < j < |r|
      ensures FirstIndex(xs + [x], r[i]) < FirstIndex(xs + [x], r[j])
    {
      assert r[i] == d[i];
      if j == |d| {
        assert r[j] == x;
      } else {
        assert r[j] == d[j];
      }
    }
  }

  /** A `Set` lists its elements in the order they were first added. */
  lemma {:induction false} DistinctOrder<T>(xs: seq<T>)
    ensures InFirstOccurrenceOrder(Distinct(xs), xs)
    decreases |xs|
  {
    if xs != [] {
      var init, x := xs[..|xs| - 1], xs[|xs| - 1];
      DistinctOrder(init);
      assert xs == init + [x];
      if x in Distinct(init) {
        AppendKeepsOrder(Distinct(init), init, x);
      } else {
        AppendNewOrder(Distinct(init), init, x);
      }
    }
  }

  lemma TailOrder<T>(r: seq<T>, xs: seq<T>)
    requires r != [] && InFirstOccurrenceOrder(r, xs)
    ensures InFirstOccurrenceOrder(r[1..], xs)
    ensures forall j :: 1 <= j < |r| ==> FirstIndex(xs, r[0]) < FirstIndex(xs, r[j])
  {
    assert forall i :: 0 <= i < |r| - 1 ==> r[1..][i] == r[i + 1];
  }

  lemma ConsOrder<T>(y: T, rest: seq<T>, xs: seq<T>)
    requires y in xs && InFirstOccurrenceOrder(rest, xs)
    requires forall j :: 0 <= j < |rest| ==> FirstIndex(xs, y) < FirstIndex(xs, rest[j])
    ensures InFirstOccurrenceOrder([y] + rest, xs)
  {
    var w := [y] + rest;
    assert forall i :: 0 < i < |w| ==> w[i] == rest[i - 1];
  }

  /** Filtering keeps the order. */
  lemma {:induction false} WithoutKeepsOrder<T>(r: seq<T>, xs: seq<T>, x: T)
    requires InFirstOccurrenceOrder(r, xs)
    ensures InFirstOccurrenceOrder(Without(r, x), xs)
    decreases |r|
  {
    if r != [] {
      var rest := Without(r[1..], x);
      TailOrder(r, xs);
      WithoutKeepsOrder(r[1..], xs, x);
      if r[0] != x {
        forall j | 0 <= j < |rest|
          ensures FirstIndex(xs, r[0]) < FirstIndex(xs, rest[j])
        {
          var k :| 0 <= k < |r[1..]| && r[1..][k] == rest[j];
          assert r[k + 1] == rest[j];
        }
        ConsOrder(r[0], rest, xs);
      }
    }
  }

  /** A prefix keeps the order. */
  lemma TakeKeepsOrder<T>(r: seq<T>, xs: seq<T>, n: nat)
    requires InFirstOccurrenceOrder(r, xs)
    ensures InFirstOccurrenceOrder(Take(r, n), xs)
  {
    var t := Take(r, n);
    assert forall i :: 0 <= i < |t| ==> t[i] == r[i];
  }
}
