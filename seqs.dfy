/** Counting over sequences, shared by the loader and the dataset view. */
module Seqs {

  /** Number of occurrences of `x` in `s`. */
  function Count<T(==)>(s: seq<T>, x: T): (n: nat)
    ensures n <= |s|
    ensures n == 0 <==> x !in s
    decreases |s|
  {
    if s == [] then 0
    else
      assert s == s[..|s| - 1] + [s[|s| - 1]];
      Count(s[..|s| - 1], x) + (if s[|s| - 1] == x then 1 else 0)
  }

  lemma {:induction false} CountAppend<T>(a: seq<T>, b: seq<T>, x: T)
    ensures Count(a + b, x) == Count(a, x) + Count(b, x)
    decreases |b|
  {
    if b == [] {
      assert a + b == a;
    } else {
      var b' := b[..|b| - 1];
      assert (a + b)[..|a + b| - 1] == a + b';
      CountAppend(a, b', x);
    }
  }

  /** Count(s, 0) + Count(s, 1) + ... + Count(s, k - 1). */
  function SumOfCounts(s: seq<int>, k: nat): nat
  {
    if k == 0 then 0 else SumOfCounts(s, k - 1) + Count(s, k - 1)
  }

  lemma {:induction false} SumOfCountsAppend(s: seq<int>, y: int, k: nat)
    ensures SumOfCounts(s + [y], k) == SumOfCounts(s, k) + (if 0 <= y < k then 1 else 0)
  {
    if k > 0 {
      SumOfCountsAppend(s, y, k - 1);
      CountAppend(s, [y], k - 1);
      assert Count([y], k - 1) == (if y == k - 1 then 1 else 0) by {
        assert [y][..0] == [];
      }
    }
  }

  /** When every value lies in [0, k), the per-value counts add up to the length:
      the values 0 .. k-1 partition the positions of `s`. */
  lemma {:induction false} CountsPartition(s: seq<int>, k: nat)
    requires forall y <- s :: 0 <= y < k
    ensures SumOfCounts(s, k) == |s|
    decreases |s|
  {
    if s == [] {
      ZeroCounts(s, k);
    } else {
      var s', y := s[..|s| - 1], s[|s| - 1];
      assert s == s' + [y];
      assert forall z <- s' :: z in s;
      assert y in s;
      CountsPartition(s', k);
      SumOfCountsAppend(s', y, k);
    }
  }

  lemma {:induction false} ZeroCounts(s: seq<int>, k: nat)
    requires s == []
    ensures SumOfCounts(s, k) == 0
  {
    if k > 0 {
      ZeroCounts(s, k - 1);
    }
  }
}
