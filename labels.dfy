/** The global label remap at the end of `load_data`: the raw labels are
    replaced by their rank among the sorted distinct raw labels. */
module Labels {

  predicate StrictlyIncreasing(s: seq<int>)
  {
    forall i, j :: 0 <= i < j < |s| ==> s[i] < s[j]
  }

  /** Number of distinct values in `ys` (`len(set(ys))`, `len(np.unique(ys))`):
      the length of the sorted distinct list, zero only for no labels at all. */
  function DistinctCount(ys: seq<int>): (n: nat)
    ensures n == |SortedDistinct(ys)|
    ensures n == 0 <==> ys == []
  {
    var labels := SortedDistinct(ys);
    IncreasingDistinct(labels);
    assert (set y | y in labels) == (set y | y in ys);
    assert ys != [] ==> ys[0] in (set y | y in ys);
    |set y | y in ys|
  }

  /** Adds `x` to a strictly increasing list, keeping it strictly increasing. */
  function Insert(x: int, sorted: seq<int>): (r: seq<int>)
    requires StrictlyIncreasing(sorted)
    ensures StrictlyIncreasing(r)
    ensures forall y :: y in r <==> y == x || y in sorted
  {
    if sorted == [] then [x]
    else if x < sorted[0] then [x] + sorted
    else if x == sorted[0] then sorted
    else
      var tail := Insert(x, sorted[1..]);
      assert forall y <- tail :: sorted[0] < y;
      var r := [sorted[0]] + tail;
      assert forall j :: 0 < j < |r| ==> r[j] in tail;
      r
  }

  /** `labels = list(set(ys)); labels.sort()`: the distinct values of `ys` in
      increasing order. */
  function SortedDistinct(ys: seq<int>): (labels: seq<int>)
    ensures StrictlyIncreasing(labels)
    ensures forall y :: y in labels <==> y in ys
    decreases |ys|
  {
    if ys == [] then []
    else
      assert ys == ys[..|ys| - 1] + [ys[|ys| - 1]];
      Insert(ys[|ys| - 1], SortedDistinct(ys[..|ys| - 1]))
  }

  /** Position of `x` in `labels`; the dictionary `d` built by `load_data`
      maps `labels[i]` to `i`, so `d[x]` is this position. */
  function IndexOf(labels: seq<int>, x: int): (i: nat)
    requires x in labels
    ensures i < |labels| && labels[i] == x
  {
    if labels[0] == x then 0 else 1 + IndexOf(labels[1..], x)
  }

  /** `Y = list(map(lambda x: d[x], Y))`: each raw label replaced by its
      position among the sorted distinct raw labels. */
  function Remap(ys: seq<int>): (r: seq<nat>)
    ensures |r| == |ys|
    ensures forall i :: 0 <= i < |ys| ==>
              r[i] < |SortedDistinct(ys)| && SortedDistinct(ys)[r[i]] == ys[i]
  {
    var labels := SortedDistinct(ys);
    seq(|ys|, i requires 0 <= i < |ys| => IndexOf(labels, ys[i]))
  }

  /** A strictly increasing list has no repeated value, so it has as many
      distinct values as elements. */
  lemma {:induction false} IncreasingDistinct(s: seq<int>)
    requires StrictlyIncreasing(s)
    ensures |set y | y in s| == |s|
    decreases |s|
  {
    if s != [] {
      var tail := s[1..];
      assert StrictlyIncreasing(tail);
      IncreasingDistinct(tail);
      assert s[0] !in tail;
      assert (set y | y in s) == {s[0]} + (set y | y in tail);
    }
  }

  /** Every remapped label lies in [0, k) for k the number of distinct raw
      labels, and every value of [0, k) is used. */
  lemma RemapDense(ys: seq<int>)
    ensures forall v <- Remap(ys) :: 0 <= v < DistinctCount(ys)
    ensures forall v :: 0 <= v < DistinctCount(ys) ==> v in Remap(ys)
  {
    var labels, r := SortedDistinct(ys), Remap(ys);
    forall v | 0 <= v < DistinctCount(ys) ensures v in r {
      assert labels[v] in ys;
      var i :| 0 <= i < |ys| && ys[i] == labels[v];
      assert labels[r[i]] == labels[v];
      assert r[i] == v;
    }
  }

  /** The remap neither merges nor splits labels: it keeps the number of distinct labels. */
  lemma RemapDistinctCount(ys: seq<int>)
    ensures DistinctCount(Remap(ys)) == DistinctCount(ys)
  {
    var r, k := Remap(ys), DistinctCount(ys);
    RemapDense(ys);
    var range := seq(k, v requires 0 <= v < k => v);
    assert StrictlyIncreasing(range);
    IncreasingDistinct(range);
    assert (set y | y in r) == (set y | y in range) by {
      forall v | 0 <= v < k ensures v in r && v in range {
        assert range[v] == v;
      }
    }
  }

  /** The remap preserves and reflects both the order and the equality of raw labels. */
  lemma RemapMonotone(ys: seq<int>)
    ensures forall i, j :: 0 <= i < |ys| && 0 <= j < |ys| ==>
              (ys[i] < ys[j] <==> Remap(ys)[i] < Remap(ys)[j]) &&
              (ys[i] == ys[j] <==> Remap(ys)[i] == Remap(ys)[j])
  {
  }

  /** In a strictly increasing list, the values below the k-th one are its first k. */
  lemma IncreasingPrefix(labels: seq<int>, k: nat)
    requires StrictlyIncreasing(labels) && k < |labels|
    ensures forall y :: (y in labels && y < labels[k]) <==> y in labels[..k]
  {
    forall y ensures (y in labels && y < labels[k]) <==> y in labels[..k] {
      if y in labels && y < labels[k] {
        var m :| 0 <= m < |labels| && labels[m] == y;
        assert labels[..k][m] == y;
      }
      if y in labels[..k] {
        var m :| 0 <= m < k && labels[..k][m] == y;
        assert labels[m] == y;
      }
    }
  }

  /** The remapped label is the rank of the raw label: the number of distinct
      raw labels strictly below it. */
  lemma RemapIsRank(ys: seq<int>, i: nat)
    requires i < |ys|
    ensures Remap(ys)[i] == |set y | y in ys && y < ys[i]|
  {
    var labels := SortedDistinct(ys);
    var k := Remap(ys)[i];
    var below := labels[..k];
    IncreasingPrefix(labels, k);
    assert labels[k] == ys[i];
    assert (set y | y in ys && y < ys[i]) == (set y | y in below);
    assert StrictlyIncreasing(below);
    IncreasingDistinct(below);
  }
}
