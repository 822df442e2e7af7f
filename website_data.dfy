/** `WebsiteData` in info_leakage/data_utils.py: a read-only view over the
    pair (X, Y) with per-site and per-feature selections. */
module WebsiteView {
  import opened Seqs
  import opened Labels
  import opened Wrappers
  import Loader

  /** `[True if y == site else False for y in Y]`. */
  function Mask(Y: seq<int>, site: int): (f: seq<bool>)
    ensures |f| == |Y|
    ensures forall i :: 0 <= i < |Y| ==> (f[i] <==> Y[i] == site)
  {
    seq(|Y|, i requires 0 <= i < |Y| => Y[i] == site)
  }

  /** numpy boolean indexing `xs[mask]`: the elements whose mask entry is true, in order. */
  function Select<T>(xs: seq<T>, mask: seq<bool>): (selected: seq<T>)
    requires |xs| == |mask|
    ensures |selected| == Count(mask, true)
    ensures forall x <- selected :: x in xs
    decreases |xs|
  {
    if xs == [] then []
    else
      var n := |xs| - 1;
      assert forall x <- xs[..n] :: x in xs;
      Select(xs[..n], mask[..n]) + (if mask[n] then [xs[n]] else [])
  }

  /** The positions holding `site`, in increasing order, one per occurrence
      (PositionsComplete: every position holding `site` is among them). */
  function Positions(Y: seq<int>, site: int): (idx: seq<nat>)
    ensures |idx| == Count(Y, site)
    ensures forall k :: 0 <= k < |idx| ==> idx[k] < |Y| && Y[idx[k]] == site
    ensures forall a, b :: 0 <= a < b < |idx| ==> idx[a] < idx[b]
    decreases |Y|
  {
    if Y == [] then []
    else
      var n := |Y| - 1;
      var rest := Positions(Y[..n], site);
      if Y[n] == site then rest + [n] else rest
  }

  /** A position holding `site` is among the positions of `site`. */
  lemma {:induction false} PositionIn(Y: seq<int>, site: int, j: nat)
    requires j < |Y| && Y[j] == site
    ensures j in Positions(Y, site)
    decreases |Y|
  {
    var n := |Y| - 1;
    var rest := Positions(Y[..n], site);
    if j < n {
      assert Y[..n][j] == site;
      PositionIn(Y[..n], site, j);
      assert Positions(Y, site)[..|rest|] == rest;
    }
  }

  lemma PositionsComplete(Y: seq<int>, site: int)
    ensures forall j :: 0 <= j < |Y| && Y[j] == site ==> j in Positions(Y, site)
  {
    forall j | 0 <= j < |Y| && Y[j] == site ensures j in Positions(Y, site) {
      PositionIn(Y, site, j);
    }
  }

  /** numpy integer-array indexing `xs[idx]`. */
  function Gather<T>(xs: seq<T>, idx: seq<nat>): (picked: seq<T>)
    requires forall k :: 0 <= k < |idx| ==> idx[k] < |xs|
    ensures |picked| == |idx|
  {
    seq(|idx|, k requires 0 <= k < |idx| => xs[idx[k]])
  }

  lemma GatherExtend<T>(xs: seq<T>, idx: seq<nat>, n: nat)
    requires n < |xs| && forall k :: 0 <= k < |idx| ==> idx[k] < n
    ensures Gather(xs, idx) == Gather(xs[..n], idx)
    ensures Gather(xs, idx + [n]) == Gather(xs[..n], idx) + [xs[n]]
  {
  }

  /** Selecting with the mask of `site` picks the rows at the positions of
      `site`, in their original order. */
  lemma {:induction false} SelectByMask<T>(xs: seq<T>, Y: seq<int>, site: int)
    requires |xs| == |Y|
    ensures Select(xs, Mask(Y, site)) == Gather(xs, Positions(Y, site))
    decreases |xs|
  {
    if xs != [] {
      var n := |xs| - 1;
      var idx' := Positions(Y[..n], site);
      assert Mask(Y, site)[..n] == Mask(Y[..n], site);
      SelectByMask(xs[..n], Y[..n], site);
      GatherExtend(xs, idx', n);
    }
  }

  /** Taking column `c` of every row and then selecting by a mask gives
      column `c` of the selected rows. */
  lemma SelectColumn(X: seq<seq<real>>, Y: seq<int>, site: int, c: nat)
    requires |X| == |Y| && forall i :: 0 <= i < |X| ==> c < |X[i]|
    ensures var full := seq(|X|, i requires 0 <= i < |X| => X[i][c]);
            var rows := Select(X, Mask(Y, site));
            |Select(full, Mask(Y, site))| == |rows| &&
            forall k :: 0 <= k < |rows| ==> c < |rows[k]| && Select(full, Mask(Y, site))[k] == rows[k][c]
  {
    var full := seq(|X|, i requires 0 <= i < |X| => X[i][c]);
    SelectByMask(full, Y, site);
    SelectByMask(X, Y, site);
  }

  class WebsiteData {
    const X: seq<seq<real>>
    const Y: seq<int>
    /** `self.features = range(X.shape[1])`: the number of columns. */
    const features: nat
    /** `self.sites = range(len(np.unique(Y)))`: the number of distinct labels. */
    const sites: nat

    /** X is a non-empty matrix with `features` columns, as `X.shape[1]` demands. */
    ghost predicate Valid()
    {
      |X| > 0 && (forall i :: 0 <= i < |X| ==> |X[i]| == features) && sites == DistinctCount(Y)
    }

    constructor (X: seq<seq<real>>, Y: seq<int>)
      requires |X| > 0 && forall i :: 0 <= i < |X| ==> |X[i]| == |X[0]|
      ensures Valid()
      ensures this.X == X && this.Y == Y && features == |X[0]|
    {
      this.X := X;
      this.Y := Y;
      features := |X[0]|;
      sites := DistinctCount(Y);
    }

    /** `len(data)`: the number of instances. */
    function Length(): (n: nat)
      ensures n == |X|
    {
      |X|
    }

    /** `get_labels()`: a copy of the labels. */
    function GetLabels(): (labels: seq<int>)
      ensures labels == Y
    {
      Y
    }

    /** The column indices numpy accepts: from -features to features - 1. */
    predicate ValidColumn(feature: int)
    {
      -(features as int) <= feature < features
    }

    /** numpy's index of column `feature`: the only index in range that is
      `feature` itself or `feature` counted back from the end. */
    function Column(feature: int): (c: nat)
      requires ValidColumn(feature)
      ensures c < features
      ensures c == feature || c == feature + features
    {
      if feature < 0 then feature + features else feature
    }

    /** `get_site(label)`: a copy of the rows labelled `label`, in their order. */
    function GetSite(site: int): (rows: seq<seq<real>>)
      requires |X| == |Y| || |Y| == 0
      ensures |rows| == Count(GetLabels(), site)
      ensures rows == Gather(X, Positions(Y, site))
    {
      if Y == [] then []
      else
        SelectByMask(X, Y, site);
        Select(X, Mask(Y, site))
    }

    /** `get_site(label, feature)`: column `feature` of the rows labelled `label`. */
    function GetSiteFeature(site: int, feature: int): (column: seq<real>)
      requires Valid() && (|X| == |Y| || |Y| == 0) && ValidColumn(feature)
      ensures var rows := GetSite(site);
              |column| == |rows| &&
              forall k :: 0 <= k < |rows| ==> Column(feature) < |rows[k]| && column[k] == rows[k][Column(feature)]
    {
      if Y == [] then []
      else
        var c := Column(feature);
        var full := seq(|X|, i requires 0 <= i < |X| => X[i][c]);
        SelectColumn(X, Y, site, c);
        assert GetSite(site) == Select(X, Mask(Y, site));
        Select(full, Mask(Y, site))
    }

    /** `get_feature(feature)`: a copy of column `feature` of every row. */
    function GetFeature(feature: int): (column: seq<real>)
      requires Valid() && ValidColumn(feature)
      ensures |column| == Length()
      ensures forall i :: 0 <= i < |X| ==> column[i] == X[i][Column(feature)]
    {
      var c := Column(feature);
      seq(|X|, i requires 0 <= i < |X| => X[i][c])
    }
  }

  /** When the labels are 0 .. sites-1, the per-site selections split the
      rows: their sizes add up to the length of the view. */
  lemma SitesPartitionRows(w: WebsiteData)
    requires |w.X| == |w.Y|
    requires forall y <- w.Y :: 0 <= y < w.sites
    ensures SumOfCounts(w.GetLabels(), w.sites) == w.Length()
  {
    CountsPartition(w.Y, w.sites);
  }

  /** A view over what `load_data` returns: every site in `range(sites)`
      selects at least one row, and the sites together select every row. */
  lemma LoadedViewSites(w: WebsiteData, files: seq<Loader.FeatureFile>, extension: string, p: Loader.Parsers)
    requires w.Valid()
    requires Loader.Load(files, extension, p) == Ok(Loader.Dataset(w.X, w.Y))
    ensures forall s :: 0 <= s < w.sites ==> |w.GetSite(s)| > 0
    ensures SumOfCounts(w.GetLabels(), w.sites) == w.Length()
  {
    Loader.LoadedLabelsDense(files, extension, p);
    SitesPartitionRows(w);
  }
}
