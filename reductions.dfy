/** `np.mean` over axis 0 and axis 1 of a two-dimensional array, and the
    year-to-year difference `data[1:,:] - data[:-1,:]`, over exact reals. */
module Reductions {

  /** Sum of a sequence, accumulated from the left. */
  function Sum(s: seq<real>): real
    decreases |s|
  {
    if s == [] then 0.0 else Sum(s[..|s| - 1]) + s[|s| - 1]
  }

  /** Arithmetic mean of a non-empty sequence. */
  function Mean(s: seq<real>): real
    requires |s| > 0
  {
    Sum(s) / (|s| as real)
  }

  /** Every row of `m` has `width` entries: `m` is a `len(m)` by `width` array. */
  predicate Rectangular(m: seq<seq<real>>, width: nat) {
    forall i :: 0 <= i < |m| ==> |m[i]| == width
  }

  /** Column `j` of `m`, i.e. `m[:, j]`. */
  function Column(m: seq<seq<real>>, j: nat): (c: seq<real>)
    requires forall i :: 0 <= i < |m| ==> j < |m[i]|
    ensures |c| == |m|
    ensures forall i :: 0 <= i < |m| ==> c[i] == m[i][j]
  {
    seq(|m|, i requires 0 <= i < |m| => m[i][j])
  }

  /** `np.mean(m, axis=0)`: the mean of each column. */
  function ColumnMeans(m: seq<seq<real>>, width: nat): (r: seq<real>)
    requires |m| > 0 && Rectangular(m, width)
    ensures |r| == width
    ensures forall j :: 0 <= j < width ==> r[j] == Sum(Column(m, j)) / (|m| as real)
  {
    seq(width, j requires 0 <= j < width => Mean(Column(m, j)))
  }

  /** `np.mean(m, axis=1)`: the mean of each row. */
  function RowMeans(m: seq<seq<real>>, width: nat): (r: seq<real>)
    requires width > 0 && Rectangular(m, width)
    ensures |r| == |m|
    ensures forall i :: 0 <= i < |m| ==> r[i] == Sum(m[i]) / (width as real)
  {
    seq(|m|, i requires 0 <= i < |m| => Mean(m[i]))
  }

  /** `m[1:,:] - m[:-1,:]`: row `i` is row `i + 1` minus row `i`. */
  function RowDiffs(m: seq<seq<real>>, width: nat): (d: seq<seq<real>>)
    requires |m| >= 2 && Rectangular(m, width)
    ensures |d| == |m| - 1 && Rectangular(d, width)
  {
    seq(|m| - 1, i requires 0 <= i < |m| - 1 =>
      seq(width, j requires 0 <= j < width => m[i + 1][j] - m[i][j]))
  }

  /** `np.mean(m[1:,:] - m[:-1,:], axis=0)`: the mean year-to-year change of each column. */
  function MeanGrowth(m: seq<seq<real>>, width: nat): (r: seq<real>)
    requires |m| >= 2 && Rectangular(m, width)
    ensures |r| == width
  {
    ColumnMeans(RowDiffs(m, width), width)
  }

  // ---- Properties of sums ----

  lemma {:induction false} SumConstant(s: seq<real>, c: real)
    requires forall i :: 0 <= i < |s| ==> s[i] == c
    ensures Sum(s) == (|s| as real) * c
    decreases |s|
  {
    if s != [] {
      SumConstant(s[..|s| - 1], c);
    }
  }

  /** The sum of an elementwise sum is the sum of the sums. */
  lemma {:induction false} SumAdd(a: seq<real>, b: seq<real>, s: seq<real>)
    requires |a| == |b| == |s|
    requires forall i :: 0 <= i < |s| ==> s[i] == a[i] + b[i]
    ensures Sum(s) == Sum(a) + Sum(b)
    decreases |s|
  {
    if s != [] {
      var n := |s| - 1;
      SumAdd(a[..n], b[..n], s[..n]);
    }
  }

  /** Dividing every element by `c` divides the sum by `c`. */
  lemma {:induction false} SumScale(a: seq<real>, s: seq<real>, c: real)
    requires c != 0.0 && |a| == |s|
    requires forall i :: 0 <= i < |s| ==> s[i] == a[i] / c
    ensures Sum(s) == Sum(a) / c
    decreases |s|
  {
    if s != [] {
      var n := |s| - 1;
      SumScale(a[..n], s[..n], c);
    }
  }

  /** A mean lies between any lower and upper bound of the elements. */
  lemma {:induction false} SumBounds(s: seq<real>, lo: real, hi: real)
    requires forall i :: 0 <= i < |s| ==> lo <= s[i] <= hi
    ensures (|s| as real) * lo <= Sum(s) <= (|s| as real) * hi
    decreases |s|
  {
    if s != [] {
      SumBounds(s[..|s| - 1], lo, hi);
    }
  }

  lemma MeanBounds(s: seq<real>, lo: real, hi: real)
    requires |s| > 0
    requires forall i :: 0 <= i < |s| ==> lo <= s[i] <= hi
    ensures lo <= Mean(s) <= hi
  {
    SumBounds(s, lo, hi);
    var n := |s| as real;
    assert Mean(s) * n == Sum(s);
  }

  /** The mean of equal values is that value. */
  lemma MeanConstant(s: seq<real>, c: real)
    requires |s| > 0 && forall i :: 0 <= i < |s| ==> s[i] == c
    ensures Mean(s) == c
  {
    SumConstant(s, c);
  }

  // ---- Depth averaging ----

  /** `np.mean(v[z:z+n,:], axis=0)`: each land point averaged over layers `z .. z+n-1`. */
  function DepthMean(v: seq<seq<real>>, width: nat, z: nat, n: nat): (r: seq<real>)
    requires n > 0 && z + n <= |v| && Rectangular(v, width)
    ensures |r| == width
  {
    ColumnMeans(v[z..z + n], width)
  }

  /** Entry `j` of the depth mean is the mean of layers `z .. z+n-1` at land point `j`. */
  lemma DepthMeanAt(v: seq<seq<real>>, width: nat, z: nat, n: nat, j: nat)
    requires n > 0 && z + n <= |v| && Rectangular(v, width) && j < width
    ensures DepthMean(v, width, z, n)[j] == Sum(seq(n, k requires 0 <= k < n => v[z + k][j])) / (n as real)
  {
    assert Column(v[z..z + n], j) == seq(n, k requires 0 <= k < n => v[z + k][j]);
  }

  /** Averaging a single layer returns that layer unchanged. */
  lemma DepthMeanSingleLayer(v: seq<seq<real>>, width: nat, z: nat)
    requires z < |v| && Rectangular(v, width)
    ensures DepthMean(v, width, z, 1) == v[z]
  {
    forall j | 0 <= j < width ensures DepthMean(v, width, z, 1)[j] == v[z][j] {
      var c := Column(v[z..z + 1], j);
      assert c == [v[z][j]];
      assert Sum(c) == Sum([]) + v[z][j];
    }
  }

  /** Averaging identical rows returns that row. */
  lemma ColumnMeansOfIdenticalRows(m: seq<seq<real>>, width: nat, row: seq<real>)
    requires |m| > 0 && Rectangular(m, width)
    requires forall i :: 0 <= i < |m| ==> m[i] == row
    ensures ColumnMeans(m, width) == row
  {
    assert |row| == width by { assert m[0] == row; }
    forall j | 0 <= j < width ensures ColumnMeans(m, width)[j] == row[j] {
      MeanConstant(Column(m, j), row[j]);
    }
  }

  /** Each entry of the mean over years lies within any bounds of its column:
      `mean_data[j]` is between the smallest and the largest yearly value at `j`. */
  lemma ColumnMeansBounds(m: seq<seq<real>>, width: nat, j: nat, lo: real, hi: real)
    requires |m| > 0 && Rectangular(m, width) && j < width
    requires forall i :: 0 <= i < |m| ==> lo <= m[i][j] <= hi
    ensures lo <= ColumnMeans(m, width)[j] <= hi
  {
    MeanBounds(Column(m, j), lo, hi);
  }

  // ---- Growth rate ----

  /** Consecutive differences of a sequence. */
  function Diffs(c: seq<real>): (d: seq<real>)
    requires |c| > 0
    ensures |d| == |c| - 1
  {
    seq(|c| - 1, i requires 0 <= i < |c| - 1 => c[i + 1] - c[i])
  }

  /** The consecutive differences add up to last minus first. */
  lemma {:induction false} DiffsTelescope(c: seq<real>)
    requires |c| > 0
    ensures Sum(Diffs(c)) == c[|c| - 1] - c[0]
    decreases |c|
  {
    if |c| > 1 {
      var p := c[..|c| - 1];
      DiffsTelescope(p);
      assert Diffs(c)[..|c| - 2] == Diffs(p);
    }
  }

  /** The mean year-to-year change is the total change divided by the number of steps. */
  lemma MeanGrowthTelescopes(m: seq<seq<real>>, width: nat, j: nat)
    requires |m| >= 2 && Rectangular(m, width) && j < width
    ensures MeanGrowth(m, width)[j] == (m[|m| - 1][j] - m[0][j]) / ((|m| - 1) as real)
  {
    var d := RowDiffs(m, width);
    assert Column(d, j) == Diffs(Column(m, j));
    DiffsTelescope(Column(m, j));
  }

  /** Over two years the mean change is the single change. */
  lemma MeanGrowthTwoYears(m: seq<seq<real>>, width: nat)
    requires |m| == 2 && Rectangular(m, width)
    ensures forall j :: 0 <= j < width ==> MeanGrowth(m, width)[j] == m[1][j] - m[0][j]
  {
    forall j | 0 <= j < width ensures MeanGrowth(m, width)[j] == m[1][j] - m[0][j] {
      MeanGrowthTelescopes(m, width, j);
    }
  }

  // ---- The time series and the map agree on the grand mean ----

  function RowSums(m: seq<seq<real>>): (r: seq<real>)
    ensures |r| == |m|
  {
    seq(|m|, i requires 0 <= i < |m| => Sum(m[i]))
  }

  function ColumnSums(m: seq<seq<real>>, width: nat): (r: seq<real>)
    requires Rectangular(m, width)
    ensures |r| == width
  {
    seq(width, j requires 0 <= j < width => Sum(Column(m, j)))
  }

  /** Summing row by row or column by column gives the same total. */
  lemma {:induction false} SumByRowsOrColumns(m: seq<seq<real>>, width: nat)
    requires Rectangular(m, width)
    ensures Sum(RowSums(m)) == Sum(ColumnSums(m, width))
    decreases |m|
  {
    if m == [] {
      SumConstant(ColumnSums(m, width), 0.0);
    } else {
      var n := |m| - 1;
      var p := m[..n];
      SumByRowsOrColumns(p, width);
      assert RowSums(m)[..n] == RowSums(p);
      forall j | 0 <= j < width
        ensures ColumnSums(m, width)[j] == ColumnSums(p, width)[j] + m[n][j]
      {
        assert Column(m, j)[..n] == Column(p, j);
      }
      SumAdd(ColumnSums(p, width), m[n], ColumnSums(m, width));
    }
  }

  lemma DivideTwice(t: real, x: real, y: real)
    requires x > 0.0 && y > 0.0
    ensures (t / x) / y == (t / y) / x
  {
    assert (t / x) / y == t / (x * y);
    assert (t / y) / x == t / (y * x);
  }

  /** The mean of the yearly spatial means equals the mean of the temporal-mean
      map: both are the mean of every entry. */
  lemma GrandMean(m: seq<seq<real>>, width: nat)
    requires |m| > 0 && width > 0 && Rectangular(m, width)
    ensures Mean(RowMeans(m, width)) == Mean(ColumnMeans(m, width))
  {
    var n := |m| as real;
    var w := width as real;
    var total := Sum(RowSums(m));
    SumByRowsOrColumns(m, width);
    SumScale(RowSums(m), RowMeans(m, width), w);
    SumScale(ColumnSums(m, width), ColumnMeans(m, width), n);
    var a := Sum(RowMeans(m, width));
    var b := Sum(ColumnMeans(m, width));
    assert a == total / w;
    assert b == total / n;
    DivideTwice(total, w, n);
  }
}
