/** The masked gather `np.ma.masked_array(land[grid_index], mask=grid_index.mask)`:
    a one-dimensional array over land points is spread onto the two-dimensional
    grid through the integer index array `grid_index`, and the index's own mask
    becomes the mask of the result. */
module Remap {
  import Python

  /** A two-dimensional masked array: values and a mask of the same shape. */
  datatype Masked<T> = Masked(data: seq<seq<T>>, mask: seq<seq<bool>>)

  /** Values and mask have the same shape, row by row. */
  predicate WellFormed<T>(g: Masked<T>) {
    |g.data| == |g.mask| &&
    forall r :: 0 <= r < |g.data| ==> |g.data[r]| == |g.mask[r]|
  }

  /** Two masked arrays have the same shape. */
  predicate SameShape<T, U>(a: Masked<T>, b: Masked<U>) {
    |a.data| == |b.data| &&
    forall r :: 0 <= r < |a.data| ==> |a.data[r]| == |b.data[r]|
  }

  /** Every stored index, masked or not, is a valid Python index into an array of length `n`. */
  predicate InRange(n: nat, index: seq<seq<int>>) {
    forall r, c :: 0 <= r < |index| && 0 <= c < |index[r]| ==> Python.ValidIndex(n, index[r][c])
  }

  /** Fancy indexing reads the index's underlying values, including those under the mask;
      any out-of-range value raises IndexError, negative values count from the end. */
  function Gather<T>(land: seq<T>, grid: Masked<int>): (res: Python.Result<Masked<T>>)
    requires WellFormed(grid)
    ensures res.Ok? <==> InRange(|land|, grid.data)
    ensures res.Ok? ==> res.value.mask == grid.mask && SameShape(res.value, grid) && WellFormed(res.value)
  {
    if InRange(|land|, grid.data) then
      Python.Ok(Masked(
        seq(|grid.data|, r requires 0 <= r < |grid.data| =>
          seq(|grid.data[r]|, c requires 0 <= c < |grid.data[r]| =>
            land[Python.Position(|land|, grid.data[r][c])])),
        grid.mask))
    else
      Python.Err(Python.IndexError)
  }

  /** Each cell of the result holds the land value its index selects, as Python indexing defines it. */
  lemma GatherCell<T>(land: seq<T>, grid: Masked<int>, r: nat, c: nat)
    requires WellFormed(grid) && InRange(|land|, grid.data)
    requires r < |grid.data| && c < |grid.data[r]|
    ensures Python.Index(land, grid.data[r][c]) == Python.Ok(Gather(land, grid).value.data[r][c])
  {
  }

  /** An unmasked cell with a non-negative index holds `land[index]`. */
  lemma GatherUnmasked<T>(land: seq<T>, grid: Masked<int>, r: nat, c: nat)
    requires WellFormed(grid) && Gather(land, grid).Ok?
    requires r < |grid.data| && c < |grid.data[r]| && !grid.mask[r][c] && grid.data[r][c] >= 0
    ensures Gather(land, grid).value.data[r][c] == land[grid.data[r][c]]
  {
  }

  /** The two maps are gathered through the same index: for land arrays of the same
      length the gathers succeed or fail together, and on success share the mask and shape. */
  lemma GatherSharedMask<T>(a: seq<T>, b: seq<T>, grid: Masked<int>)
    requires WellFormed(grid) && |a| == |b|
    ensures Gather(a, grid).Ok? <==> Gather(b, grid).Ok?
    ensures Gather(a, grid).Ok? ==>
      Gather(a, grid).value.mask == Gather(b, grid).value.mask &&
      SameShape(Gather(a, grid).value, Gather(b, grid).value)
  {
  }

  /** A single index outside `-len(land) .. len(land)-1` makes the whole gather fail,
      even when that cell is masked. */
  lemma GatherOutOfRange<T>(land: seq<T>, grid: Masked<int>, r: nat, c: nat)
    requires WellFormed(grid) && r < |grid.data| && c < |grid.data[r]|
    requires !Python.ValidIndex(|land|, grid.data[r][c])
    ensures Gather(land, grid) == Python.Err(Python.IndexError)
  {
  }

  /** Gathering depends on the land values only through the cells the index selects:
      land arrays agreeing on every selected position give the same map. */
  lemma GatherDependsOnSelected<T>(a: seq<T>, b: seq<T>, grid: Masked<int>)
    requires WellFormed(grid) && |a| == |b| && InRange(|a|, grid.data)
    requires forall r, c :: 0 <= r < |grid.data| && 0 <= c < |grid.data[r]| ==>
      a[Python.Position(|a|, grid.data[r][c])] == b[Python.Position(|b|, grid.data[r][c])]
    ensures Gather(a, grid) == Gather(b, grid)
  {
    var ga := Gather(a, grid).value;
    var gb := Gather(b, grid).value;
    forall r | 0 <= r < |grid.data| ensures ga.data[r] == gb.data[r] {
      assert |ga.data[r]| == |gb.data[r]|;
      assert forall c :: 0 <= c < |ga.data[r]| ==> ga.data[r][c] == gb.data[r][c];
    }
    assert ga.data == gb.data;
  }

  /** Land values [10, 20, 30] through the index [[0, 1], [2, -1]] with the last cell masked. */
  lemma GatherExample()
    ensures Gather([10, 20, 30], Masked([[0, 1], [2, -1]], [[false, false], [false, true]]))
         == Python.Ok(Masked([[10, 20], [30, 30]], [[false, false], [false, true]]))
  {
    var grid := Masked([[0, 1], [2, -1]], [[false, false], [false, true]]);
    var g := Gather([10, 20, 30], grid).value;
    assert g.data[0] == [10, 20];
    assert g.data[1] == [30, 30];
    assert g == Masked([[10, 20], [30, 30]], grid.mask);
  }
}
