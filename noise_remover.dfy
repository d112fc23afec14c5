/** The base noise remover: edge-replicate padding of a grayscale grid, the
    3x3 window the filters slide over the padded grid, and the identity
    filter. A grid is an `array2<int>` indexed [row, column]; its samples are
    8-bit unsigned values. */
module NoiseRemover {

  /** Every sample of the grid is an 8-bit unsigned value. */
  predicate IsImage(arr: array2<int>)
    reads arr
  {
    forall i, j :: 0 <= i < arr.Length0 && 0 <= j < arr.Length1 ==> 0 <= arr[i, j] <= 255
  }

  /** Every value of a window is an 8-bit unsigned value. */
  predicate AreSamples(w: seq<int>)
  {
    forall k :: 0 <= k < |w| ==> 0 <= w[k] <= 255
  }

  /** Every cell of a non-empty grid holds the value of its first cell. */
  predicate IsUniform(arr: array2<int>)
    reads arr
    requires arr.Length0 >= 1 && arr.Length1 >= 1
  {
    forall i, j :: 0 <= i < arr.Length0 && 0 <= j < arr.Length1 ==> arr[i, j] == arr[0, 0]
  }

  function Dist(x: int, y: int): nat
  {
    if x <= y then y - x else x - y
  }

  /** The index in 0..n-1 nearest to x: where an edge-replicated border
      reads its value from. */
  function Clamp(x: int, n: int): (c: int)
    requires n >= 1
    ensures 0 <= c < n
    ensures forall k :: 0 <= k < n ==> Dist(x, c) <= Dist(x, k)
  {
    if x < 0 then 0 else if x >= n then n - 1 else x
  }

  /** The value at padded coordinates (p, q) of the edge-replicated grid:
      padded row p shows original row p - 1, clamped into the grid. */
  function PaddedAt(arr: array2<int>, p: int, q: int): int
    reads arr
    requires arr.Length0 >= 1 && arr.Length1 >= 1
  {
    arr[Clamp(p - 1, arr.Length0), Clamp(q - 1, arr.Length1)]
  }

  /** `padded` is the edge-replicate padding of `arr`, cell for cell. */
  ghost predicate IsPaddingOf(padded: array2<int>, arr: array2<int>)
    reads padded, arr
    requires arr.Length0 >= 1 && arr.Length1 >= 1
  {
    padded.Length0 == arr.Length0 + 2 && padded.Length1 == arr.Length1 + 2 &&
    forall p, q :: 0 <= p < padded.Length0 && 0 <= q < padded.Length1 ==>
      padded[p, q] == PaddedAt(arr, p, q)
  }

  /** Allocates a (W+2)x(H+2) grid, copies `arr` into its interior and fills
      the border rows, the border columns and the four corners from the
      nearest edge cell of `arr`. */
  method AddPadding(arr: array2<int>) returns (padded: array2<int>)
    requires arr.Length0 >= 1 && arr.Length1 >= 1
    ensures padded.Length0 == arr.Length0 + 2 && padded.Length1 == arr.Length1 + 2
    ensures fresh(padded)
    // every cell is the nearest input cell
    ensures IsPaddingOf(padded, arr)
  {
    var oldW, oldH := arr.Length0, arr.Length1;
    padded := new int[oldW + 2, oldH + 2];
    forall i, j | 0 <= i < oldW && 0 <= j < oldH {
      padded[i + 1, j + 1] := arr[i, j];
    }
    ReplicateRows(arr, padded);
    ReplicateColumns(arr, padded);
    padded[0, 0] := arr[0, 0];
    padded[0, oldH + 1] := arr[0, oldH - 1];
    padded[oldW + 1, 0] := arr[oldW - 1, 0];
    padded[oldW + 1, oldH + 1] := arr[oldW - 1, oldH - 1];
    PaddedCells(arr, padded);
  }

  /** AddPadding's first loop: the top border row replicates the first
      input row and the bottom border row the last one; every other cell,
      the four corners included, is left as it was. */
  method ReplicateRows(arr: array2<int>, padded: array2<int>)
    requires arr.Length0 >= 1 && arr.Length1 >= 1
    requires padded.Length0 == arr.Length0 + 2 && padded.Length1 == arr.Length1 + 2
    modifies padded
    ensures forall q :: 1 <= q <= arr.Length1 ==> padded[0, q] == arr[0, q - 1]
    // the bottom row is named through the bound variable p: a trigger cannot
    // hold the arithmetic of `padded[arr.Length0 + 1, q]`
    ensures forall p, q :: p == arr.Length0 + 1 && 1 <= q <= arr.Length1 ==> padded[p, q] == arr[p - 2, q - 1]
    // every other cell, the four corners included, is left as it was
    ensures forall p, q :: 0 <= p < padded.Length0 && 0 <= q < padded.Length1 &&
                           !((p == 0 || p == arr.Length0 + 1) && 1 <= q <= arr.Length1) ==>
                             padded[p, q] == old(padded[p, q])
  {
    var oldW, oldH := arr.Length0, arr.Length1;
    var bottom := oldW + 1;
    for i := 0 to oldH
      invariant forall q :: 1 <= q <= i ==> padded[0, q] == arr[0, q - 1]
      invariant forall q :: 1 <= q <= i ==> padded[bottom, q] == arr[oldW - 1, q - 1]
      invariant forall p, q :: 0 <= p < padded.Length0 && 0 <= q < padded.Length1 &&
                               !((p == 0 || p == bottom) && 1 <= q <= i) ==>
                                 padded[p, q] == old(padded[p, q])
    {
      padded[0, i + 1] := arr[0, i];
      padded[oldW + 1, i + 1] := arr[oldW - 1, i];
    }
  }

  /** AddPadding's second loop: the left border column replicates the first
      input column and the right border column the last one; every other
      cell, the four corners included, is left as it was. */
  method ReplicateColumns(arr: array2<int>, padded: array2<int>)
    requires arr.Length0 >= 1 && arr.Length1 >= 1
    requires padded.Length0 == arr.Length0 + 2 && padded.Length1 == arr.Length1 + 2
    modifies padded
    ensures forall p :: 1 <= p <= arr.Length0 ==> padded[p, 0] == arr[p - 1, 0]
    // the right column is named through the bound variable q, as in
    // ReplicateRows
    ensures forall p, q :: 1 <= p <= arr.Length0 && q == arr.Length1 + 1 ==> padded[p, q] == arr[p - 1, q - 2]
    // every other cell, the four corners included, is left as it was
    ensures forall p, q :: 0 <= p < padded.Length0 && 0 <= q < padded.Length1 &&
                           !(1 <= p <= arr.Length0 && (q == 0 || q == arr.Length1 + 1)) ==>
                             padded[p, q] == old(padded[p, q])
  {
    var oldW, oldH := arr.Length0, arr.Length1;
    var right := oldH + 1;
    for i := 0 to oldW
      invariant forall p :: 1 <= p <= i ==> padded[p, 0] == arr[p - 1, 0]
      invariant forall p :: 1 <= p <= i ==> padded[p, right] == arr[p - 1, oldH - 1]
      invariant forall p, q :: 0 <= p < padded.Length0 && 0 <= q < padded.Length1 &&
                               !(1 <= p <= i && (q == 0 || q == right)) ==>
                                 padded[p, q] == old(padded[p, q])
    {
      padded[i + 1, 0] := arr[i, 0];
      padded[i + 1, oldH + 1] := arr[i, oldH - 1];
    }
  }

  /** The case analysis behind AddPadding's closed form: a grid filled as
      AddPadding fills it (interior, border rows, border columns, corners)
      holds at every (p, q) the input cell nearest to (p - 1, q - 1). */
  lemma PaddedCells(arr: array2<int>, padded: array2<int>)
    requires arr.Length0 >= 1 && arr.Length1 >= 1
    requires padded.Length0 == arr.Length0 + 2 && padded.Length1 == arr.Length1 + 2
    requires forall i, j :: 0 <= i < arr.Length0 && 0 <= j < arr.Length1 ==>
               padded[i + 1, j + 1] == arr[i, j]
    requires forall q :: 1 <= q <= arr.Length1 ==> padded[0, q] == arr[0, q - 1]
    // the bottom row and the right column are named through a bound
    // variable so that the quantifiers have triggers
    requires forall p, q :: p == arr.Length0 + 1 && 1 <= q <= arr.Length1 ==> padded[p, q] == arr[p - 2, q - 1]
    requires forall p :: 1 <= p <= arr.Length0 ==> padded[p, 0] == arr[p - 1, 0]
    requires forall p, q :: 1 <= p <= arr.Length0 && q == arr.Length1 + 1 ==> padded[p, q] == arr[p - 1, q - 2]
    requires padded[0, 0] == arr[0, 0]
    requires padded[0, arr.Length1 + 1] == arr[0, arr.Length1 - 1]
    requires padded[arr.Length0 + 1, 0] == arr[arr.Length0 - 1, 0]
    requires padded[arr.Length0 + 1, arr.Length1 + 1] == arr[arr.Length0 - 1, arr.Length1 - 1]
    ensures IsPaddingOf(padded, arr)
  {
    var w, h := arr.Length0, arr.Length1;
    forall p, q | 0 <= p < w + 2 && 0 <= q < h + 2
      ensures padded[p, q] == PaddedAt(arr, p, q)
    {
      var r := if p == 0 then 0 else if p == w + 1 then w - 1 else p - 1;
      var c := if q == 0 then 0 else if q == h + 1 then h - 1 else q - 1;
      assert Clamp(p - 1, w) == r;
      assert Clamp(q - 1, h) == c;
    }
  }

  /** Read cell by cell, the padding holds the input in its interior, the
      first and last input rows in its top and bottom rows, the first and
      last input columns in its left and right columns, and the input's
      corners in its corners; with W = 1 or H = 1 both borders replicate the
      one row or column. */
  lemma PaddingParts(padded: array2<int>, arr: array2<int>)
    requires arr.Length0 >= 1 && arr.Length1 >= 1
    requires IsPaddingOf(padded, arr)
    // the interior is the input
    ensures forall i, j :: 0 <= i < arr.Length0 && 0 <= j < arr.Length1 ==>
              padded[i + 1, j + 1] == arr[i, j]
    // the top and bottom rows replicate the first and last input rows
    ensures forall j :: 0 <= j < arr.Length1 ==>
              padded[0, j + 1] == arr[0, j] &&
              padded[arr.Length0 + 1, j + 1] == arr[arr.Length0 - 1, j]
    // the left and right columns replicate the first and last input columns
    ensures forall i :: 0 <= i < arr.Length0 ==>
              padded[i + 1, 0] == arr[i, 0] &&
              padded[i + 1, arr.Length1 + 1] == arr[i, arr.Length1 - 1]
    // the corners replicate the input's corners
    ensures padded[0, 0] == arr[0, 0]
    ensures padded[0, arr.Length1 + 1] == arr[0, arr.Length1 - 1]
    ensures padded[arr.Length0 + 1, 0] == arr[arr.Length0 - 1, 0]
    ensures padded[arr.Length0 + 1, arr.Length1 + 1] == arr[arr.Length0 - 1, arr.Length1 - 1]
  {
  }

  /** A 1x1 grid pads to a 3x3 grid of nine copies of its one cell. */
  lemma PaddingOfSingleCell(padded: array2<int>, arr: array2<int>)
    requires arr.Length0 == 1 && arr.Length1 == 1
    requires IsPaddingOf(padded, arr)
    ensures forall p, q :: 0 <= p < 3 && 0 <= q < 3 ==> padded[p, q] == arr[0, 0]
  {
  }

  /** The base filter: it does nothing and hands back the very grid it got. */
  function RemoveNoise(arr: array2<int>): (out: array2<int>)
    ensures out == arr
    ensures out.Length0 == arr.Length0 && out.Length1 == arr.Length1
  {
    arr
  }

  /** `g[i:i+3, j:j+3].flatten()`: a 3x3 block of a grid, row by row. */
  function Slice3x3(g: array2<int>, i: int, j: int): (w: seq<int>)
    reads g
    requires 0 <= i && i + 3 <= g.Length0 && 0 <= j && j + 3 <= g.Length1
    ensures |w| == 9
    ensures forall k :: 0 <= k < 9 ==> w[k] == g[i + k / 3, j + k % 3]
  {
    [g[i, j],     g[i, j + 1],     g[i, j + 2],
     g[i + 1, j], g[i + 1, j + 1], g[i + 1, j + 2],
     g[i + 2, j], g[i + 2, j + 1], g[i + 2, j + 2]]
  }

  /** The window a filter reduces into output cell (i, j): rows i..i+2 and
      columns j..j+2 of the edge-replicated grid, row by row. */
  function Neighbourhood(arr: array2<int>, i: int, j: int): (w: seq<int>)
    reads arr
    requires arr.Length0 >= 1 && arr.Length1 >= 1
    ensures |w| == 9
    ensures IsImage(arr) ==> AreSamples(w)
  {
    [PaddedAt(arr, i, j),     PaddedAt(arr, i, j + 1),     PaddedAt(arr, i, j + 2),
     PaddedAt(arr, i + 1, j), PaddedAt(arr, i + 1, j + 1), PaddedAt(arr, i + 1, j + 2),
     PaddedAt(arr, i + 2, j), PaddedAt(arr, i + 2, j + 1), PaddedAt(arr, i + 2, j + 2)]
  }

  /** What a driver slices out of the padded grid at (i, j) is the
      neighbourhood of output cell (i, j). */
  lemma SliceIsNeighbourhood(arr: array2<int>, padded: array2<int>, i: int, j: int)
    requires arr.Length0 >= 1 && arr.Length1 >= 1
    requires IsPaddingOf(padded, arr)
    requires 0 <= i < arr.Length0 && 0 <= j < arr.Length1
    ensures Slice3x3(padded, i, j) == Neighbourhood(arr, i, j)
  {
  }

  /** Every value in the window of output cell (i, j) is a cell of the input
      at most one row and one column away from (i, j). */
  lemma NeighbourhoodIsLocal(arr: array2<int>, i: int, j: int, k: int)
    requires arr.Length0 >= 1 && arr.Length1 >= 1
    requires 0 <= i < arr.Length0 && 0 <= j < arr.Length1 && 0 <= k < 9
    ensures exists r, c :: 0 <= r < arr.Length0 && 0 <= c < arr.Length1 &&
              i - 1 <= r <= i + 1 && j - 1 <= c <= j + 1 &&
              Neighbourhood(arr, i, j)[k] == arr[r, c]
  {
    var r := Clamp(i - 1 + k / 3, arr.Length0);
    var c := Clamp(j - 1 + k % 3, arr.Length1);
    assert Dist(i - 1 + k / 3, r) <= Dist(i - 1 + k / 3, i);
    assert Dist(j - 1 + k % 3, c) <= Dist(j - 1 + k % 3, j);
    assert Neighbourhood(arr, i, j)[k] == arr[r, c];
  }

  /** Output cell (i, j) depends on nothing but the input cells around it:
      two grids of the same shape that agree there have the same window. */
  lemma NeighbourhoodDeterminedLocally(a: array2<int>, b: array2<int>, i: int, j: int)
    requires a.Length0 >= 1 && a.Length1 >= 1
    requires b.Length0 == a.Length0 && b.Length1 == a.Length1
    requires 0 <= i < a.Length0 && 0 <= j < a.Length1
    requires forall r, c :: 0 <= r < a.Length0 && 0 <= c < a.Length1 &&
               i - 1 <= r <= i + 1 && j - 1 <= c <= j + 1
               ==> a[r, c] == b[r, c]
    ensures Neighbourhood(a, i, j) == Neighbourhood(b, i, j)
  {
    forall k | 0 <= k < 9 ensures Neighbourhood(a, i, j)[k] == Neighbourhood(b, i, j)[k] {
      var r := Clamp(i - 1 + k / 3, a.Length0);
      var c := Clamp(j - 1 + k % 3, a.Length1);
      assert Dist(i - 1 + k / 3, r) <= Dist(i - 1 + k / 3, i);
      assert Dist(j - 1 + k % 3, c) <= Dist(j - 1 + k % 3, j);
    }
  }

  /** On a uniform grid every window is constant. */
  lemma NeighbourhoodOfUniform(arr: array2<int>, i: int, j: int)
    requires arr.Length0 >= 1 && arr.Length1 >= 1
    requires IsUniform(arr)
    ensures forall k :: 0 <= k < 9 ==> Neighbourhood(arr, i, j)[k] == arr[0, 0]
  {
  }

  /** The loop every windowed filter shares: pads the grid, then reduces
      the 3x3 window of every cell to that cell of a new grid of the
      input's shape. The reducer is a parameter; each filter passes its own. */
  method SlideWindow(arr: array2<int>, reduce: seq<int> --> int) returns (out: array2<int>)
    requires arr.Length0 >= 1 && arr.Length1 >= 1
    requires forall i, j :: 0 <= i < arr.Length0 && 0 <= j < arr.Length1 ==>
               reduce.requires(Neighbourhood(arr, i, j))
    ensures out.Length0 == arr.Length0 && out.Length1 == arr.Length1
    ensures fresh(out)
    ensures forall i, j :: 0 <= i < out.Length0 && 0 <= j < out.Length1 ==>
              out[i, j] == reduce(Neighbourhood(arr, i, j))
  {
    var padded := AddPadding(arr);
    forall i, j | 0 <= i < arr.Length0 && 0 <= j < arr.Length1
      ensures Slice3x3(padded, i, j) == Neighbourhood(arr, i, j)
    {
      SliceIsNeighbourhood(arr, padded, i, j);
    }
    out := ReduceWindows(padded, reduce);
  }

  /** The nested loops of a filter's `remove_noise`: for every padded row i
      in 1..W and padded column j in 1..H, the slice of rows i-1..i+1 and
      columns j-1..j+1 is reduced into output cell (i - 1, j - 1). */
  method ReduceWindows(padded: array2<int>, reduce: seq<int> --> int) returns (out: array2<int>)
    requires padded.Length0 >= 3 && padded.Length1 >= 3
    requires forall i, j :: 0 <= i < padded.Length0 - 2 && 0 <= j < padded.Length1 - 2 ==>
               reduce.requires(Slice3x3(padded, i, j))
    ensures out.Length0 == padded.Length0 - 2 && out.Length1 == padded.Length1 - 2
    ensures fresh(out)
    ensures forall i, j :: 0 <= i < out.Length0 && 0 <= j < out.Length1 ==>
              out[i, j] == reduce(Slice3x3(padded, i, j))
  {
    out := new int[padded.Length0 - 2, padded.Length1 - 2];
    for i := 1 to padded.Length0 - 1
      invariant forall p, q :: 0 <= p < i - 1 && 0 <= q < out.Length1 ==>
                  out[p, q] == reduce(Slice3x3(padded, p, q))
    {
      var row := i - 1;
      for j := 1 to padded.Length1 - 1
        invariant forall p, q :: 0 <= p < row && 0 <= q < out.Length1 ==>
                    out[p, q] == reduce(Slice3x3(padded, p, q))
        invariant forall q :: 0 <= q < j - 1 ==> out[row, q] == reduce(Slice3x3(padded, row, q))
      {
        out[i - 1, j - 1] := reduce(Slice3x3(padded, i - 1, j - 1));
      }
    }
  }
}
