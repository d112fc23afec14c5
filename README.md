# Noise remover, modelled in Dafny

This project models the filtering engine of a small grayscale noise-removal
tool (`noise_removing/noise_remover.py`). A grid of 8-bit samples is
padded by one cell on every side, with each border cell copying the nearest
edge cell. A 3x3 window then slides over the padded grid, and a reducer
turns each window into one output cell, so the output has the input's
shape. The four Python classes are four modules:

- `NoiseRemover` (`noise_remover.dfy`): edge-replicate padding
  (`AddPadding`), the identity filter (`RemoveNoise`), and the windows. The
  file also holds the sliding-window loop that the three filters share.
- `AverageNoiseRemover` (`average_noise_remover.dfy`): the box average.
- `MedianNoiseRemover` (`median_noise_remover.dfy`): the median of nine.
- `GaussianNoiseRemover` (`gaussian_noise_remover.dfy`): the loop and the
  `min(..., 255)` cap. The kernel is a parameter.

A grid is an `array2<int>` indexed `[row, column]`, as the numpy array is.
`IsImage` says that every sample lies in 0..255, which is the array's
`uint8` dtype. `PaddedAt(arr, p, q)` is the closed form of the padding: it
is `arr[Clamp(p - 1, W), Clamp(q - 1, H)]`, where `Clamp` picks the
nearest valid index. `Neighbourhood(arr, i, j)` is the window of output
cell (i, j): rows i..i+2 and columns j..j+2 of that padded grid, read row
by row, as `flatten()` reads them.

Python's three `remove_noise` loops differ only in their reducer. Here one
method, `ReduceWindows`, holds the nested loops, and the reducer is a
parameter. Each filter's `RemoveNoise` passes its own reducer through
`SlideWindow`, which pads the grid first. Mean and median are plain
functions on a 9-element `seq<int>`.

The grid must be non-empty (W >= 1, H >= 1). `add_padding` reads
`arr[0, ...]` and `arr[old_w - 1, ...]` without checking, so an empty grid
makes it fail with an index error. The code validates nothing, so this is
a precondition. The code has no error path for empty or ragged grids, and
the model follows the code.

## Model

| member | source | states |
|---|---|---|
| `NoiseRemover.Clamp` | noise_removing/noise_remover.py:17-30 | the border index is the valid index nearest to the requested one |
| `NoiseRemover.AddPadding` | noise_removing/noise_remover.py:12-31 | a new (W+2)x(H+2) grid whose every cell (p, q) equals the input cell nearest to (p-1, q-1); the input is not modified |
| `NoiseRemover.ReplicateRows` | noise_removing/noise_remover.py:21-23 | the top row copies input row 0 and the bottom row copies input row W-1, column by column; every other cell, the four corners included, is left as it was |
| `NoiseRemover.ReplicateColumns` | noise_removing/noise_remover.py:24-26 | the left column copies input column 0 and the right column copies input column H-1, row by row; every other cell, the four corners included, is left as it was |
| `NoiseRemover.PaddedCells` | noise_removing/noise_remover.py:20-30 | interior, border rows, border columns and four corners filled as the source fills them give the clamp closed form in every cell, also when W = 1 or H = 1 |
| `NoiseRemover.PaddingParts` | noise_removing/noise_remover.py:20-30 | conversely, the closed form gives the interior, both border rows, both border columns and the four corners, in the source's own coordinates |
| `NoiseRemover.PaddingOfSingleCell` | noise_removing/noise_remover.py:17-30 | a 1x1 grid pads to nine copies of its one cell |
| `NoiseRemover.RemoveNoise` | noise_removing/noise_remover.py:33-37 | the base filter hands back the very grid it was given |
| `NoiseRemover.Slice3x3` | noise_removing/noise_remover.py:46 | the slice `g[i:i+3, j:j+3]` flattened has 9 values, and value k is cell (i + k/3, j + k%3) |
| `NoiseRemover.Neighbourhood` | noise_removing/noise_remover.py:44-46 | the window of an output cell has nine values, and they are 8-bit samples when the grid's are |
| `NoiseRemover.SliceIsNeighbourhood` | noise_removing/noise_remover.py:42-46 | the slice a driver takes from the padded grid at (i, j) is the window of output cell (i, j) |
| `NoiseRemover.NeighbourhoodIsLocal` | noise_removing/noise_remover.py:44-46 | every window value is an input cell at most one row and one column away from the output cell |
| `NoiseRemover.NeighbourhoodDeterminedLocally` | noise_removing/noise_remover.py:44-46 | two grids of one shape that agree around (i, j) give cell (i, j) the same window, so each output cell depends only on its own window |
| `NoiseRemover.NeighbourhoodOfUniform` | noise_removing/noise_remover.py:17-30 | on a uniform grid every window is constant |
| `NoiseRemover.SlideWindow` | noise_removing/noise_remover.py:42-47 | pad, then reduce: a new grid of the input's shape whose cell (i, j) is the reducer applied to the window of (i, j); the input is not modified |
| `NoiseRemover.ReduceWindows` | noise_removing/noise_remover.py:43-46 | the nested loops: a new grid two rows and two columns smaller than the padded one, whose cell (i, j) is the reducer of the padded slice at (i, j) |
| `MedianNoiseRemover.Sort` | noise_removing/noise_remover.py:63 | the sorted window is ascending and a permutation of the window |
| `MedianNoiseRemover.SortedUnique` | noise_removing/noise_remover.py:63 | two ascending sequences with the same values are equal, so any sort gives the same order |
| `MedianNoiseRemover.Median` | noise_removing/noise_remover.py:58-64 | the median is one of the nine window values |
| `MedianNoiseRemover.MedianIsMiddleOfSortedOrder` | noise_removing/noise_remover.py:63-64 | the median is the value at index 9 / 2 = 4 of every ascending ordering of the window |
| `MedianNoiseRemover.CountsOfSort` | noise_removing/noise_remover.py:63 | sorting changes neither how many values are at most y nor how many are at least y |
| `MedianNoiseRemover.MedianRank` | noise_removing/noise_remover.py:58-64 | at least five window values are at most the median, and at least five are at least it |
| `MedianNoiseRemover.MedianFromCounts` | noise_removing/noise_remover.py:58-64 | a value with at least five window values at most it and at least five at least it is the median |
| `MedianNoiseRemover.MedianCharacterized` | noise_removing/noise_remover.py:58-64 | y is the median if and only if at least five window values lie on each side of it |
| `MedianNoiseRemover.MedianOfUniform` | noise_removing/noise_remover.py:58-64 | a window of one repeated value has that value as its median |
| `MedianNoiseRemover.MedianExample` | noise_removing/noise_remover.py:58-64 | the median of 5, 1, 9, 3, 7, 2, 8, 4, 6 is 5 |
| `MedianNoiseRemover.MedianFilterKeepsImage` | noise_removing/noise_remover.py:50-56 | median output holds 8-bit samples when the input does, and a uniform input comes out unchanged |
| `MedianNoiseRemover.RemoveNoise` | noise_removing/noise_remover.py:50-56 | a new grid of the input's shape whose cell (i, j) is the median of its window; 8-bit in, 8-bit out; uniform input unchanged; input not modified |
| `AverageNoiseRemover.Mean` | noise_removing/noise_remover.py:41-46 | the average of nine 8-bit samples is the largest integer whose ninefold is at most the window sum (a truncated sum / 9), and it is an 8-bit sample |
| `AverageNoiseRemover.MeanWithinBounds` | noise_removing/noise_remover.py:41-46 | the average lies within any bounds that all window values lie within |
| `AverageNoiseRemover.MeanBetweenExtremes` | noise_removing/noise_remover.py:41-46 | some window value is at most the average and some is at least it, so it lies between the window's minimum and maximum |
| `AverageNoiseRemover.MeanOfUniform` | noise_removing/noise_remover.py:41-46 | nine copies of k average to k |
| `AverageNoiseRemover.MeanFilterKeepsImage` | noise_removing/noise_remover.py:40-47 | mean output holds 8-bit samples, and a uniform input comes out unchanged |
| `AverageNoiseRemover.RemoveNoise` | noise_removing/noise_remover.py:40-47 | a new grid of the input's shape whose cell (i, j) is the truncated average of its window; 8-bit output; uniform input unchanged; input not modified |
| `GaussianNoiseRemover.CapAt255` | noise_removing/noise_remover.py:74 | `min(v, 255)` is at most 255, at most v, and is v or 255 |
| `GaussianNoiseRemover.RemoveNoise` | noise_removing/noise_remover.py:67-75 | a new grid of the input's shape whose cell (i, j) is the capped converted sum of its window; when the conversion already gives 8-bit values, the cap changes nothing |

## Left out

- `main` (command-line arguments, opening and saving images, progress messages) is I/O and is not modelled.
- `gaussian_coeffs` is not modelled. It calls a foreign library (`signal.gaussian`) and works in floating point, so its weights cannot be stated exactly.
- GaussianNoiseRemover.RemoveNoise: the weighted float sum and its `np.uint8` conversion are the parameter `convertedSum`, not computed. Nothing is said about how that conversion narrows or wraps out-of-range values. The contract only notes that `min(..., 255)` does nothing once the value is already 8-bit.
- The `min(..., 255)` cap of the Gaussian driver is dead code in the source, because `np.uint8(res)` is always in 0..255 and `min(..., 255)` never changes it. The cap matters in the model only because `convertedSum` is unconstrained. The case that actually happens is the conditional ensures of `GaussianNoiseRemover.RemoveNoise`: when every converted sum is in 0..255, the output is those sums and is 8-bit.
- AverageNoiseRemover.Mean: the nine `1.0/9.0` weights are taken as exact, so the mean is the integer sum divided by 9 and truncated. In floating point, nine copies of k/9 can add up to just below k and then truncate to k - 1. The model idealises that error away.
- AverageNoiseRemover.RemoveNoise: requires `IsImage` (the `uint8` dtype) of its input. With non-negative sums, Dafny's division truncates just as the `uint8` store does.
- NoiseRemover.AddPadding: the cell-by-cell copy `padded[1:old_w+1, 1:old_h+1] = arr` is an aggregate `forall` assignment. The two border loops are in `ReplicateRows` and `ReplicateColumns`.
- The three Python drivers each have their own copy of the nested loops. The model has the shared loop once (`ReduceWindows`), called with each filter's reducer.
- Empty and ragged grids: the code does not reject them. The model requires a non-empty grid, and an `array2` cannot be ragged.
