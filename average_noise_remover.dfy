/** The mean (box) filter: every output cell is the average of its 3x3
    window, truncated to an integer as storing it into an 8-bit grid does.
    The nine 1/9 weights are taken as exact: what is averaged is the window
    sum, and the truncation is integer division. */
module AverageNoiseRemover {
  import opened NoiseRemover

  function Sum(s: seq<int>): int
  {
    if s == [] then 0 else s[0] + Sum(s[1..])
  }

  /** A sum of values each between lo and hi lies between |s| lo and |s| hi. */
  lemma {:induction false} SumBounds(s: seq<int>, lo: int, hi: int)
    requires forall k :: 0 <= k < |s| ==> lo <= s[k] <= hi
    ensures |s| * lo <= Sum(s) <= |s| * hi
  {
    if s != [] {
      SumBounds(s[1..], lo, hi);
      assert |s| * lo == (|s| - 1) * lo + lo;
      assert |s| * hi == (|s| - 1) * hi + hi;
    }
  }

  /** The box average of a window of 8-bit samples: the largest integer
      whose ninefold does not exceed the window sum, itself an 8-bit
      sample. */
  function Mean(window: seq<int>): (r: int)
    requires |window| == 9 && AreSamples(window)
    ensures 9 * r <= Sum(window) < 9 * r + 9
    ensures 0 <= r <= 255
  {
    SumBounds(window, 0, 255);
    Sum(window) / 9
  }

  /** The average lies within any bounds the window's values lie within. */
  lemma MeanWithinBounds(window: seq<int>, lo: int, hi: int)
    requires |window| == 9 && AreSamples(window)
    requires forall k :: 0 <= k < 9 ==> lo <= window[k] <= hi
    ensures lo <= Mean(window) <= hi
  {
    SumBounds(window, lo, hi);
  }

  /** In particular it lies between the window's smallest and largest
      value: some window value is at most it and some is at least it. */
  lemma MeanBetweenExtremes(window: seq<int>)
    requires |window| == 9 && AreSamples(window)
    ensures exists k :: 0 <= k < 9 && window[k] <= Mean(window)
    ensures exists k :: 0 <= k < 9 && Mean(window) <= window[k]
  {
    var m := Mean(window);
    if forall k :: 0 <= k < 9 ==> m < window[k] {
      MeanWithinBounds(window, m + 1, 255);
    }
    if forall k :: 0 <= k < 9 ==> window[k] < m {
      MeanWithinBounds(window, 0, m - 1);
    }
  }

  /** A window of one repeated sample averages to that sample. */
  lemma MeanOfUniform(window: seq<int>, c: int)
    requires |window| == 9 && AreSamples(window)
    requires forall k :: 0 <= k < 9 ==> window[k] == c
    ensures Mean(window) == c
  {
    MeanWithinBounds(window, c, c);
  }

  /** What the mean filter's cell equations imply for the whole output: it
      holds 8-bit samples, and it is the input itself when the input is
      uniform. */
  lemma MeanFilterKeepsImage(arr: array2<int>, out: array2<int>)
    requires arr.Length0 >= 1 && arr.Length1 >= 1 && IsImage(arr)
    requires out.Length0 == arr.Length0 && out.Length1 == arr.Length1
    requires forall i, j :: 0 <= i < out.Length0 && 0 <= j < out.Length1 ==>
               out[i, j] == Mean(Neighbourhood(arr, i, j))
    ensures IsImage(out)
    ensures IsUniform(arr) ==> forall i, j :: 0 <= i < out.Length0 && 0 <= j < out.Length1 ==>
              out[i, j] == arr[i, j]
  {
    forall i, j | 0 <= i < out.Length0 && 0 <= j < out.Length1
      ensures IsUniform(arr) ==> out[i, j] == arr[i, j]
    {
      if IsUniform(arr) {
        NeighbourhoodOfUniform(arr, i, j);
        MeanOfUniform(Neighbourhood(arr, i, j), arr[0, 0]);
      }
    }
  }

  /** `AverageNoiseRemover.remove_noise`: pads the grid and writes, for
      every cell, the truncated average of its 3x3 window of the padded
      grid. */
  method RemoveNoise(arr: array2<int>) returns (out: array2<int>)
    requires arr.Length0 >= 1 && arr.Length1 >= 1
    requires IsImage(arr)
    ensures out.Length0 == arr.Length0 && out.Length1 == arr.Length1
    ensures fresh(out)
    ensures forall i, j :: 0 <= i < out.Length0 && 0 <= j < out.Length1 ==>
              out[i, j] == Mean(Neighbourhood(arr, i, j))
    ensures IsImage(out)
    ensures IsUniform(arr) ==> forall i, j :: 0 <= i < out.Length0 && 0 <= j < out.Length1 ==>
              out[i, j] == arr[i, j]
  {
    out := SlideWindow(arr, Mean);
    MeanFilterKeepsImage(arr, out);
  }
}
