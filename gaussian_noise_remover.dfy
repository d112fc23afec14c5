/** The Gaussian filter, as far as its loop goes: the kernel, the
    floating-point weighted sum of a window and its conversion to 8 bits are
    one parameter here; what the model keeps is the shared window loop and
    the `min(..., 255)` applied to every converted sum. */
module GaussianNoiseRemover {
  import opened NoiseRemover

  /** `min(v, 255)`: caps a value at the largest 8-bit sample and leaves
      every smaller value alone. */
  function CapAt255(v: int): (r: int)
    ensures r <= 255
    ensures r <= v
    ensures r == v || r == 255
  {
    if v <= 255 then v else 255
  }

  /** `GaussianNoiseRemover.remove_noise`: pads the grid and writes, for
      every cell, the capped, converted weighted sum of its 3x3 window.
      `convertedSum` stands for `np.uint8((coeffs * window).sum())` with the
      kernel of `gaussian_coeffs`. */
  method RemoveNoise(arr: array2<int>, convertedSum: seq<int> -> int) returns (out: array2<int>)
    requires arr.Length0 >= 1 && arr.Length1 >= 1
    ensures out.Length0 == arr.Length0 && out.Length1 == arr.Length1
    ensures fresh(out)
    ensures forall i, j :: 0 <= i < out.Length0 && 0 <= j < out.Length1 ==>
              out[i, j] == CapAt255(convertedSum(Neighbourhood(arr, i, j)))
    // a conversion that already yields 8-bit samples makes the cap a no-op
    ensures (forall w :: 0 <= convertedSum(w) <= 255) ==>
              IsImage(out) &&
              forall i, j :: 0 <= i < out.Length0 && 0 <= j < out.Length1 ==>
                out[i, j] == convertedSum(Neighbourhood(arr, i, j))
  {
    out := SlideWindow(arr, w => CapAt255(convertedSum(w)));
  }
}
