/** Shared helpers of the benchmark: the alpha-weighted greyscale conversion
    that feeds pHash and the DCT hash, the mean of a list of numbers, and the
    quantile read used for the result tables (src/common.js). */
module Common {
  import opened Wrappers
  import opened Numeric
  import ImageSignature

  /** One entry of a Uint8Array. */
  type Byte = x: int | 0 <= x <= 255

  // toGreyscale

  /** The weighted intensity (R+G+B)·(A/255) lies within [0, 765]. */
  lemma IntensityWithin(r: Byte, g: Byte, b: Byte, a: Byte)
    ensures 0.0 <= (r + g + b) as real * (a as real / 255.0) <= 765.0
  {
    var s := (r + g + b) as real;
    var f := a as real / 255.0;
    DivideBetween(a as real, 255.0, 0.0, 1.0);
    assert s <= 765.0;
    MulNonNegative(s, f);
    MulNonNegative(s, 1.0 - f);
    assert s - s * f == s * (1.0 - f);
  }

  /** The grey value of one pixel: round(((R+G+B)·(A/255)) / 765 · 255). */
  function PixelGrey(r: Byte, g: Byte, b: Byte, a: Byte): (grey: Byte)
    ensures (r + g + b) as real * (a as real / 255.0) * (255.0 / 765.0) - 0.5 < grey as real
    ensures grey as real <= (r + g + b) as real * (a as real / 255.0) * (255.0 / 765.0) + 0.5
  {
    var intensity := (r + g + b) as real * (a as real / 255.0);
    IntensityWithin(r, g, b, a);
    var scaled := (intensity / 765.0) * 255.0;
    assert scaled == intensity * (255.0 / 765.0);
    RoundWithin(scaled, 0, 255);
    Round(scaled)
  }

  /** A fully transparent pixel is black. */
  lemma PixelGreyTransparent(r: Byte, g: Byte, b: Byte)
    ensures PixelGrey(r, g, b, 0) == 0
  {
  }

  /** A fully opaque pixel gets the rounded plain mean of its three channels. */
  lemma PixelGreyOpaque(r: Byte, g: Byte, b: Byte)
    ensures PixelGrey(r, g, b, 255) == Round((r + g + b) as real / 3.0)
  {
    var s := (r + g + b) as real;
    assert s * (255.0 / 255.0) == s;
    assert (s / 765.0) * 255.0 == s / 3.0;
  }

  /** The grey values of an RGBA byte buffer, one per complete pixel; the
      typed array holds ⌊length/4⌋ entries. */
  function GreyscaleOf(rgba: seq<Byte>): (greys: seq<Byte>)
    ensures |greys| == |rgba| / 4
    ensures forall k :: 0 <= k < |greys| ==> 4 * k + 3 < |rgba|
  {
    seq(|rgba| / 4, k requires 0 <= k < |rgba| / 4 =>
      PixelGrey(rgba[4 * k], rgba[4 * k + 1], rgba[4 * k + 2], rgba[4 * k + 3]))
  }

  /** `toGreyscale`: walks the buffer with a byte index i (step 4) and a pixel
      index j (step 1) and writes each pixel's grey value into a fresh
      Uint8Array of length ⌊length/4⌋. A trailing partial pixel would be
      written past the end of that array, where a typed array drops writes. */
  method ToGreyscale(rgba: seq<Byte>) returns (greyscale: seq<Byte>)
    ensures greyscale == GreyscaleOf(rgba)
  {
    var out := new Byte[|rgba| / 4];
    var i, j := 0, 0;
    while i < |rgba|
      invariant i == 4 * j
      invariant j <= out.Length || i >= |rgba|
      invariant forall k :: 0 <= k < j && k < out.Length ==> out[k] == GreyscaleOf(rgba)[k]
      decreases |rgba| - i
    {
      if j < out.Length {
        out[j] := PixelGrey(rgba[i], rgba[i + 1], rgba[i + 2], rgba[i + 3]);
      }
      i, j := i + 4, j + 1;
    }
    greyscale := out[..];
  }

  /** On an opaque image with whole pixels, toGreyscale agrees with the
      signature's own greyscale (the rounded mean of R, G and B). */
  lemma GreyscaleOpaqueAgrees(rgba: seq<Byte>)
    requires |rgba| % 4 == 0
    requires forall k :: 0 <= k < |rgba| / 4 ==> rgba[4 * k + 3] == 255
    ensures GreyscaleOf(rgba) == ImageSignature.GrayscaleOf(rgba)
  {
    ImageSignature.GrayscalePixels(rgba);
    forall k | 0 <= k < |rgba| / 4
      ensures GreyscaleOf(rgba)[k] == ImageSignature.GrayscaleOf(rgba)[k]
    {
      PixelGreyOpaque(rgba[4 * k], rgba[4 * k + 1], rgba[4 * k + 2]);
    }
  }

  // average

  /** `average`: the sum over the length; an empty list gives 0/0, NaN, which
      is None here. */
  function Average(arr: seq<real>): (avg: Option<real>)
    ensures avg.None? <==> |arr| == 0
    ensures avg.Some? ==> avg.value * |arr| as real == RealSum(arr)
  {
    if |arr| == 0 then None else Some(RealSum(arr) / |arr| as real)
  }

  /** The average of values within [lo, hi] lies within [lo, hi]. */
  lemma AverageWithin(arr: seq<real>, lo: real, hi: real)
    requires |arr| > 0
    requires forall k :: 0 <= k < |arr| ==> lo <= arr[k] <= hi
    ensures lo <= Average(arr).value <= hi
  {
    RealSumBounds(arr, lo, hi);
    DivideBetween(RealSum(arr), |arr| as real, lo, hi);
  }

  /** Index of a smallest entry. */
  function ArgMin(arr: seq<real>): (m: nat)
    requires |arr| > 0
    ensures m < |arr|
    ensures forall k :: 0 <= k < |arr| ==> arr[m] <= arr[k]
  {
    if |arr| == 1 then 0
    else
      var m := ArgMin(arr[..|arr| - 1]);
      assert forall k :: 0 <= k < |arr| - 1 ==> arr[..|arr| - 1][k] == arr[k];
      if arr[|arr| - 1] < arr[m] then |arr| - 1 else m
  }

  /** Index of a largest entry. */
  function ArgMax(arr: seq<real>): (m: nat)
    requires |arr| > 0
    ensures m < |arr|
    ensures forall k :: 0 <= k < |arr| ==> arr[k] <= arr[m]
  {
    if |arr| == 1 then 0
    else
      var m := ArgMax(arr[..|arr| - 1]);
      assert forall k :: 0 <= k < |arr| - 1 ==> arr[..|arr| - 1][k] == arr[k];
      if arr[|arr| - 1] > arr[m] then |arr| - 1 else m
  }

  /** The average of a non-empty list lies between its minimum and its maximum. */
  lemma AverageBetweenExtremes(arr: seq<real>)
    requires |arr| > 0
    ensures arr[ArgMin(arr)] <= Average(arr).value <= arr[ArgMax(arr)]
  {
    AverageWithin(arr, arr[ArgMin(arr)], arr[ArgMax(arr)]);
  }

  /** The average of a constant list is that constant. */
  lemma AverageConstant(arr: seq<real>, v: real)
    requires |arr| > 0
    requires forall k :: 0 <= k < |arr| ==> arr[k] == v
    ensures Average(arr) == Some(v)
  {
    AverageWithin(arr, v, v);
  }

  // getQuantile

  /** The index `getQuantile` reads: ⌊length·q⌋. */
  function QuantileIndex(len: nat, q: real): int
  {
    (len as real * q).Floor
  }

  /** `getQuantile`: the entry at ⌊length·q⌋; an index outside the array
      reads `undefined`, which is None here. */
  function GetQuantile<T>(arr: seq<T>, q: real): (r: Option<T>)
    ensures r.Some? <==> 0 <= QuantileIndex(|arr|, q) < |arr|
    ensures r.Some? ==> r.value in arr
  {
    var idx := QuantileIndex(|arr|, q);
    if 0 <= idx < |arr| then Some(arr[idx]) else None
  }

  /** For a non-empty list and 0 <= q < 1 the index is in bounds. */
  lemma QuantileInBounds<T>(arr: seq<T>, q: real)
    requires |arr| > 0 && 0.0 <= q < 1.0
    ensures 0 <= QuantileIndex(|arr|, q) < |arr|
    ensures GetQuantile(arr, q).Some?
  {
    var n := |arr| as real;
    MulNonNegative(n, q);
    assert n * q < n by {
      assert n - n * q == n * (1.0 - q);
      MulPositive(n, 1.0 - q);
    }
  }

  /** The 0 quantile of a non-empty list is its first entry (the minimum of a
      sorted list). */
  lemma QuantileZero<T>(arr: seq<T>)
    requires |arr| > 0
    ensures GetQuantile(arr, 0.0) == Some(arr[0])
  {
    assert |arr| as real * 0.0 == 0.0;
  }

  /** A higher quantile never reads an earlier index. */
  lemma QuantileIndexMonotone(len: nat, q1: real, q2: real)
    requires q1 <= q2
    ensures QuantileIndex(len, q1) <= QuantileIndex(len, q2)
  {
    ScaleMonotone(len as real, q1, q2);
    FloorMonotone(len as real * q1, len as real * q2);
  }

  /** On a sorted list, a higher quantile never reads a smaller value. */
  lemma QuantileMonotone(arr: seq<real>, q1: real, q2: real)
    requires SortedReals(arr)
    requires |arr| > 0 && 0.0 <= q1 <= q2 < 1.0
    ensures GetQuantile(arr, q1).Some? && GetQuantile(arr, q2).Some?
    ensures GetQuantile(arr, q1).value <= GetQuantile(arr, q2).value
  {
    QuantileInBounds(arr, q1);
    QuantileInBounds(arr, q2);
    QuantileIndexMonotone(|arr|, q1, q2);
  }
}
