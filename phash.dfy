/** The perceptual hash: greyscale the (already shrunk) 32×32 image, then set
    one bit per pixel that is brighter than the mean (src/phash/phash.js). */
module Phash {
  import opened Wrappers
  import opened Numeric
  import Common

  /** The greyscale values as numbers, the way `reduce` adds them. */
  function AsReals(s: seq<Common.Byte>): (r: seq<real>)
    ensures |r| == |s|
    ensures forall k :: 0 <= k < |s| ==> r[k] == s[k] as real
  {
    seq(|s|, k requires 0 <= k < |s| => s[k] as real)
  }

  /** Adding the values as numbers gives their integer sum. */
  lemma {:induction false} AsRealsSum(s: seq<Common.Byte>)
    ensures RealSum(AsReals(s)) == SeqSum(s) as real
  {
    if |s| > 0 {
      AsRealsSum(s[..|s| - 1]);
      assert AsReals(s)[..|s| - 1] == AsReals(s[..|s| - 1]);
    }
  }

  /** `average` of phash.js: the sum over the length, computed by the shared
      helper on the values as numbers; NaN (None) for an empty array. */
  function Average(arr: seq<Common.Byte>): (avg: Option<real>)
    ensures avg.None? <==> |arr| == 0
    ensures avg.Some? ==> avg.value * |arr| as real == SeqSum(arr) as real
  {
    AsRealsSum(arr);
    Common.Average(AsReals(arr))
  }

  /** `reduceToBinary`: bit 1 exactly where the value is strictly above the
      average. A NaN average compares false with everything, so it gives 0s. */
  function ReduceToBinary(arr: seq<Common.Byte>, avg: Option<real>): (bits: seq<int>)
    ensures |bits| == |arr|
    ensures forall k :: 0 <= k < |arr| ==> bits[k] == 0 || bits[k] == 1
    ensures forall k :: 0 <= k < |arr| ==>
      (bits[k] == 1 <==> avg.Some? && arr[k] as real > avg.value)
  {
    seq(|arr|, k requires 0 <= k < |arr| =>
      if avg.Some? && arr[k] as real > avg.value then 1 else 0)
  }

  /** `pHash1024` from the shrunk RGBA buffer onward: greyscale, average,
      threshold. Shrinking to 32×32 is done by the canvas and is not modelled. */
  function PHash1024(shrunk: seq<Common.Byte>): (bits: seq<int>)
    ensures |bits| == |shrunk| / 4
  {
    var greys := Common.GreyscaleOf(shrunk);
    ReduceToBinary(greys, Average(greys))
  }

  /** A 32×32 RGBA buffer gives exactly 1024 bits. */
  lemma PHash1024Length(shrunk: seq<Common.Byte>)
    requires |shrunk| == 32 * 32 * 4
    ensures |PHash1024(shrunk)| == 1024
  {
  }

  /** Not every value can exceed the mean: a non-empty input always has a 0 bit,
      at a darkest pixel. */
  lemma ReduceHasZero(arr: seq<Common.Byte>)
    requires |arr| > 0
    ensures exists k :: 0 <= k < |arr| && ReduceToBinary(arr, Average(arr))[k] == 0
  {
    var values := AsReals(arr);
    var m := Common.ArgMin(values);
    Common.AverageBetweenExtremes(values);
    assert ReduceToBinary(arr, Average(arr))[m] == 0;
  }

  /** A hash of a non-empty image has at least one 0 bit. */
  lemma PHash1024HasZero(shrunk: seq<Common.Byte>)
    requires |shrunk| >= 4
    ensures exists k :: 0 <= k < |PHash1024(shrunk)| && PHash1024(shrunk)[k] == 0
  {
    var greys := Common.GreyscaleOf(shrunk);
    assert |greys| > 0;
    ReduceHasZero(greys);
    var k :| 0 <= k < |greys| && ReduceToBinary(greys, Average(greys))[k] == 0;
    assert PHash1024(shrunk)[k] == 0;
  }

  /** An image of one uniform grey hashes to all zeros: no value is strictly
      above a mean equal to itself. */
  lemma ReduceConstant(arr: seq<Common.Byte>, v: Common.Byte)
    requires forall k :: 0 <= k < |arr| ==> arr[k] == v
    ensures forall k :: 0 <= k < |arr| ==> ReduceToBinary(arr, Average(arr))[k] == 0
  {
    if |arr| > 0 {
      Common.AverageConstant(AsReals(arr), v as real);
    }
  }
}
