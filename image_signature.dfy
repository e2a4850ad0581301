/** The Goldberg image signature: greyscale, crop to the busy part of the
    image, average squares around a 9×9 grid, and encode how each grid
    point compares with its neighbours as symbols in -2..2. */
module ImageSignature {
  import opened Wrappers
  import opened Numeric
  import ArrayUtil
  import opened NjUtil

  // ----------------------------------------------------------------------
  // average, grayscale, reshape

  /** The callback of `average`'s reduce at index i: add the entry, and at
      the last index divide the sum by the length. */
  function AverageStep(arr: seq<int>, i: nat, sum: real): real
    requires i < |arr|
  {
    var s := sum + arr[i] as real;
    if i == |arr| - 1 then s / |arr| as real else s
  }

  /** `arr.reduce(callback, 0)` from index i with accumulator acc. */
  function ReduceFrom(arr: seq<int>, i: nat, acc: real): real
    requires i <= |arr|
    decreases |arr| - i
  {
    if i == |arr| then acc else ReduceFrom(arr, i + 1, AverageStep(arr, i, acc))
  }

  /** `average(arr)`: the reduce-based mean, which is the arithmetic mean of
      a non-empty array and 0 for an empty one. */
  function Average(arr: seq<int>): (avg: real)
    ensures |arr| == 0 ==> avg == 0.0
    ensures |arr| > 0 ==> avg == SeqSum(arr) as real / |arr| as real
  {
    ReduceFromStart(arr);
    ReduceFrom(arr, 0, 0.0)
  }

  lemma {:induction false} ReduceFromSum(arr: seq<int>, i: nat)
    requires i < |arr|
    ensures ReduceFrom(arr, i, SeqSum(arr[..i]) as real) == SeqSum(arr) as real / |arr| as real
    decreases |arr| - i
  {
    assert arr[..i + 1] == arr[..i] + [arr[i]];
    SeqSumSnoc(arr[..i], arr[i]);
    if i == |arr| - 1 {
      assert arr[..i + 1] == arr;
    } else {
      ReduceFromSum(arr, i + 1);
    }
  }

  lemma ReduceFromStart(arr: seq<int>)
    ensures |arr| > 0 ==> ReduceFrom(arr, 0, 0.0) == SeqSum(arr) as real / |arr| as real
  {
    if |arr| > 0 {
      assert arr[..0] == [];
      ReduceFromSum(arr, 0);
    }
  }

  /** Grey value of each pixel: the rounded mean of its R, G and B bytes
      (alpha ignored), read from windows of 3 starting every 4 bytes. */
  function GrayscaleOf(rgba: seq<int>): (gray: seq<int>)
    ensures |gray| == ArrayUtil.GroupCount(|rgba|, 4)
  {
    var windows := ArrayUtil.Windows(rgba, 3, 4);
    seq(|windows|, k requires 0 <= k < |windows| => Round(Average(windows[k])))
  }

  /** `grayscale(rgbaData)`: sliding windows, averaged, rounded. */
  method Grayscale(rgba: seq<int>) returns (gray: seq<int>)
    ensures gray == GrayscaleOf(rgba)
  {
    var rgbArrays := ArrayUtil.Sliding(rgba, 3, 4);
    gray := seq(|rgbArrays|, k requires 0 <= k < |rgbArrays| => Round(Average(rgbArrays[k])));
  }

  ghost predicate Bytes(s: seq<int>)
  {
    forall i :: 0 <= i < |s| ==> 0 <= s[i] <= 255
  }

  /** On whole RGBA pixels there is one grey value per pixel, the rounded
      mean of R, G and B, and bytes give grey values in 0..255. */
  lemma GrayscalePixels(rgba: seq<int>)
    requires |rgba| % 4 == 0
    ensures |GrayscaleOf(rgba)| == |rgba| / 4
    ensures forall k :: 0 <= k < |rgba| / 4 ==>
      GrayscaleOf(rgba)[k] == Round((rgba[4 * k] + rgba[4 * k + 1] + rgba[4 * k + 2]) as real / 3.0)
    ensures Bytes(rgba) ==> Bytes(GrayscaleOf(rgba))
  {
    ArrayUtil.PixelWindows(rgba);
    forall k | 0 <= k < |rgba| / 4
      ensures GrayscaleOf(rgba)[k] == Round((rgba[4 * k] + rgba[4 * k + 1] + rgba[4 * k + 2]) as real / 3.0)
      ensures Bytes(rgba) ==> 0 <= GrayscaleOf(rgba)[k] <= 255
    {
      var px := ArrayUtil.Windows(rgba, 3, 4)[k];
      assert px == [rgba[4 * k], rgba[4 * k + 1], rgba[4 * k + 2]];
      SeqSumThree(rgba[4 * k], rgba[4 * k + 1], rgba[4 * k + 2]);
      if Bytes(rgba) {
        RoundWithin((rgba[4 * k] + rgba[4 * k + 1] + rgba[4 * k + 2]) as real / 3.0, 0, 255);
      }
    }
  }

  lemma SeqSumThree(x: int, y: int, z: int)
    ensures SeqSum([x, y, z]) == x + y + z
  {
    assert [x][..0] == [];
    assert SeqSum([x]) == x;
    assert [x, y][..1] == [x];
    assert SeqSum([x, y]) == x + y;
    assert [x, y, z][..2] == [x, y];
  }

  // ----------------------------------------------------------------------
  // autoCrop

  /** Row activity `cumsum(sum(abs(diff(gray, 1, axis 1)), 1))`: entry i is
      the total absolute change between horizontally adjacent pixels in
      rows 0..i. */
  function RowActivity(gray: seq<seq<int>>, h: nat, w: nat): (rw: seq<int>)
    requires IsMatrix(gray, h, w)
    ensures |rw| == h
  {
    var d := Vectorize(DiffN(gray, w, 1, 1), (x: int) => Abs(x) as int);
    PrefixSums(AxisSums(d, h, Max(w - 1, 0), 1))
  }

  /** Column activity `cumsum(sum(abs(diff(gray, 1, axis 0)), 0))`: entry j
      is the total absolute change between vertically adjacent pixels in
      columns 0..j. */
  function ColumnActivity(gray: seq<seq<int>>, h: nat, w: nat): (cw: seq<int>)
    requires IsMatrix(gray, h, w)
    ensures |cw| == w
  {
    var d := Vectorize(DiffN(gray, w, 1, 0), (x: int) => Abs(x) as int);
    PrefixSums(AxisSums(d, Max(h - 1, 0), w, 0))
  }

  lemma AxisSumsNonNegative(a: seq<seq<int>>, h: nat, w: nat, axis: nat)
    requires axis < 2 && IsMatrix(a, h, w)
    requires forall i, j :: 0 <= i < h && 0 <= j < w ==> a[i][j] >= 0
    ensures forall k :: 0 <= k < |AxisSums(a, h, w, axis)| ==> AxisSums(a, h, w, axis)[k] >= 0
  {
    var len := if axis == 0 then w else h;
    var axisLength := if axis == 0 then h else w;
    forall k | 0 <= k < len ensures AxisSums(a, h, w, axis)[k] >= 0 {
      SeqSumNonNegative(Fiber(a, h, w, axis, axisLength, k));
    }
  }

  /** Both activity profiles are non-negative and ascending, so they can be
      binary searched. */
  lemma ActivityAscending(gray: seq<seq<int>>, h: nat, w: nat)
    requires IsMatrix(gray, h, w)
    ensures Sorted(RowActivity(gray, h, w)) && Sorted(ColumnActivity(gray, h, w))
    ensures forall i :: 0 <= i < h ==> RowActivity(gray, h, w)[i] >= 0
    ensures forall j :: 0 <= j < w ==> ColumnActivity(gray, h, w)[j] >= 0
  {
    var dr := Vectorize(DiffN(gray, w, 1, 1), (x: int) => Abs(x) as int);
    AxisSumsNonNegative(dr, h, Max(w - 1, 0), 1);
    PrefixSumsOfNonNegative(AxisSums(dr, h, Max(w - 1, 0), 1));
    var dc := Vectorize(DiffN(gray, w, 1, 0), (x: int) => Abs(x) as int);
    AxisSumsNonNegative(dc, Max(h - 1, 0), w, 0);
    PrefixSumsOfNonNegative(AxisSums(dc, Max(h - 1, 0), w, 0));
  }

  /** The positions where a cumulative profile reaches lowerPct and
      upperPct percent of its total (its last entry, read with get(-1)). */
  function CropLimits(profile: seq<int>, lowerPct: int, upperPct: int): (limits: (nat, nat))
    requires |profile| > 0
    ensures limits.0 <= |profile| && limits.1 <= |profile|
  {
    var total := profile[|profile| - 1];
    (Search(profile, (total * lowerPct) as real / 100.0, 0, |profile| - 1),
     Search(profile, (total * upperPct) as real / 100.0, 0, |profile| - 1))
  }

  /** On an ascending non-negative profile the lower limit does not pass the
      upper one and the upper one is a valid position; each limit is where
      its share of the total is reached. */
  lemma CropLimitsInRange(profile: seq<int>, lowerPct: int, upperPct: int)
    requires |profile| > 0 && Sorted(profile) && profile[0] >= 0
    requires 0 <= lowerPct <= upperPct <= 100
    ensures CropLimits(profile, lowerPct, upperPct).0 <= CropLimits(profile, lowerPct, upperPct).1 < |profile|
    ensures SearchResult(profile, (profile[|profile| - 1] * lowerPct) as real / 100.0, CropLimits(profile, lowerPct, upperPct).0)
    ensures SearchResult(profile, (profile[|profile| - 1] * upperPct) as real / 100.0, CropLimits(profile, lowerPct, upperPct).1)
  {
    var total := profile[|profile| - 1];
    assert total >= 0;
    ArrayUtil.MulMono(lowerPct, upperPct, total);
    ArrayUtil.MulMono(upperPct, 100, total);
    var lo, hi := (total * lowerPct) as real / 100.0, (total * upperPct) as real / 100.0;
    assert lo <= hi <= total as real;
    assert CropLimits(profile, lowerPct, upperPct) == (Search(profile, lo, 0, |profile| - 1), Search(profile, hi, 0, |profile| - 1));
    LimitsOfTargets(profile, lo, hi);
  }

  /** Searching an ascending profile for two targets up to its last entry
      gives two ordered positions inside it, each a correct search result. */
  lemma LimitsOfTargets(profile: seq<int>, lo: real, hi: real)
    requires |profile| > 0 && Sorted(profile) && lo <= hi <= profile[|profile| - 1] as real
    ensures var a, b := Search(profile, lo, 0, |profile| - 1), Search(profile, hi, 0, |profile| - 1);
      a <= b < |profile| && SearchResult(profile, lo, a) && SearchResult(profile, hi, b)
  {
    SearchSortedMonotone(profile, lo, hi);
    SearchSortedCorrect(profile, lo);
    SearchSortedCorrect(profile, hi);
  }

  /** The rows r0 ≤ i < r1 and columns c0 ≤ j < c1 that autoCrop keeps,
      given the row profile rw and the column profile cw. */
  function CropWindow(rw: seq<int>, cw: seq<int>, lowerPct: int, upperPct: int): Window
    requires |rw| > 0 && |cw| > 0
  {
    var rows := CropLimits(rw, lowerPct, upperPct);
    var cols := CropLimits(cw, lowerPct, upperPct);
    Window(rows.0, rows.1 + 1, cols.0, cols.1 + 1)
  }

  /** For percentages 0 ≤ lowerPct ≤ upperPct ≤ 100 and ascending
      non-negative profiles the window is a non-empty rectangle inside the
      image, and its edges sit where the cumulative horizontal (for rows) and
      vertical (for columns) change reaches lowerPct and upperPct percent of
      its total. */
  lemma CropWindowInside(rw: seq<int>, cw: seq<int>, lowerPct: int, upperPct: int)
    requires |rw| > 0 && Sorted(rw) && rw[0] >= 0
    requires |cw| > 0 && Sorted(cw) && cw[0] >= 0
    requires 0 <= lowerPct <= upperPct <= 100
    ensures var win := CropWindow(rw, cw, lowerPct, upperPct);
      win.r0 < win.r1 <= |rw| && win.c0 < win.c1 <= |cw|
    ensures var win := CropWindow(rw, cw, lowerPct, upperPct);
      SearchResult(rw, (rw[|rw| - 1] * lowerPct) as real / 100.0, win.r0) &&
      SearchResult(rw, (rw[|rw| - 1] * upperPct) as real / 100.0, win.r1 - 1)
    ensures var win := CropWindow(rw, cw, lowerPct, upperPct);
      SearchResult(cw, (cw[|cw| - 1] * lowerPct) as real / 100.0, win.c0) &&
      SearchResult(cw, (cw[|cw| - 1] * upperPct) as real / 100.0, win.c1 - 1)
  {
    CropLimitsInRange(rw, lowerPct, upperPct);
    CropLimitsInRange(cw, lowerPct, upperPct);
  }

  /** The window autoCrop computes for an image lies inside it. */
  lemma CropWindowFits(gray: seq<seq<int>>, h: nat, w: nat, lowerPct: int, upperPct: int)
    requires IsMatrix(gray, h, w) && h > 0 && w > 0
    requires 0 <= lowerPct <= upperPct <= 100
    ensures var win := CropWindow(RowActivity(gray, h, w), ColumnActivity(gray, h, w), lowerPct, upperPct);
      win.r0 < win.r1 <= h && win.c0 < win.c1 <= w
  {
    ActivityAscending(gray, h, w);
    CropWindowInside(RowActivity(gray, h, w), ColumnActivity(gray, h, w), lowerPct, upperPct);
  }

  /** The window autoCrop keeps: the crop window of the image's own row
      and column activity. */
  function ActivityWindow(gray: seq<seq<int>>, h: nat, w: nat, lowerPct: int, upperPct: int): (win: Window)
    requires IsMatrix(gray, h, w) && h > 0 && w > 0
    requires 0 <= lowerPct <= upperPct <= 100
    ensures win.r0 < win.r1 <= h && win.c0 < win.c1 <= w
  {
    CropWindowFits(gray, h, w, lowerPct, upperPct);
    CropWindow(RowActivity(gray, h, w), ColumnActivity(gray, h, w), lowerPct, upperPct)
  }

  /** `autoCrop(gray, lowerPct, upperPct)`: the sub-array between the crop
      limits, upper limits included. */
  function CroppedOf(gray: seq<seq<int>>, h: nat, w: nat, lowerPct: int, upperPct: int): (crop: seq<seq<int>>)
    requires IsMatrix(gray, h, w) && h > 0 && w > 0
    requires 0 <= lowerPct <= upperPct <= 100
  {
    var win := ActivityWindow(gray, h, w, lowerPct, upperPct);
    SubRows(gray, win.r0, win.r1, win.c0, win.c1)
  }

  /** The crop is a non-empty rectangle cut out of the image. */
  lemma CroppedRectangle(gray: seq<seq<int>>, h: nat, w: nat, lowerPct: int, upperPct: int)
    requires IsMatrix(gray, h, w) && h > 0 && w > 0
    requires 0 <= lowerPct <= upperPct <= 100
    ensures var win := ActivityWindow(gray, h, w, lowerPct, upperPct);
      var crop := CroppedOf(gray, h, w, lowerPct, upperPct);
      IsMatrix(crop, win.r1 - win.r0, win.c1 - win.c0) &&
      forall i, j :: 0 <= i < win.r1 - win.r0 && 0 <= j < win.c1 - win.c0 ==>
        crop[i][j] == gray[win.r0 + i][win.c0 + j]
  {
    var win := ActivityWindow(gray, h, w, lowerPct, upperPct);
    SubRowsWindow(gray, h, w, win);
  }

  lemma SubRowsWindow(gray: seq<seq<int>>, h: nat, w: nat, win: Window)
    requires IsMatrix(gray, h, w) && win.r0 < win.r1 <= h && win.c0 < win.c1 <= w
    ensures var crop := SubRows(gray, win.r0, win.r1, win.c0, win.c1);
      IsMatrix(crop, win.r1 - win.r0, win.c1 - win.c0) &&
      forall i, j :: 0 <= i < win.r1 - win.r0 && 0 <= j < win.c1 - win.c0 ==>
        crop[i][j] == gray[win.r0 + i][win.c0 + j]
  {
  }

  /** The two searches of one profile, run by the binary search loop. */
  method SearchLimits(profile: seq<int>, lowerPct: int, upperPct: int) returns (lower: nat, upper: nat)
    requires |profile| > 0
    ensures (lower, upper) == CropLimits(profile, lowerPct, upperPct)
  {
    var total := profile[|profile| - 1];
    upper := SearchSorted(profile, (total * upperPct) as real / 100.0);
    lower := SearchSorted(profile, (total * lowerPct) as real / 100.0);
  }

  /** The row and column activity, by the sum and cumsum loops. */
  method ActivityProfiles(gray: seq<seq<int>>, h: nat, w: nat) returns (rw: seq<int>, cw: seq<int>)
    requires IsMatrix(gray, h, w)
    ensures rw == RowActivity(gray, h, w) && cw == ColumnActivity(gray, h, w)
  {
    var rowSums := Sum(Vectorize(DiffN(gray, w, 1, 1), (x: int) => Abs(x) as int), h, Max(w - 1, 0), 1);
    rw := RunningSums(rowSums);
    var colSums := Sum(Vectorize(DiffN(gray, w, 1, 0), (x: int) => Abs(x) as int), Max(h - 1, 0), w, 0);
    cw := RunningSums(colSums);
  }

  /** `autoCrop` as the source runs it: the activity profiles by the sum and
      cumsum loops, the limits by the binary search loop. */
  method AutoCrop(gray: seq<seq<int>>, h: nat, w: nat, lowerPct: int, upperPct: int) returns (cropped: seq<seq<int>>)
    requires IsMatrix(gray, h, w) && h > 0 && w > 0
    requires 0 <= lowerPct <= upperPct <= 100
    ensures cropped == CroppedOf(gray, h, w, lowerPct, upperPct)
  {
    var rw, cw := ActivityProfiles(gray, h, w);
    var lowerRowLimit, upperRowLimit := SearchLimits(rw, lowerPct, upperPct);
    var lowerColLimit, upperColLimit := SearchLimits(cw, lowerPct, upperPct);
    var win := Window(lowerRowLimit, upperRowLimit + 1, lowerColLimit, upperColLimit + 1);
    assert win == ActivityWindow(gray, h, w, lowerPct, upperPct);
    cropped := SubRows(gray, win.r0, win.r1, win.c0, win.c1);
  }

  // ----------------------------------------------------------------------
  // computeGridAverages

  /** Math.ceil on an exact real. */
  function Ceil(x: real): (r: int)
    ensures x <= r as real < x + 1.0
  {
    -((-x).Floor)
  }

  /** underscore's `_.range(start, stop, step)`: ceil((stop - start) / step)
      values (none if that is negative), start + k·step for the k-th; a zero
      step is replaced by 1 or -1 towards stop. */
  function Range(start: real, stop: real, step: real): (r: seq<real>)
    ensures var st := if step == 0.0 then (if stop < start then -1.0 else 1.0) else step;
      |r| == Max(Ceil((stop - start) / st), 0) &&
      forall k :: 0 <= k < |r| ==> r[k] == start + k as real * st
  {
    var st := if step == 0.0 then (if stop < start then -1.0 else 1.0) else step;
    var n := Max(Ceil((stop - start) / st), 0);
    seq(n, k requires 0 <= k < n => start + k as real * st)
  }

  /** The positions of the grid lines across a side of length len cut into
      nb squares: `_.range(len/nb, len - (len/nb)/2, len/nb)` floored. */
  function GridLines(len: nat, nb: nat): (lines: seq<int>)
    requires nb > 0
  {
    var step := len as real / nb as real;
    var r := Range(step, len as real - step / 2.0, step);
    seq(|r|, k requires 0 <= k < |r| => r[k].Floor)
  }

  /** Flooring an exact quotient is integer division. */
  lemma FloorOfQuotient(a: nat, b: nat)
    requires b > 0
    ensures (a as real / b as real).Floor == a / b
  {
    var q, m := a / b, a % b;
    assert a == q * b + m;
    assert a as real / b as real == q as real + m as real / b as real;
    assert 0.0 <= m as real / b as real < 1.0;
  }

  lemma RealCancel(a: real, b: real, d: real)
    requires d != 0.0 && a * d == b * d
    ensures a == b
  {
    assert (a - b) * d == 0.0;
  }

  lemma RangeCount(len: nat, nb: nat)
    requires len > 0 && nb > 0
    ensures var step := len as real / nb as real;
      step > 0.0 && Ceil((len as real - step / 2.0 - step) / step) == nb - 1
  {
    var x, y := len as real, nb as real;
    var step := x / y;
    assert step * y == x;
    var t := (x - step / 2.0 - step) / step;
    assert t * step == x - step / 2.0 - step;
    assert (y - 1.5) * step == y * step - 1.5 * step;
    RealCancel(t, y - 1.5, step);
  }

  lemma GridLineValue(len: nat, nb: nat, k: nat)
    requires len > 0 && nb > 0
    ensures var step := len as real / nb as real;
      (step + k as real * step).Floor == ((k + 1) * len) / nb
  {
    var step := len as real / nb as real;
    assert step + k as real * step == ((k + 1) * len) as real / nb as real;
    FloorOfQuotient((k + 1) * len, nb);
  }

  /** On a side of length len > 0 there are nb - 1 grid lines, the k-th at
      ⌊(k + 1)·len / nb⌋: the lines cut the side into nb near-equal parts
      and all lie on the side. */
  lemma GridLinesExact(len: nat, nb: nat)
    requires len > 0 && nb > 0
    ensures |GridLines(len, nb)| == nb - 1
    ensures forall k :: 0 <= k < nb - 1 ==> GridLines(len, nb)[k] == ((k + 1) * len) / nb
    ensures forall k :: 0 <= k < nb - 1 ==> 0 <= GridLines(len, nb)[k] < len
  {
    RangeCount(len, nb);
    forall k | 0 <= k < nb - 1
      ensures GridLines(len, nb)[k] == ((k + 1) * len) / nb
      ensures 0 <= GridLines(len, nb)[k] < len
    {
      GridLineAt(len, nb, k);
      LineBelow(len, nb, k + 1);
    }
  }

  lemma GridLineAt(len: nat, nb: nat, k: nat)
    requires len > 0 && nb > 0 && k < nb - 1
    ensures k < |GridLines(len, nb)| && GridLines(len, nb)[k] == ((k + 1) * len) / nb
  {
    RangeCount(len, nb);
    var step := len as real / nb as real;
    var r := Range(step, len as real - step / 2.0, step);
    assert r[k] == step + k as real * step;
    GridLineValue(len, nb, k);
  }

  /** A line strictly inside the division stays on the side. */
  lemma LineBelow(len: nat, nb: nat, m: nat)
    requires len > 0 && m < nb
    ensures 0 <= (m * len) / nb < len
  {
    var q := (m * len) / nb;
    assert q * nb <= m * len;
    assert m * len < len * nb by {
      assert len * nb - m * len == (nb - m) * len;
      ArrayUtil.MulMono(1, nb - m, len);
    }
    ArrayUtil.MulCancel(q, len, nb);
  }

  /** The side P of the averaging square: ⌊0.5 + min(h, w)/20⌋, at least 2. */
  function SquareSide(h: nat, w: nat): (p: int)
    ensures p >= 2
  {
    Max(2, (0.5 + ArrayUtil.Min(h, w) as real / 20.0).Floor)
  }

  /** The offsets of a square of side p around its centre: lower
      -⌊(p-1)/2⌋, upper ⌈(p-1)/2⌉. */
  function SquareOffsets(p: int): (offsets: (int, int))
  {
    (-(((p - 1) as real / 2.0).Floor), Ceil((p - 1) as real / 2.0))
  }

  /** The offsets straddle the centre and span exactly p cells. */
  lemma SquareOffsetsSpan(p: int)
    requires p >= 1
    ensures SquareOffsets(p).0 <= 0 <= SquareOffsets(p).1
    ensures SquareOffsets(p).1 - SquareOffsets(p).0 + 1 == p
  {
    var m := (p - 1) / 2;
    if (p - 1) % 2 == 0 {
      assert (p - 1) as real / 2.0 == m as real;
    } else {
      assert (p - 1) as real / 2.0 == m as real + 0.5;
    }
  }

  /** The pairs (x, ys[j]) for every j. */
  function PairRow(x: int, ys: seq<int>): (row: seq<(int, int)>)
    ensures |row| == |ys|
  {
    seq(|ys|, j requires 0 <= j < |ys| => (x, ys[j]))
  }

  /** `cartesianProductOf(xs, ys)`: every pair, xs varying slowest. */
  function CartesianProduct(xs: seq<int>, ys: seq<int>): (pairs: seq<(int, int)>)
    ensures |pairs| == |xs| * |ys|
  {
    var rows := seq(|xs|, i requires 0 <= i < |xs| => PairRow(xs[i], ys));
    TotalLengthUniform(rows, |ys|);
    ArrayUtil.Flatten(rows)
  }

  /** The product has |xs|·|ys| pairs, pair k being (xs[k / |ys|], ys[k % |ys|]). */
  lemma CartesianEntry(xs: seq<int>, ys: seq<int>, k: nat)
    requires k < |xs| * |ys|
    ensures |CartesianProduct(xs, ys)| == |xs| * |ys|
    ensures k / |ys| < |xs| && CartesianProduct(xs, ys)[k] == (xs[k / |ys|], ys[k % |ys|])
  {
    var rows := seq(|xs|, i requires 0 <= i < |xs| => PairRow(xs[i], ys));
    TotalLengthUniform(rows, |ys|);
    ArrayUtil.DivModSplit(k, |xs|, |ys|);
    var i, j := k / |ys|, k % |ys|;
    FlattenUniformAt(rows, |ys|, i, j);
    assert rows[i][j] == (xs[i], ys[j]);
  }

  /** Pair i·|ys| + j of the product is (xs[i], ys[j]). */
  lemma CartesianAt(xs: seq<int>, ys: seq<int>, i: nat, j: nat)
    requires i < |xs| && j < |ys|
    ensures |CartesianProduct(xs, ys)| == |xs| * |ys|
    ensures i * |ys| + j < |xs| * |ys| && CartesianProduct(xs, ys)[i * |ys| + j] == (xs[i], ys[j])
  {
    var k := i * |ys| + j;
    ArrayUtil.MulMono(i + 1, |xs|, |ys|);
    ArrayUtil.DivUnique(k, |ys|, i);
    CartesianEntry(xs, ys, k);
  }

  /** numjs `mean()`: the sum over the count. */
  function Mean(s: seq<int>): real
    requires |s| > 0
  {
    SeqSum(s) as real / |s| as real
  }

  /** The mean of entries that lie within [lo, hi] lies within [lo, hi]. */
  lemma MeanWithin(s: seq<int>, lo: int, hi: int)
    requires |s| > 0
    requires forall k :: 0 <= k < |s| ==> lo <= s[k] <= hi
    ensures lo as real <= Mean(s) <= hi as real
  {
    SeqSumBounds(s, lo, hi);
    var n := |s| as real;
    var sum := SeqSum(s) as real;
    assert n * lo as real <= sum <= n * hi as real;
    DivideBetween(sum, n, lo as real, hi as real);
  }

  /** The mean of the square of offsets lower..upper around (r, c),
      clipped into the image: `getNeighbors(img, r, c, lower, upper, true).mean()`. */
  function SquareMean(img: seq<seq<int>>, h: nat, w: nat, r: nat, c: nat, lower: int, upper: int): real
    requires IsMatrix(img, h, w) && r < h && c < w && lower <= 0 <= upper
  {
    var win := ClippedWindow(h, w, r, c, lower, upper);
    BlockLength(img, win.r0, win.r1, win.c0, win.c1);
    ArrayUtil.MulMono(1, win.r1 - win.r0, win.c1 - win.c0);
    Mean(GetNeighbors(img, h, w, r, c, lower, upper, true))
  }

  /** Grid lines across one side; with the checks the caller needs. */
  lemma GridLinesFit(len: nat, nb: nat)
    requires len > 0 && nb > 0
    ensures |GridLines(len, nb)| == nb - 1
    ensures forall k :: 0 <= k < nb - 1 ==> 0 <= GridLines(len, nb)[k] < len
  {
    GridLinesExact(len, nb);
  }

  /** The means of the squares around the grid points, pairs (x, y) read
      as column x, row y. */
  function SquareMeans(img: seq<seq<int>>, h: nat, w: nat, coords: seq<(int, int)>, lower: int, upper: int): (means: seq<real>)
    requires IsMatrix(img, h, w) && lower <= 0 <= upper
    requires forall k :: 0 <= k < |coords| ==> 0 <= coords[k].1 < h && 0 <= coords[k].0 < w
    ensures |means| == |coords|
  {
    seq(|coords|, k requires 0 <= k < |coords| => SquareMean(img, h, w, coords[k].1, coords[k].0, lower, upper))
  }

  /** The grid points as (x, y) pairs: the product of the column lines and
      the row lines, column varying slowest. */
  function GridPoints(h: nat, w: nat, nbH: nat, nbW: nat): (coords: seq<(int, int)>)
    requires h > 0 && w > 0 && nbH > 0 && nbW > 0
    ensures |coords| == (nbH - 1) * (nbW - 1)
    ensures forall k :: 0 <= k < |coords| ==> 0 <= coords[k].1 < h && 0 <= coords[k].0 < w
  {
    GridLinesFit(h, nbH);
    GridLinesFit(w, nbW);
    CartesianCoordsFit(GridLines(w, nbW), GridLines(h, nbH), h, w);
    var a, b := nbW - 1, nbH - 1;
    assert a * b == b * a;
    CartesianProduct(GridLines(w, nbW), GridLines(h, nbH))
  }

  /** Grid point i·(n-1) + j of a square division is column ⌊(i+1)·w/n⌋,
      row ⌊(j+1)·h/n⌋. */
  lemma GridPointAt(h: nat, w: nat, nb: nat, i: nat, j: nat)
    requires h > 0 && w > 0 && nb > 0 && i < nb - 1 && j < nb - 1
    ensures i * (nb - 1) + j < (nb - 1) * (nb - 1)
    ensures GridPoints(h, w, nb, nb)[i * (nb - 1) + j] == (((i + 1) * w) / nb, ((j + 1) * h) / nb)
  {
    GridLinesExact(h, nb);
    GridLinesExact(w, nb);
    CartesianAt(GridLines(w, nb), GridLines(h, nb), i, j);
  }

  /** `computeGridAverages(img, nbH, nbW)`: the means of P×P squares centred
      on the grid points, reshaped to (nbH - 1)×(nbW - 1). */
  function GridAverages(img: seq<seq<int>>, h: nat, w: nat, nbH: nat, nbW: nat): (grid: seq<seq<real>>)
    requires IsMatrix(img, h, w) && h > 0 && w > 0 && nbH > 0 && nbW > 0
    ensures IsMatrix(grid, nbH - 1, nbW - 1)
  {
    Reshape(GridMeans(img, h, w, nbH, nbW), nbH - 1, nbW - 1)
  }

  /** The square means around the grid points, in grid-point order. */
  function GridMeans(img: seq<seq<int>>, h: nat, w: nat, nbH: nat, nbW: nat): (means: seq<real>)
    requires IsMatrix(img, h, w) && h > 0 && w > 0 && nbH > 0 && nbW > 0
    ensures |means| == (nbH - 1) * (nbW - 1)
  {
    var p := SquareSide(h, w);
    var offsets := SquareOffsets(p);
    SquareOffsetsSpan(p);
    SquareMeans(img, h, w, GridPoints(h, w, nbH, nbW), offsets.0, offsets.1)
  }

  lemma CartesianCoordsFit(xs: seq<int>, ys: seq<int>, h: nat, w: nat)
    requires forall k :: 0 <= k < |xs| ==> 0 <= xs[k] < w
    requires forall k :: 0 <= k < |ys| ==> 0 <= ys[k] < h
    ensures forall k :: 0 <= k < |CartesianProduct(xs, ys)| ==>
      0 <= CartesianProduct(xs, ys)[k].1 < h && 0 <= CartesianProduct(xs, ys)[k].0 < w
  {
    forall k | 0 <= k < |CartesianProduct(xs, ys)|
      ensures 0 <= CartesianProduct(xs, ys)[k].1 < h && 0 <= CartesianProduct(xs, ys)[k].0 < w
    {
      CartesianEntry(xs, ys, k);
    }
  }

  /** Grid entry (i, j) is the mean of the square around grid point
      i·(nbW-1) + j, read as column x, row y. */
  lemma GridEntryIsMean(img: seq<seq<int>>, h: nat, w: nat, nbH: nat, nbW: nat, i: nat, j: nat, k: nat)
    requires IsMatrix(img, h, w) && h > 0 && w > 0 && nbH > 0 && nbW > 0
    requires i < nbH - 1 && j < nbW - 1 && k == i * (nbW - 1) + j
    ensures k < (nbH - 1) * (nbW - 1)
    ensures var offsets := SquareOffsets(SquareSide(h, w));
      var pt := GridPoints(h, w, nbH, nbW)[k];
      offsets.0 <= 0 <= offsets.1 && 0 <= pt.1 < h && 0 <= pt.0 < w &&
      GridAverages(img, h, w, nbH, nbW)[i][j] == SquareMean(img, h, w, pt.1, pt.0, offsets.0, offsets.1)
  {
    var p := SquareSide(h, w);
    var offsets := SquareOffsets(p);
    SquareOffsetsSpan(p);
    ReshapeEntry(GridMeans(img, h, w, nbH, nbW), nbH - 1, nbW - 1, i, j, k);
    var coords := GridPoints(h, w, nbH, nbW);
    SquareMeanAt(img, h, w, coords, offsets.0, offsets.1, k, coords[k].1, coords[k].0);
  }

  lemma ReshapeEntry<T>(flat: seq<T>, h: nat, w: nat, i: nat, j: nat, k: nat)
    requires |flat| == h * w && i < h && j < w && k == i * w + j
    ensures k < |flat| && Reshape(flat, h, w)[i][j] == flat[k]
  {
    ReshapeAt(flat, h, w, i, j);
  }

  lemma SquareMeanAt(img: seq<seq<int>>, h: nat, w: nat, coords: seq<(int, int)>, lower: int, upper: int,
                     k: nat, r: nat, c: nat)
    requires IsMatrix(img, h, w) && lower <= 0 <= upper
    requires forall k :: 0 <= k < |coords| ==> 0 <= coords[k].1 < h && 0 <= coords[k].0 < w
    requires k < |coords| && coords[k] == (c, r)
    ensures r < h && c < w
    ensures SquareMeans(img, h, w, coords, lower, upper)[k] == SquareMean(img, h, w, r, c, lower, upper)
  {
  }

  /** On a square n×n division, grid entry (i, j) is the mean of the P×P
      square centred on column ⌊(i+1)·w/n⌋ and row ⌊(j+1)·h/n⌋. */
  lemma GridAverageAt(img: seq<seq<int>>, h: nat, w: nat, nb: nat, i: nat, j: nat)
    requires IsMatrix(img, h, w) && h > 0 && w > 0 && nb > 0
    requires i < nb - 1 && j < nb - 1
    ensures 0 <= ((i + 1) * w) / nb < w && 0 <= ((j + 1) * h) / nb < h
    ensures var offsets := SquareOffsets(SquareSide(h, w));
      offsets.0 <= 0 <= offsets.1 &&
      GridAverages(img, h, w, nb, nb)[i][j]
      == SquareMean(img, h, w, ((j + 1) * h) / nb, ((i + 1) * w) / nb, offsets.0, offsets.1)
  {
    ArrayUtil.MulMono(0, i, nb - 1);
    var k: nat := i * (nb - 1) + j;
    var x, y := ((i + 1) * w) / nb, ((j + 1) * h) / nb;
    LineBelow(w, nb, i + 1);
    LineBelow(h, nb, j + 1);
    GridPointAt(h, w, nb, i, j);
    MeanAtGridPoint(img, h, w, nb, i, j, k, x, y);
  }

  lemma MeanAtGridPoint(img: seq<seq<int>>, h: nat, w: nat, nb: nat, i: nat, j: nat, k: nat, x: nat, y: nat)
    requires IsMatrix(img, h, w) && h > 0 && w > 0 && nb > 0
    requires i < nb - 1 && j < nb - 1 && k == i * (nb - 1) + j && x < w && y < h
    requires k < |GridPoints(h, w, nb, nb)| && GridPoints(h, w, nb, nb)[k] == (x, y)
    ensures var offsets := SquareOffsets(SquareSide(h, w));
      offsets.0 <= 0 <= offsets.1 &&
      GridAverages(img, h, w, nb, nb)[i][j] == SquareMean(img, h, w, y, x, offsets.0, offsets.1)
  {
    GridEntryIsMean(img, h, w, nb, nb, i, j, k);
  }

  /** The mean of a square lies between any lower and upper bound of the
      grey values inside its clipped window, in particular between the
      window's darkest and brightest pixel. */
  lemma SquareMeanInWindow(img: seq<seq<int>>, h: nat, w: nat, r: nat, c: nat, lower: int, upper: int, lo: int, hi: int)
    requires IsMatrix(img, h, w) && r < h && c < w && lower <= 0 <= upper
    requires var win := ClippedWindow(h, w, r, c, lower, upper);
      forall i, j :: win.r0 <= i < win.r1 && win.c0 <= j < win.c1 ==> lo <= img[i][j] <= hi
    ensures lo as real <= SquareMean(img, h, w, r, c, lower, upper) <= hi as real
  {
    var win := ClippedWindow(h, w, r, c, lower, upper);
    BlockLength(img, win.r0, win.r1, win.c0, win.c1);
    var square := Block(img, win.r0, win.r1, win.c0, win.c1);
    ArrayUtil.MulMono(1, win.r1 - win.r0, win.c1 - win.c0);
    BlockBounded(img, win.r0, win.r1, win.c0, win.c1, lo, hi);
    MeanWithin(square, lo, hi);
  }

  lemma SquareMeanWithin(img: seq<seq<int>>, h: nat, w: nat, r: nat, c: nat, lower: int, upper: int, lo: int, hi: int)
    requires IsMatrix(img, h, w) && r < h && c < w && lower <= 0 <= upper
    requires forall i, j :: 0 <= i < h && 0 <= j < w ==> lo <= img[i][j] <= hi
    ensures lo as real <= SquareMean(img, h, w, r, c, lower, upper) <= hi as real
  {
    SquareMeanInWindow(img, h, w, r, c, lower, upper, lo, hi);
  }

  /** The grid averages of an image whose grey values lie within [lo, hi]
      lie within [lo, hi]; in particular a flat image gives a flat grid. */
  lemma GridWithin(img: seq<seq<int>>, h: nat, w: nat, nbH: nat, nbW: nat, lo: int, hi: int)
    requires IsMatrix(img, h, w) && h > 0 && w > 0 && nbH > 0 && nbW > 0
    requires forall i, j :: 0 <= i < h && 0 <= j < w ==> lo <= img[i][j] <= hi
    ensures forall i, j :: 0 <= i < nbH - 1 && 0 <= j < nbW - 1 ==>
      lo as real <= GridAverages(img, h, w, nbH, nbW)[i][j] <= hi as real
  {
    forall i, j | 0 <= i < nbH - 1 && 0 <= j < nbW - 1
      ensures lo as real <= GridAverages(img, h, w, nbH, nbW)[i][j] <= hi as real
    {
      ArrayUtil.MulMono(0, i, nbW - 1);
      var k: nat := i * (nbW - 1) + j;
      GridEntryIsMean(img, h, w, nbH, nbW, i, j, k);
      var pt := GridPoints(h, w, nbH, nbW)[k];
      var offsets := SquareOffsets(SquareSide(h, w));
      SquareMeanWithin(img, h, w, pt.1, pt.0, offsets.0, offsets.1, lo, hi);
    }
  }

  // ----------------------------------------------------------------------
  // mCoords

  /** `mCoords(idx, rs, cs)`: [⌊idx / rs⌋, idx % cs], as written. */
  function MCoords(idx: nat, rs: nat, cs: nat): (rc: (int, int))
    requires rs > 0 && cs > 0
    ensures 0 <= rc.0 && rc.0 * rs <= idx < (rc.0 + 1) * rs
    ensures 0 <= rc.1 < cs
  {
    FloorOfQuotient(idx, rs);
    assert idx == (idx / rs) * rs + idx % rs;
    ((idx as real / rs as real).Floor, idx % cs)
  }

  /** Row and column of entry idx of a row-major array with cs columns. */
  function RowMajorCoords(idx: nat, cs: nat): (rc: (nat, nat))
    requires cs > 0
    ensures rc.0 * cs + rc.1 == idx && rc.1 < cs
  {
    (idx / cs, idx % cs)
  }

  /** On a square array mCoords is the row-major position. */
  lemma MCoordsSquare(idx: nat, n: nat)
    requires n > 0
    ensures MCoords(idx, n, n) == (RowMajorCoords(idx, n).0, RowMajorCoords(idx, n).1)
  {
    FloorOfQuotient(idx, n);
  }

  /** On a 2×3 array flat entry 2 is (0, 2), but mCoords gives (1, 2). */
  lemma MCoordsNonSquare()
    ensures MCoords(2, 2, 3) == (1, 2)
    ensures RowMajorCoords(2, 3) == (0, 2)
  {
    FloorOfQuotient(2, 2);
  }

  /** RowMajorCoords inverts flattening: flat entry idx of an rs×cs array
      is the entry at RowMajorCoords(idx, cs). */
  lemma RowMajorCoordsInverse<T>(a: seq<seq<T>>, rs: nat, cs: nat, idx: nat)
    requires IsMatrix(a, rs, cs) && cs > 0 && idx < rs * cs
    ensures RowMajorCoords(idx, cs).0 < rs
    ensures idx < |ArrayUtil.Flatten(a)|
    ensures ArrayUtil.Flatten(a)[idx] == a[RowMajorCoords(idx, cs).0][RowMajorCoords(idx, cs).1]
  {
    var rc := RowMajorCoords(idx, cs);
    ArrayUtil.MulCancel(rc.0, rs, cs);
    TotalLengthUniform(a, cs);
    TotalLengthUniform(a[..rc.0], cs);
    ArrayUtil.FlattenAt(a, rc.0, rc.1);
  }

  // ----------------------------------------------------------------------
  // normalize

  /** A cutoff compared with `<` or `>`: JavaScript reads a null percentile
      as 0. */
  function CutoffValue(cutoff: Option<real>): real
  {
    if cutoff.Some? then cutoff.value else 0.0
  }

  /** `normalize(equalCutoff, positiveCutoff, negativeCutoff, value)`. */
  function Normalize(equalCutoff: real, positiveCutoff: Option<real>, negativeCutoff: Option<real>, value: real): (symbol: int)
    ensures -2 <= symbol <= 2
  {
    if value < -equalCutoff then
      (if value < CutoffValue(negativeCutoff) then -2 else -1)
    else if value > equalCutoff then
      (if value > CutoffValue(positiveCutoff) then 2 else 1)
    else 0
  }

  /** With a non-negative equal cutoff: the sign of the symbol says whether
      the value is beyond the equal band and on which side, and magnitude 2
      says it is also beyond the cutoff of its side. */
  lemma NormalizeMeaning(equalCutoff: real, positiveCutoff: Option<real>, negativeCutoff: Option<real>, value: real)
    requires equalCutoff >= 0.0
    ensures var symbol := Normalize(equalCutoff, positiveCutoff, negativeCutoff, value);
      (symbol == 0 <==> -equalCutoff <= value <= equalCutoff) &&
      (symbol < 0 <==> value < -equalCutoff) &&
      (symbol > 0 <==> value > equalCutoff) &&
      (value < -equalCutoff ==> (symbol == -2 <==> value < CutoffValue(negativeCutoff))) &&
      (value > equalCutoff ==> (symbol == 2 <==> value > CutoffValue(positiveCutoff)))
  {
  }

  // ----------------------------------------------------------------------
  // goldberg: differentials, cutoffs, symbols

  lemma CoordsInside(idx: nat, n: nat)
    requires n > 0 && idx < n * n
    ensures RowMajorCoords(idx, n).0 < n
  {
    ArrayUtil.MulCancel(RowMajorCoords(idx, n).0, n, n);
  }

  /** The differentials of grid point idx: each neighbour (the clipped 3×3
      window without the point itself) minus the point's own average. */
  function Differentials(grid: seq<seq<real>>, n: nat, idx: nat): (ds: seq<real>)
    requires IsMatrix(grid, n, n) && idx < n * n
  {
    CoordsInside(idx, n);
    TotalLengthUniform(grid, n);
    var rc := RowMajorCoords(idx, n);
    var neighbors := GetNeighbors(grid, n, n, rc.0, rc.1, -1, 1, false);
    var avg := ArrayUtil.Flatten(grid)[idx];
    seq(|neighbors|, t requires 0 <= t < |neighbors| => neighbors[t] - avg)
  }

  /** `differentialGroups`: the differentials of every grid point, in the
      row-major order of the flattened grid. */
  function DifferentialGroups(grid: seq<seq<real>>, n: nat): (groups: seq<seq<real>>)
    requires IsMatrix(grid, n, n)
    ensures |groups| == n * n
  {
    seq(n * n, idx requires 0 <= idx < n * n => Differentials(grid, n, idx))
  }

  /** The entries of s above t, in order (`_.filter(s, d => d > t)`). */
  function Above(s: seq<real>, t: real): (r: seq<real>)
    ensures forall x :: x in r <==> x in s && x > t
  {
    if |s| == 0 then []
    else Above(s[..|s| - 1], t) + (if s[|s| - 1] > t then [s[|s| - 1]] else [])
  }

  /** The entries of s below t, in order (`_.filter(s, d => d < t)`). */
  function Below(s: seq<real>, t: real): (r: seq<real>)
    ensures forall x :: x in r <==> x in s && x < t
  {
    if |s| == 0 then []
    else Below(s[..|s| - 1], t) + (if s[|s| - 1] < t then [s[|s| - 1]] else [])
  }

  /** `Above` keeps every entry above t, as often as it occurs, and no
      other; `Below` likewise below t. */
  lemma {:induction false} FiltersKeep(s: seq<real>, t: real)
    ensures forall x :: multiset(Above(s, t))[x] == if x > t then multiset(s)[x] else 0
    ensures forall x :: multiset(Below(s, t))[x] == if x < t then multiset(s)[x] else 0
  {
    if |s| > 0 {
      assert s == s[..|s| - 1] + [s[|s| - 1]];
      FiltersKeep(s[..|s| - 1], t);
    }
  }

  /** Both filters keep the order of the list: filtering a concatenation
      concatenates the filtered parts. */
  lemma {:induction false} FiltersAppend(a: seq<real>, b: seq<real>, t: real)
    ensures Above(a + b, t) == Above(a, t) + Above(b, t)
    ensures Below(a + b, t) == Below(a, t) + Below(b, t)
  {
    if |b| == 0 {
      assert a + b == a;
    } else {
      var front := b[..|b| - 1];
      assert (a + b)[..|a + b| - 1] == a + front;
      assert (a + b)[|a + b| - 1] == b[|b| - 1];
      FiltersAppend(a, front, t);
    }
  }

  /** The two cutoffs: the medians of the differentials above 2 and of
      those below -2. */
  function Cutoffs(diffs: seq<real>, sort: seq<real> -> seq<real>): (cutoffs: (Option<real>, Option<real>))
  {
    (Percentile(Above(diffs, 2.0), 50.0, sort), Percentile(Below(diffs, -2.0), 50.0, sort))
  }

  /** One group of differentials as symbols. */
  function Symbols(ds: seq<real>, cutoffs: (Option<real>, Option<real>)): (symbols: seq<int>)
    ensures |symbols| == |ds|
  {
    seq(|ds|, t requires 0 <= t < |ds| => Normalize(2.0, cutoffs.0, cutoffs.1, ds[t]))
  }

  function SymbolGroups(groups: seq<seq<real>>, cutoffs: (Option<real>, Option<real>)): (sg: seq<seq<int>>)
    ensures |sg| == |groups|
  {
    seq(|groups|, g requires 0 <= g < |groups| => Symbols(groups[g], cutoffs))
  }

  /** The signature of an n×n grid of averages: every group of
      differentials turned into symbols with the shared cutoffs, and the
      groups concatenated. */
  function SignatureOfGrid(grid: seq<seq<real>>, n: nat, sort: seq<real> -> seq<real>): (signature: seq<int>)
    requires IsMatrix(grid, n, n)
  {
    var groups := DifferentialGroups(grid, n);
    var cutoffs := Cutoffs(ArrayUtil.Flatten(groups), sort);
    ArrayUtil.Flatten(SymbolGroups(groups, cutoffs))
  }

  lemma {:induction false} SymbolsAppend(a: seq<real>, b: seq<real>, cutoffs: (Option<real>, Option<real>))
    ensures Symbols(a + b, cutoffs) == Symbols(a, cutoffs) + Symbols(b, cutoffs)
  {
  }

  /** Mapping inside the groups and then flattening is mapping the flat
      differentials. */
  lemma {:induction false} SymbolsFlatten(groups: seq<seq<real>>, cutoffs: (Option<real>, Option<real>))
    ensures ArrayUtil.Flatten(SymbolGroups(groups, cutoffs)) == Symbols(ArrayUtil.Flatten(groups), cutoffs)
  {
    if |groups| > 0 {
      assert SymbolGroups(groups, cutoffs)[1..] == SymbolGroups(groups[1..], cutoffs);
      SymbolsFlatten(groups[1..], cutoffs);
      SymbolsAppend(groups[0], ArrayUtil.Flatten(groups[1..]), cutoffs);
    }
  }

  /** Symbol k of the signature is the k-th flat differential, normalized
      with cutoffs 2 and the two medians. */
  lemma SignatureSymbols(grid: seq<seq<real>>, n: nat, sort: seq<real> -> seq<real>)
    requires IsMatrix(grid, n, n)
    ensures var diffs := ArrayUtil.Flatten(DifferentialGroups(grid, n));
      var cutoffs := Cutoffs(diffs, sort);
      var signature := SignatureOfGrid(grid, n, sort);
      |signature| == |diffs| &&
      forall k :: 0 <= k < |signature| ==>
        -2 <= signature[k] <= 2 && signature[k] == Normalize(2.0, cutoffs.0, cutoffs.1, diffs[k])
  {
    var groups := DifferentialGroups(grid, n);
    SymbolsFlatten(groups, Cutoffs(ArrayUtil.Flatten(groups), sort));
  }

  // ----------------------------------------------------------------------
  // goldberg: how many symbols

  /** How many rows lie within one step of row r on a side of n rows. */
  function Span(n: nat, r: nat): int
  {
    ArrayUtil.Min(n, r + 2) - Max(0, r - 1)
  }

  function SpanSum(n: nat, k: nat): int
  {
    if k == 0 then 0 else SpanSum(n, k - 1) + Span(n, k - 1)
  }

  /** On a side of n ≥ 2 the first and last rows have 2 rows within one
      step and the others 3, so the first k sum to 3k - 1 (3n - 2 for all). */
  lemma {:induction false} SpanSumValue(n: nat, k: nat)
    requires 2 <= n && 1 <= k <= n
    ensures SpanSum(n, k) == if k < n then 3 * k - 1 else 3 * n - 2
  {
    if k > 1 {
      SpanSumValue(n, k - 1);
    }
  }

  /** How many neighbours grid point idx of an n×n grid has. */
  function CellCount(n: nat, idx: nat): int
    requires n > 0
  {
    Span(n, idx / n) * Span(n, idx % n) - 1
  }

  /** A corner grid point has 3 neighbours, another border point 5 and an
      inner point 8. */
  lemma CellCountCases(n: nat, idx: nat)
    requires n >= 2 && idx < n * n
    ensures var r, c := idx / n, idx % n;
      var rowEdge, colEdge := r == 0 || r == n - 1, c == 0 || c == n - 1;
      CellCount(n, idx) == if rowEdge && colEdge then 3 else if rowEdge || colEdge then 5 else 8
  {
    CoordsInside(idx, n);
  }

  function CountSum(n: nat, k: nat): int
    requires n > 0
  {
    if k == 0 then 0 else CountSum(n, k - 1) + CellCount(n, k - 1)
  }

  lemma Distribute(s: int, a: int, b: int)
    ensures s * (a + b) == s * a + s * b && (a + b) * s == a * s + b * s
  {
  }

  lemma RowAndColumn(idx: nat, n: nat, r: nat, c: nat)
    requires n > 0 && c < n && idx == r * n + c
    ensures idx / n == r && idx % n == c
  {
    ArrayUtil.DivUnique(idx, n, r);
  }

  lemma {:induction false} CountRowPart(n: nat, r: nat, k: nat)
    requires n > 0 && k <= n
    ensures CountSum(n, r * n + k) == CountSum(n, r * n) + Span(n, r) * SpanSum(n, k) - k
  {
    ArrayUtil.MulMono(0, r, n);
    var start: nat := r * n;
    var s := Span(n, r);
    if k == 0 {
      assert s * SpanSum(n, 0) == 0;
    } else {
      CountRowPart(n, r, k - 1);
      var idx: nat := start + (k - 1);
      RowAndColumn(idx, n, r, k - 1);
      var a, b := SpanSum(n, k - 1), Span(n, k - 1);
      assert CountSum(n, idx) == CountSum(n, start) + s * a - (k - 1);
      assert CountSum(n, start + k) == CountSum(n, idx) + CellCount(n, idx);
      assert CellCount(n, idx) == s * b - 1;
      assert SpanSum(n, k) == a + b;
      Distribute(s, a, b);
    }
  }

  lemma {:induction false} CountRows(n: nat, r: nat)
    requires n > 0
    ensures CountSum(n, r * n) == SpanSum(n, r) * SpanSum(n, n) - r * n
  {
    if r > 0 {
      var m := (r - 1) * n;
      assert m + n == r * n;
      CountRows(n, r - 1);
      CountRowPart(n, r - 1, n);
      var t, p, q := SpanSum(n, n), SpanSum(n, r - 1), Span(n, r - 1);
      assert SpanSum(n, r) == p + q;
      Distribute(t, p, q);
    }
  }

  /** An n×n grid (n ≥ 2) has (3n - 2)² - n² neighbour pairs. */
  lemma NeighborTotal(n: nat)
    requires n >= 2
    ensures CountSum(n, n * n) == (3 * n - 2) * (3 * n - 2) - n * n
  {
    CountRows(n, n);
    SpanSumValue(n, n);
  }

  lemma GroupLength(grid: seq<seq<real>>, n: nat, idx: nat)
    requires IsMatrix(grid, n, n) && idx < n * n
    ensures |DifferentialGroups(grid, n)[idx]| == CellCount(n, idx)
  {
    CoordsInside(idx, n);
    var rc := RowMajorCoords(idx, n);
    var win, cells := GetNeighborsCount(grid, n, n, rc.0, rc.1, -1, 1);
    DifferentialsLength(grid, n, idx);
    WindowCells(n, idx, win);
    assert DifferentialGroups(grid, n)[idx] == Differentials(grid, n, idx);
  }

  /** One differential per neighbour. */
  lemma DifferentialsLength(grid: seq<seq<real>>, n: nat, idx: nat)
    requires IsMatrix(grid, n, n) && idx < n * n
    ensures RowMajorCoords(idx, n).0 < n
    ensures |Differentials(grid, n, idx)|
         == |GetNeighbors(grid, n, n, RowMajorCoords(idx, n).0, RowMajorCoords(idx, n).1, -1, 1, false)|
  {
    CoordsInside(idx, n);
  }

  /** The clipped 3×3 window around grid point idx has one cell more than
      the point has neighbours. */
  lemma WindowCells(n: nat, idx: nat, win: Window)
    requires n > 0 && idx < n * n
    requires RowMajorCoords(idx, n).0 < n
    requires win == ClippedWindow(n, n, RowMajorCoords(idx, n).0, RowMajorCoords(idx, n).1, -1, 1)
    ensures (win.r1 - win.r0) * (win.c1 - win.c0) == CellCount(n, idx) + 1
  {
    var rc := RowMajorCoords(idx, n);
    ProductOfEquals(win.r1 - win.r0, win.c1 - win.c0, Span(n, rc.0), Span(n, rc.1));
  }

  lemma ProductOfEquals(a: int, b: int, c: int, d: int)
    requires a == c && b == d
    ensures a * b == c * d
  {
  }

  lemma {:induction false} GroupsTotal(grid: seq<seq<real>>, n: nat, k: nat)
    requires IsMatrix(grid, n, n) && n > 0 && k <= n * n
    ensures ArrayUtil.TotalLength(DifferentialGroups(grid, n)[..k]) == CountSum(n, k)
  {
    if k > 0 {
      var groups := DifferentialGroups(grid, n);
      GroupsTotal(grid, n, k - 1);
      GroupLength(grid, n, k - 1);
      ArrayUtil.TotalLengthSnoc(groups, k);
    }
  }

  /** An n×n grid (n ≥ 2) yields (3n - 2)² - n² symbols, whatever its
      averages: 544 for the 9×9 grid of goldberg. */
  lemma SignatureLength(grid: seq<seq<real>>, n: nat, sort: seq<real> -> seq<real>)
    requires IsMatrix(grid, n, n) && n >= 2
    ensures |SignatureOfGrid(grid, n, sort)| == (3 * n - 2) * (3 * n - 2) - n * n
  {
    SignatureSymbols(grid, n, sort);
    var groups := DifferentialGroups(grid, n);
    GroupsTotal(grid, n, n * n);
    assert groups[..n * n] == groups;
    NeighborTotal(n);
  }

  // ----------------------------------------------------------------------
  // goldberg: what the symbols mean

  /** For a sort that rearranges its input: the positive cutoff exists
      exactly when some differential exceeds 2, and then exceeds 2 itself;
      the negative one likewise below -2. A null cutoff is therefore never
      compared with. */
  lemma CutoffsBeyondBand(diffs: seq<real>, sort: seq<real> -> seq<real>)
    requires Rearranges(sort)
    ensures Cutoffs(diffs, sort).0.Some? <==> exists d :: d in diffs && d > 2.0
    ensures Cutoffs(diffs, sort).0.Some? ==> Cutoffs(diffs, sort).0.value > 2.0
    ensures Cutoffs(diffs, sort).1.Some? <==> exists d :: d in diffs && d < -2.0
    ensures Cutoffs(diffs, sort).1.Some? ==> Cutoffs(diffs, sort).1.value < -2.0
  {
    var positive := Above(diffs, 2.0);
    var sortedPositive := sort(positive);
    assert multiset(sortedPositive) == multiset(positive);
    assert |sortedPositive| == |multiset(sortedPositive)| == |positive|;
    Median(sortedPositive);
    forall k | 0 <= k < |sortedPositive| ensures sortedPositive[k] > 2.0 {
      assert sortedPositive[k] in multiset(positive);
      assert sortedPositive[k] in positive;
    }
    PercentileAbove(sortedPositive, 50.0, 2.0);
    if |positive| > 0 {
      assert positive[0] in diffs;
    }

    var negative := Below(diffs, -2.0);
    var sortedNegative := sort(negative);
    assert multiset(sortedNegative) == multiset(negative);
    assert |sortedNegative| == |multiset(sortedNegative)| == |negative|;
    Median(sortedNegative);
    forall k | 0 <= k < |sortedNegative| ensures sortedNegative[k] < -2.0 {
      assert sortedNegative[k] in multiset(negative);
      assert sortedNegative[k] in negative;
    }
    PercentileBelow(sortedNegative, 50.0, -2.0);
    if |negative| > 0 {
      assert negative[0] in diffs;
    }
  }

  /** Symbol k is 0 for a differential within [-2, 2], its sign is the
      differential's sign beyond that band, and its magnitude is 2 exactly
      when the differential is also beyond the median of its side. */
  lemma SignatureMeaning(grid: seq<seq<real>>, n: nat, sort: seq<real> -> seq<real>, k: nat)
    requires IsMatrix(grid, n, n) && n >= 2 && Rearranges(sort)
    requires k < (3 * n - 2) * (3 * n - 2) - n * n
    ensures k < |SignatureOfGrid(grid, n, sort)|
    ensures var diffs := ArrayUtil.Flatten(DifferentialGroups(grid, n));
      var cutoffs := Cutoffs(diffs, sort);
      var symbol := SignatureOfGrid(grid, n, sort)[k];
      k < |diffs| &&
      (symbol == 0 <==> -2.0 <= diffs[k] <= 2.0) &&
      (symbol < 0 <==> diffs[k] < -2.0) &&
      (symbol > 0 <==> diffs[k] > 2.0) &&
      (diffs[k] > 2.0 ==> cutoffs.0.Some? && cutoffs.0.value > 2.0 && (symbol == 2 <==> diffs[k] > cutoffs.0.value)) &&
      (diffs[k] < -2.0 ==> cutoffs.1.Some? && cutoffs.1.value < -2.0 && (symbol == -2 <==> diffs[k] < cutoffs.1.value))
  {
    var diffs := ArrayUtil.Flatten(DifferentialGroups(grid, n));
    var cutoffs := Cutoffs(diffs, sort);
    SignatureLength(grid, n, sort);
    SignatureSymbols(grid, n, sort);
    CutoffsBeyondBand(diffs, sort);
    assert diffs[k] in diffs;
    NormalizeMeaning(2.0, cutoffs.0, cutoffs.1, diffs[k]);
  }

  lemma FlatDifferentials(grid: seq<seq<real>>, n: nat, v: real, idx: nat)
    requires IsMatrix(grid, n, n) && idx < n * n
    requires forall i, j :: 0 <= i < n && 0 <= j < n ==> grid[i][j] == v
    ensures forall t :: 0 <= t < |Differentials(grid, n, idx)| ==> Differentials(grid, n, idx)[t] == 0.0
  {
    CoordsInside(idx, n);
    var rc := RowMajorCoords(idx, n);
    RowMajorCoordsInverse(grid, n, n, idx);
    var neighbors := GetNeighbors(grid, n, n, rc.0, rc.1, -1, 1, false);
    forall t | 0 <= t < |neighbors| ensures neighbors[t] == v {
      var i, j := NeighborMember(grid, n, n, rc.0, rc.1, -1, 1, neighbors[t]);
    }
  }

  /** A flat grid, where every average is the same, gives only 0 symbols. */
  lemma FlatGridSignature(grid: seq<seq<real>>, n: nat, sort: seq<real> -> seq<real>, v: real)
    requires IsMatrix(grid, n, n)
    requires forall i, j :: 0 <= i < n && 0 <= j < n ==> grid[i][j] == v
    ensures forall k :: 0 <= k < |SignatureOfGrid(grid, n, sort)| ==> SignatureOfGrid(grid, n, sort)[k] == 0
  {
    var groups := DifferentialGroups(grid, n);
    var diffs := ArrayUtil.Flatten(groups);
    var cutoffs := Cutoffs(diffs, sort);
    SignatureSymbols(grid, n, sort);
    forall k | 0 <= k < |diffs| ensures diffs[k] == 0.0 {
      ArrayUtil.FlattenMember(groups, diffs[k]);
      var idx :| 0 <= idx < |groups| && diffs[k] in groups[idx];
      FlatDifferentials(grid, n, v, idx);
    }
  }

  // ----------------------------------------------------------------------
  // goldberg

  lemma GrayCount(rgba: seq<int>, pixels: nat)
    requires |rgba| == pixels * 4
    ensures |GrayscaleOf(rgba)| == pixels
  {
    ArrayUtil.DivUnique(pixels * 4 + 3, 4, pixels);
  }

  /** The crop is a non-empty rectangle. */
  lemma CroppedShape(gray: seq<seq<int>>, h: nat, w: nat, lowerPct: int, upperPct: int)
    requires IsMatrix(gray, h, w) && h > 0 && w > 0
    requires 0 <= lowerPct <= upperPct <= 100
    ensures var crop := CroppedOf(gray, h, w, lowerPct, upperPct);
      |crop| > 0 && |crop[0]| > 0 && IsMatrix(crop, |crop|, |crop[0]|)
  {
    var win := ActivityWindow(gray, h, w, lowerPct, upperPct);
    SubRowsWindow(gray, h, w, win);
  }

  /** `goldberg(image, imageData)` on h×w RGBA bytes: greyscale, crop to
      the 10th..90th percentile of activity, average the squares around a
      9×9 grid and encode every neighbour differential as a symbol. */
  function GoldbergOf(rgba: seq<int>, h: nat, w: nat, sort: seq<real> -> seq<real>): (signature: seq<int>)
    requires |rgba| == h * w * 4 && h > 0 && w > 0
  {
    GrayCount(rgba, h * w);
    SignatureOfImage(Reshape(GrayscaleOf(rgba), h, w), h, w, sort)
  }

  /** The steps of `goldberg` after the greyscale: crop to the 10th-90th
      percentile of activity, average a 10×10 grid, and sign the grid. */
  function SignatureOfImage(img: seq<seq<int>>, h: nat, w: nat, sort: seq<real> -> seq<real>): (signature: seq<int>)
    requires IsMatrix(img, h, w) && h > 0 && w > 0
  {
    CroppedShape(img, h, w, 10, 90);
    var crop := CroppedOf(img, h, w, 10, 90);
    SignatureOfGrid(GridAverages(crop, |crop|, |crop[0]|, 10, 10), 9, sort)
  }

  /** `goldberg` as the source runs it: the greyscale by the sliding loop,
      the crop by the sum, cumsum and search loops. */
  method Goldberg(rgba: seq<int>, h: nat, w: nat, sort: seq<real> -> seq<real>) returns (signature: seq<int>)
    requires |rgba| == h * w * 4 && h > 0 && w > 0
    ensures signature == GoldbergOf(rgba, h, w, sort)
  {
    var gray := Grayscale(rgba);
    GrayCount(rgba, h * w);
    var reshaped := Reshape(gray, h, w);
    var cropped := AutoCrop(reshaped, h, w, 10, 90);
    CroppedShape(reshaped, h, w, 10, 90);
    var gridAverages := GridAverages(cropped, |cropped|, |cropped[0]|, 10, 10);
    signature := SignatureOfGrid(gridAverages, 9, sort);
  }

  /** Every image gives exactly 544 symbols, each in -2..2. */
  lemma GoldbergShape(rgba: seq<int>, h: nat, w: nat, sort: seq<real> -> seq<real>)
    requires |rgba| == h * w * 4 && h > 0 && w > 0
    ensures |GoldbergOf(rgba, h, w, sort)| == 544
    ensures forall k :: 0 <= k < 544 ==> -2 <= GoldbergOf(rgba, h, w, sort)[k] <= 2
  {
    GrayCount(rgba, h * w);
    var img := Reshape(GrayscaleOf(rgba), h, w);
    CroppedShape(img, h, w, 10, 90);
    var crop := CroppedOf(img, h, w, 10, 90);
    var grid := GridAverages(crop, |crop|, |crop[0]|, 10, 10);
    SignatureLength(grid, 9, sort);
    SignatureSymbols(grid, 9, sort);
  }

  /** An image whose pixels all have the same colour gives only 0 symbols. */
  lemma GoldbergFlatImage(rgba: seq<int>, h: nat, w: nat, sort: seq<real> -> seq<real>)
    requires |rgba| == h * w * 4 && h > 0 && w > 0
    requires forall k :: 0 <= k < |rgba| ==> rgba[k] == rgba[k % 4]
    ensures forall k :: 0 <= k < |GoldbergOf(rgba, h, w, sort)| ==> GoldbergOf(rgba, h, w, sort)[k] == 0
  {
    FlatImage(rgba, h, w);
    FlatSignature(Reshape(GrayscaleOf(rgba), h, w), h, w, sort, Round((rgba[0] + rgba[1] + rgba[2]) as real / 3.0));
  }

  /** A one-colour image greys to a one-grey matrix. */
  lemma FlatImage(rgba: seq<int>, h: nat, w: nat)
    requires |rgba| == h * w * 4 && h > 0 && w > 0
    requires forall k :: 0 <= k < |rgba| ==> rgba[k] == rgba[k % 4]
    ensures |GrayscaleOf(rgba)| == h * w && |rgba| >= 4
    ensures forall i, j :: 0 <= i < h && 0 <= j < w ==>
      Reshape(GrayscaleOf(rgba), h, w)[i][j] == Round((rgba[0] + rgba[1] + rgba[2]) as real / 3.0)
  {
    ArrayUtil.MulMono(1, h * w, 4);
    var g := Round((rgba[0] + rgba[1] + rgba[2]) as real / 3.0);
    GrayCount(rgba, h * w);
    FlatGray(rgba, h * w);
    FlatReshape(GrayscaleOf(rgba), h, w, g);
  }

  lemma FlatReshape(flat: seq<int>, h: nat, w: nat, g: int)
    requires |flat| == h * w
    requires forall p :: 0 <= p < |flat| ==> flat[p] == g
    ensures forall i, j :: 0 <= i < h && 0 <= j < w ==> Reshape(flat, h, w)[i][j] == g
  {
    forall i, j | 0 <= i < h && 0 <= j < w ensures Reshape(flat, h, w)[i][j] == g {
      ReshapeAt(flat, h, w, i, j);
    }
  }

  /** A one-grey matrix crops to a one-grey matrix, whose grid is uniform
      and whose signature is all zeros. */
  lemma FlatSignature(img: seq<seq<int>>, h: nat, w: nat, sort: seq<real> -> seq<real>, g: int)
    requires IsMatrix(img, h, w) && h > 0 && w > 0
    requires forall i, j :: 0 <= i < h && 0 <= j < w ==> img[i][j] == g
    ensures forall k :: 0 <= k < |SignatureOfImage(img, h, w, sort)| ==> SignatureOfImage(img, h, w, sort)[k] == 0
  {
    CropOfFlat(img, h, w, g);
    FlatGridOfCrop(CroppedOf(img, h, w, 10, 90), sort, g);
  }

  lemma FlatGridOfCrop(crop: seq<seq<int>>, sort: seq<real> -> seq<real>, g: int)
    requires |crop| > 0 && |crop[0]| > 0 && IsMatrix(crop, |crop|, |crop[0]|)
    requires forall i, j :: 0 <= i < |crop| && 0 <= j < |crop[0]| ==> g <= crop[i][j] <= g
    ensures var grid := GridAverages(crop, |crop|, |crop[0]|, 10, 10);
      forall k :: 0 <= k < |SignatureOfGrid(grid, 9, sort)| ==> SignatureOfGrid(grid, 9, sort)[k] == 0
  {
    GridWithin(crop, |crop|, |crop[0]|, 10, 10, g, g);
    FlatGridSignature(GridAverages(crop, |crop|, |crop[0]|, 10, 10), 9, sort, g as real);
  }

  lemma CropOfFlat(img: seq<seq<int>>, h: nat, w: nat, g: int)
    requires IsMatrix(img, h, w) && h > 0 && w > 0
    requires forall i, j :: 0 <= i < h && 0 <= j < w ==> img[i][j] == g
    ensures var crop := CroppedOf(img, h, w, 10, 90);
      |crop| > 0 && |crop[0]| > 0 && IsMatrix(crop, |crop|, |crop[0]|) &&
      forall i, j :: 0 <= i < |crop| && 0 <= j < |crop[0]| ==> g <= crop[i][j] <= g
  {
    var win := ActivityWindow(img, h, w, 10, 90);
    FlatSubRows(img, h, w, win, g);
  }

  lemma FlatSubRows(img: seq<seq<int>>, h: nat, w: nat, win: Window, g: int)
    requires IsMatrix(img, h, w) && win.r0 < win.r1 <= h && win.c0 < win.c1 <= w
    requires forall i, j :: 0 <= i < h && 0 <= j < w ==> img[i][j] == g
    ensures var crop := SubRows(img, win.r0, win.r1, win.c0, win.c1);
      |crop| > 0 && |crop[0]| > 0 && IsMatrix(crop, |crop|, |crop[0]|) &&
      forall i, j :: 0 <= i < |crop| && 0 <= j < |crop[0]| ==> g <= crop[i][j] <= g
  {
    SubRowsWindow(img, h, w, win);
  }

  lemma FlatGray(rgba: seq<int>, pixels: nat)
    requires |rgba| == pixels * 4
    requires forall k :: 0 <= k < |rgba| ==> rgba[k] == rgba[k % 4]
    ensures forall p :: 0 <= p < |GrayscaleOf(rgba)| ==>
      GrayscaleOf(rgba)[p] == Round((rgba[0] + rgba[1] + rgba[2]) as real / 3.0)
  {
    GrayCount(rgba, pixels);
    GrayscalePixels(rgba);
    var gray := GrayscaleOf(rgba);
    forall p | 0 <= p < |gray|
      ensures gray[p] == Round((rgba[0] + rgba[1] + rgba[2]) as real / 3.0)
    {
      ChannelOf(p, 0);
      ChannelOf(p, 1);
      ChannelOf(p, 2);
    }
  }

  /** Byte `4 * p + ch` of an RGBA buffer is channel `ch` of pixel `p`. */
  lemma ChannelOf(p: nat, ch: nat)
    requires ch < 4
    ensures (4 * p + ch) % 4 == ch
  {
  }
}

