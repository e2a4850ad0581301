# Image signatures and query scoring of image-algo-testing

This project is a Dafny model of the computational core of image-algo-testing.
That repository benchmarks perceptual image signatures for reverse image search.
It turns an image into a numeric vector, stores the vectors in a vector index,
and then scores how well each signature finds altered copies of an image.

The model covers the following parts:

- **Goldberg signature** (`image_signature.dfy`). The RGBA image is turned
  grey: each pixel gets the rounded mean of R, G and B. The grey image is
  cropped to the band that holds 10 %–90 % of its cumulative row and column
  activity. A 10×10 grid is laid over the crop, and each of the 81 grid points
  gets the mean of a P×P square around it. Each grid point is then compared
  with its up-to-8 neighbours. Each differential becomes a symbol in −2..2: the
  equal band is ±2, and the "much lighter" and "much darker" cutoffs are the
  medians of the differentials beyond that band.
- **numjs helpers** (`nj_util.dfy`): `diff`, `sum`, `cumsum`, `searchsorted`,
  `vectorize`, `getNeighbors`, `percentile` and `clip`, on exact integers and
  reals. Matrices are `seq<seq<_>>` with an explicit height and width. The
  numjs `reshape` and `get` calls that the core relies on are modelled here as
  well.
- **Array helpers** (`array_util.dfy`): `flatMap`, `flatten`, `sliding` and
  `scanLeft`.
- **DCT index plumbing** (`dct.dfy`): `toMatrix`, `getTopLeft`,
  `diagonalSnake`, and the `dct1024Image` pipeline from the greyscale buffer
  onward.
- **Shared helpers** (`common.dfy`): the alpha-weighted `toGreyscale`, over a
  `Uint8Array` of ⌊n/4⌋ entries; `average`; and `getQuantile`.
- **Perceptual hash** (`phash.dfy`): `average`, `reduceToBinary` and
  `pHash1024`.
- **Query scoring** (`query_matching.dfy`, `benchmark.dfy`): `pctTrue`,
  `correctScore`, `highestIncorrectScore` and `countMatchesOver`. The
  per-variant accumulators that the two `query` closures push into are classes
  whose `Query` method appends exactly what the source pushes.

Some helpers in `index.js` are repeated copies of shared code, so they have no
model of their own:

- `average` and `getQuantile` (index.js:21-29) are the same code as
  src/common.js:43-51 and are modelled by `Common.Average` and
  `Common.GetQuantile`.
- `correctPct` (index.js:31-34) is the same code as `pctTrue` and is modelled
  by `QueryMatching.PctTrue`.

The model follows these conventions for JavaScript values:

- **NaN and missing values.** A NaN from 0/0, a `null` and an `undefined` array
  read are all modelled as `Option.None`.
- **Rounding.** `Math.round(x)` is ⌊x + ½⌋.
- **Truthiness.** A score is truthy when it is present and non-zero.
- **Null in comparisons.** A `null` cutoff compared with `<` or `>` behaves
  as 0. The JavaScript expression `1 > null` is true, so a null cutoff does not
  make every comparison false. The model follows the code here, and
  `ImageSignature.CutoffsBeyondBand` shows that a null cutoff is never the one
  consulted.
- **Signature length.** The signature of an n×n grid always has
  (3n−2)² − n² symbols, whatever the image, which is 544 for the 9×9 grid.
  This is a fixed number rather than one that varies from image to image, and
  it is the 544 that names the vector indexes (index.js:231-235).

## Model

| member | source | states |
|---|---|---|
| Numeric.Round | src/image-signature-js/image_signature.js:52 | `Math.round`: the result is within ½ of x, with halves rounded up |
| ArrayUtil.Flatten | src/image-signature-js/array_util.js:9 | the length of the flattened array is the sum of the inner lengths |
| ArrayUtil.FlattenAppend | src/image-signature-js/array_util.js:9 | flattening distributes over concatenation of the outer array |
| ArrayUtil.FlattenAt | src/image-signature-js/array_util.js:9 | entry j of inner array i sits at offset (total length before i) + j, so order is kept |
| ArrayUtil.FlattenMember | src/image-signature-js/array_util.js:9 | x is in the flattened array iff it is in one of the inner arrays |
| ArrayUtil.FlatMap | src/image-signature-js/array_util.js:5-7 | y is in `flatMap(arr, f)` iff it is in f(x) for some element x of arr |
| ArrayUtil.FlatMapAppend | src/image-signature-js/array_util.js:5-7 | flatMap over a concatenation is the concatenation of the flatMaps |
| ArrayUtil.FlatMapOne | src/image-signature-js/array_util.js:5-7 | flatMap over one element is that element's image |
| ArrayUtil.GroupCountBounds | src/image-signature-js/array_util.js:13 | the loop runs ⌈n/increment⌉ times: count·inc ≤ n+inc−1 < (count+1)·inc |
| ArrayUtil.GroupStartsInside | src/image-signature-js/array_util.js:13-14 | every group the loop starts begins at an index inside the array |
| ArrayUtil.Windows | src/image-signature-js/array_util.js:11-18 | one window per loop step, each at most `groupSize` long and non-empty when `groupSize` > 0 |
| ArrayUtil.Sliding | src/image-signature-js/array_util.js:11-18 | the loop's result is exactly the windows arr[k·inc .. min(k·inc+g, n)) for every start below n |
| ArrayUtil.PixelWindows | src/image-signature-js/array_util.js:11-18 | on whole RGBA pixels, `sliding(arr, 3, 4)` gives one window per pixel holding its R, G and B |
| ArrayUtil.WindowsStep | src/image-signature-js/array_util.js:11-18 | windows as wide as their stride are the first window followed by the windows of the rest |
| ArrayUtil.WindowsSingle | src/image-signature-js/array_util.js:11-18 | an array no longer than the group size is a single window |
| ArrayUtil.TilingWindowsFlatten | src/image-signature-js/array_util.js:11-18 | windows as wide as their stride tile the array: flattening them gives it back |
| ArrayUtil.ScanLeft | src/image-signature-js/array_util.js:21-29 | the result starts with `initial`, has one more entry than arr, and each entry is op(previous, arr[k]) |
| ArrayUtil.ScanPlusIsPrefixSums | src/image-signature-js/array_util.js:21-29 | a + scan from 0 holds the exclusive prefix sums and ends with the total |
| NjUtil.DiffOnce | src/image-signature-js/nj_util.js:24-29 | a first difference drops one row (axis 0) or one column (axis 1), never below 0 |
| NjUtil.DiffN | src/image-signature-js/nj_util.js:9-31 | the n-th difference along one axis (numpy's `diff`) has n fewer rows or columns |
| NjUtil.DiffLowOrders | src/image-signature-js/nj_util.js:12-29 | order 0 returns the array, a negative order is an error, and order 1 gives entries a[i+1][j]−a[i][j] (axis 0) or a[i][j+1]−a[i][j] (axis 1) |
| NjUtil.Diff | src/image-signature-js/nj_util.js:9-31 | fails iff the order is negative, returns the array unchanged for order 0, and the first difference along the axis for order 1 |
| NjUtil.DiffSecondOrderAsWritten | src/image-signature-js/nj_util.js:26-27 | as written, order 2 on [[0],[1],[3]] along axis 0 gives two empty rows instead of [[1]] |
| NjUtil.DiffNSecondOrder | src/image-signature-js/nj_util.js:9-31 | the intended second difference has h−2 rows with entries a[i+2][j] − 2a[i+1][j] + a[i][j] |
| NjUtil.DiffTelescopes | src/image-signature-js/nj_util.js:29 | the first differences of a row add up to its last entry minus its first |
| NjUtil.Vectorize | src/image-signature-js/nj_util.js:115-117 | mapping every entry keeps the shape |
| NjUtil.VectorizeCompose | src/image-signature-js/nj_util.js:115-117 | vectorizing twice is vectorizing the composed function |
| NjUtil.AxisSums | src/image-signature-js/nj_util.js:46-57 | the sum along an axis has one entry per remaining row or column |
| NjUtil.AxisSumsMeaning | src/image-signature-js/nj_util.js:46-57 | summing along axis 1 gives each row's sum, and along axis 0 each column's sum |
| NjUtil.FiberStep | src/image-signature-js/nj_util.js:51-56 | adding slice i to the running sum extends every fibre's sum by its i-th entry (the loop invariant) |
| NjUtil.AddVectors | src/image-signature-js/nj_util.js:55 | `sumSlice.add(row)` adds entrywise and keeps the length |
| NjUtil.FlattenSum | src/image-signature-js/nj_util.js:34-35 | the sum of the flattened matrix is the sum of its row sums |
| NjUtil.SumAllIsSumOfRowSums | src/image-signature-js/nj_util.js:34-35 | `sum(a)` with no axis equals the total of `sum(a, 1)` |
| NjUtil.SumAll | src/image-signature-js/nj_util.js:33-35 | the sum of the flattened matrix equals the sum of its row sums |
| NjUtil.Sum | src/image-signature-js/nj_util.js:33-59 | the slice-by-slice loop returns the sums along the axis |
| NjUtil.PrefixSums | src/image-signature-js/nj_util.js:73-75 | inclusive prefix sums keep the length |
| NjUtil.RunningSums | src/image-signature-js/nj_util.js:43-45 | the 1-D branch (shared by `sum` and `cumsum` at 73-75) returns the inclusive prefix sums: the scan without its leading 0 |
| NjUtil.PrefixSumsOfNonNegative | src/image-signature-js/nj_util.js:73-75 | prefix sums of non-negative entries are non-negative, ascending and end with the total |
| NjUtil.PrefixSumsStep | src/image-signature-js/nj_util.js:73-75 | with non-negative entries a longer prefix never has a smaller sum |
| NjUtil.DiffOfPrefixSums | src/image-signature-js/nj_util.js:73-75 | diff undoes cumsum: the first differences of the prefix sums are the entries after the first |
| NjUtil.CumsumFlat | src/image-signature-js/nj_util.js:64-66 | `cumsum(a)` with no axis is the prefix sums of the flattened array |
| NjUtil.AxisPrefixSums | src/image-signature-js/nj_util.js:77-93 | the cumulative sum along an axis keeps the shape |
| NjUtil.AxisPrefixSumsMeaning | src/image-signature-js/nj_util.js:77-93 | entry (i, j) is the prefix sum of row i up to j (axis 1) or of column j up to i (axis 0) |
| NjUtil.Transpose | src/image-signature-js/nj_util.js:90-93 | the transpose swaps the shape and entry (i, j) is entry (j, i) |
| NjUtil.StackedPartialSums | src/image-signature-js/nj_util.js:79-93 | the stacked running sums are the cumulative sums for axis 0, and their transpose is for axis 1 |
| NjUtil.CumsumAxis | src/image-signature-js/nj_util.js:63-95 | the loop with push and transpose returns the cumulative sums along the axis |
| NjUtil.Search | src/image-signature-js/nj_util.js:98-113 | the binary search answers an index in [m, n+1] |
| NjUtil.SearchSorted | src/image-signature-js/nj_util.js:98-113 | the while loop computes the recursive binary search |
| NjUtil.SearchWindow | src/image-signature-js/nj_util.js:98-113 | if everything before m is below v and everything after n above it, the search returns an index where v sits or belongs |
| NjUtil.SearchSortedCorrect | src/image-signature-js/nj_util.js:98-113 | on a sorted array the result is an index holding v, or the insertion point (all before it below v, all from it above v) |
| NjUtil.SearchSortedMonotone | src/image-signature-js/nj_util.js:98-113 | a larger value never gets a smaller index, and a value up to the last entry gets an index in range |
| NjUtil.Clip | src/image-signature-js/nj_util.js:204-212 | the result lies in [start, end], is the value itself inside the range, and otherwise the nearer bound |
| NjUtil.ClipIdempotent | src/image-signature-js/nj_util.js:204-212 | clipping twice is clipping once |
| NjUtil.SubRows | src/image-signature-js/nj_util.js:127 | the 2-D slice has the sliced shape and entry (i, j) is a[r0+i][c0+j] |
| NjUtil.BlockLength | src/image-signature-js/nj_util.js:127 | a flattened slice has (r1−r0)·(c1−c0) entries |
| NjUtil.BlockAt | src/image-signature-js/nj_util.js:127 | entry k of a flattened slice is a[r0 + k div width][c0 + k mod width] |
| NjUtil.BlockSplitRows | src/image-signature-js/nj_util.js:127 | a slice split between two rows flattens to the concatenation of the parts |
| NjUtil.BlockOneRow | src/image-signature-js/nj_util.js:127 | a one-row slice is that row's segment |
| NjUtil.BlockMember | src/image-signature-js/nj_util.js:127 | anything in a flattened slice is an entry a[i][j] inside the slice |
| NjUtil.ClippedWindow | src/image-signature-js/nj_util.js:121-126 | the clipped row and column bounds contain (r, c), stay inside the matrix and are max(0, r+lo) .. min(h, r+up+1) |
| NjUtil.WindowSplit | src/image-signature-js/nj_util.js:130-151 | the window flattens to upper part, left part, self, right part and lower part, in that order |
| NjUtil.GetNeighborsSelf | src/image-signature-js/nj_util.js:120-154 | the neighbours with self are the neighbours without self plus the centre, as a multiset |
| NjUtil.GetNeighborsCount | src/image-signature-js/nj_util.js:120-154 | with self there are as many values as window cells, without self one fewer |
| NjUtil.GetNeighborsPositions | src/image-signature-js/nj_util.js:135-151 | every position read without self lies in the clipped window and is not (r, c) |
| NjUtil.NeighborMember | src/image-signature-js/nj_util.js:135-151 | every neighbour value is the entry at some window position other than (r, c) |
| NjUtil.Get | src/image-signature-js/nj_util.js:166-175 | a numjs read is defined iff −n ≤ i < n, and a negative index counts from the end |
| NjUtil.PercentileInterpolates | src/image-signature-js/nj_util.js:172-184 | at a fractional rank inside the array the result interpolates the two entries around it |
| NjUtil.InterpolateBetween | src/image-signature-js/nj_util.js:183 | interpolation with a fraction in [0, 1] stays within bounds holding both ends |
| NjUtil.PercentileWithin | src/image-signature-js/nj_util.js:162-187 | a percentile of values in [lo, hi] is in [lo, hi] |
| NjUtil.Median | src/image-signature-js/nj_util.js:162-187 | the 50th percentile is null iff the array is empty, the middle entry for an odd length, and the mean of the two middle entries for an even length |
| NjUtil.PercentileAbove | src/image-signature-js/nj_util.js:162-187 | a percentile of values above t is above t |
| NjUtil.PercentileBelow | src/image-signature-js/nj_util.js:162-187 | a percentile of values below t is below t |
| NjUtil.RankInside | src/image-signature-js/nj_util.js:164 | for n > 0 values and 0 < q < 100 the rank q/100·(n+1)−1 lies strictly between −1 and n |
| NjUtil.Interpolate | src/image-signature-js/nj_util.js:183 | fraction 0 gives the lower value and fraction 1 the upper value |
| NjUtil.PercentileOf | src/image-signature-js/nj_util.js:164-186 | null for an empty sorted array, and a value for a non-empty one when 0 < q < 100 |
| NjUtil.Percentile | src/image-signature-js/nj_util.js:162-187 | with a sort that rearranges its input: null for an empty array, a value for a non-empty one when 0 < q < 100 |
| NjUtil.Reshape | src/image-signature-js/image_signature.js:20 | numjs `reshape(h, w)` of h·w values is an h×w matrix |
| NjUtil.ReshapeAt | src/image-signature-js/image_signature.js:20 | entry (i, j) of the reshaped matrix is flat[i·w + j] |
| NjUtil.ReshapeFlatten | src/image-signature-js/image_signature.js:20 | flattening a reshaped array gives the array back |
| NjUtil.ReshapeRows | src/image-signature-js/image_signature.js:97 | any matrix whose rows are the consecutive w-slices is the reshape |
| ImageSignature.ReduceFromSum | src/image-signature-js/image_signature.js:127-132 | the reduce that adds and divides on the last element ends with sum / length |
| ImageSignature.Average | src/image-signature-js/image_signature.js:127-132 | `average` is the arithmetic mean (sum over length), and 0 for an empty array |
| ImageSignature.GrayscaleOf | src/image-signature-js/image_signature.js:49-53 | one grey value per started pixel: ⌈n/4⌉ values |
| ImageSignature.Grayscale | src/image-signature-js/image_signature.js:49-53 | the sliding/average/round pipeline computes the grey values |
| ImageSignature.GrayscalePixels | src/image-signature-js/image_signature.js:49-53 | on whole pixels grey k is round((R+G+B)/3) and bytes stay bytes |
| ImageSignature.ActivityAscending | src/image-signature-js/image_signature.js:57-59 | the row and column activity profiles are non-negative and ascending |
| ImageSignature.AxisSumsNonNegative | src/image-signature-js/image_signature.js:57-59 | sums of absolute differences are non-negative |
| ImageSignature.CropLimitsInRange | src/image-signature-js/image_signature.js:61-68 | the limits are ordered indices of the profile, each the search position of total·pct/100 |
| ImageSignature.CropLimits | src/image-signature-js/image_signature.js:61-68 | both search results are at most the profile length |
| ImageSignature.LimitsOfTargets | src/image-signature-js/image_signature.js:63-68 | searching an ascending profile for two targets not above its total gives ordered positions inside it, each a correct search result |
| ImageSignature.SearchLimits | src/image-signature-js/image_signature.js:61-68 | the four searches compute the crop limits |
| ImageSignature.CropWindowInside | src/image-signature-js/image_signature.js:64-70 | the crop window is non-empty and inside the row and column ranges |
| ImageSignature.CropWindowFits | src/image-signature-js/image_signature.js:70 | the crop window fits the image |
| ImageSignature.CroppedRectangle | src/image-signature-js/image_signature.js:70 | the crop is the sub-matrix of the window, entry by entry |
| ImageSignature.AutoCrop | src/image-signature-js/image_signature.js:55-71 | `autoCrop` returns the crop of the activity window |
| ImageSignature.ActivityProfiles | src/image-signature-js/image_signature.js:55-59 | the diff, abs, sum and cumsum loops compute the row and the column activity profiles |
| ImageSignature.ActivityWindow | src/image-signature-js/image_signature.js:61-70 | the window kept by `autoCrop` is a non-empty rectangle inside the image |
| ImageSignature.Ceil | src/image-signature-js/image_signature.js:81 | `Math.ceil`: the least integer not below x |
| ImageSignature.Range | src/image-signature-js/image_signature.js:85-88 | underscore `range(start, stop, step)`: ⌈(stop−start)/step⌉ values start + k·step (none if negative) |
| ImageSignature.RangeCount | src/image-signature-js/image_signature.js:85-88 | with step len/nb, the range from step to len − step/2 has nb−1 entries |
| ImageSignature.GridLineValue | src/image-signature-js/image_signature.js:85-88 | floor of line k is ⌊(k+1)·len/nb⌋ |
| ImageSignature.GridLineAt | src/image-signature-js/image_signature.js:85-88 | grid line k, for k < nb−1, exists and is ⌊(k+1)·len/nb⌋ |
| ImageSignature.GridLinesExact | src/image-signature-js/image_signature.js:85-88 | the grid lines are exactly (k+1)·len div nb for k < nb−1, all inside the image |
| ImageSignature.GridLinesFit | src/image-signature-js/image_signature.js:85-88 | there are nb−1 grid lines, all valid indices |
| ImageSignature.SquareSide | src/image-signature-js/image_signature.js:79 | the square side P is at least 2 |
| ImageSignature.SquareOffsetsSpan | src/image-signature-js/image_signature.js:81-82 | lowerOffset ≤ 0 ≤ upperOffset and the square spans exactly P cells |
| ImageSignature.PairRow | src/image-signature-js/image_signature.js:137-140 | pairing x with every y gives one pair per y |
| ImageSignature.CartesianEntry | src/image-signature-js/image_signature.js:135-143 | the product has |xs|·|ys| pairs, pair k being (xs[k div |ys|], ys[k mod |ys|]) |
| ImageSignature.CartesianAt | src/image-signature-js/image_signature.js:135-143 | pair i·|ys| + j is (xs[i], ys[j]) |
| ImageSignature.CartesianProduct | src/image-signature-js/image_signature.js:135-143 | the product of two coordinate lists has |xs|·|ys| pairs |
| ImageSignature.CartesianCoordsFit | src/image-signature-js/image_signature.js:90 | pairs of in-range xs and ys are in-range coordinates |
| ImageSignature.MeanWithin | src/image-signature-js/image_signature.js:93 | the mean of values in [lo, hi] is in [lo, hi] |
| ImageSignature.SquareMeans | src/image-signature-js/image_signature.js:92-93 | one mean per grid coordinate |
| ImageSignature.SquareMeanAt | src/image-signature-js/image_signature.js:92-93 | the mean for coordinate k is the mean of the square around (y, x) |
| ImageSignature.SquareMeanWithin | src/image-signature-js/image_signature.js:92-93 | a square mean lies within the image's value range |
| ImageSignature.SquareMeanInWindow | src/image-signature-js/image_signature.js:92-93 | a square mean lies between any bounds of the grey values inside its own clipped window, so between that window's darkest and brightest pixel |
| ImageSignature.GridPoints | src/image-signature-js/image_signature.js:85-90 | (nbH−1)·(nbW−1) grid points, all inside the image |
| ImageSignature.GridPointAt | src/image-signature-js/image_signature.js:85-90 | grid point i·(nb−1)+j is (⌊(i+1)·w/nb⌋, ⌊(j+1)·h/nb⌋) |
| ImageSignature.GridAverages | src/image-signature-js/image_signature.js:74-98 | the averages form an (nbH−1)×(nbW−1) matrix |
| ImageSignature.GridEntryIsMean | src/image-signature-js/image_signature.js:74-98 | grid entry (i, j) is the square mean at grid point i·(nbW−1)+j |
| ImageSignature.GridAverageAt | src/image-signature-js/image_signature.js:74-98 | grid entry (i, j) is the mean of the P×P square centred at the grid lines' crossing |
| ImageSignature.GridWithin | src/image-signature-js/image_signature.js:74-98 | every grid average lies within the image's value range |
| ImageSignature.RowMajorCoords | src/image-signature-js/image_signature.js:147-149 | the intended coordinates (row, col) satisfy row·cs + col = idx with col < cs |
| ImageSignature.MCoords | src/image-signature-js/image_signature.js:147-149 | as written, the row is ⌊idx/rs⌋ (rs·row ≤ idx < rs·(row+1)) and the column idx mod cs lies in [0, cs) |
| ImageSignature.MCoordsSquare | src/image-signature-js/image_signature.js:147-149 | for a square grid `mCoords` is the row-major position |
| ImageSignature.MCoordsNonSquare | src/image-signature-js/image_signature.js:147-149 | as written, `mCoords(2, 2, 3)` gives (1, 2) where the row-major position is (0, 2) |
| ImageSignature.RowMajorCoordsInverse | src/image-signature-js/image_signature.js:26-29 | the row-major position of idx names the entry at idx of the flattened matrix |
| ImageSignature.Normalize | src/image-signature-js/image_signature.js:100-122 | the symbol is in −2..2 |
| ImageSignature.NormalizeMeaning | src/image-signature-js/image_signature.js:100-122 | symbol 0 iff the value is within the equal band, its sign is the side beyond the band, and ±2 iff it is also beyond that side's cutoff |
| ImageSignature.CoordsInside | src/image-signature-js/image_signature.js:29 | every index of the flat n×n grid has a row inside the grid |
| ImageSignature.DifferentialGroups | src/image-signature-js/image_signature.js:29-32 | one group of differentials per grid point |
| ImageSignature.Above | src/image-signature-js/image_signature.js:34 | the kept values are exactly those above the threshold |
| ImageSignature.Below | src/image-signature-js/image_signature.js:35 | the kept values are exactly those below the threshold |
| ImageSignature.FiltersKeep | src/image-signature-js/image_signature.js:34-35 | each value occurs in the positive (negative) list as often as in the differentials if it is above 2 (below −2), and otherwise not at all |
| ImageSignature.FiltersAppend | src/image-signature-js/image_signature.js:34-35 | both filters distribute over concatenation, so the kept values stay in their original order |
| ImageSignature.Symbols | src/image-signature-js/image_signature.js:43-45 | one symbol per differential |
| ImageSignature.SymbolGroups | src/image-signature-js/image_signature.js:45 | one symbol group per differential group |
| ImageSignature.SymbolsAppend | src/image-signature-js/image_signature.js:45 | symbols of a concatenation are the concatenation of the symbols |
| ImageSignature.SymbolsFlatten | src/image-signature-js/image_signature.js:45 | mapping per group and then `flat()` is mapping the flattened differentials |
| ImageSignature.SignatureSymbols | src/image-signature-js/image_signature.js:32-45 | the signature is the flattened differentials normalised with the two cutoffs |
| ImageSignature.SpanSumValue | src/image-signature-js/image_signature.js:29 | the clipped 3-wide spans over the first k lines of an n grid add up to 3k−1 (k < n) or 3n−2 |
| ImageSignature.CellCountCases | src/image-signature-js/image_signature.js:29 | a corner grid point has 3 neighbours, another border point 5 and an inner point 8 |
| ImageSignature.CountRowPart | src/image-signature-js/image_signature.js:29-32 | neighbour counts over part of a row add up in closed form |
| ImageSignature.CountRows | src/image-signature-js/image_signature.js:29-32 | neighbour counts over whole rows add up in closed form |
| ImageSignature.NeighborTotal | src/image-signature-js/image_signature.js:29-32 | the n×n grid has (3n−2)² − n² neighbour pairs in all |
| ImageSignature.GroupLength | src/image-signature-js/image_signature.js:29-32 | the group of grid point idx has as many differentials as it has neighbours |
| ImageSignature.GroupsTotal | src/image-signature-js/image_signature.js:29-32 | the first k groups hold the neighbour counts of the first k points |
| ImageSignature.SignatureLength | src/image-signature-js/image_signature.js:29-45 | the signature of an n×n grid has (3n−2)² − n² symbols |
| ImageSignature.CutoffsBeyondBand | src/image-signature-js/image_signature.js:34-40 | a cutoff exists iff some differential is beyond that side of the band, and then lies beyond the band itself |
| ImageSignature.SignatureMeaning | src/image-signature-js/image_signature.js:34-45 | the signature of an n×n grid has symbol k for every k below (3n-2)² - n²; symbol k is 0, negative or positive as differential k is within, below or above ±2, and ±2 iff it is also beyond the median of its side |
| ImageSignature.FlatDifferentials | src/image-signature-js/image_signature.js:32 | a uniform grid has only zero differentials |
| ImageSignature.FlatGridSignature | src/image-signature-js/image_signature.js:29-45 | a uniform grid has an all-zero signature |
| ImageSignature.GrayCount | src/image-signature-js/image_signature.js:49-53 | one grey value per pixel |
| ImageSignature.CroppedShape | src/image-signature-js/image_signature.js:55-71 | the crop is a non-empty rectangular matrix |
| ImageSignature.Goldberg | src/image-signature-js/image_signature.js:8-46 | the method computes the signature pipeline |
| ImageSignature.GoldbergShape | src/image-signature-js/image_signature.js:8-46 | every signature has exactly 544 symbols, each in −2..2 |
| ImageSignature.GoldbergFlatImage | src/image-signature-js/image_signature.js:8-46 | an image of one colour has an all-zero signature |
| ImageSignature.FlatImage | src/image-signature-js/image_signature.js:49-53 | a one-colour image greys to a matrix holding one grey value, the rounded mean of its channels |
| ImageSignature.FlatSignature | src/image-signature-js/image_signature.js:8-46 | a one-grey matrix crops, averages and signs to all zeros |
| ImageSignature.CropOfFlat | src/image-signature-js/image_signature.js:55-71 | cropping a uniform matrix keeps it uniform |
| ImageSignature.FlatGray | src/image-signature-js/image_signature.js:49-53 | a one-colour image has one grey value everywhere |
| Dct.ToMatrix | src/dct/dct.js:91-105 | fails iff the length is not rows·cols, and otherwise entry (i, j) is arr[i·cols + j] |
| Dct.TopLeft | src/dct/dct.js:79-89 | the corner is k×k with the pixels' entries |
| Dct.GetTopLeft | src/dct/dct.js:79-89 | the nested loops copy the top-left k×k corner |
| Dct.LineCells | src/dct/dct.js:67-73 | anti-diagonal `line` has `count` cells, cell j being (min(rows, line)−j−1, start_col+j) |
| Dct.SnakeFromInGrid | src/dct/dct.js:67-73 | every cell the loop visits is inside the matrix |
| Dct.Snake | src/dct/dct.js:64-77 | the visiting order stays inside the matrix |
| Dct.ReadCells | src/dct/dct.js:71 | one value read per cell visited |
| Dct.ReadCellsAt | src/dct/dct.js:71 | value k is the matrix entry at the k-th visited cell |
| Dct.SnakeFromAt | src/dct/dct.js:67-73 | the cells from a line onward are the tail of the order |
| Dct.SnakeFromLength | src/dct/dct.js:67-73 | the tail is no longer than the order |
| Dct.LineCellAt | src/dct/dct.js:68-71 | cell j of a line is (min(rows, line)−j−1, start_col+j) |
| Dct.SnakeCellAt | src/dct/dct.js:67-73 | `resultIdx` before line `line` is its offset, and cell j of that line lands at offset + j |
| Dct.SnakeNext | src/dct/dct.js:67-73 | each line advances `resultIdx` by its count |
| Dct.DiagonalSnake | src/dct/dct.js:64-77 | the loops fill all rows·cols slots with the matrix read in snake order |
| Dct.SnakeFromOrdered | src/dct/dct.js:67-73 | the visits from a line onward go by anti-diagonal, then by rising column |
| Dct.SnakeOrdered | src/dct/dct.js:64-77 | the order goes by anti-diagonal and then by rising column, and never visits a cell twice |
| Dct.SnakeCovers | src/dct/dct.js:64-77 | every cell of the matrix is visited |
| Dct.SnakeLength | src/dct/dct.js:64-77 | the order visits exactly rows·cols cells |
| Dct.SnakeEnds | src/dct/dct.js:64-77 | the order starts at (0, 0) and ends at (rows−1, cols−1) |
| Dct.Transform | src/dct/dct.js:41-60 | the transform of an N×N signal is N×N |
| Dct.Dct1024Image | src/dct/dct.js:107-114 | fails iff the grey buffer is not 64·64 long, and otherwise returns the snake of the 32×32 corner of the transform |
| Dct.Dct1024Of | src/dct/dct.js:107-114 | a 64·64 grey buffer gives a hash of 1024 values |
| Dct.Dct1024Shape | src/dct/dct.js:107-114 | the hash has 1024 values, value k being coefficient (r, c) of the k-th snake cell of the 32×32 corner |
| Common.IntensityWithin | src/common.js:18 | the weighted intensity (R+G+B)·(A/255) is in [0, 765] |
| Common.PixelGrey | src/common.js:17-19 | the grey value is within ½ of intensity/765·255, and a byte |
| Common.PixelGreyTransparent | src/common.js:17-19 | a fully transparent pixel is 0 |
| Common.PixelGreyOpaque | src/common.js:17-19 | a fully opaque pixel is round((R+G+B)/3) |
| Common.GreyscaleOf | src/common.js:14-23 | ⌊n/4⌋ grey values, each from a complete pixel |
| Common.ToGreyscale | src/common.js:14-23 | the i/j loop into a Uint8Array of ⌊n/4⌋ entries computes the per-pixel grey values, dropping a trailing partial pixel |
| Common.GreyscaleOpaqueAgrees | src/common.js:14-23 | on opaque whole-pixel images it agrees with the signature's channel-average greyscale |
| Common.Average | src/common.js:43-46 | NaN (None) iff empty, and otherwise average × length = sum |
| Common.AverageWithin | src/common.js:43-46 | the average of values in [lo, hi] is in [lo, hi] |
| Common.AverageBetweenExtremes | src/common.js:43-46 | the average lies between the minimum and the maximum |
| Common.AverageConstant | src/common.js:43-46 | the average of a constant list is the constant |
| Common.GetQuantile | src/common.js:48-51 | defined iff ⌊length·q⌋ is an index, and then an entry of the array |
| Common.QuantileInBounds | src/common.js:48-51 | for a non-empty array and 0 ≤ q < 1 the read is defined |
| Common.QuantileZero | src/common.js:48-51 | the 0 quantile is the first entry |
| Common.QuantileIndexMonotone | src/common.js:49 | a higher quantile never reads an earlier index |
| Common.QuantileMonotone | src/common.js:48-51 | on a sorted array a higher quantile never reads a smaller value |
| Phash.AsReals | src/phash/phash.js:4 | the bytes as numbers, entry by entry |
| Phash.AsRealsSum | src/phash/phash.js:4 | adding them as numbers gives the integer sum |
| Phash.Average | src/phash/phash.js:3-6 | NaN (None) iff empty, and otherwise average × length = sum |
| Phash.ReduceToBinary | src/phash/phash.js:8-10 | one bit per value, bit 1 iff the value is strictly above the average, so a NaN average gives 0 |
| Phash.PHash1024 | src/phash/phash.js:12-17 | one bit per complete pixel of the shrunk buffer |
| Phash.PHash1024Length | src/phash/phash.js:12-17 | a 32×32 RGBA buffer gives 1024 bits |
| Phash.ReduceHasZero | src/phash/phash.js:8-10 | a non-empty input has a 0 bit |
| Phash.PHash1024HasZero | src/phash/phash.js:12-17 | the hash of a non-empty image has a 0 bit |
| Phash.ReduceConstant | src/phash/phash.js:8-10 | a uniform input hashes to all zeros |
| QueryMatching.CountTrue | query-matching.js:10 | the number of true entries is at most the length |
| QueryMatching.PctTrue | query-matching.js:9-12 | NaN (None) iff empty, and otherwise in [0, 1] with pct × length = number of trues |
| QueryMatching.WithSha | query-matching.js:15 | the filter keeps only matches with that id |
| QueryMatching.WithShaKeeps | query-matching.js:15 | every match with the id is kept as often as it occurs, and no other match is |
| QueryMatching.WithShaAppend | query-matching.js:15 | the filter distributes over concatenation, so kept matches stay in order |
| QueryMatching.WithShaFirst | query-matching.js:14-22 | the filter is empty iff no match has the id, and otherwise starts with the first that does |
| QueryMatching.CorrectScore | query-matching.js:14-22 | null iff no match has the id, and otherwise the score of the first match that does |
| QueryMatching.HighestIncorrectScore | query-matching.js:24-32 | null iff every match has the id, and otherwise the score of the first match that does not |
| QueryMatching.TopMatchScores | query-matching.js:14-32 | the top match's score is the correct score if it is the image and the highest incorrect score otherwise |
| QueryMatching.Tally.constructor | query-matching.js:39-42 | all four accumulators start empty |
| QueryMatching.Tally.Query | query-matching.js:64-83 | presence is always recorded, scores only when truthy, the top flag only when matches came back, and one matching score per true presence entry is kept |
| Benchmark.MatchesOver | index.js:18 | the kept matches are matches scoring above the threshold |
| Benchmark.MatchesOverKeeps | index.js:18 | every match scoring above the threshold is kept as often as it occurs, and no other match is |
| Benchmark.MatchesOverAppend | index.js:18 | the filter distributes over concatenation, so kept matches stay in order |
| Benchmark.CountMatchesOver | index.js:17-19 | the count is at most the number of matches |
| Benchmark.CountMatchesOverSnoc | index.js:17-19 | appending a match adds one to the count iff its score is above the threshold |
| Benchmark.CountMatchesOverPositions | index.js:17-19 | the count is the number of positions whose match scores above the threshold |
| Benchmark.CountMatchesOverExtremes | index.js:17-19 | the count is all matches when all score above, and 0 when none does |
| Benchmark.CountMatchesOverStrict | index.js:18 | a match appended with a score equal to the threshold leaves the count at that threshold unchanged |
| Benchmark.CountMatchesOverMonotone | index.js:17-19 | a higher threshold never counts more |
| Benchmark.ThresholdTally.constructor | index.js:90-94 | all five accumulators start empty |
| Benchmark.ThresholdTally.Query | index.js:96-107 | one count per threshold is appended, the top flag only when matches came back, and per query count(0.90) ≥ count(0.95) ≥ count(0.99) ≥ count(0.999) |

## Left out

- The cosine transform itself (`DCT`, `getCoff`, `cosine`, src/dct/dct.js:11-60) is floating-point trigonometry. It is a parameter `coefficient` of `Dct.Transform`, and only the plumbing around it is modelled.
- `shrinkImage`, `loadImageFile`, `loadVectorGroups` and `outputResultCSV` draw on a canvas, read files or print. Each pipeline therefore starts from the pixel buffer.
- `l2Norm` and `distance` (src/image-signature-js/nj_util.js:189-191) use square roots and are not called by the signature.
- The `sha256` helper, the Pinecone client and `intensity1024` are not part of this model. The results of `pinecone.query` are a parameter of each `Query`, and a null result list is not modelled.
- The async `run` and `getResults` drivers are left out: their loops over vector groups, the five variants, the logging and the timing. One `Tally` or `ThresholdTally` object stands for the accumulators of one variant.
- The numeric sorts of the accumulated lists (query-matching.js:97-106, index.js:117-142) happen after all the pushes and feed only the printed tables. They are left out.
- `nj_util.sort` uses JavaScript's default sort, which orders numbers as strings. It is a parameter `sort` that only has to rearrange its input (`NjUtil.Rearranges`). Results that depend on the actual order are not claimed.
- Floating point: all arithmetic is on exact integers and reals, so IEEE rounding, overflow and Infinity are not modelled. NaN and `undefined` are `None`.
- The numjs layout detail at src/image-signature-js/image_signature.js:12-17 (`selection.data`) is taken to yield the image's flat RGBA data.
- NjUtil.DiffN: a difference along an axis of length 1 or 0 is modelled with numpy's semantics (empty result). The signature does take such a difference: `autoCrop` differences along axis 1 of a one-pixel-wide image and along axis 0 of a one-pixel-high image (src/image-signature-js/image_signature.js:57,59). The model's empty result agrees with numjs there: the numjs slice `[null, -1]` with a resulting end of 0 selects the whole axis, but the slice from 1 is empty, and the subtraction keeps that empty shape.
- NjUtil.Sum: `sum` with an axis on a 1-D array returns the running sums (nj_util.js:43-45) and is modelled by `NjUtil.RunningSums`. Only 1-D and 2-D arrays are modelled.
- ImageSignature.Grayscale: the pixel values are unbounded integers. Byte bounds are carried by `ImageSignature.Bytes` where they matter.

## Findings

| source | as written | input that shows it | evidently intended | confidence | as-written member | corrected member |
|---|---|---|---|---|---|---|
| src/image-signature-js/image_signature.js:147-149 | `mCoords(idx, rs, cs)` returns `[floor(idx / rs), idx % cs]`, dividing by the row count | idx = 2 on a 2×3 grid: (1, 2) instead of (0, 2) | divide by the column count: row = ⌊idx / cs⌋, the row-major position; the two agree on the square 9×9 grid the signature uses | not executed | ImageSignature.MCoordsNonSquare | ImageSignature.RowMajorCoordsInverse |
| src/image-signature-js/nj_util.js:26-27 | for n > 1, `n - 1` and `axis` are passed to `subtract` instead of the recursive `diff`, so the recursion takes a first difference along the last axis | `diff([[0],[1],[3]], 2, 0)` gives [[], []] instead of [[1]] | the n-th difference along `axis`: `diff(a[1:] - a[:-1], n - 1, axis)` | not executed | NjUtil.DiffSecondOrderAsWritten | NjUtil.DiffNSecondOrder |
