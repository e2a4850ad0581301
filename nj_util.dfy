/** The numpy-style helpers of the Goldberg signature code, on 2-D arrays
    given as sequences of equally long rows (numjs ndarrays of rank 1 or 2). */
module NjUtil {
  import opened Wrappers
  import opened Numeric
  import ArrayUtil

  /** `a` has `h` rows of `w` entries each. */
  ghost predicate IsMatrix<T>(a: seq<seq<T>>, h: nat, w: nat)
  {
    |a| == h && forall i :: 0 <= i < h ==> |a[i]| == w
  }

  function Max(a: int, b: int): int { if a >= b then a else b }

  // ----------------------------------------------------------------------
  // diff

  datatype DiffError = NegativeOrder(n: int)

  /** One first-order difference along `axis` of an array of width `w`:
      axis 0 subtracts consecutive rows, axis 1 consecutive columns; the
      differenced axis loses one entry. */
  function DiffOnce(a: seq<seq<int>>, w: nat, axis: nat): (d: seq<seq<int>>)
    requires axis < 2 && IsMatrix(a, |a|, w)
    ensures axis == 0 ==> IsMatrix(d, Max(|a| - 1, 0), w)
    ensures axis == 1 ==> IsMatrix(d, |a|, Max(w - 1, 0))
  {
    if axis == 0 then
      if |a| == 0 then []
      else seq(|a| - 1, i requires 0 <= i < |a| - 1 =>
             seq(w, j requires 0 <= j < w => a[i + 1][j] - a[i][j]))
    else
      seq(|a|, i requires 0 <= i < |a| =>
        seq(Max(w - 1, 0), j requires 0 <= j < Max(w - 1, 0) => a[i][j + 1] - a[i][j]))
  }

  /** `diff(a, n, axis)` as written: order 0 returns the array, a negative
      order throws, order 1 differences once along `axis`, and any higher
      order differences once along `axis` and then once along the last axis
      (the recursive call receives neither `n - 1` nor `axis`). */
  function Diff(a: seq<seq<int>>, w: nat, n: int, axis: nat): (r: Result<seq<seq<int>>, DiffError>)
    requires axis < 2 && IsMatrix(a, |a|, w)
    ensures r.Failure? <==> n < 0
    ensures n == 0 ==> r == Success(a)
    ensures n == 1 ==> r == Success(DiffN(a, w, 1, axis))
  {
    if n == 0 then Success(a)
    else if n < 0 then Failure(NegativeOrder(n))
    else if n > 1 then
      var once := DiffOnce(a, w, axis);
      Success(DiffOnce(once, if axis == 0 then w else Max(w - 1, 0), 1))
    else Success(DiffOnce(a, w, axis))
  }

  /** The n-th order difference along one axis, as numpy defines it: the
      first-order difference applied n times along the same axis. */
  function DiffN(a: seq<seq<int>>, w: nat, n: nat, axis: nat): (d: seq<seq<int>>)
    requires axis < 2 && IsMatrix(a, |a|, w)
    ensures axis == 0 ==> IsMatrix(d, Max(|a| - n, 0), w)
    ensures axis == 1 ==> IsMatrix(d, |a|, Max(w - n, 0))
    decreases n
  {
    if n == 0 then a
    else DiffN(DiffOnce(a, w, axis), if axis == 0 then w else Max(w - 1, 0), n - 1, axis)
  }

  /** Order 0 returns its input, a negative order is an error, and order 1
      (the only order the signature code uses) yields consecutive differences
      along the axis; for these orders the code agrees with DiffN. */
  lemma DiffLowOrders(a: seq<seq<int>>, w: nat, axis: nat)
    requires axis < 2 && IsMatrix(a, |a|, w)
    ensures Diff(a, w, 0, axis) == Success(a)
    ensures forall n :: n < 0 ==> Diff(a, w, n, axis).Failure?
    ensures Diff(a, w, 1, axis) == Success(DiffN(a, w, 1, axis))
    ensures axis == 0 ==> forall i, j :: 0 <= i < |a| - 1 && 0 <= j < w ==>
      DiffN(a, w, 1, 0)[i][j] == a[i + 1][j] - a[i][j]
    ensures axis == 1 ==> forall i, j :: 0 <= i < |a| && 0 <= j < w - 1 ==>
      DiffN(a, w, 1, 1)[i][j] == a[i][j + 1] - a[i][j]
  {
  }

  /** The second-order difference along axis 0 of a 3×1 column, as written,
      comes out 2×0 (differenced along both axes) instead of 1×1. */
  lemma DiffSecondOrderAsWritten()
    ensures Diff([[0], [1], [3]], 1, 2, 0) == Success([[], []])
    ensures DiffN([[0], [1], [3]], 1, 2, 0) == [[1]]
  {
    var a: seq<seq<int>> := [[0], [1], [3]];
    var once := DiffOnce(a, 1, 0);
    assert |once| == 2 && |once[0]| == 1 && |once[1]| == 1;
    assert once[0][0] == a[1][0] - a[0][0] == 1;
    assert once[1][0] == a[2][0] - a[1][0] == 2;
    assert once[0] == [1] && once[1] == [2];
    assert once == [[1], [2]];
    var across := DiffOnce(once, 1, 1);
    assert |across| == 2 && across[0] == [] && across[1] == [];
    assert across == [[], []];
    assert Diff(a, 1, 2, 0) == Success(across);
    var twice := DiffOnce(once, 1, 0);
    assert |twice| == 1 && |twice[0]| == 1;
    assert twice[0][0] == once[1][0] - once[0][0] == 1;
    assert twice[0] == [1];
    assert twice == [[1]];
    assert DiffN(a, 1, 2, 0) == DiffN(once, 1, 1, 0) == DiffN(twice, 1, 0, 0);
  }

  /** The intended second-order difference along the rows is the second
      finite difference a[i+2] - 2·a[i+1] + a[i], entry by entry. */
  lemma DiffNSecondOrder(a: seq<seq<int>>, w: nat)
    requires IsMatrix(a, |a|, w)
    ensures IsMatrix(DiffN(a, w, 2, 0), Max(|a| - 2, 0), w)
    ensures forall i, j :: 0 <= i < |a| - 2 && 0 <= j < w ==>
      DiffN(a, w, 2, 0)[i][j] == a[i + 2][j] - 2 * a[i + 1][j] + a[i][j]
  {
    var once := DiffOnce(a, w, 0);
    var twice := DiffOnce(once, w, 0);
    assert DiffN(a, w, 2, 0) == DiffN(once, w, 1, 0) == DiffN(twice, w, 0, 0) == twice;
  }

  /** The row-wise first difference telescopes: its entries add up to the
      last entry of the row minus the first. */
  lemma {:induction false} DiffTelescopes(row: seq<int>)
    requires |row| > 0
    ensures SeqSum(DiffOnce([row], |row|, 1)[0]) == row[|row| - 1] - row[0]
  {
    var d := DiffOnce([row], |row|, 1)[0];
    if |row| > 1 {
      var front := row[..|row| - 1];
      DiffTelescopes(front);
      assert d == DiffOnce([front], |front|, 1)[0] + [row[|row| - 1] - row[|row| - 2]];
      SeqSumSnoc(DiffOnce([front], |front|, 1)[0], row[|row| - 1] - row[|row| - 2]);
    } else {
      assert d == [];
    }
  }

  // ----------------------------------------------------------------------
  // vectorize

  /** `vectorize(a, f)`: f applied to every entry, shape unchanged. */
  function Vectorize<A, B>(a: seq<seq<A>>, f: A -> B): (r: seq<seq<B>>)
    ensures |r| == |a| && forall i :: 0 <= i < |a| ==> |r[i]| == |a[i]|
  {
    seq(|a|, i requires 0 <= i < |a| => seq(|a[i]|, j requires 0 <= j < |a[i]| => f(a[i][j])))
  }

  /** Vectorizing twice is vectorizing the composition. */
  lemma VectorizeCompose<A, B, C>(a: seq<seq<A>>, f: A -> B, g: B -> C)
    ensures Vectorize(Vectorize(a, f), g) == Vectorize(a, x => g(f(x)))
  {
    var l := Vectorize(Vectorize(a, f), g);
    var r := Vectorize(a, x => g(f(x)));
    forall i | 0 <= i < |a| ensures l[i] == r[i] {
    }
  }

  // ----------------------------------------------------------------------
  // sum and cumsum

  /** Column j of a matrix. */
  function Column<T>(a: seq<seq<T>>, j: nat): (col: seq<T>)
    requires forall i :: 0 <= i < |a| ==> j < |a[i]|
    ensures |col| == |a|
  {
    seq(|a|, i requires 0 <= i < |a| => a[i][j])
  }

  /** The 1-D slice of `a` at position t along `axis` (a row for axis 0, a
      column for axis 1). */
  function Line<T>(a: seq<seq<T>>, h: nat, w: nat, axis: nat, t: nat): (l: seq<T>)
    requires axis < 2 && IsMatrix(a, h, w)
    requires if axis == 0 then t < h else t < w
    ensures |l| == if axis == 0 then w else h
  {
    if axis == 0 then a[t] else Column(a, t)
  }

  /** The entries at position j of the first n lines along `axis`. */
  function Fiber(a: seq<seq<int>>, h: nat, w: nat, axis: nat, n: nat, j: nat): (f: seq<int>)
    requires axis < 2 && IsMatrix(a, h, w)
    requires if axis == 0 then n <= h && j < w else n <= w && j < h
    ensures |f| == n
  {
    seq(n, t requires 0 <= t < n => Line(a, h, w, axis, t)[j])
  }

  /** The running sum of the first n lines along `axis`. */
  function PartialSums(a: seq<seq<int>>, h: nat, w: nat, axis: nat, n: nat): (s: seq<int>)
    requires axis < 2 && IsMatrix(a, h, w)
    requires n <= if axis == 0 then h else w
    ensures |s| == if axis == 0 then w else h
  {
    var len := if axis == 0 then w else h;
    seq(len, j requires 0 <= j < len => SeqSum(Fiber(a, h, w, axis, n, j)))
  }

  /** `sum(a, axis)` of a 2-D array: the axis disappears and each entry is
      the sum along it. */
  function AxisSums(a: seq<seq<int>>, h: nat, w: nat, axis: nat): (s: seq<int>)
    requires axis < 2 && IsMatrix(a, h, w)
    ensures |s| == if axis == 0 then w else h
  {
    PartialSums(a, h, w, axis, if axis == 0 then h else w)
  }

  /** Summing along axis 1 gives the row sums, along axis 0 the column sums. */
  lemma AxisSumsMeaning(a: seq<seq<int>>, h: nat, w: nat)
    requires IsMatrix(a, h, w)
    ensures forall i :: 0 <= i < h ==> AxisSums(a, h, w, 1)[i] == SeqSum(a[i])
    ensures forall j :: 0 <= j < w ==> AxisSums(a, h, w, 0)[j] == SeqSum(Column(a, j))
  {
    forall i | 0 <= i < h ensures AxisSums(a, h, w, 1)[i] == SeqSum(a[i]) {
      assert Fiber(a, h, w, 1, w, i) == a[i];
    }
    forall j | 0 <= j < w ensures AxisSums(a, h, w, 0)[j] == SeqSum(Column(a, j)) {
      assert Fiber(a, h, w, 0, h, j) == Column(a, j);
    }
  }

  /** Adding one more line extends every fiber by that line's entry. */
  lemma FiberStep(a: seq<seq<int>>, h: nat, w: nat, axis: nat, n: nat)
    requires axis < 2 && IsMatrix(a, h, w)
    requires n < if axis == 0 then h else w
    ensures PartialSums(a, h, w, axis, n + 1)
         == AddVectors(PartialSums(a, h, w, axis, n), Line(a, h, w, axis, n))
  {
    var len := if axis == 0 then w else h;
    forall j | 0 <= j < len
      ensures SeqSum(Fiber(a, h, w, axis, n + 1, j))
           == SeqSum(Fiber(a, h, w, axis, n, j)) + Line(a, h, w, axis, n)[j]
    {
      assert Fiber(a, h, w, axis, n + 1, j) == Fiber(a, h, w, axis, n, j) + [Line(a, h, w, axis, n)[j]];
      SeqSumSnoc(Fiber(a, h, w, axis, n, j), Line(a, h, w, axis, n)[j]);
    }
  }

  /** Entry-wise sum of two vectors of the same length. */
  function AddVectors(u: seq<int>, v: seq<int>): (s: seq<int>)
    requires |u| == |v|
    ensures |s| == |u| && forall j :: 0 <= j < |u| ==> s[j] == u[j] + v[j]
  {
    seq(|u|, j requires 0 <= j < |u| => u[j] + v[j])
  }

  /** `sum(a)` with no axis: the sum of all entries. */
  function SumAll(a: seq<seq<int>>): (s: int)
    ensures s == SeqSum(RowSums(a))
  {
    FlattenSum(a);
    SeqSum(ArrayUtil.Flatten(a))
  }

  lemma {:induction false} SeqSumAppend(s: seq<int>, t: seq<int>)
    ensures SeqSum(s + t) == SeqSum(s) + SeqSum(t)
    decreases |t|
  {
    if |t| == 0 {
      assert s + t == s;
    } else {
      var t' := t[..|t| - 1];
      SeqSumAppend(s, t');
      assert s + t == (s + t') + [t[|t| - 1]];
      SeqSumSnoc(s + t', t[|t| - 1]);
      assert t == t' + [t[|t| - 1]];
      SeqSumSnoc(t', t[|t| - 1]);
    }
  }

  /** The sum of each row, in row order. */
  function RowSums(a: seq<seq<int>>): (s: seq<int>)
    ensures |s| == |a|
  {
    seq(|a|, i requires 0 <= i < |a| => SeqSum(a[i]))
  }

  lemma {:induction false} FlattenSum(a: seq<seq<int>>)
    ensures SeqSum(ArrayUtil.Flatten(a)) == SeqSum(RowSums(a))
    decreases |a|
  {
    if |a| > 0 {
      var front := a[..|a| - 1];
      var last := a[|a| - 1];
      FlattenSum(front);
      assert a == front + [last];
      ArrayUtil.FlattenAppend(front, [last]);
      assert [last][1..] == [];
      assert ArrayUtil.Flatten([last]) == last + ArrayUtil.Flatten([]);
      assert ArrayUtil.Flatten(a) == ArrayUtil.Flatten(front) + last;
      SeqSumAppend(ArrayUtil.Flatten(front), last);
      assert RowSums(a) == RowSums(front) + [SeqSum(last)];
      SeqSumSnoc(RowSums(front), SeqSum(last));
    }
  }

  /** The total of all entries is the total of the row sums. */
  lemma SumAllIsSumOfRowSums(a: seq<seq<int>>, h: nat, w: nat)
    requires IsMatrix(a, h, w)
    ensures SumAll(a) == SeqSum(AxisSums(a, h, w, 1))
  {
    FlattenSum(a);
    AxisSumsMeaning(a, h, w);
    assert AxisSums(a, h, w, 1) == RowSums(a);
  }

  /** `sum(a, axis)` on a 2-D array: the loop that adds the slices at
      0, 1, … along the axis into a running vector. */
  method Sum(a: seq<seq<int>>, h: nat, w: nat, axis: nat) returns (sumSlice: seq<int>)
    requires axis < 2 && IsMatrix(a, h, w)
    ensures sumSlice == AxisSums(a, h, w, axis)
  {
    var len := if axis == 0 then w else h;
    var axisLength := if axis == 0 then h else w;
    sumSlice := seq(len, _ => 0);
    assert sumSlice == PartialSums(a, h, w, axis, 0);
    for i := 0 to axisLength
      invariant sumSlice == PartialSums(a, h, w, axis, i)
    {
      var row := Line(a, h, w, axis, i);
      FiberStep(a, h, w, axis, i);
      sumSlice := AddVectors(sumSlice, row);
    }
  }

  /** Inclusive prefix sums: entry k is a[0] + … + a[k]. */
  function PrefixSums(a: seq<int>): (p: seq<int>)
    ensures |p| == |a|
  {
    seq(|a|, k requires 0 <= k < |a| => SeqSum(a[..k + 1]))
  }

  /** The 1-D branch shared by `sum(a, axis)` and `cumsum(a, axis)`: the
      tail of a scan with + from 0, so on a vector `sum` does not reduce
      but returns the prefix sums, exactly as `cumsum` does. */
  method RunningSums(a: seq<int>) returns (r: seq<int>)
    ensures r == PrefixSums(a)
  {
    var scanned := ArrayUtil.ScanLeft(0, a, (x: int, y: int) => x + y);
    ArrayUtil.ScanPlusIsPrefixSums(a, scanned);
    r := scanned[1..];
  }

  /** Prefix sums of non-negative entries are non-negative and ascending,
      and the last one is the total. */
  lemma PrefixSumsOfNonNegative(a: seq<int>)
    requires forall k :: 0 <= k < |a| ==> a[k] >= 0
    ensures Sorted(PrefixSums(a))
    ensures forall k :: 0 <= k < |a| ==> PrefixSums(a)[k] >= 0
    ensures |a| > 0 ==> PrefixSums(a)[|a| - 1] == SeqSum(a)
  {
    var p := PrefixSums(a);
    forall i | 0 <= i < |a| ensures p[i] >= 0 {
      SeqSumNonNegative(a[..i + 1]);
    }
    forall i, j | 0 <= i <= j < |a| ensures p[i] <= p[j] {
      PrefixSumsStep(a, i, j);
    }
    if |a| > 0 {
      assert a[..|a|] == a;
    }
  }

  lemma PrefixSumsStep(a: seq<int>, i: nat, j: nat)
    requires forall k :: 0 <= k < |a| ==> a[k] >= 0
    requires i <= j < |a|
    ensures SeqSum(a[..i + 1]) <= SeqSum(a[..j + 1])
  {
    var gap := a[i + 1..j + 1];
    assert a[..j + 1] == a[..i + 1] + gap;
    SeqSumAppend(a[..i + 1], gap);
    SeqSumNonNegative(gap);
  }

  lemma {:induction false} SeqSumNonNegative(s: seq<int>)
    requires forall k :: 0 <= k < |s| ==> s[k] >= 0
    ensures SeqSum(s) >= 0
  {
    if |s| > 0 {
      SeqSumNonNegative(s[..|s| - 1]);
    }
  }

  /** Differencing the prefix sums gives back the summands after the first:
      cumsum and diff are inverse. */
  lemma DiffOfPrefixSums(a: seq<int>)
    requires |a| > 0
    ensures DiffOnce([PrefixSums(a)], |a|, 1)[0] == a[1..]
  {
    var p := PrefixSums(a);
    forall j | 0 <= j < |a| - 1 ensures p[j + 1] - p[j] == a[j + 1] {
      assert a[..j + 2] == a[..j + 1] + [a[j + 1]];
      SeqSumSnoc(a[..j + 1], a[j + 1]);
    }
  }

  /** `cumsum(a)` with no axis on a 2-D array: prefix sums of the row-major
      flattening. */
  method CumsumFlat(a: seq<seq<int>>) returns (r: seq<int>)
    ensures r == PrefixSums(ArrayUtil.Flatten(a))
  {
    r := RunningSums(ArrayUtil.Flatten(a));
  }

  /** Cumulative sums along an axis of a 2-D array: along axis 0 each entry
      adds the entries above it in its column, along axis 1 the entries to
      its left in its row. */
  function AxisPrefixSums(a: seq<seq<int>>, h: nat, w: nat, axis: nat): (p: seq<seq<int>>)
    requires axis < 2 && IsMatrix(a, h, w)
    ensures IsMatrix(p, h, w)
  {
    seq(h, i requires 0 <= i < h => seq(w, j requires 0 <= j < w =>
      if axis == 0 then SeqSum(Fiber(a, h, w, 0, i + 1, j)) else SeqSum(Fiber(a, h, w, 1, j + 1, i))))
  }

  /** Row-wise cumulative sums are the 1-D prefix sums of each row, and
      column-wise ones the 1-D prefix sums of each column. */
  lemma AxisPrefixSumsMeaning(a: seq<seq<int>>, h: nat, w: nat)
    requires IsMatrix(a, h, w)
    ensures forall i, j :: 0 <= i < h && 0 <= j < w ==>
      AxisPrefixSums(a, h, w, 1)[i][j] == PrefixSums(a[i])[j]
    ensures forall i, j :: 0 <= i < h && 0 <= j < w ==>
      AxisPrefixSums(a, h, w, 0)[i][j] == PrefixSums(Column(a, j))[i]
  {
    forall i, j | 0 <= i < h && 0 <= j < w
      ensures AxisPrefixSums(a, h, w, 1)[i][j] == PrefixSums(a[i])[j]
    {
      RowPrefixSumAt(a, h, w, i, j);
    }
    forall i, j | 0 <= i < h && 0 <= j < w
      ensures AxisPrefixSums(a, h, w, 0)[i][j] == PrefixSums(Column(a, j))[i]
    {
      ColumnPrefixSumAt(a, h, w, i, j);
    }
  }

  lemma RowPrefixSumAt(a: seq<seq<int>>, h: nat, w: nat, i: nat, j: nat)
    requires IsMatrix(a, h, w) && i < h && j < w
    ensures AxisPrefixSums(a, h, w, 1)[i][j] == PrefixSums(a[i])[j]
  {
    assert Fiber(a, h, w, 1, j + 1, i) == a[i][..j + 1];
  }

  lemma ColumnPrefixSumAt(a: seq<seq<int>>, h: nat, w: nat, i: nat, j: nat)
    requires IsMatrix(a, h, w) && i < h && j < w
    ensures AxisPrefixSums(a, h, w, 0)[i][j] == PrefixSums(Column(a, j))[i]
  {
    assert Fiber(a, h, w, 0, i + 1, j) == Column(a, j)[..i + 1];
  }

  /** Swaps rows and columns of an h×w matrix. */
  function Transpose(m: seq<seq<int>>, h: nat, w: nat): (t: seq<seq<int>>)
    requires IsMatrix(m, h, w)
    ensures IsMatrix(t, w, h) && forall i, j :: 0 <= i < w && 0 <= j < h ==> t[i][j] == m[j][i]
  {
    seq(w, i requires 0 <= i < w => seq(h, j requires 0 <= j < h => m[j][i]))
  }

  /** The running sums after each of the first n lines, stacked. */
  function Stack(a: seq<seq<int>>, h: nat, w: nat, axis: nat, n: nat): (s: seq<seq<int>>)
    requires axis < 2 && IsMatrix(a, h, w)
    requires n <= if axis == 0 then h else w
    ensures |s| == n
  {
    seq(n, t requires 0 <= t < n => PartialSums(a, h, w, axis, t + 1))
  }

  lemma StackSnoc(a: seq<seq<int>>, h: nat, w: nat, axis: nat, n: nat)
    requires axis < 2 && IsMatrix(a, h, w)
    requires n < if axis == 0 then h else w
    ensures Stack(a, h, w, axis, n + 1) == Stack(a, h, w, axis, n) + [PartialSums(a, h, w, axis, n + 1)]
  {
  }

  /** The running sums after each line, stacked (and transposed back when
      the axis is 1), are the cumulative sums along the axis. */
  lemma StackedPartialSums(a: seq<seq<int>>, h: nat, w: nat, axis: nat)
    requires axis < 2 && IsMatrix(a, h, w)
    ensures axis == 0 ==> Stack(a, h, w, 0, h) == AxisPrefixSums(a, h, w, 0)
    ensures axis == 1 ==> IsMatrix(Stack(a, h, w, 1, w), w, h)
    ensures axis == 1 ==> Transpose(Stack(a, h, w, 1, w), w, h) == AxisPrefixSums(a, h, w, 1)
  {
    if axis == 0 {
      StackedAlongAxis0(a, h, w, Stack(a, h, w, 0, h));
    } else {
      StackedAlongAxis1(a, h, w, Stack(a, h, w, 1, w));
    }
  }

  lemma StackedAlongAxis0(a: seq<seq<int>>, h: nat, w: nat, stacked: seq<seq<int>>)
    requires IsMatrix(a, h, w) && |stacked| == h
    requires forall t :: 0 <= t < h ==> stacked[t] == PartialSums(a, h, w, 0, t + 1)
    ensures stacked == AxisPrefixSums(a, h, w, 0)
  {
    var p := AxisPrefixSums(a, h, w, 0);
    forall i | 0 <= i < h ensures stacked[i] == p[i] {
      StackedRow(a, h, w, i);
    }
  }

  lemma StackedRow(a: seq<seq<int>>, h: nat, w: nat, i: nat)
    requires IsMatrix(a, h, w) && i < h
    ensures PartialSums(a, h, w, 0, i + 1) == AxisPrefixSums(a, h, w, 0)[i]
  {
    var row := PartialSums(a, h, w, 0, i + 1);
    var p := AxisPrefixSums(a, h, w, 0)[i];
    forall j | 0 <= j < w ensures row[j] == p[j] {
      PartialSumsAt(a, h, w, 0, i + 1, j);
    }
  }

  lemma StackedAlongAxis1(a: seq<seq<int>>, h: nat, w: nat, stacked: seq<seq<int>>)
    requires IsMatrix(a, h, w) && |stacked| == w
    requires forall t :: 0 <= t < w ==> stacked[t] == PartialSums(a, h, w, 1, t + 1)
    ensures IsMatrix(stacked, w, h)
    ensures Transpose(stacked, w, h) == AxisPrefixSums(a, h, w, 1)
  {
    var t := Transpose(stacked, w, h);
    var p := AxisPrefixSums(a, h, w, 1);
    forall i | 0 <= i < h ensures t[i] == p[i] {
      forall j | 0 <= j < w ensures t[i][j] == p[i][j] {
        PartialSumsAt(a, h, w, 1, j + 1, i);
      }
    }
  }

  /** Entry j of the running sum after n lines is the cumulative sum at
      line n - 1. */
  lemma PartialSumsAt(a: seq<seq<int>>, h: nat, w: nat, axis: nat, n: nat, j: nat)
    requires axis < 2 && IsMatrix(a, h, w)
    requires if axis == 0 then 0 < n <= h && j < w else 0 < n <= w && j < h
    ensures axis == 0 ==> PartialSums(a, h, w, 0, n)[j] == AxisPrefixSums(a, h, w, 0)[n - 1][j]
    ensures axis == 1 ==> PartialSums(a, h, w, 1, n)[j] == AxisPrefixSums(a, h, w, 1)[j][n - 1]
  {
  }

  /** `cumsum(a, axis)` on a 2-D array: the loop pushes the running sum of
      the slices along the axis, and the stacked result is transposed back
      when the axis is 1. */
  method CumsumAxis(a: seq<seq<int>>, h: nat, w: nat, axis: nat) returns (r: seq<seq<int>>)
    requires axis < 2 && IsMatrix(a, h, w)
    ensures r == AxisPrefixSums(a, h, w, axis)
  {
    var len := if axis == 0 then w else h;
    var axisLength := if axis == 0 then h else w;
    var result: seq<seq<int>> := [];
    var sumSlice := seq(len, _ => 0);
    assert sumSlice == PartialSums(a, h, w, axis, 0);
    for i := 0 to axisLength
      invariant sumSlice == PartialSums(a, h, w, axis, i)
      invariant result == Stack(a, h, w, axis, i)
    {
      var row := Line(a, h, w, axis, i);
      FiberStep(a, h, w, axis, i);
      sumSlice := AddVectors(sumSlice, row);
      result := result + [sumSlice];
      StackSnoc(a, h, w, axis, i);
    }
    StackedPartialSums(a, h, w, axis);
    if axis == 0 {
      r := result;
    } else {
      r := Transpose(result, w, h);
    }
  }

  // ----------------------------------------------------------------------
  // searchsorted

  /** The binary search of `searchsorted(a, v)` between positions m and n
      (inclusive): an index holding v if the probes meet one, otherwise the
      position where the search window closes. */
  function Search(a: seq<int>, v: real, m: nat, n: int): (r: nat)
    requires m <= n + 1 <= |a|
    ensures m <= r <= n + 1
    decreases n - m + 1
  {
    if m > n then m
    else
      var k := (m + n) / 2;
      if v - a[k] as real > 0.0 then Search(a, v, k + 1, n)
      else if v - a[k] as real < 0.0 then Search(a, v, m, k - 1)
      else k
  }

  /** `searchsorted(a, v)`: the loop form of Search over the whole array. */
  method SearchSorted(a: seq<int>, v: real) returns (r: nat)
    ensures r == Search(a, v, 0, |a| - 1)
  {
    var m: nat := 0;
    var n: int := |a| - 1;
    while m <= n
      invariant m <= n + 1 <= |a|
      invariant Search(a, v, m, n) == Search(a, v, 0, |a| - 1)
      decreases n - m + 1
    {
      var k := (n + m) / 2;
      var cmp := v - a[k] as real;
      if cmp > 0.0 {
        m := k + 1;
      } else if cmp < 0.0 {
        n := k - 1;
      } else {
        return k;
      }
    }
    return m;
  }

  /** What the search finds in ascending data: either a position holding v,
      or the insertion point with every entry before it below v and every
      entry from it on above v. Either way nothing before the result
      exceeds v and nothing after it falls below v. */
  ghost predicate SearchResult(a: seq<int>, v: real, r: nat)
  {
    r <= |a| &&
    (forall i :: 0 <= i < r ==> a[i] as real <= v) &&
    (forall i :: r <= i < |a| ==> a[i] as real >= v) &&
    ((r < |a| && a[r] as real == v) ||
     ((forall i :: 0 <= i < r ==> a[i] as real < v) &&
      (forall i :: r <= i < |a| ==> a[i] as real > v)))
  }

  lemma {:induction false} SearchWindow(a: seq<int>, v: real, m: nat, n: int)
    requires Sorted(a) && m <= n + 1 <= |a|
    requires forall i :: 0 <= i < m ==> a[i] as real < v
    requires forall i :: n < i < |a| ==> a[i] as real > v
    ensures SearchResult(a, v, Search(a, v, m, n))
    decreases n - m + 1
  {
    if m > n {
      ClosedWindowResult(a, v, m);
    } else {
      var k := (m + n) / 2;
      if v - a[k] as real > 0.0 {
        BelowUpTo(a, v, m, k);
        SearchWindow(a, v, k + 1, n);
      } else if v - a[k] as real < 0.0 {
        AboveFrom(a, v, n, k);
        SearchWindow(a, v, m, k - 1);
      } else {
        FoundResult(a, v, k);
      }
    }
  }

  lemma BelowUpTo(a: seq<int>, v: real, m: nat, k: nat)
    requires Sorted(a) && m <= k < |a| && a[k] as real < v
    requires forall i :: 0 <= i < m ==> a[i] as real < v
    ensures forall i :: 0 <= i < k + 1 ==> a[i] as real < v
  {
  }

  lemma AboveFrom(a: seq<int>, v: real, n: int, k: nat)
    requires Sorted(a) && k <= n < |a| && a[k] as real > v
    requires forall i :: n < i < |a| ==> a[i] as real > v
    ensures forall i :: k - 1 < i < |a| ==> a[i] as real > v
  {
  }

  lemma ClosedWindowResult(a: seq<int>, v: real, m: nat)
    requires m <= |a|
    requires forall i :: 0 <= i < m ==> a[i] as real < v
    requires forall i :: m - 1 < i < |a| ==> a[i] as real > v
    ensures SearchResult(a, v, m)
  {
  }

  lemma FoundResult(a: seq<int>, v: real, k: nat)
    requires Sorted(a) && k < |a| && a[k] as real == v
    ensures SearchResult(a, v, k)
  {
  }

  /** searchsorted on ascending data returns a position of v or its
      insertion point. */
  lemma SearchSortedCorrect(a: seq<int>, v: real)
    requires Sorted(a)
    ensures SearchResult(a, v, Search(a, v, 0, |a| - 1))
  {
    SearchWindow(a, v, 0, |a| - 1);
  }

  /** On ascending data a larger target never lands earlier, and a target
      not above the last entry lands on an existing position. */
  lemma SearchSortedMonotone(a: seq<int>, v1: real, v2: real)
    requires Sorted(a) && v1 <= v2
    ensures Search(a, v1, 0, |a| - 1) <= Search(a, v2, 0, |a| - 1)
    ensures |a| > 0 && v2 <= a[|a| - 1] as real ==> Search(a, v2, 0, |a| - 1) < |a|
  {
    SearchSortedCorrect(a, v1);
    SearchSortedCorrect(a, v2);
  }

  // ----------------------------------------------------------------------
  // clip

  /** `clip(start, end, value)`: value moved into [start, end]. */
  function Clip(start: int, end: int, value: int): (r: int)
    ensures start <= end ==> start <= r <= end
    ensures start <= value <= end ==> r == value
    ensures value < start ==> r == start
    ensures value > end && start <= end ==> r == end
  {
    if value < start then start
    else if value > end then end
    else value
  }

  /** Clipping is idempotent. */
  lemma ClipIdempotent(start: int, end: int, value: int)
    requires start <= end
    ensures Clip(start, end, Clip(start, end, value)) == Clip(start, end, value)
  {
  }

  // ----------------------------------------------------------------------
  // getNeighbors

  /** The rows r0 ≤ i < r1 of `a`, each cut to the columns c0 ≤ j < c1. */
  function SubRows<T>(a: seq<seq<T>>, r0: nat, r1: nat, c0: nat, c1: nat): (rows: seq<seq<T>>)
    requires r0 <= r1 <= |a| && c0 <= c1
    requires forall i :: r0 <= i < r1 ==> c1 <= |a[i]|
    ensures |rows| == r1 - r0 && forall i :: 0 <= i < |rows| ==> |rows[i]| == c1 - c0
    ensures forall i, j :: 0 <= i < r1 - r0 && 0 <= j < c1 - c0 ==> rows[i][j] == a[r0 + i][c0 + j]
  {
    seq(r1 - r0, i requires 0 <= i < r1 - r0 => a[r0 + i][c0..c1])
  }

  /** `a.slice([r0, r1], [c0, c1]).flatten()`: the block read row by row. */
  function Block<T>(a: seq<seq<T>>, r0: nat, r1: nat, c0: nat, c1: nat): seq<T>
    requires r0 <= r1 <= |a| && c0 <= c1
    requires forall i :: r0 <= i < r1 ==> c1 <= |a[i]|
  {
    ArrayUtil.Flatten(SubRows(a, r0, r1, c0, c1))
  }

  lemma {:induction false} TotalLengthUniform<T>(rows: seq<seq<T>>, width: nat)
    requires forall i :: 0 <= i < |rows| ==> |rows[i]| == width
    ensures ArrayUtil.TotalLength(rows) == |rows| * width
  {
    if |rows| > 0 {
      TotalLengthUniform(rows[1..], width);
      assert (|rows| - 1) * width + width == |rows| * width;
    }
  }

  /** Rows of one width flatten row-major: cell (i, j) lands at i·width + j. */
  lemma FlattenUniformAt<T>(rows: seq<seq<T>>, width: nat, i: nat, j: nat)
    requires forall t :: 0 <= t < |rows| ==> |rows[t]| == width
    requires i < |rows| && j < width
    ensures i * width + j < |ArrayUtil.Flatten(rows)|
    ensures ArrayUtil.Flatten(rows)[i * width + j] == rows[i][j]
  {
    TotalLengthUniform(rows[..i], width);
    ArrayUtil.FlattenAt(rows, i, j);
  }

  /** A block has one entry per cell. */
  lemma BlockLength<T>(a: seq<seq<T>>, r0: nat, r1: nat, c0: nat, c1: nat)
    requires r0 <= r1 <= |a| && c0 <= c1
    requires forall i :: r0 <= i < r1 ==> c1 <= |a[i]|
    ensures |Block(a, r0, r1, c0, c1)| == (r1 - r0) * (c1 - c0)
  {
    TotalLengthUniform(SubRows(a, r0, r1, c0, c1), c1 - c0);
  }

  /** Entry k of a block sits at row k / width, column k % width of it. */
  lemma BlockAt<T>(a: seq<seq<T>>, r0: nat, r1: nat, c0: nat, c1: nat, k: nat)
    requires r0 <= r1 <= |a| && c0 < c1
    requires forall i :: r0 <= i < r1 ==> c1 <= |a[i]|
    requires k < (r1 - r0) * (c1 - c0)
    ensures k < |Block(a, r0, r1, c0, c1)|
    ensures r0 + k / (c1 - c0) < r1 && k % (c1 - c0) < c1 - c0
    ensures Block(a, r0, r1, c0, c1)[k] == a[r0 + k / (c1 - c0)][c0 + k % (c1 - c0)]
  {
    ArrayUtil.DivModSplit(k, r1 - r0, c1 - c0);
    FlattenUniformAt(SubRows(a, r0, r1, c0, c1), c1 - c0, k / (c1 - c0), k % (c1 - c0));
  }

  /** A block splits at any row between its first and last. */
  lemma BlockSplitRows<T>(a: seq<seq<T>>, r0: nat, m: nat, r1: nat, c0: nat, c1: nat)
    requires r0 <= m <= r1 <= |a| && c0 <= c1
    requires forall i :: r0 <= i < r1 ==> c1 <= |a[i]|
    ensures Block(a, r0, r1, c0, c1) == Block(a, r0, m, c0, c1) + Block(a, m, r1, c0, c1)
  {
    assert SubRows(a, r0, r1, c0, c1) == SubRows(a, r0, m, c0, c1) + SubRows(a, m, r1, c0, c1);
    ArrayUtil.FlattenAppend(SubRows(a, r0, m, c0, c1), SubRows(a, m, r1, c0, c1));
  }

  /** A block of a single row is that row's slice. */
  lemma BlockOneRow<T>(a: seq<seq<T>>, r: nat, c0: nat, c1: nat)
    requires r < |a| && c0 <= c1 <= |a[r]|
    ensures Block(a, r, r + 1, c0, c1) == a[r][c0..c1]
  {
    var rows := SubRows(a, r, r + 1, c0, c1);
    assert rows[1..] == [];
    assert ArrayUtil.Flatten(rows) == rows[0] + ArrayUtil.Flatten(rows[1..]);
  }

  /** Every entry of a block is an entry of the array inside the block. */
  lemma BlockMember<T>(a: seq<seq<T>>, r0: nat, r1: nat, c0: nat, c1: nat, x: T) returns (i: nat, j: nat)
    requires r0 <= r1 <= |a| && c0 <= c1
    requires forall i :: r0 <= i < r1 ==> c1 <= |a[i]|
    requires x in Block(a, r0, r1, c0, c1)
    ensures r0 <= i < r1 && c0 <= j < c1 && a[i][j] == x
  {
    var rows := SubRows(a, r0, r1, c0, c1);
    ArrayUtil.FlattenMember(rows, x);
    var bi :| 0 <= bi < |rows| && x in rows[bi];
    var bj :| 0 <= bj < |rows[bi]| && rows[bi][bj] == x;
    i, j := r0 + bi, c0 + bj;
  }

  /** A block of entries within [lo, hi] flattens to values within [lo, hi]. */
  lemma BlockBounded(a: seq<seq<int>>, r0: nat, r1: nat, c0: nat, c1: nat, lo: int, hi: int)
    requires r0 <= r1 <= |a| && c0 <= c1
    requires forall i :: r0 <= i < r1 ==> c1 <= |a[i]|
    requires forall i, j :: r0 <= i < r1 && c0 <= j < c1 && j < |a[i]| ==> lo <= a[i][j] <= hi
    ensures forall k :: 0 <= k < |Block(a, r0, r1, c0, c1)| ==> lo <= Block(a, r0, r1, c0, c1)[k] <= hi
  {
    var b := Block(a, r0, r1, c0, c1);
    forall k | 0 <= k < |b| ensures lo <= b[k] <= hi {
      var i, j := BlockMember(a, r0, r1, c0, c1, b[k]);
    }
  }

  /** The h×w array whose entry at (i, j) is its own position. */
  function Coords(h: nat, w: nat): (a: seq<seq<(int, int)>>)
    ensures IsMatrix(a, h, w)
    ensures forall i, j :: 0 <= i < h && 0 <= j < w ==> a[i][j] == (i, j)
  {
    seq(h, i requires 0 <= i < h => seq(w, j requires 0 <= j < w => (i, j)))
  }

  /** The window around (r, c) that getNeighbors reads, with both ends
      clipped into the array: rows r0 ≤ i < r1 and columns c0 ≤ j < c1. */
  datatype Window = Window(r0: nat, r1: nat, c0: nat, c1: nat)

  function ClippedWindow(h: nat, w: nat, r: nat, c: nat, lowerOffset: int, upperOffset: int): (win: Window)
    requires r < h && c < w && lowerOffset <= 0 <= upperOffset
    ensures win.r0 <= r < win.r1 <= h && win.c0 <= c < win.c1 <= w
    ensures win.r0 == Max(0, r + lowerOffset) && win.r1 == ArrayUtil.Min(h, r + upperOffset + 1)
    ensures win.c0 == Max(0, c + lowerOffset) && win.c1 == ArrayUtil.Min(w, c + upperOffset + 1)
  {
    Window(Clip(0, h - 1, r + lowerOffset), Clip(0, h - 1, r + upperOffset) + 1,
           Clip(0, w - 1, c + lowerOffset), Clip(0, w - 1, c + upperOffset) + 1)
  }

  /** A window holding (r, c) whose rows all reach its last column. */
  ghost predicate WindowFits<T>(a: seq<seq<T>>, win: Window, r: nat, c: nat)
  {
    win.r0 <= r < win.r1 <= |a| && win.c0 <= c < win.c1
    && forall i :: win.r0 <= i < win.r1 ==> win.c1 <= |a[i]|
  }

  lemma ClippedWindowFits<T>(a: seq<seq<T>>, h: nat, w: nat, r: nat, c: nat, lowerOffset: int, upperOffset: int)
    requires IsMatrix(a, h, w) && r < h && c < w && lowerOffset <= 0 <= upperOffset
    ensures WindowFits(a, ClippedWindow(h, w, r, c, lowerOffset, upperOffset), r, c)
  {
  }

  /** The values of a window read row by row; without self, the band
      above, the cells left and right of (r, c) and the band below. */
  function WindowValues<T>(a: seq<seq<T>>, win: Window, r: nat, c: nat, includeSelf: bool): seq<T>
    requires WindowFits(a, win, r, c)
  {
    if includeSelf then Block(a, win.r0, win.r1, win.c0, win.c1)
    else
      Block(a, win.r0, r, win.c0, win.c1) + Block(a, r, r + 1, win.c0, c)
      + Block(a, r, r + 1, c + 1, win.c1) + Block(a, r + 1, win.r1, win.c0, win.c1)
  }

  /** `getNeighbors(a, r, c, lowerOffset, upperOffset, includeSelf)`: the
      values of the clipped window around (r, c). */
  function GetNeighbors<T>(a: seq<seq<T>>, h: nat, w: nat, r: nat, c: nat,
                           lowerOffset: int, upperOffset: int, includeSelf: bool): seq<T>
    requires IsMatrix(a, h, w) && r < h && c < w && lowerOffset <= 0 <= upperOffset
  {
    ClippedWindowFits(a, h, w, r, c, lowerOffset, upperOffset);
    WindowValues(a, ClippedWindow(h, w, r, c, lowerOffset, upperOffset), r, c, includeSelf)
  }

  /** The window splits into the band above, the row of (r, c) and the
      band below, and that row into left part, centre and right part. */
  lemma WindowSplit<T>(a: seq<seq<T>>, win: Window, r: nat, c: nat)
    requires WindowFits(a, win, r, c)
    ensures WindowValues(a, win, r, c, true)
         == Block(a, win.r0, r, win.c0, win.c1) + Block(a, r, r + 1, win.c0, c)
            + [a[r][c]] + Block(a, r, r + 1, c + 1, win.c1) + Block(a, r + 1, win.r1, win.c0, win.c1)
  {
    BlockSplitAround(a, win.r0, win.r1, win.c0, win.c1, r, c);
  }

  lemma BlockSplitAround<T>(a: seq<seq<T>>, r0: nat, r1: nat, c0: nat, c1: nat, r: nat, c: nat)
    requires r0 <= r < r1 <= |a| && c0 <= c < c1
    requires forall i :: r0 <= i < r1 ==> c1 <= |a[i]|
    ensures Block(a, r0, r1, c0, c1)
         == Block(a, r0, r, c0, c1) + Block(a, r, r + 1, c0, c)
            + [a[r][c]] + Block(a, r, r + 1, c + 1, c1) + Block(a, r + 1, r1, c0, c1)
  {
    BlockSplitRows(a, r0, r, r1, c0, c1);
    BlockSplitRows(a, r, r + 1, r1, c0, c1);
    RowSplit(a, r, c0, c, c1);
    SplitCombine(Block(a, r0, r1, c0, c1), Block(a, r0, r, c0, c1),
      Block(a, r, r1, c0, c1), Block(a, r, r + 1, c0, c1), Block(a, r + 1, r1, c0, c1),
      Block(a, r, r + 1, c0, c), a[r][c], Block(a, r, r + 1, c + 1, c1));
  }

  /** One row of a block splits around the cell at column c. */
  lemma RowSplit<T>(a: seq<seq<T>>, r: nat, c0: nat, c: nat, c1: nat)
    requires r < |a| && c0 <= c < c1 <= |a[r]|
    ensures Block(a, r, r + 1, c0, c1) == Block(a, r, r + 1, c0, c) + [a[r][c]] + Block(a, r, r + 1, c + 1, c1)
  {
    BlockOneRow(a, r, c0, c1);
    BlockOneRow(a, r, c0, c);
    BlockOneRow(a, r, c + 1, c1);
    assert a[r][c0..c1] == a[r][c0..c] + [a[r][c]] + a[r][c + 1..c1];
  }

  lemma SplitCombine<T>(whole: seq<T>, upper: seq<T>, rest: seq<T>, middle: seq<T>, lower: seq<T>,
                        left: seq<T>, x: T, right: seq<T>)
    requires whole == upper + rest && rest == middle + lower && middle == left + [x] + right
    ensures whole == upper + left + [x] + right + lower
  {
  }

  /** Leaving out self removes exactly the centre value, as multisets. */
  lemma WindowSelf<T>(a: seq<seq<T>>, win: Window, r: nat, c: nat)
    requires WindowFits(a, win, r, c)
    ensures multiset(WindowValues(a, win, r, c, true))
         == multiset(WindowValues(a, win, r, c, false)) + multiset{a[r][c]}
  {
    WindowSplit(a, win, r, c);
    var upper := Block(a, win.r0, r, win.c0, win.c1);
    var left := Block(a, r, r + 1, win.c0, c);
    var right := Block(a, r, r + 1, c + 1, win.c1);
    var lower := Block(a, r + 1, win.r1, win.c0, win.c1);
    assert multiset(upper + left + [a[r][c]] + right + lower)
        == multiset(upper + left + right + lower) + multiset{a[r][c]};
  }

  /** With self a window gives one value per cell, without self one fewer. */
  lemma WindowCount<T>(a: seq<seq<T>>, win: Window, r: nat, c: nat)
    requires WindowFits(a, win, r, c)
    ensures |WindowValues(a, win, r, c, true)| == (win.r1 - win.r0) * (win.c1 - win.c0)
    ensures |WindowValues(a, win, r, c, false)| == |WindowValues(a, win, r, c, true)| - 1
  {
    BlockLength(a, win.r0, win.r1, win.c0, win.c1);
    WindowSplit(a, win, r, c);
  }

  /** Every value read without self is the entry at a window cell other
      than (r, c). */
  lemma WindowMember<T>(a: seq<seq<T>>, win: Window, r: nat, c: nat, x: T) returns (i: nat, j: nat)
    requires WindowFits(a, win, r, c)
    requires x in WindowValues(a, win, r, c, false)
    ensures win.r0 <= i < win.r1 && win.c0 <= j < win.c1 && (i, j) != (r, c)
    ensures i < |a| && j < |a[i]| && a[i][j] == x
  {
    if x in Block(a, win.r0, r, win.c0, win.c1) {
      i, j := BlockMember(a, win.r0, r, win.c0, win.c1, x);
    } else if x in Block(a, r, r + 1, win.c0, c) {
      i, j := BlockMember(a, r, r + 1, win.c0, c, x);
    } else if x in Block(a, r, r + 1, c + 1, win.c1) {
      i, j := BlockMember(a, r, r + 1, c + 1, win.c1, x);
    } else {
      i, j := BlockMember(a, r + 1, win.r1, win.c0, win.c1, x);
    }
  }

  /** Leaving out self removes exactly the centre entry: the window holds
      the neighbours plus a[r][c], as multisets. */
  lemma GetNeighborsSelf<T>(a: seq<seq<T>>, h: nat, w: nat, r: nat, c: nat, lowerOffset: int, upperOffset: int)
    requires IsMatrix(a, h, w) && r < h && c < w && lowerOffset <= 0 <= upperOffset
    ensures multiset(GetNeighbors(a, h, w, r, c, lowerOffset, upperOffset, true))
         == multiset(GetNeighbors(a, h, w, r, c, lowerOffset, upperOffset, false)) + multiset{a[r][c]}
  {
    ClippedWindowFits(a, h, w, r, c, lowerOffset, upperOffset);
    WindowSelf(a, ClippedWindow(h, w, r, c, lowerOffset, upperOffset), r, c);
  }

  /** The window has (r1 - r0)·(c1 - c0) cells, and leaving out self reads
      one fewer. */
  lemma GetNeighborsCount<T>(a: seq<seq<T>>, h: nat, w: nat, r: nat, c: nat, lowerOffset: int, upperOffset: int)
    returns (win: Window, cells: nat)
    requires IsMatrix(a, h, w) && r < h && c < w && lowerOffset <= 0 <= upperOffset
    ensures win == ClippedWindow(h, w, r, c, lowerOffset, upperOffset)
    ensures cells == (win.r1 - win.r0) * (win.c1 - win.c0)
    ensures |GetNeighbors(a, h, w, r, c, lowerOffset, upperOffset, true)| == cells
    ensures |GetNeighbors(a, h, w, r, c, lowerOffset, upperOffset, false)| == cells - 1
  {
    win := ClippedWindow(h, w, r, c, lowerOffset, upperOffset);
    ClippedWindowFits(a, h, w, r, c, lowerOffset, upperOffset);
    WindowCount(a, win, r, c);
    cells := (win.r1 - win.r0) * (win.c1 - win.c0);
  }

  /** Every neighbour is the entry at a cell of the clipped window other
      than (r, c). */
  lemma NeighborMember<T>(a: seq<seq<T>>, h: nat, w: nat, r: nat, c: nat, lowerOffset: int, upperOffset: int, x: T)
    returns (i: nat, j: nat)
    requires IsMatrix(a, h, w) && r < h && c < w && lowerOffset <= 0 <= upperOffset
    requires x in GetNeighbors(a, h, w, r, c, lowerOffset, upperOffset, false)
    ensures var win := ClippedWindow(h, w, r, c, lowerOffset, upperOffset);
      win.r0 <= i < win.r1 && win.c0 <= j < win.c1 && (i, j) != (r, c) && a[i][j] == x
  {
    ClippedWindowFits(a, h, w, r, c, lowerOffset, upperOffset);
    i, j := WindowMember(a, ClippedWindow(h, w, r, c, lowerOffset, upperOffset), r, c, x);
  }

  /** Read on the array of positions, the neighbours are exactly cells of
      the clipped window other than (r, c). */
  lemma GetNeighborsPositions(h: nat, w: nat, r: nat, c: nat, lowerOffset: int, upperOffset: int)
    requires r < h && c < w && lowerOffset <= 0 <= upperOffset
    ensures var win := ClippedWindow(h, w, r, c, lowerOffset, upperOffset);
      forall x: (int, int) :: x in GetNeighbors(Coords(h, w), h, w, r, c, lowerOffset, upperOffset, false) ==>
        win.r0 <= x.0 < win.r1 && win.c0 <= x.1 < win.c1 && x != (r, c)
  {
    forall x: (int, int) | x in GetNeighbors(Coords(h, w), h, w, r, c, lowerOffset, upperOffset, false)
      ensures var win := ClippedWindow(h, w, r, c, lowerOffset, upperOffset);
        win.r0 <= x.0 < win.r1 && win.c0 <= x.1 < win.c1 && x != (r, c)
    {
      var i, j := NeighborMember(Coords(h, w), h, w, r, c, lowerOffset, upperOffset, x);
    }
  }

  // ----------------------------------------------------------------------
  // sort and percentile

  /** `sort(a)` flattens and calls JavaScript's default `Array.prototype.sort`,
      which compares the entries as strings. That order is not modelled: the
      sort is a parameter of everything that uses it, and all the model fixes
      is that it rearranges its input. */
  ghost predicate Rearranges(sort: seq<real> -> seq<real>)
  {
    forall s :: multiset(sort(s)) == multiset(s)
  }

  /** numjs `get(i)` on a 1-D array: a negative index counts from the end;
      anything still outside the array is undefined (None). */
  function Get(s: seq<real>, i: int): (r: Option<real>)
    ensures r.Some? <==> -|s| <= i < |s|
    ensures r.Some? ==> r.value == s[if i < 0 then i + |s| else i]
  {
    var j := if i < 0 then i + |s| else i;
    if 0 <= j < |s| then Some(s[j]) else None
  }

  /** The 0-based fractional position of the q-th percentile among n
      entries. */
  function Rank(n: nat, q: real): real
  {
    q / 100.0 * (n + 1) as real - 1.0
  }

  /** For 0 < q < 100 the rank lies strictly between -1 and n. */
  lemma RankInside(n: nat, q: real)
    ensures n > 0 && 0.0 < q < 100.0 ==> -1.0 < Rank(n, q) < n as real
  {
    if n > 0 && 0.0 < q < 100.0 {
      var f := q / 100.0;
      assert 0.0 < f < 1.0;
      var m := (n + 1) as real;
      MulPositive(f, m);
      assert m - f * m == (1.0 - f) * m;
      MulPositive(1.0 - f, m);
    }
  }

  /** The body of `percentile(a, q)` once the entries are in order: rank
      q/100·(n+1) - 1; an integral rank reads that entry, otherwise the two
      neighbouring entries are interpolated, and a missing one gives way to
      the other. None is the source's null. */
  function PercentileOf(sorted: seq<real>, q: real): (p: Option<real>)
    ensures |sorted| == 0 ==> p.None?
    ensures |sorted| > 0 && 0.0 < q < 100.0 ==> p.Some?
  {
    RankInside(|sorted|, q);
    var rank := Rank(|sorted|, q);
    if rank == rank.Floor as real then Get(sorted, rank.Floor)
    else
      var IR := rank.Floor;
      var FR := rank - IR as real;
      var lower := Get(sorted, IR);
      var upper := Get(sorted, IR + 1);
      if lower.None? && upper.None? then None
      else if lower.None? then upper
      else if upper.None? then lower
      else Some(Interpolate(lower.value, upper.value, FR))
  }

  /** The point the fraction fr of the way from lower to upper. */
  function Interpolate(lower: real, upper: real, fr: real): (x: real)
    ensures fr == 0.0 ==> x == lower
    ensures fr == 1.0 ==> x == upper
  {
    fr * (upper - lower) + lower
  }

  /** `percentile(a, q)`, with the default sort given as `sort`. */
  function Percentile(a: seq<real>, q: real, sort: seq<real> -> seq<real>): (p: Option<real>)
    ensures Rearranges(sort) && |a| == 0 ==> p.None?
    ensures Rearranges(sort) && |a| > 0 && 0.0 < q < 100.0 ==> p.Some?
  {
    assert Rearranges(sort) ==> |sort(a)| == |multiset(sort(a))| == |a|;
    PercentileOf(sort(a), q)
  }

  /** Between two entries that both exist the percentile interpolates. */
  lemma PercentileInterpolates(sorted: seq<real>, q: real)
    requires Rank(|sorted|, q) != Rank(|sorted|, q).Floor as real
    requires 0 <= Rank(|sorted|, q).Floor && Rank(|sorted|, q).Floor + 1 < |sorted|
    ensures var IR := Rank(|sorted|, q).Floor;
      PercentileOf(sorted, q)
      == Some(Interpolate(sorted[IR], sorted[IR + 1], Rank(|sorted|, q) - IR as real))
  {
  }

  lemma FractionOf(fr: real, d: real)
    requires 0.0 <= fr <= 1.0 && d >= 0.0
    ensures 0.0 <= fr * d <= d
  {
    assert d - fr * d == (1.0 - fr) * d;
  }

  lemma InterpolateBetween(lower: real, upper: real, fr: real, lo: real, hi: real)
    requires 0.0 <= fr <= 1.0 && lo <= lower <= hi && lo <= upper <= hi
    ensures lo <= Interpolate(lower, upper, fr) <= hi
  {
    if lower <= upper {
      InterpolateAscending(lower, upper, fr);
    } else {
      InterpolateDescending(lower, upper, fr);
    }
  }

  /** Interpolating upwards from `lower` to a larger `upper` stays between
      the two. */
  lemma InterpolateAscending(lower: real, upper: real, fr: real)
    requires 0.0 <= fr <= 1.0 && lower <= upper
    ensures lower <= Interpolate(lower, upper, fr) <= upper
  {
    FractionOf(fr, upper - lower);
  }

  /** Interpolating downwards from a larger `lower` to a smaller `upper`
      stays between the two. */
  lemma InterpolateDescending(lower: real, upper: real, fr: real)
    requires 0.0 <= fr <= 1.0 && upper <= lower
    ensures upper <= Interpolate(lower, upper, fr) <= lower
  {
    var d := lower - upper;
    var g := 1.0 - fr;
    FractionOf(g, d);
    assert g * d == d - fr * d;
    assert fr * (upper - lower) == -(fr * d);
  }

  /** Whatever the order, a percentile that exists lies within the bounds
      of the entries. */
  lemma PercentileWithin(sorted: seq<real>, q: real, lo: real, hi: real)
    requires forall k :: 0 <= k < |sorted| ==> lo <= sorted[k] <= hi
    ensures PercentileOf(sorted, q).Some? ==> lo <= PercentileOf(sorted, q).value <= hi
  {
    var rank := Rank(|sorted|, q);
    if rank != rank.Floor as real {
      var IR := rank.Floor;
      var lower := Get(sorted, IR);
      var upper := Get(sorted, IR + 1);
      if lower.Some? && upper.Some? {
        InterpolateBetween(lower.value, upper.value, rank - IR as real, lo, hi);
      }
    }
  }

  /** The median (q = 50) is null exactly for no entries; otherwise it is
      the middle entry for an odd count and the mean of the two middle
      entries for an even count, and no index wraps around. */
  lemma Median(sorted: seq<real>)
    ensures PercentileOf(sorted, 50.0).None? <==> |sorted| == 0
    ensures |sorted| % 2 == 1 ==> PercentileOf(sorted, 50.0) == Some(sorted[|sorted| / 2])
    ensures |sorted| % 2 == 0 && |sorted| > 0 ==>
      PercentileOf(sorted, 50.0) == Some((sorted[|sorted| / 2 - 1] + sorted[|sorted| / 2]) / 2.0)
  {
    var n := |sorted|;
    var rank := Rank(n, 50.0);
    var m := n / 2;
    if n % 2 == 1 {
      assert n == 2 * m + 1;
      assert rank == m as real;
      assert rank.Floor == m;
    } else {
      assert n == 2 * m;
      assert rank == m as real - 0.5;
      assert rank.Floor == m - 1;
      if n > 0 {
        var FR := rank - (m - 1) as real;
        assert FR == 0.5;
        assert Get(sorted, m - 1) == Some(sorted[m - 1]);
        assert Get(sorted, m) == Some(sorted[m]);
        PercentileInterpolates(sorted, 50.0);
        assert Interpolate(sorted[m - 1], sorted[m], FR) == (sorted[m - 1] + sorted[m]) / 2.0;
      }
    }
  }

  /** When every entry lies above t, so does a percentile that exists,
      whatever the order of the entries. */
  lemma PercentileAbove(sorted: seq<real>, q: real, t: real)
    requires forall k :: 0 <= k < |sorted| ==> sorted[k] > t
    ensures PercentileOf(sorted, q).Some? ==> PercentileOf(sorted, q).value > t
  {
    var rank := Rank(|sorted|, q);
    if rank != rank.Floor as real {
      var IR := rank.Floor;
      var lower := Get(sorted, IR);
      var upper := Get(sorted, IR + 1);
      if lower.Some? && upper.Some? {
        var lo := if lower.value <= upper.value then lower.value else upper.value;
        var hi := if lower.value <= upper.value then upper.value else lower.value;
        InterpolateBetween(lower.value, upper.value, rank - IR as real, lo, hi);
      }
    }
  }

  /** When every entry lies below t, so does a percentile that exists. */
  lemma PercentileBelow(sorted: seq<real>, q: real, t: real)
    requires forall k :: 0 <= k < |sorted| ==> sorted[k] < t
    ensures PercentileOf(sorted, q).Some? ==> PercentileOf(sorted, q).value < t
  {
    var rank := Rank(|sorted|, q);
    if rank != rank.Floor as real {
      var IR := rank.Floor;
      var lower := Get(sorted, IR);
      var upper := Get(sorted, IR + 1);
      if lower.Some? && upper.Some? {
        var lo := if lower.value <= upper.value then lower.value else upper.value;
        var hi := if lower.value <= upper.value then upper.value else lower.value;
        InterpolateBetween(lower.value, upper.value, rank - IR as real, lo, hi);
      }
    }
  }

  // ----------------------------------------------------------------------
  // reshape

  /** `reshape(h, w)`: consecutive runs of w entries become the rows
      (built from the last row back). */
  function Reshape<T>(flat: seq<T>, h: nat, w: nat): (m: seq<seq<T>>)
    requires |flat| == h * w
    ensures IsMatrix(m, h, w)
    decreases h
  {
    if h == 0 then []
    else
      assert |flat| - w == (h - 1) * w;
      Reshape(flat[..|flat| - w], h - 1, w) + [flat[|flat| - w..]]
  }

  /** Entry (i, j) of the reshaped array is entry i·w + j of the flat data. */
  lemma {:induction false} ReshapeAt<T>(flat: seq<T>, h: nat, w: nat, i: nat, j: nat)
    requires |flat| == h * w && i < h && j < w
    ensures i * w + j < |flat| && Reshape(flat, h, w)[i][j] == flat[i * w + j]
    decreases h
  {
    assert |flat| - w == (h - 1) * w;
    if i < h - 1 {
      ReshapeAt(flat[..|flat| - w], h - 1, w, i, j);
    } else {
      assert i * w == |flat| - w;
    }
  }

  /** Reshaping and flattening again gives back the flat data. */
  lemma {:induction false} ReshapeFlatten<T>(flat: seq<T>, h: nat, w: nat)
    requires |flat| == h * w
    ensures ArrayUtil.Flatten(Reshape(flat, h, w)) == flat
    decreases h
  {
    if h > 0 {
      assert |flat| - w == (h - 1) * w;
      var front := flat[..|flat| - w];
      var last := flat[|flat| - w..];
      ReshapeFlatten(front, h - 1, w);
      var rows := Reshape(front, h - 1, w);
      assert Reshape(flat, h, w) == rows + [last];
      ArrayUtil.FlattenAppend(rows, [last]);
      ArrayUtil.FlattenOne(last);
      assert flat == front + last;
    } else {
      assert flat == [];
    }
  }

  /** Reshape is the only matrix whose row i is flat[i·w .. i·w + w). */
  lemma ReshapeRows<T>(flat: seq<T>, h: nat, w: nat, m: seq<seq<T>>)
    requires |flat| == h * w && |m| == h
    requires forall i :: 0 <= i < h ==> i * w + w <= |flat| && m[i] == flat[i * w .. i * w + w]
    ensures m == Reshape(flat, h, w)
  {
    var r := Reshape(flat, h, w);
    forall i | 0 <= i < h
      ensures m[i] == r[i]
    {
      forall j | 0 <= j < w
        ensures m[i][j] == r[i][j]
      {
        ReshapeAt(flat, h, w, i, j);
      }
    }
  }
}
