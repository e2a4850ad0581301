/** Arithmetic shared by the modules: sums, JavaScript's Math.round on exact
    reals, and ordering predicates. */
module Numeric {

  /** Sum of a sequence of integers, peeled from the end so that a running
      (prefix) sum extends by one element at a time. */
  function SeqSum(s: seq<int>): int
  {
    if |s| == 0 then 0 else SeqSum(s[..|s| - 1]) + s[|s| - 1]
  }

  /** Sum of a sequence of reals, peeled from the end. */
  function RealSum(s: seq<real>): real
  {
    if |s| == 0 then 0.0 else RealSum(s[..|s| - 1]) + s[|s| - 1]
  }

  /** JavaScript's Math.round on an exact real: the nearest integer, halves
      rounded up. */
  function Round(x: real): (r: int)
    ensures x - 0.5 < r as real <= x + 0.5
  {
    (x + 0.5).Floor
  }

  function Abs(x: int): (r: nat)
    ensures r == x || r == -x
  {
    if x < 0 then -x else x
  }

  ghost predicate Sorted(s: seq<int>)
  {
    forall i, j :: 0 <= i <= j < |s| ==> s[i] <= s[j]
  }

  ghost predicate SortedReals(s: seq<real>)
  {
    forall i, j :: 0 <= i <= j < |s| ==> s[i] <= s[j]
  }

  lemma SeqSumSnoc(s: seq<int>, x: int)
    ensures SeqSum(s + [x]) == SeqSum(s) + x
  {
    assert (s + [x])[..|s|] == s;
  }

  lemma RealSumSnoc(s: seq<real>, x: real)
    ensures RealSum(s + [x]) == RealSum(s) + x
  {
    assert (s + [x])[..|s|] == s;
  }

  /** A sum of |s| terms each within [lo, hi] lies within [|s|·lo, |s|·hi]. */
  lemma {:induction false} SeqSumBounds(s: seq<int>, lo: int, hi: int)
    requires forall k :: 0 <= k < |s| ==> lo <= s[k] <= hi
    ensures |s| * lo <= SeqSum(s) <= |s| * hi
  {
    if |s| > 0 {
      SeqSumBounds(s[..|s| - 1], lo, hi);
    }
  }

  lemma {:induction false} RealSumBounds(s: seq<real>, lo: real, hi: real)
    requires forall k :: 0 <= k < |s| ==> lo <= s[k] <= hi
    ensures |s| as real * lo <= RealSum(s) <= |s| as real * hi
  {
    if |s| > 0 {
      RealSumBounds(s[..|s| - 1], lo, hi);
    }
  }

  /** Rounding keeps a value inside a range with integer ends. */
  lemma RoundWithin(x: real, lo: int, hi: int)
    requires lo as real <= x <= hi as real
    ensures lo <= Round(x) <= hi
  {
  }

  lemma DivideBetween(x: real, n: real, lo: real, hi: real)
    requires n > 0.0 && n * lo <= x <= n * hi
    ensures lo <= x / n <= hi
  {
    var q := x / n;
    assert q * n == x;
    assert (q - lo) * n == x - n * lo;
    assert (hi - q) * n == n * hi - x;
  }

  /** The product of two non-negative reals is non-negative. */
  lemma MulNonNegative(x: real, y: real)
    requires x >= 0.0 && y >= 0.0
    ensures x * y >= 0.0
  {
  }

  /** The product of two positive reals is positive. */
  lemma MulPositive(x: real, y: real)
    requires x > 0.0 && y > 0.0
    ensures x * y > 0.0
  {
  }

  /** Floor is monotone. */
  lemma FloorMonotone(x: real, y: real)
    requires x <= y
    ensures x.Floor <= y.Floor
  {
    assert x.Floor as real <= x;
    assert y < y.Floor as real + 1.0;
  }

  /** Scaling by a non-negative factor keeps the order. */
  lemma ScaleMonotone(n: real, x: real, y: real)
    requires n >= 0.0 && x <= y
    ensures n * x <= n * y
  {
    assert n * y - n * x == n * (y - x);
    MulNonNegative(n, y - x);
  }
}
