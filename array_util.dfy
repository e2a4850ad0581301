/** Array helpers of the Goldberg signature code: one-level flattening, flat
    mapping, fixed-stride windows and a left scan. */
module ArrayUtil {
  import opened Numeric

  function Min(a: int, b: int): int { if a <= b then a else b }

  /** Sum of the inner lengths. */
  function TotalLength<T>(xss: seq<seq<T>>): nat
  {
    if |xss| == 0 then 0 else |xss[0]| + TotalLength(xss[1..])
  }

  /** Concatenates the inner sequences, in order (one level only). */
  function Flatten<T>(xss: seq<seq<T>>): (r: seq<T>)
    ensures |r| == TotalLength(xss)
  {
    if |xss| == 0 then [] else xss[0] + Flatten(xss[1..])
  }

  /** Flattening distributes over concatenation of the outer sequence. */
  lemma {:induction false} FlattenAppend<T>(a: seq<seq<T>>, b: seq<seq<T>>)
    ensures Flatten(a + b) == Flatten(a) + Flatten(b)
    ensures TotalLength(a + b) == TotalLength(a) + TotalLength(b)
  {
    if |a| == 0 {
      assert a + b == b;
    } else {
      assert (a + b)[1..] == a[1..] + b;
      FlattenAppend(a[1..], b);
    }
  }

  /** Order is preserved: element j of inner sequence i sits right after all
      elements of the inner sequences before it. */
  lemma {:induction false} FlattenAt<T>(xss: seq<seq<T>>, i: nat, j: nat)
    requires i < |xss| && j < |xss[i]|
    ensures TotalLength(xss[..i]) + j < |Flatten(xss)|
    ensures Flatten(xss)[TotalLength(xss[..i]) + j] == xss[i][j]
  {
    if i > 0 {
      FlattenAt(xss[1..], i - 1, j);
      assert xss[..i] == [xss[0]] + xss[1..][..i - 1];
      FlattenAppend([xss[0]], xss[1..][..i - 1]);
      assert [xss[0]][1..] == [];
    } else {
      assert xss[..0] == [];
    }
  }

  /** An element occurs in the flattening exactly when it occurs in one of
      the inner sequences. */
  lemma {:induction false} FlattenMember<T>(xss: seq<seq<T>>, x: T)
    ensures x in Flatten(xss) <==> exists i :: 0 <= i < |xss| && x in xss[i]
  {
    if |xss| > 0 {
      FlattenMember(xss[1..], x);
      if x in Flatten(xss[1..]) {
        var i :| 0 <= i < |xss[1..]| && x in xss[1..][i];
        assert x in xss[i + 1];
      }
      if exists i :: 0 <= i < |xss| && x in xss[i] {
        var i :| 0 <= i < |xss| && x in xss[i];
        if i > 0 {
          assert x in xss[1..][i - 1];
        }
      }
    }
  }

  /** `flatMap(arr, f)`: map, then flatten one level; a value is in the
      result exactly when it is in the image of some entry. */
  function FlatMap<A, B(!new)>(arr: seq<A>, f: A -> seq<B>): (r: seq<B>)
    ensures forall y :: y in r <==> exists i :: 0 <= i < |arr| && y in f(arr[i])
  {
    var images := seq(|arr|, i requires 0 <= i < |arr| => f(arr[i]));
    FlattenMembers(images);
    assert forall i :: 0 <= i < |arr| ==> images[i] == f(arr[i]);
    Flatten(images)
  }

  lemma FlattenMembers<T>(xss: seq<seq<T>>)
    ensures forall x :: x in Flatten(xss) <==> exists i :: 0 <= i < |xss| && x in xss[i]
  {
    forall x {
      FlattenMember(xss, x);
    }
  }

  /** flatMap over a concatenation is the concatenation of the flatMaps, and
      its length adds up the lengths of the images. */
  lemma FlatMapAppend<A, B(!new)>(a: seq<A>, b: seq<A>, f: A -> seq<B>)
    ensures FlatMap(a + b, f) == FlatMap(a, f) + FlatMap(b, f)
  {
    var ma := seq(|a|, i requires 0 <= i < |a| => f(a[i]));
    var mb := seq(|b|, i requires 0 <= i < |b| => f(b[i]));
    assert seq(|a + b|, i requires 0 <= i < |a + b| => f((a + b)[i])) == ma + mb;
    FlattenAppend(ma, mb);
  }

  /** flatMap over a single element is that element's image. */
  lemma FlatMapOne<A, B(!new)>(x: A, f: A -> seq<B>)
    ensures FlatMap([x], f) == f(x)
  {
    var m := seq(1, i requires 0 <= i < 1 => f([x][i]));
    assert m == [f(x)];
    assert m[1..] == [];
  }

  /** Number of windows `sliding` produces: ⌈n / increment⌉. */
  function GroupCount(n: nat, increment: nat): nat
    requires increment > 0
  {
    (n + increment - 1) / increment
  }

  lemma MulCancel(a: int, b: int, d: int)
    requires d > 0 && a * d < b * d
    ensures a < b
  {
    assert (b - a) * d == b * d - a * d;
  }

  lemma MulMono(a: int, b: int, d: int)
    requires a <= b && d >= 0
    ensures a * d <= b * d
  {
    assert b * d - a * d == (b - a) * d;
  }

  lemma DivUnique(x: int, d: int, q: int)
    requires d > 0 && q * d <= x < (q + 1) * d
    ensures x / d == q
  {
    var r := x / d;
    assert x == r * d + x % d;
    assert (r + 1) * d == r * d + d;
    MulCancel(q, r + 1, d);
    MulCancel(r, q + 1, d);
  }

  /** k < n·width splits into a row k / width < n and a column k % width. */
  lemma DivModSplit(k: nat, n: nat, width: nat)
    requires width > 0 && k < n * width
    ensures k / width < n && k % width < width
    ensures k == (k / width) * width + k % width
  {
    var i := k / width;
    assert k == i * width + k % width;
    if i >= n {
      MulMono(n, i, width);
    }
  }

  lemma GroupCountBounds(n: nat, increment: nat)
    requires increment > 0
    ensures GroupCount(n, increment) * increment <= n + increment - 1
    ensures n + increment - 1 < (GroupCount(n, increment) + 1) * increment
  {
    var x := n + increment - 1;
    assert x == (x / increment) * increment + x % increment;
  }

  /** Window k starts inside the array exactly when k < ⌈n / increment⌉. */
  lemma GroupStartInside(n: nat, increment: nat, k: nat)
    requires increment > 0
    ensures k < GroupCount(n, increment) <==> k * increment < n
  {
    var g := GroupCount(n, increment);
    GroupCountBounds(n, increment);
    if k < g {
      assert (k + 1) * increment <= g * increment;
    } else {
      assert g * increment <= k * increment;
    }
  }

  /** Removing the first `increment` elements removes exactly one window. */
  lemma GroupCountStep(n: nat, increment: nat)
    requires 0 < increment < n
    ensures GroupCount(n, increment) == GroupCount(n - increment, increment) + 1
  {
    var q := GroupCount(n - increment, increment);
    GroupCountBounds(n - increment, increment);
    assert (q + 1) * increment == q * increment + increment;
    assert (q + 2) * increment == (q + 1) * increment + increment;
    DivUnique(n + increment - 1, increment, q + 1);
  }

  lemma GroupCountOne(n: nat, increment: nat)
    requires 0 < n <= increment
    ensures GroupCount(n, increment) == 1
  {
    DivUnique(n + increment - 1, increment, 1);
  }

  lemma GroupStartsInside(n: nat, increment: nat)
    requires increment > 0
    ensures forall k :: 0 <= k < GroupCount(n, increment) ==> k * increment < n
  {
    forall k | 0 <= k < GroupCount(n, increment)
      ensures k * increment < n
    {
      GroupStartInside(n, increment, k);
    }
  }

  /** The windows of `sliding`: window k is arr[k·inc .. min(k·inc + g, n)). */
  function Windows<T>(arr: seq<T>, groupSize: nat, increment: nat): (w: seq<seq<T>>)
    requires increment > 0
    ensures |w| == GroupCount(|arr|, increment)
    ensures forall k :: 0 <= k < |w| ==> |w[k]| <= groupSize && (groupSize > 0 ==> |w[k]| > 0)
  {
    GroupStartsInside(|arr|, increment);
    seq(GroupCount(|arr|, increment), k requires 0 <= k < GroupCount(|arr|, increment) =>
      GroupStartInside(|arr|, increment, k);
      arr[k * increment .. Min(k * increment + groupSize, |arr|)])
  }

  /** `sliding(arr, groupSize, increment)`: the loop that pushes
      arr.slice(i, i + groupSize) for i = 0, inc, 2·inc, … while i < n. */
  method Sliding<T>(arr: seq<T>, groupSize: nat, increment: nat) returns (result: seq<seq<T>>)
    requires increment > 0
    ensures result == Windows(arr, groupSize, increment)
  {
    result := [];
    var i := 0;
    while i < |arr|
      invariant i == |result| * increment
      invariant |result| <= GroupCount(|arr|, increment)
      invariant result == Windows(arr, groupSize, increment)[..|result|]
    {
      GroupStartInside(|arr|, increment, |result|);
      result := result + [arr[i .. Min(i + groupSize, |arr|)]];
      i := i + increment;
    }
    GroupStartInside(|arr|, increment, |result|);
  }

  /** The RGBA case: sliding(arr, 3, 4) over whole pixels gives one window per
      pixel holding its R, G and B. */
  lemma PixelWindows<T>(arr: seq<T>)
    requires |arr| % 4 == 0
    ensures |Windows(arr, 3, 4)| == |arr| / 4
    ensures forall k :: 0 <= k < |arr| / 4 ==>
      Windows(arr, 3, 4)[k] == [arr[4 * k], arr[4 * k + 1], arr[4 * k + 2]]
  {
    var n := |arr|;
    assert (n + 3) / 4 == n / 4;
    forall k | 0 <= k < n / 4
      ensures Windows(arr, 3, 4)[k] == [arr[4 * k], arr[4 * k + 1], arr[4 * k + 2]]
    {
      assert 4 * k + 4 <= n;
      WindowAt(arr, 3, 4, k);
      assert k * 4 == 4 * k && Min(4 * k + 3, n) == 4 * k + 3;
      var w := arr[4 * k .. 4 * k + 3];
      assert w[0] == arr[4 * k] && w[1] == arr[4 * k + 1] && w[2] == arr[4 * k + 2];
    }
  }

  /** Window k, for k below the window count, starts inside the array. */
  lemma WindowAt<T>(arr: seq<T>, groupSize: nat, increment: nat, k: nat)
    requires increment > 0 && k < GroupCount(|arr|, increment)
    ensures k * increment < |arr|
    ensures Windows(arr, groupSize, increment)[k] == arr[k * increment .. Min(k * increment + groupSize, |arr|)]
  {
    GroupStartInside(|arr|, increment, k);
  }

  lemma MulSucc(k: int, g: int)
    ensures (k + 1) * g == k * g + g
  {
  }

  /** A slice of a suffix is a slice of the whole. */
  lemma SliceOfSuffix<T>(arr: seq<T>, g: nat, lo: nat, hi: nat)
    requires g <= |arr| && lo <= hi <= |arr| - g
    ensures arr[g..][lo..hi] == arr[g + lo .. g + hi]
  {
  }

  /** Windows as wide as their stride: the first one, then the windows of the
      rest of the array. */
  lemma WindowsStep<T>(arr: seq<T>, g: nat)
    requires 0 < g < |arr|
    ensures Windows(arr, g, g) == [arr[..g]] + Windows(arr[g..], g, g)
  {
    var n := |arr|;
    var w := Windows(arr, g, g);
    var rest := arr[g..];
    var wr := Windows(rest, g, g);
    GroupCountStep(n, g);
    assert |w| == |wr| + 1;
    forall k | 0 <= k < |w| ensures w[k] == ([arr[..g]] + wr)[k] {
      if k == 0 {
        WindowAt(arr, g, g, 0);
        assert 0 * g == 0;
      } else {
        var s := (k - 1) * g;
        MulSucc(k - 1, g);
        WindowAt(rest, g, g, k - 1);
        WindowAt(arr, g, g, k);
        SliceOfSuffix(arr, g, s, Min(s + g, n - g));
      }
    }
  }

  lemma WindowsSingle<T>(arr: seq<T>, g: nat)
    requires 0 < |arr| <= g
    ensures Windows(arr, g, g) == [arr]
  {
    var w := Windows(arr, g, g);
    GroupCountOne(|arr|, g);
    assert |w| == 1;
    assert 0 * g == 0 && Min(0 * g + g, |arr|) == |arr|;
    assert w[0] == arr[0 * g .. Min(0 * g + g, |arr|)];
    assert w[0] == arr;
  }

  /** Taking one more inner sequence adds its length. */
  lemma TotalLengthSnoc<T>(xss: seq<seq<T>>, k: nat)
    requires 0 < k <= |xss|
    ensures TotalLength(xss[..k]) == TotalLength(xss[..k - 1]) + |xss[k - 1]|
  {
    assert xss[..k] == xss[..k - 1] + [xss[k - 1]];
    FlattenAppend(xss[..k - 1], [xss[k - 1]]);
    assert [xss[k - 1]][1..] == [];
  }

  lemma FlattenOne<T>(xs: seq<T>)
    ensures Flatten([xs]) == xs
  {
    assert [xs][1..] == [];
  }

  /** Windows as wide as their stride tile the array: flattening them gives
      the array back. */
  lemma {:induction false} TilingWindowsFlatten<T>(arr: seq<T>, g: nat)
    requires g > 0
    ensures Flatten(Windows(arr, g, g)) == arr
    decreases |arr|
  {
    if |arr| == 0 {
      assert Windows(arr, g, g) == [];
    } else if |arr| <= g {
      WindowsSingle(arr, g);
      FlattenOne(arr);
    } else {
      var rest := Windows(arr[g..], g, g);
      WindowsStep(arr, g);
      TilingWindowsFlatten(arr[g..], g);
      FlattenAppend([arr[..g]], rest);
      FlattenOne(arr[..g]);
      assert Flatten(Windows(arr, g, g)) == arr[..g] + arr[g..];
      assert arr[..g] + arr[g..] == arr;
    }
  }

  /** `scanLeft(initial, arr, op)`: the running results of folding `op` from
      the left, starting with `initial`. */
  method ScanLeft<A, B>(initial: A, arr: seq<B>, op: (A, B) -> A) returns (r: seq<A>)
    ensures |r| == |arr| + 1 && r[0] == initial
    ensures forall k :: 0 <= k < |arr| ==> r[k + 1] == op(r[k], arr[k])
  {
    r := [initial];
    var memo := initial;
    for i := 0 to |arr|
      invariant |r| == i + 1 && r[0] == initial && memo == r[i]
      invariant forall k :: 0 <= k < i ==> r[k + 1] == op(r[k], arr[k])
    {
      memo := op(memo, arr[i]);
      r := r + [memo];
    }
  }

  /** A scan with + from 0 holds the exclusive prefix sums; in particular it
      ends with the total and, without its head, gives the inclusive prefix
      sums that `cumsum` returns. */
  lemma {:induction false} ScanPlusIsPrefixSums(arr: seq<int>, r: seq<int>)
    requires |r| == |arr| + 1 && r[0] == 0
    requires forall k :: 0 <= k < |arr| ==> r[k + 1] == r[k] + arr[k]
    ensures forall k :: 0 <= k <= |arr| ==> r[k] == SeqSum(arr[..k])
    ensures r[|arr|] == SeqSum(arr)
  {
    if |arr| > 0 {
      var n := |arr| - 1;
      ScanPlusIsPrefixSums(arr[..n], r[..n + 1]);
      assert arr[..n + 1] == arr;
      forall k | 0 <= k <= n ensures r[k] == SeqSum(arr[..k]) {
        assert arr[..n][..k] == arr[..k];
      }
      assert arr[..n + 1][..n] == arr[..n];
    } else {
      assert arr[..0] == arr;
    }
  }
}
