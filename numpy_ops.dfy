/** The array operations the pixel-spectrum analysis is built from, on exact
    numbers: the median, `arange` over integers, `histogram` with its closed
    last bin, `convolve` with `mode="same"` against a flat kernel, `diff`
    and `flip`. Pixel values are integers (ADU); derived statistics are
    reals. */
module NumPy {

  function Abs(x: real): real
  {
    if x < 0.0 then -x else x
  }

  /** `np.ceil` of a real, as an integer. */
  function Ceil(x: real): (c: int)
    ensures x <= c as real < x + 1.0
  {
    -((-x).Floor)
  }

  function Sum(s: seq<int>): int
  {
    if s == [] then 0 else s[0] + Sum(s[1..])
  }

  function SumReal(s: seq<real>): real
  {
    if s == [] then 0.0 else s[0] + SumReal(s[1..])
  }

  predicate Sorted(s: seq<real>)
  {
    forall i, j :: 0 <= i < j < |s| ==> s[i] <= s[j]
  }

  function Insert(x: real, s: seq<real>): seq<real>
  {
    if s == [] || x <= s[0] then [x] + s else [s[0]] + Insert(x, s[1..])
  }

  /** Inserting adds exactly one occurrence of the value. */
  lemma {:induction false} InsertMultiset(x: real, s: seq<real>)
    ensures multiset(Insert(x, s)) == multiset(s) + multiset{x}
  {
    if s != [] && !(x <= s[0]) {
      InsertMultiset(x, s[1..]);
      assert s == [s[0]] + s[1..];
    }
  }

  /** Inserting into a sorted sequence keeps it sorted. */
  lemma {:induction false} InsertSorted(x: real, s: seq<real>)
    requires Sorted(s)
    ensures Sorted(Insert(x, s))
  {
    if s != [] && !(x <= s[0]) {
      var tail := s[1..];
      var rest := Insert(x, tail);
      assert Sorted(tail);
      InsertSorted(x, tail);
      InsertMultiset(x, tail);
      forall k | 0 <= k < |rest|
        ensures s[0] <= rest[k]
      {
        assert rest[k] in multiset(rest);
      }
      LeadSorted(s[0], rest);
    } else {
      LeadSorted(x, s);
    }
  }

  /** A value no greater than every element of a sorted sequence can lead it. */
  lemma LeadSorted(y: real, s: seq<real>)
    requires Sorted(s) && forall k :: 0 <= k < |s| ==> y <= s[k]
    ensures Sorted([y] + s)
  {
    var t := [y] + s;
    forall i, j | 0 <= i < j < |t|
      ensures t[i] <= t[j]
    {
      assert t[j] == s[j - 1];
      if i > 0 {
        assert t[i] == s[i - 1];
      }
    }
  }

  /** The values of `s` in ascending order. */
  function Sort(s: seq<real>): (r: seq<real>)
    ensures Sorted(r) && multiset(r) == multiset(s)
  {
    if s == [] then []
    else
      assert s == [s[0]] + s[1..];
      InsertSorted(s[0], Sort(s[1..]));
      InsertMultiset(s[0], Sort(s[1..]));
      Insert(s[0], Sort(s[1..]))
  }

  /** `np.median`: the middle value of the sorted values, or the mean of the
      two middle values when their number is even. */
  function Median(xs: seq<real>): real
    requires |xs| > 0
  {
    var s := Sort(xs);
    var n := |s|;
    if n % 2 == 1 then s[n / 2] else (s[n / 2 - 1] + s[n / 2]) / 2.0
  }

  /** The median lies between the least and the greatest value. */
  lemma MedianBounds(xs: seq<real>)
    requires |xs| > 0
    ensures exists i :: 0 <= i < |xs| && xs[i] <= Median(xs)
    ensures exists j :: 0 <= j < |xs| && Median(xs) <= xs[j]
  {
    var s := Sort(xs);
    assert s[0] in multiset(xs) && s[|s| - 1] in multiset(xs);
    var i :| 0 <= i < |xs| && xs[i] == s[0];
    var j :| 0 <= j < |xs| && xs[j] == s[|s| - 1];
    assert xs[i] <= Median(xs) <= xs[j];
  }

  /** The median of values that are all equal is that value. */
  lemma MedianOfConstant(xs: seq<real>, c: real)
    requires |xs| > 0
    requires forall i :: 0 <= i < |xs| ==> xs[i] == c
    ensures Median(xs) == c
  {
    var s := Sort(xs);
    forall k | 0 <= k < |s|
      ensures s[k] == c
    {
      assert s[k] in multiset(xs);
    }
  }

  /** The median of non-negative values is non-negative. */
  lemma MedianNonNegative(xs: seq<real>)
    requires |xs| > 0
    requires forall i :: 0 <= i < |xs| ==> xs[i] >= 0.0
    ensures Median(xs) >= 0.0
  {
    MedianBounds(xs);
  }

  /** `np.arange(lo, hi)` for integer bounds: lo, lo + 1, ... below hi. */
  function Arange(lo: int, hi: int): (r: seq<int>)
    ensures |r| == if hi > lo then hi - lo else 0
    ensures forall i :: 0 <= i < |r| ==> r[i] == lo + i && r[i] < hi
  {
    seq(if hi > lo then hi - lo else 0, i => lo + i)
  }

  /** The number of values `x` with `lo <= x < hi`, or `lo <= x <= hi` when
      `closed`. */
  function CountIn(values: seq<int>, lo: int, hi: int, closed: bool): (n: nat)
    ensures n <= |values|
  {
    if values == [] then 0
    else
      var x := values[|values| - 1];
      CountIn(values[..|values| - 1], lo, hi, closed) + (if lo <= x && (x < hi || (closed && x == hi)) then 1 else 0)
  }

  /** Two adjacent ranges count what their union counts. */
  lemma {:induction false} CountInSplit(values: seq<int>, lo: int, mid: int, hi: int, closed: bool)
    requires lo <= mid <= hi
    ensures CountIn(values, lo, mid, false) + CountIn(values, mid, hi, closed) == CountIn(values, lo, hi, closed)
  {
    if values != [] {
      CountInSplit(values[..|values| - 1], lo, mid, hi, closed);
    }
  }

  /** `np.histogram(values, bins=edges)[0]`: one count per pair of adjacent
      edges, half-open except for the last bin, which also counts values
      equal to the last edge. */
  function Counts(values: seq<int>, edges: seq<int>): (c: seq<int>)
    requires |edges| >= 2
    ensures |c| == |edges| - 1
    ensures forall i :: 0 <= i < |c| ==> c[i] == CountIn(values, edges[i], edges[i + 1], i == |c| - 1)
  {
    seq(|edges| - 1, i requires 0 <= i < |edges| - 1 =>
      CountIn(values, edges[i], edges[i + 1], i == |edges| - 2))
  }

  /** The counts add up to the number of values between the first and the
      last edge, both included. */
  lemma {:induction false} CountsTotal(values: seq<int>, edges: seq<int>)
    requires |edges| >= 2
    requires forall i :: 0 <= i < |edges| - 1 ==> edges[i] < edges[i + 1]
    ensures Sum(Counts(values, edges)) == CountIn(values, edges[0], edges[|edges| - 1], true)
  {
    var c := Counts(values, edges);
    if |edges| == 2 {
      assert c == [CountIn(values, edges[0], edges[1], true)];
    } else {
      var rest := edges[1..];
      CountsTotal(values, rest);
      assert c[1..] == Counts(values, rest);
      assert edges[1] <= edges[|edges| - 1] by {
        MonotoneEdges(edges, 1, |edges| - 1);
      }
      CountInSplit(values, edges[0], edges[1], edges[|edges| - 1], true);
    }
  }

  lemma {:induction false} MonotoneEdges(edges: seq<int>, i: nat, j: nat)
    requires forall k :: 0 <= k < |edges| - 1 ==> edges[k] < edges[k + 1]
    requires i <= j < |edges|
    ensures edges[i] <= edges[j]
  {
    if i < j {
      MonotoneEdges(edges, i, j - 1);
    }
  }

  /** `np.diff(s)`. */
  function Diff(s: seq<real>): (d: seq<real>)
    ensures |d| == if |s| == 0 then 0 else |s| - 1
    ensures forall i :: 0 <= i < |d| ==> d[i] == s[i + 1] - s[i]
  {
    if |s| < 2 then [] else [s[1] - s[0]] + Diff(s[1..])
  }

  /** The differences of a sequence add up to its last value minus its first. */
  lemma {:induction false} DiffTelescopes(s: seq<real>)
    requires |s| >= 1
    ensures SumReal(Diff(s)) == s[|s| - 1] - s[0]
  {
    if |s| > 1 {
      DiffTelescopes(s[1..]);
      assert Diff(s)[1..] == Diff(s[1..]);
    }
  }

  /** `np.flip(s)`. */
  function Flip<T>(s: seq<T>): (r: seq<T>)
    ensures |r| == |s| && forall i :: 0 <= i < |s| ==> r[i] == s[|s| - 1 - i]
  {
    seq(|s|, i requires 0 <= i < |s| => s[|s| - 1 - i])
  }

  /** Flipping twice gives the sequence back. */
  lemma FlipFlip<T>(s: seq<T>)
    ensures Flip(Flip(s)) == s
  {
  }

  /** The sum of `h[j]` over the indices `lo <= j <= hi` that exist. */
  function WindowSum(h: seq<int>, lo: int, hi: int): int
  {
    if h == [] then 0
    else
      var j := |h| - 1;
      WindowSum(h[..j], lo, hi) + (if lo <= j <= hi then h[j] else 0)
  }

  /** `np.convolve(h, np.ones(n) / n, mode="same")`: the full convolution is
      `full[k] = (h[k-n+1] + ... + h[k]) / n` with zeros outside `h`; the
      "same" mode keeps `max(|h|, n)` values of it starting at offset
      `m - 1 - m / 2`, where `m = min(|h|, n)`. */
  function MovingAverage(h: seq<int>, n: int): (r: seq<real>)
    requires |h| > 0 && n > 0
    ensures |r| == if |h| > n then |h| else n
  {
    var m := if |h| < n then |h| else n;
    var offset := m - 1 - m / 2;
    seq(if |h| > n then |h| else n, i => WindowSum(h, i + offset - (n - 1), i + offset) as real / n as real)
  }

  /** A window of one index sums just that element. */
  lemma {:induction false} WindowSumSingle(h: seq<int>, i: int)
    requires 0 <= i < |h|
    ensures WindowSum(h, i, i) == h[i]
  {
    var j := |h| - 1;
    if i < j {
      WindowSumSingle(h[..j], i);
    } else {
      WindowSumEmpty(h[..j], i);
    }
  }

  /** Indices at or past the end contribute nothing. */
  lemma {:induction false} WindowSumEmpty(h: seq<int>, lo: int)
    requires lo >= |h|
    ensures WindowSum(h, lo, lo) == 0
  {
    if h != [] {
      WindowSumEmpty(h[..|h| - 1], lo);
    }
  }

  /** With a one-point kernel the moving average is the histogram itself. */
  lemma MovingAverageOfOne(h: seq<int>)
    requires |h| > 0
    ensures |MovingAverage(h, 1)| == |h|
    ensures forall i :: 0 <= i < |h| ==> MovingAverage(h, 1)[i] == h[i] as real
  {
    forall i | 0 <= i < |h|
      ensures MovingAverage(h, 1)[i] == h[i] as real
    {
      WindowSumSingle(h, i);
    }
  }
}
