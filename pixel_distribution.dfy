/** The pixel-spectrum preprocessing of the skipper-CCD analysis
    (analysis/PixelDistribution.py): robust statistics over the positive
    pixels, the integer-ADU histogram window, the moving-average peak finder,
    and the layout of the fit windows around the peaks it finds. */
module PixelDistribution {
  import opened Wrappers
  import opened NumPy

  /** The default `scale` of `scipy.stats.median_absolute_deviation`, which
      makes the MAD of normally distributed data estimate its standard
      deviation. */
  const MadScale: real := 1.4826

  predicate AllNonPositive(image: seq<int>)
  {
    forall i :: 0 <= i < |image| ==> image[i] <= 0
  }

  /** `image[image > 0]`, as reals, in pixel order. */
  function Positives(image: seq<int>): (p: seq<real>)
    ensures |p| <= |image|
    ensures |p| == 0 <==> AllNonPositive(image)
    ensures forall k :: 0 <= k < |p| ==> p[k] > 0.0
    ensures forall k :: 0 <= k < |p| ==> exists j :: 0 <= j < |image| && image[j] as real == p[k]
  {
    if image == [] then []
    else
      var rest := Positives(image[1..]);
      assert forall k :: 0 <= k < |rest| ==> exists j :: 0 <= j < |image| && image[j] as real == rest[k] by {
        forall k | 0 <= k < |rest|
          ensures exists j :: 0 <= j < |image| && image[j] as real == rest[k]
        {
          var j :| 0 <= j < |image[1..]| && image[1..][j] as real == rest[k];
          assert image[j + 1] as real == rest[k];
        }
      }
      assert AllNonPositive(image) <==> image[0] <= 0 && AllNonPositive(image[1..]) by {
        if image[0] <= 0 && AllNonPositive(image[1..]) {
          forall i | 0 <= i < |image|
            ensures image[i] <= 0
          {
            if i > 0 {
              assert image[i] == image[1..][i - 1];
            }
          }
        }
      }
      (if image[0] > 0 then [image[0] as real] else []) + rest
  }

  /** Every positive pixel value occurs among the positives exactly as often
      as in the image. */
  lemma {:induction false} PositivesMultiplicity(image: seq<int>, x: int)
    requires x > 0
    ensures multiset(Positives(image))[x as real] == multiset(image)[x]
  {
    if image != [] {
      var head, tail := image[0], image[1..];
      var rest := Positives(tail);
      PositivesMultiplicity(tail, x);
      assert image == [head] + tail;
      if head > 0 {
        assert Positives(image) == [head as real] + rest;
        MultiplicityOfConcat([head as real], rest, x as real);
      } else {
        assert Positives(image) == rest;
      }
      MultiplicityOfConcat([head], tail, x);
    }
  }

  lemma MultiplicityOfConcat<T>(a: seq<T>, b: seq<T>, y: T)
    ensures multiset(a + b)[y] == multiset(a)[y] + multiset(b)[y]
  {
  }

  function AbsDeviations(xs: seq<real>, center: real): (d: seq<real>)
    ensures |d| == |xs| && forall i :: 0 <= i < |xs| ==> d[i] >= 0.0
  {
    seq(|xs|, i requires 0 <= i < |xs| => Abs(xs[i] - center))
  }

  /** `scipy.stats.median_absolute_deviation(xs, axis=None)`: the scale
      times the median distance from the median. */
  function MedianAbsDeviation(xs: seq<real>): (m: real)
    requires |xs| > 0
    ensures m >= 0.0
  {
    var deviations := AbsDeviations(xs, Median(xs));
    MedianNonNegative(deviations);
    MadScale * Median(deviations)
  }

  datatype Stats = Stats(med: real, mad: real)

  /** `estimateDistributionParameters(image)`: (0, 1) when no pixel is
      positive; otherwise the median of the positive pixels and their MAD,
      raised to 1 when it is smaller. */
  function EstimateDistributionParameters(image: seq<int>): (r: Stats)
    ensures AllNonPositive(image) ==> r == Stats(0.0, 1.0)
    ensures r.mad >= 1.0
    ensures !AllNonPositive(image) ==>
      var mad := MedianAbsDeviation(Positives(image));
      r.mad >= mad && (r.mad == mad || r.mad == 1.0)
  {
    if AllNonPositive(image) then Stats(0.0, 1.0)
    else
      var positives := Positives(image);
      var mad := MedianAbsDeviation(positives);
      Stats(Median(positives), if mad > 1.0 then mad else 1.0)
  }

  /** The median is taken over the positive pixels only, so it lies between
      the smallest and the largest of them. */
  lemma MedianWithinPositives(image: seq<int>)
    requires !AllNonPositive(image)
    ensures exists i :: 0 <= i < |image| && image[i] > 0 && image[i] as real <= EstimateDistributionParameters(image).med
    ensures exists j :: 0 <= j < |image| && image[j] > 0 && EstimateDistributionParameters(image).med <= image[j] as real
  {
    var p := Positives(image);
    var med := EstimateDistributionParameters(image).med;
    MedianBounds(p);
    var a :| 0 <= a < |p| && p[a] <= med;
    var b :| 0 <= b < |p| && med <= p[b];
    var i :| 0 <= i < |image| && image[i] as real == p[a];
    var j :| 0 <= j < |image| && image[j] as real == p[b];
    assert image[i] > 0 && image[j] > 0;
  }

  /** An image whose pixels all hold the same positive value `c` has median
      `c` and, its MAD being 0, the floor value 1. */
  lemma ConstantImageStats(image: seq<int>, c: int)
    requires |image| > 0 && c > 0
    requires forall i :: 0 <= i < |image| ==> image[i] == c
    ensures EstimateDistributionParameters(image) == Stats(c as real, 1.0)
  {
    assert image[0] > 0;
    var p := Positives(image);
    forall k | 0 <= k < |p|
      ensures p[k] == c as real
    {
      var j :| 0 <= j < |image| && image[j] as real == p[k];
    }
    MedianOfConstant(p, c as real);
    var deviations := AbsDeviations(p, c as real);
    MedianOfConstant(deviations, 0.0);
  }

  /** `minRange` taken as a condition: `None` and 0 are false. */
  predicate Truthy(minRange: Option<real>)
  {
    minRange.Some? && minRange.value != 0.0
  }

  /** Whether the histogram spans `minRange` instead of nsigma MADs. */
  predicate UsesMinRange(stats: Stats, nsigma: real, minRange: Option<real>)
  {
    Truthy(minRange) && 2.0 * nsigma * stats.mad < minRange.value
  }

  /** The `np.arange` bounds of the histogram edges. */
  function Window(stats: Stats, nsigma: real, minRange: Option<real>): (int, int)
  {
    if UsesMinRange(stats, nsigma, minRange) then
      ((stats.med - minRange.value / 2.0).Floor, Ceil(stats.med + minRange.value / 2.0))
    else
      ((stats.med - nsigma * stats.mad).Floor, Ceil(stats.med + nsigma * stats.mad))
  }

  /** The window always covers med +/- nsigma * mad; when it spans
      `minRange` instead, it is at least `minRange` wide. */
  lemma WindowCovers(stats: Stats, nsigma: real, minRange: Option<real>)
    requires nsigma * stats.mad >= 0.0
    ensures var (lo, hi) := Window(stats, nsigma, minRange);
      lo as real <= stats.med - nsigma * stats.mad && stats.med + nsigma * stats.mad <= hi as real
    ensures UsesMinRange(stats, nsigma, minRange) ==>
      var (lo, hi) := Window(stats, nsigma, minRange);
      (hi - lo) as real >= minRange.value
  {
  }

  datatype Histogram = Histogram(hpix: seq<int>, centers: seq<real>, edges: seq<int>)

  /** What the histogram step can raise: with fewer than two edges,
      `np.diff(edges)[0]` does not exist. */
  datatype HistogramError = TooFewEdges

  /** `edges[:-1] + np.diff(edges)[0] / 2`. */
  function Centers(edges: seq<int>): (c: seq<real>)
    requires |edges| >= 2
    ensures |c| == |edges| - 1
  {
    seq(|edges| - 1, i requires 0 <= i < |edges| - 1 => edges[i] as real + (edges[1] - edges[0]) as real / 2.0)
  }

  /** The histogram of `image` on the window given by `stats`: the body of
      `histogramImage` once the median and MAD are known. */
  function HistogramWith(image: seq<int>, stats: Stats, nsigma: real, minRange: Option<real>): (r: Result<Histogram, HistogramError>)
    ensures var (lo, hi) := Window(stats, nsigma, minRange);
      && (r.Ok? <==> hi - lo >= 2)
      && (r.Ok? ==>
        var h := r.value;
        && |h.edges| == hi - lo && h.edges[0] == lo
        && (forall i :: 0 <= i < |h.edges| ==> h.edges[i] == lo + i && h.edges[i] < hi)
        && |h.hpix| == |h.edges| - 1 && |h.centers| == |h.edges| - 1
        && (forall i :: 0 <= i < |h.centers| ==> h.centers[i] == h.edges[i] as real + 0.5)
        && (forall i :: 0 <= i < |h.hpix| ==> h.hpix[i] == CountIn(image, h.edges[i], h.edges[i + 1], i == |h.hpix| - 1)))
  {
    var (lo, hi) := Window(stats, nsigma, minRange);
    var edges := Arange(lo, hi);
    if |edges| < 2 then Err(TooFewEdges)
    else
      var counts := Counts(image, edges);
      var centers := Centers(edges);
      assert forall i :: 0 <= i < |centers| ==> centers[i] == edges[i] as real + 0.5 by {
        assert edges[1] - edges[0] == 1;
      }
      Ok(Histogram(counts, centers, edges))
  }

  /** `histogramImage(image, nsigma, minRange)`. */
  function HistogramImage(image: seq<int>, nsigma: real := 3.0, minRange: Option<real> := None): Result<Histogram, HistogramError>
  {
    HistogramWith(image, EstimateDistributionParameters(image), nsigma, minRange)
  }

  /** Every pixel between the first and the last edge is counted exactly
      once; the last bin is closed on the right. */
  lemma HistogramTotal(image: seq<int>, stats: Stats, nsigma: real, minRange: Option<real>)
    requires HistogramWith(image, stats, nsigma, minRange).Ok?
    ensures var h := HistogramWith(image, stats, nsigma, minRange).value;
      Sum(h.hpix) == CountIn(image, h.edges[0], h.edges[|h.edges| - 1], true)
  {
    var h := HistogramWith(image, stats, nsigma, minRange).value;
    CountsTotal(image, h.edges);
  }

  /** With the default three MADs and statistics from the image itself the
      window is at least six ADU wide, so the histogram always exists. */
  lemma DefaultHistogramExists(image: seq<int>, minRange: Option<real>)
    ensures var r := HistogramWith(image, EstimateDistributionParameters(image), 3.0, minRange);
      r.Ok? && |r.value.edges| >= 6
  {
    var stats := EstimateDistributionParameters(image);
    WindowCovers(stats, 3.0, minRange);
    var (lo, hi) := Window(stats, 3.0, minRange);
    assert (hi - lo) as real >= 6.0 * stats.mad;
    assert hi - lo >= 6;
  }

  /** What `findPeakPosition` can raise. */
  datatype PeakError =
    | ValueError(message: string)
    | IndexError

  datatype Peaks = Peaks(maxima: seq<real>, minima: seq<real>)

  /** The rising-then-falling test at index `i` of the mask, where `d` are
      the differences of the smoothed curve and `t` the threshold. */
  predicate IsMaximum(d: seq<real>, t: real, i: int)
  {
    1 <= i <= |d| - 1 && d[i - 1] > t && d[i] < -t
  }

  /** The falling-then-rising test, mirrored. */
  predicate IsMinimum(d: seq<real>, t: real, i: int)
  {
    1 <= i <= |d| - 1 && d[i - 1] < -t && d[i] > t
  }

  predicate Flagged(d: seq<real>, t: real, maxima: bool, i: int)
  {
    if maxima then IsMaximum(d, t, i) else IsMinimum(d, t, i)
  }

  /** `np.nonzero` of the mask from index `from` on: the flagged indices in
      ascending order. */
  function FlaggedFrom(d: seq<real>, t: real, maxima: bool, from: nat): (r: seq<nat>)
    ensures forall k :: 0 <= k < |r| ==> from <= r[k] && Flagged(d, t, maxima, r[k])
    ensures forall i: nat :: from <= i && Flagged(d, t, maxima, i) ==> i in r
    ensures forall a, b :: 0 <= a < b < |r| ==> r[a] < r[b]
    decreases |d| - from
  {
    if from >= |d| then []
    else
      var rest := FlaggedFrom(d, t, maxima, from + 1);
      if Flagged(d, t, maxima, from) then [from] + rest else rest
  }

  /** The differences of the smoothed histogram. */
  function Derivative(h: seq<int>, n: int): seq<real>
    requires |h| > 0 && n > 0
  {
    Diff(MovingAverage(h, n))
  }

  /** The indices where the maxima (or minima) mask is set. */
  function PeakIndices(h: seq<int>, n: int, dthresh: real, maxima: bool): seq<nat>
    requires |h| > 0 && n > 0
  {
    FlaggedFrom(Derivative(h, n), dthresh / n as real, maxima, 0)
  }

  predicate IndicesFit(idx: seq<nat>, bins: seq<real>)
  {
    forall k :: 0 <= k < |idx| ==> idx[k] < |bins|
  }

  function Select(bins: seq<real>, idx: seq<nat>): (r: seq<real>)
    requires IndicesFit(idx, bins)
    ensures |r| == |idx| && forall k :: 0 <= k < |idx| ==> r[k] == bins[idx[k]]
  {
    seq(|idx|, k requires 0 <= k < |idx| => bins[idx[k]])
  }

  /** `findPeakPosition(histogram, bins, nMovingAverage, dthresh)`. The
      kernel `np.ones(n) / n` cannot be built for a negative n; `convolve`
      refuses an empty operand, the longer one being named `a`; `bins`
      indexed past its end raises IndexError. */
  function FindPeakPosition(histogram: seq<int>, bins: seq<real>, nMovingAverage: int := 10, dthresh: real := 2.0): (r: Result<Peaks, PeakError>)
    ensures r.Err? <==> (nMovingAverage <= 0 || |histogram| == 0 ||
      !IndicesFit(PeakIndices(histogram, nMovingAverage, dthresh, true), bins) ||
      !IndicesFit(PeakIndices(histogram, nMovingAverage, dthresh, false), bins))
    ensures r.Ok? ==>
      && r.value.maxima == Select(bins, PeakIndices(histogram, nMovingAverage, dthresh, true))
      && r.value.minima == Select(bins, PeakIndices(histogram, nMovingAverage, dthresh, false))
  {
    if nMovingAverage < 0 then Err(ValueError("negative dimensions are not allowed"))
    else if |histogram| == 0 && nMovingAverage == 0 then Err(ValueError("a cannot be empty"))
    else if |histogram| == 0 || nMovingAverage == 0 then Err(ValueError("v cannot be empty"))
    else
      var maxIdx := PeakIndices(histogram, nMovingAverage, dthresh, true);
      var minIdx := PeakIndices(histogram, nMovingAverage, dthresh, false);
      if !IndicesFit(maxIdx, bins) || !IndicesFit(minIdx, bins) then Err(IndexError)
      else Ok(Peaks(Select(bins, maxIdx), Select(bins, minIdx)))
  }

  /** The peak rule: index i of the mask is a maximum exactly when the
      smoothed curve rises by more than the threshold into i and falls by
      more than it out of i, and only inner indices can be flagged. */
  lemma PeakRule(h: seq<int>, n: int, dthresh: real, i: nat)
    requires |h| > 0 && n > 0
    ensures var d := Derivative(h, n);
      var t := dthresh / n as real;
      && (i in PeakIndices(h, n, dthresh, true) <==> 1 <= i <= |d| - 1 && d[i - 1] > t && d[i] < -t)
      && (i in PeakIndices(h, n, dthresh, false) <==> 1 <= i <= |d| - 1 && d[i - 1] < -t && d[i] > t)
  {
    var d := Derivative(h, n);
    var t := dthresh / n as real;
    var mx := PeakIndices(h, n, dthresh, true);
    var mn := PeakIndices(h, n, dthresh, false);
    if i in mx {
      var k :| 0 <= k < |mx| && mx[k] == i;
      assert Flagged(d, t, true, mx[k]);
    }
    if i in mn {
      var k :| 0 <= k < |mn| && mn[k] == i;
      assert Flagged(d, t, false, mn[k]);
    }
  }

  /** With a non-negative threshold no index is both a maximum and a
      minimum, and no two neighbouring indices are both maxima (nor both
      minima). */
  lemma PeaksSeparated(d: seq<real>, t: real, i: int)
    requires t >= 0.0
    ensures !(IsMaximum(d, t, i) && IsMinimum(d, t, i))
    ensures !(IsMaximum(d, t, i) && IsMaximum(d, t, i + 1))
    ensures !(IsMinimum(d, t, i) && IsMinimum(d, t, i + 1))
  {
  }

  /** Peaks found on the histogram's own bin centres never index past them
      when the moving average is no longer than the histogram. */
  lemma PeaksWithinBins(h: seq<int>, bins: seq<real>, n: int, dthresh: real)
    requires 0 < n <= |h| && |bins| == |h|
    ensures FindPeakPosition(h, bins, n, dthresh).Ok?
  {
    var d := Derivative(h, n);
    assert |d| == |h| - 1;
  }

  /** The fit windows of `computeDarkCurrent` (and, with no additional
      peaks, of `computeSkImageNoise`): centres, upper and lower bounds. */
  datatype FitWindows = FitWindows(fitMin: seq<real>, fitMax: seq<real>, fitMean: seq<real>)

  function Mean(s: seq<real>): real
    requires |s| > 0
  {
    SumReal(s) / |s| as real
  }

  /** `fitDelta`: the absolute mean spacing of the maxima when there are at
      least two, otherwise twice the MAD. */
  function FitDelta(maxima: seq<real>, mad: real): real
  {
    if |maxima| > 1 then Abs(Mean(Diff(maxima))) else 2.0 * mad
  }

  /** The mean of the differences is the overall rise divided by the number
      of gaps, so `fitDelta` is the mean distance between neighbouring
      maxima. */
  lemma FitDeltaSpacing(maxima: seq<real>, mad: real)
    ensures |maxima| > 1 ==> FitDelta(maxima, mad) == Abs((maxima[|maxima| - 1] - maxima[0]) / (|maxima| - 1) as real)
    ensures |maxima| <= 1 ==> FitDelta(maxima, mad) == 2.0 * mad
  {
    if |maxima| > 1 {
      DiffTelescopes(maxima);
    }
  }

  /** `base` advanced `steps` times by `delta`. */
  function Extrapolate(base: real, delta: real, steps: nat): real
  {
    if steps == 0 then base else Extrapolate(base, delta, steps - 1) + delta
  }

  lemma {:induction false} ExtrapolateClosedForm(base: real, delta: real, steps: nat)
    ensures Extrapolate(base, delta, steps) == base + steps as real * delta
  {
    if steps > 0 {
      ExtrapolateClosedForm(base, delta, steps - 1);
      assert steps as real * delta == (steps - 1) as real * delta + delta;
    }
  }

  lemma ExtrapolatedClosedForm(means: seq<real>, m: nat, base: real, delta: real)
    requires forall k :: m <= k < |means| ==> means[k] == Extrapolate(base, delta, k - m + 1)
    ensures forall k :: m <= k < |means| ==> means[k] == base + (k - m + 1) as real * delta
  {
    forall k | m <= k < |means|
      ensures means[k] == base + (k - m + 1) as real * delta
    {
      ExtrapolateClosedForm(base, delta, k - m + 1);
    }
  }

  /** The fit-window construction (PixelDistribution.py, computeDarkCurrent
      and computeSkImageNoise): one window per maximum, then
      `nAdditionalPeaks` windows each one `fitDelta` further on. `None`
      stands for the IndexError of `fitMean[-1]` when no maximum was found
      but additional peaks are asked for. */
  method BuildFitWindows(maxima: seq<real>, mad: real, nAdditionalPeaks: int) returns (r: Option<FitWindows>)
    ensures r.None? <==> |maxima| == 0 && nAdditionalPeaks > 0
    ensures r.Some? ==>
      var w := r.value;
      var delta := FitDelta(maxima, mad);
      var extra := if nAdditionalPeaks > 0 then nAdditionalPeaks else 0;
      && Centered(w, delta)
      && |w.fitMean| == |maxima| + extra
      && w.fitMean[..|maxima|] == maxima
      && (forall k :: |maxima| <= k < |w.fitMean| ==> w.fitMean[k] == maxima[|maxima| - 1] + (k - |maxima| + 1) as real * delta)
  {
    var fitDelta := FitDelta(maxima, mad);
    var w := WindowsAtMaxima(maxima, fitDelta);
    if |maxima| == 0 && nAdditionalPeaks > 0 {
      // `fitMean[-1]` on an empty list raises IndexError
      return None;
    }
    if nAdditionalPeaks > 0 {
      w := AddPeaks(w, fitDelta, nAdditionalPeaks);
    }
    r := Some(w);
  }

  /** The windows all have the same number of entries and each spans
      `delta / 2` on either side of its mean. */
  predicate Centered(w: FitWindows, delta: real)
  {
    && |w.fitMin| == |w.fitMean| && |w.fitMax| == |w.fitMean|
    && forall k :: 0 <= k < |w.fitMean| ==>
         w.fitMax[k] == w.fitMean[k] + delta / 2.0 && w.fitMin[k] == w.fitMean[k] - delta / 2.0
  }

  /** The first loop: one window centred on each maximum. */
  method WindowsAtMaxima(maxima: seq<real>, delta: real) returns (w: FitWindows)
    ensures Centered(w, delta) && w.fitMean == maxima
  {
    var fitMin: seq<real> := [];
    var fitMax: seq<real> := [];
    var fitMean: seq<real> := [];
    for i := 0 to |maxima|
      invariant |fitMin| == i && |fitMax| == i
      invariant fitMean == maxima[..i]
      invariant Centered(FitWindows(fitMin, fitMax, fitMean), delta)
    {
      fitMean := fitMean + [maxima[i]];
      fitMax := fitMax + [maxima[i] + delta / 2.0];
      fitMin := fitMin + [maxima[i] - delta / 2.0];
    }
    assert maxima[..|maxima|] == maxima;
    w := FitWindows(fitMin, fitMax, fitMean);
  }

  /** The second loop: `extra` more windows, each mean `delta` past the
      previous one. */
  method AddPeaks(w0: FitWindows, delta: real, extra: nat) returns (w: FitWindows)
    requires Centered(w0, delta) && |w0.fitMean| > 0
    ensures Centered(w, delta)
    ensures |w.fitMean| == |w0.fitMean| + extra && w.fitMean[..|w0.fitMean|] == w0.fitMean
    ensures forall k :: |w0.fitMean| <= k < |w.fitMean| ==>
      w.fitMean[k] == w0.fitMean[|w0.fitMean| - 1] + (k - |w0.fitMean| + 1) as real * delta
  {
    var m := |w0.fitMean|;
    ghost var base := w0.fitMean[m - 1];
    var fitMin, fitMax, fitMean := w0.fitMin, w0.fitMax, w0.fitMean;
    for i := 0 to extra
      invariant |fitMean| == m + i
      invariant fitMean[..m] == w0.fitMean
      invariant forall k :: m <= k < |fitMean| ==> fitMean[k] == Extrapolate(base, delta, k - m + 1)
      invariant Centered(FitWindows(fitMin, fitMax, fitMean), delta)
    {
      var last := fitMean[|fitMean| - 1];
      assert last == Extrapolate(base, delta, i) by {
        if i == 0 {
          assert last == fitMean[..m][m - 1];
        }
      }
      fitMean := fitMean + [last + delta];
      fitMax := fitMax + [last + delta + delta / 2.0];
      fitMin := fitMin + [last + delta - delta / 2.0];
    }
    ExtrapolatedClosedForm(fitMean, m, base, delta);
    w := FitWindows(fitMin, fitMax, fitMean);
  }
}
