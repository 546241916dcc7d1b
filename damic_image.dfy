/** The image objects of the analysis (analysis/DamicImage.py): an image
    with its robust statistics and its integer-ADU histogram, computed once
    at construction and kept in fields; and the variant whose histogram is
    flipped so that more charge always means a larger pixel value. */
module DamicImage {
  import opened Wrappers
  import opened NumPy
  import opened PixelDistribution

  /** `Image`: the pixels (flattened), a file name, `med`/`mad`, and the
      histogram triple `hpix`, `centers`, `edges`. */
  class Image {
    const image: seq<int>
    const filename: string
    var med: real
    var mad: real
    var hpix: seq<int>
    var centers: seq<real>
    var edges: seq<int>

    /** The statistics held in the fields are those of the pixels. */
    predicate StatsOfImage()
      reads this
    {
      Stats(med, mad) == PixelDistribution.EstimateDistributionParameters(image)
    }

    /** The histogram held in the fields is the one computed from the pixels
        and the held statistics with these parameters. */
    predicate HistogramOfImage(nsigma: real, minRange: Option<real>)
      reads this
    {
      HistogramWith(image, Stats(med, mad), nsigma, minRange) == Ok(Histogram(hpix, centers, edges))
    }

    /** `Image(img, filename, minRange)`: stores the pixels and the name, then
        computes the statistics and the default (3 MAD) histogram. With
        `mad >= 1` the window is at least six ADU wide, so the histogram
        always exists. */
    constructor(img: seq<int>, filename: string := "", minRange: Option<real> := None)
      ensures image == img && this.filename == filename
      ensures StatsOfImage() && HistogramOfImage(3.0, minRange)
      ensures mad >= 1.0 && |edges| >= 6
    {
      image := img;
      this.filename := filename;
      med, mad := 0.0, 1.0;
      hpix, centers, edges := [], [], [];
      new;
      var _, _ := EstimateDistributionParameters();
      DefaultHistogramExists(image, minRange);
      var _ := HistogramImage(3.0, minRange);
    }

    /** `estimateDistributionParameters()`: sets and returns `med` and `mad`. */
    method EstimateDistributionParameters() returns (m: real, d: real)
      modifies this`med, this`mad
      ensures StatsOfImage()
      ensures m == med && d == mad
    {
      var stats := PixelDistribution.EstimateDistributionParameters(image);
      med := stats.med;
      mad := stats.mad;
      return med, mad;
    }

    /** `histogramImage(nsigma, minRange)`, from the held `med` and `mad`. The
        triple it returns is exactly the one stored in the fields; when the
        window is too narrow for a bin, numpy raises and nothing is stored. */
    method HistogramImage(nsigma: real := 3.0, minRange: Option<real> := None) returns (r: Result<Histogram, HistogramError>)
      modifies this`hpix, this`centers, this`edges
      ensures r == HistogramWith(image, Stats(med, mad), nsigma, minRange)
      ensures r.Ok? ==> r.value == Histogram(hpix, centers, edges)
      ensures r.Err? ==> hpix == old(hpix) && centers == old(centers) && edges == old(edges)
    {
      r := HistogramWith(image, Stats(med, mad), nsigma, minRange);
      if r.Ok? {
        hpix, centers, edges := r.value.hpix, r.value.centers, r.value.edges;
      }
    }
  }

  /** `DamicImage`: an `Image` built with `minRange` 200 by default, whose
      histogram counts are flipped when `reverse` is set (the default). The
      subclass is modelled by composition: `base` is the `Image` part. */
  class DamicImage {
    const base: Image
    var reverse: bool

    constructor(img: seq<int>, reverse: bool := true, filename: string := "", minRange: Option<real> := Some(200.0))
      ensures fresh(base) && this.reverse == reverse
      ensures base.image == img && base.filename == filename && base.StatsOfImage()
      ensures var h := HistogramWith(img, PixelDistribution.EstimateDistributionParameters(img), 3.0, minRange);
        && h.Ok?
        && base.centers == h.value.centers && base.edges == h.value.edges
        && base.hpix == (if reverse then Flip(h.value.hpix) else h.value.hpix)
    {
      base := new Image(img, filename, minRange);
      this.reverse := reverse;
      new;
      if reverse {
        ReverseHistogram();
      }
    }

    /** `reverseHistogram()`: `hpix` is replaced by its flip; the bin centres
        and edges, the statistics and the pixels are left as they were. */
    method ReverseHistogram()
      modifies base`hpix
      ensures base.hpix == Flip(old(base.hpix))
      ensures |base.hpix| == |old(base.hpix)|
      ensures forall i :: 0 <= i < |base.hpix| ==> base.hpix[i] == old(base.hpix)[|base.hpix| - 1 - i]
    {
      base.hpix := Flip(base.hpix);
    }
  }
}
