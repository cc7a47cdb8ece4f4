/**
 * The threshold selection of MarkerTracking::get2DPointsFromImage
 * (src/markerTracking/MarkerTracking.cpp): a 256-bin histogram of every
 * second pixel of every second row of an 8-bit image, two downward sweeps
 * that find the grey levels above which a minimal and a maximal marker area
 * of the image lie, and the binarisation level between them.
 */
module Segmentation {

  type byte = x: int | 0 <= x < 256

  /** The samples of row r: the pixels at even columns, the first n of them. */
  function RowSamples(img: array2<byte>, r: nat, n: nat): (s: seq<byte>)
    reads img
    requires r < img.Length0 && 2 * n <= img.Length1 + 1
    ensures |s| == n
  {
    if n == 0 then [] else RowSamples(img, r, n - 1) + [img[r, 2 * (n - 1)]]
  }

  /** The number of sampled columns in a row of `cols` columns: 0, 2, 4, ... below cols. */
  function Sampled(cols: nat): nat {
    (cols + 1) / 2
  }

  /** The samples of the first m sampled rows (0, 2, 4, ...), in the order of the loops. */
  function Samples(img: array2<byte>, m: nat): seq<byte>
    reads img
    requires 2 * m <= img.Length0 + 1
  {
    if m == 0 then []
    else Samples(img, m - 1) + RowSamples(img, 2 * (m - 1), Sampled(img.Length1))
  }

  /** The 256 bins of a histogram of the given samples. */
  function HistogramOf(samples: seq<byte>): (h: seq<nat>)
    ensures |h| == 256
  {
    if samples == [] then seq(256, _ => 0)
    else
      var h := HistogramOf(samples[..|samples| - 1]);
      var v := samples[|samples| - 1];
      h[v := h[v] + 1]
  }

  /** Bin v of the histogram is the number of samples of grey level v. */
  lemma {:induction false} HistogramCounts(samples: seq<byte>, v: byte)
    ensures HistogramOf(samples)[v] == multiset(samples)[v]
  {
    if samples != [] {
      var n := |samples| - 1;
      HistogramCounts(samples[..n], v);
      assert samples == samples[..n] + [samples[n]];
    }
  }

  /** One more sample adds one to its bin. */
  lemma HistogramStep(before: seq<byte>, px: byte)
    ensures HistogramOf(before + [px]) == HistogramOf(before)[px := HistogramOf(before)[px] + 1]
  {
    assert (before + [px])[..|before|] == before;
  }

  /** The sparse histogram over the pixels at even rows and even columns. */
  method Histogram(img: array2<byte>) returns (hist: array<nat>)
    ensures fresh(hist)
    ensures hist[..] == HistogramOf(AllSamples(img))
  {
    hist := new nat[256](_ => 0);
    assert hist[..] == HistogramOf([]);
    var row, rows := 0, 0;
    while row < img.Length0
      invariant row == 2 * rows && row <= img.Length0 + 1
      invariant hist.Length == 256 && fresh(hist)
      invariant hist[..] == HistogramOf(Samples(img, rows))
    {
      SampleRow(img, row, hist, Samples(img, rows));
      assert Samples(img, rows + 1) == Samples(img, rows) + RowSamples(img, row, Sampled(img.Length1));
      row, rows := row + 2, rows + 1;
    }
    assert rows == Sampled(img.Length0);
  }

  /** The loop over the even columns of one row: each sample adds one to its bin. */
  method SampleRow(img: array2<byte>, row: nat, hist: array<nat>, ghost prefix: seq<byte>)
    requires row < img.Length0 && hist.Length == 256
    requires hist[..] == HistogramOf(prefix)
    modifies hist
    ensures hist[..] == HistogramOf(prefix + RowSamples(img, row, Sampled(img.Length1)))
  {
    var col, cols := 0, 0;
    assert prefix + RowSamples(img, row, 0) == prefix;
    while col < img.Length1
      invariant col == 2 * cols && col <= img.Length1 + 1
      invariant hist[..] == HistogramOf(prefix + RowSamples(img, row, cols))
    {
      var px := img[row, col];
      ghost var before := prefix + RowSamples(img, row, cols);
      assert before + [px] == prefix + RowSamples(img, row, cols + 1);
      HistogramStep(before, px);
      ghost var h := hist[..];
      hist[px] := hist[px] + 1;
      assert hist[..] == h[px := h[px] + 1];
      col, cols := col + 2, cols + 1;
    }
    assert cols == Sampled(img.Length1);
  }

  /** The number of samples brighter than t: the sum of hist[t+1..255]. */
  function Above(hist: seq<nat>, t: int): nat
    requires |hist| == 256 && 0 <= t <= 255
    decreases 255 - t
  {
    if t == 255 then 0 else hist[t + 1] + Above(hist, t + 1)
  }

  /** Fewer levels from the top hold no more samples. */
  lemma {:induction false} AboveMonotone(hist: seq<nat>, t: int, u: int)
    requires |hist| == 256 && 0 <= t <= u <= 255
    ensures Above(hist, u) <= Above(hist, t)
    decreases u - t
  {
    if t < u {
      AboveMonotone(hist, t + 1, u);
    }
  }

  /**
   * t is where the sweep from 255 downwards stops for the sample count `needed`:
   * the highest level that is 0 or has at least `needed` samples above it.
   */
  predicate IsSweepStop(hist: seq<nat>, needed: real, t: int)
    requires |hist| == 256
  {
    0 <= t <= 255
    && (t == 0 || Above(hist, t) as real >= needed)
    && forall u :: t < u <= 255 ==> Above(hist, u) as real < needed
  }

  /**
   * One sweep: from level 255 down, add each level's count to a running total
   * and step down, until the level is 0 or the total reaches `needed`.
   */
  method SweepDown(hist: array<nat>, needed: real) returns (t: int)
    requires hist.Length == 256
    ensures IsSweepStop(hist[..], needed, t)
  {
    var tmp: real := 0.0;
    t := 255;
    while t > 0 && tmp < needed
      invariant 0 <= t <= 255
      invariant tmp == Above(hist[..], t) as real
      invariant forall u :: t < u <= 255 ==> Above(hist[..], u) as real < needed
    {
      tmp := tmp + hist[t] as real;
      t := t - 1;
    }
  }

  /** The sweep for the larger area never stops above the sweep for the smaller one. */
  lemma SweepsOrdered(hist: seq<nat>, small: real, large: real, tHigh: int, tLow: int)
    requires |hist| == 256 && small <= large
    requires IsSweepStop(hist, small, tHigh) && IsSweepStop(hist, large, tLow)
    ensures tLow <= tHigh
  {
    if tLow > 0 {
      assert Above(hist, tLow) as real >= small;
    }
  }

  /** The sweep stop is unique. */
  lemma SweepStopUnique(hist: seq<nat>, needed: real, t: int, t': int)
    requires |hist| == 256 && IsSweepStop(hist, needed, t) && IsSweepStop(hist, needed, t')
    ensures t == t'
  {
  }

  /** The sample count a segmentation area asks for: area * width * height / row step / column step. */
  function Needed(area: real, width: nat, height: nat): real {
    area * (width * height) as real / 4.0
  }

  lemma NeededMonotone(a: real, b: real, width: nat, height: nat)
    requires a <= b
    ensures Needed(a, width, height) <= Needed(b, width, height)
  {
    var p := (width * height) as real;
    assert (b - a) * p >= 0.0;
  }

  /** The samples of the whole image. */
  function AllSamples(img: array2<byte>): seq<byte>
    reads img
  {
    Samples(img, Sampled(img.Length0))
  }

  /**
   * The grey level at which get2DPointsFromImage binarises the image, with the
   * two thresholds: t_high for the minimal segmentation area, t_low for the
   * maximal one.
   */
  method ThresholdLevel(img: array2<byte>, minArea: real, maxArea: real) returns (tHigh: int, tLow: int, level: int)
    ensures IsSweepStop(HistogramOf(AllSamples(img)), Needed(minArea, img.Length1, img.Length0), tHigh)
    ensures IsSweepStop(HistogramOf(AllSamples(img)), Needed(maxArea, img.Length1, img.Length0), tLow)
    ensures level == (tHigh + tLow) / 2
    ensures 0 <= level <= 255
    ensures minArea <= maxArea ==> tLow <= level <= tHigh
  {
    var hist := Histogram(img);
    var small, large := Needed(minArea, img.Length1, img.Length0), Needed(maxArea, img.Length1, img.Length0);
    tHigh := SweepDown(hist, small);
    tLow := SweepDown(hist, large);
    if minArea <= maxArea {
      NeededMonotone(minArea, maxArea, img.Length1, img.Length0);
      SweepsOrdered(hist[..], small, large, tHigh, tLow);
    }
    level := (tHigh + tLow) / 2;
  }
}
