/**
  The per-channel 256-bin histogram of ImageData.cs.

  While pixels are added the bins hold whole counts (`Histogram<nat>`);
  `Normalize` turns them into quotients (`Histogram<Float>`).  The float
  bins of the source count exactly up to 2^24 per bin, which is what the
  natural-number bins model.
*/
module Histograms {
  import opened Colors
  import opened Floats

  const HistogramSize: nat := 256

  /** Three channels of bins, R, G and B. */
  datatype Histogram<T> = Histogram(valuesR: seq<T>, valuesG: seq<T>, valuesB: seq<T>)

  /** Every channel has exactly `HistogramSize` bins. */
  predicate Shaped<T>(h: Histogram<T>) {
    |h.valuesR| == HistogramSize && |h.valuesG| == HistogramSize && |h.valuesB| == HistogramSize
  }

  /** Channel 0 is R, 1 is G, 2 is B, matching `Colors.Channel`. */
  function Values<T>(h: Histogram<T>, ch: nat): seq<T>
    requires ch < 3
  {
    if ch == 0 then h.valuesR else if ch == 1 then h.valuesG else h.valuesB
  }

  /** The sum of the bins of one channel. */
  function Sum(s: seq<nat>): nat {
    if |s| == 0 then 0 else s[0] + Sum(s[1..])
  }

  /** The `Histogram()` constructor: three channels of 256 bins, all holding `zero`. */
  function Blank<T>(zero: T): (h: Histogram<T>)
    ensures Shaped(h)
    ensures forall ch, v :: 0 <= ch < 3 && 0 <= v < HistogramSize ==> Values(h, ch)[v] == zero
  {
    var zeros := seq(HistogramSize, _ => zero);
    Histogram(zeros, zeros, zeros)
  }

  /** A fresh histogram about to count pixels: every channel's total is zero. */
  function NewHistogram(): (h: Histogram<nat>)
    ensures Shaped(h)
    ensures forall ch, v :: 0 <= ch < 3 && 0 <= v < HistogramSize ==> Values(h, ch)[v] == 0
    ensures forall ch :: 0 <= ch < 3 ==> Sum(Values(h, ch)) == 0
  {
    var h := Blank(0);
    assert forall ch :: 0 <= ch < 3 ==> Values(h, ch) == h.valuesR;
    SumOfZeros(h.valuesR);
    h
  }

  lemma {:induction false} SumOfZeros(s: seq<nat>)
    requires forall i :: 0 <= i < |s| ==> s[i] == 0
    ensures Sum(s) == 0
  {
    if |s| > 0 {
      SumOfZeros(s[1..]);
    }
  }

  /** Incrementing one bin raises the channel's sum by exactly one. */
  lemma {:induction false} SumOfIncrement(s: seq<nat>, i: nat)
    requires i < |s|
    ensures Sum(s[i := s[i] + 1]) == Sum(s) + 1
  {
    if i == 0 {
      assert s[i := s[i] + 1][1..] == s[1..];
    } else {
      assert s[i := s[i] + 1][1..] == s[1..][i - 1 := s[i] + 1];
      SumOfIncrement(s[1..], i - 1);
    }
  }

  /**
    `AddPixel`: one more pixel in bin `r` of R, bin `g` of G and bin `b` of
    B; every other bin keeps its count, and each channel's total grows by one.
  */
  function AddPixel(h: Histogram<nat>, p: Color32): (h': Histogram<nat>)
    requires Shaped(h)
    ensures Shaped(h')
    ensures forall ch, v :: 0 <= ch < 3 && 0 <= v < HistogramSize ==>
              Values(h', ch)[v] == Values(h, ch)[v] + (if v == Channel(p, ch) then 1 else 0)
    ensures forall ch :: 0 <= ch < 3 ==> Sum(Values(h', ch)) == Sum(Values(h, ch)) + 1
  {
    var h' := Histogram(IncrementBin(h.valuesR, p.r), IncrementBin(h.valuesG, p.g), IncrementBin(h.valuesB, p.b));
    AddPixelChannels(h, p, h');
    h'
  }

  /** One more count in bin `i`; every other bin unchanged. */
  function IncrementBin(s: seq<nat>, i: nat): (r: seq<nat>)
    requires i < |s|
    ensures |r| == |s|
    ensures forall v :: 0 <= v < |s| ==> r[v] == s[v] + (if v == i then 1 else 0)
    ensures Sum(r) == Sum(s) + 1
  {
    SumOfIncrement(s, i);
    s[i := s[i] + 1]
  }

  lemma AddPixelChannels(h: Histogram<nat>, p: Color32, h': Histogram<nat>)
    requires Shaped(h)
    requires h' == Histogram(IncrementBin(h.valuesR, p.r), IncrementBin(h.valuesG, p.g), IncrementBin(h.valuesB, p.b))
    ensures Shaped(h')
    ensures forall ch, v :: 0 <= ch < 3 && 0 <= v < HistogramSize ==>
              Values(h', ch)[v] == Values(h, ch)[v] + (if v == Channel(p, ch) then 1 else 0)
    ensures forall ch :: 0 <= ch < 3 ==> Sum(Values(h', ch)) == Sum(Values(h, ch)) + 1
  {
    forall ch | 0 <= ch < 3
      ensures Values(h', ch) == IncrementBin(Values(h, ch), Channel(p, ch))
    {
    }
  }

  /** Divides every bin of one channel by `total`. */
  function DivideAll(s: seq<nat>, total: int): (q: seq<Float>)
    ensures |q| == |s|
    ensures forall i :: 0 <= i < |s| ==> q[i] == Divide(s[i], total)
  {
    seq(|s|, i requires 0 <= i < |s| => Divide(s[i], total))
  }

  /** `Normalize(totalPixels)`: every bin of every channel divided by the same total. */
  function Normalize(h: Histogram<nat>, total: int): (n: Histogram<Float>)
    ensures forall ch :: 0 <= ch < 3 ==> |Values(n, ch)| == |Values(h, ch)|
    ensures forall ch, v :: 0 <= ch < 3 && 0 <= v < |Values(h, ch)| ==>
              Values(n, ch)[v] == Divide(Values(h, ch)[v], total)
  {
    Histogram(DivideAll(h.valuesR, total), DivideAll(h.valuesG, total), DivideAll(h.valuesB, total))
  }

  /** The real sum of a channel whose bins are all finite. */
  function RealSum(s: seq<Float>): real
    requires forall i :: 0 <= i < |s| ==> s[i].Finite?
  {
    if |s| == 0 then 0.0 else s[0].value + RealSum(s[1..])
  }

  /** A channel that is a probability distribution: finite bins summing to 1. */
  predicate IsDistribution(s: seq<Float>) {
    (forall i :: 0 <= i < |s| ==> s[i].Finite?) && RealSum(s) == 1.0
  }

  /** Dividing every bin by a positive total divides the channel's sum by it. */
  lemma {:induction false} RealSumOfDivideAll(s: seq<nat>, total: int)
    requires total > 0
    ensures forall i :: 0 <= i < |s| ==> DivideAll(s, total)[i].Finite?
    ensures RealSum(DivideAll(s, total)) == Sum(s) as real / total as real
  {
    if |s| > 0 {
      RealSumOfDivideAll(s[1..], total);
      assert DivideAll(s, total)[1..] == DivideAll(s[1..], total);
      AddQuotients(s[0], Sum(s[1..]), total);
    }
  }

  lemma AddQuotients(a: int, b: int, total: int)
    requires total > 0
    ensures a as real / total as real + b as real / total as real == (a + b) as real / total as real
  {
  }

  /**
    Normalising by the number of pixels counted makes every channel a
    probability distribution: each bin is finite and each channel sums to 1.
  */
  lemma NormalizedSumsToOne(h: Histogram<nat>, total: int)
    requires total > 0
    requires forall ch :: 0 <= ch < 3 ==> Sum(Values(h, ch)) == total
    ensures forall ch :: 0 <= ch < 3 ==> IsDistribution(Values(Normalize(h, total), ch))
  {
    RealSumOfDivideAll(h.valuesR, total);
    RealSumOfDivideAll(h.valuesG, total);
    RealSumOfDivideAll(h.valuesB, total);
    assert total as real / total as real == 1.0;
    forall ch | 0 <= ch < 3
      ensures IsDistribution(Values(Normalize(h, total), ch))
    {
      assert Values(Normalize(h, total), ch) == DivideAll(Values(h, ch), total);
    }
  }

  /** The number of pixels whose channel `ch` has value `v`. */
  function ChannelCount(pixels: seq<Color32>, ch: nat, v: int): nat
    requires ch < 3
  {
    if |pixels| == 0 then 0
    else ChannelCount(pixels[..|pixels| - 1], ch, v) + (if Channel(pixels[|pixels| - 1], ch) == v then 1 else 0)
  }

  /**
    The counting histogram after `AddPixel` of every pixel, in order, on a
    fresh one: each pixel lands in one bin per channel, so every channel
    sums to the number of pixels.
  */
  function HistogramOf(pixels: seq<Color32>): (h: Histogram<nat>)
    ensures Shaped(h)
    ensures forall ch :: 0 <= ch < 3 ==> Sum(Values(h, ch)) == |pixels|
  {
    if |pixels| == 0 then NewHistogram()
    else AddPixel(HistogramOf(pixels[..|pixels| - 1]), pixels[|pixels| - 1])
  }

  /**
    After adding `pixels`, bin `v` of each channel counts the pixels whose
    channel value is `v`, and each channel's bins sum to the number of pixels.
  */
  lemma {:induction false} HistogramOfCounts(pixels: seq<Color32>)
    ensures forall ch, v :: 0 <= ch < 3 && 0 <= v < HistogramSize ==>
              Values(HistogramOf(pixels), ch)[v] == ChannelCount(pixels, ch, v)
    ensures forall ch :: 0 <= ch < 3 ==> Sum(Values(HistogramOf(pixels), ch)) == |pixels|
  {
    if |pixels| > 0 {
      HistogramOfCounts(pixels[..|pixels| - 1]);
    }
  }
}
