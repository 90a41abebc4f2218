/**
  `ComputeBestColorsAndHistogram` of ImageUtils and what it promises about
  the features of an image: which colours and cells fill the five slots, how
  their shares are ordered, and that the histogram part is the normalised
  channel count.
*/
module Extraction {
  import opened Colors
  import opened Floats
  import opened Clusters
  import opened Histograms
  import opened ImageRecords
  import opened Features
  import opened Sorting

  /** `e` names a colour of the image together with that colour's share of the pixels. */
  predicate IsColorShare(pixels: seq<Color32>, e: ColorInfo<Float>) {
    e.color in PixelColors(pixels) && e.ratio == Divide(Occurrences(pixels, e.color), |pixels|)
  }

  /** The shade of cell `b` computed directly from its pixels: their average colour and their share. */
  function CellShade(pixels: seq<Color32>, b: nat): ColorInfo<Float> {
    ColorInfo(ColorToInt(ClusterOf(InBucket(pixels, b)).average), Divide(|InBucket(pixels, b)|, |pixels|))
  }

  /**
    The best-colour slots of an image: the first `RealSlots` hold distinct
    colours of the image with their shares, the rest are colour 0 with share
    0/n.
  */
  predicate ColorSlots(pixels: seq<Color32>, s: seq<ColorInfo<Float>>) {
    && |s| == BestCount
    && (forall i :: 0 <= i < RealSlots(pixels) ==> IsColorShare(pixels, s[i]))
    && (forall i :: RealSlots(pixels) <= i < BestCount ==> s[i] == ColorInfo(0, Divide(0, |pixels|)))
    && (forall i, j :: 0 <= i < j < RealSlots(pixels) ==> s[i].color != s[j].color)
  }

  /** Whether one of the first `k` slots of `s` holds colour `v`. */
  predicate InSlots<R>(s: seq<ColorInfo<R>>, k: nat, v: int) {
    exists i :: 0 <= i < k && i < |s| && s[i].color == v
  }

  /** No colour left out of the slots occurs more often than a colour in them. */
  ghost predicate ColorsAreTop<R>(pixels: seq<Color32>, s: seq<ColorInfo<R>>)
    requires |s| == BestCount
  {
    forall v :: !InSlots(s, RealSlots(pixels), v) ==>
      forall i :: 0 <= i < RealSlots(pixels) ==> Occurrences(pixels, v) <= Occurrences(pixels, s[i].color)
  }

  /** The real slots hold colours in order of non-increasing number of occurrences. */
  predicate ColorsDescend<R>(pixels: seq<Color32>, s: seq<ColorInfo<R>>) {
    forall i, j :: 0 <= i < j < RealSlots(pixels) && j < |s| ==>
      Occurrences(pixels, s[j].color) <= Occurrences(pixels, s[i].color)
  }

  /** Every share is finite and the shares never increase along the slots. */
  predicate SharesDescend(s: seq<ColorInfo<Float>>) {
    && (forall i :: 0 <= i < |s| ==> s[i].ratio.Finite?)
    && (forall i, j :: 0 <= i < j < |s| ==> s[j].ratio.value <= s[i].ratio.value)
  }

  /** The slots `s` are the shades of the cells `bs`: one cell per slot, and no cell twice. */
  predicate ShadesOfCells(pixels: seq<Color32>, s: seq<ColorInfo<Float>>, bs: seq<nat>) {
    && |bs| == |s| && DistinctIndices(bs)
    && forall i :: 0 <= i < |bs| ==> bs[i] < ClusterCount && s[i] == CellShade(pixels, bs[i])
  }

  /** No cell outside `bs` holds more pixels than a cell in `bs`. */
  predicate CellsAreTop(pixels: seq<Color32>, bs: seq<nat>) {
    forall b, i :: 0 <= b < ClusterCount && b !in bs && 0 <= i < |bs| ==>
      |InBucket(pixels, b)| <= |InBucket(pixels, bs[i])|
  }

  /** The cells `bs` are in order of non-increasing number of pixels. */
  predicate CellsDescend(pixels: seq<Color32>, bs: seq<nat>) {
    forall i, j :: 0 <= i < j < |bs| ==> |InBucket(pixels, bs[j])| <= |InBucket(pixels, bs[i])|
  }

  /**
    The slots are the shades of pairwise different cells, most populous
    first, and no cell left out holds more pixels than a cell that got a slot.
  */
  ghost predicate ShadesAreTopCells(pixels: seq<Color32>, s: seq<ColorInfo<Float>>) {
    exists bs :: ShadesOfCells(pixels, s, bs) && CellsAreTop(pixels, bs) && CellsDescend(pixels, bs)
  }

  /** Each bin is the share of pixels with that channel value; for a non-empty image each channel sums to 1. */
  predicate IsImageHistogram(pixels: seq<Color32>, h: Histogram<Float>) {
    && Shaped(h)
    && (forall ch, v :: 0 <= ch < 3 && 0 <= v < HistogramSize ==> Values(h, ch)[v] == Divide(ChannelCount(pixels, ch, v), |pixels|))
    && (|pixels| > 0 ==> forall ch :: 0 <= ch < 3 ==> IsDistribution(Values(h, ch)))
  }

  /** Dividing by the same positive total keeps the order of the counts. */
  lemma DivideMonotone(a: int, b: int, n: int)
    requires a <= b && n > 0
    ensures Divide(a, n).Finite? && Divide(b, n).Finite?
    ensures Divide(a, n).value <= Divide(b, n).value
  {
    assert b as real / n as real - a as real / n as real == (b - a) as real / n as real;
  }

  // ---------------------------------------------------------------------------
  // Best colours

  /** Slot `i` of the best colours holds the `i`-th best colour count as a share of the pixels. */
  lemma BestColorSlot(pixels: seq<Color32>, i: nat)
    requires i < BestCount
    ensures BestColors(pixels)[i] == ColorInfo(BestColorCounts(pixels)[i].color, Divide(BestColorCounts(pixels)[i].count, |pixels|))
  {
  }

  /** A real slot holds a colour of the image with its share of the pixels. */
  lemma ColorSlotIsShare(pixels: seq<Color32>, i: nat)
    requires i < RealSlots(pixels)
    ensures IsColorShare(pixels, BestColors(pixels)[i])
  {
    var e := BestColorCounts(pixels)[i];
    BestColorCountsShape(pixels);
    assert e.count == Occurrences(pixels, e.color) > 0;
    PixelColorsOccur(pixels);
    BestColorSlot(pixels, i);
  }

  /** The first `RealSlots` best colours are colours of the image, each with its share of the pixels. */
  lemma BestColorsOfImage(pixels: seq<Color32>)
    ensures forall i :: 0 <= i < RealSlots(pixels) ==> IsColorShare(pixels, BestColors(pixels)[i])
  {
    forall i | 0 <= i < RealSlots(pixels)
      ensures IsColorShare(pixels, BestColors(pixels)[i])
    {
      ColorSlotIsShare(pixels, i);
    }
  }

  /** The best colours after the first `RealSlots` are padding: colour 0 with share 0/n. */
  lemma BestColorsPadding(pixels: seq<Color32>)
    ensures forall i :: RealSlots(pixels) <= i < BestCount ==> BestColors(pixels)[i] == ColorInfo(0, Divide(0, |pixels|))
  {
    BestColorCountsShape(pixels);
    forall i | RealSlots(pixels) <= i < BestCount
      ensures BestColors(pixels)[i] == ColorInfo(0, Divide(0, |pixels|))
    {
      BestColorSlot(pixels, i);
    }
  }

  /** The best colours fill the slots as `ColorSlots` describes. */
  lemma BestColorsFillSlots(pixels: seq<Color32>)
    ensures ColorSlots(pixels, BestColors(pixels))
  {
    BestColorsOfImage(pixels);
    BestColorsPadding(pixels);
    BestColorsDistinct(pixels);
  }

  /** No colour of the image fills two of the best colour slots. */
  lemma BestColorsDistinct(pixels: seq<Color32>)
    ensures forall i, j :: 0 <= i < j < RealSlots(pixels) ==> BestColors(pixels)[i].color != BestColors(pixels)[j].color
  {
    BestColorCountsDistinct(pixels);
    forall i, j | 0 <= i < j < RealSlots(pixels)
      ensures BestColors(pixels)[i].color != BestColors(pixels)[j].color
    {
      BestColorSlot(pixels, i);
      BestColorSlot(pixels, j);
    }
  }

  /** The best colours come most frequent first. */
  lemma BestColorsDescend(pixels: seq<Color32>)
    ensures ColorsDescend(pixels, BestColors(pixels))
  {
    var best := BestColorCounts(pixels);
    BestColorCountsShape(pixels);
    forall i, j | 0 <= i < j < RealSlots(pixels)
      ensures Occurrences(pixels, BestColors(pixels)[j].color) <= Occurrences(pixels, BestColors(pixels)[i].color)
    {
      BestColorSlot(pixels, i);
      BestColorSlot(pixels, j);
    }
  }

  /** A colour that got no slot occurs no more often than the colour of any slot. */
  lemma BestColorsAreTop(pixels: seq<Color32>)
    ensures ColorsAreTop(pixels, BestColors(pixels))
  {
    var best := BestColorCounts(pixels);
    BestColorCountsAreTop(pixels);
    BestColorCountsShape(pixels);
    forall i | 0 <= i < BestCount
      ensures BestColors(pixels)[i].color == best[i].color
    {
      BestColorSlot(pixels, i);
    }
    forall v | !InSlots(BestColors(pixels), RealSlots(pixels), v)
      ensures forall i :: 0 <= i < RealSlots(pixels) ==> Occurrences(pixels, v) <= Occurrences(pixels, BestColors(pixels)[i].color)
    {
      assert !HasSlot(pixels, v);
    }
  }

  /** For a non-empty image the best colours' shares are finite and never increase along the slots. */
  lemma BestColorRatiosDescend(pixels: seq<Color32>)
    requires |pixels| > 0
    ensures SharesDescend(BestColors(pixels))
  {
    var best := BestColorCounts(pixels);
    forall i | 0 <= i < BestCount
      ensures BestColors(pixels)[i].ratio.Finite?
    {
      BestColorSlot(pixels, i);
    }
    BestColorCountsShape(pixels);
    forall i, j | 0 <= i < j < BestCount
      ensures BestColors(pixels)[j].ratio.value <= BestColors(pixels)[i].ratio.value
    {
      BestColorSlot(pixels, i);
      BestColorSlot(pixels, j);
      DivideMonotone(best[j].count, best[i].count, |pixels|);
    }
  }

  // ---------------------------------------------------------------------------
  // Best shades

  /** Slot `i` of the best shades holds the `i`-th best cluster's average and share of the pixels. */
  lemma BestShadeSlot(pixels: seq<Color32>, i: nat)
    requires i < BestCount
    ensures BestShades(pixels)[i].ratio == Divide(BestClusters(pixels)[i].count, |pixels|)
    ensures BestShades(pixels)[i].color == ColorToInt(BestClusters(pixels)[i].average)
  {
  }

  /** Each of the five best clusters is the cluster of the pixels of one cell. */
  lemma BestClusterCell(pixels: seq<Color32>, i: nat) returns (b: nat)
    requires i < BestCount
    ensures b < ClusterCount
    ensures BestClusters(pixels)[i] == ClusterOf(InBucket(pixels, b))
    ensures BestClusters(pixels)[i].count == |InBucket(pixels, b)|
  {
    b := BestClusterIndex(pixels, i);
    CellCluster(pixels, b);
  }

  /** Each of the five best clusters is one of the 512 clusters. */
  lemma BestClusterIndex(pixels: seq<Color32>, i: nat) returns (b: nat)
    requires i < BestCount
    ensures b < ClusterCount && BestClusters(pixels)[i] == ClustersOf(pixels)[b]
  {
    b := IndexInSuperset(BestClusters(pixels), ClustersOf(pixels), i);
  }

  /** Cluster `b` is the cluster of the pixels that fall in cell `b`. */
  lemma CellCluster(pixels: seq<Color32>, b: nat)
    requires b < ClusterCount
    ensures ClustersOf(pixels)[b] == ClusterOf(InBucket(pixels, b))
    ensures ClustersOf(pixels)[b].count == |InBucket(pixels, b)|
  {
    ClustersOfContents(pixels);
    ClusterOfTotals(InBucket(pixels, b));
  }

  /**
    The best shades are the shades of five pairwise different cells, and no
    other cell holds more pixels than one of them.
  */
  lemma BestShadesAreTopCells(pixels: seq<Color32>)
    ensures ShadesAreTopCells(pixels, BestShades(pixels))
  {
    var cs, best := ClustersOf(pixels), BestClusters(pixels);
    var bs := SubMultisetIndices(best, cs);
    forall i | 0 <= i < |bs|
      ensures bs[i] < ClusterCount && BestShades(pixels)[i] == CellShade(pixels, bs[i])
    {
      ShadeOfCell(pixels, i, bs[i]);
    }
    forall b, i | 0 <= b < ClusterCount && b !in bs && 0 <= i < |bs|
      ensures |InBucket(pixels, b)| <= |InBucket(pixels, bs[i])|
    {
      UnplacedCell(pixels, bs, b, i);
    }
    forall i, j | 0 <= i < j < |bs|
      ensures |InBucket(pixels, bs[j])| <= |InBucket(pixels, bs[i])|
    {
      PlacedCellsDescend(pixels, bs, i, j);
    }
    assert ShadesOfCells(pixels, BestShades(pixels), bs) && CellsAreTop(pixels, bs) && CellsDescend(pixels, bs);
  }

  /** A cell whose cluster was not placed among the best holds no more pixels than a placed one. */
  lemma UnplacedCell(pixels: seq<Color32>, bs: seq<nat>, b: nat, i: nat)
    requires PlacedAt(BestClusters(pixels), ClustersOf(pixels), bs)
    requires b < ClusterCount && b !in bs && i < |bs|
    ensures |InBucket(pixels, b)| <= |InBucket(pixels, bs[i])|
  {
    var cs, best := ClustersOf(pixels), BestClusters(pixels);
    var x := cs[b];
    assert multiset(best)[x] < multiset(cs)[x];
    assert x.count <= best[i].count;
    assert best[i] == cs[bs[i]];
    CellCluster(pixels, b);
    CellCluster(pixels, bs[i]);
  }

  /** The cells of the best clusters come in the clusters' order, most populous first. */
  lemma PlacedCellsDescend(pixels: seq<Color32>, bs: seq<nat>, i: nat, j: nat)
    requires PlacedAt(BestClusters(pixels), ClustersOf(pixels), bs)
    requires i < j < |bs|
    ensures |InBucket(pixels, bs[j])| <= |InBucket(pixels, bs[i])|
  {
    var cs, best := ClustersOf(pixels), BestClusters(pixels);
    assert best[j].count <= best[i].count;
    assert best[i] == cs[bs[i]] && best[j] == cs[bs[j]];
    CellCluster(pixels, bs[i]);
    CellCluster(pixels, bs[j]);
  }

  /** A best cluster that is cluster `b` puts the shade of cell `b` in its slot. */
  lemma ShadeOfCell(pixels: seq<Color32>, i: nat, b: nat)
    requires i < BestCount && b < ClusterCount
    requires BestClusters(pixels)[i] == ClustersOf(pixels)[b]
    ensures BestShades(pixels)[i] == CellShade(pixels, b)
  {
    BestShadeSlot(pixels, i);
    CellCluster(pixels, b);
  }

  /** A shade slot with no pixels behind it holds colour 0: a cluster nothing was added to keeps the all-zero average. */
  predicate EmptyShadesBlank(pixels: seq<Color32>, s: seq<ColorInfo<Float>>) {
    forall i :: 0 <= i < |s| && s[i].ratio == Divide(0, |pixels|) ==> s[i].color == 0
  }

  /** A cell whose shade has share 0/n received no pixel. */
  lemma EmptyCellShade(pixels: seq<Color32>, b: nat)
    requires CellShade(pixels, b).ratio == Divide(0, |pixels|)
    ensures InBucket(pixels, b) == []
    ensures CellShade(pixels, b) == ColorInfo(0, Divide(0, |pixels|))
  {
    InBucketLength(pixels, b);
    if |pixels| > 0 {
      ZeroShare(|InBucket(pixels, b)|, |pixels|);
    }
    ClusterOfTotals(InBucket(pixels, b));
  }

  /** Only a count of zero has the share 0/n of a positive total. */
  lemma ZeroShare(k: nat, n: int)
    requires n > 0 && Divide(k, n) == Divide(0, n)
    ensures k == 0
  {
    assert k as real / n as real == 0.0;
    assert k as real == (k as real / n as real) * n as real;
  }

  /** A cell never holds more pixels than the image. */
  lemma {:induction false} InBucketLength(pixels: seq<Color32>, b: nat)
    ensures |InBucket(pixels, b)| <= |pixels|
  {
    if |pixels| > 0 {
      InBucketLength(pixels[..|pixels| - 1], b);
    }
  }

  /** Every best shade with share 0/n is colour 0. */
  lemma BestShadesEmptyBlank(pixels: seq<Color32>)
    ensures EmptyShadesBlank(pixels, BestShades(pixels))
  {
    forall i | 0 <= i < BestCount && BestShades(pixels)[i].ratio == Divide(0, |pixels|)
      ensures BestShades(pixels)[i].color == 0
    {
      BestShadeSlot(pixels, i);
      var b := BestClusterCell(pixels, i);
      assert BestShades(pixels)[i] == CellShade(pixels, b);
      EmptyCellShade(pixels, b);
    }
  }

  /** Whether some slot of `s` holds exactly the shade `e`. */
  predicate ShadeInSlots(s: seq<ColorInfo<Float>>, e: ColorInfo<Float>) {
    exists i :: 0 <= i < |s| && s[i] == e
  }

  /**
    No cell whose shade got no slot has a larger share than a slot: the
    slots hold the most populous cells.
  */
  ghost predicate ShadesAreTop(pixels: seq<Color32>, s: seq<ColorInfo<Float>>)
    requires |pixels| > 0
  {
    forall b :: 0 <= b < ClusterCount && !ShadeInSlots(s, CellShade(pixels, b)) ==>
      forall i :: 0 <= i < |s| && s[i].ratio.Finite? ==> CellShade(pixels, b).ratio.value <= s[i].ratio.value
  }

  /** A cell whose shade got no slot has a share no larger than any slot's. */
  lemma LeftOutCell(pixels: seq<Color32>, b: nat)
    requires |pixels| > 0 && b < ClusterCount
    requires !ShadeInSlots(BestShades(pixels), CellShade(pixels, b))
    ensures forall i :: 0 <= i < BestCount ==> CellShade(pixels, b).ratio.value <= BestShades(pixels)[i].ratio.value
  {
    var cs, best := ClustersOf(pixels), BestClusters(pixels);
    CellCluster(pixels, b);
    var x := cs[b];
    assert x in multiset(cs);
    assert multiset(best)[x] < multiset(cs)[x];
    forall i | 0 <= i < BestCount
      ensures CellShade(pixels, b).ratio.value <= BestShades(pixels)[i].ratio.value
    {
      BestShadeSlot(pixels, i);
      DivideMonotone(x.count, best[i].count, |pixels|);
    }
  }

  /** The best shades are the shades of the most populous cells. */
  lemma BestShadesAreTop(pixels: seq<Color32>)
    requires |pixels| > 0
    ensures ShadesAreTop(pixels, BestShades(pixels))
  {
    forall b | 0 <= b < ClusterCount && !ShadeInSlots(BestShades(pixels), CellShade(pixels, b))
      ensures forall i :: 0 <= i < BestCount ==> CellShade(pixels, b).ratio.value <= BestShades(pixels)[i].ratio.value
    {
      LeftOutCell(pixels, b);
    }
  }

  /** For a non-empty image the best shades' shares are finite and never increase along the slots. */
  lemma BestShadeRatiosDescend(pixels: seq<Color32>)
    requires |pixels| > 0
    ensures SharesDescend(BestShades(pixels))
  {
    var best := BestClusters(pixels);
    forall i | 0 <= i < BestCount
      ensures BestShades(pixels)[i].ratio.Finite?
    {
      BestShadeSlot(pixels, i);
    }
    forall i, j | 0 <= i < j < BestCount
      ensures BestShades(pixels)[j].ratio.value <= BestShades(pixels)[i].ratio.value
    {
      BestShadeSlot(pixels, i);
      BestShadeSlot(pixels, j);
      DivideMonotone(best[j].count, best[i].count, |pixels|);
    }
  }

  // ---------------------------------------------------------------------------
  // The whole extraction

  /**
    `ComputeBestColorsAndHistogram`: the five best colours, the five best
    shades and the normalised histogram of a pixel buffer, as one record.
  */
  function ComputeBestColorsAndHistogram(pixels: seq<Color32>): (f: ImageFeatures)
    ensures ColorSlots(pixels, f.bestColors) && ColorsAreTop(pixels, f.bestColors) && ColorsDescend(pixels, f.bestColors)
    ensures |f.bestShades| == BestCount && ShadesAreTopCells(pixels, f.bestShades)
    ensures EmptyShadesBlank(pixels, f.bestShades)
    ensures |pixels| > 0 ==> SharesDescend(f.bestColors) && SharesDescend(f.bestShades)
    ensures |pixels| > 0 ==> ShadesAreTop(pixels, f.bestShades)
    ensures IsImageHistogram(pixels, f.histogram)
  {
    ImageHistogram(pixels);
    BestColorsFillSlots(pixels);
    BestColorsAreTop(pixels);
    BestColorsDescend(pixels);
    BestShadesAreTopCells(pixels);
    BestShadesEmptyBlank(pixels);
    assert |pixels| > 0 ==> NonEmptyShares(pixels) by {
      if |pixels| > 0 {
        NonEmptySharesHold(pixels);
      }
    }
    ImageFeatures(BestColors(pixels), BestShades(pixels), Normalize(HistogramOf(pixels), |pixels|))
  }

  /** The histogram part: the channel counts normalised by the number of pixels. */
  lemma ImageHistogram(pixels: seq<Color32>)
    ensures IsImageHistogram(pixels, Normalize(HistogramOf(pixels), |pixels|))
  {
    HistogramOfCounts(pixels);
    if |pixels| > 0 {
      NormalizedSumsToOne(HistogramOf(pixels), |pixels|);
    }
  }

  /** What holds of the shares of a non-empty image. */
  ghost predicate NonEmptyShares(pixels: seq<Color32>)
    requires |pixels| > 0
  {
    SharesDescend(BestColors(pixels)) && SharesDescend(BestShades(pixels)) && ShadesAreTop(pixels, BestShades(pixels))
  }

  lemma NonEmptySharesHold(pixels: seq<Color32>)
    requires |pixels| > 0
    ensures NonEmptyShares(pixels)
  {
    BestColorRatiosDescend(pixels);
    BestShadeRatiosDescend(pixels);
    BestShadesAreTop(pixels);
  }
}
