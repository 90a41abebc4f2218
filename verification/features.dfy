/**
  Feature extraction of ImageUtils: `ComputeHistogram` and
  `ComputeBestColorsAndHistogram`.

  The source makes one pass over the pixels that feeds three accumulators at
  once - the histogram, the exact-colour counts and the clusters.  Each
  accumulator depends only on the pixels, not on the others, so the model
  writes the pass as three folds over the same pixel sequence.
*/
module Features {
  import opened Colors
  import opened Floats
  import opened Sorting
  import opened Clusters
  import opened Histograms
  import opened ImageRecords

  /** One entry of the `Dictionary<uint, long>` of exact colours: a packed colour and its count. */
  datatype ColorCount = ColorCount(color: uint32, count: int)

  /** The `KeyValuePair(0, 0)` used to pad the best colours. */
  const NoColor: ColorCount := ColorCount(0, 0)

  /** The features one image yields, with ratios and bins as exact quotients. */
  datatype ImageFeatures = ImageFeatures(
    bestColors: seq<ColorInfo<Float>>,
    bestShades: seq<ColorInfo<Float>>,
    histogram: Histogram<Float>)

  // ---------------------------------------------------------------------------
  // Histogram only

  /**
    `ComputeHistogram`: every pixel added to a fresh histogram, then every
    bin divided by the pixel count.  Each bin is the share of pixels with that
    channel value; for a non-empty image each channel sums to 1.
  */
  method ComputeHistogram(pixels: seq<Color32>) returns (h: Histogram<Float>)
    ensures Shaped(h)
    ensures forall ch, v :: 0 <= ch < 3 && 0 <= v < HistogramSize ==>
              Values(h, ch)[v] == Divide(ChannelCount(pixels, ch, v), |pixels|)
    ensures |pixels| > 0 ==> forall ch :: 0 <= ch < 3 ==> IsDistribution(Values(h, ch))
  {
    var counts := NewHistogram();
    var i := 0;
    while i < |pixels|
      invariant 0 <= i <= |pixels|
      invariant Shaped(counts)
      invariant forall ch, v :: 0 <= ch < 3 && 0 <= v < HistogramSize ==>
                  Values(counts, ch)[v] == ChannelCount(pixels[..i], ch, v)
      invariant forall ch :: 0 <= ch < 3 ==> Sum(Values(counts, ch)) == i
    {
      counts := AddPixel(counts, pixels[i]);
      assert pixels[..i + 1][..i] == pixels[..i];
      i := i + 1;
    }
    assert pixels[..i] == pixels;
    if |pixels| > 0 {
      NormalizedSumsToOne(counts, |pixels|);
    }
    h := Normalize(counts, |pixels|);
  }

  // ---------------------------------------------------------------------------
  // Exact colour counts

  /** The number of pixels that pack to `v`. */
  function Occurrences(pixels: seq<Color32>, v: int): nat {
    if |pixels| == 0 then 0
    else Occurrences(pixels[..|pixels| - 1], v) + (if ColorToInt(pixels[|pixels| - 1]) == v then 1 else 0)
  }

  /** The packed colours present in an image. */
  function PixelColors(pixels: seq<Color32>): set<int> {
    set i | 0 <= i < |pixels| :: ColorToInt(pixels[i])
  }

  /** The count the map holds for `v`, or 0 when `v` is no key. */
  function CountIn(m: seq<ColorCount>, v: int): int {
    if |m| == 0 then 0 else if m[0].color == v then m[0].count else CountIn(m[1..], v)
  }

  /** The keys of the map. */
  function ColorsOf(m: seq<ColorCount>): set<int> {
    set i | 0 <= i < |m| :: m[i].color
  }

  lemma ColorsOfCons(e: ColorCount, t: seq<ColorCount>)
    ensures ColorsOf([e] + t) == {e.color} + ColorsOf(t)
  {
    var s := [e] + t;
    forall w | w in ColorsOf(s)
      ensures w in {e.color} + ColorsOf(t)
    {
      var i :| 0 <= i < |s| && s[i].color == w;
      if i > 0 {
        assert t[i - 1].color == w;
      }
    }
    forall w | w in ColorsOf(t)
      ensures w in ColorsOf(s)
    {
      var i :| 0 <= i < |t| && t[i].color == w;
      assert s[i + 1].color == w;
    }
    assert s[0].color == e.color;
  }

  /** No colour is a key twice. */
  predicate DistinctColors(m: seq<ColorCount>) {
    forall i, j :: 0 <= i < j < |m| ==> m[i].color != m[j].color
  }

  /**
    `if (!colorMap.ContainsKey(v)) colorMap.Add(v, 0); ++colorMap[v];`: the
    entry of `v` is updated where it stands, or a new entry is appended.
  */
  function Bump(m: seq<ColorCount>, v: uint32): (m': seq<ColorCount>)
    ensures |m'| == |m| || |m'| == |m| + 1
  {
    if |m| == 0 then [ColorCount(v, 1)]
    else if m[0].color == v then [m[0].(count := m[0].count + 1)] + m[1..]
    else [m[0]] + Bump(m[1..], v)
  }

  /** Bumping `v` raises the count of `v` by one and no other count. */
  lemma {:induction false} BumpCounts(m: seq<ColorCount>, v: uint32)
    ensures forall w :: CountIn(Bump(m, v), w) == CountIn(m, w) + (if w == v then 1 else 0)
  {
    if |m| > 0 && m[0].color != v {
      BumpCounts(m[1..], v);
    }
  }

  /** Bumping `v` makes `v` a key and adds no other key. */
  lemma {:induction false} BumpColors(m: seq<ColorCount>, v: uint32)
    ensures ColorsOf(Bump(m, v)) == ColorsOf(m) + {v}
  {
    if |m| == 0 {
      assert Bump(m, v)[0].color == v;
    } else {
      assert m == [m[0]] + m[1..];
      ColorsOfCons(m[0], m[1..]);
      if m[0].color == v {
        ColorsOfCons(m[0].(count := m[0].count + 1), m[1..]);
      } else {
        BumpColors(m[1..], v);
        ColorsOfCons(m[0], Bump(m[1..], v));
      }
    }
  }

  /** Bumping keeps keys distinct and counts positive. */
  lemma {:induction false} BumpDistinct(m: seq<ColorCount>, v: uint32)
    requires DistinctColors(m)
    requires forall i :: 0 <= i < |m| ==> m[i].count > 0
    ensures DistinctColors(Bump(m, v))
    ensures forall i :: 0 <= i < |Bump(m, v)| ==> Bump(m, v)[i].count > 0
  {
    if |m| > 0 && m[0].color != v {
      var t := Bump(m[1..], v);
      BumpDistinct(m[1..], v);
      BumpColors(m[1..], v);
      assert m[0].color !in ColorsOf(m[1..]);
      assert forall j :: 0 <= j < |t| ==> t[j].color in ColorsOf(t);
    }
  }

  /** The colour map after every pixel was counted, keys in first-seen order. */
  function CountColors(pixels: seq<Color32>): seq<ColorCount> {
    if |pixels| == 0 then []
    else Bump(CountColors(pixels[..|pixels| - 1]), ColorToInt(pixels[|pixels| - 1]))
  }

  /** In a map without repeated keys, an entry's count is the count of its key. */
  lemma {:induction false} CountInAt(m: seq<ColorCount>, i: nat)
    requires DistinctColors(m) && i < |m|
    ensures CountIn(m, m[i].color) == m[i].count
  {
    if i > 0 {
      CountInAt(m[1..], i - 1);
    }
  }

  /** A map without repeated keys has as many entries as keys. */
  lemma {:induction false} DistinctColorsCard(m: seq<ColorCount>)
    requires DistinctColors(m)
    ensures |ColorsOf(m)| == |m|
  {
    if |m| > 0 {
      DistinctColorsCard(m[1..]);
      assert ColorsOf(m) == {m[0].color} + ColorsOf(m[1..]);
      assert m[0].color !in ColorsOf(m[1..]);
    }
  }

  /** The colours of an image are those of all pixels but the last, and the last one's. */
  lemma PixelColorsSnoc(pixels: seq<Color32>)
    requires |pixels| > 0
    ensures PixelColors(pixels) == PixelColors(pixels[..|pixels| - 1]) + {ColorToInt(pixels[|pixels| - 1])}
  {
    var init, n := pixels[..|pixels| - 1], |pixels| - 1;
    forall v | v in PixelColors(pixels)
      ensures v in PixelColors(init) + {ColorToInt(pixels[n])}
    {
      var i :| 0 <= i < |pixels| && ColorToInt(pixels[i]) == v;
      if i < n {
        assert init[i] == pixels[i];
      }
    }
    forall v | v in PixelColors(init)
      ensures v in PixelColors(pixels)
    {
      var i :| 0 <= i < |init| && ColorToInt(init[i]) == v;
      assert pixels[i] == init[i];
    }
  }

  /** A colour occurs in the image exactly when some pixel packs to it. */
  lemma {:induction false} PixelColorsOccur(pixels: seq<Color32>)
    ensures forall v :: v in PixelColors(pixels) <==> Occurrences(pixels, v) > 0
  {
    if |pixels| > 0 {
      var init := pixels[..|pixels| - 1];
      PixelColorsOccur(init);
      PixelColorsSnoc(pixels);
    }
  }

  /** The colour map holds, for every colour, the number of pixels of that colour. */
  lemma {:induction false} CountColorsCountIn(pixels: seq<Color32>)
    ensures forall w :: CountIn(CountColors(pixels), w) == Occurrences(pixels, w)
  {
    if |pixels| > 0 {
      var init := pixels[..|pixels| - 1];
      CountColorsCountIn(init);
      BumpCounts(CountColors(init), ColorToInt(pixels[|pixels| - 1]));
    }
  }

  /** The colour map's keys are the image's colours. */
  lemma {:induction false} CountColorsKeys(pixels: seq<Color32>)
    ensures ColorsOf(CountColors(pixels)) == PixelColors(pixels)
  {
    if |pixels| > 0 {
      var init := pixels[..|pixels| - 1];
      CountColorsKeys(init);
      BumpColors(CountColors(init), ColorToInt(pixels[|pixels| - 1]));
      PixelColorsSnoc(pixels);
    }
  }

  /** The colour map's keys are distinct and its counts positive. */
  lemma {:induction false} CountColorsDistinct(pixels: seq<Color32>)
    ensures DistinctColors(CountColors(pixels))
    ensures forall i :: 0 <= i < |CountColors(pixels)| ==> CountColors(pixels)[i].count > 0
  {
    if |pixels| > 0 {
      var init := pixels[..|pixels| - 1];
      CountColorsDistinct(init);
      BumpDistinct(CountColors(init), ColorToInt(pixels[|pixels| - 1]));
    }
  }

  /**
    The colour map is exact: its keys are distinct and are the colours of the
    image, and each key's count is the number of pixels of that colour.
  */
  lemma CountColorsCorrect(pixels: seq<Color32>)
    ensures DistinctColors(CountColors(pixels))
    ensures forall i :: 0 <= i < |CountColors(pixels)| ==>
              CountColors(pixels)[i].count == Occurrences(pixels, CountColors(pixels)[i].color) > 0
    ensures ColorsOf(CountColors(pixels)) == PixelColors(pixels)
    ensures |CountColors(pixels)| == |PixelColors(pixels)|
  {
    var m := CountColors(pixels);
    CountColorsCountIn(pixels);
    CountColorsKeys(pixels);
    CountColorsDistinct(pixels);
    forall i | 0 <= i < |m|
      ensures m[i].count == Occurrences(pixels, m[i].color)
    {
      CountInAt(m, i);
    }
    DistinctColorsCard(m);
  }

  // ---------------------------------------------------------------------------
  // Best colours

  /** The sort key of the colour map: `b.Value.CompareTo(a.Value)` orders by count. */
  function CountOf(e: ColorCount): int {
    e.count
  }

  /** The colour-map entries that get a slot: at most five, most frequent first. */
  function TopColors(pixels: seq<Color32>): seq<ColorCount> {
    TopK(CountColors(pixels), BestCount, CountOf)
  }

  /** The five best colour counts: the top five by count, padded with `NoColor`. */
  function BestColorCounts(pixels: seq<Color32>): (best: seq<ColorCount>)
    ensures |best| == BestCount
  {
    var top := TopColors(pixels);
    top + seq(BestCount - |top|, _ => NoColor)
  }

  /** A colour's share of the image. */
  function ColorRatio(e: ColorCount, total: int): ColorInfo<Float> {
    ColorInfo(e.color, Divide(e.count, total))
  }

  /** A cluster's average colour, packed, and its share of the image. */
  function ShadeRatio(c: ColorCluster, total: int): ColorInfo<Float> {
    ColorInfo(ColorToInt(c.average), Divide(c.count, total))
  }

  /** Every colour count as a share of `total`, in order. */
  function ColorRatios(s: seq<ColorCount>, total: int): (r: seq<ColorInfo<Float>>)
    ensures |r| == |s|
    ensures forall i :: 0 <= i < |s| ==> r[i] == ColorInfo(s[i].color, Divide(s[i].count, total))
  {
    seq(|s|, i requires 0 <= i < |s| => ColorRatio(s[i], total))
  }

  /** Every cluster's average colour and its share of `total`, in order. */
  function ShadeRatios(s: seq<ColorCluster>, total: int): (r: seq<ColorInfo<Float>>)
    ensures |r| == |s|
    ensures forall i :: 0 <= i < |s| ==> r[i] == ColorInfo(ColorToInt(s[i].average), Divide(s[i].count, total))
  {
    seq(|s|, i requires 0 <= i < |s| => ShadeRatio(s[i], total))
  }

  /** The five most populous clusters after every pixel was added. */
  function BestClusters(pixels: seq<Color32>): (best: seq<ColorCluster>)
    ensures |best| == BestCount
  {
    GetBestClusters(ClustersOf(pixels), BestCount)
  }

  /** The best colours of an image: the five best colour counts as shares of the pixels. */
  function BestColors(pixels: seq<Color32>): (r: seq<ColorInfo<Float>>)
    ensures |r| == BestCount
  {
    ColorRatios(BestColorCounts(pixels), |pixels|)
  }

  /** The best shades of an image: the five best clusters' averages and shares of the pixels. */
  function BestShades(pixels: seq<Color32>): (r: seq<ColorInfo<Float>>)
    ensures |r| == BestCount
  {
    ShadeRatios(BestClusters(pixels), |pixels|)
  }

  /** The number of distinct colours that get a slot of their own: at most five. */
  function RealSlots(pixels: seq<Color32>): nat {
    if |PixelColors(pixels)| < BestCount then |PixelColors(pixels)| else BestCount
  }

  /**
    The first `RealSlots` best colour counts are colours of the image with
    their exact counts; the rest are `NoColor` padding.  Counts never increase
    along the five slots.
  */
  lemma BestColorCountsShape(pixels: seq<Color32>)
    ensures forall i :: 0 <= i < RealSlots(pixels) ==>
              BestColorCounts(pixels)[i].count == Occurrences(pixels, BestColorCounts(pixels)[i].color) > 0
    ensures forall i :: RealSlots(pixels) <= i < BestCount ==> BestColorCounts(pixels)[i] == NoColor
    ensures forall i, j :: 0 <= i < j < BestCount ==> BestColorCounts(pixels)[j].count <= BestColorCounts(pixels)[i].count
  {
    var m := CountColors(pixels);
    var top := TopColors(pixels);
    var best := BestColorCounts(pixels);
    CountColorsCorrect(pixels);
    assert |top| == RealSlots(pixels);
    forall i | 0 <= i < |top|
      ensures best[i] == top[i]
      ensures top[i].count == Occurrences(pixels, top[i].color) > 0
    {
      assert top[i] in multiset(m);
    }
  }

  /** A map without repeated keys holds each entry at most once. */
  lemma {:induction false} DistinctColorsMultiplicity(m: seq<ColorCount>, x: ColorCount)
    requires DistinctColors(m)
    ensures multiset(m)[x] <= 1
  {
    if |m| > 0 {
      var t := m[1..];
      DistinctColorsMultiplicity(t, x);
      assert m == [m[0]] + t;
      assert forall j :: 0 <= j < |t| ==> t[j].color != m[0].color;
      assert m[0] !in t;
    }
  }

  /** An element at two positions occurs at least twice. */
  lemma MultiplicityOfRepeat<T>(s: seq<T>, i: nat, j: nat)
    requires i < j < |s| && s[i] == s[j]
    ensures multiset(s)[s[i]] >= 2
  {
    assert s == s[..j] + s[j..];
    assert s[i] in s[..j];
    assert s[j] in s[j..];
    assert multiset(s) == multiset(s[..j]) + multiset(s[j..]);
  }

  /** There are `RealSlots` top colours, and they open the best colour counts. */
  lemma TopColorsSlots(pixels: seq<Color32>)
    ensures |TopColors(pixels)| == RealSlots(pixels)
    ensures forall i :: 0 <= i < |TopColors(pixels)| ==> BestColorCounts(pixels)[i] == TopColors(pixels)[i]
  {
    CountColorsCorrect(pixels);
  }

  /** A colour of the image that got no slot occurs no more often than the colour of any slot. */
  lemma LeftOutColor(pixels: seq<Color32>, v: int)
    requires Occurrences(pixels, v) > 0
    requires forall i :: 0 <= i < |TopColors(pixels)| ==> TopColors(pixels)[i].color != v
    ensures forall i :: 0 <= i < |TopColors(pixels)| ==> Occurrences(pixels, v) <= TopColors(pixels)[i].count
  {
    var m := CountColors(pixels);
    var top := TopColors(pixels);
    CountColorsCorrect(pixels);
    PixelColorsOccur(pixels);
    assert v in ColorsOf(m);
    var j :| 0 <= j < |m| && m[j].color == v;
    var x := m[j];
    assert x.count == Occurrences(pixels, v);
    assert x !in top;
    assert multiset(top)[x] == 0;
    assert x in multiset(m);
    assert CountOf(x) == x.count;
    assert forall i :: 0 <= i < |top| ==> CountOf(top[i]) == top[i].count;
  }

  /** Whether some real slot of the best colours holds `v`. */
  predicate HasSlot(pixels: seq<Color32>, v: int) {
    exists i :: 0 <= i < RealSlots(pixels) && BestColorCounts(pixels)[i].color == v
  }

  /** A colour that got no slot occurs no more often than the colour of any slot. */
  lemma BestColorCountsAreTop(pixels: seq<Color32>)
    ensures forall v :: !HasSlot(pixels, v) ==>
              forall i :: 0 <= i < RealSlots(pixels) ==> Occurrences(pixels, v) <= BestColorCounts(pixels)[i].count
  {
    forall v | !HasSlot(pixels, v)
      ensures forall i :: 0 <= i < RealSlots(pixels) ==> Occurrences(pixels, v) <= BestColorCounts(pixels)[i].count
    {
      TopColorsSlots(pixels);
      if Occurrences(pixels, v) > 0 {
        LeftOutColor(pixels, v);
      } else {
        BestColorCountsShape(pixels);
      }
    }
  }

  /** Two different top colour entries have different colours. */
  lemma TopColorsDistinct(pixels: seq<Color32>, i: nat, j: nat)
    requires i < j < |TopColors(pixels)|
    ensures TopColors(pixels)[i].color != TopColors(pixels)[j].color
  {
    var m := CountColors(pixels);
    var top := TopColors(pixels);
    CountColorsDistinct(pixels);
    var k := IndexInSuperset(top, m, i);
    var l := IndexInSuperset(top, m, j);
    if top[i].color == top[j].color {
      assert k == l;
      MultiplicityOfRepeat(top, i, j);
      DistinctColorsMultiplicity(m, top[i]);
      assert false;
    }
  }

  /** No colour gets two slots. */
  lemma BestColorCountsDistinct(pixels: seq<Color32>)
    ensures forall i, j :: 0 <= i < j < RealSlots(pixels) ==> BestColorCounts(pixels)[i].color != BestColorCounts(pixels)[j].color
  {
    TopColorsSlots(pixels);
    forall i, j | 0 <= i < j < RealSlots(pixels)
      ensures BestColorCounts(pixels)[i].color != BestColorCounts(pixels)[j].color
    {
      TopColorsDistinct(pixels, i, j);
    }
  }
}
