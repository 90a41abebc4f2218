/**
  The RGB bucket clustering of ImageUtils: `ColorCluster` and `RGBClusters`.

  The RGB cube is cut into 8 x 8 x 8 cells, each 32 values wide per axis.
  Each cell keeps a pixel count, per-channel totals and a truncated integer
  average of the colours added to it.
*/
module Clusters {
  import opened Colors
  import opened Sorting

  const AxisDivisions: nat := 8
  const BucketSize: nat := 256 / AxisDivisions
  const ClusterCount: nat := AxisDivisions * AxisDivisions * AxisDivisions

  const Black: Color32 := Color32(0, 0, 0, 0)

  /** One cell: totals of R, G, B and A, their truncated average, and the pixel count. */
  datatype ColorCluster = ColorCluster(totals: seq<int>, average: Color32, count: int)

  /** A fresh `ColorCluster`: zero totals, the default (all-zero) `Color32`, count 0. */
  const EmptyCluster: ColorCluster := ColorCluster([0, 0, 0, 0], Black, 0)

  /** The shape every cluster has: four totals and a count that never went negative. */
  predicate WellFormed(c: ColorCluster) {
    |c.totals| == 4 && c.count >= 0
  }

  /** C# integer division, which truncates toward zero. */
  function DivTrunc(x: int, y: int): int
    requires y != 0
  {
    if (x < 0) == (y < 0) then (if x < 0 then -x else x) / (if y < 0 then -y else y)
    else -((if x < 0 then -x else x) / (if y < 0 then -y else y))
  }

  /** An unchecked `(byte)` cast keeps the low 8 bits. */
  function ByteCast(x: int): byte {
    x % 0x100
  }

  /** An unchecked 32-bit `int` addition result: the value wrapped into [-2^31, 2^31). */
  function Wrap32(x: int): int {
    (x + 0x8000_0000) % 0x1_0000_0000 - 0x8000_0000
  }

  /** A value that fits in an `int` is left alone by the wrap. */
  lemma Wrap32InRange(x: int)
    requires -0x8000_0000 <= x < 0x8000_0000
    ensures Wrap32(x) == x
  {
  }

  /** `m_Average[i] = (byte)(m_CurrentTotals[i] / count)` for the four channels. */
  function AverageOf(totals: seq<int>, count: int): Color32
    requires |totals| == 4 && count != 0
  {
    Color32(ByteCast(DivTrunc(totals[0], count)), ByteCast(DivTrunc(totals[1], count)),
            ByteCast(DivTrunc(totals[2], count)), ByteCast(DivTrunc(totals[3], count)))
  }

  /**
    `ColorCluster.AddColor`, with the channel totals kept wide enough never to
    overflow: the count grows by one, each channel value joins its total, and
    the average is recomputed from the totals.
  */
  function AddColor(c: ColorCluster, color: Color32): (c': ColorCluster)
    requires WellFormed(c)
    ensures WellFormed(c')
    ensures c'.count == c.count + 1
    ensures forall i :: 0 <= i < 4 ==> c'.totals[i] == c.totals[i] + Channel(color, i)
  {
    var totals := [c.totals[0] + color.r, c.totals[1] + color.g, c.totals[2] + color.b, c.totals[3] + color.a];
    ColorCluster(totals, AverageOf(totals, c.count + 1), c.count + 1)
  }

  /**
    `ColorCluster.AddColor` as written: `m_CurrentTotals` is an `int[]`, so
    each total wraps at 2^31 before it is divided.
  */
  function AddColorAsWritten(c: ColorCluster, color: Color32): (c': ColorCluster)
    requires WellFormed(c)
    ensures WellFormed(c')
    ensures c'.count == c.count + 1
    ensures forall i :: 0 <= i < 4 ==> c'.totals[i] == Wrap32(c.totals[i] + Channel(color, i))
  {
    var totals := [Wrap32(c.totals[0] + color.r), Wrap32(c.totals[1] + color.g),
                   Wrap32(c.totals[2] + color.b), Wrap32(c.totals[3] + color.a)];
    ColorCluster(totals, AverageOf(totals, c.count + 1), c.count + 1)
  }

  /** The cluster obtained by adding `colors`, in order, to a fresh cluster. */
  function ClusterOf(colors: seq<Color32>): (c: ColorCluster)
    ensures WellFormed(c)
  {
    if |colors| == 0 then EmptyCluster
    else AddColor(ClusterOf(colors[..|colors| - 1]), colors[|colors| - 1])
  }

  /** The same, with the as-written 32-bit totals. */
  function ClusterOfAsWritten(colors: seq<Color32>): (c: ColorCluster)
    ensures WellFormed(c)
  {
    if |colors| == 0 then EmptyCluster
    else AddColorAsWritten(ClusterOfAsWritten(colors[..|colors| - 1]), colors[|colors| - 1])
  }

  /** The sum of channel `i` over `colors`. */
  function ChannelSum(colors: seq<Color32>, i: nat): int
    requires i < 4
  {
    if |colors| == 0 then 0 else ChannelSum(colors[..|colors| - 1], i) + Channel(colors[|colors| - 1], i)
  }

  /** The smallest value of channel `i` over non-empty `colors`. */
  function ChannelMin(colors: seq<Color32>, i: nat): byte
    requires i < 4 && |colors| > 0
  {
    var v := Channel(colors[|colors| - 1], i);
    if |colors| == 1 then v
    else var m := ChannelMin(colors[..|colors| - 1], i); if v < m then v else m
  }

  /** The largest value of channel `i` over non-empty `colors`. */
  function ChannelMax(colors: seq<Color32>, i: nat): byte
    requires i < 4 && |colors| > 0
  {
    var v := Channel(colors[|colors| - 1], i);
    if |colors| == 1 then v
    else var m := ChannelMax(colors[..|colors| - 1], i); if v > m then v else m
  }

  /** A channel's sum lies between count times its minimum and count times its maximum. */
  lemma {:induction false} ChannelSumBounds(colors: seq<Color32>, i: nat)
    requires i < 4 && |colors| > 0
    ensures |colors| * ChannelMin(colors, i) <= ChannelSum(colors, i) <= |colors| * ChannelMax(colors, i)
  {
    if |colors| > 1 {
      var init := colors[..|colors| - 1];
      ChannelSumBounds(init, i);
      BoundsStep(|init|, ChannelMin(colors, i), ChannelMax(colors, i), ChannelMin(init, i), ChannelMax(init, i),
                 ChannelSum(init, i), Channel(colors[|colors| - 1], i));
    }
  }

  /** One more value within [lo, hi] keeps a sum within count times lo and hi. */
  lemma BoundsStep(m: int, lo: int, hi: int, lo0: int, hi0: int, sum: int, v: int)
    requires m >= 0 && lo <= lo0 && lo <= v && hi0 <= hi && v <= hi
    requires m * lo0 <= sum <= m * hi0
    ensures (m + 1) * lo <= sum + v <= (m + 1) * hi
  {
    MulMonotone(m, lo, lo0);
    MulMonotone(m, hi0, hi);
    assert (m + 1) * lo == m * lo + lo;
    assert (m + 1) * hi == m * hi + hi;
  }

  lemma MulMonotone(n: int, x: int, y: int)
    requires n >= 0 && x <= y
    ensures n * x <= n * y
  {
    MulNonneg(n, y - x);
    assert n * (y - x) == n * y - n * x;
  }

  /** A truncated quotient of a total bounded by count times lo and hi lies in [lo, hi]. */
  lemma QuotientBetween(total: int, n: int, lo: int, hi: int)
    requires n > 0
    requires n * lo <= total <= n * hi
    ensures lo <= total / n <= hi
  {
    var q, r := total / n, total % n;
    assert total == q * n + r && 0 <= r < n;
    assert n * (q + 1) == q * n + n;
    assert n * (hi + 1) == n * hi + n;
    if q < lo {
      MulMonotone(n, q + 1, lo);
    }
    if q > hi {
      MulMonotone(n, hi + 1, q);
    }
  }

  /** A cluster counts the colours added to it and totals each channel. */
  lemma {:induction false} ClusterOfTotals(colors: seq<Color32>)
    ensures ClusterOf(colors).count == |colors|
    ensures forall i :: 0 <= i < 4 ==> ClusterOf(colors).totals[i] == ChannelSum(colors, i)
    ensures |colors| == 0 ==> ClusterOf(colors) == EmptyCluster
  {
    if |colors| > 0 {
      ClusterOfTotals(colors[..|colors| - 1]);
    }
  }

  /** The average of a non-empty cluster is recomputed from its totals and count. */
  lemma ClusterOfAverage(colors: seq<Color32>)
    requires |colors| > 0
    ensures ClusterOf(colors).count == |colors|
    ensures ClusterOf(colors).average == AverageOf(ClusterOf(colors).totals, |colors|)
  {
    ClusterOfTotals(colors);
  }

  /** One channel of the average: the truncated mean, between the channel's extremes. */
  lemma ClusterChannelAverage(colors: seq<Color32>, i: nat)
    requires |colors| > 0 && i < 4
    ensures Channel(ClusterOf(colors).average, i) == ChannelSum(colors, i) / |colors|
    ensures ChannelMin(colors, i) <= Channel(ClusterOf(colors).average, i) <= ChannelMax(colors, i)
  {
    var c := ClusterOf(colors);
    var n, lo, hi, sum := |colors|, ChannelMin(colors, i), ChannelMax(colors, i), ChannelSum(colors, i);
    ClusterOfTotals(colors);
    ClusterOfAverage(colors);
    ChannelSumBounds(colors, i);
    MulNonneg(n, lo);
    MulMonotone(n, hi, 255);
    AverageChannel(c.totals, n, i);
    QuotientBetween(sum, n, lo, hi);
  }

  /**
    What a cluster holds after `colors` were added: the number of colours,
    each channel's total, and - once anything was added - a truncated average
    per channel that lies between the smallest and largest value added on that
    channel.  A cluster that received nothing is still the fresh one.
  */
  lemma ClusterOfSummary(colors: seq<Color32>)
    ensures ClusterOf(colors).count == |colors|
    ensures forall i :: 0 <= i < 4 ==> ClusterOf(colors).totals[i] == ChannelSum(colors, i)
    ensures |colors| == 0 ==> ClusterOf(colors) == EmptyCluster
    ensures |colors| > 0 ==> forall i :: 0 <= i < 4 ==>
              && Channel(ClusterOf(colors).average, i) == ChannelSum(colors, i) / |colors|
              && ChannelMin(colors, i) <= Channel(ClusterOf(colors).average, i) <= ChannelMax(colors, i)
  {
    ClusterOfTotals(colors);
    if |colors| > 0 {
      forall i | 0 <= i < 4
        ensures Channel(ClusterOf(colors).average, i) == ChannelSum(colors, i) / |colors|
        ensures ChannelMin(colors, i) <= Channel(ClusterOf(colors).average, i) <= ChannelMax(colors, i)
      {
        ClusterChannelAverage(colors, i);
      }
    }
  }

  /** For a non-negative total no larger than 255 per colour, the cast and truncation change nothing. */
  lemma AverageChannel(totals: seq<int>, n: int, i: nat)
    requires |totals| == 4 && n > 0 && i < 4
    requires 0 <= totals[i] <= n * 255
    ensures Channel(AverageOf(totals, n), i) == totals[i] / n
  {
    QuotientBetween(totals[i], n, 0, 255);
  }

  /** The fresh `RGBClusters`: exactly 512 empty clusters, one per cell. */
  function NewClusters(): (cs: seq<ColorCluster>)
    ensures |cs| == ClusterCount == 512
    ensures forall b :: 0 <= b < |cs| ==> cs[b] == EmptyCluster
  {
    seq(ClusterCount, _ => EmptyCluster)
  }

  /** The 32-wide slice of an axis a channel value falls into. */
  function FindAxisIndex(v: byte): (k: nat)
    ensures k < AxisDivisions
    ensures k * BucketSize <= v < (k + 1) * BucketSize
  {
    v / BucketSize
  }

  /**
    The cell of a colour, `(r/32*8 + g/32)*8 + b/32`: always one of the 512
    cells, and its base-8 digits are the colour's R, G and B slices.
  */
  function BucketIndex(c: Color32): (b: nat)
    ensures b < ClusterCount
    ensures b / 64 == FindAxisIndex(c.r) && (b / 8) % 8 == FindAxisIndex(c.g) && b % 8 == FindAxisIndex(c.b)
  {
    var x, y, z := FindAxisIndex(c.r), FindAxisIndex(c.g), FindAxisIndex(c.b);
    Base8Digits(x, y, z);
    (x * AxisDivisions + y) * AxisDivisions + z
  }

  lemma Base8Digits(x: nat, y: nat, z: nat)
    requires x < 8 && y < 8 && z < 8
    ensures (x * 8 + y) * 8 + z < 512
    ensures ((x * 8 + y) * 8 + z) / 64 == x
    ensures (((x * 8 + y) * 8 + z) / 8) % 8 == y
    ensures ((x * 8 + y) * 8 + z) % 8 == z
  {
    var n := (x * 8 + y) * 8 + z;
    assert n == x * 64 + y * 8 + z;
    assert n / 8 == x * 8 + y;
  }

  /** Every cluster is well formed and there is one per cell. */
  predicate ValidClusters(cs: seq<ColorCluster>) {
    |cs| == ClusterCount && forall b :: 0 <= b < |cs| ==> WellFormed(cs[b])
  }

  /** `RGBClusters.AddColor`: the colour goes to the cluster of its cell and nowhere else. */
  function AddToClusters(cs: seq<ColorCluster>, color: Color32): (cs': seq<ColorCluster>)
    requires ValidClusters(cs)
    ensures ValidClusters(cs')
    ensures cs'[BucketIndex(color)] == AddColor(cs[BucketIndex(color)], color)
    ensures forall b :: 0 <= b < |cs| && b != BucketIndex(color) ==> cs'[b] == cs[b]
  {
    var b := BucketIndex(color);
    cs[b := AddColor(cs[b], color)]
  }

  /**
    The clusters after every pixel of `pixels` was added, in order: 512 of
    them, whose counts add up to the number of pixels.
  */
  function ClustersOf(pixels: seq<Color32>): (cs: seq<ColorCluster>)
    ensures ValidClusters(cs)
    ensures CountSum(cs) == |pixels|
  {
    if |pixels| == 0 then
      CountSumOfEmpties(NewClusters());
      NewClusters()
    else
      var init, last := pixels[..|pixels| - 1], pixels[|pixels| - 1];
      var cs := ClustersOf(init);
      var k := BucketIndex(last);
      CountSumOfUpdate(cs, k, AddColor(cs[k], last));
      AddToClusters(cs, last)
  }

  /** The pixels of `pixels` that fall in cell `b`, in order. */
  function InBucket(pixels: seq<Color32>, b: nat): seq<Color32> {
    if |pixels| == 0 then []
    else
      var last := pixels[|pixels| - 1];
      InBucket(pixels[..|pixels| - 1], b) + (if BucketIndex(last) == b then [last] else [])
  }

  /** The total pixel count over a sequence of clusters. */
  function CountSum(cs: seq<ColorCluster>): int {
    if |cs| == 0 then 0 else cs[0].count + CountSum(cs[1..])
  }

  lemma {:induction false} CountSumOfUpdate(cs: seq<ColorCluster>, b: nat, c: ColorCluster)
    requires b < |cs|
    ensures CountSum(cs[b := c]) == CountSum(cs) - cs[b].count + c.count
  {
    if b > 0 {
      assert cs[b := c][1..] == cs[1..][b - 1 := c];
      CountSumOfUpdate(cs[1..], b - 1, c);
    } else {
      assert cs[b := c][1..] == cs[1..];
    }
  }

  lemma {:induction false} CountSumOfEmpties(cs: seq<ColorCluster>)
    requires forall b :: 0 <= b < |cs| ==> cs[b] == EmptyCluster
    ensures CountSum(cs) == 0
  {
    if |cs| > 0 {
      CountSumOfEmpties(cs[1..]);
    }
  }

  /** After adding `pixels`, cluster `b` holds exactly the pixels of cell `b`, in order. */
  lemma {:induction false} ClustersOfContents(pixels: seq<Color32>)
    ensures forall b :: 0 <= b < ClusterCount ==> ClustersOf(pixels)[b] == ClusterOf(InBucket(pixels, b))
  {
    if |pixels| > 0 {
      var init, last := pixels[..|pixels| - 1], pixels[|pixels| - 1];
      ClustersOfContents(init);
      var k := BucketIndex(last);
      forall b | 0 <= b < ClusterCount
        ensures ClustersOf(pixels)[b] == ClusterOf(InBucket(pixels, b))
      {
        if b == k {
          var s := InBucket(init, b) + [last];
          assert InBucket(pixels, b) == s;
          assert s[..|s| - 1] == InBucket(init, b);
        } else {
          assert InBucket(pixels, b) == InBucket(init, b);
        }
      }
    }
  }

  /** A cluster that received no pixel still has the all-zero average. */
  lemma EmptyClustersAreBlack(pixels: seq<Color32>)
    ensures forall b :: 0 <= b < ClusterCount && ClustersOf(pixels)[b].count == 0 ==>
              ClustersOf(pixels)[b].average == Black
  {
    ClustersOfContents(pixels);
    forall b | 0 <= b < ClusterCount && ClustersOf(pixels)[b].count == 0
      ensures ClustersOf(pixels)[b].average == Black
    {
      ClusterOfSummary(InBucket(pixels, b));
    }
  }

  /**
    `GetBestClusters(k)`: the `k` most populous clusters (none for k <= 0,
    all when k exceeds their number), in non-increasing count order; every
    cluster left out has a count no larger than any cluster returned.  The
    order among equal counts is not fixed by the source's unstable sort.
  */
  function GetBestClusters(cs: seq<ColorCluster>, k: int): (best: seq<ColorCluster>)
    ensures |best| == if k < 0 then 0 else if k < |cs| then k else |cs|
    ensures forall i, j :: 0 <= i < j < |best| ==> best[j].count <= best[i].count
    ensures multiset(best) <= multiset(cs)
    ensures forall x :: multiset(best)[x] < multiset(cs)[x] ==>
              forall j :: 0 <= j < |best| ==> x.count <= best[j].count
  {
    TopK(cs, k, (c: ColorCluster) => c.count)
  }

  // The 32-bit totals of `ColorCluster` overflow.

  const White: Color32 := Color32(255, 255, 255, 255)

  /** The largest number of pure-white pixels one cluster can total without overflow. */
  const SafeWhiteCount: nat := 8_421_504

  /** Up to `SafeWhiteCount` white pixels, the as-written totals are still exact. */
  lemma {:induction false} AsWrittenWhiteTotals(n: nat)
    requires n <= SafeWhiteCount
    ensures ClusterOfAsWritten(seq(n, _ => White)).count == n
    ensures ClusterOfAsWritten(seq(n, _ => White)).totals == [255 * n, 255 * n, 255 * n, 255 * n]
  {
    if n > 0 {
      var s := seq(n, _ => White);
      assert s[..n - 1] == seq(n - 1, _ => White);
      AsWrittenWhiteTotals(n - 1);
      var c := ClusterOfAsWritten(s[..n - 1]);
      Wrap32InRange(255 * n);
      assert 255 * (n - 1) + 255 == 255 * n;
      var c' := AddColorAsWritten(c, White);
      assert ClusterOfAsWritten(s) == c';
      assert c'.totals == [255 * n, 255 * n, 255 * n, 255 * n];
    }
  }

  /**
    One more white pixel pushes each total past 2^31 - 1: it wraps to a
    negative value, C#'s truncating division gives -254, and the `(byte)`
    cast stores 2.  The cluster reports an average of (2, 2, 2, 2) for a cell
    that holds only white.
  */
  lemma AsWrittenAverageWraps()
    ensures ClusterOfAsWritten(seq(SafeWhiteCount + 1, _ => White)).average == Color32(2, 2, 2, 2)
  {
    var s := seq(SafeWhiteCount + 1, _ => White);
    assert s[..SafeWhiteCount] == seq(SafeWhiteCount, _ => White);
    AsWrittenWhiteTotals(SafeWhiteCount);
    var c := ClusterOfAsWritten(s[..SafeWhiteCount]);
    var c' := AddColorAsWritten(c, White);
    assert ClusterOfAsWritten(s) == c';
    WrappedWhiteTotal();
    assert c'.totals == [WrappedWhite, WrappedWhite, WrappedWhite, WrappedWhite];
    WrappedWhiteAverage();
  }

  /** The 32-bit total of `SafeWhiteCount + 1` white channel values. */
  const WrappedWhite: int := -2_147_483_521

  lemma WrappedWhiteTotal()
    ensures Wrap32(255 * SafeWhiteCount + 255) == WrappedWhite
  {
  }

  lemma WrappedWhiteAverage()
    ensures AverageOf([WrappedWhite, WrappedWhite, WrappedWhite, WrappedWhite], SafeWhiteCount + 1) == Color32(2, 2, 2, 2)
  {
    assert DivTrunc(WrappedWhite, SafeWhiteCount + 1) == -254;
  }

  /** With wide totals the same cluster averages to white, as intended. */
  lemma CorrectedAverageOfWhite()
    ensures ClusterOf(seq(SafeWhiteCount + 1, _ => White)).average == White
  {
    var s := seq(SafeWhiteCount + 1, _ => White);
    ClusterOfSummary(s);
    forall i | 0 <= i < 4
      ensures ChannelMin(s, i) == 255
    {
      ChannelMinOfUniform(s, i);
    }
  }

  lemma {:induction false} ChannelMinOfUniform(s: seq<Color32>, i: nat)
    requires i < 4 && |s| > 0
    requires forall k :: 0 <= k < |s| ==> s[k] == White
    ensures ChannelMin(s, i) == 255
  {
    if |s| > 1 {
      ChannelMinOfUniform(s[..|s| - 1], i);
    }
  }
}
