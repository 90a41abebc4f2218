/**
  The feature record of ImageData.cs: `ColorInfo`, `ImageData` and the
  `Hash128` id it carries.
*/
module ImageRecords {
  import opened Colors
  import opened Floats
  import opened Histograms
  import opened Binary

  type uint64 = x: int | 0 <= x < 0x1_0000_0000_0000_0000

  /** Unity's 128-bit hash, as its two 64-bit halves. */
  datatype Hash128 = Hash128(u64_0: uint64, u64_1: uint64)

  /**
    The parts of `Hash128` that are native Unity code: `Compute` of a path,
    `ToString` and `Parse`.  They are parameters of the model.
  */
  datatype HashFunctions = HashFunctions(compute: Text -> Hash128, render: Hash128 -> Text, parse: Text -> Hash128)

  /** `Parse` reads back what `ToString` printed. */
  ghost predicate ParsesRendered(hf: HashFunctions) {
    forall h :: hf.parse(hf.render(h)) == h
  }

  /** A colour (packed) and the fraction of the image it stands for. */
  datatype ColorInfo<R> = ColorInfo(color: uint32, ratio: R)

  /** The number of colours and of shades a record keeps. */
  const BestCount: nat := 5

  /** A default `ColorInfo` as stored: colour 0 and the bits of +0.0. */
  const ZeroInfo: ColorInfo<Bits64> := ColorInfo(0, ZeroDouble)

  /** One indexed image: its id, five best colours, five best shades and its histogram. */
  datatype ImageData = ImageData(
    guid: Hash128,
    bestColors: seq<ColorInfo<Bits64>>,
    bestShades: seq<ColorInfo<Bits64>>,
    histogram: Histogram<Bits32>)

  /** `new ColorInfo[5]`. */
  function ZeroInfos(): (s: seq<ColorInfo<Bits64>>)
    ensures |s| == BestCount
    ensures forall i :: 0 <= i < |s| ==> s[i] == ZeroInfo
  {
    seq(BestCount, _ => ZeroInfo)
  }

  /**
    `ImageData(Hash128)`: keeps the given id, five zero colours, five zero
    shades and a histogram of three 256-bin channels of +0.0.
  */
  function NewImageData(guid: Hash128): (d: ImageData)
    ensures d.guid == guid
    ensures |d.bestColors| == BestCount && forall i :: 0 <= i < BestCount ==> d.bestColors[i] == ZeroInfo
    ensures |d.bestShades| == BestCount && forall i :: 0 <= i < BestCount ==> d.bestShades[i] == ZeroInfo
    ensures Shaped(d.histogram)
    ensures forall ch, v :: 0 <= ch < 3 && 0 <= v < HistogramSize ==> Values(d.histogram, ch)[v] == ZeroSingle
  {
    ImageData(guid, ZeroInfos(), ZeroInfos(), Blank(ZeroSingle))
  }

  /**
    `ImageData(string)`: the same empty record, its id computed from the
    path alone, so equal paths give equal ids.
  */
  function NewImageDataForPath(hf: HashFunctions, path: Text): (d: ImageData)
    ensures d.guid == hf.compute(path)
    ensures |d.bestColors| == BestCount && forall i :: 0 <= i < BestCount ==> d.bestColors[i] == ZeroInfo
    ensures |d.bestShades| == BestCount && forall i :: 0 <= i < BestCount ==> d.bestShades[i] == ZeroInfo
    ensures Shaped(d.histogram)
    ensures forall ch, v :: 0 <= ch < 3 && 0 <= v < HistogramSize ==> Values(d.histogram, ch)[v] == ZeroSingle
  {
    NewImageData(hf.compute(path))
  }
}
