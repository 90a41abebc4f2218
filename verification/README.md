# Image index core of QuickSearch's image search, in Dafny

This project models the part of the QuickSearch image search that turns a
picture into a feature record and keeps those records in an index. Three
source files are covered:

- `ImageUtils.cs`: packing a `Color32` into a `uint` and back, and the
  integer colour distance. It also covers the 512-cell RGB clustering
  (`ColorCluster`, `RGBClusters`), `ComputeHistogram`, and
  `ComputeBestColorsAndHistogram`, which yields the five most frequent exact
  colours, the five most populous clusters ("shades") and a normalised
  three-channel histogram.
- `ImageData.cs`: `ColorInfo`, `Histogram` (construction, `AddPixel`,
  `Normalize`) and the two `ImageData` constructors.
- `ImageDatabase.cs`: the store of records. It has an id-to-path map, a list
  of records, and a path-to-position map that only a reload rebuilds. The
  model covers `IndexTexture`/`IndexColors` (with the pixels given), the
  queries `GetAssetPath`, `ContainsAsset` and `GetImageDataFromPath`, and the
  binary format `WriteTo`/`WriteHistogram` and `ReadFrom`/`ReadHistogram`.

One Dafny module per concept, one file each:

| Module | Contents |
|---|---|
| `Wrappers` | `Option` and `Result` |
| `Floats` | Exact IEEE quotients, and rounding given as a parameter |
| `Exceptions` | The exceptions the code throws |
| `Colors` | `Color32`, packing and distance |
| `Sorting` | A descending sort and top-k, by key |
| `Histograms` | The histogram |
| `Clusters` | `ColorCluster` and `RGBClusters` |
| `ImageRecords` | `Hash128`, `ColorInfo` and `ImageData` |
| `Binary` | The .NET `BinaryReader`/`BinaryWriter` primitives the format uses |
| `Features` and `Extraction` | The feature extraction |
| `Database` | The store and its queries, plus indexing one image |
| `Codec` | The binary form |

Modelling choices:

- **Counts and quotients.** Integers are unbounded, and counts are exact.
  The code's number widths change results in two places, both for very
  large images. The 32-bit cluster totals wrap; only the
  `Clusters.*AsWritten*` members model that (see Findings), and the
  extraction and indexing pipeline uses corrected totals that do not wrap.
  The `float` histogram bins stop counting at 2^24, and the pixel total is
  converted to `float` before the division; the model keeps exact counts
  (see "## Left out"). A `float` or `double` quotient is kept exact as a
  `Float`. `Float` is a real, a signed infinity or NaN, so `0/0` is NaN and
  an empty image needs no precondition.
- **Stored bit patterns.** A record stores its ratios and bins as the bytes
  of the rounded value. The rounding to binary32/binary64 is a parameter
  (`Rounding`). IEEE 754 fixes only +0.0 as all-zero bytes.
- **`Hash128`.** It is two 64-bit halves. `Hash128.Compute`, `ToString` and
  `Parse` are native engine code, so they are parameters (`HashFunctions`).
  The round-trip theorem assumes that `Parse` reads back what `ToString`
  printed (`ParsesRendered`).
- **Strings** are their UTF-8 bytes.
- **`Dictionary<Hash128, string>`** is an association list in enumeration
  order. Without removals, .NET enumerates a dictionary in insertion order,
  and the indexer overwrites a key in place.
- **Exceptions** are `Result.Failure` values.
- **Sort order of ties.** `List.Sort` is unstable, so the contracts fix
  the order only up to ties.

## Model

| member | source | states |
|---|---|---|
| Colors.ColorToInt | Assets/Editor/ImageUtils.cs:178-186 | The packed value holds r in its top byte, then g, then b, with a in the low byte. |
| Colors.IntToColor32 | Assets/Editor/ImageUtils.cs:188-196 | Unpacking a `uint` gives the colour that packs back to that same `uint`. |
| Colors.IntToColor32OfColorToInt | Assets/Editor/ImageUtils.cs:178-196 | Unpacking a packed colour gives the colour back. |
| Colors.ColorToIntInjective | Assets/Editor/ImageUtils.cs:178-186 | Two colours pack to the same value exactly when they are equal. |
| Colors.ColorSquareDistance | Assets/Editor/ImageUtils.cs:198-203 | The squared distance is 0 exactly when r, g and b agree, and never exceeds 3·255². |
| Colors.ColorSquareDistanceSymmetric | Assets/Editor/ImageUtils.cs:198-203 | The distance does not depend on argument order. |
| Colors.ColorSquareDistanceIgnoresAlpha | Assets/Editor/ImageUtils.cs:198-203 | Changing alpha does not change the distance. |
| Clusters.AddColor | Assets/Editor/ImageUtils.cs:116-124 | Adding a colour raises the count by one and each channel total by that channel (corrected: totals do not wrap). |
| Clusters.AddColorAsWritten | Assets/Editor/ImageUtils.cs:110-124 | As written: each total is the 32-bit two's-complement wrap of the old total plus the channel. |
| Clusters.ClusterOfSummary | Assets/Editor/ImageUtils.cs:108-125 | After adding colours one by one, the count is their number and the totals are the channel sums. Each average channel is the sum divided by the count, and lies between the channel's minimum and maximum. A cluster with no colours is black. |
| Clusters.NewClusters | Assets/Editor/ImageUtils.cs:134-147 | A fresh cluster set has 512 clusters, all empty. |
| Clusters.FindAxisIndex | Assets/Editor/ImageUtils.cs:159-162 | A channel value's axis index k is below 8, with 32k ≤ v < 32(k+1). |
| Clusters.BucketIndex | Assets/Editor/ImageUtils.cs:149-154 | The cell index is below 512, and its base-8 digits are the r, g and b axis indices. |
| Clusters.AddToClusters | Assets/Editor/ImageUtils.cs:149-157 | The colour's cell receives `AddColor`; every other cell is unchanged. |
| Clusters.ClustersOfContents | Assets/Editor/ImageUtils.cs:149-157 | After every pixel is added, cell b is the cluster of exactly the pixels that fall in b, in order. |
| Clusters.ClustersOf | Assets/Editor/ImageUtils.cs:127-157 | Adding every pixel to a fresh `RGBClusters` gives 512 clusters whose counts add up to the number of pixels. |
| Clusters.EmptyClustersAreBlack | Assets/Editor/ImageUtils.cs:108-125 | A cell with count 0 has the all-zero average. |
| Clusters.GetBestClusters | Assets/Editor/ImageUtils.cs:164-168 | The result holds min(k, 512) clusters taken from the set, by non-increasing count. No cluster left out has a larger count than a kept one. |
| Clusters.AsWrittenWhiteTotals | Assets/Editor/ImageUtils.cs:110-124 | Up to 8,421,504 white pixels, the 32-bit totals are still exact. |
| Clusters.AsWrittenAverageWraps | Assets/Editor/ImageUtils.cs:110-124 | As written, 8,421,505 white pixels in one cell average to (2, 2, 2, 2). |
| Clusters.CorrectedAverageOfWhite | Assets/Editor/ImageUtils.cs:110-124 | With totals that do not wrap, the same pixels average to white. |
| Sorting.SortDesc | Assets/Editor/ImageUtils.cs:166 | The result is a permutation of the input in non-increasing key order. |
| Sorting.TopK | Assets/Editor/ImageUtils.cs:373-376 | Sort then `Take(k)` gives min(k, n) elements of the input by non-increasing key. Nothing left out has a larger key than an element kept. |
| Histograms.NewHistogram | Assets/Editor/Indexing/ImageData.cs:19-24 | A new histogram has three channels of 256 bins, all 0. |
| Histograms.AddPixel | Assets/Editor/Indexing/ImageData.cs:26-31 | In each channel, exactly the pixel's value bin goes up by one, so each channel's sum goes up by one. |
| Histograms.HistogramOf | Assets/Editor/ImageUtils.cs:347-352 | Adding every pixel to a fresh histogram gives three 256-bin channels that each sum to the number of pixels. |
| Histograms.Normalize | Assets/Editor/Indexing/ImageData.cs:33-41 | Every bin of every channel becomes its count divided by the same total, with the channel lengths kept. |
| Histograms.NormalizedSumsToOne | Assets/Editor/Indexing/ImageData.cs:33-41 | Dividing channels that each sum to n > 0 by n gives finite bins that sum to 1 in every channel. |
| Histograms.HistogramOfCounts | Assets/Editor/ImageUtils.cs:347-352 | After every pixel is added, bin v of a channel counts the pixels with value v there, and each channel sums to the pixel count. |
| Features.ComputeHistogram | Assets/Editor/ImageUtils.cs:347-354 | Each bin is the share of pixels with that channel value. For a non-empty image each channel sums to 1. |
| Features.CountColorsCorrect | Assets/Editor/ImageUtils.cs:359-369 | The colour map holds each colour of the image exactly once, with its exact number of occurrences, and nothing else. |
| Features.BestColorCountsShape | Assets/Editor/ImageUtils.cs:373-381 | The first min(5, #colours) slots are image colours with their counts; the rest are the (0, 0) padding. Counts never increase along the slots. |
| Features.BestColorCountsAreTop | Assets/Editor/ImageUtils.cs:373-376 | A colour without a slot occurs no more often than any colour with one. |
| Features.BestColorCountsDistinct | Assets/Editor/ImageUtils.cs:373-376 | No colour fills two slots. |
| Extraction.BestColorsFillSlots | Assets/Editor/ImageUtils.cs:378-385 | The best colours are distinct image colours, each with its share of the pixels, padded with colour 0 at share 0/n. |
| Extraction.BestColorsDescend | Assets/Editor/ImageUtils.cs:373-385 | The real colour slots come in order of non-increasing number of occurrences. |
| Extraction.BestColorsAreTop | Assets/Editor/ImageUtils.cs:373-385 | A colour left out of the best colours is no more frequent than any colour kept. |
| Extraction.BestColorRatiosDescend | Assets/Editor/ImageUtils.cs:375-385 | For a non-empty image, the colour shares are finite and never increase along the slots. |
| Extraction.BestShadesAreTopCells | Assets/Editor/ImageUtils.cs:377-386 | The five shade slots are the packed averages and pixel shares of five pairwise different cells, most populous first, and no other cell holds more pixels than any of those five. |
| Extraction.BestShadesEmptyBlank | Assets/Editor/ImageUtils.cs:377-386 | A shade slot with share 0/n is colour 0. |
| Extraction.BestShadesAreTop | Assets/Editor/ImageUtils.cs:377-386 | No cell whose shade got no slot has a larger share than a slot. |
| Extraction.BestShadeRatiosDescend | Assets/Editor/ImageUtils.cs:377-386 | For a non-empty image, the shade shares are finite and never increase along the slots. |
| Extraction.ComputeBestColorsAndHistogram | Assets/Editor/ImageUtils.cs:356-388 | All of the colour, shade and histogram properties above hold of one call's result. |
| ImageRecords.NewImageData | Assets/Editor/Indexing/ImageData.cs:59-65 | The record keeps the given id, five zero colours, five zero shades, and 3×256 bins of +0.0. |
| ImageRecords.NewImageDataForPath | Assets/Editor/Indexing/ImageData.cs:51-57 | The same empty record, whose id is computed from the path alone. |
| Database.GetAssetPath | Assets/Editor/Indexing/ImageDatabase.cs:31-36 | The result is `None` exactly when no entry has the id; otherwise an entry maps the id to that path. |
| Database.GetImageDataFromPath | Assets/Editor/Indexing/ImageDatabase.cs:43-48 | An unknown path throws "not found" and nothing else does. A known path whose position is outside the list throws out-of-range, and only such a path does. Otherwise the result is the record at the path's position. |
| Database.ContainsAsset | Assets/Editor/Indexing/ImageDatabase.cs:38-41 | A path is known exactly when looking its record up does not throw "not found". |
| Database.Add | Assets/Editor/Indexing/ImageDatabase.cs:55 | `Dictionary.Add` appends a new id and throws exactly when the id is already present. |
| Database.Put | Assets/Editor/Indexing/ImageDatabase.cs:141 | After `m[h] = p`, h maps to p, every other id maps as before, and a new id goes at the end. |
| Database.PutDistinct | Assets/Editor/Indexing/ImageDatabase.cs:141 | The indexer never gives an id two entries. |
| Database.IndexStep | Assets/Editor/Indexing/ImageDatabase.cs:178-179 | A record's indexing succeeds exactly when its id is known and its path is not yet in the path map; otherwise it throws unknown-id or duplicate-path. |
| Database.IndexRecordsCorrect | Assets/Editor/Indexing/ImageDatabase.cs:145-180 | Indexing the records succeeds exactly when every id resolves and no two records share a path. The map it yields sends each record's path to the record's position and holds nothing else. |
| Database.ContainsAssetIndexed | Assets/Editor/Indexing/ImageDatabase.cs:38-41 | In a reloaded store, a path is known exactly when it is the path of some record's id. |
| Database.GetImageDataIndexed | Assets/Editor/Indexing/ImageDatabase.cs:43-48 | In a reloaded store, the path of record k's id leads back to record k. |
| Database.IndexColors | Assets/Editor/Indexing/ImageDatabase.cs:192-204 | On a fresh record, the record keeps its id. Its colours are distinct image colours with rounded shares, most frequent first, padded with colour 0, and no colour left out occurs more often than one kept. Its shades are the rounded shades of five different cells, most populous first, and no other cell holds more pixels. Its bins are rounded channel shares. |
| Database.AddRecord | Assets/Editor/Indexing/ImageDatabase.cs:54-55 | The record is appended first. Adding the id throws exactly when the id is already mapped, and the map is then unchanged. The path map is never touched. |
| Database.IndexTexture | Assets/Editor/Indexing/ImageDatabase.cs:50-56 | The appended record has the path's id and the stored features of the pixels, as `IndexColors` states them. The store then changes as `AddRecord` states. |
| Database.AddRecordResolves | Assets/Editor/Indexing/ImageDatabase.cs:31-36 | After a new id is added, it resolves to its path, other ids resolve as before, and ids stay distinct. |
| Database.AddRecordKeepsPathQueries | Assets/Editor/Indexing/ImageDatabase.cs:38-56 | Indexing does not change the answers of `ContainsAsset` or `GetImageDataFromPath`. |
| Binary.ReadInt32OfWrite | Assets/Editor/Indexing/ImageDatabase.cs:79-87 | A written `int` reads back as itself, followed by the bytes after it. |
| Binary.ReadUInt32OfWrite | Assets/Editor/Indexing/ImageDatabase.cs:95-102 | A written `uint` reads back as itself, followed by the bytes after it. |
| Binary.WriteUInt32OfRead | Assets/Editor/Indexing/ImageDatabase.cs:158 | Writing a read `uint` gives back the four bytes it was read from. |
| Binary.Read7BitEncodedIntOfWrite | Assets/Editor/Indexing/ImageDatabase.cs:82-83 | A 7-bit encoded length prefix reads back as the written value, negatives included. |
| Binary.Read7BitEncodedIntOverlong | Assets/Editor/Indexing/ImageDatabase.cs:138-139 | Reading the prefix fails with a format error exactly when five bytes all carry the continuation bit. |
| Binary.ReadStringOfWrite | Assets/Editor/Indexing/ImageDatabase.cs:82-83 | A written string reads back as itself, followed by the bytes after it. |
| Binary.ReadStringNegativeLength | Assets/Editor/Indexing/ImageDatabase.cs:138-139 | A negative length prefix throws. |
| Codec.WriteHistogramLayout | Assets/Editor/Indexing/ImageDatabase.cs:113-119 | Bin i is written at bytes 4i to 4i+4. |
| Codec.ReadHistogram | Assets/Editor/Indexing/ImageDatabase.cs:184-190 | Reading a channel succeeds exactly when at least 1024 bytes remain, and then yields 256 bins. |
| Codec.ReadBinsOfWrite | Assets/Editor/Indexing/ImageDatabase.cs:113-119 | Written bins read back as themselves. |
| Codec.ReadInfosOfWrite | Assets/Editor/Indexing/ImageDatabase.cs:92-104 | Written colour infos read back as themselves. |
| Codec.ReadRecordOfWrite | Assets/Editor/Indexing/ImageDatabase.cs:88-109 | A written record with 256-bin channels reads back as itself. |
| Codec.ReadEntries | Assets/Editor/Indexing/ImageDatabase.cs:134-142 | Reading the id map never yields an id twice. |
| Codec.ReadEntriesOfWrite | Assets/Editor/Indexing/ImageDatabase.cs:79-84 | A written id map with distinct ids reads back as the same list. |
| Codec.ReadFrom | Assets/Editor/Indexing/ImageDatabase.cs:129-182 | A successful read has distinct ids, and its path map is rebuilt from its records. |
| Codec.WriteTo | Assets/Editor/Indexing/ImageDatabase.cs:74-111 | The written bytes open with the number of id entries, which reads back as an `int`. The complete read-back is `Codec.ReadFromWriteTo`. |
| Codec.ReadRecordSection | Assets/Editor/Indexing/ImageDatabase.cs:144-181 | A negative record count throws when the list is created. Reading the records against an id map keeps that map, and the path map it yields sends each record's path to the record's position and holds nothing else. |
| Codec.ReadFromWriteTo | Assets/Editor/Indexing/ImageDatabase.cs:74-182 | Reading what was written succeeds exactly when every record's id has a path and no two records share one. It then restores the id map and the records; otherwise it throws unknown-id or duplicate-path. |
| Codec.ReadFromEmpty | Assets/Editor/Indexing/ImageDatabase.cs:134 | An empty buffer throws end-of-stream. |
| Codec.ReadFromNegativeIdCount | Assets/Editor/Indexing/ImageDatabase.cs:134-182 | A negative id count reads no entries: for any bytes after it, the result is that of reading the records section from those bytes against an empty id map. |
| Codec.ReadFromNegativeRecordCount | Assets/Editor/Indexing/ImageDatabase.cs:134-146 | With no id entries to read (an id count of 0 or less), a negative record count after the id count throws while creating the list. |
| Codec.ReadFromCountSections | Assets/Editor/Indexing/ImageDatabase.cs:134-146 | For any buffer, once the id count, the id entries and the record count have been read, a negative record count throws while creating the list, before any record is read. |

## Left out

- Texture access in `IndexColors` (`GetPixels32`, the readable copy in `TextureUtils`): the pixel buffer is a parameter.
- `Hash128.Compute`, `ToString` and `Parse`: native engine code, passed in as parameters.
- The CIE/XYZ colour conversions, the float colour distances and the histogram and colour comparisons in `ImageUtils.cs`: they are floating-point colour science outside the index core.
- `ImageDatabaseImporter.cs`, `ImageProvider.cs` and the asset enumeration, `OnEnable`, `Load` and `WriteBytes` of `ImageDatabase.cs`: editor and asset-pipeline glue.
- Rounding to binary32/binary64 is not computed: `Rounding` is a parameter, and only +0.0's encoding is fixed.
- Histograms.AddPixel: float bins stop growing at 2^24 (16,777,216) pixels of one value. The model counts exactly, so its bins are exact beyond that point.
- Histograms.HistogramOf: its bins are exact counts, so every channel sums to the pixel count. Past 2^24 pixels of one channel value, the source's float bin stays at 2^24 and its channel sum falls short.
- Histograms.HistogramOfCounts: bin v is the exact number of pixels with value v. In the source that holds only up to 2^24 pixels; beyond that the float bin stays at 2^24.
- Features.ComputeHistogram: bins are exact shares count/n. The source divides a bin saturated at 2^24 by the pixel total converted to `float`, which is inexact for totals above 2^24 that a `float` cannot hold. For example, an 8192×8192 texture with more than 2^24 pixels at R = 0 gets R-bin 0 = 0.25 in the source.
- Codec.ReadFrom: when `ReadFrom` throws, the source has already replaced its maps and list with partly filled ones. The model returns only the exception, not that partial store.
- Codec.ReadFromWriteTo: the theorem assumes that `Parse` inverts `ToString` and that every record has 256 bins per channel. For a channel of another length the writer writes every bin but the reader reads 256.
- Extraction.ComputeBestColorsAndHistogram: the shades are computed from cluster totals that do not wrap. The source's 32-bit totals wrap once a cell holds 8,421,505 or more opaque pixels, since the alpha total alone then passes 2^31 - 1. For such a cell the source's shade differs from the model's. Its histogram has the exact shares of `Features.ComputeHistogram`, without the source's 2^24 float-bin saturation or the `float` conversion of the pixel total.
- Database.IndexColors: uses the same non-wrapping totals and the same exact histogram shares, so its stored bins are the rounding of the exact share, not of the saturated `float` quotient. The model also covers only a fresh record, the only kind `IndexTexture` passes. On another record the source would add to the existing histogram bins, keep any slots past the fifth, and throw when there are fewer than five slots.
- Database.IndexTexture: its shades and bins come from the same non-wrapping totals and exact histogram shares as `Database.IndexColors`.
- Database.AddRecordKeepsPathQueries: the claim holds while every stored position is in range. A position equal to the old list length would start to find the newly appended record.

## Findings

| source | as written | input that shows it | evidently intended | confidence | as-written member | corrected member |
|---|---|---|---|---|---|---|
| Assets/Editor/ImageUtils.cs:110-122 | `ColorCluster` keeps its channel totals in an `int[]`, which wraps past 2^31 - 1 | 8,421,505 pure-white pixels in one cell: each total wraps to -2,147,483,521, and the `(byte)` cast of the truncated quotient gives an average of (2, 2, 2, 2) | The average of white pixels is white: totals wide enough for any image | not executed | Clusters.AsWrittenAverageWraps | Clusters.CorrectedAverageOfWhite |
