/**
  The index store of ImageDatabase.cs: the id-to-path map, the list of
  records, the path-to-position map that only a reload rebuilds, and the
  binary form `WriteTo` writes and `ReadFrom` reads.

  A `Dictionary<Hash128, string>` is a list of entries in the order it
  enumerates them: with no removals, .NET enumerates a dictionary in the
  order the keys were first added, and a write to an existing key keeps its
  place.
*/
module Database {
  import opened Wrappers
  import opened Colors
  import opened Floats
  import opened Histograms
  import opened ImageRecords
  import opened Features
  import opened Extraction
  import opened Clusters
  import opened Exceptions
  import opened Binary
  import opened Sorting

  /** One pair of the id map. */
  datatype Entry = Entry(hash: Hash128, path: Text)

  /** The store: `m_HashToFileMap`, `m_AssetPathToIndex` and `imagesData`. */
  datatype ImageDatabase = ImageDatabase(
    hashToFile: seq<Entry>,
    assetPathToIndex: map<Text, int>,
    imagesData: seq<ImageData>)

  // ---------------------------------------------------------------------------
  // The id map

  /** No id has two entries. */
  predicate DistinctKeys(m: seq<Entry>) {
    forall i, j :: 0 <= i < j < |m| ==> m[i].hash != m[j].hash
  }

  /** `TryGetValue`: the path stored for `h`, if `h` has an entry. */
  function Lookup(m: seq<Entry>, h: Hash128): (r: Option<Text>)
    ensures r.Some? <==> exists i :: 0 <= i < |m| && m[i].hash == h
    ensures r.Some? ==> Entry(h, r.value) in m
  {
    if |m| == 0 then None
    else if m[0].hash == h then Some(m[0].path)
    else Lookup(m[1..], h)
  }

  /** With distinct ids, the lookup finds exactly the entries of the list. */
  lemma LookupOfDistinct(m: seq<Entry>, h: Hash128, p: Text)
    requires DistinctKeys(m)
    ensures Lookup(m, h) == Some(p) <==> Entry(h, p) in m
  {
    if Entry(h, p) in m {
      var i :| 0 <= i < |m| && m[i] == Entry(h, p);
      var q := Lookup(m, h).value;
      var j :| 0 <= j < |m| && m[j] == Entry(h, q);
      assert i == j;
    }
  }

  /** An entry appended for a new id is found, and every other lookup is unchanged. */
  lemma {:induction false} LookupOfAppend(m: seq<Entry>, h: Hash128, p: Text, h': Hash128)
    requires Lookup(m, h).None?
    ensures Lookup(m + [Entry(h, p)], h') == if h' == h then Some(p) else Lookup(m, h')
  {
    if |m| > 0 {
      assert (m + [Entry(h, p)])[1..] == m[1..] + [Entry(h, p)];
      LookupOfAppend(m[1..], h, p, h');
    }
  }

  /**
    The indexer `m[h] = p`: an id already present takes the new path in its
    place; a new id goes at the end.
  */
  function Put(m: seq<Entry>, h: Hash128, p: Text): (m': seq<Entry>)
    ensures Lookup(m', h) == Some(p)
    ensures forall h' :: h' != h ==> Lookup(m', h') == Lookup(m, h')
    ensures Lookup(m, h).None? ==> m' == m + [Entry(h, p)]
    ensures |m'| == |m| + (if Lookup(m, h).None? then 1 else 0)
  {
    if |m| == 0 then [Entry(h, p)]
    else if m[0].hash == h then [Entry(h, p)] + m[1..]
    else [m[0]] + Put(m[1..], h, p)
  }

  /** Writing through the indexer never gives an id a second entry. */
  lemma {:induction false} PutDistinct(m: seq<Entry>, h: Hash128, p: Text)
    requires DistinctKeys(m)
    ensures DistinctKeys(Put(m, h, p))
  {
    if |m| > 0 && m[0].hash != h {
      var t := Put(m[1..], h, p);
      PutDistinct(m[1..], h, p);
      forall j | 0 <= j < |t|
        ensures t[j].hash != m[0].hash
      {
        assert Lookup(t, t[j].hash).Some?;
        if t[j].hash != h {
          assert Lookup(m[1..], t[j].hash).Some?;
          var i :| 0 <= i < |m[1..]| && m[1..][i].hash == t[j].hash;
          assert m[i + 1].hash == t[j].hash;
        }
      }
      assert Put(m, h, p) == [m[0]] + t;
    }
  }

  /** `Dictionary.Add`: a new id goes at the end; an id already present throws. */
  function Add(m: seq<Entry>, h: Hash128, p: Text): (r: Result<seq<Entry>, Exception>)
    ensures r.Success? <==> Lookup(m, h).None?
    ensures r.Failure? ==> r.error == DuplicateId
    ensures r.Success? ==> r.value == m + [Entry(h, p)]
  {
    if Lookup(m, h).Some? then Failure(DuplicateId) else Success(m + [Entry(h, p)])
  }

  // ---------------------------------------------------------------------------
  // Queries

  /** `GetAssetPath`: the path indexed under `h`, or `None` (C# `null`) for an unknown id. */
  function GetAssetPath(db: ImageDatabase, h: Hash128): (r: Option<Text>)
    ensures r.None? <==> forall i :: 0 <= i < |db.hashToFile| ==> db.hashToFile[i].hash != h
    ensures r.Some? ==> Entry(h, r.value) in db.hashToFile
  {
    Lookup(db.hashToFile, h)
  }

  /**
    `GetImageDataFromPath`: the record at the position the path maps to.
    An unknown path throws; so does a position past the end of the list.
  */
  function GetImageDataFromPath(db: ImageDatabase, path: Text): (r: Result<ImageData, Exception>)
    ensures r == Failure(PathNotFound) <==> path !in db.assetPathToIndex
    ensures r == Failure(IndexOutOfRange) <==>
              path in db.assetPathToIndex && !(0 <= db.assetPathToIndex[path] < |db.imagesData|)
    ensures r.Failure? ==> r.error == PathNotFound || r.error == IndexOutOfRange
    ensures r.Success? ==> 0 <= db.assetPathToIndex[path] < |db.imagesData| && r.value == db.imagesData[db.assetPathToIndex[path]]
  {
    if path !in db.assetPathToIndex then Failure(PathNotFound)
    else
      var i := db.assetPathToIndex[path];
      if 0 <= i < |db.imagesData| then Success(db.imagesData[i]) else Failure(IndexOutOfRange)
  }

  /** `ContainsAsset`: a path is known exactly when looking its record up does not throw "not found". */
  function ContainsAsset(db: ImageDatabase, path: Text): (b: bool)
    ensures b <==> GetImageDataFromPath(db, path) != Failure(PathNotFound)
  {
    path in db.assetPathToIndex
  }

  // ---------------------------------------------------------------------------
  // The path-to-position map

  /** Every record's id has a path, and no two records have the same path. */
  predicate Resolvable(m: seq<Entry>, ds: seq<ImageData>) {
    && (forall k :: 0 <= k < |ds| ==> Lookup(m, ds[k].guid).Some?)
    && (forall k, l :: 0 <= k < l < |ds| ==> Lookup(m, ds[k].guid) != Lookup(m, ds[l].guid))
  }

  /**
    `index` sends the path of each record's id to the record's position, and
    holds no other path.
  */
  predicate IndexesRecords(m: seq<Entry>, ds: seq<ImageData>, index: map<Text, int>) {
    && (forall p :: p in index ==> 0 <= index[p] < |ds| && Lookup(m, ds[index[p]].guid) == Some(p))
    && (forall k :: 0 <= k < |ds| ==> PathIndexed(m, ds[k], index, k))
  }

  /** The path of record `d` is in `index` and maps to `k`. */
  predicate PathIndexed(m: seq<Entry>, d: ImageData, index: map<Text, int>, k: int) {
    Lookup(m, d.guid).Some? && Lookup(m, d.guid).value in index && index[Lookup(m, d.guid).value] == k
  }

  /** A store as `ReadFrom` leaves it: distinct ids, and the path map rebuilt from the records. */
  predicate Indexed(db: ImageDatabase) {
    DistinctKeys(db.hashToFile) && IndexesRecords(db.hashToFile, db.imagesData, db.assetPathToIndex)
  }

  /**
    One step of the record loop of `ReadFrom` for the record at position
    `k`: its path is looked up by id (an unknown id throws), then added to
    the path map (a path already there throws).
  */
  function IndexStep(m: seq<Entry>, index: map<Text, int>, guid: Hash128, k: int): (r: Result<map<Text, int>, Exception>)
    ensures r.Success? <==> Lookup(m, guid).Some? && Lookup(m, guid).value !in index
    ensures r.Failure? ==> r.error == (if Lookup(m, guid).None? then UnknownId else DuplicatePath)
  {
    match Lookup(m, guid)
    case None => Failure(UnknownId)
    case Some(path) => if path in index then Failure(DuplicatePath) else Success(index[path := k])
  }

  /**
    The record loop's indexing of `ds`, after the records `acc` were indexed
    into `index`: each record's path goes to its position, in order, until
    the first exception.
  */
  function IndexMore(m: seq<Entry>, acc: seq<ImageData>, index: map<Text, int>, ds: seq<ImageData>): Result<map<Text, int>, Exception>
    decreases |ds|
  {
    if |ds| == 0 then Success(index)
    else
      var index' :- IndexStep(m, index, ds[0].guid, |acc|);
      IndexMore(m, acc + [ds[0]], index', ds[1..])
  }

  /** The path map after indexing the records `ds` in order, or the first exception. */
  function IndexRecords(m: seq<Entry>, ds: seq<ImageData>): Result<map<Text, int>, Exception> {
    IndexMore(m, [], map[], ds)
  }

  /**
    Indexing more records succeeds exactly when all records so far are
    resolvable; it then yields their path map, and otherwise throws at an
    unknown id or a repeated path.
  */
  lemma {:induction false} IndexMoreCorrect(m: seq<Entry>, acc: seq<ImageData>, index: map<Text, int>, ds: seq<ImageData>)
    requires Resolvable(m, acc) && IndexesRecords(m, acc, index)
    ensures IndexMore(m, acc, index, ds).Success? <==> Resolvable(m, acc + ds)
    ensures IndexMore(m, acc, index, ds).Success? ==> IndexesRecords(m, acc + ds, IndexMore(m, acc, index, ds).value)
    ensures IndexMore(m, acc, index, ds).Failure? ==> IndexMore(m, acc, index, ds).error in {UnknownId, DuplicatePath}
    decreases |ds|
  {
    if |ds| == 0 {
      assert acc + ds == acc;
    } else {
      var d, rest := ds[0], ds[1..];
      var acc' := acc + [d];
      assert acc' + rest == acc + ds;
      assert acc'[..|acc'| - 1] == acc;
      IndexStepCorrect(m, acc, acc', index);
      var step := IndexStep(m, index, d.guid, |acc|);
      if step.Success? {
        IndexMoreCorrect(m, acc', step.value, rest);
      } else {
        ResolvablePrefix(m, acc + ds, |acc'|);
        assert (acc + ds)[..|acc'|] == acc';
      }
    }
  }

  /**
    Indexing succeeds exactly when the records are resolvable; it then
    yields the path map of the records, and otherwise throws at an unknown
    id or a repeated path.
  */
  lemma IndexRecordsCorrect(m: seq<Entry>, ds: seq<ImageData>)
    ensures IndexRecords(m, ds).Success? <==> Resolvable(m, ds)
    ensures IndexRecords(m, ds).Success? ==> IndexesRecords(m, ds, IndexRecords(m, ds).value)
    ensures IndexRecords(m, ds).Failure? ==> IndexRecords(m, ds).error in {UnknownId, DuplicatePath}
  {
    IndexMoreCorrect(m, [], map[], ds);
    assert [] + ds == ds;
  }

  /** A prefix of resolvable records is resolvable. */
  lemma ResolvablePrefix(m: seq<Entry>, ds: seq<ImageData>, n: nat)
    requires n <= |ds|
    ensures Resolvable(m, ds) ==> Resolvable(m, ds[..n])
  {
  }

  /** One step of the indexing, given that the records before it were indexed. */
  lemma IndexStepCorrect(m: seq<Entry>, pre: seq<ImageData>, ds: seq<ImageData>, index: map<Text, int>)
    requires |ds| > 0 && pre == ds[..|ds| - 1]
    requires Resolvable(m, pre) && IndexesRecords(m, pre, index)
    ensures IndexStep(m, index, ds[|ds| - 1].guid, |ds| - 1).Success? <==> Resolvable(m, ds)
    ensures IndexStep(m, index, ds[|ds| - 1].guid, |ds| - 1).Success? ==>
              IndexesRecords(m, ds, IndexStep(m, index, ds[|ds| - 1].guid, |ds| - 1).value)
  {
    var n := |ds| - 1;
    var d := ds[n];
    var path := Lookup(m, d.guid);
    if path.Some? && path.value in index {
      var k := index[path.value];
      assert ds[k] == pre[k];
      assert !Resolvable(m, ds) by {
        assert Lookup(m, ds[k].guid) == Lookup(m, ds[n].guid);
      }
    } else if path.Some? {
      var index' := index[path.value := n];
      forall k | 0 <= k < n
        ensures Lookup(m, ds[k].guid) != path
      {
        assert ds[k] == pre[k];
        assert PathIndexed(m, pre[k], index, k);
      }
      forall k | 0 <= k < |ds|
        ensures PathIndexed(m, ds[k], index', k)
      {
        if k < n {
          assert ds[k] == pre[k];
          assert PathIndexed(m, pre[k], index, k);
        }
      }
      forall p | p in index'
        ensures 0 <= index'[p] < |ds| && Lookup(m, ds[index'[p]].guid) == Some(p)
      {
        if p != path.value {
          assert ds[index[p]] == pre[index[p]];
        }
      }
    }
  }

  // ---------------------------------------------------------------------------
  // Queries on a reloaded store

  /** In a reloaded store, a path is known exactly when it is the path of some record's id. */
  lemma ContainsAssetIndexed(db: ImageDatabase, path: Text)
    requires Indexed(db)
    ensures ContainsAsset(db, path) <==>
              exists k :: 0 <= k < |db.imagesData| && GetAssetPath(db, db.imagesData[k].guid) == Some(path)
  {
    if exists k :: 0 <= k < |db.imagesData| && GetAssetPath(db, db.imagesData[k].guid) == Some(path) {
      var k :| 0 <= k < |db.imagesData| && GetAssetPath(db, db.imagesData[k].guid) == Some(path);
      assert PathIndexed(db.hashToFile, db.imagesData[k], db.assetPathToIndex, k);
    }
  }

  /** In a reloaded store, the path of a record's id leads back to that record. */
  lemma GetImageDataIndexed(db: ImageDatabase, k: nat)
    requires Indexed(db) && k < |db.imagesData|
    ensures GetAssetPath(db, db.imagesData[k].guid).Some?
    ensures GetImageDataFromPath(db, GetAssetPath(db, db.imagesData[k].guid).value) == Success(db.imagesData[k])
  {
    assert PathIndexed(db.hashToFile, db.imagesData[k], db.assetPathToIndex, k);
  }

  // ---------------------------------------------------------------------------
  // Indexing one image

  /** The slots of a record as stored: each share rounded to a `double`. */
  function StoreInfos(rnd: Rounding, s: seq<ColorInfo<Float>>): (r: seq<ColorInfo<Bits64>>)
    ensures |r| == |s|
    ensures forall i :: 0 <= i < |s| ==> r[i] == ColorInfo(s[i].color, rnd.double(s[i].ratio))
  {
    seq(|s|, i requires 0 <= i < |s| => ColorInfo(s[i].color, rnd.double(s[i].ratio)))
  }

  /** A channel as stored: each bin rounded to a `float`. */
  function StoreBins(rnd: Rounding, s: seq<Float>): (r: seq<Bits32>)
    ensures |r| == |s|
    ensures forall i :: 0 <= i < |s| ==> r[i] == rnd.single(s[i])
  {
    seq(|s|, i requires 0 <= i < |s| => rnd.single(s[i]))
  }

  /**
    Stored best colours of `pixels`: the first `RealSlots` are distinct
    colours of the image with their rounded shares, most frequent first, the
    rest colour 0 with share 0/n, and no colour left out occurs more often
    than one kept.
  */
  ghost predicate StoredColorSlots(rnd: Rounding, pixels: seq<Color32>, r: seq<ColorInfo<Bits64>>) {
    && |r| == BestCount
    && (forall i :: 0 <= i < RealSlots(pixels) ==>
          r[i].color in PixelColors(pixels) && r[i].ratio == rnd.double(Divide(Occurrences(pixels, r[i].color), |pixels|)))
    && (forall i :: RealSlots(pixels) <= i < BestCount ==> r[i] == ColorInfo(0, rnd.double(Divide(0, |pixels|))))
    && (forall i, j :: 0 <= i < j < RealSlots(pixels) ==> r[i].color != r[j].color)
    && ColorsAreTop(pixels, r)
    && ColorsDescend(pixels, r)
  }

  /**
    The stored slots `r` are the shades of the cells `bs`, shares rounded:
    one cell per slot, no cell twice, most populous first.
  */
  predicate StoredShadesOfCells(rnd: Rounding, pixels: seq<Color32>, r: seq<ColorInfo<Bits64>>, bs: seq<nat>) {
    && |bs| == |r| && DistinctIndices(bs) && CellsDescend(pixels, bs)
    && forall i :: 0 <= i < |bs| ==>
         bs[i] < ClusterCount && r[i] == ColorInfo(CellShade(pixels, bs[i]).color, rnd.double(CellShade(pixels, bs[i]).ratio))
  }

  /**
    Stored best shades of `pixels`: the shades of five pairwise different
    cells with rounded shares, and no other cell holds more pixels.
  */
  ghost predicate StoredShadeSlots(rnd: Rounding, pixels: seq<Color32>, r: seq<ColorInfo<Bits64>>) {
    |r| == BestCount && exists bs :: StoredShadesOfCells(rnd, pixels, r, bs) && CellsAreTop(pixels, bs)
  }

  /** A stored histogram of `pixels`: each bin is the channel value's share rounded to a `float`. */
  predicate StoredHistogram(rnd: Rounding, pixels: seq<Color32>, h: Histogram<Bits32>) {
    && Shaped(h)
    && forall ch, v :: 0 <= ch < 3 && 0 <= v < HistogramSize ==>
         Values(h, ch)[v] == rnd.single(Divide(ChannelCount(pixels, ch, v), |pixels|))
  }

  lemma StoreColorSlots(rnd: Rounding, pixels: seq<Color32>, s: seq<ColorInfo<Float>>)
    requires ColorSlots(pixels, s) && ColorsAreTop(pixels, s) && ColorsDescend(pixels, s)
    ensures StoredColorSlots(rnd, pixels, StoreInfos(rnd, s))
  {
    var r := StoreInfos(rnd, s);
    forall i | 0 <= i < RealSlots(pixels)
      ensures r[i].color in PixelColors(pixels) && r[i].ratio == rnd.double(Divide(Occurrences(pixels, r[i].color), |pixels|))
    {
      assert IsColorShare(pixels, s[i]);
    }
    forall v | !InSlots(r, RealSlots(pixels), v)
      ensures forall i :: 0 <= i < RealSlots(pixels) ==> Occurrences(pixels, v) <= Occurrences(pixels, r[i].color)
    {
      assert !InSlots(s, RealSlots(pixels), v);
    }
  }

  lemma StoreShadeSlots(rnd: Rounding, pixels: seq<Color32>, s: seq<ColorInfo<Float>>)
    requires |s| == BestCount && ShadesAreTopCells(pixels, s)
    ensures StoredShadeSlots(rnd, pixels, StoreInfos(rnd, s))
  {
    var r := StoreInfos(rnd, s);
    var bs :| ShadesOfCells(pixels, s, bs) && CellsAreTop(pixels, bs) && CellsDescend(pixels, bs);
    assert StoredShadesOfCells(rnd, pixels, r, bs);
  }

  lemma StoreHistogramBins(rnd: Rounding, pixels: seq<Color32>, h: Histogram<Float>)
    requires IsImageHistogram(pixels, h)
    ensures StoredHistogram(rnd, pixels, Histogram(StoreBins(rnd, h.valuesR), StoreBins(rnd, h.valuesG), StoreBins(rnd, h.valuesB)))
  {
    var h' := Histogram(StoreBins(rnd, h.valuesR), StoreBins(rnd, h.valuesG), StoreBins(rnd, h.valuesB));
    forall ch, v | 0 <= ch < 3 && 0 <= v < HistogramSize
      ensures Values(h', ch)[v] == rnd.single(Divide(ChannelCount(pixels, ch, v), |pixels|))
    {
      assert Values(h', ch)[v] == rnd.single(Values(h, ch)[v]);
    }
  }

  /**
    `IndexColors` on a fresh record `d`: its colours, shades and histogram
    become those of `pixels`, as the record's `double` and `float` fields
    hold them.  The source writes into `d`'s arrays and adds to its
    histogram, which for a fresh record is the same as replacing them; it is
    only ever called on one.  The pixel buffer is a parameter; fetching it
    from the texture is not modelled.
  */
  function IndexColors(rnd: Rounding, d: ImageData, pixels: seq<Color32>): (d': ImageData)
    requires d == NewImageData(d.guid)
    ensures d'.guid == d.guid
    ensures StoredColorSlots(rnd, pixels, d'.bestColors)
    ensures StoredShadeSlots(rnd, pixels, d'.bestShades)
    ensures StoredHistogram(rnd, pixels, d'.histogram)
  {
    var f := ComputeBestColorsAndHistogram(pixels);
    var h := f.histogram;
    StoreColorSlots(rnd, pixels, f.bestColors);
    StoreShadeSlots(rnd, pixels, f.bestShades);
    StoreHistogramBins(rnd, pixels, h);
    ImageData(d.guid, StoreInfos(rnd, f.bestColors), StoreInfos(rnd, f.bestShades),
      Histogram(StoreBins(rnd, h.valuesR), StoreBins(rnd, h.valuesG), StoreBins(rnd, h.valuesB)))
  }

  /** The store after `IndexTexture`, and the exception it threw, if any. */
  datatype Outcome = Outcome(db: ImageDatabase, thrown: Option<Exception>)

  /**
    The last two steps of `IndexTexture`: the record `d` is appended to the
    list, then its id is added to the id map, which throws for an id already
    present, after the record was appended.  The path-to-position map is
    left as it is.
  */
  function AddRecord(db: ImageDatabase, d: ImageData, path: Text): (o: Outcome)
    ensures |o.db.imagesData| == |db.imagesData| + 1
    ensures o.db.imagesData[..|db.imagesData|] == db.imagesData && o.db.imagesData[|db.imagesData|] == d
    ensures o.db.assetPathToIndex == db.assetPathToIndex
    ensures o.thrown.None? <==> GetAssetPath(db, d.guid).None?
    ensures o.thrown.None? ==> o.db.hashToFile == db.hashToFile + [Entry(d.guid, path)]
    ensures o.thrown.Some? ==> o.thrown == Some(DuplicateId) && o.db.hashToFile == db.hashToFile
  {
    var ds := db.imagesData + [d];
    assert ds[..|db.imagesData|] == db.imagesData;
    match Add(db.hashToFile, d.guid, path)
    case Success(m) => Outcome(ImageDatabase(m, db.assetPathToIndex, ds), None)
    case Failure(e) => Outcome(ImageDatabase(db.hashToFile, db.assetPathToIndex, ds), Some(e))
  }

  /**
    `IndexTexture`: a record for `path` is computed from `pixels` with the id
    `Hash128.Compute(path)`, appended, and its id added to the id map.
  */
  function IndexTexture(hf: HashFunctions, rnd: Rounding, db: ImageDatabase, path: Text, pixels: seq<Color32>): (o: Outcome)
    ensures |o.db.imagesData| == |db.imagesData| + 1
    ensures o == AddRecord(db, o.db.imagesData[|db.imagesData|], path)
    ensures o.db.imagesData[|db.imagesData|].guid == hf.compute(path)
    ensures StoredColorSlots(rnd, pixels, o.db.imagesData[|db.imagesData|].bestColors)
    ensures StoredShadeSlots(rnd, pixels, o.db.imagesData[|db.imagesData|].bestShades)
    ensures StoredHistogram(rnd, pixels, o.db.imagesData[|db.imagesData|].histogram)
  {
    AddRecord(db, IndexColors(rnd, NewImageDataForPath(hf, path), pixels), path)
  }

  /**
    After a record with a new id is added, that id resolves to the record's
    path, every other id resolves as before, and the ids stay distinct.
  */
  lemma AddRecordResolves(db: ImageDatabase, d: ImageData, path: Text, h: Hash128)
    requires DistinctKeys(db.hashToFile)
    requires AddRecord(db, d, path).thrown.None?
    ensures GetAssetPath(AddRecord(db, d, path).db, h) == if h == d.guid then Some(path) else GetAssetPath(db, h)
    ensures DistinctKeys(AddRecord(db, d, path).db.hashToFile)
  {
    var m := db.hashToFile;
    var g := d.guid;
    LookupOfAppend(m, g, path, h);
    var m' := m + [Entry(g, path)];
    forall i, j | 0 <= i < j < |m'|
      ensures m'[i].hash != m'[j].hash
    {
      if j == |m| {
        assert m[i].hash != g;
      }
    }
  }

  /**
    Indexing does not make a path searchable by `ContainsAsset` or
    `GetImageDataFromPath`: while every position in the path map is in
    range, those answers only change when the store is read back.
  */
  lemma AddRecordKeepsPathQueries(db: ImageDatabase, d: ImageData, path: Text, p: Text)
    requires forall q :: q in db.assetPathToIndex ==> 0 <= db.assetPathToIndex[q] < |db.imagesData|
    ensures ContainsAsset(AddRecord(db, d, path).db, p) == ContainsAsset(db, p)
    ensures GetImageDataFromPath(AddRecord(db, d, path).db, p) == GetImageDataFromPath(db, p)
  {
    var o := AddRecord(db, d, path);
    var n := |db.imagesData|;
    assert o.db.imagesData[..n] == db.imagesData;
    if p in db.assetPathToIndex {
      var i := db.assetPathToIndex[p];
      assert o.db.imagesData[..n][i] == o.db.imagesData[i];
      assert GetImageDataFromPath(db, p) == Success(db.imagesData[i]);
      assert GetImageDataFromPath(o.db, p) == Success(db.imagesData[i]);
    } else {
      assert GetImageDataFromPath(o.db, p) == Failure(PathNotFound);
    }
  }
}
