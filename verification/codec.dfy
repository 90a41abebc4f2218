/**
  The binary form of the index store: `WriteTo` / `WriteHistogram` and
  `ReadFrom` / `ReadHistogram` of ImageDatabase.cs.

  The layout is: an `int` count of id map entries, each entry as the id's
  text and the path; an `int` count of records, each record as the id's
  text, an `int` count of best colours and that many (`uint` colour,
  `double` ratio) pairs, the same for the best shades, then the 256 `float`
  bins of R, of G and of B.  Bytes after the last record are not read.
*/
module Codec {
  import opened Wrappers
  import opened Colors
  import opened Floats
  import opened Histograms
  import opened ImageRecords
  import opened Exceptions
  import opened Binary
  import opened Database

  // ---------------------------------------------------------------------------
  // Writing

  /** An entry whose two strings fit the `int` byte count of the string format. */
  predicate EncodableEntry(hf: HashFunctions, e: Entry) {
    |hf.render(e.hash)| <= MaxInt32 && |e.path| <= MaxInt32
  }

  /** A record whose id text and colour counts fit the `int`s they are written as. */
  predicate EncodableRecord(hf: HashFunctions, d: ImageData) {
    |hf.render(d.guid)| <= MaxInt32 && |d.bestColors| <= MaxInt32 && |d.bestShades| <= MaxInt32
  }

  /**
    A store the writer can write: both counts and every string and array
    length fit an `int`, as the .NET collections they come from guarantee.
  */
  predicate Encodable(hf: HashFunctions, db: ImageDatabase) {
    && |db.hashToFile| <= MaxInt32 && |db.imagesData| <= MaxInt32
    && (forall i :: 0 <= i < |db.hashToFile| ==> EncodableEntry(hf, db.hashToFile[i]))
    && (forall i :: 0 <= i < |db.imagesData| ==> EncodableRecord(hf, db.imagesData[i]))
  }

  /** The id map section after its count: each id's text, then its path. */
  function WriteEntries(hf: HashFunctions, es: seq<Entry>): seq<byte>
    requires forall i :: 0 <= i < |es| ==> EncodableEntry(hf, es[i])
  {
    if |es| == 0 then []
    else
      assert EncodableEntry(hf, es[0]);
      WriteString(hf.render(es[0].hash)) + (WriteString(es[0].path) + WriteEntries(hf, es[1..]))
  }

  /** Colour infos after their count: each packed colour, then its ratio's eight bytes. */
  function WriteInfos(s: seq<ColorInfo<Bits64>>): (b: seq<byte>)
    ensures |b| == 12 * |s|
  {
    if |s| == 0 then [] else WriteUInt32(s[0].color) + (s[0].ratio + WriteInfos(s[1..]))
  }

  /** `WriteHistogram`: the four bytes of each bin in order, with no count before them. */
  function WriteHistogram(bins: seq<Bits32>): (b: seq<byte>)
    ensures |b| == 4 * |bins|
  {
    if |bins| == 0 then [] else bins[0] + WriteHistogram(bins[1..])
  }

  /** Bin `i` occupies bytes `4i` to `4i + 3` of the written histogram. */
  lemma {:induction false} WriteHistogramLayout(bins: seq<Bits32>)
    ensures forall i :: 0 <= i < |bins| ==> WriteHistogram(bins)[4 * i..4 * i + 4] == bins[i]
  {
    if |bins| > 0 {
      var t := WriteHistogram(bins[1..]);
      WriteHistogramLayout(bins[1..]);
      assert WriteHistogram(bins) == bins[0] + t;
      forall i | 0 <= i < |bins|
        ensures WriteHistogram(bins)[4 * i..4 * i + 4] == bins[i]
      {
        if i > 0 {
          assert WriteHistogram(bins)[4 * i..4 * i + 4] == t[4 * (i - 1)..4 * (i - 1) + 4];
        }
      }
    }
  }

  /** One record: id text, best colours, best shades, then the R, G and B bins. */
  function WriteRecord(hf: HashFunctions, d: ImageData): seq<byte>
    requires EncodableRecord(hf, d)
  {
    WriteString(hf.render(d.guid))
    + (WriteInt32(|d.bestColors|) + (WriteInfos(d.bestColors)
    + (WriteInt32(|d.bestShades|) + (WriteInfos(d.bestShades)
    + (WriteHistogram(d.histogram.valuesR) + (WriteHistogram(d.histogram.valuesG)
    + WriteHistogram(d.histogram.valuesB)))))))
  }

  /** The records section after its count. */
  function WriteRecords(hf: HashFunctions, ds: seq<ImageData>): seq<byte>
    requires forall i :: 0 <= i < |ds| ==> EncodableRecord(hf, ds[i])
  {
    if |ds| == 0 then [] else WriteRecord(hf, ds[0]) + WriteRecords(hf, ds[1..])
  }

  /** `WriteTo`: the id map section, then the records section. */
  function WriteTo(hf: HashFunctions, db: ImageDatabase): (s: seq<byte>)
    requires Encodable(hf, db)
    ensures |s| >= 4 && ReadInt32(s) == Success(Read(|db.hashToFile|, s[4..]))
  {
    var rest := WriteEntries(hf, db.hashToFile) + (WriteInt32(|db.imagesData|) + WriteRecords(hf, db.imagesData));
    ReadInt32OfWrite(|db.hashToFile|, rest);
    WriteInt32(|db.hashToFile|) + rest
  }

  // ---------------------------------------------------------------------------
  // Reading

  /**
    The id map loop of `ReadFrom`, `n` entries still to read: each id is
    parsed from its text and written through the indexer, so a repeated id
    keeps its first place and its last path, and no id ever has two entries.
    A negative count reads nothing.
  */
  function ReadEntries(hf: HashFunctions, s: seq<byte>, n: int, m: seq<Entry>): (r: Parsed<seq<Entry>>)
    ensures r.Success? && DistinctKeys(m) ==> DistinctKeys(r.value.value)
    decreases n
  {
    if n <= 0 then Success(Read(m, s))
    else
      var h :- ReadString(s);
      var p :- ReadString(h.rest);
      PutDistinctIf(m, hf.parse(h.value), p.value);
      ReadEntries(hf, p.rest, n - 1, Put(m, hf.parse(h.value), p.value))
  }

  /** `Put` keeps ids distinct, stated for any map. */
  lemma PutDistinctIf(m: seq<Entry>, h: Hash128, p: Text)
    ensures DistinctKeys(m) ==> DistinctKeys(Put(m, h, p))
  {
    if DistinctKeys(m) {
      PutDistinct(m, h, p);
    }
  }

  /** `n` colour infos, each a `uint` colour and a `double` ratio. */
  function ReadInfos(s: seq<byte>, n: nat): (r: Parsed<seq<ColorInfo<Bits64>>>)
    ensures r.Success? ==> |r.value.value| == n
  {
    if n == 0 then Success(Read([], s))
    else
      var c :- ReadUInt32(s);
      var q :- ReadDouble(c.rest);
      var more :- ReadInfos(q.rest, n - 1);
      Success(Read([ColorInfo(c.value, q.value)] + more.value, more.rest))
  }

  /** `n` bins of four bytes each. */
  function ReadBins(s: seq<byte>, n: nat): (r: Parsed<seq<Bits32>>)
    ensures r.Success? ==> |r.value.value| == n
  {
    if n == 0 then Success(Read([], s))
    else
      var f :- ReadSingle(s);
      var more :- ReadBins(f.rest, n - 1);
      Success(Read([f.value] + more.value, more.rest))
  }

  /** `ReadHistogram`: always exactly 256 bins, whatever was written. */
  function ReadHistogram(s: seq<byte>): (r: Parsed<seq<Bits32>>)
    ensures r.Success? ==> |r.value.value| == HistogramSize
    ensures r.Success? <==> 4 * HistogramSize <= |s|
  {
    ReadBinsLength(s, HistogramSize);
    ReadBins(s, HistogramSize)
  }

  /** Reading bins fails only for want of bytes. */
  lemma {:induction false} ReadBinsLength(s: seq<byte>, n: nat)
    ensures ReadBins(s, n).Success? <==> 4 * n <= |s|
    ensures ReadBins(s, n).Success? ==> ReadBins(s, n).value.rest == s[4 * n..]
  {
    if n > 0 && 4 <= |s| {
      ReadBinsLength(s[4..], n - 1);
      if 4 * n <= |s| {
        assert s[4..][4 * (n - 1)..] == s[4 * n..];
      }
    }
  }

  /**
    One record of the record loop: the id text, parsed; a colour count and
    that many colour infos (a negative count throws); the same for shades;
    then three histograms of 256 bins.
  */
  function ReadRecord(hf: HashFunctions, s: seq<byte>): (r: Parsed<ImageData>)
    ensures r.Success? ==> Shaped(r.value.value.histogram)
  {
    var g :- ReadString(s);
    var nc :- ReadInt32(g.rest);
    if nc.value < 0 then Failure(NegativeArrayLength)
    else
      var cs :- ReadInfos(nc.rest, nc.value);
      var ns :- ReadInt32(cs.rest);
      if ns.value < 0 then Failure(NegativeArrayLength)
      else
        var ss :- ReadInfos(ns.rest, ns.value);
        var hr :- ReadHistogram(ss.rest);
        var hg :- ReadHistogram(hr.rest);
        var hb :- ReadHistogram(hg.rest);
        Success(Read(ImageData(hf.parse(g.value), cs.value, ss.value, Histogram(hr.value, hg.value, hb.value)), hb.rest))
  }

  /** The records read so far and the path map built from them. */
  datatype Decoded = Decoded(records: seq<ImageData>, index: map<Text, int>)

  /**
    The record loop of `ReadFrom` for `n` records, `acc` already read: each
    record is read whole, added to the list, then indexed by path.
  */
  function ReadRecords(hf: HashFunctions, s: seq<byte>, n: int, m: seq<Entry>, acc: seq<ImageData>, index: map<Text, int>): Parsed<Decoded>
    decreases n - |acc|
  {
    if n <= |acc| then Success(Read(Decoded(acc, index), s))
    else
      var d :- ReadRecord(hf, s);
      var index' :- IndexStep(m, index, d.value.guid, |acc|);
      ReadRecords(hf, d.rest, n, m, acc + [d.value], index')
  }

  /**
    The records part of `ReadFrom`, once the id map `es` is read:
    `new List<ImageData>(count)` (a negative count throws) and the records.
    A store it yields has its path map rebuilt from its records.
  */
  function ReadRecordSection(hf: HashFunctions, s: seq<byte>, es: seq<Entry>): (r: Result<ImageDatabase, Exception>)
    ensures ReadInt32(s).Success? && ReadInt32(s).value.value < 0 ==> r == Failure(NegativeCapacity)
    ensures r.Success? ==> r.value.hashToFile == es && IndexesRecords(es, r.value.imagesData, r.value.assetPathToIndex)
  {
    var c :- ReadInt32(s);
    if c.value < 0 then Failure(NegativeCapacity)
    else
      var rs :- ReadRecords(hf, c.rest, c.value, es, [], map[]);
      ReadRecordsIndexes(hf, c.rest, c.value, es, [], map[]);
      Success(ImageDatabase(es, rs.value.index, rs.value.records))
  }

  /**
    `ReadFrom`: the id map, then the records.  A store it yields has
    distinct ids and its path map rebuilt from its records.
  */
  function ReadFrom(hf: HashFunctions, s: seq<byte>): (r: Result<ImageDatabase, Exception>)
    ensures r.Success? ==> Indexed(r.value)
  {
    var n :- ReadInt32(s);
    var es :- ReadEntries(hf, n.rest, n.value, []);
    ReadRecordSection(hf, es.rest, es.value)
  }

  // ---------------------------------------------------------------------------
  // What any successful read yields

  /** A record loop that completes leaves records whose path map it built. */
  lemma {:induction false} ReadRecordsIndexes(hf: HashFunctions, s: seq<byte>, n: int, m: seq<Entry>, acc: seq<ImageData>, index: map<Text, int>)
    requires Resolvable(m, acc) && IndexesRecords(m, acc, index)
    ensures ReadRecords(hf, s, n, m, acc, index).Success? ==>
              IndexesRecords(m, ReadRecords(hf, s, n, m, acc, index).value.value.records,
                             ReadRecords(hf, s, n, m, acc, index).value.value.index)
    decreases n - |acc|
  {
    if n > |acc| {
      var d := ReadRecord(hf, s);
      if d.Success? {
        var r := d.value.value;
        var acc' := acc + [r];
        assert acc'[..|acc'| - 1] == acc;
        IndexStepCorrect(m, acc, acc', index);
        var step := IndexStep(m, index, r.guid, |acc|);
        if step.Success? {
          ReadRecordsIndexes(hf, d.value.rest, n, m, acc', step.value);
        }
      }
    }
  }

  // ---------------------------------------------------------------------------
  // Reading back what was written

  /** Written colour infos read back as themselves, bit for bit. */
  lemma {:induction false} ReadInfosOfWrite(s: seq<ColorInfo<Bits64>>, rest: seq<byte>)
    ensures ReadInfos(WriteInfos(s) + rest, |s|) == Success(Read(s, rest))
  {
    if |s| == 0 {
      assert WriteInfos(s) + rest == rest;
    } else {
      var x, xs := s[0], s[1..];
      var tail := WriteInfos(xs) + rest;
      WriteInfosCons(s, rest);
      ReadInfosOfWrite(xs, rest);
      ReadInfoOfWrite(x, tail, |s|, xs, rest);
      assert [x] + xs == s;
    }
  }

  /** The bytes of a non-empty run of colour infos start with those of its first element. */
  lemma WriteInfosCons(s: seq<ColorInfo<Bits64>>, rest: seq<byte>)
    requires |s| > 0
    ensures WriteInfos(s) + rest == WriteUInt32(s[0].color) + (s[0].ratio + (WriteInfos(s[1..]) + rest))
  {
    var a, b, c := WriteUInt32(s[0].color), s[0].ratio, WriteInfos(s[1..]);
    assert WriteInfos(s) == a + (b + c);
    Assoc(a, b + c, rest);
    Assoc(b, c, rest);
  }

  /** One written colour info in front of `n - 1` readable ones. */
  lemma ReadInfoOfWrite(x: ColorInfo<Bits64>, tail: seq<byte>, n: nat, xs: seq<ColorInfo<Bits64>>, rest: seq<byte>)
    requires n > 0 && ReadInfos(tail, n - 1) == Success(Read(xs, rest))
    ensures ReadInfos(WriteUInt32(x.color) + (x.ratio + tail), n) == Success(Read([x] + xs, rest))
  {
    ReadUInt32OfWrite(x.color, x.ratio + tail);
    assert (x.ratio + tail)[..8] == x.ratio && (x.ratio + tail)[8..] == tail;
  }

  /** Written bins read back as themselves, bit for bit. */
  lemma {:induction false} ReadBinsOfWrite(bins: seq<Bits32>, rest: seq<byte>)
    ensures ReadBins(WriteHistogram(bins) + rest, |bins|) == Success(Read(bins, rest))
  {
    if |bins| > 0 {
      var head: seq<byte> := bins[0];
      var tail: seq<byte> := WriteHistogram(bins[1..]) + rest;
      assert WriteHistogram(bins) + rest == head + tail;
      assert (head + tail)[..4] == head && (head + tail)[4..] == tail;
      ReadBinsOfWrite(bins[1..], rest);
      assert [bins[0]] + bins[1..] == bins;
    } else {
      assert WriteHistogram(bins) + rest == rest;
    }
  }

  /**
    A written record with 256-bin channels reads back as itself: the id
    through its text, the colour infos and all 768 bins bit for bit.
  */
  lemma ReadRecordOfWrite(hf: HashFunctions, d: ImageData, rest: seq<byte>)
    requires ParsesRendered(hf) && EncodableRecord(hf, d) && Shaped(d.histogram)
    ensures ReadRecord(hf, WriteRecord(hf, d) + rest) == Success(Read(d, rest))
  {
    var h := d.histogram;
    var t8 := WriteHistogram(h.valuesB) + rest;
    var t7 := WriteHistogram(h.valuesG) + t8;
    var t6 := WriteHistogram(h.valuesR) + t7;
    var t5 := WriteInfos(d.bestShades) + t6;
    var t4 := WriteInt32(|d.bestShades|) + t5;
    var t3 := WriteInfos(d.bestColors) + t4;
    var t2 := WriteInt32(|d.bestColors|) + t3;
    WriteRecordSplit(hf, d, rest);
    ReadStringOfWrite(hf.render(d.guid), t2);
    ReadInt32OfWrite(|d.bestColors|, t3);
    ReadInfosOfWrite(d.bestColors, t4);
    ReadInt32OfWrite(|d.bestShades|, t5);
    ReadInfosOfWrite(d.bestShades, t6);
    ReadBinsOfWrite(h.valuesR, t7);
    ReadBinsOfWrite(h.valuesG, t8);
    ReadBinsOfWrite(h.valuesB, rest);
    assert hf.parse(hf.render(d.guid)) == d.guid;
  }

  lemma Assoc(a: seq<byte>, b: seq<byte>, c: seq<byte>)
    ensures (a + b) + c == a + (b + c)
  {
  }

  /** The bytes of a record followed by `rest`, grouped field by field. */
  lemma WriteRecordSplit(hf: HashFunctions, d: ImageData, rest: seq<byte>)
    requires EncodableRecord(hf, d)
    ensures WriteRecord(hf, d) + rest ==
              WriteString(hf.render(d.guid)) + (WriteInt32(|d.bestColors|) + (WriteInfos(d.bestColors)
              + (WriteInt32(|d.bestShades|) + (WriteInfos(d.bestShades)
              + (WriteHistogram(d.histogram.valuesR) + (WriteHistogram(d.histogram.valuesG)
              + (WriteHistogram(d.histogram.valuesB) + rest)))))))
  {
    var a0, a1, a2 := WriteString(hf.render(d.guid)), WriteInt32(|d.bestColors|), WriteInfos(d.bestColors);
    var a3, a4 := WriteInt32(|d.bestShades|), WriteInfos(d.bestShades);
    var a5, a6, a7 := WriteHistogram(d.histogram.valuesR), WriteHistogram(d.histogram.valuesG), WriteHistogram(d.histogram.valuesB);
    Assoc(a0, a1 + (a2 + (a3 + (a4 + (a5 + (a6 + a7))))), rest);
    Assoc(a1, a2 + (a3 + (a4 + (a5 + (a6 + a7)))), rest);
    Assoc(a2, a3 + (a4 + (a5 + (a6 + a7))), rest);
    Assoc(a3, a4 + (a5 + (a6 + a7)), rest);
    Assoc(a4, a5 + (a6 + a7), rest);
    Assoc(a5, a6 + a7, rest);
    Assoc(a6, a7, rest);
  }

  /**
    A written id map with distinct ids reads back as itself, appended to
    the entries already read.
  */
  lemma {:induction false} ReadEntriesOfWrite(hf: HashFunctions, m: seq<Entry>, es: seq<Entry>, rest: seq<byte>, s: seq<byte>)
    requires ParsesRendered(hf)
    requires forall i :: 0 <= i < |es| ==> EncodableEntry(hf, es[i])
    requires DistinctKeys(m + es)
    requires s == WriteEntries(hf, es) + rest
    ensures ReadEntries(hf, s, |es|, m) == Success(Read(m + es, rest))
    decreases |es|
  {
    if |es| == 0 {
      assert m + es == m && s == rest;
    } else {
      var e := es[0];
      var tail := WriteEntries(hf, es[1..]) + rest;
      NewKey(m, es);
      assert (m + [e]) + es[1..] == m + es;
      ReadEntriesOfWrite(hf, m + [e], es[1..], rest, tail);
      ReadEntriesCons(hf, m, es, rest, s, m + es);
    }
  }

  /** The first written entry reads back as its id, parsed from its text, and its path. */
  lemma ReadFirstEntry(hf: HashFunctions, es: seq<Entry>, rest: seq<byte>, s: seq<byte>)
    requires ParsesRendered(hf) && |es| > 0
    requires forall i :: 0 <= i < |es| ==> EncodableEntry(hf, es[i])
    requires s == WriteEntries(hf, es) + rest
    ensures ReadString(s).Success?
    ensures hf.parse(ReadString(s).value.value) == es[0].hash
    ensures ReadString(ReadString(s).value.rest) == Success(Read(es[0].path, WriteEntries(hf, es[1..]) + rest))
  {
    var e := es[0];
    var tail := WriteEntries(hf, es[1..]) + rest;
    Assoc(WriteString(hf.render(e.hash)), WriteString(e.path) + WriteEntries(hf, es[1..]), rest);
    Assoc(WriteString(e.path), WriteEntries(hf, es[1..]), rest);
    ReadStringOfWrite(hf.render(e.hash), WriteString(e.path) + tail);
    ReadStringOfWrite(e.path, tail);
  }

  /** One turn of the id map loop for a new id: the entry is appended and the loop goes on. */
  lemma ReadEntriesCons(hf: HashFunctions, m: seq<Entry>, es: seq<Entry>, rest: seq<byte>, s: seq<byte>, result: seq<Entry>)
    requires ParsesRendered(hf) && |es| > 0
    requires forall i :: 0 <= i < |es| ==> EncodableEntry(hf, es[i])
    requires s == WriteEntries(hf, es) + rest
    requires Lookup(m, es[0].hash).None?
    requires ReadEntries(hf, WriteEntries(hf, es[1..]) + rest, |es| - 1, m + [es[0]]) == Success(Read(result, rest))
    ensures ReadEntries(hf, s, |es|, m) == Success(Read(result, rest))
  {
    ReadFirstEntry(hf, es, rest, s);
  }

  /** The first id of `es` has no entry in `m` when all ids of `m + es` are distinct. */
  lemma NewKey(m: seq<Entry>, es: seq<Entry>)
    requires |es| > 0 && DistinctKeys(m + es)
    ensures Lookup(m, es[0].hash).None?
  {
    forall i | 0 <= i < |m|
      ensures m[i].hash != es[0].hash
    {
      assert (m + es)[i] == m[i] && (m + es)[|m|] == es[0];
    }
  }

  /**
    Reading written records gives them back with the path map that indexing
    them gives, or throws the exception indexing them throws.
  */
  lemma {:induction false} ReadRecordsOfWrite(hf: HashFunctions, m: seq<Entry>, acc: seq<ImageData>, index: map<Text, int>,
                                              ds: seq<ImageData>, rest: seq<byte>, s: seq<byte>, n: int)
    requires ParsesRendered(hf)
    requires forall i :: 0 <= i < |ds| ==> EncodableRecord(hf, ds[i]) && Shaped(ds[i].histogram)
    requires s == WriteRecords(hf, ds) + rest && n == |acc| + |ds|
    ensures IndexMore(m, acc, index, ds).Success? ==>
              ReadRecords(hf, s, n, m, acc, index) == Success(Read(Decoded(acc + ds, IndexMore(m, acc, index, ds).value), rest))
    ensures IndexMore(m, acc, index, ds).Failure? ==>
              ReadRecords(hf, s, n, m, acc, index) == Failure(IndexMore(m, acc, index, ds).error)
    decreases |ds|
  {
    if |ds| == 0 {
      assert acc + ds == acc && s == rest;
    } else {
      var d, ds' := ds[0], ds[1..];
      var tail := WriteRecords(hf, ds') + rest;
      ReadFirstRecord(hf, ds, rest, s);
      var step := IndexStep(m, index, d.guid, |acc|);
      if step.Success? {
        ReadRecordsOfWrite(hf, m, acc + [d], step.value, ds', rest, tail, n);
      }
      ReadRecordsCons(hf, m, acc, index, ds, rest, s, n, tail);
    }
  }

  /** The first of several written records reads back as itself, followed by the others. */
  lemma ReadFirstRecord(hf: HashFunctions, ds: seq<ImageData>, rest: seq<byte>, s: seq<byte>)
    requires ParsesRendered(hf) && |ds| > 0
    requires forall i :: 0 <= i < |ds| ==> EncodableRecord(hf, ds[i]) && Shaped(ds[i].histogram)
    requires s == WriteRecords(hf, ds) + rest
    ensures ReadRecord(hf, s) == Success(Read(ds[0], WriteRecords(hf, ds[1..]) + rest))
  {
    var tail := WriteRecords(hf, ds[1..]) + rest;
    Assoc(WriteRecord(hf, ds[0]), WriteRecords(hf, ds[1..]), rest);
    ReadRecordOfWrite(hf, ds[0], tail);
  }

  /**
    One turn of the record loop: once the first record has been read and
    indexed, the loop goes on with the others, or stops at the exception.
  */
  lemma ReadRecordsCons(hf: HashFunctions, m: seq<Entry>, acc: seq<ImageData>, index: map<Text, int>,
                        ds: seq<ImageData>, rest: seq<byte>, s: seq<byte>, n: int, tail: seq<byte>)
    requires |ds| > 0 && n == |acc| + |ds|
    requires ReadRecord(hf, s) == Success(Read(ds[0], tail))
    requires IndexStep(m, index, ds[0].guid, |acc|).Success? ==>
               var acc', index' := acc + [ds[0]], IndexStep(m, index, ds[0].guid, |acc|).value;
               && (IndexMore(m, acc', index', ds[1..]).Success? ==>
                     ReadRecords(hf, tail, n, m, acc', index')
                       == Success(Read(Decoded(acc' + ds[1..], IndexMore(m, acc', index', ds[1..]).value), rest)))
               && (IndexMore(m, acc', index', ds[1..]).Failure? ==>
                     ReadRecords(hf, tail, n, m, acc', index') == Failure(IndexMore(m, acc', index', ds[1..]).error))
    ensures IndexMore(m, acc, index, ds).Success? ==>
              ReadRecords(hf, s, n, m, acc, index) == Success(Read(Decoded(acc + ds, IndexMore(m, acc, index, ds).value), rest))
    ensures IndexMore(m, acc, index, ds).Failure? ==>
              ReadRecords(hf, s, n, m, acc, index) == Failure(IndexMore(m, acc, index, ds).error)
  {
    assert (acc + [ds[0]]) + ds[1..] == acc + ds;
  }

  /**
    `ReadFrom` of what `WriteTo` wrote: with distinct ids and 256-bin
    channels, it succeeds exactly when every record's id has a path and no
    two records share one.  It then restores the same id map and the same
    records, with the path map rebuilt; otherwise it throws at an unknown
    id or a repeated path.
  */
  lemma ReadFromWriteTo(hf: HashFunctions, db: ImageDatabase)
    requires ParsesRendered(hf) && Encodable(hf, db) && DistinctKeys(db.hashToFile)
    requires forall i :: 0 <= i < |db.imagesData| ==> Shaped(db.imagesData[i].histogram)
    ensures ReadFrom(hf, WriteTo(hf, db)).Success? <==> Resolvable(db.hashToFile, db.imagesData)
    ensures ReadFrom(hf, WriteTo(hf, db)).Success? ==>
              && ReadFrom(hf, WriteTo(hf, db)).value.hashToFile == db.hashToFile
              && ReadFrom(hf, WriteTo(hf, db)).value.imagesData == db.imagesData
              && Indexed(ReadFrom(hf, WriteTo(hf, db)).value)
    ensures ReadFrom(hf, WriteTo(hf, db)).Failure? ==>
              ReadFrom(hf, WriteTo(hf, db)).error in {UnknownId, DuplicatePath}
  {
    ReadFromOfWritten(hf, db, WriteTo(hf, db));
    IndexRecordsCorrect(db.hashToFile, db.imagesData);
  }

  /** Reading written bytes gives the written id map and records, or the first indexing exception. */
  lemma ReadFromOfWritten(hf: HashFunctions, db: ImageDatabase, s: seq<byte>)
    requires ParsesRendered(hf) && Encodable(hf, db) && DistinctKeys(db.hashToFile)
    requires forall i :: 0 <= i < |db.imagesData| ==> Shaped(db.imagesData[i].histogram)
    requires s == WriteTo(hf, db)
    ensures IndexRecords(db.hashToFile, db.imagesData).Success? ==>
              ReadFrom(hf, s) == Success(ImageDatabase(db.hashToFile, IndexRecords(db.hashToFile, db.imagesData).value, db.imagesData))
    ensures IndexRecords(db.hashToFile, db.imagesData).Failure? ==>
              ReadFrom(hf, s) == Failure(IndexRecords(db.hashToFile, db.imagesData).error)
  {
    var es, ds := db.hashToFile, db.imagesData;
    var t3 := WriteRecords(hf, ds);
    var t2 := WriteInt32(|ds|) + t3;
    var t1 := WriteEntries(hf, es) + t2;
    WriteToSections(hf, db, s, t1, t2, t3);
    WrittenRecordsRead(hf, es, ds, t3);
    ReadFromSections(hf, s, |es|, t1, es, t2, |ds|, t3);
  }

  /** The record section of written bytes reads back as the records, indexed from the start. */
  lemma WrittenRecordsRead(hf: HashFunctions, es: seq<Entry>, ds: seq<ImageData>, t3: seq<byte>)
    requires ParsesRendered(hf)
    requires forall i :: 0 <= i < |ds| ==> EncodableRecord(hf, ds[i]) && Shaped(ds[i].histogram)
    requires t3 == WriteRecords(hf, ds)
    ensures IndexRecords(es, ds).Success? ==>
              ReadRecords(hf, t3, |ds|, es, [], map[]) == Success(Read(Decoded(ds, IndexRecords(es, ds).value), []))
    ensures IndexRecords(es, ds).Failure? ==>
              ReadRecords(hf, t3, |ds|, es, [], map[]) == Failure(IndexRecords(es, ds).error)
  {
    assert t3 + [] == t3 && [] + ds == ds;
    ReadRecordsOfWrite(hf, es, [], map[], ds, [], t3, |ds|);
  }

  /** The id map section and the record count of written bytes read back as written. */
  lemma WriteToSections(hf: HashFunctions, db: ImageDatabase, s: seq<byte>, t1: seq<byte>, t2: seq<byte>, t3: seq<byte>)
    requires ParsesRendered(hf) && Encodable(hf, db) && DistinctKeys(db.hashToFile)
    requires t3 == WriteRecords(hf, db.imagesData) && t2 == WriteInt32(|db.imagesData|) + t3
    requires t1 == WriteEntries(hf, db.hashToFile) + t2 && s == WriteTo(hf, db)
    ensures ReadInt32(s) == Success(Read(|db.hashToFile|, t1))
    ensures ReadEntries(hf, t1, |db.hashToFile|, []) == Success(Read(db.hashToFile, t2))
    ensures ReadInt32(t2) == Success(Read(|db.imagesData|, t3))
  {
    ReadInt32OfWrite(|db.hashToFile|, t1);
    assert [] + db.hashToFile == db.hashToFile;
    ReadEntriesOfWrite(hf, [], db.hashToFile, t2, t1);
    ReadInt32OfWrite(|db.imagesData|, t3);
  }

  /** `ReadFrom` once its id map section and its record count have been read. */
  lemma ReadFromSections(hf: HashFunctions, s: seq<byte>, n: int32, t1: seq<byte>, es: seq<Entry>,
                         t2: seq<byte>, c: int32, t3: seq<byte>)
    requires ReadInt32(s) == Success(Read(n, t1))
    requires ReadEntries(hf, t1, n, []) == Success(Read(es, t2))
    requires ReadInt32(t2) == Success(Read(c, t3)) && c >= 0
    ensures ReadRecords(hf, t3, c, es, [], map[]).Failure? ==>
              ReadFrom(hf, s) == Failure(ReadRecords(hf, t3, c, es, [], map[]).error)
    ensures ReadRecords(hf, t3, c, es, [], map[]).Success? ==>
              ReadFrom(hf, s) == Success(ImageDatabase(es, ReadRecords(hf, t3, c, es, [], map[]).value.value.index,
                                                      ReadRecords(hf, t3, c, es, [], map[]).value.value.records))
  {
  }

  // ---------------------------------------------------------------------------
  // Malformed input

  /** An empty buffer has no id count to read. */
  lemma ReadFromEmpty(hf: HashFunctions)
    ensures ReadFrom(hf, []) == Failure(EndOfStream)
  {
  }

  /**
    A negative id count reads no entries: whatever follows the count is read
    as the records section, against an empty id map.
  */
  lemma ReadFromNegativeIdCount(hf: HashFunctions, s: seq<byte>, n: int32, t: seq<byte>)
    requires ReadInt32(s) == Success(Read(n, t)) && n < 0
    ensures ReadFrom(hf, s) == ReadRecordSection(hf, t, [])
  {
    assert ReadEntries(hf, t, n, []) == Success(Read([], t));
  }

  /** A negative record count throws when the list is created, before any record is read. */
  lemma ReadFromNegativeRecordCount(hf: HashFunctions, s: seq<byte>, n: int32, t: seq<byte>, c: int32, rest: seq<byte>)
    requires ReadInt32(s) == Success(Read(n, t)) && n <= 0
    requires ReadInt32(t) == Success(Read(c, rest)) && c < 0
    ensures ReadFrom(hf, s) == Failure(NegativeCapacity)
  {
    assert ReadEntries(hf, t, n, []) == Success(Read([], t));
    ReadFromCountSections(hf, s, n, t, [], t, c, rest);
  }

  /** Once the id map section and the record count are read, a negative count throws. */
  lemma ReadFromCountSections(hf: HashFunctions, s: seq<byte>, n: int32, t1: seq<byte>, es: seq<Entry>,
                              t2: seq<byte>, c: int32, t3: seq<byte>)
    requires ReadInt32(s) == Success(Read(n, t1))
    requires ReadEntries(hf, t1, n, []) == Success(Read(es, t2))
    requires ReadInt32(t2) == Success(Read(c, t3))
    ensures c < 0 ==> ReadFrom(hf, s) == Failure(NegativeCapacity)
  {
  }
}
