// Sequential Huffman-coded files: an image's coefficients and quantization tables to bytes, and these
// bytes, headers and coded data, back to the image.
module JpegFile {
  import opened ArithInterval
  import opened Aritab
  import opened ByteSource
  import opened ArithScan
  import opened Geometry
  import opened McuPlaces
  import opened McuPadding
  import opened McuWriter
  import opened HuffmanSegments
  import HuffmanBlock
  import HuffmanMcu
  import HuffmanOptimize
  import HuffmanRoundTrip
  import opened HuffmanImage
  import opened MarkerSegments
  import opened MarkerWriter
  import opened MarkerReader
  import opened HeaderRoundTrip
  import opened JpegTables

  const JPEG_MAX_DIMENSION := 65500
  const BITS_IN_JSAMPLE := 8

  // The limits of initial_setup, which compressor and decoder share
  predicate SetupOk(height: nat, width: nat, precision: nat) {
    height <= JPEG_MAX_DIMENSION && width <= JPEG_MAX_DIMENSION && precision == BITS_IN_JSAMPLE
  }

  // What a frame header says about the image
  function ImageOf(frame: FrameInfo): (img: Image)
    ensures |img.comps| == |frame.comps|
  {
    Image(frame.width, frame.height,
          seq(|frame.comps|, c requires 0 <= c < |frame.comps| => Sampling(frame.comps[c].h, frame.comps[c].v)))
  }

  // The scan that a header speaks of; conditioning is not for Huffman coding.
  function ScanOf(img: Image, order: seq<nat>, h: ScanHeader, restartInterval: nat): Scan
    requires ImageOk(img) && ScanComps(img, h.comps) && |h.dcTbl| == |h.acTbl| == |h.comps|
  {
    var none := seq(NUM_ARITH_TBLS, _ => 0);
    Scan(false, h.Ss, h.Se, h.Ah, h.Al,
         seq(|h.comps|, i requires 0 <= i < |h.comps| => Component(h.dcTbl[i], h.acTbl[i])),
         Membership(img, h.comps, |h.comps|), none, none, none, order, restartInterval)
  }

  // A sequential scan has all coefficients.
  function SpecOf(list: seq<nat>): ScanSpec {
    ScanSpec(list, 0, DCTSIZE2 - 1, 0, 0)
  }

  // Scan x of an image is that of these components.
  ghost predicate Described(img: Image, order: seq<nat>, comps: seq<Comp>, x: HuffmanScan)
    requires ImageOk(img)
  {
    && ScanComps(img, x.comps) && SpecFits(comps, SpecOf(x.comps)) && x.scan.restartInterval < 0x1_0000
    && var h := Header(comps, SpecOf(x.comps));
       && |h.dcTbl| == |h.acTbl| == |h.comps| && h.comps == x.comps && x.scan == ScanOf(img, order, h, x.scan.restartInterval)
  }

  // ----- What a file holds -----

  // The parts of a file: its frame, its scans with their tables and segments, the markers before them, and
  // the quantization tables of its components
  datatype File = File(
    order: seq<nat>, comps: seq<Comp>, frame: FrameInfo, dct: seq<Block>, scans: seq<HuffmanScan>,
    made: seq<seq<HuffmanBlock.Tables>>, segments: seq<seq<seq<Byte>>>, written: seq<WrittenScan>, quants: seq<seq<UInt16>>)

  ghost predicate ImageFits(f: File) {
    && ImageOk(ImageOf(f.frame)) && |f.dct| == Total(ImageOf(f.frame)) && HuffmanScansOk(ImageOf(f.frame), f.scans)
    && |f.frame.comps| == |f.comps| == |f.quants|
    && (forall n :: 0 <= n < |f.scans| ==> Described(ImageOf(f.frame), f.order, f.comps, f.scans[n]))
    && forall c :: 0 <= c < |f.comps| ==> f.frame.comps[c].quantTbl == f.comps[c].quantTbl < NUM_QUANT_TBLS
  }

  // The bytes of scan n hold its blocks, and in front of them the decoder has the tables for it.
  ghost predicate ScanHeld(f: File, n: nat)
    requires ImageFits(f) && n < |f.scans| == |f.made| == |f.segments| == |f.written|
  {
    var x, w := f.scans[n], f.written[n];
    && ScanWritten(ImageOf(f.frame), f.dct, x, f.made[n], w.data, f.segments[n])
    && w.scan == SpecOf(x.comps) && w.params.frame == Some(f.frame) && w.params.restartInterval == x.scan.restartInterval
    && AllHeld(w.params, Header(f.comps, SpecOf(x.comps)), f.made[n])
    && |w.params.quant| == NUM_QUANT_TBLS
    && forall c :: 0 <= c < |f.comps| ==> w.params.quant[f.comps[c].quantTbl] == Some(f.quants[c])
  }

  ghost predicate AllHold(f: File) {
    && ImageFits(f) && |f.scans| == |f.made| == |f.segments| == |f.written|
    && forall n :: 0 <= n < |f.scans| ==> ScanHeld(f, n)
  }

  // ----- Writing -----

  // The compressor's tables for a component
  predicate OwnSlot(u: Tables, c: Comp, t: HuffmanBlock.Tables) {
    && c.dcTbl < |u.dcHuff| && u.dcHuff[c.dcTbl] == Some(Slot(t.dcTable, false))
    && c.acTbl < |u.acHuff| && u.acHuff[c.acTbl] == Some(Slot(t.acTable, false))
  }

  predicate OwnSlots(u: Tables, comps: seq<Comp>, list: seq<nat>, tables: seq<HuffmanBlock.Tables>) {
    && |tables| == |list| && (forall i :: 0 <= i < |list| ==> list[i] < |comps|)
    && forall i :: 0 <= i < |list| ==> OwnSlot(u, comps[list[i]], tables[i])
  }

  // What happens before a scan: its tables are made.
  function ChangeFor(comps: seq<Comp>, x: HuffmanScan, tables: seq<HuffmanBlock.Tables>): Change
    requires |tables| == |x.comps| && (forall i :: 0 <= i < |x.comps| ==> x.comps[i] < |comps|) && x.scan.restartInterval < 0x1_0000
  {
    Change(NewTables(comps, x.comps, tables), x.scan.restartInterval, SpecOf(x.comps))
  }

  lemma NumbersOf(img: Image, order: seq<nat>, comps: seq<Comp>, x: HuffmanScan)
    requires ImageOk(img) && Described(img, order, comps, x)
    ensures NumberedBy(comps, x.comps, x.scan)
  {
    hide ImageOk, Membership;
  }

  lemma TablesOfScan(img: Image, order: seq<nat>, comps: seq<Comp>, dct: seq<Block>, x: HuffmanScan, tables: seq<HuffmanBlock.Tables>,
                     out: seq<Byte>, segments: seq<seq<Byte>>)
    requires ImageOk(img) && HuffmanScanOk(img, x.scan, x.comps) && |dct| == Total(img) && Described(img, order, comps, x)
    requires ScanWritten(img, dct, x, tables, out, segments)
    ensures |tables| == |x.comps| && HuffmanOptimize.Shared(x.scan, tables)
    ensures forall c :: 0 <= c < |tables| ==> HuffmanBlock.TablesMatch(tables[c]) && BothFit(tables[c])
  {
    hide ImageOk, HuffmanScanOk, Total, Membership, Coded, ScanBits, Flatten, BlockComps, Mcus, McuCount, HuffmanBlock.TablesMatch,
      ScanOk, HuffmanMcu.Sent, ScanBytes, Described, BothFit;
    NumbersOf(img, order, comps, x);
    forall c | 0 <= c < |tables|
      ensures HuffmanBlock.TablesMatch(tables[c]) && BothFit(tables[c])
    {
      MatchFit(tables[c]);
    }
  }

  lemma MatchFit(t: HuffmanBlock.Tables)
    requires HuffmanBlock.TablesMatch(t)
    ensures BothFit(t)
  {
    FitsOf(t.dcTable, t.dcEncoder);
    FitsOf(t.acTable, t.acEncoder);
  }

  // The tables made for a scan can be installed.
  lemma MadeFits(img: Image, order: seq<nat>, comps: seq<Comp>, x: HuffmanScan, tables: seq<HuffmanBlock.Tables>)
    requires ImageOk(img) && Described(img, order, comps, x) && HuffNumbers(comps) && |tables| == |x.comps|
    requires forall c :: 0 <= c < |tables| ==> BothFit(tables[c])
    ensures (forall i :: 0 <= i < |x.comps| ==> x.comps[i] < |comps|) && ChangeFits(comps, ChangeFor(comps, x, tables))
  {
    hide ImageOk, HuffFits, Membership;
  }

  // With them, every component of the scan has its own.
  lemma ChangeMade(t: Tables, img: Image, order: seq<nat>, comps: seq<Comp>, x: HuffmanScan, tables: seq<HuffmanBlock.Tables>)
    requires |t.dcHuff| == |t.acHuff| == MarkerSegments.NUM_HUFF_TBLS && HuffNumbers(comps) && |tables| == |x.comps|
    requires ImageOk(img) && Described(img, order, comps, x) && HuffmanOptimize.Shared(x.scan, tables)
    requires (forall i :: 0 <= i < |x.comps| ==> x.comps[i] < |comps|) && ChangeFits(comps, ChangeFor(comps, x, tables))
    ensures var u := Changed(t, ChangeFor(comps, x, tables));
            OwnSlots(u, comps, x.comps, tables) && u.quant == t.quant && u.restartInterval == x.scan.restartInterval
  {
    hide ImageOk, HuffFits, Membership, SpecFits, HuffmanOptimize.Shared, Install, NewTables, Described;
    NumbersOf(img, order, comps, x);
    var made := NewTables(comps, x.comps, tables);
    Agrees(comps, x.comps, x.scan, tables);
    Installed(t, made, |made|);
    forall i | 0 <= i < |x.comps|
      ensures OwnSlot(Install(t, made, |made|), comps[x.comps[i]], tables[i])
    {
      OwnTables(t, comps, x.comps, x.scan, tables, i);
    }
  }

  lemma {:induction false} QuantsStay(t: Tables, comps: seq<Comp>, changes: seq<Change>, n: nat)
    requires n < |changes| && |t.dcHuff| == |t.acHuff| == MarkerSegments.NUM_HUFF_TBLS && ChangesFit(comps, changes)
    requires forall u: Tables, m :: |u.dcHuff| == |u.acHuff| == MarkerSegments.NUM_HUFF_TBLS && 0 <= m < |changes| ==>
               Changed(u, changes[m]).quant == u.quant
    ensures TablesFor(t, changes, n).quant == t.quant
  {
    hide Changed, ChangeFits;
    if n > 0 {
      QuantsStay(t, comps, changes, n - 1);
    }
  }

  // The changes are those that the scans ask for.
  ghost predicate Asked(img: Image, order: seq<nat>, comps: seq<Comp>, xs: seq<HuffmanScan>, made: seq<seq<HuffmanBlock.Tables>>,
                        changes: seq<Change>)
    requires ImageOk(img)
  {
    && |xs| == |made| == |changes| && HuffNumbers(comps)
    && forall n :: 0 <= n < |xs| ==> AskedFor(img, order, comps, xs[n], made[n], changes[n])
  }

  ghost predicate AskedFor(img: Image, order: seq<nat>, comps: seq<Comp>, x: HuffmanScan, tables: seq<HuffmanBlock.Tables>, c: Change)
    requires ImageOk(img)
  {
    && Described(img, order, comps, x) && |tables| == |x.comps| && (forall i :: 0 <= i < |x.comps| ==> x.comps[i] < |comps|)
    && c == ChangeFor(comps, x, tables) && ChangeFits(comps, c) && HuffmanOptimize.Shared(x.scan, tables)
  }

  // So scan n uses these tables.
  lemma ScanTables(t: Tables, img: Image, order: seq<nat>, comps: seq<Comp>, xs: seq<HuffmanScan>, made: seq<seq<HuffmanBlock.Tables>>,
                   changes: seq<Change>, n: nat)
    requires |t.dcHuff| == |t.acHuff| == MarkerSegments.NUM_HUFF_TBLS && ImageOk(img) && n < |xs|
    requires Asked(img, order, comps, xs, made, changes)
    ensures ChangesFit(comps, changes)
    ensures var u := TablesFor(t, changes, n);
            OwnSlots(u, comps, xs[n].comps, made[n]) && u.quant == t.quant && u.restartInterval == xs[n].scan.restartInterval
  {
    hide ImageOk, Described, ChangeFits, HuffNumbers, HuffmanOptimize.Shared, Changed, OwnSlots, ChangeFor;
    AllChangesFit(img, order, comps, xs, made, changes);
    forall u: Tables, m | |u.dcHuff| == |u.acHuff| == MarkerSegments.NUM_HUFF_TBLS && 0 <= m < |changes|
      ensures Changed(u, changes[m]).quant == u.quant
    {
      assert AskedFor(img, order, comps, xs[m], made[m], changes[m]);
      ChangeMade(u, img, order, comps, xs[m], made[m]);
    }
    QuantsStay(t, comps, changes, n);
    assert AskedFor(img, order, comps, xs[n], made[n], changes[n]);
    ChangeMade(if n == 0 then t else TablesFor(t, changes, n - 1), img, order, comps, xs[n], made[n]);
  }

  lemma AllChangesFit(img: Image, order: seq<nat>, comps: seq<Comp>, xs: seq<HuffmanScan>, made: seq<seq<HuffmanBlock.Tables>>,
                      changes: seq<Change>)
    requires ImageOk(img) && Asked(img, order, comps, xs, made, changes)
    ensures ChangesFit(comps, changes) && |xs| == |made| == |changes|
    ensures forall m :: 0 <= m < |changes| ==> forall k :: 0 <= k < |changes[m].made| ==>
              changes[m].made[k].index < MarkerSegments.NUM_HUFF_TBLS
  {
    hide ImageOk, Described, HuffNumbers, HuffmanOptimize.Shared, ChangeFor, HuffFits, SpecFits;
    assert forall m :: 0 <= m < |changes| ==> AskedFor(img, order, comps, xs[m], made[m], changes[m]);
  }

  // All tables that a scan needs are defined.
  lemma OwnDefined(u: Tables, comps: seq<Comp>, list: seq<nat>, tables: seq<HuffmanBlock.Tables>)
    requires |u.dcHuff| == |u.acHuff| == MarkerSegments.NUM_HUFF_TBLS && CompsFit(comps, false) && SpecFits(comps, SpecOf(list))
    requires OwnSlots(u, comps, list, tables)
    ensures TablesDefined(comps, false, u, SpecOf(list))
  {
    hide SpecFits;
    SpecKnown(comps, SpecOf(list));
    forall isAc, i | 0 <= i < |list|
      ensures Defined(u, isAc, TableOf(comps[list[i]], isAc))
    {
      assert OwnSlot(u, comps[list[i]], tables[i]);
    }
  }

  // The decoder has them.
  lemma OwnHeld(u: Tables, v: Tables, comps: seq<Comp>, list: seq<nat>, tables: seq<HuffmanBlock.Tables>, p: Params)
    requires CompsFit(comps, false) && SpecFits(comps, SpecOf(list)) && TablesShape(v) && ParamsShape(p) && SameTables(u, v)
    requires OwnSlots(u, comps, list, tables) && EntropyReady(v, comps, SpecOf(list), false, p)
    requires forall i :: 0 <= i < |tables| ==> HuffmanBlock.TablesMatch(tables[i]) && BothFit(tables[i])
    ensures AllHeld(p, Header(comps, SpecOf(list)), tables)
  {
    hide HuffmanBlock.TablesMatch, HuffFits, Received;
    var scan := SpecOf(list);
    var h := Header(comps, scan);
    HuffTables(comps, false);
    forall i | 0 <= i < |tables|
      ensures Holds(p, h, i, tables[i])
    {
      var c := comps[list[i]];
      assert OwnSlot(u, c, tables[i]);
      assert Ready(v, p, false, TableOf(c, false)) && Ready(v, p, true, TableOf(c, true)) by {
        assert NeedsTable(scan, false) && NeedsTable(scan, true) && scan.comps[i] == list[i];
      }
      assert SameSlot(u.dcHuff[c.dcTbl], v.dcHuff[c.dcTbl]) && SameSlot(u.acHuff[c.acTbl], v.acHuff[c.acTbl]);
    }
  }

  lemma QuantsHeld(t: Tables, u: Tables, v: Tables, comps: seq<Comp>, p: Params)
    requires u.quant == t.quant && SameTables(u, v) && |p.quant| == NUM_QUANT_TBLS
    requires (forall c :: 0 <= c < |comps| ==> comps[c].quantTbl < NUM_QUANT_TBLS) && QuantsReady(v, comps, |comps|, p)
    ensures forall c :: 0 <= c < |comps| ==>
              && t.quant[comps[c].quantTbl].Some?
              && p.quant[comps[c].quantTbl] == Some(t.quant[comps[c].quantTbl].value.table)
  {
    forall c | 0 <= c < |comps|
      ensures t.quant[comps[c].quantTbl].Some? && p.quant[comps[c].quantTbl] == Some(t.quant[comps[c].quantTbl].value.table)
    {
      assert SameSlot(u.quant[comps[c].quantTbl], v.quant[comps[c].quantTbl]);
      assert QuantReady(v.quant[comps[c].quantTbl], p.quant[comps[c].quantTbl]);
    }
  }

  // The image that the compressor has been given
  function PictureOf(w: MarkerWriter): (img: Image)
    ensures |img.comps| == |w.comps|
  {
    Image(w.width, w.height, seq(|w.comps|, c requires 0 <= c < |w.comps| => Sampling(w.comps[c].h, w.comps[c].v)))
  }

  lemma SamePicture(w: MarkerWriter)
    requires CompsFit(w.comps, w.arithCode) && w.height <= 65535 && w.width <= 65535
    ensures ImageOf(w.Frame()) == PictureOf(w) && |w.Frame().comps| == |w.comps|
    ensures forall c :: 0 <= c < |w.comps| ==> w.Frame().comps[c].quantTbl == w.comps[c].quantTbl < NUM_QUANT_TBLS
  {
  }

  // The scans of the image
  ghost predicate ScansAsked(img: Image, order: seq<nat>, comps: seq<Comp>, dct: seq<Block>, xs: seq<HuffmanScan>) {
    && ImageOk(img) && |dct| == Total(img) && 0 < |xs| && HuffmanScansOk(img, xs) && EachOnce(|img.comps|, xs)
    && forall n :: 0 <= n < |xs| ==> Described(img, order, comps, xs[n])
  }

  // The file is complete; p is what the decoder has before it.
  ghost predicate Complete(f: File, p: Params) {
    && OrderFits(f.order) && AllHold(f) && ScansAsked(ImageOf(f.frame), f.order, f.comps, f.dct, f.scans)
    && !f.frame.progressive && !f.frame.arith && DistinctIds(f.frame)
    && ScansFit(f.comps, f.frame, f.written) && AllLinked(p, f.written)
  }

  // These are its bytes.
  ghost predicate FileWritten(f: File, p: Params, out: seq<Byte>) {
    && Complete(f, p) && out == [0xFF, SOI] + (AllScans(f.order, f.comps, f.frame, f.written) + [0xFF, EOI])
  }

  // Scan n is written with the tables made for it.
  lemma WrittenWith(w: MarkerWriter, t: Tables, changes: seq<Change>, datas: seq<seq<Byte>>, v: WrittenScan, n: nat, img: Image,
                    order: seq<nat>, xs: seq<HuffmanScan>, made: seq<seq<HuffmanBlock.Tables>>)
    returns (u: Tables)
    requires CompsFit(w.comps, w.arithCode) && !w.arithCode && TablesShape(t) && w.height <= 65535 && w.width <= 65535
    requires ImageOk(img) && Asked(img, order, w.comps, xs, made, changes) && ChangesFit(w.comps, changes)
    requires n < |xs| == |changes| == |datas| == |made| && ScanAsAsked(w, t, changes, datas, v, n)
    ensures ScanReady(w.comps, false, w.Frame(), v) && v.scan == SpecOf(xs[n].comps) && v.data == datas[n] && SameTables(u, v.tables)
    ensures OwnSlots(u, w.comps, xs[n].comps, made[n]) && u.quant == t.quant && u.restartInterval == xs[n].scan.restartInterval
  {
    hide ImageOk, OwnSlots, SameTables, TablesShape, ChangesFit, CompsFit, ScanReady, Described, MarkerWriter.Frame, TablesFor, Asked;
    TablesKnown(t);
    ScanTables(t, img, order, w.comps, xs, made, changes, n);
    AskedAt(img, order, w.comps, xs, made, changes, n);
    AllChangesFit(img, order, w.comps, xs, made, changes);
    u := TablesFor(t, changes, n);
  }

  // So it has all that it needs.
  lemma ScanIsHeld(f: File, t: Tables, u: Tables, n: nat)
    requires ImageFits(f) && n < |f.scans| == |f.made| == |f.segments| == |f.written|
    requires ScanReady(f.comps, false, f.frame, f.written[n]) && f.written[n].scan == SpecOf(f.scans[n].comps)
    requires SameTables(u, f.written[n].tables) && OwnSlots(u, f.comps, f.scans[n].comps, f.made[n])
    requires u.quant == t.quant && u.restartInterval == f.scans[n].scan.restartInterval && |t.quant| == NUM_QUANT_TBLS
    requires ScanWritten(ImageOf(f.frame), f.dct, f.scans[n], f.made[n], f.written[n].data, f.segments[n])
    requires forall c :: 0 <= c < |f.comps| && t.quant[f.comps[c].quantTbl].Some? ==>
               f.quants[c] == t.quant[f.comps[c].quantTbl].value.table
    ensures ScanHeld(f, n)
  {
    hide ImageOk, HuffmanScanOk, ScanWritten, OwnSlots, HuffmanBlock.TablesMatch, BothFit, SameTables, ScanReady, Described, AllHeld,
      Total, SpecFits, Header, HuffmanScansOk;
    var x, v := f.scans[n], f.written[n];
    ScanKnown(ImageOf(f.frame), f.scans, n);
    TablesOfScan(ImageOf(f.frame), f.order, f.comps, f.dct, x, f.made[n], v.data, f.segments[n]);
    ReaderHas(f.comps, f.frame, v, x, f.made[n], t, u);
  }

  lemma ScanKnown(img: Image, xs: seq<HuffmanScan>, n: nat)
    requires ImageOk(img) && HuffmanScansOk(img, xs) && n < |xs|
    ensures HuffmanScanOk(img, xs[n].scan, xs[n].comps)
  {
  }

  // With these tables of the compressor, the reader has what belongs to the scan.
  lemma ReaderHas(comps: seq<Comp>, frame: FrameInfo, v: WrittenScan, x: HuffmanScan, tables: seq<HuffmanBlock.Tables>, t: Tables,
                  u: Tables)
    requires ScanReady(comps, false, frame, v) && v.scan == SpecOf(x.comps) && SameTables(u, v.tables)
    requires OwnSlots(u, comps, x.comps, tables) && u.quant == t.quant && u.restartInterval == x.scan.restartInterval
    requires forall i :: 0 <= i < |tables| ==> HuffmanBlock.TablesMatch(tables[i]) && BothFit(tables[i])
    ensures v.params.frame == Some(frame) && v.params.restartInterval == x.scan.restartInterval
    ensures SpecFits(comps, SpecOf(x.comps)) && AllHeld(v.params, Header(comps, SpecOf(x.comps)), tables)
    ensures |t.quant| == |v.params.quant| == NUM_QUANT_TBLS
    ensures forall c :: 0 <= c < |comps| ==>
              && comps[c].quantTbl < NUM_QUANT_TBLS && t.quant[comps[c].quantTbl].Some?
              && v.params.quant[comps[c].quantTbl] == Some(t.quant[comps[c].quantTbl].value.table)
  {
    hide OwnSlots, HuffmanBlock.TablesMatch, BothFit, SameTables, EntropyReady, QuantsReady, AllHeld, SpecFits, Header, HuffFits;
    OwnHeld(u, v.tables, comps, x.comps, tables, v.params);
    SameInterval(u, v.tables);
    QuantsHeld(t, u, v.tables, comps, v.params);
  }

  lemma AskedAt(img: Image, order: seq<nat>, comps: seq<Comp>, xs: seq<HuffmanScan>, made: seq<seq<HuffmanBlock.Tables>>,
                changes: seq<Change>, n: nat)
    requires ImageOk(img) && Asked(img, order, comps, xs, made, changes) && n < |xs|
    ensures Described(img, order, comps, xs[n]) && changes[n].scan == SpecOf(xs[n].comps)
  {
    hide Described, ChangeFits;
    assert AskedFor(img, order, comps, xs[n], made[n], changes[n]);
  }

  lemma SameInterval(u: Tables, v: Tables)
    requires SameTables(u, v)
    ensures u.restartInterval == v.restartInterval && |u.quant| == NUM_QUANT_TBLS
  {
  }

  // The quantization tables of the components
  function QuantsOf(t: Tables, comps: seq<Comp>): (quants: seq<seq<UInt16>>)
    requires |t.quant| == NUM_QUANT_TBLS && forall c :: 0 <= c < |comps| ==> comps[c].quantTbl < NUM_QUANT_TBLS
    ensures |quants| == |comps|
  {
    seq(|comps|, c requires 0 <= c < |comps| =>
      if t.quant[comps[c].quantTbl].Some? then t.quant[comps[c].quantTbl].value.table else [])
  }

  // What is to be done before each scan of an image whose scans have been written
  lemma MadeChanges(img: Image, order: seq<nat>, comps: seq<Comp>, dct: seq<Block>, xs: seq<HuffmanScan>,
                    made: seq<seq<HuffmanBlock.Tables>>, outs: seq<seq<Byte>>, segments: seq<seq<seq<Byte>>>)
    requires ScansAsked(img, order, comps, dct, xs) && |xs| == |made| == |outs| == |segments| && HuffNumbers(comps)
    requires forall n :: 0 <= n < |xs| ==> ScanWritten(img, dct, xs[n], made[n], outs[n], segments[n])
    ensures forall n :: 0 <= n < |xs| ==>
              && |made[n]| == |xs[n].comps| && (forall i :: 0 <= i < |xs[n].comps| ==> xs[n].comps[i] < |comps|)
              && xs[n].scan.restartInterval < 0x1_0000
    ensures forall changes :: |changes| == |xs| && (forall n :: 0 <= n < |xs| ==> changes[n] == ChangeFor(comps, xs[n], made[n])) ==>
              Asked(img, order, comps, xs, made, changes)
  {
    hide ImageOk, HuffmanScanOk, Total, ScanWritten, ChangeFits, HuffNumbers, HuffmanBlock.TablesMatch, BothFit, ChangeFor, Described,
      HuffmanOptimize.Shared;
    forall n | 0 <= n < |xs|
      ensures |made[n]| == |xs[n].comps| && (forall i :: 0 <= i < |xs[n].comps| ==> xs[n].comps[i] < |comps|)
      ensures xs[n].scan.restartInterval < 0x1_0000
      ensures AskedFor(img, order, comps, xs[n], made[n], ChangeFor(comps, xs[n], made[n]))
    {
      TablesOfScan(img, order, comps, dct, xs[n], made[n], outs[n], segments[n]);
      MadeFits(img, order, comps, xs[n], made[n]);
      ShortInterval(img, order, comps, xs[n]);
    }
  }

  lemma ShortInterval(img: Image, order: seq<nat>, comps: seq<Comp>, x: HuffmanScan)
    requires ImageOk(img) && Described(img, order, comps, x)
    ensures x.scan.restartInterval < 0x1_0000
  {
  }

  // No scan lacks a table.
  lemma AllCodable(t: Tables, img: Image, order: seq<nat>, comps: seq<Comp>, xs: seq<HuffmanScan>,
                   made: seq<seq<HuffmanBlock.Tables>>, changes: seq<Change>, n: nat)
    requires TablesShape(t) && CompsFit(comps, false) && ImageOk(img) && n < |xs| && Asked(img, order, comps, xs, made, changes)
    ensures ChangesFit(comps, changes) && CanCode(comps, false, t, changes, n)
  {
    hide ImageOk, Described, CompsFit, TablesShape, Asked, ChangeFits, TablesFor, OwnSlots, TablesDefined, SpecFits;
    TablesKnown(t);
    ScanTables(t, img, order, comps, xs, made, changes, n);
    AskedAt(img, order, comps, xs, made, changes, n);
    AllChangesFit(img, order, comps, xs, made, changes);
    DescribedSpec(img, order, comps, xs[n]);
    OwnDefined(TablesFor(t, changes, n), comps, xs[n].comps, made[n]);
  }

  lemma DescribedSpec(img: Image, order: seq<nat>, comps: seq<Comp>, x: HuffmanScan)
    requires ImageOk(img) && Described(img, order, comps, x)
    ensures SpecFits(comps, SpecOf(x.comps))
  {
  }

  // A file for an image whose scans have been written
  method WriteScans(w: MarkerWriter, apps: seq<MarkerSegment>, dct: seq<Block>, xs: seq<HuffmanScan>,
                    made: seq<seq<HuffmanBlock.Tables>>, outs: seq<seq<Byte>>, ghost segments: seq<seq<seq<Byte>>>, ghost p: Params)
    returns (ok: bool, ghost f: File)
    requires w.Valid() && w.out == [] && ParamsShape(p) && InStep(w.tables, 0, p) && p.frame.None? && Applications(apps)
    requires !w.arithCode && !w.progressive && SetupOk(w.height, w.width, w.precision)
    requires ScansAsked(PictureOf(w), w.order, w.comps, dct, xs) && |xs| == |made| == |outs| == |segments|
    requires forall n :: 0 <= n < |xs| ==> ScanWritten(PictureOf(w), dct, xs[n], made[n], outs[n], segments[n])
    modifies w`out, w`tables, w`lastRestartInterval
    ensures ok <==> QuantsDefined(old(w.tables), w.comps, |w.comps|)
    ensures w.Valid() && (ok ==> FileWritten(f, p, w.out) && f.frame == w.Frame() && f.comps == w.comps && f.order == w.order)
    ensures ok ==> f.dct == dct && f.scans == xs && f.made == made && f.quants == QuantsOf(old(w.tables), w.comps)
  {
    hide OrderOk, OrderFits, ImageOk, HuffmanScanOk, Total, ScanWritten, TablesShape, ParamsShape, InStep, Described, Asked, ChangeFits,
      ChangeFor, MarkerWriter.Frame, CompsFit, AllLinked, ScansFit, AllScans, QuantsDefined, CanCode, ScanAsAsked, ScanHeld, EachOnce,
      HuffmanScansOk, DistinctIds;
    ghost var t := w.tables;
    HuffTables(w.comps, false);
    MadeChanges(PictureOf(w), w.order, w.comps, dct, xs, made, outs, segments);
    var changes := seq(|xs|, n requires 0 <= n < |xs| => ChangeFor(w.comps, xs[n], made[n]));
    AllChangesFit(PictureOf(w), w.order, w.comps, xs, made, changes);
    forall n | 0 <= n < |xs|
      ensures CanCode(w.comps, false, t, changes, n)
    {
      AllCodable(t, PictureOf(w), w.order, w.comps, xs, made, changes, n);
    }
    ghost var written;
    QuantsKnown(t, w.comps);
    f := File(w.order, w.comps, w.Frame(), dct, xs, made, segments, [], QuantsOf(t, w.comps));
    ok, written := WriteFile(w, apps, changes, outs, p);
    if ok {
      f := f.(written := written);
      SamePicture(w);
      FrameIds(w);
      OrderOfWriter(w);
      forall n | 0 <= n < |xs|
        ensures ScanHeld(f, n)
      {
        var u := WrittenWith(w, t, changes, outs, written[n], n, PictureOf(w), w.order, xs, made);
        ScanIsHeld(f, t, u, n);
      }
    }
  }

  lemma QuantsKnown(t: Tables, comps: seq<Comp>)
    requires TablesShape(t) && CompsFit(comps, false)
    ensures |t.quant| == NUM_QUANT_TBLS && forall c :: 0 <= c < |comps| ==> comps[c].quantTbl < NUM_QUANT_TBLS
  {
  }

  lemma OrderOfWriter(w: MarkerWriter)
    requires w.Valid() && w.height <= 65535 && w.width <= 65535
    ensures OrderFits(w.order) && w.Frame().progressive == w.progressive && w.Frame().arith == w.arithCode
  {
  }

  // No scan of the image is refused for its coefficients or for its size.
  ghost predicate AllTransmittable(img: Image, dct: seq<Block>, xs: seq<HuffmanScan>)
    requires ImageOk(img) && HuffmanScansOk(img, xs) && |dct| == Total(img)
  {
    forall n :: 0 <= n < |xs| ==> Transmittable(img, dct, xs[n])
  }

  // A file for an image: its scans, with tables made for each, behind the headers. There is none if a limit
  // is exceeded, a quantization table is missing, a scan is refused or a flush loses bits; made are the
  // tables of the scans up to the one where this happens.
  method CompressFile(w: MarkerWriter, apps: seq<MarkerSegment>, dct: seq<Block>, xs: seq<HuffmanScan>, given: seq<Block>, space: nat,
                      wideEncoder: bool, ghost p: Params)
    returns (ok: bool, made: seq<seq<HuffmanBlock.Tables>>, ghost f: File)
    requires w.Valid() && w.out == [] && ParamsShape(p) && InStep(w.tables, 0, p) && p.frame.None? && Applications(apps)
    requires !w.arithCode && !w.progressive && ScansAsked(PictureOf(w), w.order, w.comps, dct, xs)
    requires |given| == |dct| && 0 < space
    modifies w`out, w`tables, w`lastRestartInterval
    ensures ok ==> SetupOk(w.height, w.width, w.precision) && QuantsDefined(old(w.tables), w.comps, |w.comps|)
    ensures ok ==> FileWritten(f, p, w.out) && f.frame == w.Frame() && f.comps == w.comps && f.order == w.order
    ensures ok ==> f.dct == dct && f.scans == xs && f.quants == QuantsOf(old(w.tables), w.comps)
    ensures |made| <= |xs| && (ok ==> |made| == |xs|)
    ensures forall n :: 0 <= n < |made| ==> HasCodes(PictureOf(w), xs[n].scan, xs[n].comps, dct, made[n])
    ensures ok ==> AllKept(PictureOf(w), dct, xs, made, wideEncoder, |xs|)
    ensures SetupOk(w.height, w.width, w.precision) && QuantsDefined(old(w.tables), w.comps, |w.comps|) ==>
              AllTransmittable(PictureOf(w), dct, xs) ==>
                && (ok <==> AllKept(PictureOf(w), dct, xs, made, wideEncoder, |made|))
                && ((forall n :: 0 <= n < |made| ==> HuffmanRoundTrip.ShortEnds(made[n])) ==> ok)
  {
    hide OrderOk, OrderFits, ImageOk, HuffmanScanOk, Total, ScanWritten, TablesShape, ParamsShape, InStep, Described, MarkerWriter.Frame,
      CompsFit, QuantsDefined, EachOnce, FileWritten, HasCodes, AllKept, Transmittable, HuffmanRoundTrip.ShortEnds, ScanAcceptable;
    made := [];
    f := File(w.order, w.comps, SampleFrame(), dct, xs, [], [], [], []);
    if !SetupOk(w.height, w.width, w.precision) {
      return false, made, f;
    }
    var outs;
    ghost var segments;
    ok, outs, made, segments := EncodeScans(PictureOf(w), dct, xs, given, space, wideEncoder);
    if ok {
      ok, f := WriteScans(w, apps, dct, xs, made, outs, segments, p);
    }
  }
}
