// Reading a sequential Huffman-coded file: from its bytes alone the decoder gets the image's size, its
// quantization tables and all its blocks.
module JpegRoundTrip {
  import opened ArithInterval
  import opened ByteSource
  import opened ArithScan
  import opened Geometry
  import opened McuPlaces
  import opened McuPadding
  import opened McuWriter
  import HuffmanBlock
  import HuffmanOptimize
  import HuffmanRoundTrip
  import HuffmanSegments
  import HuffmanScript
  import opened HuffmanImage
  import opened MarkerSegments
  import opened MarkerWriter
  import opened MarkerReader
  import opened HeaderRoundTrip
  import opened JpegTables
  import opened JpegFile

  // ----- Before a scan -----

  predicate HasQuant(p: Params, n: nat) {
    n < |p.quant| && p.quant[n].Some?
  }

  // latch_quant_tables: a component keeps the quantization table that it has at its first scan.
  method LatchQuants(p: Params, frame: FrameInfo, list: seq<nat>, latched: seq<Option<seq<UInt16>>>)
    returns (ok: bool, latched': seq<Option<seq<UInt16>>>)
    requires |latched| == |frame.comps| && forall i :: 0 <= i < |list| ==> list[i] < |latched|
    ensures ok <==> forall i :: 0 <= i < |list| ==> latched[list[i]].Some? || HasQuant(p, frame.comps[list[i]].quantTbl)
    ensures ok ==> |latched'| == |latched| && forall c :: 0 <= c < |latched| ==>
              latched'[c] == if c in list && latched[c].None? then p.quant[frame.comps[c].quantTbl] else latched[c]
  {
    latched' := latched;
    for ci := 0 to |list|
      invariant |latched'| == |latched|
      invariant forall i :: 0 <= i < ci ==> latched[list[i]].Some? || HasQuant(p, frame.comps[list[i]].quantTbl)
      invariant forall c :: 0 <= c < |latched| ==>
                  latched'[c] == if c in list[..ci] && latched[c].None? then p.quant[frame.comps[c].quantTbl] else latched[c]
    {
      var c := list[ci];
      assert list[..ci + 1] == list[..ci] + [c];
      if latched'[c].None? {
        var qtblno := frame.comps[c].quantTbl;
        if qtblno >= |p.quant| || p.quant[qtblno].None? {
          return false, latched';
        }
        latched' := latched'[c := p.quant[qtblno]];
      }
    }
    assert list[..|list|] == list;
    ok := true;
  }

  // Before scan n the components of the earlier ones have their quantization tables.
  predicate Latched(f: File, latched: seq<Option<seq<UInt16>>>, n: nat)
    requires n <= |f.scans|
  {
    && |latched| == |f.quants|
    && forall c :: 0 <= c < |latched| ==> latched[c] == if HuffmanImage.Sent(f.scans, n, c) then Some(f.quants[c]) else None
  }

  // ----- A scan -----

  // The reader has got to scan n, and has read its header unless it does not find its components.
  ghost predicate AtScan(r: MarkerReader, p: Params, f: File, n: nat, result: ReadResult)
    reads r
  {
    && Complete(f, p) && n <= |f.scans| && r.Valid() && r.order == f.order
    && if n == |f.scans| then result == ReachedEoi
       else if ComponentsFound(f.scans[n].comps) then
         && result == ReachedSos(Header(f.comps, SpecOf(f.scans[n].comps))) && r.cinfo == f.written[n].params
         && AtData(r, f.comps, f.frame, f.written, n)
       else result == Failed
  }

  // The header of scan n
  method ReadNext(r: MarkerReader, ghost p: Params, ghost f: File, ghost n: nat) returns (result: ReadResult)
    requires Complete(f, p) && n <= |f.scans| && r.order == f.order && Reading(r, p, f.comps, f.frame, f.written, n)
    modifies r
    ensures AtScan(r, p, f, n, result)
  {
    hide OrderOk, OrderFits, ImageFits, ScansFit, AllLinked, DistinctIds, ComponentsFound, Header, ScanWritten, AllHeld, AtData, Reading,
      ParamsShape;
    if n < |f.scans| {
      assert ScanHeld(f, n);
    }
    result := ReadHeader(r, p, f.comps, f.frame, f.written, n);
  }

  lemma LatchedNext(f: File, frame: FrameInfo, p: Params, n: nat, latched: seq<Option<seq<UInt16>>>, latched': seq<Option<seq<UInt16>>>)
    requires ImageFits(f) && n < |f.scans| && EachOnce(|f.frame.comps|, f.scans) && Latched(f, latched, n) && frame == f.frame
    requires |p.quant| == NUM_QUANT_TBLS && forall c :: 0 <= c < |f.comps| ==> p.quant[f.comps[c].quantTbl] == Some(f.quants[c])
    ensures |latched| == |frame.comps| && forall i :: 0 <= i < |f.scans[n].comps| ==> f.scans[n].comps[i] < |latched|
    ensures forall i :: 0 <= i < |f.scans[n].comps| ==> HasQuant(p, frame.comps[f.scans[n].comps[i]].quantTbl)
    ensures |latched'| == |latched| && (forall c :: 0 <= c < |latched| ==>
              latched'[c] == if c in f.scans[n].comps && latched[c].None? then p.quant[frame.comps[c].quantTbl] else latched[c]) ==>
              Latched(f, latched', n + 1)
  {
    hide ImageOk, Total, HuffmanScansOk;
    assert Described(ImageOf(f.frame), f.order, f.comps, f.scans[n]);
    assert forall c :: HuffmanImage.Sent(f.scans, n + 1, c) <==> HuffmanImage.Sent(f.scans, n, c) || c in f.scans[n].comps;
  }

  // The scan as its header describes it is the one that was sent.
  lemma SameScan(f: File, n: nat, order: seq<nat>, h: ScanHeader, restartInterval: nat)
    requires ImageFits(f) && n < |f.scans| && order == f.order && restartInterval == f.scans[n].scan.restartInterval
    requires SpecFits(f.comps, SpecOf(f.scans[n].comps)) ==> h == Header(f.comps, SpecOf(f.scans[n].comps))
    ensures SpecFits(f.comps, SpecOf(f.scans[n].comps)) && HuffmanScanOk(ImageOf(f.frame), f.scans[n].scan, f.scans[n].comps)
    ensures ScanComps(ImageOf(f.frame), h.comps) && |h.dcTbl| == |h.acTbl| == |h.comps| && h.comps == f.scans[n].comps
    ensures ScanOf(ImageOf(f.frame), order, h, restartInterval) == f.scans[n].scan
  {
    hide ImageOk, Total, Membership, ScanComps, HuffmanScanOk;
    assert Described(ImageOf(f.frame), f.order, f.comps, f.scans[n]);
  }

  // start_input_pass, the data, and finish_input_pass: with what has been written, there is no error.
  method ReceiveFileScan(r: MarkerReader, h: ScanHeader, size: Image, planes: array<Block>, latched: seq<Option<seq<UInt16>>>,
                         available: seq<nat>, wideDecoder: bool, ghost p: Params, ghost f: File, ghost n: nat)
    returns (latched': seq<Option<seq<UInt16>>>)
    requires AtScan(r, p, f, n, ReachedSos(h)) && n < |f.scans| && ComponentsFound(f.scans[n].comps)
    requires size == ImageOf(f.frame) && planes.Length == Total(size) && available == f.scans[n].available
    requires Progress(size, f.dct, planes[..], f.scans, n) && Latched(f, latched, n)
    modifies r, planes
    ensures Reading(r, p, f.comps, f.frame, f.written, n + 1)
    ensures Progress(size, f.dct, planes[..], f.scans, n + 1) && Latched(f, latched', n + 1)
  {
    hide OrderOk, OrderFits, ImageFits, ScansFit, AllLinked, DistinctIds, ComponentsFound, Header, AllHeld, Reading, ParamsShape, ImageOk,
      Total, HuffmanScansOk, HuffmanScanOk, Progress, Latched, EachOnce, ScanSent, ScanBytes, Described, HuffmanOptimize.Shared,
      BothDerivable, BothShaped, Derived, HuffmanBlock.TablesMatch, BothFit, Rebuilt, SameEncoders, FileFrom, SpecFits;
    assert ScanHeld(f, n);
    ghost var x, v, next := f.scans[n], f.written[n], FileFrom(f.order, f.comps, f.frame, f.written, n + 1);
    var ok, decoders;
    LatchedNext(f, r.cinfo.frame.value, r.cinfo, n, latched, latched);
    SameScan(f, n, r.order, h, r.cinfo.restartInterval);
    AllDerivable(r.cinfo, h, f.made[n]);
    ok, latched' := LatchQuants(r.cinfo, r.cinfo.frame.value, h.comps, latched);
    LatchedNext(f, r.cinfo.frame.value, r.cinfo, n, latched, latched');
    ok, decoders := DeriveTables(r.cinfo, h);
    RebuiltMatch(r.cinfo, h, f.made[n], decoders);
    ghost var tables := Rebuilt(f.made[n], decoders);
    SentAlike(size, x.scan, x.comps, f.dct, f.made[n], tables, f.segments[n]);
    FileStarts(f.order, f.comps, f.frame, f.written, n + 1);
    assert [0xFF, next[1]] + next[2..] == next;
    var s := ScanOf(size, r.order, h, r.cinfo.restartInterval);
    var unread, rest := ReceiveNext(size, HuffmanScan(h.comps, s, available), decoders, planes, r.rest, wideDecoder, f.dct, f.scans, n,
                                    tables, f.segments[n], next[1], next[2..]);
    r.unreadMarker, r.rest := unread, rest;
    BehindData(r, p, f.comps, f.frame, f.written, n);
  }

  // ----- Files -----

  // Before the first scan nothing has arrived.
  lemma NothingReceived(f: File, planes: seq<Block>)
    requires ImageFits(f) && |planes| == Total(ImageOf(f.frame)) && forall r :: 0 <= r < |planes| ==> planes[r] == DcOnly(0)
    ensures Progress(ImageOf(f.frame), f.dct, planes, f.scans, 0)
  {
    hide ImageOk, Total, InPlane, RowOf, HuffmanScansOk, Described;
    var img := ImageOf(f.frame);
    forall p | InPlane(img, p)
      ensures ClearedAt(img, planes, p)
    {
      RowInside(img, p);
    }
    NoProgress(img, f.dct, planes, f.scans);
  }

  // With a file whose scans have all been read, all components have been latched.
  lemma AllLatched(f: File, latched: seq<Option<seq<UInt16>>>)
    requires ImageFits(f) && EachOnce(|f.frame.comps|, f.scans) && Latched(f, latched, |f.scans|)
    ensures |latched| == |f.quants| && forall c :: 0 <= c < |latched| ==> latched[c] == Some(f.quants[c])
  {
  }

  // Reading a whole file, where available says how many bytes the source has for each MCU of each scan:
  // it is refused just if a limit of initial_setup is exceeded or a scan has a component that the reader
  // does not find.
  method DecompressFile(r: MarkerReader, available: seq<seq<nat>>, wideDecoder: bool, ghost p: Params, ghost f: File)
    returns (ok: bool, size: Image, latched: seq<Option<seq<UInt16>>>, blocks: seq<Block>)
    requires r.Valid() && !r.sawSOI && r.unreadMarker == 0 && r.discardedBytes == 0 && p == Reset(r.cinfo) && r.order == f.order
    requires FileWritten(f, p, r.rest) && |available| == |f.scans|
    requires forall n :: 0 <= n < |f.scans| ==> available[n] == f.scans[n].available
    modifies r
    ensures ok <==> SetupOk(f.frame.height, f.frame.width, f.frame.precision)
                    && forall n :: 0 <= n < |f.scans| ==> ComponentsFound(f.scans[n].comps)
    ensures ok ==> size == ImageOf(f.frame) && ImageOk(size) && |blocks| == |f.dct| == Total(size) && SameBlocks(size, f.dct, blocks)
    ensures ok ==> |latched| == |f.quants| && forall c :: 0 <= c < |latched| ==> latched[c] == Some(f.quants[c])
  {
    hide OrderOk, OrderFits, ScansFit, AllLinked, DistinctIds, ComponentsFound, Header, Reading, ParamsShape, ImageOk, Total,
      HuffmanScansOk, HuffmanScanOk, Progress, Latched, EachOnce, Described, FileFrom, ScanHeld, AllScans, AtData, SameBlocks;
    ok, size, latched, blocks := false, Image(0, 0, []), [], [];
    WholeFile(f.order, f.comps, f.frame, f.written);
    StartOfFile(r, p, f);
    var result := ReadNext(r, p, f, 0);
    if !result.ReachedSos? {
      return;
    }
    FrameRead(r, p, f, 0, result);
    var frame := r.cinfo.frame.value;
    if !SetupOk(frame.height, frame.width, frame.precision) {
      return;
    }
    size := ImageOf(frame);
    latched := seq(|frame.comps|, _ => None);
    var planes := new Block[Total(size)](_ => DcOnly(0));
    NothingReceived(f, planes[..]);
    NoneLatched(f, latched);
    var n := 0;
    while result.ReachedSos?
      invariant n <= |f.scans| && AtScan(r, p, f, n, result) && Latched(f, latched, n)
      invariant Progress(size, f.dct, planes[..], f.scans, n) && forall m :: 0 <= m < n ==> ComponentsFound(f.scans[m].comps)
      decreases |f.scans| - n
    {
      latched := ReceiveFileScan(r, result.header, size, planes, latched, available[n], wideDecoder, p, f, n);
      n := n + 1;
      result := ReadNext(r, p, f, n);
    }
    if result.ReachedEoi? {
      AllArrived(size, f.dct, planes[..], f.scans);
      AllLatched(f, latched);
      ok, blocks := true, planes[..];
    }
  }

  lemma NoneLatched(f: File, latched: seq<Option<seq<UInt16>>>)
    requires ImageFits(f) && |latched| == |f.frame.comps| && forall c :: 0 <= c < |latched| ==> latched[c] == None
    ensures Latched(f, latched, 0)
  {
  }

  lemma StartOfFile(r: MarkerReader, p: Params, f: File)
    requires r.Valid() && !r.sawSOI && r.unreadMarker == 0 && r.discardedBytes == 0 && p == Reset(r.cinfo) && r.order == f.order
    requires Complete(f, p) && r.rest == [0xFF, SOI] + FileFrom(f.order, f.comps, f.frame, f.written, 0)
    ensures Reading(r, p, f.comps, f.frame, f.written, 0)
  {
    hide OrderOk, OrderFits, ScansFit, AllLinked, DistinctIds, ParamsShape, ImageFits, ScansAsked, ScanHeld, FileFrom;
  }

  lemma FrameRead(r: MarkerReader, p: Params, f: File, n: nat, result: ReadResult)
    requires AtScan(r, p, f, n, result) && result.ReachedSos?
    ensures n < |f.scans| && r.cinfo.frame == Some(f.frame)
  {
    hide OrderOk, OrderFits, ScansFit, AllLinked, DistinctIds, ParamsShape, ImageFits, ScansAsked, FileFrom, Header, ComponentsFound,
      AllHeld, ScanWritten;
    assert ScanHeld(f, n);
  }

  // The reader finds a scan's components just if they are among the first four of the frame.
  lemma AllFoundExactly(img: Image, order: seq<nat>, comps: seq<Comp>, dct: seq<Block>, xs: seq<HuffmanScan>)
    requires ScansAsked(img, order, comps, dct, xs)
    ensures forall n :: 0 <= n < |xs| ==> |xs[n].comps| > 0 && (ComponentsFound(xs[n].comps) <==> LastComp(xs[n]) < MAX_COMPS_IN_SCAN)
  {
    hide ImageOk, Total, HuffmanScansOk, EachOnce, ComponentsFound, SpecFits;
    forall n | 0 <= n < |xs|
      ensures |xs[n].comps| > 0 && (ComponentsFound(xs[n].comps) <==> LastComp(xs[n]) < MAX_COMPS_IN_SCAN)
    {
      DescribedSpec(img, order, comps, xs[n]);
      SomeComps(img, order, comps, xs[n]);
      FoundExactly(comps, SpecOf(xs[n].comps));
    }
  }

  function LastComp(x: HuffmanScan): nat {
    if x.comps == [] then 0 else x.comps[|x.comps| - 1]
  }

  lemma SomeComps(img: Image, order: seq<nat>, comps: seq<Comp>, x: HuffmanScan)
    requires ImageOk(img) && Described(img, order, comps, x)
    ensures |x.comps| > 0
  {
  }

  // A whole image through a file, in bytes: if it comes back at all, it has its size, the quantization
  // table of every component, and every block. It does come back unless a limit is exceeded, a table is
  // missing, a scan is refused, a scan has a component beyond the fourth, or the flush of a word of 64 bits
  // loses bits; made are the tables of the scans up to the one where this happens.
  method TransmitFile(w: MarkerWriter, r: MarkerReader, apps: seq<MarkerSegment>, dct: seq<Block>, xs: seq<HuffmanScan>,
                      given: seq<Block>, space: nat, wideEncoder: bool, wideDecoder: bool)
    returns (ok: bool, made: seq<seq<HuffmanBlock.Tables>>, size: Image, quants: seq<Option<seq<UInt16>>>, blocks: seq<Block>)
    requires w.Valid() && w.out == [] && r.Valid() && r.order == w.order && InStep(w.tables, 0, Reset(r.cinfo)) && Applications(apps)
    requires r.cinfo.frame.None? && !r.sawSOI && r.unreadMarker == 0 && r.discardedBytes == 0
    requires !w.arithCode && !w.progressive && ScansAsked(PictureOf(w), w.order, w.comps, dct, xs)
    requires |given| == |dct| && 0 < space
    modifies w, r
    ensures ok ==> size == PictureOf(w) && |blocks| == |dct| && SameBlocks(PictureOf(w), dct, blocks)
    ensures ok ==> QuantsDefined(old(w.tables), w.comps, |w.comps|) && |quants| == |w.comps| && forall c :: 0 <= c < |w.comps| ==>
              quants[c] == Some(old(w.tables).quant[w.comps[c].quantTbl].value.table)
    ensures ok ==> SetupOk(w.height, w.width, w.precision) && forall n :: 0 <= n < |xs| ==> LastComp(xs[n]) < MAX_COMPS_IN_SCAN
    ensures |made| <= |xs| && (ok ==> |made| == |xs| && AllKept(PictureOf(w), dct, xs, made, wideEncoder, |made|))
    ensures forall n :: 0 <= n < |made| ==> HasCodes(PictureOf(w), xs[n].scan, xs[n].comps, dct, made[n])
    ensures SetupOk(w.height, w.width, w.precision) && QuantsDefined(old(w.tables), w.comps, |w.comps|)
            && (forall n :: 0 <= n < |xs| ==> LastComp(xs[n]) < MAX_COMPS_IN_SCAN) && AllTransmittable(PictureOf(w), dct, xs) ==>
              && (ok <==> AllKept(PictureOf(w), dct, xs, made, wideEncoder, |made|))
              && ((forall n :: 0 <= n < |made| ==> HuffmanRoundTrip.ShortEnds(made[n])) ==> ok)
  {
    hide OrderOk, OrderFits, ImageOk, HuffmanScanOk, Total, TablesShape, ParamsShape, InStep, Described, MarkerWriter.Frame, CompsFit,
      EachOnce, HasCodes, AllKept, Transmittable, HuffmanRoundTrip.ShortEnds, AllTransmittable, SameBlocks, Complete,
      ComponentsFound, AllScans, HuffmanScansOk, ImageFits;
    size, quants, blocks := Image(0, 0, []), [], [];
    ghost var p, f;
    p := Reset(r.cinfo);
    AllFoundExactly(PictureOf(w), w.order, w.comps, dct, xs);
    ok, made, f := CompressFile(w, apps, dct, xs, given, space, wideEncoder, p);
    if ok {
      FrameOfWriter(w);
      r.rest := w.out;
      var available := seq(|xs|, n requires 0 <= n < |xs| => xs[n].available);
      ok, size, quants, blocks := DecompressFile(r, available, wideDecoder, p, f);
    }
  }

  // No scan is refused for ordinary coefficients, if the image is not too large for the tables and no MCU
  // has too many blocks.
  lemma OrdinaryTransmittable(img: Image, dct: seq<Block>, xs: seq<HuffmanScan>)
    requires ImageOk(img) && HuffmanScansOk(img, xs) && |dct| == Total(img)
    requires HuffmanScript.AllOrdinary(img, dct) && HuffmanScript.Moderate(img)
    requires forall n :: 0 <= n < |xs| ==> |xs[n].scan.membership| <= MAX_BLOCKS_IN_MCU
    ensures AllTransmittable(img, dct, xs)
  {
    hide ImageOk, HuffmanScanOk, Total, McuCount, ScanAcceptable, HuffmanSegments.BlocksIn, HuffmanScript.AllOrdinary,
      HuffmanScript.Moderate;
    forall n | 0 <= n < |xs|
      ensures Transmittable(img, dct, xs[n])
    {
      HuffmanScript.SequentialTransmittable(img, dct, xs[n]);
    }
  }

  lemma FrameOfWriter(w: MarkerWriter)
    requires CompsFit(w.comps, w.arithCode) && w.height <= 65535 && w.width <= 65535
    ensures var f := w.Frame();
            f.height == w.height && f.width == w.width && f.precision == w.precision && ImageOf(f) == PictureOf(w)
  {
    SamePicture(w);
  }
}
