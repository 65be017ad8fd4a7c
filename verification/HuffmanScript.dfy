// Progressive Huffman images with a scan script: with coefficients such as the DCT of 8-bit samples
// gives, nothing is refused for them.
module HuffmanScript {
  import opened Arithmetic
  import opened BitFields
  import opened ArithInterval
  import opened ArithScan
  import opened PointTransform
  import opened ArithProgression
  import opened Geometry
  import opened McuPlaces
  import opened McuPadding
  import opened McuWriter
  import opened ImageRoundTrip
  import opened ScanScript
  import opened ScriptRoundTrip
  import SimpleProgression
  import opened HuffmanBlock
  import opened HuffmanSegments
  import opened HuffmanStatistics
  import opened HuffmanOptimize
  import opened HuffmanRoundTrip
  import opened HuffmanImage
  import PhuffDc
  import PhuffBlocks
  import PhuffScan
  import opened HuffmanProgression

  // Coefficients of up to 11 bits with their sign
  predicate Ordinary(block: Block) {
    -1024 <= block[0] < 1024 && forall i :: 1 <= i < DCTSIZE2 ==> -1024 < block[i] < 1024
  }

  ghost predicate AllOrdinary(img: Image, dct: seq<Block>)
    requires ImageOk(img) && |dct| == Total(img)
  {
    forall p :: Real(img, p) && InPlane(img, p) ==> OrdinaryAt(img, dct, p)
  }

  ghost predicate OrdinaryAt(img: Image, dct: seq<Block>, p: Place)
    requires ImageOk(img) && |dct| == Total(img) && InPlane(img, p)
  {
    RowInside(img, p);
    Ordinary(dct[RowOf(img, p)])
  }

  // So is the padding.
  lemma OrdinaryPadded(img: Image, dct: seq<Block>, p: Place)
    requires ImageOk(img) && |dct| == Total(img) && AllOrdinary(img, dct) && InPlane(img, p)
    ensures Ordinary(Padded(img, dct, p))
  {
    hide ImageOk, Total, InPlane, Real, RowOf;
    if Real(img, p) {
      assert OrdinaryAt(img, dct, p);
    } else {
      var q := Neighbour(img, p);
      RealInPlane(img, q);
      assert OrdinaryAt(img, dct, q);
    }
  }

  lemma {:induction false} OrdinaryShift(c: int, n: nat)
    requires -1024 <= c < 1024
    ensures -1024 <= Shr(c, n) < 1024
    decreases n
  {
    if n > 0 {
      OrdinaryShift(c / 2, n - 1);
    }
  }

  lemma FewBitsOf(v: int)
    ensures Abs(v) < 1024 ==> NBits(Abs(v)) <= MAX_COEF_BITS
    ensures Abs(v) < 2048 ==> NBits(Abs(v)) <= MAX_COEF_BITS + 1
  {
    ScaleValues(1);
    if Abs(v) < 1024 {
      assert 2 * Scale(1, 10) == Scale(1, 11);
      NBitsBound(Abs(v), 10);
    }
    if Abs(v) < 2048 {
      NBitsBound(Abs(v), 11);
    }
  }

  // Differences of DC values that have been shifted have at most 11 bits.
  lemma {:induction false} DcsAccepted(s: Scan, comps: seq<nat>, blocks: seq<Block>, i: nat, d: DcState)
    requires PhuffDc.BlocksFit(s, comps, blocks) && |d.last| == |s.comps| && i <= |blocks|
    requires (forall x :: 0 <= x < |blocks| ==> Ordinary(blocks[x])) && forall c :: 0 <= c < |d.last| ==> -1024 <= d.last[c] < 1024
    ensures PhuffDc.AllAccepted(s, comps, blocks, i, d)
    decreases |blocks| - i
  {
    hide ScanOk, NBits, Shr;
    if i < |blocks| {
      OrdinaryShift(blocks[i][0], s.Al);
      FewBitsOf(DcLevel(s, blocks[i]) - Current(s, d).last[comps[i]]);
      DcsAccepted(s, comps, blocks, i + 1, Following(s, d, comps[i], PhuffDc.Leveled(s, blocks[i])));
    }
  }

  // AC values have at most 10.
  lemma AcsAccepted(s: Scan, blocks: seq<Block>)
    requires PhuffBlocks.AcScan(s) && forall x :: 0 <= x < |blocks| ==> Ordinary(blocks[x])
    ensures PhuffScan.Acceptable(s, blocks)
  {
    hide NBits, Shr;
    forall x, k | 0 <= x < |blocks| && s.Ss <= k <= s.Se
      ensures NBits(AcLevel(s, blocks[x], k, s.Al)) <= MAX_COEF_BITS
    {
      assert Ordinary(blocks[x]) && s.order[k] != s.order[0];
      ShiftDown(Abs(AtZigzag(s, blocks[x], k)), s.Al);
      FewBitsOf(AcLevel(s, blocks[x], k, s.Al));
    }
  }

  lemma {:induction false} ShiftDown(x: nat, n: nat)
    ensures 0 <= Shr(x, n) <= x
    decreases n
  {
    if n > 0 {
      ShiftDown(x / 2, n - 1);
    }
  }

  lemma OrdinaryCodable(img: Image, order: seq<nat>, x: ImageScan, dct: seq<Block>)
    requires ImageOk(img) && HuffmanImageScanOk(img, order, x) && |dct| == Total(img) && AllOrdinary(img, dct)
    ensures Codable(img, order, x, dct)
  {
    hide ImageOk, ScanComps, OrderOk, TablesOk, ProgressionOk, Total, McuCount, Membership, InPlane, Padded, Ordinary, PlacesOf,
      AllOrdinary, Flatten, PhuffDc.BlocksFit, PhuffDc.AllAccepted, PhuffScan.Acceptable, BlockComps, FewBlocks, HuffmanPassOk;
    var mcus := Mcus(img, x.comps, dct);
    McusServe(img, order, x, dct);
    forall n | 0 <= n < |Flatten<Block>(mcus)|
      ensures Ordinary(Flatten<Block>(mcus)[n])
    {
      var k, m := FlattenAlike(mcus, mcus, n);
      RowsWithin(img, x.comps, k);
      PlacesInPlane(img, x.comps, k);
      OrdinaryPadded(img, dct, PlacesOf(img, x.comps, k)[m]);
    }
    if x.scan.Ss == 0 {
      DcMcus(x.scan, mcus);
      DcsAccepted(x.scan, BlockComps(x.scan.membership, |mcus|), Flatten<Block>(mcus), 0, StartState(x.scan, |x.scan.comps|));
    } else {
      AcMcus(x.scan, mcus);
      AcsAccepted(x.scan, Flatten<Block>(mcus));
    }
  }

  // No scan has more blocks than the arrays.
  lemma ScanBounded(img: Image, comps: seq<nat>)
    requires ImageOk(img) && ScanComps(img, comps)
    ensures BlocksIn(|Membership(img, comps, |comps|)|, McuCount(img, comps)) <= Total(img)
  {
    hide ImageOk, ScanComps, Total, McuCount, PlacesOf, Membership, RowOf, InPlane, DistinctLayout, Flatten, Visited;
    var layout := Layout(img, comps);
    var rows := Flatten<nat>(layout);
    var none := seq(Total(img), _ => DcOnly(0));
    McuSizes(img, comps, none);
    McusMany(img, comps, none);
    LayoutSound(img, comps);
    FlattenSize(layout, |Membership(img, comps, |comps|)|);
    FlattenDistinct(layout);
    VisitedDistinct(rows, |rows|);
    BelowSize(Total(img));
    forall r | r in Visited(rows, |rows|)
      ensures r in Below(Total(img))
    {
      var x :| 0 <= x < |rows| && rows[x] == r;
      var i, k := FlattenAlike(layout, layout, x);
    }
    SubsetSize(Visited(rows, |rows|), Below(Total(img)));
  }

  // The image is so small that no code word gets too long.
  predicate Moderate(img: Image)
    requires ImageOk(img)
  {
    DCTSIZE2 * Total(img) < 9227464
  }

  predicate FourTables(q: Params) {
    forall c :: 0 <= c < |q.tables| ==> q.tables[c].dcTbl < NUM_HUFF_TBLS && q.tables[c].acTbl < NUM_HUFF_TBLS
  }

  // Any image of ordinary coefficients with any accepted script: it is refused just if an MCU has too many
  // blocks; otherwise all blocks have the bits that the script sends, and if that is all of them, they are
  // the original blocks.
  method TransmitScript(img: Image, q: Params, dct: seq<Block>, script: seq<ScanInfo>, xs: seq<ImageScan>, planes: array<Block>,
                        space: nat, wide: bool, wideDecoder: bool, marker: Byte, follow: seq<Byte>)
    returns (ok: bool)
    requires ImageOk(img) && ParamsOk(img, q) && FourTables(q) && |dct| == planes.Length == Total(img) && AllOrdinary(img, dct)
    requires ProgressiveScript(|img.comps|, script) && 0 < |script| && NoneReceived(planes[..]) && marker != 0 && marker != 0xFF
    requires UsableScript(|img.comps|, script) && xs == ScansFor(img, q, script) && Moderate(img) && 0 < space
    modifies planes
    ensures ok <==> forall n :: 0 <= n < |xs| ==> |xs[n].scan.membership| <= MAX_BLOCKS_IN_MCU
    ensures ImageScansOk(img, q.order, xs)
    ensures ok ==> Received(img, q.order, dct, planes[..], Passes(img, q.order, xs), |xs|)
    ensures ok && EverythingSent(|img.comps|, script) ==> SameBlocks(img, dct, planes[..])
  {
    hide ImageOk, ScanComps, ProgressiveScript, Legal, Total, Layout, AllOrdinary, NoneReceived, Received, SameBlocks, Codable,
      SimpleProgression.Codes, OrderOk, ImageScanOk, BlocksIn, McuCount, HuffmanImageScanOk, Moderate;
    ScriptLegal(img, q, script);
    forall n | 0 <= n < |xs|
      ensures HuffmanImageScanOk(img, q.order, xs[n]) && Codable(img, q.order, xs[n], dct)
      ensures ScanComps(img, xs[n].comps) && DCTSIZE2 * BlocksIn(|xs[n].scan.membership|, McuCount(img, xs[n].comps)) < 9227464
    {
      ScanServes(img, q, script, xs, n);
      OrdinaryCodable(img, q.order, xs[n], dct);
    }
    hide ScansFor;
    ok := HuffmanProgression.TransmitImage(img, q.order, dct, xs, planes, space, wide, wideDecoder, marker, follow);
    if ok && EverythingSent(|img.comps|, script) {
      EverythingReceived(img, q.order, dct, planes[..], Passes(img, q.order, xs), script);
    }
  }

  lemma ScanServes(img: Image, q: Params, script: seq<ScanInfo>, xs: seq<ImageScan>, n: nat)
    requires ImageOk(img) && ParamsOk(img, q) && FourTables(q) && UsableScript(|img.comps|, script) && n < |script|
    requires xs == ScansFor(img, q, script) && Moderate(img) && ImageScansOk(img, q.order, xs)
    ensures HuffmanImageScanOk(img, q.order, xs[n])
    ensures ScanComps(img, xs[n].comps) && DCTSIZE2 * BlocksIn(|xs[n].scan.membership|, McuCount(img, xs[n].comps)) < 9227464
  {
    hide ImageOk, ScanComps, OrderOk, BlocksIn, McuCount, Membership, Total, TablesOk, ProgressionOk;
    assert ImageScanOk(img, q.order, xs[n]);
    ScanBounded(img, xs[n].comps);
    SameComps(|img.comps|, script[n].comps);
  }

  // The recommended progression transmits every image of ordinary coefficients whose MCUs are not too big.
  method TransmitSimple(img: Image, ycc: bool, q: Params, dct: seq<Block>, planes: array<Block>, space: nat, wide: bool,
                        wideDecoder: bool, marker: Byte, follow: seq<Byte>)
    returns (ok: bool, ghost xs: seq<ImageScan>)
    requires ImageOk(img) && ParamsOk(img, q) && FourTables(q) && |dct| == planes.Length == Total(img) && AllOrdinary(img, dct)
    requires NoneReceived(planes[..]) && marker != 0 && marker != 0xFF && 0 < space
    requires Moderate(img)
    modifies planes
    ensures |xs| == SimpleProgression.ScanCount(|img.comps|, ycc)
    ensures ok <==> forall n :: 0 <= n < |xs| ==> |xs[n].scan.membership| <= MAX_BLOCKS_IN_MCU
    ensures ok ==> SameBlocks(img, dct, planes[..])
  {
    hide ScanComps, ProgressiveScript, Total, AllOrdinary, NoneReceived, Received, SameBlocks, OrderOk, ImageScanOk, BlocksIn, McuCount,
      Membership, FourTables;
    var made, p := SimpleProgression.SimpleScript(|img.comps|, ycc);
    var script := made[..];
    ScriptUsable(|img.comps|, script);
    var scans := ScansFor(img, q, script);
    ScansKnown(img, q, script);
    hide ScansFor, Moderate;
    ok := TransmitScript(img, q, dct, script, scans, planes, space, wide, wideDecoder, marker, follow);
    xs := scans;
  }

  // ----- Sequential images -----

  lemma {:induction false} SequentialAccepted(s: Scan, comps: seq<nat>, blocks: seq<Block>, i: nat, d: DcState)
    requires BlocksOk(s, comps, blocks) && |d.last| == |s.comps| && i <= |blocks|
    requires (forall x :: 0 <= x < |blocks| ==> Ordinary(blocks[x])) && forall c :: 0 <= c < |d.last| ==> -1024 <= d.last[c] < 1024
    ensures AllAcceptable(s, comps, blocks, i, d)
    decreases |blocks| - i
  {
    hide NBits;
    if i < |blocks| {
      var last := Current(s, d).last[comps[i]];
      assert Ordinary(blocks[i]);
      FewBitsOf(blocks[i][0] - last);
      forall k | 1 <= k < DCTSIZE2
        ensures NBits(Abs(AtZigzag(s, blocks[i], k))) <= MAX_COEF_BITS
      {
        assert s.order[k] != s.order[0];
        FewBitsOf(AtZigzag(s, blocks[i], k));
      }
      SequentialAccepted(s, comps, blocks, i + 1, Following(s, d, comps[i], blocks[i]));
    }
  }

  lemma SequentialTransmittable(img: Image, dct: seq<Block>, x: HuffmanScan)
    requires ImageOk(img) && HuffmanScanOk(img, x.scan, x.comps) && |dct| == Total(img) && AllOrdinary(img, dct) && Moderate(img)
    requires |x.available| == McuCount(img, x.comps)
    ensures ScanAcceptable(img, x.scan, x.comps, dct) && 63 * BlocksIn(|x.scan.membership|, |x.available|) < 9227464
  {
    hide ImageOk, ScanComps, ScanOk, Total, McuCount, Membership, InPlane, Padded, Ordinary, PlacesOf, AllOrdinary, Flatten, BlocksOk,
      AllAcceptable, BlockComps, BlocksIn;
    var mcus := Mcus(img, x.comps, dct);
    ScanBounded(img, x.comps);
    BlocksServe(img, x.scan, x.comps, dct);
    forall n | 0 <= n < |Flatten<Block>(mcus)|
      ensures Ordinary(Flatten<Block>(mcus)[n])
    {
      var k, m := FlattenAlike(mcus, mcus, n);
      PlacesInPlane(img, x.comps, k);
      OrdinaryPadded(img, dct, PlacesOf(img, x.comps, k)[m]);
    }
    SequentialAccepted(x.scan, BlockComps(x.scan.membership, McuCount(img, x.comps)), Flatten<Block>(mcus), 0,
      StartState(x.scan, |x.scan.comps|));
  }

  // A sequential image of ordinary coefficients comes back, too, unless an MCU has too many blocks or a
  // flush of a word of 64 bits loses bits: with words of 32 bits none does, nor with tables whose codes
  // for the end of a block are short.
  method TransmitSequential(img: Image, dct: seq<Block>, xs: seq<HuffmanScan>, planes: array<Block>, space: nat, wideEncoder: bool,
                            wideDecoder: bool, marker: Byte, follow: seq<Byte>)
    returns (ok: bool, made: seq<seq<Tables>>)
    requires ImageOk(img) && |dct| == planes.Length == Total(img) && 0 < |xs| && HuffmanScansOk(img, xs)
    requires EachOnce(|img.comps|, xs) && marker != 0 && marker != 0xFF && 0 < space && AllOrdinary(img, dct) && Moderate(img)
    requires forall p :: InPlane(img, p) ==> ClearedAt(img, planes[..], p)
    modifies planes
    ensures ok ==> SameBlocks(img, dct, planes[..]) && forall n :: 0 <= n < |xs| ==> |xs[n].scan.membership| <= MAX_BLOCKS_IN_MCU
    ensures |made| <= |xs| && forall n :: 0 <= n < |made| ==> HasCodes(img, xs[n].scan, xs[n].comps, dct, made[n])
    ensures (forall n :: 0 <= n < |xs| ==> |xs[n].scan.membership| <= MAX_BLOCKS_IN_MCU) ==>
              && (!wideEncoder ==> ok) && (ok <==> AllKept(img, dct, xs, made, wideEncoder, |made|))
              && ((forall n :: 0 <= n < |made| ==> ShortEnds(made[n])) ==> ok)
  {
    hide ImageOk, HuffmanScanOk, Total, McuCount, InPlane, ClearedAt, EachOnce, ScanAcceptable, SameBlocks, BlocksIn, AllOrdinary,
        Moderate, HasCodes, FlushesKeep, ShortEnds;
    forall n | 0 <= n < |xs| && |xs[n].scan.membership| <= MAX_BLOCKS_IN_MCU
      ensures HuffmanImage.Transmittable(img, dct, xs[n])
    {
      SequentialTransmittable(img, dct, xs[n]);
    }
    ok, made := HuffmanImage.TransmitImage(img, dct, xs, planes, space, wideEncoder, wideDecoder, marker, follow);
  }
}
