// Whole progressive images through the coefficient controllers and the Huffman coder, scan by scan.
module HuffmanProgression {
  import opened ArithInterval
  import opened ArithScan
  import opened PointTransform
  import opened ArithSegments
  import opened ArithImage
  import opened ArithProgression
  import opened Geometry
  import opened McuPlaces
  import opened McuPadding
  import opened McuPlanes
  import opened McuWriter
  import opened ImageRoundTrip
  import HuffmanMerge
  import opened HuffmanSegments
  import opened HuffmanStatistics
  import opened HuffmanOptimize
  import opened HuffmanImage
  import PhuffDc
  import opened PhuffDcScan
  import PhuffBlocks
  import PhuffScan
  import PhuffCount

  // ----- One pass -----

  // The scan uses table numbers that there are, and its components have blocks.
  ghost predicate HuffmanPassOk(s: Scan) {
    && ScanOk(s) && s.progressive
    && forall c :: 0 <= c < |s.comps| ==> s.comps[c].dcTbl < NUM_HUFF_TBLS && s.comps[c].acTbl < NUM_HUFF_TBLS && c in s.membership
  }

  lemma DcMcus(s: Scan, mcus: seq<seq<Block>>)
    requires HuffmanPassOk(s) && s.Ss == 0 && McusOk(s, mcus) && 0 < |mcus|
    ensures 0 < |s.membership| && |Flatten<Block>(mcus)| == BlocksIn(|s.membership|, |mcus|)
    ensures PhuffDc.BlocksFit(s, BlockComps(s.membership, |mcus|), Flatten<Block>(mcus))
    ensures forall c :: 0 <= c < |s.comps| ==> c in BlockComps(s.membership, |mcus|)
  {
    hide OrderOk, BlocksIn, Flatten, BlockComps;
    FlattenSize(mcus, |s.membership|);
    assert 0 in s.membership;
    CompsServe(s.membership, |mcus|, |s.comps|);
  }

  lemma AcMcus(s: Scan, mcus: seq<seq<Block>>)
    requires HuffmanPassOk(s) && s.Ss != 0 && McusOk(s, mcus) && 0 < |mcus|
    ensures PhuffBlocks.AcScan(s) && 0 < |Flatten<Block>(mcus)| == BlocksIn(|s.membership|, |mcus|)
  {
    hide OrderOk, Flatten;
    OrderLength(s.order);
    FlattenSize(mcus, |s.membership|);
  }

  // No coefficient and no DC difference has too many bits.
  ghost predicate PassAcceptable(s: Scan, mcus: seq<seq<Block>>)
    requires HuffmanPassOk(s) && McusOk(s, mcus) && 0 < |mcus|
  {
    if s.Ss == 0 then
      DcMcus(s, mcus);
      PhuffDc.AllAccepted(s, BlockComps(s.membership, |mcus|), Flatten<Block>(mcus), 0, StartState(s, |s.comps|))
    else PhuffScan.Acceptable(s, Flatten<Block>(mcus))
  }

  // The rows of a pass hold what its scan starts from.
  lemma RowsStart(order: seq<nat>, compOf: seq<nat>, orig: seq<Block>, planes: seq<Block>, passes: seq<Pass>, n: nat)
    requires OrderOk(order) && |compOf| == |orig| == |planes| && n < |passes| && Legal(passes)
    requires PassOk(order, compOf, passes[n]) && Holds(order, compOf, orig, planes, passes, n)
    ensures var s, layout := passes[n].scan, passes[n].layout;
            PhuffScan.RowsKnown(s, Flatten<Block>(McusOf(s, orig, layout)), Flatten<nat>(layout), planes)
  {
    hide OrderOk, TablesOk, ProgressionOk, Legal, Holds, Flatten, BandKnown, DistinctLayout, DistinctRows;
    var s, layout := passes[n].scan, passes[n].layout;
    var mcus := McusOf(s, orig, layout);
    FlattenSizes(mcus, layout);
    FlattenDistinct(layout);
    forall x: nat | x < |Flatten<nat>(layout)|
      ensures Flatten<nat>(layout)[x] < |planes| && BandKnown(s, Flatten<Block>(mcus)[x], planes[Flatten<nat>(layout)[x]])
    {
      var i, k := FlattenAlike(mcus, layout, x);
      assert layout[i][k] in layout[i];
      RowKnown(order, compOf, orig, planes, passes, n, layout[i][k]);
    }
  }

  // What has been decoded has been done to the rows of the pass.
  lemma DecodedRow(s: Scan, orig: seq<Block>, layout: seq<seq<nat>>, was: seq<Block>, now: seq<Block>, r: nat)
    requires ScanOk(s) && LayoutOk(s, layout, |orig|) && |orig| == |was| && r < |orig|
    requires var blocks := Flatten<Block>(McusOf(s, orig, layout));
             PhuffScan.Decoded(s, blocks, Flatten<nat>(layout), |blocks|, was, now)
    ensures |now| == |was| && now[r] == if InMcus(layout, |layout|, r) then BlockResult(s, orig[r], was[r]) else was[r]
  {
    hide OrderOk, TablesOk, ProgressionOk, Flatten, BlockResult;
    var mcus, rows := McusOf(s, orig, layout), Flatten<nat>(layout);
    FlattenSizes(mcus, layout);
    FlattenContents(layout, r);
    assert rows[..|rows|] == rows;
    if InMcus(layout, |layout|, r) {
      var x :| 0 <= x < |rows| && rows[x] == r;
      var i, k := FlattenAlike(mcus, layout, x);
    }
  }

  // The number of blocks of a scan is within what the table generator can count.
  predicate FewBlocks(blocks: nat) {
    DCTSIZE2 * blocks <= HuffmanMerge.SEARCH_LIMIT
  }

  // A pass, with statistics, generated tables, output and decoding: refused just if a coefficient has too
  // many bits; otherwise its bits are known.
  method CodePass(order: seq<nat>, pass: Pass, mcus: seq<seq<Block>>, planes: array<Block>, wide: bool, wideDecoder: bool,
                  marker: Byte, follow: seq<Byte>, ghost compOf: seq<nat>, ghost passes: seq<Pass>, ghost n: nat,
                  ghost orig: seq<Block>)
    returns (outcome: Outcome)
    requires OrderOk(order) && |compOf| == |orig| == planes.Length && Legal(passes) && n < |passes| && PaddingOk(compOf, orig)
    requires pass == passes[n] && PassOk(order, compOf, pass) && mcus == McusOf(pass.scan, orig, pass.layout)
    requires HuffmanPassOk(pass.scan) && 0 < |mcus| && FewBlocks(BlocksIn(|pass.scan.membership|, |mcus|))
    requires Holds(order, compOf, orig, planes[..], passes, n) && marker != 0 && marker != 0xFF
    modifies planes
    ensures outcome == BadCoefficient <==> !PassAcceptable(pass.scan, mcus)
    ensures DCTSIZE2 * BlocksIn(|pass.scan.membership|, |mcus|) < 9227464 ==> outcome != CodeTooLong
    ensures outcome == Written ==> Holds(order, compOf, orig, planes[..], passes, n + 1)
    ensures outcome != Written ==> planes[..] == old(planes[..])
  {
    hide OrderOk, ScanOk, LayoutOk, DistinctLayout, BlockResult, InMcus, Legal, Holds, Bits, Flatten, BlockComps, BlocksIn,
      PhuffDc.BlocksFit, PhuffDc.AllAccepted, PhuffScan.Acceptable, PhuffScan.RowsKnown, PhuffScan.Decoded, PaddingOk;
    var s, blocks, rows := pass.scan, Flatten<Block>(mcus), Flatten<nat>(pass.layout);
    ghost var was := planes[..];
    RowsStart(order, compOf, orig, was, passes, n);
    if s.Ss == 0 {
      DcMcus(s, mcus);
      var out, warnings, counts, made;
      ghost var bytes;
      outcome, out, warnings, counts, made, bytes :=
        OptimizedDcScan(s, BlockComps(s.membership, |mcus|), blocks, rows, planes, |mcus|, wide, wideDecoder, marker, follow);
    } else {
      AcMcus(s, mcus);
      if PhuffScan.Acceptable(s, blocks) {
        PhuffCount.ScanCount(s, blocks);
      }
      var out, warnings, counts, m;
      ghost var bytes;
      outcome, out, warnings, counts, m, bytes :=
        PhuffScan.OptimizedScan(s, blocks, rows, planes, wide, wideDecoder, marker, follow);
    }
    if outcome == Written {
      ScanIsOk(order, compOf, pass);
      forall r: nat | r < |orig|
        ensures planes[r] == if InMcus(pass.layout, |pass.layout|, r) then BlockResult(s, orig[r], was[r]) else was[r]
      {
        DecodedRow(s, orig, pass.layout, was, planes[..], r);
      }
      PassDone(order, compOf, orig, was, planes[..], passes, n);
    }
  }

  lemma ScanIsOk(order: seq<nat>, compOf: seq<nat>, pass: Pass)
    requires PassOk(order, compOf, pass)
    ensures ScanOk(pass.scan) && LayoutOk(pass.scan, pass.layout, |compOf|)
  {
    hide ScanOk, LayoutOk;
  }

  // ----- Images -----

  ghost predicate HuffmanImageScanOk(img: Image, order: seq<nat>, x: ImageScan)
    requires ImageOk(img)
  {
    && ImageScanOk(img, order, x) && x.scan.progressive
    && (forall c :: 0 <= c < |x.scan.comps| ==> x.scan.comps[c].dcTbl < NUM_HUFF_TBLS && x.scan.comps[c].acTbl < NUM_HUFF_TBLS)
    && FewBlocks(BlocksIn(|x.scan.membership|, McuCount(img, x.comps)))
  }

  // The MCUs are such as a pass takes.
  lemma McusServe(img: Image, order: seq<nat>, x: ImageScan, dct: seq<Block>)
    requires ImageOk(img) && HuffmanImageScanOk(img, order, x) && |dct| == Total(img)
    ensures HuffmanPassOk(x.scan) && McusOk(x.scan, Mcus(img, x.comps, dct)) && 0 < |Mcus(img, x.comps, dct)| == McuCount(img, x.comps)
  {
    hide ImageOk, ScanComps, OrderOk, TablesOk, ProgressionOk, Total, McuCount, PlacesOf, Layout, Membership;
    McuSizes(img, x.comps, dct);
    MembersAll(img, x.comps, |x.comps|);
    McusMany(img, x.comps, dct);
  }

  lemma McusMany(img: Image, comps: seq<nat>, dct: seq<Block>)
    requires ImageOk(img) && ScanComps(img, comps) && |dct| == Total(img)
    ensures |Mcus(img, comps, dct)| == McuCount(img, comps)
  {
    hide ImageOk, ScanComps, McuCount;
  }

  // No coefficient of the image and no DC difference of the scan has too many bits.
  ghost predicate Codable(img: Image, order: seq<nat>, x: ImageScan, dct: seq<Block>)
    requires ImageOk(img) && HuffmanImageScanOk(img, order, x) && |dct| == Total(img)
  {
    McusServe(img, order, x, dct);
    PassAcceptable(x.scan, Mcus(img, x.comps, dct))
  }

  // The MCUs of a scan, for the statistics pass and for the output pass; a refinement of DC values needs
  // no statistics.
  method SendPasses(coef: CoefController, mode: PassMode, s: Scan, comps: seq<nat>, space: nat)
    returns (fits: bool, sent: seq<seq<Block>>)
    requires ImageOk(coef.img) && ScanComps(coef.img, comps) && 0 < space
    requires |coef.dct| == coef.wholeImage.Length == Total(coef.img) && coef.workspace.Length == MAX_BLOCKS_IN_MCU
    requires coef.wholeImage != coef.workspace && (mode == SaveAndPass || (mode == CrankDest && AllLoaded(coef)))
    modifies coef, coef.wholeImage, coef.workspace
    ensures fits <==> |Membership(coef.img, comps, |comps|)| <= MAX_BLOCKS_IN_MCU
    ensures fits ==> AllLoaded(coef) && sent == Mcus(coef.img, comps, coef.dct)
    ensures mode == CrankDest ==> coef.wholeImage[..] == old(coef.wholeImage[..])
  {
    hide ImageOk, ScanComps, Total, McuCount, Mcus, Loaded, Limits, ImcuRows, Membership, Steady, Calls;
    fits, sent := SendScan(coef, mode, comps, Calls(coef.img, comps, space));
    if fits && (s.Ss != 0 || s.Ah == 0) {
      ghost var first := sent;
      fits, sent := SendScan(coef, CrankDest, comps, Calls(coef.img, comps, space));
      assert sent == first;
    }
  }

  // One scan: sent by the coefficient controller in its passes, coded, and decoded
  method TransmitScan(coef: CoefController, order: seq<nat>, xs: seq<ImageScan>, n: nat, planes: array<Block>, space: nat, wide: bool,
                      wideDecoder: bool, marker: Byte, follow: seq<Byte>, ghost whole: seq<Block>)
    returns (fits: bool, outcome: Outcome, ghost whole': seq<Block>)
    requires ImageOk(coef.img) && OrderOk(order) && n < |xs| && ImageScansOk(coef.img, order, xs) && 0 < space
    requires |coef.dct| == coef.wholeImage.Length == planes.Length == Total(coef.img) && coef.workspace.Length == MAX_BLOCKS_IN_MCU
    requires coef.wholeImage != coef.workspace && planes != coef.wholeImage && planes != coef.workspace
    requires HuffmanImageScanOk(coef.img, order, xs[n]) && Legal(Passes(coef.img, order, xs)) && marker != 0 && marker != 0xFF
    requires Between(coef, order, xs, n, planes[..], whole)
    modifies coef, coef.wholeImage, coef.workspace, planes
    ensures fits <==> |xs[n].scan.membership| <= MAX_BLOCKS_IN_MCU
    ensures fits ==> (outcome == BadCoefficient <==> !Codable(coef.img, order, xs[n], coef.dct))
    ensures DCTSIZE2 * BlocksIn(|xs[n].scan.membership|, McuCount(coef.img, xs[n].comps)) < 9227464 ==> outcome != CodeTooLong
    ensures fits && outcome == Written ==> Between(coef, order, xs, n + 1, planes[..], whole')
  {
    hide ImageOk, OrderOk, ScanOk, ScanComps, Legal, Total, Loaded, Limits, ImcuRows, Components, Holds, PassOk, Mcus, Membership,
      Layout, PaddingOk, McusOk, McuCount, BlocksIn, HuffmanPassOk, PassAcceptable;
    outcome, whole' := BadCoefficient, whole;
    var sent;
    fits, sent := SendPasses(coef, if n == 0 then SaveAndPass else CrankDest, xs[n].scan, xs[n].comps, space);
    if fits {
      whole' := coef.wholeImage[..];
      LoadedBlocks(coef.img, coef.dct, whole');
      LayoutServes(coef.img, order, xs[n]);
      SentByLayout(coef.img, xs[n].scan, xs[n].comps, coef.dct, whole');
      McusServe(coef.img, order, xs[n], coef.dct);
      ghost var passes := Passes(coef.img, order, xs);
      if n == 0 {
        NothingHeld(order, Components(coef.img), whole', planes[..], passes);
      }
      outcome := CodePass(order, PassOf(coef.img, xs[n]), sent, planes, wide, wideDecoder, marker, follow, Components(coef.img), passes,
                          n, whole');
    }
  }

  // The scan is certainly not refused.
  ghost predicate Transmittable(img: Image, order: seq<nat>, x: ImageScan, dct: seq<Block>)
    requires ImageOk(img) && HuffmanImageScanOk(img, order, x) && |dct| == Total(img)
  {
    && |x.scan.membership| <= MAX_BLOCKS_IN_MCU && Codable(img, order, x, dct)
    && DCTSIZE2 * BlocksIn(|x.scan.membership|, McuCount(img, x.comps)) < 9227464
  }

  // A whole progressive image: unless it is refused, all its blocks have exactly the bits that have been sent.
  method TransmitImage(img: Image, order: seq<nat>, dct: seq<Block>, xs: seq<ImageScan>, planes: array<Block>, space: nat, wide: bool,
                       wideDecoder: bool, marker: Byte, follow: seq<Byte>)
    returns (ok: bool)
    requires ImageOk(img) && OrderOk(order) && |dct| == planes.Length == Total(img) && 0 < |xs| && 0 < space
    requires ImageScansOk(img, order, xs) && Legal(Passes(img, order, xs)) && NoneReceived(planes[..])
    requires forall n :: 0 <= n < |xs| ==> HuffmanImageScanOk(img, order, xs[n])
    requires marker != 0 && marker != 0xFF
    modifies planes
    ensures (forall n :: 0 <= n < |xs| ==> Transmittable(img, order, xs[n], dct)) ==> ok
    ensures ok ==> forall n :: 0 <= n < |xs| ==>
              |xs[n].scan.membership| <= MAX_BLOCKS_IN_MCU && Codable(img, order, xs[n], dct)
    ensures ok ==> Received(img, order, dct, planes[..], Passes(img, order, xs), |xs|)
  {
    hide ImageOk, OrderOk, ScanOk, ScanComps, Legal, Total, Loaded, Limits, ImcuRows, Components, Holds, Mcus, Membership,
      Layout, Codable, McuCount, BlocksIn, NoneReceived, Received, HuffmanImageScanOk, CoefController.DummiesOk, Between;
    var coef := new CoefController(img, dct, planes[..]);
    ghost var whole := planes[..];
    BetweenStart(coef, order, xs, planes[..], whole);
    for n := 0 to |xs|
      invariant coef.img == img && coef.dct == dct && fresh(coef) && fresh(coef.wholeImage) && fresh(coef.workspace)
      invariant coef.wholeImage.Length == Total(img) && coef.workspace.Length == MAX_BLOCKS_IN_MCU && coef.wholeImage != coef.workspace
      invariant forall m :: 0 <= m < n ==> |xs[m].scan.membership| <= MAX_BLOCKS_IN_MCU && Codable(img, order, xs[m], dct)
      invariant Between(coef, order, xs, n, planes[..], whole)
    {
      var fits, outcome;
      fits, outcome, whole := TransmitScan(coef, order, xs, n, planes, space, wide, wideDecoder, marker, follow, whole);
      if !fits || outcome != Written {
        return false;
      }
    }
    ok := true;
    BetweenEnd(coef, order, xs, planes[..], whole);
  }

  lemma BetweenStart(coef: CoefController, order: seq<nat>, xs: seq<ImageScan>, planes: seq<Block>, whole: seq<Block>)
    requires ImageOk(coef.img) && OrderOk(order) && ImageScansOk(coef.img, order, xs)
    requires |coef.dct| == coef.wholeImage.Length == |planes| == Total(coef.img) && NoneReceived(planes)
    ensures Between(coef, order, xs, 0, planes, whole)
  {
    hide ImageOk, OrderOk, Total, NoneReceived;
  }

  lemma BetweenEnd(coef: CoefController, order: seq<nat>, xs: seq<ImageScan>, planes: seq<Block>, whole: seq<Block>)
    requires ImageOk(coef.img) && OrderOk(order) && ImageScansOk(coef.img, order, xs) && 0 < |xs|
    requires |coef.dct| == coef.wholeImage.Length == |planes| == Total(coef.img)
    requires Between(coef, order, xs, |xs|, planes, whole)
    ensures Received(coef.img, order, coef.dct, planes, Passes(coef.img, order, xs), |xs|)
  {
    hide ImageOk, OrderOk, Total, Loaded, Limits, ImcuRows, Components, Holds, Received, ImageScansOk;
    HoldsReceived(coef.img, order, coef.dct, whole, planes, Passes(coef.img, order, xs), |xs|);
  }
}
