// Whole images through the coefficient controllers and the arithmetic coder, scan by scan.
module ImageRoundTrip {
  import opened ArithInterval
  import opened ArithScan
  import opened PointTransform
  import opened ArithSegments
  import opened ArithImage
  import opened ArithProgression
  import opened Geometry
  import opened McuPlaces
  import opened McuPadding
  import opened McuPlanes
  import opened McuWriter

  // A scan of an image, and how it is coded
  datatype ImageScan = ImageScan(comps: seq<nat>, scan: Scan)

  ghost predicate ImageScanOk(img: Image, order: seq<nat>, x: ImageScan)
    requires ImageOk(img)
  {
    && ScanComps(img, x.comps) && ScanOk(x.scan) && x.scan.order == order && |x.scan.comps| == |x.comps|
    && x.scan.membership == Membership(img, x.comps, |x.comps|)
  }

  function PassOf(img: Image, x: ImageScan): Pass
    requires ImageOk(img) && ScanComps(img, x.comps)
  {
    Pass(x.scan, (set c | c in x.comps), Layout(img, x.comps))
  }

  ghost predicate ImageScansOk(img: Image, order: seq<nat>, xs: seq<ImageScan>)
    requires ImageOk(img)
  {
    forall n :: 0 <= n < |xs| ==> ImageScanOk(img, order, xs[n])
  }

  ghost function Passes(img: Image, order: seq<nat>, xs: seq<ImageScan>): (passes: seq<Pass>)
    requires ImageOk(img) && ImageScansOk(img, order, xs)
    ensures |passes| == |xs| && forall n :: 0 <= n < |xs| ==> passes[n] == PassOf(img, xs[n])
  {
    seq(|xs|, n requires 0 <= n < |xs| => PassOf(img, xs[n]))
  }

  // The component whose block row r of the array is, unless it is padding
  ghost function ComponentAt(img: Image, r: nat): (c: nat)
    requires ImageOk(img) && r < Total(img)
  {
    if exists p: Place :: Real(img, p) && InPlane(img, p) && RowOf(img, p) == r then
      var p: Place :| Real(img, p) && InPlane(img, p) && RowOf(img, p) == r;
      p.c
    else
      PADDING
  }

  ghost function Components(img: Image): seq<nat>
    requires ImageOk(img)
  {
    seq(Total(img), r requires 0 <= r < Total(img) => ComponentAt(img, r))
  }

  lemma ComponentOf(img: Image, p: Place)
    requires ImageOk(img) && InPlane(img, p)
    ensures RowOf(img, p) < |Components(img)|
    ensures Components(img)[RowOf(img, p)] == if Real(img, p) then p.c else PADDING
    ensures p.c < PADDING
  {
    hide Real, InPlane, RowOf, Total;
    RowInside(img, p);
    forall q: Place | Real(img, q) && InPlane(img, q) && RowOf(img, q) == RowOf(img, p)
      ensures q == p
    {
      RowsDiffer(img, p, q);
    }
    PlaneKnown(img, p);
  }

  lemma PlaneKnown(img: Image, p: Place)
    requires ImageOk(img) && InPlane(img, p)
    ensures p.c < |img.comps| <= PADDING
  {
  }

  // The layout of a scan is as the passes need it.
  lemma LayoutServes(img: Image, order: seq<nat>, x: ImageScan)
    requires ImageOk(img) && ImageScanOk(img, order, x)
    ensures PassOk(order, Components(img), PassOf(img, x)) && LayoutOk(x.scan, Layout(img, x.comps), Total(img))
  {
    hide ImageOk, OrderOk, TablesOk, Real, InPlane, RowOf, Total, Membership, ScanComps, Layout, DistinctLayout, InMcus,
        Components, InScan;
    LayoutSound(img, x.comps);
    ScanCompsKnown(img, x.comps);
    var pass, compOf := PassOf(img, x), Components(img);
    ComponentsSize(img);
    forall r: nat | r < |compOf|
      ensures if compOf[r] == PADDING then InMcus(pass.layout, |pass.layout|, r) ==> pass.scan.Ss == 0
              else InMcus(pass.layout, |pass.layout|, r) <==> compOf[r] in pass.comps
    {
      var p := PlaceAt(img, r, |img.comps|);
      ComponentOf(img, p);
      LayoutComplete(img, x.comps, p);
      ScanContents(img, x.comps, p);
    }
  }

  lemma ComponentsSize(img: Image)
    requires ImageOk(img)
    ensures |Components(img)| == Total(img) == Base(img, |img.comps|)
  {
    hide ImageOk, Total;
    assert Total(img) == Base(img, |img.comps|) by {
      TotalIs(img);
    }
  }

  lemma TotalIs(img: Image)
    requires ImageOk(img)
    ensures Total(img) == Base(img, |img.comps|)
  {
  }

  lemma ScanCompsKnown(img: Image, comps: seq<nat>)
    requires ImageOk(img) && ScanComps(img, comps)
    ensures PADDING !in comps
  {
  }

  // A real block is in the scan if its component is; padding is only in an interleaved one.
  lemma ScanContents(img: Image, comps: seq<nat>, p: Place)
    requires ImageOk(img) && ScanComps(img, comps) && InPlane(img, p)
    ensures Real(img, p) ==> (InScan(img, comps, p) <==> p.c in comps)
    ensures !Real(img, p) && InScan(img, comps, p) ==> |comps| > 1
  {
  }

  // ----- What is coded -----

  // The MCUs sent are those of the padded arrays, taken by the layout.
  lemma SentByLayout(img: Image, s: Scan, comps: seq<nat>, blocks: seq<Block>, whole: seq<Block>)
    requires ImageOk(img) && ScanComps(img, comps) && |blocks| == |whole| == Total(img) && LayoutOk(s, Layout(img, comps), Total(img))
    requires Loaded(img, blocks, whole, Limits(img, ImcuRows(img)))
    ensures McusOf(s, whole, Layout(img, comps)) == Mcus(img, comps, blocks)
  {
    hide ImageOk, ScanComps, InPlane, RowOf, Total, Loaded, Limits, ImcuRows, Padded, McuCount, PlacesOf;
    var layout := Layout(img, comps);
    forall k | 0 <= k < |layout|
      ensures McusOf(s, whole, layout)[k] == Mcus(img, comps, blocks)[k]
    {
      PlacesInPlane(img, comps, k);
      var places := PlacesOf(img, comps, k);
      forall n | 0 <= n < |places|
        ensures RowOf(img, places[n]) < |whole| && whole[RowOf(img, places[n])] == Padded(img, blocks, places[n])
      {
        BelowAll(img, places[n]);
        LoadedAt(img, blocks, whole, ImcuRows(img), places[n]);
      }
      assert McuOf(whole, layout[k]) == Mcu(img, comps, blocks, k);
    }
  }

  lemma BelowAll(img: Image, p: Place)
    requires ImageOk(img) && InPlane(img, p)
    ensures p.y < FirstOf(ImcuRows(img), img.comps[p.c].v)
  {
  }

  // The padding has no AC coefficients, and the rest are the image's blocks.
  lemma LoadedBlocks(img: Image, blocks: seq<Block>, whole: seq<Block>)
    requires ImageOk(img) && |blocks| == |whole| == Total(img) && Loaded(img, blocks, whole, Limits(img, ImcuRows(img)))
    ensures |Components(img)| == |whole| && PaddingOk(Components(img), whole)
    ensures forall p :: Real(img, p) && InPlane(img, p) ==> SameBlock(img, blocks, whole, p)
  {
    hide ImageOk, InPlane, Real, RowOf, Total, Loaded, Limits, ImcuRows, Components;
    ComponentsSize(img);
    forall r: nat, i | r < |whole| && Components(img)[r] == PADDING && 1 <= i < DCTSIZE2
      ensures whole[r][i] == 0
    {
      var p := PlaceAt(img, r, |img.comps|);
      ComponentOf(img, p);
      BelowAll(img, p);
      LoadedAt(img, blocks, whole, ImcuRows(img), p);
    }
    forall p | Real(img, p) && InPlane(img, p)
      ensures SameBlock(img, blocks, whole, p)
    {
      BelowAll(img, p);
      LoadedAt(img, blocks, whole, ImcuRows(img), p);
      RowInside(img, p);
    }
  }

  // ----- The round trip -----

  // What has been received of an image after n scans
  ghost predicate Received(img: Image, order: seq<nat>, dct: seq<Block>, planes: seq<Block>, passes: seq<Pass>, n: nat)
    requires ImageOk(img) && OrderOk(order) && |dct| == |planes| == Total(img) && n <= |passes|
  {
    forall p :: Real(img, p) && InPlane(img, p) ==> BlockReceived(img, order, dct, planes, passes, n, p)
  }

  ghost predicate BlockReceived(img: Image, order: seq<nat>, dct: seq<Block>, planes: seq<Block>, passes: seq<Pass>, n: nat, p: Place)
    requires ImageOk(img) && OrderOk(order) && |dct| == |planes| == Total(img) && n <= |passes| && InPlane(img, p)
  {
    RowInside(img, p);
    var block, received := dct[RowOf(img, p)], planes[RowOf(img, p)];
    forall k :: 0 <= k < DCTSIZE2 ==> received[order[k]] == Held(block[order[k]], k, Bits(passes, n, p.c, k))
  }

  lemma HoldsReceived(img: Image, order: seq<nat>, dct: seq<Block>, whole: seq<Block>, planes: seq<Block>, passes: seq<Pass>, n: nat)
    requires ImageOk(img) && OrderOk(order) && |dct| == |whole| == |planes| == Total(img) && n <= |passes|
    requires Loaded(img, dct, whole, Limits(img, ImcuRows(img))) && |Components(img)| == Total(img)
    requires Holds(order, Components(img), whole, planes, passes, n)
    ensures Received(img, order, dct, planes, passes, n)
  {
    hide ImageOk, OrderOk, InPlane, Real, RowOf, Total, Loaded, Limits, ImcuRows, Components, Bits, Held;
    LoadedBlocks(img, dct, whole);
    OrderLength(order);
    forall p | Real(img, p) && InPlane(img, p)
      ensures BlockReceived(img, order, dct, planes, passes, n, p)
    {
      RowInside(img, p);
      ComponentOf(img, p);
      assert SameBlock(img, dct, whole, p);
    }
  }

  // One scan: sent by the coefficient controller in its pass, coded, and decoded
  method TransmitScan(coef: CoefController, order: seq<nat>, xs: seq<ImageScan>, n: nat, planes: array<Block>, stats: Statistics,
                      space: seq<nat>, marker: Byte, follow: seq<Byte>, ghost whole: seq<Block>)
    returns (ok: bool, stats': Statistics, ghost whole': seq<Block>)
    requires ImageOk(coef.img) && OrderOk(order) && n < |xs| && ImageScansOk(coef.img, order, xs)
    requires |coef.dct| == coef.wholeImage.Length == planes.Length == Total(coef.img) && coef.workspace.Length == MAX_BLOCKS_IN_MCU
    requires coef.wholeImage != coef.workspace && planes != coef.wholeImage && planes != coef.workspace
    requires Steady(coef.img, xs[n].comps, space) && marker != 0 && marker != 0xFF && Legal(Passes(coef.img, order, xs))
    requires McusOk(xs[n].scan, Mcus(coef.img, xs[n].comps, coef.dct)) && ScanInRange(xs[n].scan, Mcus(coef.img, xs[n].comps, coef.dct))
    requires Between(coef, order, xs, n, planes[..], whole)
    modifies coef, coef.wholeImage, coef.workspace, planes
    ensures ok <==> |xs[n].scan.membership| <= MAX_BLOCKS_IN_MCU
    ensures ok ==> Between(coef, order, xs, n + 1, planes[..], whole')
  {
    hide ImageOk, OrderOk, ScanOk, ScanComps, Legal, Total, Loaded, Limits, ImcuRows, Components, Holds, PassOk, Mcus, Membership,
      Layout, Steady, PaddingOk, ScanInRange, McusOk;
    stats', whole' := stats, whole;
    var sent;
    ok, sent := SendScan(coef, if n == 0 then SaveAndPass else CrankDest, xs[n].comps, space);
    if ok {
      whole' := coef.wholeImage[..];
      LoadedBlocks(coef.img, coef.dct, whole');
      LayoutServes(coef.img, order, xs[n]);
      SentByLayout(coef.img, xs[n].scan, xs[n].comps, coef.dct, whole');
      ghost var passes := Passes(coef.img, order, xs);
      if n == 0 {
        NothingHeld(order, Components(coef.img), whole', planes[..], passes);
      }
      var clean;
      stats', clean := PassRoundTrip(order, PassOf(coef.img, xs[n]), sent, planes, stats, marker, follow, Components(coef.img), passes,
                                     n, whole');
    }
  }

  // What is known between scans: after the first, the arrays of the compressor are loaded.
  ghost predicate Between(coef: CoefController, order: seq<nat>, xs: seq<ImageScan>, n: nat, planes: seq<Block>, whole: seq<Block>)
    requires ImageOk(coef.img) && OrderOk(order) && n <= |xs| && ImageScansOk(coef.img, order, xs)
    requires |coef.dct| == coef.wholeImage.Length == |planes| == Total(coef.img)
    reads coef.wholeImage
  {
    if n == 0 then NoneReceived(planes)
    else
      && whole == coef.wholeImage[..] && Loaded(coef.img, coef.dct, whole, Limits(coef.img, ImcuRows(coef.img)))
      && |Components(coef.img)| == |whole| && Holds(order, Components(coef.img), whole, planes, Passes(coef.img, order, xs), n)
  }

  ghost predicate NoneReceived(planes: seq<Block>) {
    forall r, i :: 0 <= r < |planes| && 0 <= i < DCTSIZE2 ==> planes[r][i] == 0
  }

  // The decoder can represent all DC differences of the scan.
  ghost predicate InRange(img: Image, order: seq<nat>, dct: seq<Block>, x: ImageScan)
    requires ImageOk(img) && ImageScanOk(img, order, x) && |dct| == Total(img)
  {
    McusOk(x.scan, Mcus(img, x.comps, dct)) && ScanInRange(x.scan, Mcus(img, x.comps, dct))
  }

  // A whole image: its scans are compressed in as many passes, with any suspensions of the output, sent
  // through the arithmetic coder, and decoded into the coefficient arrays. An image is refused just if an
  // MCU has too many blocks; otherwise all its blocks have exactly the bits that have been sent.
  method TransmitImage(img: Image, order: seq<nat>, dct: seq<Block>, xs: seq<ImageScan>, planes: array<Block>, initial: Statistics,
                       spaces: seq<seq<nat>>, marker: Byte, follow: seq<Byte>)
    returns (ok: bool)
    requires ImageOk(img) && OrderOk(order) && |dct| == planes.Length == Total(img) && 0 < |xs| == |spaces|
    requires ImageScansOk(img, order, xs) && Legal(Passes(img, order, xs)) && NoneReceived(planes[..])
    requires forall n :: 0 <= n < |xs| ==> InRange(img, order, dct, xs[n]) && Steady(img, xs[n].comps, spaces[n])
    requires marker != 0 && marker != 0xFF
    modifies planes
    ensures ok <==> forall n :: 0 <= n < |xs| ==> |xs[n].scan.membership| <= MAX_BLOCKS_IN_MCU
    ensures ok ==> Received(img, order, dct, planes[..], Passes(img, order, xs), |xs|)
  {
    hide ImageOk, OrderOk, ScanOk, ScanComps, Legal, Total, Loaded, Limits, ImcuRows, Components, Holds, Mcus, Membership,
      Layout, Steady, ScanInRange, McusOk, NoneReceived, Received, CoefController.DummiesOk;
    var coef := new CoefController(img, dct, planes[..]);
    ghost var whole := planes[..];
    var stats := initial;
    for n := 0 to |xs|
      invariant coef.img == img && coef.dct == dct && fresh(coef) && fresh(coef.wholeImage) && fresh(coef.workspace)
      invariant coef.wholeImage.Length == Total(img) && coef.workspace.Length == MAX_BLOCKS_IN_MCU && coef.wholeImage != coef.workspace
      invariant forall m :: 0 <= m < n ==> |xs[m].scan.membership| <= MAX_BLOCKS_IN_MCU
      invariant Between(coef, order, xs, n, planes[..], whole)
    {
      ok, stats, whole := TransmitScan(coef, order, xs, n, planes, stats, spaces[n], marker, follow, whole);
      if !ok {
        return;
      }
    }
    ok := true;
    HoldsReceived(img, order, dct, whole, planes[..], Passes(img, order, xs), |xs|);
  }
}
