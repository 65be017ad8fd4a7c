// Whole images with a scan script: what the compressor accepts, and the recommended progression.
module ScriptRoundTrip {
  import opened ArithInterval
  import opened ArithScan
  import opened PointTransform
  import opened ArithSegments
  import opened ArithProgression
  import opened Geometry
  import opened McuPlaces
  import opened McuPadding
  import opened McuWriter
  import opened ImageRoundTrip
  import opened ScanScript
  import SimpleProgression

  // What all scans have in common: tables by component, conditioning, order and restarts
  datatype Params = Params(tables: seq<Component>, dcL: seq<nat>, dcU: seq<nat>, acK: seq<nat>, order: seq<nat>, restartInterval: nat)

  ghost predicate ParamsOk(img: Image, q: Params) {
    && |q.tables| == |img.comps| && |q.dcL| == |q.dcU| == |q.acK| == NUM_ARITH_TBLS && OrderOk(q.order)
    && forall c :: 0 <= c < |q.tables| ==> q.tables[c].dcTbl < NUM_ARITH_TBLS && q.tables[c].acTbl < NUM_ARITH_TBLS
  }

  function CompsOf(nc: nat, comps: seq<int>): seq<nat>
    requires ComponentsOk(nc, comps)
  {
    seq(|comps|, i requires 0 <= i < |comps| => comps[i])
  }

  lemma SameComps(nc: nat, comps: seq<int>)
    requires ComponentsOk(nc, comps)
    ensures forall c: nat :: c in CompsOf(nc, comps) <==> c in comps
  {
    forall c: nat | c in comps
      ensures c in CompsOf(nc, comps)
    {
      var i :| 0 <= i < |comps| && comps[i] == c;
      assert CompsOf(nc, comps)[i] == c;
    }
  }

  lemma CompsOfScan(img: Image, comps: seq<int>)
    requires ImageOk(img) && ComponentsOk(|img.comps|, comps)
    ensures ScanComps(img, CompsOf(|img.comps|, comps))
  {
  }

  // The scan that codes this entry of a script
  function ScanFor(img: Image, q: Params, info: ScanInfo): ImageScan
    requires ImageOk(img) && |q.tables| == |img.comps| && ComponentsOk(|img.comps|, info.comps) && ProgressiveParameters(info)
  {
    CompsOfScan(img, info.comps);
    var comps := CompsOf(|img.comps|, info.comps);
    var tables := seq(|comps|, i requires 0 <= i < |comps| => q.tables[comps[i]]);
    ImageScan(comps, Scan(true, info.Ss, info.Se, info.Ah, info.Al, tables, Membership(img, comps, |comps|),
                          q.dcL, q.dcU, q.acK, q.order, q.restartInterval))
  }

  function ScansFor(img: Image, q: Params, script: seq<ScanInfo>): (xs: seq<ImageScan>)
    requires ImageOk(img) && |q.tables| == |img.comps|
    requires UsableScript(|img.comps|, script)
    ensures |xs| == |script|
  {
    seq(|script|, n requires 0 <= n < |script| => ScanFor(img, q, script[n]))
  }

  predicate UsableScript(nc: nat, script: seq<ScanInfo>) {
    forall n :: 0 <= n < |script| ==> ComponentsOk(nc, script[n].comps) && ProgressiveParameters(script[n])
  }

  lemma ScriptUsable(nc: nat, script: seq<ScanInfo>)
    requires ProgressiveScript(nc, script)
    ensures UsableScript(nc, script)
  {
    hide InOrder;
    forall n | 0 <= n < |script|
      ensures ComponentsOk(nc, script[n].comps) && ProgressiveParameters(script[n])
    {
      assert Progresses(nc, script, n);
    }
  }

  // What the compressor accepts for a script, the coder takes, and it is a legal sequence.
  lemma ScriptLegal(img: Image, q: Params, script: seq<ScanInfo>)
    requires ImageOk(img) && ParamsOk(img, q) && ProgressiveScript(|img.comps|, script)
    requires UsableScript(|img.comps|, script)
    ensures ImageScansOk(img, q.order, ScansFor(img, q, script))
    ensures Legal(Passes(img, q.order, ScansFor(img, q, script)))
        && SimpleProgression.Codes(Passes(img, q.order, ScansFor(img, q, script)), script)
  {
    hide ImageOk, OrderOk, Legal, Membership, Layout;
    var xs := ScansFor(img, q, script);
    forall n | 0 <= n < |xs|
      ensures forall c: nat :: c in xs[n].comps <==> c in script[n].comps
    {
      SameComps(|img.comps|, script[n].comps);
    }
    ghost var loose := seq(|xs|, n requires 0 <= n < |xs| => Pass(xs[n].scan, (set c | c in xs[n].comps), []));
    assert SimpleProgression.Codes(loose, script);
    SimpleProgression.AcceptedLegal(|img.comps|, loose, script);
    forall n | 0 <= n < |xs|
      ensures ImageScanOk(img, q.order, xs[n])
    {
      assert loose[n].scan == xs[n].scan;
      CompsOfScan(img, script[n].comps);
      MembershipOk(img, xs[n].comps);
    }
    SimpleProgression.AcceptedLegal(|img.comps|, Passes(img, q.order, xs), script);
  }

  lemma MembershipOk(img: Image, comps: seq<nat>)
    requires ImageOk(img) && ScanComps(img, comps)
    ensures forall k :: 0 <= k < |Membership(img, comps, |comps|)| ==> Membership(img, comps, |comps|)[k] < |comps|
    ensures |comps| == 1 ==> |Membership(img, comps, |comps|)| == 1
  {
    hide ImageOk;
    PlacesMatch(img, comps, 0, 0, |comps|);
    if |comps| == 1 {
      assert Membership(img, comps, 1) == Membership(img, comps, 0) + seq(1, _ => 0);
    }
  }

  // DC values of the image's blocks of up to 15 bits are in range in any scan.
  ghost predicate SmallDcs(img: Image, dct: seq<Block>)
    requires ImageOk(img) && |dct| == Total(img)
  {
    forall p :: Real(img, p) && InPlane(img, p) ==> SmallDcAt(img, dct, p)
  }

  ghost predicate SmallDcAt(img: Image, dct: seq<Block>, p: Place)
    requires ImageOk(img) && |dct| == Total(img) && InPlane(img, p)
  {
    RowInside(img, p);
    Small(dct[RowOf(img, p)][0])
  }

  lemma SmallInRange(img: Image, order: seq<nat>, dct: seq<Block>, x: ImageScan)
    requires ImageOk(img) && ImageScanOk(img, order, x) && |dct| == Total(img) && SmallDcs(img, dct)
    ensures InRange(img, order, dct, x)
  {
    hide ImageOk, ScanComps, OrderOk, TablesOk, ProgressionOk, McuCount, PlacesOf, Membership, Total, InPlane, Real, RowOf, ScanInRange,
      Padded, Small;
    var mcus := Mcus(img, x.comps, dct);
    forall k | 0 <= k < |mcus|
      ensures |mcus[k]| == |x.scan.membership| && SmallDc(mcus[k])
    {
      RowsWithin(img, x.comps, k);
      PlacesInPlane(img, x.comps, k);
      forall n | 0 <= n < |mcus[k]|
        ensures Small(mcus[k][n][0])
      {
        SmallPadded(img, dct, PlacesOf(img, x.comps, k)[n]);
      }
    }
    SmallDcInRange(x.scan, mcus);
  }

  lemma SmallPadded(img: Image, dct: seq<Block>, p: Place)
    requires ImageOk(img) && |dct| == Total(img) && SmallDcs(img, dct) && InPlane(img, p)
    ensures Small(Padded(img, dct, p)[0])
  {
    hide ImageOk, Total, InPlane, Real, RowOf, Small;
    if Real(img, p) {
      assert SmallDcAt(img, dct, p);
    } else {
      var q := Neighbour(img, p);
      RealInPlane(img, q);
      assert SmallDcAt(img, dct, q);
    }
  }

  // With a script that sends everything, all blocks are received.
  lemma EverythingReceived(img: Image, order: seq<nat>, dct: seq<Block>, planes: seq<Block>, passes: seq<Pass>, script: seq<ScanInfo>)
    requires ImageOk(img) && OrderOk(order) && |dct| == |planes| == Total(img)
    requires Received(img, order, dct, planes, passes, |passes|) && SimpleProgression.Codes(passes, script)
    requires EverythingSent(|img.comps|, script)
    ensures SameBlocks(img, dct, planes)
  {
    hide ImageOk, OrderOk, Total, InPlane, Real, RowOf, Bits, Sent, DcPoint, AcPoint;
    OrderLength(order);
    forall p | Real(img, p) && InPlane(img, p)
      ensures SameBlock(img, dct, planes, p)
    {
      RowInside(img, p);
      PlaneKnown(img, p);
      assert BlockReceived(img, order, dct, planes, passes, |passes|, p);
      forall i | 0 <= i < DCTSIZE2
        ensures planes[RowOf(img, p)][i] == dct[RowOf(img, p)][i]
      {
        var k := ZigzagPosition(order, i);
        SimpleProgression.BitsSent(passes, script, |passes|, p.c, k);
        PointZero(dct[RowOf(img, p)][i]);
      }
    }
  }

  // Enough calls for every scan
  ghost predicate SteadyScript(img: Image, xs: seq<ImageScan>, spaces: seq<seq<nat>>)
    requires ImageOk(img)
  {
    && |spaces| == |xs|
    && forall n :: 0 <= n < |xs| ==> ScanComps(img, xs[n].comps) && Steady(img, xs[n].comps, spaces[n])
  }

  // Any image with any accepted script, with DC values of up to 15 bits: it is refused just if an MCU has
  // too many blocks; otherwise all blocks have the bits that the script sends, and if that is all of them,
  // they are the original blocks.
  method TransmitScript(img: Image, q: Params, dct: seq<Block>, script: seq<ScanInfo>, xs: seq<ImageScan>, planes: array<Block>,
                        initial: Statistics, spaces: seq<seq<nat>>, marker: Byte, follow: seq<Byte>)
    returns (ok: bool)
    requires ImageOk(img) && ParamsOk(img, q) && |dct| == planes.Length == Total(img) && SmallDcs(img, dct)
    requires ProgressiveScript(|img.comps|, script) && 0 < |script| && NoneReceived(planes[..]) && marker != 0 && marker != 0xFF
    requires UsableScript(|img.comps|, script) && xs == ScansFor(img, q, script) && SteadyScript(img, xs, spaces)
    modifies planes
    ensures ok <==> forall n :: 0 <= n < |xs| ==> |xs[n].scan.membership| <= MAX_BLOCKS_IN_MCU
    ensures ImageScansOk(img, q.order, xs)
    ensures ok ==> Received(img, q.order, dct, planes[..], Passes(img, q.order, xs), |xs|)
    ensures ok && EverythingSent(|img.comps|, script) ==> SameBlocks(img, dct, planes[..])
  {
    hide ImageOk, ScanComps, ProgressiveScript, Legal, Total, Layout, Steady, SmallDcs, NoneReceived, Received, SameBlocks, InRange,
      SimpleProgression.Codes, OrderOk, ScansFor, ImageScanOk;
    ScriptLegal(img, q, script);
    forall n | 0 <= n < |xs|
      ensures InRange(img, q.order, dct, xs[n])
    {
      SmallInRange(img, q.order, dct, xs[n]);
    }
    ok := TransmitImage(img, q.order, dct, xs, planes, initial, spaces, marker, follow);
    if ok && EverythingSent(|img.comps|, script) {
      EverythingReceived(img, q.order, dct, planes[..], Passes(img, q.order, xs), script);
    }
  }

  ghost predicate EverythingSent(nc: nat, script: seq<ScanInfo>) {
    forall c, k :: 0 <= c < nc && 0 <= k < DCTSIZE2 ==> Sent(script, |script|, c, k) == 0
  }

  // The recommended progression transmits every image whose MCUs are not too big.
  method TransmitSimple(img: Image, ycc: bool, q: Params, dct: seq<Block>, planes: array<Block>, initial: Statistics, space: nat,
                        marker: Byte, follow: seq<Byte>)
    returns (ok: bool, ghost xs: seq<ImageScan>)
    requires ImageOk(img) && ParamsOk(img, q) && |dct| == planes.Length == Total(img) && SmallDcs(img, dct)
    requires NoneReceived(planes[..]) && marker != 0 && marker != 0xFF && 0 < space
    modifies planes
    ensures |xs| == SimpleProgression.ScanCount(|img.comps|, ycc)
    ensures ok <==> forall n :: 0 <= n < |xs| ==> |xs[n].scan.membership| <= MAX_BLOCKS_IN_MCU
    ensures ok ==> SameBlocks(img, dct, planes[..])
  {
    hide ScanComps, ProgressiveScript, Total, Steady, SmallDcs, NoneReceived, Received, SameBlocks, OrderOk, ScansFor, ImageScanOk,
      Calls;
    var made, p := SimpleProgression.SimpleScript(|img.comps|, ycc);
    var script := made[..];
    ScriptUsable(|img.comps|, script);
    var scans := ScansFor(img, q, script);
    ScansKnown(img, q, script);
    var spaces := seq(|scans|, n requires 0 <= n < |scans| && ScanComps(img, scans[n].comps) => Calls(img, scans[n].comps, space));
    ok := TransmitScript(img, q, dct, script, scans, planes, initial, spaces, marker, follow);
    xs := scans;
  }

  lemma ScansKnown(img: Image, q: Params, script: seq<ScanInfo>)
    requires ImageOk(img) && |q.tables| == |img.comps| && UsableScript(|img.comps|, script)
    ensures forall n :: 0 <= n < |script| ==> ScanComps(img, ScansFor(img, q, script)[n].comps)
  {
    hide ImageOk, ScanComps;
    forall n | 0 <= n < |script|
      ensures ScanComps(img, ScansFor(img, q, script)[n].comps)
    {
      CompsOfScan(img, script[n].comps);
    }
  }
}
