// The sizes that follow from an image's dimensions and sampling factors: initial_setup and
// per_scan_setup of jcmaster.c and jdinput.c, which agree.
module Geometry {
  import opened Arithmetic
  import opened ArithScan

  datatype Sampling = Sampling(h: nat, v: nat)

  datatype Image = Image(width: nat, height: nat, comps: seq<Sampling>)

  const DCTSIZE := 8
  const MAX_SAMP_FACTOR := 4
  const MAX_BLOCKS_IN_MCU := 10

  predicate ImageOk(img: Image) {
    && 0 < img.width && 0 < img.height && 0 < |img.comps| <= MAX_COMPONENTS
    && forall c :: 0 <= c < |img.comps| ==>
         1 <= img.comps[c].h <= MAX_SAMP_FACTOR && 1 <= img.comps[c].v <= MAX_SAMP_FACTOR
  }

  // jdiv_round_up
  function DivRoundUp(a: nat, b: nat): nat
    requires 0 < b
  {
    (a + b - 1) / b
  }

  // The largest sampling factors
  function MaxH(comps: seq<Sampling>): (m: nat)
    ensures 1 <= m && forall c :: 0 <= c < |comps| ==> comps[c].h <= m
  {
    if comps == [] then 1
    else
      var m := MaxH(comps[..|comps| - 1]);
      if m < comps[|comps| - 1].h then comps[|comps| - 1].h else m
  }

  function MaxV(comps: seq<Sampling>): (m: nat)
    ensures 1 <= m && forall c :: 0 <= c < |comps| ==> comps[c].v <= m
  {
    if comps == [] then 1
    else
      var m := MaxV(comps[..|comps| - 1]);
      if m < comps[|comps| - 1].v then comps[|comps| - 1].v else m
  }

  // These are the largest sampling factors of an image: none is larger, and a component has each.
  predicate Largest(img: Image, h: nat, v: nat) {
    && (forall c :: 0 <= c < |img.comps| ==> img.comps[c].h <= h && img.comps[c].v <= v)
    && (exists c :: 0 <= c < |img.comps| && img.comps[c].h == h) && (exists c :: 0 <= c < |img.comps| && img.comps[c].v == v)
  }

  lemma {:induction false} MaxAttained(comps: seq<Sampling>)
    requires comps != [] && forall c :: 0 <= c < |comps| ==> 1 <= comps[c].h && 1 <= comps[c].v
    ensures exists c :: 0 <= c < |comps| && comps[c].h == MaxH(comps)
    ensures exists c :: 0 <= c < |comps| && comps[c].v == MaxV(comps)
  {
    var init, n := comps[..|comps| - 1], |comps| - 1;
    if init == [] {
      assert MaxH(init) == 1 && MaxV(init) == 1;
      assert comps[0].h == MaxH(comps) && comps[0].v == MaxV(comps);
    } else {
      MaxAttained(init);
      var c :| 0 <= c < |init| && init[c].h == MaxH(init);
      var d :| 0 <= d < |init| && init[d].v == MaxV(init);
      assert comps[if MaxH(init) < comps[n].h then n else c].h == MaxH(comps);
      assert comps[if MaxV(init) < comps[n].v then n else d].v == MaxV(comps);
    }
  }

  lemma LargestOnly(img: Image, h: nat, v: nat)
    requires ImageOk(img)
    ensures Largest(img, h, v) <==> h == MaxH(img.comps) && v == MaxV(img.comps)
  {
    MaxAttained(img.comps);
  }

  // So many units are needed for a size, and no more.
  predicate JustSpans(units: nat, size: nat, unit: nat) {
    (units - 1) * unit < size <= units * unit
  }

  // Sizes of a component in blocks
  function WidthInBlocks(img: Image, c: nat): nat
    requires ImageOk(img) && c < |img.comps|
  {
    DivRoundUp(img.width * img.comps[c].h, MaxH(img.comps) * DCTSIZE)
  }

  function HeightInBlocks(img: Image, c: nat): nat
    requires ImageOk(img) && c < |img.comps|
  {
    DivRoundUp(img.height * img.comps[c].v, MaxV(img.comps) * DCTSIZE)
  }

  // Size of the image in interleaved MCUs
  function ImcuColumns(img: Image): nat
    requires ImageOk(img)
  {
    DivRoundUp(img.width, MaxH(img.comps) * DCTSIZE)
  }

  function ImcuRows(img: Image): nat
    requires ImageOk(img)
  {
    DivRoundUp(img.height, MaxV(img.comps) * DCTSIZE)
  }

  lemma RoundUpBounds(a: nat, b: nat)
    requires 0 < a && 0 < b
    ensures 1 <= DivRoundUp(a, b) && (DivRoundUp(a, b) - 1) * b < a <= DivRoundUp(a, b) * b
  {
    var q, r := (a + b - 1) / b, (a + b - 1) % b;
    assert a + b - 1 == b * q + r;
    Distribute(b, q - 1, 1);
  }

  // A size that is multiplied by s takes up to s times as many units, and more than that for one less.
  lemma ScaledSize(a: nat, s: nat, b: nat)
    requires 0 < a && 0 < b && 1 <= s
    ensures 1 <= DivRoundUp(a, b) && 1 <= DivRoundUp(a * s, b)
    ensures (DivRoundUp(a, b) - 1) * s < DivRoundUp(a * s, b) <= DivRoundUp(a, b) * s
  {
    var t, u := DivRoundUp(a, b), DivRoundUp(a * s, b);
    assert a * s >= a by {
      ProductMonotonic(1, s, a);
    }
    RoundUpBounds(a, b);
    RoundUpBounds(a * s, b);
    var t': nat := t - 1;
    var u': nat := u - 1;
    ScaledBelow(t', a, s, u, b);
    ScaledAbove(t, a, s, u', b);
  }

  lemma ScaledBelow(t: nat, a: nat, s: nat, u: nat, b: nat)
    requires t * b < a && a * s <= u * b && 1 <= s
    ensures t * s < u
  {
    StrictProduct(t * b, a, s);
    Swap(t, b, s);
    CancelLess(t * s, u, b);
  }

  lemma ScaledAbove(t: nat, a: nat, s: nat, u: nat, b: nat)
    requires a <= t * b && u * b < a * s
    ensures u < t * s
  {
    ProductMonotonic(a, t * b, s);
    Swap(t, b, s);
    CancelLess(u, t * s, b);
  }

  lemma StrictProduct(x: nat, y: nat, s: nat)
    requires x < y && 1 <= s
    ensures x * s < y * s
  {
    ProductMonotonic(x + 1, y, s);
    Distribute(s, x, 1);
  }

  lemma Swap(x: nat, y: nat, z: nat)
    ensures x * y * z == x * z * y
  {
  }

  // A component's blocks fill all interleaved MCUs but the last column and row, and some of these.
  lemma BlocksOfComponent(img: Image, c: nat)
    requires ImageOk(img) && c < |img.comps|
    ensures 1 <= ImcuColumns(img) && 1 <= ImcuRows(img) && 1 <= WidthInBlocks(img, c) && 1 <= HeightInBlocks(img, c)
    ensures (ImcuColumns(img) - 1) * img.comps[c].h < WidthInBlocks(img, c) <= ImcuColumns(img) * img.comps[c].h
    ensures (ImcuRows(img) - 1) * img.comps[c].v < HeightInBlocks(img, c) <= ImcuRows(img) * img.comps[c].v
  {
    ScaledSize(img.width, img.comps[c].h, MaxH(img.comps) * DCTSIZE);
    ScaledSize(img.height, img.comps[c].v, MaxV(img.comps) * DCTSIZE);
  }

  lemma SomeRows(img: Image)
    requires ImageOk(img)
    ensures 1 <= ImcuRows(img)
  {
    BlocksOfComponent(img, 0);
  }

  // ----- Sample rows of the last iMCU row -----

  function DownsampledHeight(img: Image, c: nat): nat
    requires ImageOk(img) && c < |img.comps|
  {
    DivRoundUp(img.height * img.comps[c].v, MaxV(img.comps))
  }

  // What set_bottom_pointers computes for a component that is not scaled: the row groups with sample rows
  // in the last iMCU row
  function RowGroupsAvail(img: Image, c: nat): nat
    requires ImageOk(img) && c < |img.comps|
  {
    (LastPart(DownsampledHeight(img, c), img.comps[c].v * DCTSIZE) - 1) / img.comps[c].v + 1
  }

  lemma RoundUpIs(x: nat, v: nat, q: nat)
    requires 0 < v && 0 < x && 1 <= q && (q - 1) * v < x <= q * v
    ensures (x - 1) / v + 1 == q
  {
    var r := x - 1 - (q - 1) * v;
    Distribute(v, q - 1, 1);
    DivMod(v, q - 1, r);
  }

  // Whole units in front do not matter.
  lemma RoundUpShift(k: nat, r: nat, m: nat)
    requires 0 < m && 0 < r
    ensures DivRoundUp(k * m + r, m) == k + DivRoundUp(r, m)
  {
    var z := r + m - 1;
    assert z == m * (z / m) + z % m;
    Distribute(m, k, z / m);
    DivMod(m, k + z / m, z % m);
  }

  // The number is the same for all components, so that of the first will do.
  lemma RowGroupsAgree(img: Image, c: nat, d: nat)
    requires ImageOk(img) && c < |img.comps| && d < |img.comps|
    ensures RowGroupsAvail(img, c) == RowGroupsAvail(img, d)
  {
    RowGroupsLeft(img, c);
    RowGroupsLeft(img, d);
  }

  // It is the number of units of MaxV rows that the image's last rows take.
  lemma RowGroupsLeft(img: Image, c: nat)
    requires ImageOk(img) && c < |img.comps|
    ensures var k := (ImcuRows(img) - 1) * DCTSIZE;
            && 0 < img.height - k * MaxV(img.comps)
            && RowGroupsAvail(img, c) == DivRoundUp(img.height - k * MaxV(img.comps), MaxV(img.comps))
  {
    var m, v, t := MaxV(img.comps), img.comps[c].v, ImcuRows(img);
    RoundUpBounds(img.height, m * DCTSIZE);
    RestOfRows(img.height, m, t);
    RowGroupsOf(img.height, m, v, t);
  }

  lemma RestOfRows(h: nat, m: nat, t: nat)
    requires 1 <= t && (t - 1) * (m * DCTSIZE) < h <= t * (m * DCTSIZE)
    ensures 0 < h - (t - 1) * DCTSIZE * m <= m * DCTSIZE
  {
    Regroup(t - 1, m);
    Distribute(m * DCTSIZE, t - 1, 1);
  }

  lemma RowGroupsOf(h: nat, m: nat, v: nat, t: nat)
    requires 1 <= t && 0 < m && 0 < v && 0 < h - (t - 1) * DCTSIZE * m <= m * DCTSIZE
    ensures (LastPart(DivRoundUp(h * v, m), v * DCTSIZE) - 1) / v + 1 == DivRoundUp(h - (t - 1) * DCTSIZE * m, m)
  {
    hide DivRoundUp;
    var k: nat := (t - 1) * DCTSIZE;
    var r: nat := h - k * m;
    LastRows(k, r, v, m);
    LastRowGroups(t, DivRoundUp(r * v, m), v, DivRoundUp(r, m));
  }

  // The component's rows, the last ones counted from k * v on
  lemma LastRows(k: nat, r: nat, v: nat, m: nat)
    requires 0 < m && 0 < v && 0 < r <= m * DCTSIZE
    ensures DivRoundUp((k * m + r) * v, m) == k * v + DivRoundUp(r * v, m)
    ensures 1 <= DivRoundUp(r, m) <= DCTSIZE && (DivRoundUp(r, m) - 1) * v < DivRoundUp(r * v, m) <= DivRoundUp(r, m) * v
    ensures 0 < DivRoundUp(r * v, m)
  {
    ScaledSize(r, v, m);
    RoundUpBounds(r, m);
    var q := DivRoundUp(r, m);
    if DCTSIZE < q {
      ProductMonotonic(DCTSIZE, q - 1, m);
    }
    hide DivRoundUp;
    Distribute(v, k * m, r);
    Swap(k, m, v);
    ProductMonotonic(1, v, r);
    RoundUpShift(k * v, r * v, m);
  }

  lemma LastRowGroups(t: nat, x: nat, v: nat, q: nat)
    requires 1 <= t && 0 < v && 0 < x && 1 <= q <= DCTSIZE && (q - 1) * v < x <= q * v
    ensures (LastPart((t - 1) * DCTSIZE * v + x, v * DCTSIZE) - 1) / v + 1 == q
  {
    ProductMonotonic(q, DCTSIZE, v);
    Regroup(t - 1, v);
    Distribute(v * DCTSIZE, t - 1, 1);
    LastPartIs((t - 1) * DCTSIZE * v + x, v * DCTSIZE, t);
    RoundUpIs(x, v, q);
  }

  lemma Regroup(t: nat, m: nat)
    ensures t * (m * DCTSIZE) == t * DCTSIZE * m
  {
  }

  // ----- Scans -----

  // Components of a scan, in the order of the frame
  predicate ScanComps(img: Image, comps: seq<nat>) {
    && 0 < |comps| <= MAX_COMPS_IN_SCAN && (forall i :: 0 <= i < |comps| ==> comps[i] < |img.comps|)
    && forall i, j :: 0 <= i < j < |comps| ==> comps[i] < comps[j]
  }

  // Size of a component's part of an MCU; a scan of one component is not interleaved.
  function McuWidth(img: Image, comps: seq<nat>, i: nat): (w: nat)
    requires ImageOk(img) && ScanComps(img, comps) && i < |comps|
    ensures 1 <= w <= MAX_SAMP_FACTOR
  {
    if |comps| == 1 then 1 else img.comps[comps[i]].h
  }

  function McuHeight(img: Image, comps: seq<nat>, i: nat): (h: nat)
    requires ImageOk(img) && ScanComps(img, comps) && i < |comps|
    ensures 1 <= h <= MAX_SAMP_FACTOR
  {
    if |comps| == 1 then 1 else img.comps[comps[i]].v
  }

  function McusPerRow(img: Image, comps: seq<nat>): nat
    requires ImageOk(img) && ScanComps(img, comps)
  {
    if |comps| == 1 then WidthInBlocks(img, comps[0]) else ImcuColumns(img)
  }

  function McuRowsInScan(img: Image, comps: seq<nat>): nat
    requires ImageOk(img) && ScanComps(img, comps)
  {
    if |comps| == 1 then HeightInBlocks(img, comps[0]) else ImcuRows(img)
  }

  // Blocks of the first n components in an MCU, by index of component
  function Membership(img: Image, comps: seq<nat>, n: nat): seq<nat>
    requires ImageOk(img) && ScanComps(img, comps) && n <= |comps|
  {
    if n == 0 then []
    else Membership(img, comps, n - 1) + seq(McuWidth(img, comps, n - 1) * McuHeight(img, comps, n - 1), _ => n - 1)
  }

  // What is left of a size in the last unit
  function LastPart(size: nat, unit: nat): nat
    requires 0 < unit
  {
    if size % unit == 0 then unit else size % unit
  }

  lemma LastPartIs(size: nat, unit: nat, units: nat)
    requires 1 <= unit && 1 <= units && (units - 1) * unit < size <= units * unit
    ensures LastPart(size, unit) == size - (units - 1) * unit
  {
    var r := size - (units - 1) * unit;
    Distribute(unit, units - 1, 1);
    if r == unit {
      DivMod(unit, units, 0);
    } else {
      DivMod(unit, units - 1, r);
    }
  }

  datatype Part = Part(comp: nat, mcuWidth: nat, mcuHeight: nat, lastColWidth: nat, lastRowHeight: nat)

  datatype Setup = Setup(mcusPerRow: nat, mcuRowsInScan: nat, parts: seq<Part>, membership: seq<nat>)

  // The setup describes the scan: sizes of whole MCUs and of what is left in the last ones.
  predicate Describes(setup: Setup, img: Image, comps: seq<nat>)
    requires ImageOk(img) && ScanComps(img, comps)
  {
    && setup.mcusPerRow == McusPerRow(img, comps) && setup.mcuRowsInScan == McuRowsInScan(img, comps)
    && setup.membership == Membership(img, comps, |comps|) && |setup.parts| == |comps|
    && forall i :: 0 <= i < |comps| ==> PartOk(setup.parts[i], img, comps, i)
  }

  predicate PartOk(p: Part, img: Image, comps: seq<nat>, i: nat)
    requires ImageOk(img) && ScanComps(img, comps) && i < |comps|
  {
    && p.comp == comps[i] && p.mcuWidth == McuWidth(img, comps, i) && p.mcuHeight == McuHeight(img, comps, i)
    && p.lastColWidth == WidthInBlocks(img, comps[i]) - (McusPerRow(img, comps) - 1) * p.mcuWidth
    && 1 <= p.lastColWidth <= p.mcuWidth
    && p.lastRowHeight == HeightInBlocks(img, comps[i]) - (ImcuRows(img) - 1) * img.comps[comps[i]].v
    && 1 <= p.lastRowHeight <= img.comps[comps[i]].v
  }

  // In a scan of one component the MCUs are its blocks, and its samples, which are h of the largest
  // factor's, need so many of 8 by 8; otherwise an MCU spans 8 samples times the largest factors.
  predicate McusNeed(mcusPerRow: nat, mcuRows: nat, img: Image, comps: seq<nat>, h: nat, v: nat)
    requires ImageOk(img) && ScanComps(img, comps)
  {
    var c := img.comps[comps[0]];
    && JustSpans(mcusPerRow, if |comps| == 1 then img.width * c.h else img.width, h * DCTSIZE)
    && JustSpans(mcuRows, if |comps| == 1 then img.height * c.v else img.height, v * DCTSIZE)
  }

  predicate Sized(setup: Setup, img: Image, comps: seq<nat>, h: nat, v: nat)
    requires ImageOk(img) && ScanComps(img, comps)
  {
    McusNeed(setup.mcusPerRow, setup.mcuRowsInScan, img, comps, h, v)
  }

  predicate McusCover(img: Image, comps: seq<nat>, h: nat, v: nat)
    requires ImageOk(img) && ScanComps(img, comps)
  {
    McusNeed(McusPerRow(img, comps), McuRowsInScan(img, comps), img, comps, h, v)
  }

  lemma McusNeeded(img: Image, comps: seq<nat>, h: nat, v: nat)
    requires ImageOk(img) && ScanComps(img, comps) && Largest(img, h, v)
    ensures McusCover(img, comps, h, v)
  {
    hide DivRoundUp;
    LargestOnly(img, h, v);
    var c := img.comps[comps[0]];
    ProductMonotonic(1, c.h, img.width);
    ProductMonotonic(1, c.v, img.height);
    RoundUpBounds(if |comps| == 1 then img.width * c.h else img.width, h * DCTSIZE);
    RoundUpBounds(if |comps| == 1 then img.height * c.v else img.height, v * DCTSIZE);
  }

  // A component with the largest factors has the blocks that its samples need, one for every pixel.
  lemma FullWidth(img: Image, c: nat)
    requires ImageOk(img) && c < |img.comps| && forall d :: 0 <= d < |img.comps| ==> img.comps[d].h <= img.comps[c].h
    ensures JustSpans(WidthInBlocks(img, c), img.width, DCTSIZE)
  {
    MaxAttained(img.comps);
    assert img.comps[c].h == MaxH(img.comps);
    hide JustSpans, DivRoundUp, MaxH;
    SameFactor(img.width, img.comps[c].h);
  }

  lemma FullHeight(img: Image, c: nat)
    requires ImageOk(img) && c < |img.comps| && forall d :: 0 <= d < |img.comps| ==> img.comps[d].v <= img.comps[c].v
    ensures JustSpans(HeightInBlocks(img, c), img.height, DCTSIZE)
  {
    MaxAttained(img.comps);
    assert img.comps[c].v == MaxV(img.comps);
    hide JustSpans, DivRoundUp, MaxV;
    SameFactor(img.height, img.comps[c].v);
  }

  lemma SameFactor(size: nat, f: nat)
    requires 0 < size && 0 < f
    ensures JustSpans(DivRoundUp(size * f, f * DCTSIZE), size, DCTSIZE)
  {
    hide DivRoundUp;
    var n := DivRoundUp(size * f, f * DCTSIZE);
    ProductMonotonic(1, f, size);
    RoundUpBounds(size * f, f * DCTSIZE);
    var m: nat := n - 1;
    Factor(m, f);
    Factor(n, f);
    CancelLess(m * DCTSIZE, size, f);
    if size > n * DCTSIZE {
      StrictProduct(n * DCTSIZE, size, f);
    }
  }

  lemma Factor(n: nat, f: nat)
    ensures n * (f * DCTSIZE) == n * DCTSIZE * f
  {
  }

  // per_scan_setup: an error if an MCU has too many blocks
  method PerScanSetup(img: Image, comps: seq<nat>) returns (ok: bool, setup: Setup)
    requires ImageOk(img) && ScanComps(img, comps)
    ensures ok <==> |Membership(img, comps, |comps|)| <= MAX_BLOCKS_IN_MCU
    ensures ok ==> Describes(setup, img, comps) && forall h, v :: Largest(img, h, v) ==> Sized(setup, img, comps, h, v)
  {
    forall h, v | Largest(img, h, v)
      ensures McusCover(img, comps, h, v)
    {
      McusNeeded(img, comps, h, v);
    }
    if |comps| == 1 {
      var c := comps[0];
      BlocksOfComponent(img, c);
      LastPartIs(HeightInBlocks(img, c), img.comps[c].v, ImcuRows(img));
      var p := Part(c, 1, 1, 1, LastPart(HeightInBlocks(img, c), img.comps[c].v));
      assert Membership(img, comps, 1) == Membership(img, comps, 0) + seq(1, _ => 0) == [0];
      return true, Setup(WidthInBlocks(img, c), HeightInBlocks(img, c), [p], [0]);
    }
    ok, setup := InterleavedSetup(img, comps);
  }

  method InterleavedSetup(img: Image, comps: seq<nat>) returns (ok: bool, setup: Setup)
    requires ImageOk(img) && ScanComps(img, comps) && |comps| > 1
    ensures ok <==> |Membership(img, comps, |comps|)| <= MAX_BLOCKS_IN_MCU
    ensures ok ==> Describes(setup, img, comps)
  {
    hide ImageOk, MaxH, MaxV, WidthInBlocks, HeightInBlocks, ImcuColumns, ImcuRows, LastPart;
    setup := Setup(ImcuColumns(img), ImcuRows(img), [], []);
    for i := 0 to |comps|
      invariant setup.mcusPerRow == McusPerRow(img, comps) && setup.mcuRowsInScan == McuRowsInScan(img, comps)
      invariant |setup.parts| == i && forall j :: 0 <= j < i ==> PartOk(setup.parts[j], img, comps, j)
      invariant setup.membership == Membership(img, comps, i) && |setup.membership| <= MAX_BLOCKS_IN_MCU
    {
      var p := InterleavedPart(img, comps, i);
      var mcublks := p.mcuWidth * p.mcuHeight;
      var next := setup.membership + seq(mcublks, _ => i);
      MembershipGrows(img, comps, i + 1, |comps|);
      if |setup.membership| + mcublks > MAX_BLOCKS_IN_MCU {
        return false, setup;
      }
      setup := setup.(parts := setup.parts + [p]);
      ghost var before := setup.membership;
      while mcublks > 0
        invariant 0 <= mcublks <= p.mcuWidth * p.mcuHeight
        invariant setup.membership == before + seq(p.mcuWidth * p.mcuHeight - mcublks, _ => i)
        invariant setup == setup.(membership := setup.membership) && |setup.parts| == i + 1
        invariant setup.mcusPerRow == McusPerRow(img, comps) && setup.mcuRowsInScan == McuRowsInScan(img, comps)
        invariant forall j :: 0 <= j < i + 1 ==> PartOk(setup.parts[j], img, comps, j)
      {
        setup := setup.(membership := setup.membership + [i]);
        mcublks := mcublks - 1;
      }
    }
    return true, setup;
  }

  function InterleavedPart(img: Image, comps: seq<nat>, i: nat): (p: Part)
    requires ImageOk(img) && ScanComps(img, comps) && |comps| > 1 && i < |comps|
    ensures PartOk(p, img, comps, i)
  {
    var c := comps[i];
    BlocksOfComponent(img, c);
    LastPartIs(WidthInBlocks(img, c), img.comps[c].h, ImcuColumns(img));
    LastPartIs(HeightInBlocks(img, c), img.comps[c].v, ImcuRows(img));
    Part(c, img.comps[c].h, img.comps[c].v, LastPart(WidthInBlocks(img, c), img.comps[c].h),
         LastPart(HeightInBlocks(img, c), img.comps[c].v))
  }

  lemma {:induction false} MembershipGrows(img: Image, comps: seq<nat>, m: nat, n: nat)
    requires ImageOk(img) && ScanComps(img, comps) && m <= n <= |comps|
    ensures |Membership(img, comps, m)| <= |Membership(img, comps, n)|
  {
    if m < n {
      MembershipGrows(img, comps, m, n - 1);
    }
  }
}
