// Scans of a whole image through the coefficient controllers and the sequential Huffman coder.
module HuffmanImage {
  import opened Arithmetic
  import opened ArithInterval
  import opened ByteSource
  import opened ArithScan
  import opened PointTransform
  import opened Geometry
  import opened McuPlaces
  import opened McuPadding
  import opened McuPlanes
  import opened McuWriter
  import HuffmanMerge
  import opened HuffmanTables
  import opened HuffmanBlock
  import opened HuffmanSegments
  import opened HuffmanStatistics
  import opened HuffmanOptimize
  import opened HuffmanMcu
  import opened HuffmanRoundTrip

  // ----- Blocks one behind the other -----

  function Flatten<T>(xs: seq<seq<T>>): seq<T> {
    if xs == [] then [] else Flatten(xs[..|xs| - 1]) + xs[|xs| - 1]
  }

  lemma {:induction false} FlattenSize<T>(xs: seq<seq<T>>, n: nat)
    requires forall i :: 0 <= i < |xs| ==> |xs[i]| == n
    ensures |Flatten(xs)| == BlocksIn(n, |xs|)
  {
    if xs != [] {
      FlattenSize(xs[..|xs| - 1], n);
    }
  }

  // Blocks of lists of equal sizes stand at the same positions.
  lemma {:induction false} FlattenAlike<S, T>(xs: seq<seq<S>>, ys: seq<seq<T>>, x: nat) returns (i: nat, n: nat)
    requires |xs| == |ys| && (forall i :: 0 <= i < |xs| ==> |xs[i]| == |ys[i]|) && x < |Flatten(xs)|
    ensures i < |xs| && n < |xs[i]| && |Flatten(xs)| == |Flatten(ys)|
    ensures Flatten(xs)[x] == xs[i][n] && Flatten(ys)[x] == ys[i][n]
  {
    FlattenSizes(xs, ys);
    var m := |xs| - 1;
    FlattenSizes(xs[..m], ys[..m]);
    if x < |Flatten(xs[..m])| {
      i, n := FlattenAlike(xs[..m], ys[..m], x);
    } else {
      i, n := m, x - |Flatten(xs[..m])|;
    }
  }

  lemma {:induction false} FlattenSizes<S, T>(xs: seq<seq<S>>, ys: seq<seq<T>>)
    requires |xs| == |ys| && (forall i :: 0 <= i < |xs| ==> |xs[i]| == |ys[i]|)
    ensures |Flatten(xs)| == |Flatten(ys)|
  {
    if xs != [] {
      FlattenSizes(xs[..|xs| - 1], ys[..|ys| - 1]);
    }
  }

  // What is in a list is in the whole, and nothing else.
  lemma {:induction false} FlattenContents<T>(xs: seq<seq<T>>, x: T)
    ensures x in Flatten(xs) <==> exists i :: 0 <= i < |xs| && x in xs[i]
  {
    if xs != [] {
      var init := xs[..|xs| - 1];
      FlattenContents(init, x);
      assert forall i :: 0 <= i < |init| ==> init[i] == xs[i];
    }
  }

  lemma {:induction false} FlattenDistinct(layout: seq<seq<nat>>)
    requires DistinctLayout(layout)
    ensures DistinctRows(Flatten<nat>(layout))
  {
    if layout != [] {
      var init, last := layout[..|layout| - 1], layout[|layout| - 1];
      FlattenDistinct(init);
      forall x, y | 0 <= x < |Flatten<nat>(init)| && 0 <= y < |last|
        ensures Flatten<nat>(init)[x] != last[y]
      {
        FlattenContents(init, Flatten<nat>(init)[x]);
        assert Flatten<nat>(init)[x] in Flatten<nat>(init);
        var i :| 0 <= i < |init| && Flatten<nat>(init)[x] in init[i];
        var n :| 0 <= n < |init[i]| && init[i][n] == Flatten<nat>(init)[x];
        assert layout[i] == init[i];
      }
    }
  }

  lemma {:induction false} FlattenIndex<S, T>(xs: seq<seq<S>>, ys: seq<seq<T>>, i: nat, n: nat) returns (x: nat)
    requires |xs| == |ys| && (forall j :: 0 <= j < |xs| ==> |xs[j]| == |ys[j]|) && i < |xs| && n < |xs[i]|
    ensures x < |Flatten(xs)| == |Flatten(ys)| && Flatten(xs)[x] == xs[i][n] && Flatten(ys)[x] == ys[i][n]
  {
    FlattenSizes(xs, ys);
    var m := |xs| - 1;
    FlattenSizes(xs[..m], ys[..m]);
    if i < m {
      x := FlattenIndex(xs[..m], ys[..m], i, n);
    } else {
      x := |Flatten(xs[..m])| + n;
    }
  }

  // ----- A scan of an image -----

  ghost predicate HuffmanScanOk(img: Image, s: Scan, comps: seq<nat>)
    requires ImageOk(img)
  {
    && ScanComps(img, comps) && ScanOk(s) && ModeOf(s) == Sequential && |s.comps| == |comps|
    && s.membership == Membership(img, comps, |comps|)
    && forall c :: 0 <= c < |s.comps| ==> s.comps[c].dcTbl < NUM_HUFF_TBLS && s.comps[c].acTbl < NUM_HUFF_TBLS
  }

  // The components of all blocks of so many MCUs
  function BlockComps(membership: seq<nat>, mcus: nat): seq<nat> {
    Flatten<nat>(seq(mcus, _ => membership))
  }

  lemma CompsServe(membership: seq<nat>, mcus: nat, nc: nat)
    requires 0 < mcus && forall c: nat :: c in membership <==> c < nc
    ensures var comps := BlockComps(membership, mcus);
            && |comps| == BlocksIn(|membership|, mcus) && (forall i :: 0 <= i < |comps| ==> comps[i] < nc)
            && forall c: nat :: c < nc ==> c in comps
  {
    hide Flatten;
    var all := seq(mcus, _ => membership);
    FlattenSize(all, |membership|);
    forall i: nat | i < |Flatten<nat>(all)|
      ensures Flatten<nat>(all)[i] < nc
    {
      var j, n := FlattenAlike(all, all, i);
      assert membership[n] in membership;
    }
    forall c: nat | c < nc
      ensures c in Flatten<nat>(all)
    {
      assert all[0] == membership && c in membership;
      FlattenContents(all, c);
    }
  }

  // The blocks sent are such as the coder takes.
  lemma BlocksServe(img: Image, s: Scan, comps: seq<nat>, dct: seq<Block>)
    requires ImageOk(img) && HuffmanScanOk(img, s, comps) && |dct| == Total(img)
    ensures 0 < |s.membership| && |Flatten<Block>(Mcus(img, comps, dct))| == BlocksIn(|s.membership|, McuCount(img, comps))
    ensures BlocksOk(s, BlockComps(s.membership, McuCount(img, comps)), Flatten<Block>(Mcus(img, comps, dct)))
    ensures forall c :: 0 <= c < |s.comps| ==> c in BlockComps(s.membership, McuCount(img, comps))
  {
    hide ImageOk, OrderOk, TablesOk, McuCount, Mcus, Total, BlocksIn, Flatten, BlockComps, Membership;
    McuSizes(img, comps, dct);
    FlattenSize(Mcus(img, comps, dct), |s.membership|);
    MembersAll(img, comps, |comps|);
    assert 0 in s.membership;
    CompsServe(s.membership, McuCount(img, comps), |comps|);
    OrderLength(s.order);
  }

  lemma McuSizes(img: Image, comps: seq<nat>, dct: seq<Block>)
    requires ImageOk(img) && ScanComps(img, comps) && |dct| == Total(img)
    ensures 0 < McuCount(img, comps)
    ensures forall k :: 0 <= k < McuCount(img, comps) ==>
              |Mcus(img, comps, dct)[k]| == |Layout(img, comps)[k]| == |Membership(img, comps, |comps|)|
  {
    hide ImageOk, ScanComps, PlacesOf, Total, Membership, McusPerRow, McuRowsInScan;
    SomeMcus(img, comps);
    ProductMonotonic(1, McuRowsInScan(img, comps), McusPerRow(img, comps));
    forall k | 0 <= k < McuCount(img, comps)
      ensures |Mcus(img, comps, dct)[k]| == |Layout(img, comps)[k]| == |Membership(img, comps, |comps|)|
    {
      RowsWithin(img, comps, k);
    }
  }

  // Every component of the scan has blocks in the MCU, and no other has.
  lemma {:induction false} MembersAll(img: Image, comps: seq<nat>, n: nat)
    requires ImageOk(img) && ScanComps(img, comps) && n <= |comps|
    ensures forall c: nat :: c in Membership(img, comps, n) <==> c < n
  {
    hide ImageOk;
    if n > 0 {
      MembersAll(img, comps, n - 1);
      ProductMonotonic(1, McuWidth(img, comps, n - 1), McuHeight(img, comps, n - 1));
      var last := seq(McuWidth(img, comps, n - 1) * McuHeight(img, comps, n - 1), _ => n - 1);
      assert last[0] == n - 1;
    }
  }

  // The arrays of the scan's components have no AC coefficients yet.
  ghost predicate Cleared(img: Image, comps: seq<nat>, planes: seq<Block>)
    requires ImageOk(img) && ScanComps(img, comps) && |planes| == Total(img)
  {
    forall p :: InPlane(img, p) && p.c in comps ==> ClearedAt(img, planes, p)
  }

  ghost predicate ClearedAt(img: Image, planes: seq<Block>, p: Place)
    requires ImageOk(img) && |planes| == Total(img) && InPlane(img, p)
  {
    RowInside(img, p);
    forall i :: 1 <= i < DCTSIZE2 ==> planes[RowOf(img, p)][i] == 0
  }

  lemma RowsServe(img: Image, s: Scan, comps: seq<nat>, dct: seq<Block>, planes: seq<Block>)
    requires ImageOk(img) && HuffmanScanOk(img, s, comps) && |dct| == |planes| == Total(img) && Cleared(img, comps, planes)
    ensures var blocks, rows := Flatten<Block>(Mcus(img, comps, dct)), Flatten<nat>(Layout(img, comps));
            RowsCleared(s, blocks, rows, 0, |blocks|, planes)
  {
    hide ImageOk, TablesOk, OrderOk, McuCount, Total, ScanComps, PlacesOf, Membership, InPlane, RowOf, DistinctLayout, DistinctRows,
      InScan, Flatten, AtZigzag, ZerosKnown;
    var mcus, layout := Mcus(img, comps, dct), Layout(img, comps);
    McuSizes(img, comps, dct);
    FlattenSizes(mcus, layout);
    LayoutSound(img, comps);
    FlattenDistinct(layout);
    forall x: nat | x < |Flatten<Block>(mcus)|
      ensures Flatten<nat>(layout)[x] < |planes| && ZerosKnown(s, Flatten<Block>(mcus)[x], planes[Flatten<nat>(layout)[x]])
    {
      var k, n := FlattenAlike(mcus, layout, x);
      PlacesInPlane(img, comps, k);
      var p := PlacesOf(img, comps, k)[n];
      assert layout[k][n] == RowOf(img, p);
      var i := PlaceDetermines(img, comps, k, p);
      assert ClearedAt(img, planes, p);
      RowInside(img, p);
      RowCleared(s, Flatten<Block>(mcus)[x], planes[RowOf(img, p)]);
    }
  }

  lemma RowCleared(s: Scan, block: Block, was: Block)
    requires ScanOk(s) && forall i :: 1 <= i < DCTSIZE2 ==> was[i] == 0
    ensures ZerosKnown(s, block, was)
  {
    hide TablesOk, AtZigzag;
    forall k | 1 <= k < DCTSIZE2
      ensures was[s.order[k]] == 0
    {
      assert s.order[k] != s.order[0];
    }
  }

  // What has been decoded has arrived at its place.
  lemma DecodedArrived(img: Image, s: Scan, comps: seq<nat>, dct: seq<Block>, was: seq<Block>, now: seq<Block>, p: Place)
    requires ImageOk(img) && ScanComps(img, comps) && |dct| == |was| == Total(img) && InPlane(img, p)
    requires var blocks := Flatten<Block>(Mcus(img, comps, dct));
             Decoded(blocks, Flatten<nat>(Layout(img, comps)), 0, |blocks|, was, now)
    ensures RowOf(img, p) < |now| == |was|
    ensures now[RowOf(img, p)] == if InScan(img, comps, p) then Padded(img, dct, p) else was[RowOf(img, p)]
  {
    hide ImageOk, McuCount, Total, ScanComps, PlacesOf, Membership, InPlane, RowOf, InScan, Padded;
    var mcus, layout := Mcus(img, comps, dct), Layout(img, comps);
    RowInside(img, p);
    LayoutComplete(img, comps, p);
    McuSizes(img, comps, dct);
    if InScan(img, comps, p) {
      var k := McuWith(img, comps, p);
      var n :| 0 <= n < |PlacesOf(img, comps, k)| && PlacesOf(img, comps, k)[n] == p;
      var x := FlattenIndex(mcus, layout, k, n);
    } else {
      FlattenContents(layout, RowOf(img, p));
      assert Flatten<nat>(layout)[0..|Flatten<nat>(layout)|] == Flatten<nat>(layout);
    }
  }

  // ----- Compressing and decoding -----

  // A scan in two passes, statistics and output, for both of which the coefficient controller sends the
  // same MCUs. It is refused just if an MCU has too many blocks or a coefficient too many bits (or a code
  // word gets too long); otherwise its segments hold its blocks, unless a flush loses bits.
  method EncodeImageScan(coef: CoefController, mode: PassMode, s: Scan, comps: seq<nat>, space: nat, wideEncoder: bool)
    returns (fits: bool, outcome: Outcome, intact: bool, out: seq<Byte>, tables: seq<Tables>, ghost segments: seq<seq<Byte>>)
    requires ImageOk(coef.img) && HuffmanScanOk(coef.img, s, comps) && 0 < space
    requires |coef.dct| == coef.wholeImage.Length == Total(coef.img) && coef.workspace.Length == MAX_BLOCKS_IN_MCU
    requires coef.wholeImage != coef.workspace && (mode == SaveAndPass || (mode == CrankDest && AllLoaded(coef)))
    requires 63 * BlocksIn(|s.membership|, McuCount(coef.img, comps)) <= HuffmanMerge.SEARCH_LIMIT
    modifies coef, coef.wholeImage, coef.workspace
    ensures fits <==> |s.membership| <= MAX_BLOCKS_IN_MCU
    ensures fits ==> AllLoaded(coef) && (outcome == BadCoefficient <==> !ScanAcceptable(coef.img, s, comps, coef.dct))
    ensures 63 * BlocksIn(|s.membership|, McuCount(coef.img, comps)) < 9227464 ==> outcome != CodeTooLong
    ensures fits && outcome == Written ==>
              && HasCodes(coef.img, s, comps, coef.dct, tables) && segments != [] && out == ScanBytes(segments)
              && (intact <==> (wideEncoder ==> FlushesKeep(coef.img, s, comps, coef.dct, tables)))
              && (intact <==> ScanSent(coef.img, s, comps, coef.dct, tables, segments))
    ensures fits && outcome == Written ==> Shared(s, tables) && (ShortEnds(tables) ==> intact)
  {
    hide ImageOk, HuffmanScanOk, Total, McuCount, Mcus, Layout, Flatten, BlockComps, BlocksOk, AllAcceptable, Loaded, Limits, ImcuRows,
      Membership, Steady, Calls, BlocksIn, Coded, FlushesOk, ByNumber, Shared, ShortEnds, SegmentOk, ScanBits, ScanBytes, HuffmanMcu.Sent;
    outcome, intact, out, tables, segments := BadCoefficient, false, [], [], [];
    var first, second;
    ScanCompsOk(coef.img, s, comps);
    fits, first := SendScan(coef, mode, comps, Calls(coef.img, comps, space));
    if !fits {
      return;
    }
    fits, second := SendScan(coef, CrankDest, comps, Calls(coef.img, comps, space));
    assert first == second;
    BlocksServe(coef.img, s, comps, coef.dct);
    var dc, ac, dcCounts, acCounts;
    var mcus := McuCount(coef.img, comps);
    outcome, intact, out, tables, dc, ac, dcCounts, acCounts, segments :=
      EncodeOptimized(s, BlockComps(s.membership, mcus), Flatten<Block>(first), mcus, wideEncoder);
    NumberedTables(s, tables, dc, ac);
  }

  // The segments hold what the scan emits with these tables.
  ghost predicate ScanSent(img: Image, s: Scan, comps: seq<nat>, dct: seq<Block>, tables: seq<Tables>, segments: seq<seq<Byte>>)
    requires ImageOk(img) && HuffmanScanOk(img, s, comps) && |dct| == Total(img)
  {
    var blockComps, blocks := BlockComps(s.membership, McuCount(img, comps)), Flatten<Block>(Mcus(img, comps, dct));
    && HasCodes(img, s, comps, dct, tables) && SegmentOk(s, tables, blockComps, blocks) && segments != []
    && HuffmanMcu.Sent(ScanBits(s, tables, blockComps, blocks, 0, StartState(s, |tables|)), segments)
  }

  // Decoding a scan into the arrays, where available says how many bytes the source has for each MCU: its
  // blocks arrive at their places, with their padding, and nothing else changes.
  method ReceiveScan(img: Image, s: Scan, comps: seq<nat>, decoders: seq<Decoders>, planes: array<Block>, stream: seq<Byte>,
                     available: seq<nat>, wideDecoder: bool, ghost tables: seq<Tables>, ghost dct: seq<Block>,
                     ghost segments: seq<seq<Byte>>, ghost marker: Byte, ghost follow: seq<Byte>)
    returns (warnings: nat, unread: Byte, rest: seq<Byte>)
    requires ImageOk(img) && HuffmanScanOk(img, s, comps) && |dct| == planes.Length == Total(img) && DecodersFor(tables) == decoders
    requires |available| == McuCount(img, comps) && Cleared(img, comps, planes[..]) && marker != 0 && marker != 0xFF
    requires ScanSent(img, s, comps, dct, tables, segments) && segments != []
    requires stream == Remaining(segments, 0, [0xFF, marker] + follow)
    modifies planes
    ensures warnings == 0 && Arrived(img, comps, dct, old(planes[..]), planes[..])
    ensures Unread(unread, rest) == [0xFF, marker] + follow && unread != 0xFF
  {
    hide ImageOk, HuffmanScanOk, Total, McuCount, Mcus, Layout, Flatten, BlockComps, BlocksOk, RowsCleared, Decoded, Membership, Cleared,
      BlocksIn, InPlane, InScan, RowOf, Padded, Coded, SegmentOk, ScanBits, HuffmanMcu.Sent, Remaining, DecodersFor;
    ScanCompsOk(img, s, comps);
    BlocksServe(img, s, comps, dct);
    RowsServe(img, s, comps, dct, planes[..]);
    ghost var was, blocks := planes[..], Flatten<Block>(Mcus(img, comps, dct));
    SizesAgree(s, BlockComps(s.membership, |available|), blocks);
    warnings, unread, rest := DecodeScan(wideDecoder, stream, available, s, decoders, BlockComps(s.membership, |available|),
                                         Flatten<nat>(Layout(img, comps)), planes, tables, blocks, segments, marker, follow);
    forall p | InPlane(img, p)
      ensures ArrivedAt(img, comps, dct, was, planes[..], p)
    {
      DecodedArrived(img, s, comps, dct, was, planes[..], p);
    }
  }

  lemma NumberedTables(s: Scan, tables: seq<Tables>, dc: seq<EncoderTable>, ac: seq<EncoderTable>)
    ensures ByNumber(s, tables, dc, ac) ==> |tables| == |s.comps|
  {
  }

  // The tables have code words for all that the scan emits.
  ghost predicate HasCodes(img: Image, s: Scan, comps: seq<nat>, dct: seq<Block>, tables: seq<Tables>)
    requires ImageOk(img) && HuffmanScanOk(img, s, comps) && |dct| == Total(img)
  {
    && |tables| == |s.comps|
    && Coded(s, tables, BlockComps(s.membership, McuCount(img, comps)), Flatten<Block>(Mcus(img, comps, dct)), 0, StartState(s, |tables|))
  }

  // With these tables no flush of a word of 64 bits loses any of it.
  ghost predicate FlushesKeep(img: Image, s: Scan, comps: seq<nat>, dct: seq<Block>, tables: seq<Tables>)
    requires ImageOk(img) && HuffmanScanOk(img, s, comps) && |dct| == Total(img) && HasCodes(img, s, comps, dct, tables)
  {
    FlushesOk(true, s, tables, BlockComps(s.membership, McuCount(img, comps)), Flatten<Block>(Mcus(img, comps, dct)))
  }

  lemma ScanCompsOk(img: Image, s: Scan, comps: seq<nat>)
    requires ImageOk(img) && HuffmanScanOk(img, s, comps)
    ensures ScanComps(img, comps) && s.membership == Membership(img, comps, |comps|)
  {
  }

  ghost predicate AllLoaded(coef: CoefController)
    requires ImageOk(coef.img) && |coef.dct| == coef.wholeImage.Length == Total(coef.img)
    reads coef.wholeImage
  {
    Loaded(coef.img, coef.dct, coef.wholeImage[..], Limits(coef.img, ImcuRows(coef.img)))
  }

  // No coefficient and no DC difference has too many bits.
  ghost predicate ScanAcceptable(img: Image, s: Scan, comps: seq<nat>, dct: seq<Block>)
    requires ImageOk(img) && HuffmanScanOk(img, s, comps) && |dct| == Total(img)
  {
    BlocksServe(img, s, comps, dct);
    AllAcceptable(s, BlockComps(s.membership, McuCount(img, comps)), Flatten<Block>(Mcus(img, comps, dct)), 0, StartState(s, |s.comps|))
  }

  // The scan's blocks have arrived, and nothing else has changed.
  ghost predicate Arrived(img: Image, comps: seq<nat>, dct: seq<Block>, was: seq<Block>, now: seq<Block>)
    requires ImageOk(img) && ScanComps(img, comps) && |dct| == |was| == |now| == Total(img)
  {
    forall p :: InPlane(img, p) ==> ArrivedAt(img, comps, dct, was, now, p)
  }

  ghost predicate ArrivedAt(img: Image, comps: seq<nat>, dct: seq<Block>, was: seq<Block>, now: seq<Block>, p: Place)
    requires ImageOk(img) && ScanComps(img, comps) && |dct| == |was| == |now| == Total(img) && InPlane(img, p)
  {
    RowInside(img, p);
    now[RowOf(img, p)] == if InScan(img, comps, p) then Padded(img, dct, p) else was[RowOf(img, p)]
  }

  // ----- Sequential images -----

  datatype HuffmanScan = HuffmanScan(comps: seq<nat>, scan: Scan, available: seq<nat>)

  ghost predicate HuffmanScansOk(img: Image, xs: seq<HuffmanScan>)
    requires ImageOk(img)
  {
    forall n :: 0 <= n < |xs| ==>
      && HuffmanScanOk(img, xs[n].scan, xs[n].comps) && |xs[n].available| == McuCount(img, xs[n].comps)
      && 63 * BlocksIn(|xs[n].scan.membership|, |xs[n].available|) <= HuffmanMerge.SEARCH_LIMIT
  }

  // Is component c in one of the first n scans?
  predicate Sent(xs: seq<HuffmanScan>, n: nat, c: nat)
    requires n <= |xs|
  {
    exists m :: 0 <= m < n && c in xs[m].comps
  }

  // Every component is in just one scan, as in every sequential script that is accepted.
  ghost predicate EachOnce(nc: nat, xs: seq<HuffmanScan>) {
    && (forall c: nat :: c < nc ==> Sent(xs, |xs|, c))
    && forall n, c :: 0 <= n < |xs| && c in xs[n].comps ==> !Sent(xs, n, c)
  }

  // After n scans their components have arrived, and the others have no blocks yet.
  ghost predicate Progress(img: Image, dct: seq<Block>, planes: seq<Block>, xs: seq<HuffmanScan>, n: nat)
    requires ImageOk(img) && |dct| == |planes| == Total(img) && n <= |xs|
  {
    forall p :: InPlane(img, p) ==> PlaceProgress(img, dct, planes, xs, n, p)
  }

  ghost predicate PlaceProgress(img: Image, dct: seq<Block>, planes: seq<Block>, xs: seq<HuffmanScan>, n: nat, p: Place)
    requires ImageOk(img) && |dct| == |planes| == Total(img) && n <= |xs| && InPlane(img, p)
  {
    if Sent(xs, n, p.c) then Real(img, p) ==> SameBlock(img, dct, planes, p) else ClearedAt(img, planes, p)
  }

  lemma NextProgress(img: Image, dct: seq<Block>, was: seq<Block>, now: seq<Block>, xs: seq<HuffmanScan>, n: nat)
    requires ImageOk(img) && |dct| == |was| == |now| == Total(img) && n < |xs| && EachOnce(|img.comps|, xs)
    requires ScanComps(img, xs[n].comps) && Progress(img, dct, was, xs, n) && Arrived(img, xs[n].comps, dct, was, now)
    ensures Progress(img, dct, now, xs, n + 1)
  {
    hide ImageOk, ScanComps, Total, InPlane, Real, RowOf, InScan;
    forall p | InPlane(img, p)
      ensures PlaceProgress(img, dct, now, xs, n + 1, p)
    {
      assert PlaceProgress(img, dct, was, xs, n, p) && ArrivedAt(img, xs[n].comps, dct, was, now, p);
      RowInside(img, p);
      InScanOf(img, xs[n].comps, p);
      assert Sent(xs, n + 1, p.c) <==> Sent(xs, n, p.c) || p.c in xs[n].comps;
    }
  }

  lemma InScanOf(img: Image, comps: seq<nat>, p: Place)
    requires ImageOk(img) && ScanComps(img, comps) && InPlane(img, p)
    ensures InScan(img, comps, p) ==> p.c in comps
    ensures Real(img, p) && p.c in comps ==> InScan(img, comps, p)
  {
  }

  lemma StillCleared(img: Image, dct: seq<Block>, planes: seq<Block>, xs: seq<HuffmanScan>, n: nat)
    requires ImageOk(img) && |dct| == |planes| == Total(img) && n < |xs| && EachOnce(|img.comps|, xs)
    requires ScanComps(img, xs[n].comps) && Progress(img, dct, planes, xs, n)
    ensures Cleared(img, xs[n].comps, planes)
  {
    hide ImageOk, ScanComps, Total, InPlane, ClearedAt;
    forall p | InPlane(img, p) && p.c in xs[n].comps
      ensures ClearedAt(img, planes, p)
    {
      assert PlaceProgress(img, dct, planes, xs, n, p);
    }
  }

  // The tables made for the scans that have been written have code words for them, and with words of 64
  // bits no flush has lost any.
  ghost predicate AllKept(img: Image, dct: seq<Block>, xs: seq<HuffmanScan>, made: seq<seq<Tables>>, wideEncoder: bool, n: nat)
    requires ImageOk(img) && HuffmanScansOk(img, xs) && |dct| == Total(img) && n <= |made| <= |xs|
  {
    forall m :: 0 <= m < n ==> Kept(img, dct, xs[m], made[m], wideEncoder)
  }

  ghost predicate Kept(img: Image, dct: seq<Block>, x: HuffmanScan, tables: seq<Tables>, wideEncoder: bool)
    requires ImageOk(img) && HuffmanScanOk(img, x.scan, x.comps) && |dct| == Total(img)
  {
    && HasCodes(img, x.scan, x.comps, dct, tables)
    && (wideEncoder ==> FlushesKeep(img, x.scan, x.comps, dct, tables))
  }

  // The scan has been written with these tables, and its bytes hold its blocks.
  ghost predicate ScanWritten(img: Image, dct: seq<Block>, x: HuffmanScan, tables: seq<Tables>, out: seq<Byte>, segments: seq<seq<Byte>>)
    requires ImageOk(img) && HuffmanScanOk(img, x.scan, x.comps) && |dct| == Total(img)
  {
    ScanSent(img, x.scan, x.comps, dct, tables, segments) && out == ScanBytes(segments) && Shared(x.scan, tables)
  }

  // All scans of an image, unless one is refused or a flush in it loses bits; made are the tables of the
  // scans up to the one where this happens.
  method EncodeScans(img: Image, dct: seq<Block>, xs: seq<HuffmanScan>, given: seq<Block>, space: nat, wideEncoder: bool)
    returns (ok: bool, outs: seq<seq<Byte>>, made: seq<seq<Tables>>, ghost segments: seq<seq<seq<Byte>>>)
    requires ImageOk(img) && |dct| == |given| == Total(img) && HuffmanScansOk(img, xs) && 0 < space
    ensures |made| <= |xs|
    ensures ok ==> |outs| == |segments| == |made| == |xs| && AllKept(img, dct, xs, made, wideEncoder, |xs|)
    ensures ok ==> forall n :: 0 <= n < |xs| ==>
              && |xs[n].scan.membership| <= MAX_BLOCKS_IN_MCU && ScanAcceptable(img, xs[n].scan, xs[n].comps, dct)
              && ScanWritten(img, dct, xs[n], made[n], outs[n], segments[n])
    ensures forall n :: 0 <= n < |made| ==> HasCodes(img, xs[n].scan, xs[n].comps, dct, made[n])
    ensures (forall n :: 0 <= n < |xs| ==> Transmittable(img, dct, xs[n])) ==> (ok <==> AllKept(img, dct, xs, made, wideEncoder, |made|))
    ensures (forall n :: 0 <= n < |xs| ==> Transmittable(img, dct, xs[n])) && (forall n :: 0 <= n < |made| ==> ShortEnds(made[n])) ==> ok
  {
    hide ImageOk, HuffmanScanOk, ScanComps, Total, McuCount, ScanAcceptable, Loaded, Limits, ImcuRows, BlocksIn, CoefController.DummiesOk,
      HasCodes, FlushesKeep, ShortEnds, ScanSent, ScanBytes, Shared;
    var coef := new CoefController(img, dct, given);
    outs, made, segments := [], [], [];
    for n := 0 to |xs|
      invariant coef.img == img && coef.dct == dct && fresh(coef) && fresh(coef.wholeImage) && fresh(coef.workspace)
      invariant coef.wholeImage.Length == Total(img) && coef.workspace.Length == MAX_BLOCKS_IN_MCU && coef.wholeImage != coef.workspace
      invariant 0 < n ==> AllLoaded(coef)
      invariant |outs| == |made| == |segments| == n && AllKept(img, dct, xs, made, wideEncoder, n)
      invariant forall m :: 0 <= m < n ==>
                  && |xs[m].scan.membership| <= MAX_BLOCKS_IN_MCU && ScanAcceptable(img, xs[m].scan, xs[m].comps, dct)
                  && ScanWritten(img, dct, xs[m], made[m], outs[m], segments[m])
    {
      var x := xs[n];
      var fits, outcome, intact, out, tables;
      ghost var sent;
      fits, outcome, intact, out, tables, sent :=
        EncodeImageScan(coef, if n == 0 then SaveAndPass else CrankDest, x.scan, x.comps, space, wideEncoder);
      if !fits || outcome != Written {
        return false, outs, made, segments;
      }
      outs, made, segments := outs + [out], made + [tables], segments + [sent];
      assert intact <==> Kept(img, dct, xs[n], made[n], wideEncoder);
      if !intact {
        assert !ShortEnds(made[n]);
        return false, outs, made, segments;
      }
    }
    ok := true;
  }

  // A whole sequential image: every block comes back, unless the image is refused or a flush loses bits;
  // made are the tables of the scans up to the one where this happens.
  method TransmitImage(img: Image, dct: seq<Block>, xs: seq<HuffmanScan>, planes: array<Block>, space: nat, wideEncoder: bool,
                       wideDecoder: bool, marker: Byte, follow: seq<Byte>)
    returns (ok: bool, made: seq<seq<Tables>>)
    requires ImageOk(img) && |dct| == planes.Length == Total(img) && 0 < |xs| && HuffmanScansOk(img, xs)
    requires EachOnce(|img.comps|, xs) && marker != 0 && marker != 0xFF && 0 < space
    requires forall p :: InPlane(img, p) ==> ClearedAt(img, planes[..], p)
    modifies planes
    ensures ok ==> SameBlocks(img, dct, planes[..])
    ensures ok ==> forall n :: 0 <= n < |xs| ==>
              |xs[n].scan.membership| <= MAX_BLOCKS_IN_MCU && ScanAcceptable(img, xs[n].scan, xs[n].comps, dct)
    ensures |made| <= |xs| && (ok ==> |made| == |xs| && AllKept(img, dct, xs, made, wideEncoder, |xs|))
    ensures forall n :: 0 <= n < |made| ==> HasCodes(img, xs[n].scan, xs[n].comps, dct, made[n])
    ensures (forall n :: 0 <= n < |xs| ==> Transmittable(img, dct, xs[n])) ==> (ok <==> AllKept(img, dct, xs, made, wideEncoder, |made|))
    ensures (forall n :: 0 <= n < |xs| ==> Transmittable(img, dct, xs[n])) && (forall n :: 0 <= n < |made| ==> ShortEnds(made[n])) ==> ok
  {
    hide ImageOk, HuffmanScanOk, ScanComps, Total, McuCount, Progress, InPlane, ClearedAt, EachOnce, ScanAcceptable, SameBlocks, BlocksIn,
      HasCodes, AllKept, ShortEnds, ScanSent, Shared, ScanBytes, Transmittable, DecodersFor;
    var outs;
    ghost var segments;
    ok, outs, made, segments := EncodeScans(img, dct, xs, planes[..], space, wideEncoder);
    if !ok {
      return;
    }
    NoProgress(img, dct, planes[..], xs);
    for n := 0 to |xs|
      invariant Progress(img, dct, planes[..], xs, n)
    {
      assert ScanWritten(img, dct, xs[n], made[n], outs[n], segments[n]);
      var unread, rest := ReceiveNext(img, xs[n], DecodersFor(made[n]), planes, outs[n] + ([0xFF, marker] + follow), wideDecoder,
                                      dct, xs, n, made[n], segments[n], marker, follow);
    }
    AllArrived(img, dct, planes[..], xs);
  }

  // Decoding scan n of an image into the arrays
  method ReceiveNext(img: Image, x: HuffmanScan, decoders: seq<Decoders>, planes: array<Block>, stream: seq<Byte>, wideDecoder: bool,
                     ghost dct: seq<Block>, ghost xs: seq<HuffmanScan>, ghost n: nat, ghost tables: seq<Tables>,
                     ghost segments: seq<seq<Byte>>, ghost marker: Byte, ghost follow: seq<Byte>)
    returns (unread: Byte, rest: seq<Byte>)
    requires ImageOk(img) && |dct| == planes.Length == Total(img) && HuffmanScansOk(img, xs) && EachOnce(|img.comps|, xs)
    requires n < |xs| && xs[n] == x
    requires ScanSent(img, x.scan, x.comps, dct, tables, segments) && DecodersFor(tables) == decoders && marker != 0 && marker != 0xFF
    requires Progress(img, dct, planes[..], xs, n) && stream == ScanBytes(segments) + ([0xFF, marker] + follow)
    modifies planes
    ensures Progress(img, dct, planes[..], xs, n + 1)
    ensures Unread(unread, rest) == [0xFF, marker] + follow && unread != 0xFF
  {
    hide ImageOk, HuffmanScanOk, ScanComps, Total, McuCount, Progress, Arrived, InPlane, ClearedAt, EachOnce, Cleared, SameBlocks,
      BlocksIn, DecodersFor, ScanBytes, Remaining, Shared, HasCodes, SegmentOk, ScanBits, HuffmanMcu.Sent, BlockComps, Flatten, Mcus;
    ghost var was := planes[..];
    ScanCompsOk(img, x.scan, x.comps);
    StillCleared(img, dct, planes[..], xs, n);
    WholeStream(segments, [0xFF, marker] + follow);
    var warnings;
    warnings, unread, rest := ReceiveScan(img, x.scan, x.comps, decoders, planes, stream, x.available, wideDecoder, tables, dct,
                                          segments, marker, follow);
    NextProgress(img, dct, was, planes[..], xs, n);
  }

  // The scan is certainly not refused.
  ghost predicate Transmittable(img: Image, dct: seq<Block>, x: HuffmanScan)
    requires ImageOk(img) && HuffmanScanOk(img, x.scan, x.comps) && |dct| == Total(img)
  {
    && |x.scan.membership| <= MAX_BLOCKS_IN_MCU && ScanAcceptable(img, x.scan, x.comps, dct)
    && 63 * BlocksIn(|x.scan.membership|, |x.available|) < 9227464
  }

  lemma NoProgress(img: Image, dct: seq<Block>, planes: seq<Block>, xs: seq<HuffmanScan>)
    requires ImageOk(img) && |dct| == |planes| == Total(img)
    requires forall p :: InPlane(img, p) ==> ClearedAt(img, planes, p)
    ensures Progress(img, dct, planes, xs, 0)
  {
    hide ImageOk, Total, InPlane, ClearedAt;
  }

  lemma AllArrived(img: Image, dct: seq<Block>, planes: seq<Block>, xs: seq<HuffmanScan>)
    requires ImageOk(img) && |dct| == |planes| == Total(img) && EachOnce(|img.comps|, xs) && Progress(img, dct, planes, xs, |xs|)
    ensures SameBlocks(img, dct, planes)
  {
    hide ImageOk, Total, RowOf, ClearedAt;
    forall p | Real(img, p) && InPlane(img, p)
      ensures SameBlock(img, dct, planes, p)
    {
      assert PlaceProgress(img, dct, planes, xs, |xs|, p);
    }
  }
}
