// Legal sequences of scans: successive approximation and spectral selection over a whole
// image, coded and decoded scan by scan.
module ArithProgression {
  import opened ArithInterval
  import opened ArithScan
  import opened PointTransform
  import opened ArithSegments
  import opened ArithImage

  // A scan of these components; layout lists the rows of their blocks.
  datatype Pass = Pass(scan: Scan, comps: set<nat>, layout: seq<seq<nat>>)

  // Rows of no component, which pad the coefficient arrays
  const PADDING := MAX_COMPONENTS

  ghost predicate PassOk(order: seq<nat>, compOf: seq<nat>, pass: Pass) {
    && ScanOk(pass.scan) && pass.scan.order == order
    && LayoutOk(pass.scan, pass.layout, |compOf|) && DistinctLayout(pass.layout) && PADDING !in pass.comps
    && forall r :: 0 <= r < |compOf| ==>
         if compOf[r] == PADDING then InMcus(pass.layout, |pass.layout|, r) ==> pass.scan.Ss == 0
         else InMcus(pass.layout, |pass.layout|, r) <==> compOf[r] in pass.comps
  }

  predicate Covers(pass: Pass, c: nat, k: nat) {
    c in pass.comps && pass.scan.Ss <= k <= pass.scan.Se
  }

  // The bit down to which coefficient k of component c is known after n passes, or -1
  function Bits(passes: seq<Pass>, n: nat, c: nat, k: nat): (b: int)
    requires n <= |passes|
    ensures b >= -1
  {
    if n == 0 then -1
    else if Covers(passes[n - 1], c, k) then passes[n - 1].scan.Al
    else Bits(passes, n - 1, c, k)
  }

  // A first scan comes before any refinement, and every refinement adds one bit.
  predicate Continues(pass: Pass, bits: int) {
    if bits < 0 then pass.scan.Ah == 0 else pass.scan.Ah == bits && pass.scan.Al == bits - 1
  }

  ghost predicate Legal(passes: seq<Pass>) {
    forall n, c, k :: 0 <= n < |passes| && Covers(passes[n], c, k) ==> Continues(passes[n], Bits(passes, n, c, k))
  }

  // What is known of coefficient c at zigzag position k
  function Held(c: Coef, k: nat, bits: int): Coef {
    if bits < 0 || 15 < bits then 0 else if k == 0 then DcPoint(c, bits) else AcPoint(c, bits)
  }

  // Padding has no AC coefficients.
  ghost predicate PaddingOk(compOf: seq<nat>, planes: seq<Block>)
    requires |compOf| == |planes|
  {
    forall r, i :: 0 <= r < |planes| && compOf[r] == PADDING && 1 <= i < DCTSIZE2 ==> planes[r][i] == 0
  }

  ghost predicate Holds(order: seq<nat>, compOf: seq<nat>, orig: seq<Block>, planes: seq<Block>, passes: seq<Pass>, n: nat)
    requires OrderOk(order) && |compOf| == |orig| == |planes| && n <= |passes|
  {
    && PaddingOk(compOf, planes)
    && forall r, k :: 0 <= r < |orig| && compOf[r] != PADDING && 0 <= k < DCTSIZE2 ==>
         planes[r][order[k]] == Held(orig[r][order[k]], k, Bits(passes, n, compOf[r], k))
  }

  // A legal pass finds every block of its components at the level that it starts from.
  lemma PassKnown(order: seq<nat>, compOf: seq<nat>, orig: seq<Block>, planes: seq<Block>, passes: seq<Pass>, n: nat, r: nat)
    requires OrderOk(order) && |compOf| == |orig| == |planes| && n < |passes| && r < |orig|
    requires Legal(passes) && PassOk(order, compOf, passes[n]) && Holds(order, compOf, orig, planes, passes, n)
    requires compOf[r] in passes[n].comps
    ensures BandKnown(passes[n].scan, orig[r], planes[r])
    ensures ModeOf(passes[n].scan) == DcRefinement ==> planes[r][0] == DcPoint(orig[r][0], passes[n].scan.Ah)
  {
    hide TablesOk, DcPoint, AcPoint, InMcus, LayoutOk, DistinctLayout, PaddingOk;
    var s, c := passes[n].scan, compOf[r];
    forall k | FirstAc(s) <= k <= s.Se && 1 <= k
      ensures planes[r][s.order[k]] == LevelBefore(s, orig[r], k)
    {
      assert Covers(passes[n], c, k);
      assert Continues(passes[n], Bits(passes, n, c, k));
    }
    if ModeOf(s) == DcRefinement {
      assert Covers(passes[n], c, 0);
      assert Continues(passes[n], Bits(passes, n, c, 0));
      assert planes[r][order[0]] == Held(orig[r][order[0]], 0, Bits(passes, n, c, 0));
    }
  }

  // So is padding that takes part.
  lemma PaddingKnown(order: seq<nat>, compOf: seq<nat>, orig: seq<Block>, planes: seq<Block>, pass: Pass, r: nat)
    requires OrderOk(order) && |compOf| == |orig| == |planes| && r < |orig| && compOf[r] == PADDING
    requires PassOk(order, compOf, pass) && InMcus(pass.layout, |pass.layout|, r) && PaddingOk(compOf, planes)
    ensures BandKnown(pass.scan, orig[r], planes[r])
  {
    hide TablesOk, InMcus, LayoutOk, DistinctLayout;
    var s := pass.scan;
    forall k | FirstAc(s) <= k <= s.Se && 1 <= k
      ensures planes[r][s.order[k]] == LevelBefore(s, orig[r], k)
    {
      assert s.order[k] != s.order[0];
    }
  }

  // Afterwards they are at the pass's level.
  lemma PassHolds(order: seq<nat>, compOf: seq<nat>, orig: seq<Block>, was: seq<Block>, planes: seq<Block>,
                  passes: seq<Pass>, n: nat)
    requires OrderOk(order) && |compOf| == |orig| == |was| == |planes| && n < |passes|
    requires Legal(passes) && PassOk(order, compOf, passes[n]) && Holds(order, compOf, orig, was, passes, n)
    requires forall r :: 0 <= r < |orig| && compOf[r] != PADDING ==>
               planes[r] == if compOf[r] in passes[n].comps then BlockResult(passes[n].scan, orig[r], was[r]) else was[r]
    requires PaddingOk(compOf, planes)
    ensures Holds(order, compOf, orig, planes, passes, n + 1)
  {
    hide TablesOk, DcPoint, AcPoint, InMcus, LayoutOk, DistinctLayout, BlockResult, PaddingOk, Legal;
    var s := passes[n].scan;
    forall r, k | 0 <= r < |orig| && compOf[r] != PADDING && 0 <= k < DCTSIZE2
      ensures planes[r][order[k]] == Held(orig[r][order[k]], k, Bits(passes, n + 1, compOf[r], k))
    {
      if compOf[r] in passes[n].comps {
        PassKnown(order, compOf, orig, was, passes, n, r);
        ResultLevels(s, orig[r], was[r], k);
      }
    }
  }

  // A pass does not give padding any AC coefficients.
  lemma PaddingKept(s: Scan, block: Block, was: Block)
    requires ScanOk(s) && s.Ss == 0 && (forall i :: 1 <= i < DCTSIZE2 ==> block[i] == was[i] == 0)
    ensures forall i :: 1 <= i < DCTSIZE2 ==> BlockResult(s, block, was)[i] == 0
  {
    hide TablesOk, Updated;
    if ModeOf(s) == Sequential {
      forall i | 1 <= i < DCTSIZE2
        ensures BlockResult(s, block, was)[i] == 0
      {
        var k := ZigzagPosition(s.order, i);
        ResultLevels(s, block, was, k);
      }
    }
  }

  // ----- Complete images -----

  // Every bit of every coefficient has been sent.
  ghost predicate AllSent(compOf: seq<nat>, passes: seq<Pass>) {
    forall r, k :: 0 <= r < |compOf| && compOf[r] != PADDING && 0 <= k < DCTSIZE2 ==> Bits(passes, |passes|, compOf[r], k) == 0
  }

  lemma PointZero(c: Coef)
    ensures DcPoint(c, 0) == c && AcPoint(c, 0) == c
  {
  }

  lemma Complete(order: seq<nat>, compOf: seq<nat>, orig: seq<Block>, planes: seq<Block>, passes: seq<Pass>, r: nat)
    requires OrderOk(order) && |compOf| == |orig| == |planes| && r < |orig| && compOf[r] != PADDING
    requires Holds(order, compOf, orig, planes, passes, |passes|) && AllSent(compOf, passes)
    ensures planes[r] == orig[r]
  {
    hide OrderOk, DcPoint, AcPoint, Bits, PaddingOk;
    assert |order| == DCTSIZE2 by {
      OrderLength(order);
    }
    forall i | 0 <= i < DCTSIZE2
      ensures planes[r][i] == orig[r][i]
    {
      var k := ZigzagPosition(order, i);
      assert planes[r][order[k]] == Held(orig[r][order[k]], k, 0);
      PointZero(orig[r][i]);
    }
  }

  // ----- The round trip -----

  // Coding and decoding any legal sequence of scans, each in front of a marker, leaves every
  // coefficient with the bits that have been sent, exactly; if all have been, with its value.
  method ProgressiveRoundTrip(order: seq<nat>, ghost compOf: seq<nat>, passes: seq<Pass>, orig: seq<Block>,
                              planes: array<Block>, initial: Statistics, marker: Byte, follow: seq<Byte>)
    returns (clean: bool)
    requires OrderOk(order) && |compOf| == |orig| == planes.Length && Legal(passes) && PaddingOk(compOf, orig)
    requires forall n :: 0 <= n < |passes| ==>
               PassOk(order, compOf, passes[n])
               && ScanInRange(passes[n].scan, McusOf(passes[n].scan, orig, passes[n].layout))
    requires forall r, i :: 0 <= r < planes.Length && 0 <= i < DCTSIZE2 ==> planes[r][i] == 0
    requires marker != 0 && marker != 0xFF
    modifies planes
    ensures clean && Holds(order, compOf, orig, planes[..], passes, |passes|)
    ensures AllSent(compOf, passes) ==> forall r :: 0 <= r < |orig| && compOf[r] != PADDING ==> planes[r] == orig[r]
  {
    hide OrderOk, ScanOk, LayoutOk, DistinctLayout, ScanInRange, BandKnown, BlockResult, InMcus, Legal, Holds, Bits, PaddingOk;
    OrderLength(order);
    NothingHeld(order, compOf, orig, planes[..], passes);
    clean := true;
    var stats := initial;
    for n := 0 to |passes|
      invariant clean && Holds(order, compOf, orig, planes[..], passes, n)
    {
      var clean';
      var mcus := McusOf(passes[n].scan, orig, passes[n].layout);
      stats, clean' := PassRoundTrip(order, passes[n], mcus, planes, stats, marker, follow, compOf, passes, n, orig);
      clean := clean && clean';
    }
    if AllSent(compOf, passes) {
      forall r | 0 <= r < planes.Length && compOf[r] != PADDING
        ensures planes[r] == orig[r]
      {
        Complete(order, compOf, orig, planes[..], passes, r);
      }
    }
  }

  lemma NothingHeld(order: seq<nat>, compOf: seq<nat>, orig: seq<Block>, planes: seq<Block>, passes: seq<Pass>)
    requires OrderOk(order) && |compOf| == |orig| == |planes|
    requires forall r, i :: 0 <= r < |planes| && 0 <= i < DCTSIZE2 ==> planes[r][i] == 0
    ensures Holds(order, compOf, orig, planes, passes, 0)
  {
  }

  method PassRoundTrip(order: seq<nat>, pass: Pass, mcus: seq<seq<Block>>, planes: array<Block>, stats: Statistics,
                       marker: Byte, follow: seq<Byte>, ghost compOf: seq<nat>, ghost passes: seq<Pass>, ghost n: nat,
                       ghost orig: seq<Block>)
    returns (stats': Statistics, clean: bool)
    requires OrderOk(order) && |compOf| == |orig| == planes.Length && Legal(passes) && n < |passes| && PaddingOk(compOf, orig)
    requires pass == passes[n] && PassOk(order, compOf, pass) && mcus == McusOf(pass.scan, orig, pass.layout)
    requires ScanInRange(pass.scan, mcus) && Holds(order, compOf, orig, planes[..], passes, n)
    requires marker != 0 && marker != 0xFF
    modifies planes
    ensures clean && Holds(order, compOf, orig, planes[..], passes, n + 1)
  {
    hide OrderOk, ScanOk, LayoutOk, DistinctLayout, ScanInRange, BandKnown, BlockResult, InMcus, Legal, Holds, Bits;
    ghost var was := planes[..];
    forall r: nat | r < |orig| && InMcus(pass.layout, |pass.layout|, r)
      ensures BandKnown(pass.scan, orig[r], was[r])
    {
      RowKnown(order, compOf, orig, was, passes, n, r);
    }
    var coded;
    coded, stats', clean := ScanRoundTrip(pass.scan, mcus, pass.layout, planes, stats, marker, follow, orig);
    PassDone(order, compOf, orig, was, planes[..], passes, n);
  }

  // Every block of a pass is at the level that the pass starts from, padding or not.
  lemma RowKnown(order: seq<nat>, compOf: seq<nat>, orig: seq<Block>, planes: seq<Block>, passes: seq<Pass>, n: nat, r: nat)
    requires OrderOk(order) && |compOf| == |orig| == |planes| && n < |passes| && r < |orig| && Legal(passes)
    requires PassOk(order, compOf, passes[n]) && Holds(order, compOf, orig, planes, passes, n)
    requires InMcus(passes[n].layout, |passes[n].layout|, r)
    ensures BandKnown(passes[n].scan, orig[r], planes[r])
  {
    hide OrderOk, ScanOk, LayoutOk, DistinctLayout, BandKnown, InMcus, Legal, Holds;
    HoldsPadding(order, compOf, orig, planes, passes, n);
    if compOf[r] == PADDING {
      PaddingKnown(order, compOf, orig, planes, passes[n], r);
    } else {
      PassKnown(order, compOf, orig, planes, passes, n, r);
    }
  }

  // When a pass has done to its blocks what its scan does, and nothing to others, its bits are known.
  lemma PassDone(order: seq<nat>, compOf: seq<nat>, orig: seq<Block>, was: seq<Block>, planes: seq<Block>, passes: seq<Pass>, n: nat)
    requires OrderOk(order) && |compOf| == |orig| == |was| == |planes| && n < |passes| && Legal(passes) && PaddingOk(compOf, orig)
    requires PassOk(order, compOf, passes[n]) && Holds(order, compOf, orig, was, passes, n)
    requires forall r :: 0 <= r < |orig| ==>
               planes[r] == if InMcus(passes[n].layout, |passes[n].layout|, r) then BlockResult(passes[n].scan, orig[r], was[r])
                            else was[r]
    ensures Holds(order, compOf, orig, planes, passes, n + 1)
  {
    hide OrderOk, ScanOk, LayoutOk, DistinctLayout, BlockResult, InMcus, Legal, Holds;
    var pass := passes[n];
    HoldsPadding(order, compOf, orig, was, passes, n);
    forall r: nat, i | r < |orig| && compOf[r] == PADDING && 1 <= i < DCTSIZE2
      ensures planes[r][i] == 0
    {
      if InMcus(pass.layout, |pass.layout|, r) {
        PaddingKept(pass.scan, orig[r], was[r]);
      }
    }
    PassHolds(order, compOf, orig, was, planes, passes, n);
  }

  lemma HoldsPadding(order: seq<nat>, compOf: seq<nat>, orig: seq<Block>, planes: seq<Block>, passes: seq<Pass>, n: nat)
    requires OrderOk(order) && |compOf| == |orig| == |planes| && n <= |passes|
    requires Holds(order, compOf, orig, planes, passes, n)
    ensures PaddingOk(compOf, planes)
  {
  }
}
