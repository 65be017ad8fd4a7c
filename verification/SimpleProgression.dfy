// The recommended progressive script (jcparam.c), and scripts as sequences of coded passes.
module SimpleProgression {
  import opened ArithScan
  import opened ScanScript
  import opened ArithProgression

  // The bits down to which a component's coefficients have been sent: DC, the five lowest AC
  // frequencies, and the others
  datatype Levels = Levels(dc: int, low: int, high: int)

  function LevelAt(l: Levels, k: int): int {
    if k == 0 then l.dc else if k <= 5 then l.low else l.high
  }

  // The bands that the script uses
  predicate Band(s: ScanInfo) {
    (s.Ss == 0 && s.Se == 0) || (s.Ss == 1 && s.Se == 5) || (s.Ss == 6 && s.Se == 63) || (s.Ss == 1 && s.Se == 63)
  }

  function Raised(l: Levels, s: ScanInfo): Levels {
    Levels(if s.Ss == 0 then s.Al else l.dc,
           if s.Ss <= 1 <= s.Se then s.Al else l.low,
           if s.Ss <= 6 <= s.Se then s.Al else l.high)
  }

  // May s come next for a component at level l?
  predicate Fits(l: Levels, s: ScanInfo) {
    && (s.Ss == 0 ==> Follows(s, l.dc)) && (s.Ss > 0 ==> l.dc >= 0)
    && (s.Ss <= 1 <= s.Se ==> Follows(s, l.low))
    && (s.Ss <= 6 <= s.Se ==> Follows(s, l.high))
  }

  // A script in order that has sent component c's coefficients down to the bits t[c]
  ghost predicate Track(nc: nat, scans: seq<ScanInfo>, t: seq<Levels>) {
    && |t| == nc && (forall n :: 0 <= n < |scans| ==> Progresses(nc, scans, n))
    && forall c, k :: 0 <= c < nc && 0 <= k < DCTSIZE2 ==> Sent(scans, |scans|, c, k) == LevelAt(t[c], k)
  }

  function Applied(t: seq<Levels>, s: ScanInfo): seq<Levels> {
    seq(|t|, c requires 0 <= c < |t| => if c in s.comps then Raised(t[c], s) else t[c])
  }

  lemma {:induction false} SentPrefix(scans: seq<ScanInfo>, s: ScanInfo, n: nat, c: int, k: int)
    requires n <= |scans|
    ensures Sent(scans + [s], n, c, k) == Sent(scans, n, c, k)
  {
    if n > 0 {
      SentPrefix(scans, s, n - 1, c, k);
    }
  }

  lemma ProgressesPrefix(nc: nat, scans: seq<ScanInfo>, s: ScanInfo, n: nat)
    requires n < |scans| && Progresses(nc, scans, n)
    ensures Progresses(nc, scans + [s], n)
  {
    hide ComponentsOk, ProgressiveParameters, Follows, Sent;
    forall c, k | Sends(scans[n], c, k)
      ensures Follows(scans[n], Sent(scans + [s], n, c, k)) && (k > 0 ==> Sent(scans + [s], n, c, 0) >= 0)
    {
      SentPrefix(scans, s, n, c, k);
      SentPrefix(scans, s, n, c, 0);
    }
  }

  // One more scan
  lemma Append(nc: nat, scans: seq<ScanInfo>, s: ScanInfo, t: seq<Levels>)
    requires Track(nc, scans, t) && ComponentsOk(nc, s.comps) && ProgressiveParameters(s) && Band(s)
    requires forall c :: c in s.comps ==> 0 <= c < nc && Fits(t[c], s)
    ensures Track(nc, scans + [s], Applied(t, s))
  {
    hide ComponentsOk, ProgressiveParameters, Sent;
    var scans' := scans + [s];
    forall n | 0 <= n < |scans|
      ensures Progresses(nc, scans', n)
    {
      ProgressesPrefix(nc, scans, s, n);
    }
    forall c, k | Sends(s, c, k)
      ensures Follows(s, Sent(scans', |scans|, c, k)) && (k > 0 ==> Sent(scans', |scans|, c, 0) >= 0)
    {
      SentPrefix(scans, s, |scans|, c, k);
      SentPrefix(scans, s, |scans|, c, 0);
    }
    forall c, k | 0 <= c < nc && 0 <= k < DCTSIZE2
      ensures Sent(scans', |scans'|, c, k) == LevelAt(Applied(t, s)[c], k)
    {
      SentLast(scans, s, c, k);
    }
  }

  lemma SentLast(scans: seq<ScanInfo>, s: ScanInfo, c: int, k: int)
    ensures Sent(scans + [s], |scans| + 1, c, k) == if Sends(s, c, k) then s.Al else Sent(scans, |scans|, c, k)
  {
    SentPrefix(scans, s, |scans|, c, k);
  }

  // ----- The scripts -----

  // The same scan of each component
  function Each(ncomps: nat, Ss: nat, Se: nat, Ah: nat, Al: nat): (scans: seq<ScanInfo>)
    ensures |scans| == ncomps
  {
    seq(ncomps, c => ScanInfo([c], Ss, Se, Ah, Al))
  }

  // All components in one DC scan, if there are not too many
  function DcPart(ncomps: nat, Ah: nat, Al: nat): (scans: seq<ScanInfo>)
    ensures |scans| == DcScans(ncomps)
  {
    if ncomps <= MAX_COMPS_IN_SCAN then [ScanInfo(seq(ncomps, i => i), 0, 0, Ah, Al)] else Each(ncomps, 0, 0, Ah, Al)
  }

  // DC down to bit 1, some luma data, all chroma data down to bit 1, the rest of luma down to bit 2 and
  // then 1, and the last bits, luma at the end
  function ColorScript(): (scans: seq<ScanInfo>)
    ensures |scans| == 10
  {
    [ScanInfo([0, 1, 2], 0, 0, 0, 1), ScanInfo([0], 1, 5, 0, 2), ScanInfo([2], 1, 63, 0, 1), ScanInfo([1], 1, 63, 0, 1),
     ScanInfo([0], 6, 63, 0, 2), ScanInfo([0], 1, 63, 2, 1), ScanInfo([0, 1, 2], 0, 0, 1, 0), ScanInfo([2], 1, 63, 1, 0),
     ScanInfo([1], 1, 63, 1, 0), ScanInfo([0], 1, 63, 1, 0)]
  }

  // For other pictures all components are treated alike: two bands down to bit 2, and one bit more twice.
  function PlainScript(ncomps: nat): seq<ScanInfo> {
    DcPart(ncomps, 0, 1) + Each(ncomps, 1, 5, 0, 2) + Each(ncomps, 6, 63, 0, 2) + Each(ncomps, 1, 63, 2, 1)
    + DcPart(ncomps, 1, 0) + Each(ncomps, 1, 63, 1, 0)
  }

  // ----- The script builder -----

  method FillAScan(space: array<ScanInfo>, p: nat, ci: nat, Ss: nat, Se: nat, Ah: nat, Al: nat,
                   ghost nc: nat, ghost t: seq<Levels>) returns (p': nat, ghost t': seq<Levels>)
    requires p < space.Length && ci < nc == |t| && Track(nc, space[..p], t)
    requires var s := ScanInfo([ci], Ss, Se, Ah, Al); ProgressiveParameters(s) && Band(s) && Fits(t[ci], s)
    modifies space
    ensures p' == p + 1 && t' == t[ci := Raised(t[ci], ScanInfo([ci], Ss, Se, Ah, Al))]
    ensures space[..p'] == old(space[..p]) + [ScanInfo([ci], Ss, Se, Ah, Al)] && Track(nc, space[..p'], t')
  {
    hide Track, Band, Fits, ProgressiveParameters, Raised;
    var s := ScanInfo([ci], Ss, Se, Ah, Al);
    Append(nc, space[..p], s, t);
    space[p] := s;
    p' := p + 1;
    t' := t[ci := Raised(t[ci], s)];
    assert t' == Applied(t, s);
    assert space[..p'] == old(space[..p]) + [s];
  }

  // The first n components at level l' and the others at level l
  function Mixed(nc: nat, n: nat, l: Levels, l': Levels): seq<Levels> {
    seq(nc, c => if c < n then l' else l)
  }

  method FillScans(space: array<ScanInfo>, p: nat, ncomps: nat, Ss: nat, Se: nat, Ah: nat, Al: nat, ghost l: Levels)
    returns (p': nat)
    requires p + ncomps <= space.Length && Track(ncomps, space[..p], Mixed(ncomps, ncomps, l, l))
    requires var s := ScanInfo([0], Ss, Se, Ah, Al); ProgressiveParameters(s) && Band(s) && Fits(l, s)
    modifies space
    ensures p' == p + ncomps
    ensures var l' := Raised(l, ScanInfo([0], Ss, Se, Ah, Al)); Track(ncomps, space[..p'], Mixed(ncomps, ncomps, l', l'))
    ensures space[..p'] == old(space[..p]) + Each(ncomps, Ss, Se, Ah, Al)
  {
    ghost var l' := Raised(l, ScanInfo([0], Ss, Se, Ah, Al));
    hide Track;
    ghost var t := Mixed(ncomps, ncomps, l, l);
    p' := p;
    assert t == Mixed(ncomps, 0, l, l');
    for ci := 0 to ncomps
      invariant p' == p + ci && t == Mixed(ncomps, ci, l, l') && Track(ncomps, space[..p'], t)
      invariant space[..p'] == old(space[..p]) + Each(ncomps, Ss, Se, Ah, Al)[..ci]
    {
      p', t := FillAScan(space, p', ci, Ss, Se, Ah, Al, ncomps, t);
      assert t == Mixed(ncomps, ci + 1, l, l');
    }
    assert t == Mixed(ncomps, ncomps, l', l');
  }

  method FillDcScans(space: array<ScanInfo>, p: nat, ncomps: nat, Ah: nat, Al: nat, ghost l: Levels) returns (p': nat)
    requires 0 < ncomps && p + DcScans(ncomps) <= space.Length && Track(ncomps, space[..p], Mixed(ncomps, ncomps, l, l))
    requires var s := ScanInfo([0], 0, 0, Ah, Al); ProgressiveParameters(s) && Fits(l, s)
    modifies space
    ensures p' == p + DcScans(ncomps)
    ensures Track(ncomps, space[..p'], Mixed(ncomps, ncomps, l.(dc := Al), l.(dc := Al)))
    ensures space[..p'] == old(space[..p]) + DcPart(ncomps, Ah, Al)
  {
    ghost var l' := l.(dc := Al);
    if ncomps <= MAX_COMPS_IN_SCAN {
      var s := ScanInfo(seq(ncomps, i => i), 0, 0, Ah, Al);
      ghost var t := Mixed(ncomps, ncomps, l, l);
      assert forall c :: c in s.comps <==> 0 <= c < ncomps by {
        forall c | 0 <= c < ncomps
          ensures c in s.comps
        {
          assert s.comps[c] == c;
        }
      }
      hide Track;
      Append(ncomps, space[..p], s, t);
      space[p] := s;
      p' := p + 1;
      assert space[..p'] == old(space[..p]) + [s];
      assert Applied(t, s) == Mixed(ncomps, ncomps, l', l');
    } else {
      p' := FillScans(space, p, ncomps, 0, 0, Ah, Al, l);
      assert Raised(l, ScanInfo([0], 0, 0, Ah, Al)) == l';
    }
  }

  function DcScans(ncomps: nat): nat {
    if ncomps <= MAX_COMPS_IN_SCAN then 1 else ncomps
  }

  // The space computed beforehand
  function ScanCount(ncomps: nat, ycc: bool): nat {
    if ncomps == 3 && ycc then 10
    else if ncomps > MAX_COMPS_IN_SCAN then 6 * ncomps
    else 2 + 4 * ncomps
  }

  // The script for color pictures: luma first, and its last bit at the end
  method FillColor(space: array<ScanInfo>) returns (p: nat)
    requires space.Length == 10
    modifies space
    ensures p == 10 && Track(3, space[..p], Mixed(3, 3, Levels(0, 0, 0), Levels(0, 0, 0)))
    ensures space[..] == ColorScript()
  {
    hide Track;
    p := FillColorFirst(space);
    p := FillDcScans(space, p, 3, 1, 0, Levels(1, 1, 1));
    ghost var t := Mixed(3, 3, Levels(0, 1, 1), Levels(0, 1, 1));
    p, t := FillAScan(space, p, 2, 1, 63, 1, 0, 3, t);
    p, t := FillAScan(space, p, 1, 1, 63, 1, 0, 3, t);
    p, t := FillAScan(space, p, 0, 1, 63, 1, 0, 3, t);
    assert t == Mixed(3, 3, Levels(0, 0, 0), Levels(0, 0, 0));
    ThreeComponents();
    assert space[..p] == space[..];
  }

  method FillColorFirst(space: array<ScanInfo>) returns (p: nat)
    requires space.Length == 10
    modifies space
    ensures p == 6 && Track(3, space[..p], Mixed(3, 3, Levels(1, 1, 1), Levels(1, 1, 1)))
    ensures space[..p] == ColorScript()[..p]
  {
    hide Track;
    ghost var none := Levels(-1, -1, -1);
    Start(3);
    p := FillDcScans(space, 0, 3, 0, 1, none);
    ghost var t := Mixed(3, 3, Levels(1, -1, -1), Levels(1, -1, -1));
    p, t := FillAScan(space, p, 0, 1, 5, 0, 2, 3, t);
    p, t := FillAScan(space, p, 2, 1, 63, 0, 1, 3, t);
    p, t := FillAScan(space, p, 1, 1, 63, 0, 1, 3, t);
    p, t := FillAScan(space, p, 0, 6, 63, 0, 2, 3, t);
    p, t := FillAScan(space, p, 0, 1, 63, 2, 1, 3, t);
    assert t == Mixed(3, 3, Levels(1, 1, 1), Levels(1, 1, 1));
    ThreeComponents();
  }

  lemma ThreeComponents()
    ensures forall Ah: nat, Al: nat :: DcPart(3, Ah, Al) == [ScanInfo([0, 1, 2], 0, 0, Ah, Al)]
  {
    assert seq(3, i => i) == [0, 1, 2];
  }

  // The script for others
  method FillPlain(space: array<ScanInfo>, ncomps: nat) returns (p: nat)
    requires 0 < ncomps && space.Length == ScanCount(ncomps, false)
    modifies space
    ensures p == space.Length && Track(ncomps, space[..p], Mixed(ncomps, ncomps, Levels(0, 0, 0), Levels(0, 0, 0)))
    ensures space[..] == PlainScript(ncomps)
  {
    hide Track, Mixed, Each, DcPart;
    p := FillPlainFirst(space, ncomps);
    p := FillScans(space, p, ncomps, 1, 63, 2, 1, Levels(1, 2, 2));
    p := FillDcScans(space, p, ncomps, 1, 0, Levels(1, 1, 1));
    p := FillScans(space, p, ncomps, 1, 63, 1, 0, Levels(0, 1, 1));
    assert space[..p] == space[..];
  }

  method FillPlainFirst(space: array<ScanInfo>, ncomps: nat) returns (p: nat)
    requires 0 < ncomps && space.Length == ScanCount(ncomps, false)
    modifies space
    ensures p == DcScans(ncomps) + ncomps + ncomps && Track(ncomps, space[..p], Mixed(ncomps, ncomps, Levels(1, 2, 2), Levels(1, 2, 2)))
    ensures space[..p] == DcPart(ncomps, 0, 1) + Each(ncomps, 1, 5, 0, 2) + Each(ncomps, 6, 63, 0, 2)
  {
    hide Track, Mixed, Each, DcPart;
    ghost var none := Levels(-1, -1, -1);
    Start(ncomps);
    p := FillDcScans(space, 0, ncomps, 0, 1, none);
    p := FillScans(space, p, ncomps, 1, 5, 0, 2, Levels(1, -1, -1));
    p := FillScans(space, p, ncomps, 6, 63, 0, 2, Levels(1, 2, -1));
  }

  // The script fills exactly the space computed for it, is valid, and sends every bit of every
  // coefficient.
  method SimpleScript(ncomps: nat, ycc: bool) returns (space: array<ScanInfo>, p: nat)
    requires 0 < ncomps <= MAX_COMPONENTS
    ensures p == space.Length == ScanCount(ncomps, ycc)
    ensures space[..] == if ncomps == 3 && ycc then ColorScript() else PlainScript(ncomps)
    ensures ValidScript(ncomps, space[..]) && !SequentialBand(space[0])
    ensures forall c, k :: 0 <= c < ncomps && 0 <= k < DCTSIZE2 ==> Sent(space[..], |space[..]|, c, k) == 0
  {
    hide Track, ColorScript, PlainScript, ValidScript, Sent;
    space := new ScanInfo[ScanCount(ncomps, ycc)](i => ScanInfo([], 0, 0, 0, 0));
    if ncomps == 3 && ycc {
      p := FillColor(space);
    } else {
      p := FillPlain(space, ncomps);
    }
    assert space[..p] == space[..];
    AllSentValid(ncomps, space[..]);
  }

  lemma Start(nc: nat)
    ensures Track(nc, [], Mixed(nc, nc, Levels(-1, -1, -1), Levels(-1, -1, -1)))
  {
  }

  lemma AllSentValid(nc: nat, scans: seq<ScanInfo>)
    requires 0 < nc && |scans| > 0 && Track(nc, scans, Mixed(nc, nc, Levels(0, 0, 0), Levels(0, 0, 0)))
    ensures ValidScript(nc, scans) && !SequentialBand(scans[0])
    ensures forall c, k :: 0 <= c < nc && 0 <= k < DCTSIZE2 ==> Sent(scans, |scans|, c, k) == 0
  {
    hide Sent, InOrder;
    assert Progresses(nc, scans, 0);
  }

  // ----- Scripts as coded passes -----

  // The passes code these scans; components are numbered alike.
  ghost predicate Codes(passes: seq<Pass>, scans: seq<ScanInfo>) {
    && |passes| == |scans|
    && forall n :: 0 <= n < |scans| ==>
         && passes[n].scan.progressive
         && passes[n].scan.Ss == scans[n].Ss && passes[n].scan.Se == scans[n].Se
         && passes[n].scan.Ah == scans[n].Ah && passes[n].scan.Al == scans[n].Al
         && forall c: nat :: c in passes[n].comps <==> c in scans[n].comps
  }

  lemma {:induction false} BitsSent(passes: seq<Pass>, scans: seq<ScanInfo>, n: nat, c: nat, k: nat)
    requires Codes(passes, scans) && n <= |scans|
    ensures Bits(passes, n, c, k) == Sent(scans, n, c, k)
  {
    if n > 0 {
      BitsSent(passes, scans, n - 1, c, k);
    }
  }

  // Every progressive script that validation accepts is a legal sequence of passes ...
  lemma AcceptedLegal(nc: nat, passes: seq<Pass>, scans: seq<ScanInfo>)
    requires ProgressiveScript(nc, scans) && Codes(passes, scans)
    ensures Legal(passes)
    ensures forall n :: 0 <= n < |passes| ==>
              passes[n].scan.Al <= 13 && (passes[n].scan.Ah != 0 ==> passes[n].scan.Ah == passes[n].scan.Al + 1)
  {
    hide Bits, Sent;
    forall n, c: nat, k: nat | 0 <= n < |passes| && Covers(passes[n], c, k)
      ensures Continues(passes[n], Bits(passes, n, c, k))
    {
      BitsSent(passes, scans, n, c, k);
      assert Progresses(nc, scans, n) && Sends(scans[n], c, k);
    }
    forall n | 0 <= n < |passes|
      ensures passes[n].scan.Al <= 13 && (passes[n].scan.Ah != 0 ==> passes[n].scan.Ah == passes[n].scan.Al + 1)
    {
      assert Progresses(nc, scans, n) && Sends(scans[n], scans[n].comps[0], scans[n].Ss);
    }
  }

  // ... and one that has sent every bit transmits the whole picture.
  lemma EverythingSent(nc: nat, compOf: seq<nat>, passes: seq<Pass>, scans: seq<ScanInfo>)
    requires Codes(passes, scans) && forall r :: 0 <= r < |compOf| && compOf[r] != PADDING ==> compOf[r] < nc
    requires forall c, k :: 0 <= c < nc && 0 <= k < DCTSIZE2 ==> Sent(scans, |scans|, c, k) == 0
    ensures AllSent(compOf, passes)
  {
    hide Bits, Sent;
    forall r, k: nat | 0 <= r < |compOf| && compOf[r] != PADDING && 0 <= k < DCTSIZE2
      ensures Bits(passes, |passes|, compOf[r], k) == 0
    {
      BitsSent(passes, scans, |scans|, compOf[r], k);
    }
  }
}
