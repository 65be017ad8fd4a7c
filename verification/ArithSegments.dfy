// A scan as a sequence of segments: what each one codes, from which statistics, and how
// they follow one another in the byte stream.
module ArithSegments {
  import opened ArithInterval
  import opened ArithBytes
  import opened ArithTermination
  import opened ByteSource
  import opened BitFields
  import opened ArithScan
  import opened PointTransform

  predicate McusOk(s: Scan, mcus: seq<seq<Block>>) {
    forall i :: 0 <= i < |mcus| ==> |mcus[i]| == |s.membership|
  }

  // The MCUs from i up to end
  ghost function McusDecisions(s: Scan, p: Prediction, mcus: seq<seq<Block>>, i: nat, end: nat, tail: Decisions)
    : Decisions
    requires ScanOk(s) && PredictionOk(s, p) && McusOk(s, mcus) && i <= end <= |mcus|
    decreases end - i
  {
    if i == end then tail
    else
      var p' := McuPrediction(s, p, mcus[i], 0);
      McuDecisions(s, p, mcus[i], 0, McusDecisions(s, p', mcus, i + 1, end, tail))
  }

  ghost function SegmentDecisions(s: Scan, mcus: seq<seq<Block>>, start: nat): Decisions
    requires ScanOk(s) && McusOk(s, mcus) && start <= |mcus|
  {
    McusDecisions(s, ResetPrediction(s), mcus, start, SegmentEnd(s, |mcus|, start), Nil)
  }

  // The coder at the start of segment j, from the statistics that earlier scans have left
  ghost function SegmentCoder(s: Scan, mcus: seq<seq<Block>>, previous: Statistics, j: nat): (e: Coder)
    requires ScanOk(s) && McusOk(s, mcus) && SegmentStart(s, j) <= |mcus|
    ensures Normal(e)
    decreases j, 0
  {
    Start(Cleared(s, if j == 0 then previous else SegmentFinal(s, mcus, previous, j - 1).stats, |s.comps|))
  }

  ghost function SegmentFinal(s: Scan, mcus: seq<seq<Block>>, previous: Statistics, j: nat): (e: Coder)
    requires ScanOk(s) && McusOk(s, mcus) && SegmentStart(s, j) <= |mcus|
    ensures Normal(e)
    decreases j, 1
  {
    CodeAll(SegmentCoder(s, mcus, previous, j), SegmentDecisions(s, mcus, SegmentStart(s, j)))
  }

  // data is the shortest coding of segment j.
  ghost predicate SegmentCoded(s: Scan, mcus: seq<seq<Block>>, previous: Statistics, j: nat, data: seq<Byte>)
    requires ScanOk(s) && McusOk(s, mcus)
  {
    SegmentStart(s, j) <= |mcus| && ShortestOf(data, SegmentFinal(s, mcus, previous, j))
  }

  // MCUs that remain to be coded in the segment that starts at start
  ghost function Rest(s: Scan, p: Prediction, mcus: seq<seq<Block>>, start: nat, i: nat): Decisions
    requires ScanOk(s) && PredictionOk(s, p) && McusOk(s, mcus)
    requires start <= i <= SegmentEnd(s, |mcus|, start) && start <= |mcus|
  {
    McusDecisions(s, p, mcus, i, SegmentEnd(s, |mcus|, start), Nil)
  }

  // With coder e and predictions p, MCU i is the next one of segment j.
  ghost predicate Coding(s: Scan, mcus: seq<seq<Block>>, previous: Statistics, j: nat, i: nat, e: Coder, p: Prediction)
    requires ScanOk(s) && PredictionOk(s, p) && McusOk(s, mcus) && Normal(e)
  {
    var start := SegmentStart(s, j);
    && start <= |mcus| && start <= i <= SegmentEnd(s, |mcus|, start)
    && CodeAll(e, Rest(s, p, mcus, start, i)) == SegmentFinal(s, mcus, previous, j)
  }

  lemma FirstSegment(s: Scan, mcus: seq<seq<Block>>, previous: Statistics)
    requires ScanOk(s) && McusOk(s, mcus)
    ensures Coding(s, mcus, previous, 0, 0, Start(Cleared(s, previous, |s.comps|)), ResetPrediction(s))
  {
  }

  lemma NextSegment(s: Scan, mcus: seq<seq<Block>>, previous: Statistics, j: nat, i: nat, e: Coder, p: Prediction)
    requires ScanOk(s) && PredictionOk(s, p) && McusOk(s, mcus) && Normal(e)
    requires Coding(s, mcus, previous, j, i, e, p)
    requires 0 < s.restartInterval && i == SegmentStart(s, j) + s.restartInterval < |mcus|
    ensures e == SegmentFinal(s, mcus, previous, j)
    ensures Coding(s, mcus, previous, j + 1, i, Start(Cleared(s, e.stats, |s.comps|)), ResetPrediction(s))
  {
    hide Cleared, OrderOk, McuDecisions;
    assert Rest(s, p, mcus, SegmentStart(s, j), i) == Nil;
    assert SegmentStart(s, j + 1) == i;
    assert SegmentCoder(s, mcus, previous, j + 1) == Start(Cleared(s, e.stats, |s.comps|));
  }

  lemma CodingStep(s: Scan, mcus: seq<seq<Block>>, previous: Statistics, j: nat, i: nat,
                   e: Coder, p: Prediction, e': Coder, tail: Decisions)
    requires ScanOk(s) && PredictionOk(s, p) && McusOk(s, mcus) && Normal(e) && Normal(e')
    requires Coding(s, mcus, previous, j, i, e, p) && i < SegmentEnd(s, |mcus|, SegmentStart(s, j))
    requires tail == Rest(s, McuPrediction(s, p, mcus[i], 0), mcus, SegmentStart(s, j), i + 1)
    requires CodeAll(e', tail) == CodeAll(e, McuDecisions(s, p, mcus[i], 0, tail))
    ensures Coding(s, mcus, previous, j, i + 1, e', McuPrediction(s, p, mcus[i], 0))
  {
    hide Cleared, OrderOk, McuDecisions, McuPrediction, CodeAll;
  }

  ghost predicate AllCoded(s: Scan, mcus: seq<seq<Block>>, previous: Statistics, segments: seq<seq<Byte>>)
    requires ScanOk(s) && McusOk(s, mcus)
  {
    forall j :: 0 <= j < |segments| ==> SegmentCoded(s, mcus, previous, j, segments[j])
  }

  lemma AllCodedSnoc(s: Scan, mcus: seq<seq<Block>>, previous: Statistics, segments: seq<seq<Byte>>, data: seq<Byte>)
    requires ScanOk(s) && McusOk(s, mcus) && AllCoded(s, mcus, previous, segments)
    requires SegmentStart(s, |segments|) <= |mcus|
    requires ShortestOf(data, SegmentFinal(s, mcus, previous, |segments|))
    ensures AllCoded(s, mcus, previous, segments + [data])
  {
    hide ShortestOf, SegmentFinal;
    assert SegmentCoded(s, mcus, previous, |segments|, data);
  }

  // A segment with these data bytes and its marker is appended.
  lemma SegmentClosed(s: Scan, mcus: seq<seq<Block>>, previous: Statistics, written: seq<Byte>,
                     segments: seq<seq<Byte>>, data: seq<Byte>, out: seq<Byte>)
    requires ScanOk(s) && McusOk(s, mcus) && AllCoded(s, mcus, previous, segments)
    requires SegmentStart(s, |segments|) <= |mcus|
    requires ShortestOf(data, SegmentFinal(s, mcus, previous, |segments|))
    requires out == written + Restarted(segments) + (Stuff(data) + [0xFF, RST0 + |segments| % 8])
    ensures AllCoded(s, mcus, previous, segments + [data])
    ensures out == written + Restarted(segments + [data])
  {
    hide Stuff, ShortestOf, SegmentFinal, AllCoded, Restarted;
    AllCodedSnoc(s, mcus, previous, segments, data);
    RestartedSnoc(segments, data);
  }

  // All segments of a scan are coded, and leave these statistics.
  ghost predicate ScanCoded(s: Scan, mcus: seq<seq<Block>>, previous: Statistics, segments: seq<seq<Byte>>,
                            after: Statistics)
    requires ScanOk(s) && McusOk(s, mcus)
  {
    && segments != [] && AllCoded(s, mcus, previous, segments)
    && var last := |segments| - 1;
    && SegmentStart(s, last) <= |mcus| == SegmentEnd(s, |mcus|, SegmentStart(s, last))
    && (0 < last ==> 0 < s.restartInterval && SegmentStart(s, last) < |mcus|)
    && after == SegmentFinal(s, mcus, previous, last).stats
  }

  lemma {:induction false} SegmentStartsGrow(s: Scan, j: nat, j': nat)
    requires j <= j'
    ensures SegmentStart(s, j) <= SegmentStart(s, j')
    decreases j'
  {
    if j < j' {
      SegmentStartsGrow(s, j, j' - 1);
    }
  }

  // ----- The coefficient arrays -----

  // layout lists the rows of the blocks of every MCU.
  predicate LayoutOk(s: Scan, layout: seq<seq<nat>>, total: nat) {
    forall i :: 0 <= i < |layout| ==> |layout[i]| == |s.membership| && RowsOk(layout[i], total)
  }

  // The first n MCUs have been stored.
  function ScanResult(s: Scan, mcus: seq<seq<Block>>, layout: seq<seq<nat>>, was: seq<Block>, n: nat): (planes: seq<Block>)
    requires ScanOk(s) && McusOk(s, mcus) && LayoutOk(s, layout, |was|) && n <= |mcus| == |layout|
    ensures |planes| == |was|
  {
    if n == 0 then was
    else McuResult(s, mcus[n - 1], layout[n - 1], ScanResult(s, mcus, layout, was, n - 1), |layout[n - 1]|)
  }

  ghost predicate ScanKnown(s: Scan, mcus: seq<seq<Block>>, layout: seq<seq<nat>>, was: seq<Block>)
    requires ScanOk(s) && McusOk(s, mcus) && LayoutOk(s, layout, |was|) && |mcus| == |layout|
  {
    forall i :: 0 <= i < |mcus| ==> McuKnown(s, mcus[i], layout[i], ScanResult(s, mcus, layout, was, i))
  }

  // The decoder can represent all DC differences of the MCUs from i up to end.
  predicate McusInRange(s: Scan, p: Prediction, mcus: seq<seq<Block>>, i: nat, end: nat)
    requires TablesOk(s) && PredictionOk(s, p) && McusOk(s, mcus) && i <= end <= |mcus|
    decreases end - i
  {
    i == end ||
    (McuInRange(s, p, mcus[i], 0) && McusInRange(s, McuPrediction(s, p, mcus[i], 0), mcus, i + 1, end))
  }

  ghost predicate ScanInRange(s: Scan, mcus: seq<seq<Block>>)
    requires TablesOk(s) && McusOk(s, mcus)
  {
    forall j :: SegmentStart(s, j) <= |mcus| ==>
      McusInRange(s, ResetPrediction(s), mcus, SegmentStart(s, j), SegmentEnd(s, |mcus|, SegmentStart(s, j)))
  }

  // ----- Which DC values the decoder can represent -----

  predicate Small(x: int) {
    -0x4000 <= x <= 0x4000
  }

  predicate SmallDc(mcu: seq<Block>) {
    forall x :: 0 <= x < |mcu| ==> Small(mcu[x][0])
  }

  predicate SmallPrediction(p: Prediction) {
    forall i :: 0 <= i < |p.lastDc| ==> Small(p.lastDc[i])
  }

  lemma {:induction false} ShrSmall(x: int, n: nat)
    requires Small(x)
    ensures Small(Shr(x, n))
    decreases n
  {
    if n > 0 {
      ShrSmall(x / 2, n - 1);
    }
  }

  lemma {:induction false} SmallMcuInRange(s: Scan, p: Prediction, mcu: seq<Block>, blkn: nat)
    requires TablesOk(s) && PredictionOk(s, p) && |mcu| == |s.membership| && blkn <= |mcu|
    requires SmallDc(mcu) && SmallPrediction(p)
    ensures McuInRange(s, p, mcu, blkn) && SmallPrediction(McuPrediction(s, p, mcu, blkn))
    decreases |mcu| - blkn
  {
    hide DcContext, Shr;
    if blkn < |mcu| {
      ShrSmall(mcu[blkn][0], s.Al);
      SmallMcuInRange(s, NextPrediction(s, p, s.membership[blkn], mcu[blkn]), mcu, blkn + 1);
    }
  }

  lemma {:induction false} SmallMcusInRange(s: Scan, p: Prediction, mcus: seq<seq<Block>>, i: nat, end: nat)
    requires TablesOk(s) && PredictionOk(s, p) && McusOk(s, mcus) && i <= end <= |mcus|
    requires SmallPrediction(p) && forall m :: 0 <= m < |mcus| ==> SmallDc(mcus[m])
    ensures McusInRange(s, p, mcus, i, end)
    decreases end - i
  {
    hide DcContext, Shr, McuInRange, McuPrediction, SmallPrediction, SmallDc;
    if i < end {
      SmallMcuInRange(s, p, mcus[i], 0);
      SmallMcusInRange(s, McuPrediction(s, p, mcus[i], 0), mcus, i + 1, end);
    }
  }

  // DC values of up to 15 bits, which every image of 8 or 12 bits per sample has, are safe.
  lemma SmallDcInRange(s: Scan, mcus: seq<seq<Block>>)
    requires TablesOk(s) && McusOk(s, mcus) && forall m :: 0 <= m < |mcus| ==> SmallDc(mcus[m])
    ensures ScanInRange(s, mcus)
  {
    hide DcContext, Shr, McuInRange, McuPrediction, SmallDc;
    forall j | SegmentStart(s, j) <= |mcus|
      ensures McusInRange(s, ResetPrediction(s), mcus, SegmentStart(s, j), SegmentEnd(s, |mcus|, SegmentStart(s, j)))
    {
      SmallMcusInRange(s, ResetPrediction(s), mcus, SegmentStart(s, j), SegmentEnd(s, |mcus|, SegmentStart(s, j)));
    }
  }

  // The encoder accepts coefficients whose differences the decoder cannot represent: two
  // blocks of a component with the DC values 32767 and -32768.
  lemma LargeDifference(s: Scan, mcu: seq<Block>)
    requires TablesOk(s) && CodesDc(s) && s.Al == 0 && s.membership == [0, 0]
    requires |mcu| == 2 && mcu[0][0] == 0x7FFF && mcu[1][0] == -0x8000
    ensures !McuInRange(s, ResetPrediction(s), mcu, 0)
  {
    hide DcContext;
    var p := NextPrediction(s, ResetPrediction(s), 0, mcu[0]);
    assert p.lastDc[0] == 0x7FFF;
    assert !DcInRange(s, p, 0, mcu[1]);
    assert !McuInRange(s, p, mcu, 1);
  }
}
