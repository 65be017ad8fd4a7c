// Decoding a whole arithmetic-coded scan, across its restart markers.
module ArithScanDecoder {
  import opened ArithInterval
  import opened ArithTermination
  import opened ArithDecoder
  import opened ByteSource
  import opened ArithScan
  import opened PointTransform
  import opened ArithSegments
  import opened ArithMcuDecoder

  // A coded scan, the marker that follows it, and the coefficient arrays that are to
  // receive it: layout lists their rows by MCU, was is what they hold before.
  datatype Sent = Sent(
    mcus: seq<seq<Block>>, previous: Statistics, segments: seq<seq<Byte>>, after: Statistics,
    marker: Byte, follow: seq<Byte>, layout: seq<seq<nat>>, was: seq<Block>)

  ghost predicate SentOk(s: Scan, x: Sent) {
    && ScanOk(s) && McusOk(s, x.mcus) && x.marker != 0 && x.marker != 0xFF
    && ScanCoded(s, x.mcus, x.previous, x.segments, x.after)
    && |x.mcus| == |x.layout| && LayoutOk(s, x.layout, |x.was|)
    && ScanKnown(s, x.mcus, x.layout, x.was)
  }

  function Stream(x: Sent, j: nat): seq<Byte>
    requires j < |x.segments|
  {
    Remaining(x.segments, j, [0xFF, x.marker] + x.follow)
  }

  ghost function GoalAt(s: Scan, x: Sent, j: nat): Goal
    requires SentOk(s, x) && j < |x.segments| && SegmentStart(s, j) <= |x.mcus|
  {
    Goal(SegmentAt(x.segments, j, x.marker, x.follow), SegmentFinal(s, x.mcus, x.previous, j))
  }

  // MCU i, in segment j, is the next one.
  ghost predicate Inside(s: Scan, x: Sent, i: nat, j: nat)
    requires SentOk(s, x)
  {
    && j < |x.segments| && i <= |x.mcus|
    && SegmentStart(s, j) <= i <= SegmentEnd(s, |x.mcus|, SegmentStart(s, j))
  }

  // The decoder can represent all DC differences of segment j.
  ghost predicate SegmentInRange(s: Scan, x: Sent, j: nat)
    requires SentOk(s, x) && SegmentStart(s, j) <= |x.mcus|
  {
    McusInRange(s, ResetPrediction(s), x.mcus, SegmentStart(s, j), SegmentEnd(s, |x.mcus|, SegmentStart(s, j)))
  }

  // All DC differences before MCU i are in range, so that those of segment j are if the rest is.
  ghost predicate Confirmed(s: Scan, x: Sent, i: nat, j: nat, p: Prediction)
    requires SentOk(s, x) && PredictionOk(s, p) && Inside(s, x, i, j)
  {
    && (forall j': nat :: j' < j ==> SegmentStart(s, j') <= |x.mcus| && SegmentInRange(s, x, j'))
    && (SegmentInRange(s, x, j) <==> McusInRange(s, p, x.mcus, i, SegmentEnd(s, |x.mcus|, SegmentStart(s, j))))
  }

  ghost predicate InScan(d: McuDecoder, x: Sent, i: nat, j: nat, p: Prediction)
    reads d, d.coder
  {
    && d.Valid() && SentOk(d.s, x) && PredictionOk(d.s, p) && Inside(d.s, x, i, j)
    && (d.s.restartInterval != 0 ==> i + d.restartsToGo == SegmentStart(d.s, j) + d.s.restartInterval)
    && d.nextRestartNum == j % 8 && d.warnings == 0
    && d.Following(p, Rest(d.s, p, x.mcus, SegmentStart(d.s, j), i), GoalAt(d.s, x, j))
    && Confirmed(d.s, x, i, j, p)
  }

  // The last segment ends with the scan, so a restart that is due has a segment to follow.
  lemma MoreSegments(s: Scan, x: Sent, i: nat, j: nat)
    requires SentOk(s, x) && Inside(s, x, i, j) && 0 < s.restartInterval
    requires i == SegmentStart(s, j) + s.restartInterval < |x.mcus|
    ensures Inside(s, x, i, j + 1) && i == SegmentStart(s, j + 1) && i < SegmentEnd(s, |x.mcus|, i)
  {
    hide ScanKnown, AllCoded, OrderOk, TablesOk, ProgressionOk, LayoutOk, McusOk, SegmentFinal;
    assert SegmentStart(s, j + 1) == i;
  }

  lemma NextSegmentLeads(s: Scan, x: Sent, j: nat)
    requires SentOk(s, x) && j < |x.segments| && SegmentStart(s, j) <= |x.mcus|
    ensures Leads(x.segments[j], SegmentCoder(s, x.mcus, x.previous, j), SegmentDecisions(s, x.mcus, SegmentStart(s, j)),
                  SegmentFinal(s, x.mcus, x.previous, j))
  {
    hide ScanKnown, OrderOk, TablesOk, ProgressionOk, LayoutOk, McusOk, McusDecisions, Cleared, Contains;
    assert SegmentCoded(s, x.mcus, x.previous, j, x.segments[j]);
  }

  // A segment that has been decoded is used up.
  lemma SegmentDone(d: McuDecoder, x: Sent, i: nat, j: nat, p: Prediction)
    requires InScan(d, x, i, j, p) && i == SegmentEnd(d.s, |x.mcus|, SegmentStart(d.s, j))
    ensures |d.coder.segment.data| <= d.coder.k && d.coder.segment == SegmentAt(x.segments, j, x.marker, x.follow)
    ensures d.coder.stats == SegmentFinal(d.s, x.mcus, x.previous, j).stats
  {
    hide ScanKnown, OrderOk, TablesOk, ProgressionOk, LayoutOk, McusOk, SegmentFinal, ShortestOf,
      McuDecisions, SegmentAt, Confirmed, PredictionOk;
    assert Rest(d.s, p, x.mcus, SegmentStart(d.s, j), i) == Nil;
    assert SegmentCoded(d.s, x.mcus, x.previous, j, x.segments[j]);
    DataOfSegment(x, j);
    d.coder.Exhausted(GoalAt(d.s, x, j));
  }

  lemma DataOfSegment(x: Sent, j: nat)
    requires j < |x.segments|
    ensures SegmentAt(x.segments, j, x.marker, x.follow).data == x.segments[j]
  {
  }

  ghost predicate ReadyAt(d: McuDecoder, x: Sent, i: nat, j: nat, p: Prediction)
    reads d, d.coder
  {
    && SentOk(d.s, x) && PredictionOk(d.s, p) && Inside(d.s, x, i, j)
    && i < SegmentEnd(d.s, |x.mcus|, SegmentStart(d.s, j))
    && d.ReadyFor(p, Rest(d.s, p, x.mcus, SegmentStart(d.s, j), i), GoalAt(d.s, x, j))
    && Confirmed(d.s, x, i, j, p)
  }

  lemma EnterNext(d: McuDecoder, x: Sent, i: nat, j: nat, p: Prediction)
    requires InScan(d, x, i, j, p) && i < |x.mcus| && d.RestartDue()
    ensures ReadyAt(d, x, i, j + 1, ResetPrediction(d.s)) && SegmentStart(d.s, j + 1) == i
  {
    hide ScanKnown, OrderOk, TablesOk, ProgressionOk, LayoutOk, McusOk, SegmentFinal, ShortestOf, AllCoded, ReadSegment,
      Stream, Leads, Cleared, ArithDecoder.Decoder.Valid;
    SegmentDone(d, x, i, j, p);
    MoreSegments(d.s, x, i, j);
    ConfirmedRestart(d.s, x, i, j, p);
    RemainingRead(x.segments, j + 1, x.marker, x.follow);
    NextSegmentLeads(d.s, x, j + 1);
  }

  lemma EnterSegment(d: McuDecoder, x: Sent, i: nat, j: nat, p: Prediction)
    requires InScan(d, x, i, j, p) && i < |x.mcus|
    ensures if d.RestartDue() then ReadyAt(d, x, i, j + 1, ResetPrediction(d.s)) && SegmentStart(d.s, j + 1) == i
            else ReadyAt(d, x, i, j, p)
  {
    hide ScanKnown, OrderOk, TablesOk, ProgressionOk, LayoutOk, McusOk, SegmentFinal, ShortestOf, AllCoded, ReadSegment,
      Stream, Leads, Cleared, ArithDecoder.Decoder.Valid;
    if d.RestartDue() {
      EnterNext(d, x, i, j, p);
    }
  }

  // What the next MCU leaves to be decoded in its segment
  ghost function Tail(s: Scan, x: Sent, i: nat, j: nat, p: Prediction): Decisions
    requires SentOk(s, x) && PredictionOk(s, p) && Inside(s, x, i, j)
    requires i < SegmentEnd(s, |x.mcus|, SegmentStart(s, j))
  {
    Rest(s, McuPrediction(s, p, x.mcus[i], 0), x.mcus, SegmentStart(s, j), i + 1)
  }

  // One MCU more is in range, or the segment is not.
  lemma ConfirmedNext(s: Scan, x: Sent, i: nat, j: nat, p: Prediction)
    requires SentOk(s, x) && PredictionOk(s, p) && Inside(s, x, i, j) && Confirmed(s, x, i, j, p)
    requires i < SegmentEnd(s, |x.mcus|, SegmentStart(s, j))
    ensures Inside(s, x, i + 1, j) && |x.mcus[i]| == |s.membership|
    ensures if McuInRange(s, p, x.mcus[i], 0) then Confirmed(s, x, i + 1, j, McuPrediction(s, p, x.mcus[i], 0))
            else !SegmentInRange(s, x, j)
  {
    hide ScanKnown, OrderOk, TablesOk, ProgressionOk, LayoutOk, PredictionOk, SegmentFinal, AllCoded, McuInRange, McuPrediction,
      ResetPrediction, ScanCoded;
  }

  // A new segment: the one before it was in range.
  lemma ConfirmedRestart(s: Scan, x: Sent, i: nat, j: nat, p: Prediction)
    requires SentOk(s, x) && PredictionOk(s, p) && Inside(s, x, i, j) && Inside(s, x, i, j + 1)
    requires i == SegmentStart(s, j + 1) && i == SegmentEnd(s, |x.mcus|, SegmentStart(s, j))
    requires Confirmed(s, x, i, j, p)
    ensures Confirmed(s, x, i, j + 1, ResetPrediction(s))
  {
    hide ScanKnown, OrderOk, TablesOk, ProgressionOk, LayoutOk, PredictionOk, SegmentFinal, AllCoded, McuInRange, McuPrediction,
      ResetPrediction, ScanCoded;
  }

  // At the end of the scan all its segments are in range.
  lemma ConfirmedAll(s: Scan, x: Sent, j: nat, p: Prediction)
    requires SentOk(s, x) && PredictionOk(s, p) && Inside(s, x, |x.mcus|, j) && Confirmed(s, x, |x.mcus|, j, p)
    requires j + 1 == |x.segments|
    ensures ScanInRange(s, x.mcus)
  {
    hide ScanKnown, OrderOk, ProgressionOk, LayoutOk, PredictionOk, SegmentFinal, AllCoded, McuInRange, McuPrediction,
      ResetPrediction;
    forall j': nat | SegmentStart(s, j') <= |x.mcus|
      ensures SegmentInRange(s, x, j')
    {
      if j' > j {
        SegmentStartsGrow(s, j, j');
        LaterStart(s, x, j, j');
      }
    }
  }

  // Behind the last segment there is nothing, or it is met again if there are no restarts.
  lemma LaterStart(s: Scan, x: Sent, j: nat, j': nat)
    requires j < j' && SegmentStart(s, j') <= |x.mcus| == SegmentEnd(s, |x.mcus|, SegmentStart(s, j))
    requires SegmentStart(s, j) <= |x.mcus|
    ensures SegmentStart(s, j') == |x.mcus| || (s.restartInterval == 0 && SegmentStart(s, j') == SegmentStart(s, j))
  {
    SegmentStartsGrow(s, j + 1, j');
    if s.restartInterval == 0 {
      NoRestarts(s, j);
      NoRestarts(s, j');
    }
  }

  lemma {:induction false} NoRestarts(s: Scan, j: nat)
    requires s.restartInterval == 0
    ensures SegmentStart(s, j) == 0
  {
    if j > 0 {
      NoRestarts(s, j - 1);
    }
  }

  // Decoding has gone well so far, or there has been a warning for a good reason.
  ghost predicate Deciding(d: McuDecoder, x: Sent, planes: seq<Block>, good: bool, i: nat, j: nat, p: Prediction)
    reads d, d.coder
  {
    && d.Valid() && SentOk(d.s, x)
    && if good then InScan(d, x, i, j, p) && i <= |x.mcus| && planes == ScanResult(d.s, x.mcus, x.layout, x.was, i)
       else d.warnings > 0 && !ScanInRange(d.s, x.mcus)
  }

  // What is coded by the next MCU, if decoding has gone well
  lemma Prepare(d: McuDecoder, x: Sent, i: nat, j: nat, p: Prediction)
    returns (j': nat, p': Prediction, tail: Decisions, goal: Goal)
    requires InScan(d, x, i, j, p) && i < |x.mcus|
    ensures ReadyAt(d, x, i, j', p') && tail == Tail(d.s, x, i, j', p') && goal == GoalAt(d.s, x, j')
    ensures if d.RestartDue() then j' == j + 1 && SegmentStart(d.s, j') == i else j' == j
  {
    hide OrderOk, TablesOk, ProgressionOk, SegmentFinal, ShortestOf, AllCoded, Stream, Leads, Cleared, McuDecisions,
      ArithDecoder.Decoder.Valid, McuKnown, PredictionOk, ResetPrediction, ScanCoded, McuDecoder.ReadyFor,
      McuDecoder.Following, GoalAt, Confirmed, McusInRange, ScanKnown;
    EnterSegment(d, x, i, j, p);
    j', p' := if d.RestartDue() then j + 1 else j, if d.RestartDue() then ResetPrediction(d.s) else p;
    tail, goal := Tail(d.s, x, i, j', p'), GoalAt(d.s, x, j');
  }

  // The next MCU of a scan; if it is not in range there is a warning.
  method DecodeNext(d: McuDecoder, planes: array<Block>, rows: seq<nat>, ghost x: Sent, ghost good: bool, i: nat,
                    ghost j: nat, ghost p: Prediction)
    returns (ghost good': bool, ghost j': nat, ghost p': Prediction)
    requires Deciding(d, x, planes[..], good, i, j, p) && i < |x.mcus| && rows == x.layout[i] && planes.Length == |x.was|
    modifies d, d.coder, planes
    ensures Deciding(d, x, planes[..], good', i + 1, j', p')
  {
    hide OrderOk, ProgressionOk, SegmentFinal, ShortestOf, AllCoded, Stream, Leads, Cleared, McuDecisions, TablesOk,
      ArithDecoder.Decoder.Valid, McuKnown, McuInRange, McuPrediction, McuResult, PredictionOk, ScanCoded,
      McuDecoder.ReadyFor, McuDecoder.Following, GoalAt, Confirmed, McusInRange;
    ghost var tail, goal := Nil, Goal(d.coder.segment, d.coder.Ideal());
    j', p' := j, ResetPrediction(d.s);
    ResetOk(d.s);
    hide ResetPrediction;
    good' := good;
    if good {
      j', p', tail, goal := Prepare(d, x, i, j, p);
      ConfirmedNext(d.s, x, i, j', p');
      good' := McuInRange(d.s, p', x.mcus[i], 0);
    }
    d.DecodeMcu(planes, rows, x.mcus[i], p', tail, goal);
    p' := McuPrediction(d.s, p', x.mcus[i], 0);
  }

  lemma ResetOk(s: Scan)
    requires ScanOk(s)
    ensures PredictionOk(s, ResetPrediction(s))
  {
  }

  lemma Begin(d: McuDecoder, x: Sent)
    requires d.Valid() && SentOk(d.s, x) && d.coder.ct != -1 && d.coder.segment == ReadSegment(Stream(x, 0))
    requires d.coder.Ideal() == Start(Cleared(d.s, x.previous, |d.s.comps|))
    requires d.Expects(ResetPrediction(d.s))
    requires d.restartsToGo == d.s.restartInterval && d.nextRestartNum == 0 && d.warnings == 0
    ensures InScan(d, x, 0, 0, ResetPrediction(d.s))
  {
    hide ScanKnown, OrderOk, TablesOk, ProgressionOk, LayoutOk, McusOk, SegmentFinal, ShortestOf, AllCoded, ReadSegment,
      Leads, Cleared, Remaining, ArithDecoder.Decoder.Valid;
    RemainingRead(x.segments, 0, x.marker, x.follow);
    DataOfSegment(x, 0);
    NextSegmentLeads(d.s, x, 0);
  }

  // All MCUs have been decoded: this is the last segment.
  lemma LastSegment(d: McuDecoder, x: Sent, j: nat, p: Prediction)
    requires InScan(d, x, |x.mcus|, j, p)
    ensures j + 1 == |x.segments| && |x.mcus| == SegmentEnd(d.s, |x.mcus|, SegmentStart(d.s, j))
  {
    hide ScanKnown, OrderOk, TablesOk, ProgressionOk, LayoutOk, McusOk, SegmentFinal, ShortestOf, AllCoded, ReadSegment,
      Stream, Leads, Cleared, ArithDecoder.Decoder.Valid, McuDecoder.Following, Confirmed, PredictionOk;
    if j + 1 < |x.segments| {
      SegmentStartsGrow(d.s, j + 1, |x.segments| - 1);
    }
  }

  // Find the marker behind the scan.
  method FindMarker(d: McuDecoder, ghost good: bool, ghost x: Sent, ghost j: nat, ghost p: Prediction)
    returns (marker: Byte, rest: seq<Byte>, extraneous: bool)
    requires d.Valid() && (good ==> InScan(d, x, |x.mcus|, j, p))
    modifies d.coder
    ensures d.warnings == old(d.warnings)
    ensures good ==> marker == x.marker && rest == x.follow && !extraneous && ScanInRange(d.s, x.mcus)
    ensures good ==> d.coder.stats == x.after && d.warnings == 0
  {
    hide ScanKnown, OrderOk, TablesOk, ProgressionOk, LayoutOk, McusOk, SegmentFinal, ShortestOf, AllCoded, ReadSegment,
      Stream, Leads, Cleared, McuDecoder.Following, Confirmed, PredictionOk, ArithDecoder.Decoder.RegistersValid, ScanInRange;
    if good {
      LastSegment(d, x, j, p);
      SegmentDone(d, x, |x.mcus|, j, p);
      ConfirmedAll(d.s, x, j, p);
    }
    extraneous := false;
    if d.coder.unreadMarker == 0 {
      extraneous := d.coder.FindMarker();
    }
    marker, rest := d.coder.unreadMarker, d.coder.rest;
  }

  // Decode a scan into the rows that layout lists. There is a warning just if a DC difference is
  // out of range.
  method DecodeScan(s: Scan, layout: seq<seq<nat>>, planes: array<Block>, previous: Statistics, stream: seq<Byte>,
                    ghost x: Sent)
    returns (after: Statistics, marker: Byte, rest: seq<Byte>, clean: bool)
    requires SentOk(s, x) && stream == Stream(x, 0)
    requires layout == x.layout && previous == x.previous && planes[..] == x.was
    modifies planes
    ensures clean <==> ScanInRange(s, x.mcus)
    ensures clean ==> planes[..] == ScanResult(s, x.mcus, layout, old(planes[..]), |layout|)
    ensures clean ==> after == x.after && marker == x.marker && rest == x.follow
  {
    hide ScanKnown, OrderOk, TablesOk, ProgressionOk, LayoutOk, McusOk, SegmentFinal, ShortestOf, AllCoded, ReadSegment,
      Stream, Leads, Cleared, ArithDecoder.Decoder.Valid, McuDecoder.Following, McuDecoder.Valid, Confirmed, PredictionOk, ScanCoded,
      InScan, ScanInRange;
    var d := new McuDecoder(s, previous, stream);
    Begin(d, x);
    ghost var good, j: nat, p := true, 0, ResetPrediction(s);
    for i := 0 to |layout|
      invariant fresh(d) && fresh(d.coder) && d.s == s
      invariant Deciding(d, x, planes[..], good, i, j, p)
    {
      good, j, p := DecodeNext(d, planes, layout[i], x, good, i, j, p);
    }
    var extraneous;
    marker, rest, extraneous := FindMarker(d, good, x, j, p);
    after, clean := d.coder.stats, d.warnings == 0 && !extraneous;
  }
}
