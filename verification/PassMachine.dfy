// The compressor's passes over an image (jcmaster.c, driven by jcapimin.c).
module PassMachine {
  import opened ScanScript

  datatype PassType = MainPass | HuffOptPass | OutputPass

  // What a pass leaves behind: headers and coded data in the file, or statistics for the scan's
  // Huffman tables.
  datatype Event = FrameHeader | ScanHeader(n: nat) | ScanData(n: nat) | Gathered(n: nat)

  // A DC refinement needs no Huffman table.
  predicate NeedsNoTable(s: ScanInfo, arith: bool) {
    s.Ss == 0 && s.Ah != 0 && !arith
  }

  // The events of scan n
  function ScanLog(scans: seq<ScanInfo>, optimize: bool, arith: bool, n: nat): seq<Event>
    requires n < |scans|
  {
    (if optimize && !NeedsNoTable(scans[n], arith) then [Gathered(n)] else [])
    + (if n == 0 then [FrameHeader] else []) + [ScanHeader(n), ScanData(n)]
  }

  // The events of the first n scans
  function Log(scans: seq<ScanInfo>, optimize: bool, arith: bool, n: nat): seq<Event>
    requires n <= |scans|
  {
    if n == 0 then [] else Log(scans, optimize, arith, n - 1) + ScanLog(scans, optimize, arith, n - 1)
  }

  lemma LogNext(scans: seq<ScanInfo>, optimize: bool, arith: bool, n: nat)
    requires n < |scans|
    ensures Log(scans, optimize, arith, n + 1)
            == Log(scans, optimize, arith, n) + (if optimize && !NeedsNoTable(scans[n], arith) then [Gathered(n)] else [])
               + (if n == 0 then [FrameHeader] else []) + [ScanHeader(n)] + [ScanData(n)]
    ensures n == 0 ==> Log(scans, optimize, arith, n) == []
  {
    hide NeedsNoTable;
    var log := Log(scans, optimize, arith, n);
    var a := if optimize && !NeedsNoTable(scans[n], arith) then [Gathered(n)] else [];
    var b := if n == 0 then [FrameHeader] else [];
    assert log + (a + b + [ScanHeader(n), ScanData(n)]) == log + a + b + [ScanHeader(n)] + [ScanData(n)];
  }

  // ----- Statistics -----

  // The entropy coder emits Huffman symbols for every scan but a DC refinement.
  predicate CodesSymbols(s: ScanInfo) {
    s.Ah == 0 || s.Ss != 0
  }

  // a happens once, and then b, once.
  ghost predicate OnceBefore(events: seq<Event>, a: Event, b: Event) {
    exists i, j :: 0 <= i < j < |events| && OnlyAt(events, a, i) && OnlyAt(events, b, j)
  }

  ghost predicate OnlyAt(events: seq<Event>, e: Event, i: nat) {
    i < |events| && events[i] == e && forall k :: 0 <= k < |events| && events[k] == e ==> k == i
  }

  // With optimization, statistics are gathered once for each scan that codes symbols (for all with
  // arithmetic coding), before its header is written, and for no other.
  ghost predicate GathersRightly(events: seq<Event>, s: ScanInfo, optimize: bool, arith: bool, n: nat) {
    if optimize && (arith || CodesSymbols(s)) then OnceBefore(events, Gathered(n), ScanHeader(n)) else Gathered(n) !in events
  }

  // The log of n scans speaks of these only.
  lemma {:induction false} LogBelow(scans: seq<ScanInfo>, optimize: bool, arith: bool, n: nat)
    requires n <= |scans|
    ensures forall e :: e in Log(scans, optimize, arith, n) ==> e == FrameHeader || e.n < n
  {
    hide NeedsNoTable;
    if n > 0 {
      LogBelow(scans, optimize, arith, n - 1);
    }
  }

  lemma {:induction false} LogGathers(scans: seq<ScanInfo>, optimize: bool, arith: bool, n: nat, m: nat)
    requires m < n <= |scans|
    ensures GathersRightly(Log(scans, optimize, arith, n), scans[m], optimize, arith, m)
  {
    hide ScanLog, OnlyAt;
    var before, last := Log(scans, optimize, arith, n - 1), ScanLog(scans, optimize, arith, n - 1);
    LogBelow(scans, optimize, arith, n - 1);
    ScanGathers(scans, optimize, arith, n - 1);
    if m < n - 1 {
      LogGathers(scans, optimize, arith, n - 1, m);
      if optimize && (arith || CodesSymbols(scans[m])) {
        var i, j :| 0 <= i < j < |before| && OnlyAt(before, Gathered(m), i) && OnlyAt(before, ScanHeader(m), j);
        OnlyThere(before, last, Gathered(m), i);
        OnlyThere(before, last, ScanHeader(m), j);
      }
    } else if optimize && (arith || CodesSymbols(scans[m])) {
      var j := if m == 0 then 2 else 1;
      OnlyHere(before, last, Gathered(m), 0);
      OnlyHere(before, last, ScanHeader(m), j);
      assert |before| + 0 < |before| + j < |before + last|;
    }
  }

  lemma ScanGathers(scans: seq<ScanInfo>, optimize: bool, arith: bool, n: nat)
    requires n < |scans|
    ensures var log := ScanLog(scans, optimize, arith, n);
            && (forall e :: e in log ==> e == FrameHeader || e.n == n)
            && if optimize && (arith || CodesSymbols(scans[n])) then
                 |log| > (if n == 0 then 2 else 1) && OnlyAt(log, Gathered(n), 0) && OnlyAt(log, ScanHeader(n), if n == 0 then 2 else 1)
               else Gathered(n) !in log
  {
    var g, h := optimize && (arith || CodesSymbols(scans[n])), [ScanHeader(n), ScanData(n)];
    assert ScanLog(scans, optimize, arith, n)
        == if g && n == 0 then [Gathered(n), FrameHeader, ScanHeader(n), ScanData(n)]
           else if g then [Gathered(n), ScanHeader(n), ScanData(n)]
           else if n == 0 then [FrameHeader, ScanHeader(n), ScanData(n)]
           else h;
    hide ScanLog;
  }

  lemma OnlyThere(a: seq<Event>, b: seq<Event>, e: Event, i: nat)
    requires OnlyAt(a, e, i) && e !in b
    ensures OnlyAt(a + b, e, i)
  {
    assert forall k :: |a| <= k < |a + b| ==> (a + b)[k] in b;
  }

  lemma OnlyHere(a: seq<Event>, b: seq<Event>, e: Event, i: nat)
    requires OnlyAt(b, e, i) && e !in a
    ensures OnlyAt(a + b, e, |a| + i)
  {
    assert forall k :: 0 <= k < |a| ==> (a + b)[k] in a;
    assert forall k :: |a| <= k < |a + b| ==> (a + b)[k] == b[k - |a|];
  }

  // ----- The file -----

  // What reaches the file
  function File(events: seq<Event>): seq<Event> {
    if events == [] then []
    else (if events[0].Gathered? then [] else [events[0]]) + File(events[1..])
  }

  function Scans(n: nat): seq<Event> {
    if n == 0 then [] else Scans(n - 1) + [ScanHeader(n - 1), ScanData(n - 1)]
  }

  lemma {:induction false} FileConcat(a: seq<Event>, b: seq<Event>)
    ensures File(a + b) == File(a) + File(b)
  {
    if a == [] {
      assert a + b == b;
    } else {
      FileConcat(a[1..], b);
      assert (a + b)[1..] == a[1..] + b;
    }
  }

  // Whatever is optimized, the file is one frame header and every scan once, in order.
  lemma {:induction false} FileOfLog(scans: seq<ScanInfo>, optimize: bool, arith: bool, n: nat)
    requires 0 < n <= |scans|
    ensures File(Log(scans, optimize, arith, n)) == [FrameHeader] + Scans(n)
  {
    hide ScanLog, File;
    var before, last := Log(scans, optimize, arith, n - 1), ScanLog(scans, optimize, arith, n - 1);
    FileConcat(before, last);
    FileOfScan(scans, optimize, arith, n - 1);
    if n > 1 {
      FileOfLog(scans, optimize, arith, n - 1);
      assert [FrameHeader] + Scans(n - 1) + [ScanHeader(n - 1), ScanData(n - 1)] == [FrameHeader] + Scans(n);
    } else {
      assert before == [] && Scans(n - 1) == [] && [] + last == last;
    }
  }

  lemma FileOfScan(scans: seq<ScanInfo>, optimize: bool, arith: bool, n: nat)
    requires n < |scans|
    ensures File(ScanLog(scans, optimize, arith, n)) == (if n == 0 then [FrameHeader] else []) + [ScanHeader(n), ScanData(n)]
  {
    var data := [ScanHeader(n), ScanData(n)];
    var headers := (if n == 0 then [FrameHeader] else []) + data;
    FileOne(ScanData(n), []);
    assert [ScanData(n)] + [] == [ScanData(n)];
    FileOne(ScanHeader(n), [ScanData(n)]);
    assert data == [ScanHeader(n)] + [ScanData(n)];
    FileOne(FrameHeader, data);
    FileOne(Gathered(n), headers);
    hide File;
    assert headers == if n == 0 then [FrameHeader] + data else data;
    assert ScanLog(scans, optimize, arith, n)
        == if optimize && !NeedsNoTable(scans[n], arith) then [Gathered(n)] + headers else headers;
  }

  lemma FileOne(e: Event, rest: seq<Event>)
    ensures File([e] + rest) == (if e.Gathered? then [] else [e]) + File(rest)
  {
    assert ([e] + rest)[1..] == rest;
  }

  class Master {
    const scans: seq<ScanInfo>
    const optimizeCoding: bool
    const arithCode: bool
    const totalPasses: nat
    var passType: PassType
    var passNumber: nat
    var scanNumber: nat
    var isLastPass: bool
    var callPassStartup: bool
    // Parameters are selected for this scan, and statistics are gathered for it or data written.
    var selected: nat
    var gathering: bool
    var events: seq<Event>

    // Between passes; passes counts scans, or twice as many if tables are optimized.
    ghost predicate Between()
      reads this
    {
      && |scans| > 0 && !NeedsNoTable(scans[0], arithCode)
      && totalPasses == (if optimizeCoding then 2 * |scans| else |scans|)
      && !callPassStartup && isLastPass == (scanNumber == |scans|)
      && (match passType
          case MainPass =>
            scanNumber == 0 && passNumber == 0 && events == []
          case HuffOptPass =>
            && optimizeCoding && scanNumber <= |scans| && passNumber == 2 * scanNumber
            && events == Log(scans, optimizeCoding, arithCode, scanNumber)
          case OutputPass =>
            if optimizeCoding then
              && scanNumber < |scans| && passNumber == 2 * scanNumber + 1 && selected == scanNumber
              && !NeedsNoTable(scans[scanNumber], arithCode)
              && events == Log(scans, optimizeCoding, arithCode, scanNumber) + [Gathered(scanNumber)]
            else
              && scanNumber <= |scans| && passNumber == scanNumber
              && events == Log(scans, optimizeCoding, arithCode, scanNumber))
    }

    // Transcoding has no main pass.
    constructor (scans: seq<ScanInfo>, optimizeCoding: bool, arithCode: bool, transcodeOnly: bool)
      requires |scans| > 0 && !NeedsNoTable(scans[0], arithCode)
      ensures Between() && events == [] && scanNumber == 0 && !isLastPass
      ensures this.scans == scans && this.optimizeCoding == optimizeCoding && this.arithCode == arithCode
      ensures passType.MainPass? == !transcodeOnly
    {
      this.scans, this.optimizeCoding, this.arithCode := scans, optimizeCoding, arithCode;
      passType := if transcodeOnly then (if optimizeCoding then HuffOptPass else OutputPass) else MainPass;
      scanNumber, passNumber := 0, 0;
      totalPasses := if optimizeCoding then 2 * |scans| else |scans|;
      isLastPass, callPassStartup, selected, gathering, events := false, false, 0, false, [];
    }

    method SelectScanParameters()
      modifies this`selected
      ensures selected == scanNumber
    {
      selected := scanNumber;
    }

    method WriteHeaders()
      modifies this`events
      ensures events == old(events) + (if scanNumber == 0 then [FrameHeader] else []) + [ScanHeader(selected)]
    {
      if scanNumber == 0 {
        events := events + [FrameHeader];
      }
      events := events + [ScanHeader(selected)];
    }

    // Sets up the next pass. Whether it is the last is known from here on.
    method PrepareForPass()
      requires Between() && scanNumber < |scans|
      modifies this
      ensures Running([]) && scanNumber == old(scanNumber) && passNumber >= old(passNumber)
      ensures passType.MainPass? == old(passType).MainPass?
    {
      hide Log;
      LogNext(scans, optimizeCoding, arithCode, scanNumber);
      match passType {
        case MainPass =>
          SelectScanParameters();
          gathering := optimizeCoding;
          callPassStartup := !optimizeCoding;
        case HuffOptPass =>
          SelectScanParameters();
          var s := scans[selected];
          if s.Ss != 0 || s.Ah == 0 || arithCode {
            gathering := true;
            callPassStartup := false;
          } else {
            passType := OutputPass;
            passNumber := passNumber + 1;
            PrepareOutput();
          }
        case OutputPass =>
          PrepareOutput();
      }
      isLastPass := passNumber == totalPasses - 1;
    }

    method PrepareOutput()
      requires optimizeCoding ==> selected == scanNumber
      modifies this`selected, this`gathering, this`events, this`callPassStartup
      ensures selected == scanNumber && !gathering && !callPassStartup
      ensures events == old(events) + (if scanNumber == 0 then [FrameHeader] else []) + [ScanHeader(scanNumber)]
    {
      if !optimizeCoding {
        SelectScanParameters();
      }
      gathering := false;
      WriteHeaders();
      callPassStartup := false;
    }

    // What the entropy coder contributes to the pass
    function Rows(): seq<Event>
      reads this
    {
      [if gathering then Gathered(scanNumber) else ScanData(scanNumber)]
    }

    // During a pass, after these rows
    ghost predicate Running(rows: seq<Event>)
      reads this
    {
      && |scans| > 0 && !NeedsNoTable(scans[0], arithCode)
      && totalPasses == (if optimizeCoding then 2 * |scans| else |scans|)
      && scanNumber < |scans| && selected == scanNumber
      && isLastPass == (passNumber == totalPasses - 1)
      && passNumber == (if optimizeCoding then 2 * scanNumber + (if gathering then 0 else 1) else scanNumber)
      && (gathering ==> optimizeCoding && !passType.OutputPass? && !callPassStartup)
      && (passType.HuffOptPass? ==> gathering)
      && (passType.MainPass? ==> scanNumber == 0 && gathering == optimizeCoding)
      && (gathering ==> !NeedsNoTable(scans[scanNumber], arithCode))
      && (callPassStartup ==> passType.MainPass? && !optimizeCoding)
      && var before := Log(scans, optimizeCoding, arithCode, scanNumber)
                       + if gathering || !optimizeCoding || NeedsNoTable(scans[scanNumber], arithCode) then []
                         else [Gathered(scanNumber)];
         events == if gathering || callPassStartup then before + rows
                   else before + (if scanNumber == 0 then [FrameHeader] else []) + [ScanHeader(scanNumber)] + rows
    }

    // Postponed headers are written when the first row arrives.
    method PassStartup()
      requires Running([]) && callPassStartup
      modifies this`callPassStartup, this`events
      ensures Running([]) && !callPassStartup
    {
      callPassStartup := false;
      WriteHeaders();
    }

    // All rows pass through the entropy coder, which either counts or codes; then the pass ends.
    method CodeRows()
      requires Running([]) && !callPassStartup
      modifies this`events
      ensures Running(Rows())
    {
      events := events + [if gathering then Gathered(selected) else ScanData(selected)];
    }

    method FinishPass()
      requires Running(Rows()) && !callPassStartup
      modifies this`passType, this`scanNumber, this`passNumber
      ensures Between() && passNumber == old(passNumber) + 1 && !passType.MainPass?
      ensures scanNumber == old(scanNumber) + (if gathering then 0 else 1)
    {
      hide NeedsNoTable, Log;
      LogNext(scans, optimizeCoding, arithCode, scanNumber);
      match passType {
        case MainPass =>
          passType := OutputPass;
          if !optimizeCoding {
            scanNumber := scanNumber + 1;
          }
        case HuffOptPass =>
          passType := OutputPass;
        case OutputPass =>
          if optimizeCoding {
            passType := HuffOptPass;
          }
          scanNumber := scanNumber + 1;
      }
      passNumber := passNumber + 1;
    }

    // A whole compression: the first pass is fed by the application, the others from memory.
    // Every scan is coded once and in order, after one frame header, and the loop ends with it.
    method Compress()
      requires Between() && events == [] && scanNumber == 0 && !isLastPass
      modifies this
      ensures forall n :: 0 <= n < |scans| ==> GathersRightly(events, scans[n], optimizeCoding, arithCode, n)
      ensures isLastPass && passNumber == totalPasses
      ensures events == Log(scans, optimizeCoding, arithCode, |scans|)
      ensures File(events) == [FrameHeader] + Scans(|scans|)
    {
      hide Log, NeedsNoTable, File, Scans, GathersRightly;
      if passType.MainPass? {
        PrepareForPass();
        if callPassStartup {
          PassStartup();
        }
        CodeRows();
        FinishPass();
      }
      while !isLastPass
        invariant Between() && !passType.MainPass?
        invariant isLastPass ==> events == Log(scans, optimizeCoding, arithCode, |scans|) && passNumber == totalPasses
        decreases totalPasses - passNumber
      {
        PrepareForPass();
        CodeRows();
        FinishPass();
      }
      FileOfLog(scans, optimizeCoding, arithCode, |scans|);
      forall n | 0 <= n < |scans|
        ensures GathersRightly(events, scans[n], optimizeCoding, arithCode, n)
      {
        LogGathers(scans, optimizeCoding, arithCode, |scans|, n);
      }
    }
  }
}
