// The headers of a whole file, written and read: at every scan the decoder has the tables and
// parameters that the compressor used, although what has been sent is not sent again.
module HeaderRoundTrip {
  import opened ArithInterval
  import opened ArithScan
  import opened ByteSource
  import opened HuffmanGen
  import opened MarkerSegments
  import opened MarkerWriter
  import opened MarkerReader

  // A Huffman table made for a scan
  datatype NewTable = NewTable(isAc: bool, index: nat, table: HuffTable)

  // What happens before a scan: new Huffman tables (jchuff.c marks them as not sent), and its parameters
  datatype Change = Change(made: seq<NewTable>, restartInterval: UInt16, scan: ScanSpec)

  ghost predicate ChangeFits(comps: seq<Comp>, c: Change) {
    SpecFits(comps, c.scan) && forall k :: 0 <= k < |c.made| ==> c.made[k].index < NUM_HUFF_TBLS && HuffFits(c.made[k].table)
  }

  ghost predicate ChangesFit(comps: seq<Comp>, changes: seq<Change>) {
    forall n :: 0 <= n < |changes| ==> ChangeFits(comps, changes[n])
  }

  function Install(t: Tables, made: seq<NewTable>, n: nat): (u: Tables)
    requires |t.dcHuff| == |t.acHuff| == NUM_HUFF_TBLS && n <= |made|
    requires forall k :: 0 <= k < |made| ==> made[k].index < NUM_HUFF_TBLS
    ensures |u.dcHuff| == |u.acHuff| == NUM_HUFF_TBLS
  {
    if n == 0 then t
    else
      var u, x := Install(t, made, n - 1), made[n - 1];
      if x.isAc then u.(acHuff := u.acHuff[x.index := Some(Slot(x.table, false))])
      else u.(dcHuff := u.dcHuff[x.index := Some(Slot(x.table, false))])
  }

  // The compressor's tables with the change
  function Changed(t: Tables, c: Change): Tables
    requires |t.dcHuff| == |t.acHuff| == NUM_HUFF_TBLS && forall k :: 0 <= k < |c.made| ==> c.made[k].index < NUM_HUFF_TBLS
  {
    Install(t, c.made, |c.made|).(restartInterval := c.restartInterval)
  }

  // New tables have not been sent, so both sides stay in step.
  lemma {:induction false} InstallInStep(t: Tables, made: seq<NewTable>, n: nat, last: UInt16, p: Params)
    requires TablesShape(t) && ParamsShape(p) && InStep(t, last, p) && n <= |made|
    requires forall k :: 0 <= k < |made| ==> made[k].index < NUM_HUFF_TBLS && HuffFits(made[k].table)
    ensures TablesShape(Install(t, made, n)) && InStep(Install(t, made, n), last, p) && Install(t, made, n).quant == t.quant
  {
    hide HuffFits, Received, QuantInStep;
    if n > 0 {
      InstallInStep(t, made, n - 1, last, p);
    }
  }

  lemma ChangedInStep(t: Tables, comps: seq<Comp>, c: Change, last: UInt16, p: Params)
    requires TablesShape(t) && ParamsShape(p) && InStep(t, last, p) && ChangeFits(comps, c)
    ensures TablesShape(Changed(t, c)) && InStep(Changed(t, c), last, p) && Changed(t, c).quant == t.quant
  {
    hide HuffFits, Received, QuantInStep, HuffInStep, SpecFits;
    InstallInStep(t, c.made, |c.made|, last, p);
  }

  // ----- What has been written -----

  // The segments before a scan, its parameters, the coded data, the compressor's tables then, and what
  // the decoder makes of the segments
  datatype WrittenScan = WrittenScan(segments: seq<MarkerSegment>, scan: ScanSpec, data: seq<Byte>, tables: Tables, params: Params)

  ghost predicate ScanFits(comps: seq<Comp>, frame: FrameInfo, x: WrittenScan) {
    AllFit(x.segments) && SpecFits(comps, x.scan) && HeaderFits(frame, Header(comps, x.scan))
  }

  ghost predicate ScansFit(comps: seq<Comp>, frame: FrameInfo, xs: seq<WrittenScan>) {
    forall n :: 0 <= n < |xs| ==> ScanFits(comps, frame, xs[n])
  }

  ghost function ScanBytesOf(order: seq<nat>, comps: seq<Comp>, frame: FrameInfo, x: WrittenScan): seq<Byte>
    requires OrderFits(order) && ScanFits(comps, frame, x)
  {
    AllBytes(order, x.segments) + ([0xFF, SOS] + HeaderBody(frame, Header(comps, x.scan))) + x.data
  }

  // The file from scan n on
  ghost function FileFrom(order: seq<nat>, comps: seq<Comp>, frame: FrameInfo, xs: seq<WrittenScan>, n: nat): seq<Byte>
    requires OrderFits(order) && ScansFit(comps, frame, xs) && n <= |xs|
    decreases |xs| - n
  {
    if n == |xs| then [0xFF, EOI] else ScanBytesOf(order, comps, frame, xs[n]) + FileFrom(order, comps, frame, xs, n + 1)
  }

  // What the decoder has when scan n starts: all that the compressor uses for it
  ghost predicate ScanReady(comps: seq<Comp>, arithCode: bool, frame: FrameInfo, x: WrittenScan) {
    && CompsFit(comps, arithCode) && SpecFits(comps, x.scan) && TablesShape(x.tables) && ParamsShape(x.params)
    && EntropyReady(x.tables, comps, x.scan, arithCode, x.params) && x.params.restartInterval == x.tables.restartInterval
    && x.params.frame == Some(frame) && QuantsReady(x.tables, comps, |comps|, x.params)
  }

  ghost function Before(p: Params, xs: seq<WrittenScan>, n: nat): Params
    requires n <= |xs|
  {
    if n == 0 then p else xs[n - 1].params
  }

  // Scan n's segments lead from what the decoder has before to what it has then, with one frame header in all.
  ghost predicate Linked(p: Params, xs: seq<WrittenScan>, n: nat)
    requires n < |xs|
  {
    && ParamsShape(Before(p, xs, n)) && AllFit(xs[n].segments) && FrameOnce(Before(p, xs, n), xs[n].segments)
    && xs[n].params == ApplyAll(Before(p, xs, n), xs[n].segments)
  }

  ghost predicate AllLinked(p: Params, xs: seq<WrittenScan>) {
    forall n :: 0 <= n < |xs| ==> Linked(p, xs, n)
  }

  // The scans written so far
  ghost function AllScans(order: seq<nat>, comps: seq<Comp>, frame: FrameInfo, xs: seq<WrittenScan>): seq<Byte>
    requires OrderFits(order) && ScansFit(comps, frame, xs)
    decreases |xs|
  {
    if xs == [] then []
    else AllScans(order, comps, frame, xs[..|xs| - 1]) + ScanBytesOf(order, comps, frame, xs[|xs| - 1])
  }

  lemma {:induction false} FileSplit(order: seq<nat>, comps: seq<Comp>, frame: FrameInfo, xs: seq<WrittenScan>, n: nat)
    requires OrderFits(order) && ScansFit(comps, frame, xs) && n <= |xs|
    ensures ScansFit(comps, frame, xs[..n])
    ensures AllScans(order, comps, frame, xs[..n]) + FileFrom(order, comps, frame, xs, n)
         == AllScans(order, comps, frame, xs) + [0xFF, EOI]
    decreases |xs| - n
  {
    hide ScanFits, ScanBytesOf;
    if n == |xs| {
      assert xs[..n] == xs;
    } else {
      FileSplit(order, comps, frame, xs, n + 1);
      assert xs[..n + 1][..n] == xs[..n] && xs[..n + 1][n] == xs[n];
    }
  }

  // ----- Writing -----

  // The compressor's tables for scan n, apart from what has been sent
  function TablesFor(t: Tables, changes: seq<Change>, n: nat): (u: Tables)
    requires n < |changes| && |t.dcHuff| == |t.acHuff| == NUM_HUFF_TBLS
    requires forall m :: 0 <= m < |changes| ==> forall k :: 0 <= k < |changes[m].made| ==> changes[m].made[k].index < NUM_HUFF_TBLS
    ensures |u.dcHuff| == |u.acHuff| == NUM_HUFF_TBLS
  {
    Changed(if n == 0 then t else TablesFor(t, changes, n - 1), changes[n])
  }

  // A scan's Huffman tables are all defined, if it needs any.
  ghost predicate TablesDefined(comps: seq<Comp>, arithCode: bool, t: Tables, scan: ScanSpec)
    requires CompsFit(comps, arithCode) && SpecFits(comps, scan) && |t.dcHuff| == |t.acHuff| == NUM_HUFF_TBLS
  {
    arithCode || HuffsDefined(t, comps, scan, |scan.comps|)
  }

  lemma DefinedAlike(comps: seq<Comp>, arithCode: bool, t: Tables, u: Tables, scan: ScanSpec)
    requires CompsFit(comps, arithCode) && SpecFits(comps, scan) && SameTables(t, u)
    ensures TablesDefined(comps, arithCode, t, scan) <==> TablesDefined(comps, arithCode, u, scan)
  {
    if !arithCode {
      forall isAc, i | 0 <= i < |scan.comps|
        ensures Defined(t, isAc, TableOf(comps[scan.comps[i]], isAc)) <==> Defined(u, isAc, TableOf(comps[scan.comps[i]], isAc))
      {
        var n := TableOf(comps[scan.comps[i]], isAc);
        assert SameSlot(t.dcHuff[n], u.dcHuff[n]) && SameSlot(t.acHuff[n], u.acHuff[n]);
      }
    }
  }

  // A scan behind the segments that have been written since the last one
  method WriteScan(w: MarkerWriter, c: Change, data: seq<Byte>, ghost p: Params, ghost start: seq<MarkerSegment>,
                   ghost written: seq<Byte>)
    returns (ok: bool, ghost x: WrittenScan)
    requires w.Valid() && ChangeFits(w.comps, c) && w.height <= 65535 && w.width <= 65535 && ParamsShape(p) && AllFit(start)
    requires w.out == written + AllBytes(w.order, start) && FrameOnce(p, start)
    requires var q := ApplyAll(p, start);
             && InStep(w.tables, w.lastRestartInterval, q) && q.frame == Some(w.Frame()) && QuantsReady(w.tables, w.comps, |w.comps|, q)
    modifies w`out, w`tables, w`lastRestartInterval
    ensures w.Valid() && SameTables(Changed(old(w.tables), c), w.tables)
    ensures ok <==> TablesDefined(w.comps, w.arithCode, Changed(old(w.tables), c), c.scan)
    ensures ok ==> ScanFits(w.comps, w.Frame(), x) && w.out == written + ScanBytesOf(w.order, w.comps, w.Frame(), x)
    ensures ok ==> x.scan == c.scan && x.data == data && x.tables == w.tables && x.params == ApplyAll(p, x.segments)
    ensures ok ==> AllFit(x.segments) && FrameOnce(p, x.segments) && InStep(w.tables, w.lastRestartInterval, x.params)
    ensures ok ==> ScanReady(w.comps, w.arithCode, w.Frame(), x)
  {
    hide OrderOk, OrderFits, AllBytes, ApplyAll, SegmentFits, InStep, SameTables, EntropyReady, QuantsReady, FrameOnce, HeaderBody,
      HeaderFits, Header, SpecFits, Changed, MarkerWriter.Frame;
    ghost var q := ApplyAll(p, start);
    ChangedInStep(w.tables, w.comps, c, w.lastRestartInterval, q);
    w.tables := Changed(w.tables, c);
    ghost var sent;
    ok, sent := w.WriteScanHeader(c.scan, q);
    x := WrittenScan(start + sent, c.scan, data, w.tables, q);
    if ok {
      w.EmitBytes(data);
      ApplyConcat(p, start, sent);
      AllBytesConcat(w.order, start, sent);
      FrameKept(q, sent);
      QuantsKept(q, sent);
      FrameOnceConcat(p, start, sent);
      x := WrittenScan(start + sent, c.scan, data, w.tables, ApplyAll(q, sent));
      StillReadyThen(old(w.tables), w.tables, w.comps, q, x.params);
    }
  }

  lemma StillReadyThen(t: Tables, u: Tables, comps: seq<Comp>, p: Params, q: Params)
    requires |t.quant| == |p.quant| == NUM_QUANT_TBLS && q.quant == p.quant && u.quant == t.quant
    requires forall c :: 0 <= c < |comps| ==> comps[c].quantTbl < NUM_QUANT_TBLS
    ensures QuantsReady(t, comps, |comps|, p) ==> QuantsReady(u, comps, |comps|, q)
  {
  }

  lemma {:induction false} FrameOnceConcat(p: Params, a: seq<MarkerSegment>, b: seq<MarkerSegment>)
    requires ParamsShape(p) && AllFit(a) && AllFit(b) && FrameOnce(p, a) && FrameOnce(ApplyAll(p, a), b)
    ensures AllFit(a + b) && FrameOnce(p, a + b)
    decreases |a|
  {
    hide SegmentFits, ParamsShape;
    if a == [] {
      assert a + b == b;
    } else {
      FrameOnceConcat(Apply(p, a[0]), a[1..], b);
      assert (a + b)[1..] == a[1..] + b;
    }
  }

  ghost predicate Applications(apps: seq<MarkerSegment>) {
    forall i :: 0 <= i < |apps| ==> apps[i].Application? && SegmentFits(apps[i])
  }

  // What is known when the next scan's header can be written
  ghost predicate CanScan(w: MarkerWriter, p: Params, start: seq<MarkerSegment>)
    requires ParamsShape(p)
    reads w
  {
    && w.Valid() && w.height <= 65535 && w.width <= 65535 && AllFit(start) && FrameOnce(p, start)
    && var q := ApplyAll(p, start);
       && InStep(w.tables, w.lastRestartInterval, q) && q.frame == Some(w.Frame()) && QuantsReady(w.tables, w.comps, |w.comps|, q)
  }

  // write_file_header, application segments, and write_frame_header
  method WriteStart(w: MarkerWriter, apps: seq<MarkerSegment>, ghost p: Params) returns (ok: bool, ghost start: seq<MarkerSegment>)
    requires w.Valid() && w.out == [] && ParamsShape(p) && InStep(w.tables, 0, p) && p.frame.None? && Applications(apps)
    modifies w`out, w`tables, w`lastRestartInterval
    ensures w.Valid() && SameTables(old(w.tables), w.tables) && AllFit(start)
    ensures ok <==> QuantsDefined(old(w.tables), w.comps, |w.comps|) && w.height <= 65535 && w.width <= 65535
    ensures ok ==> w.out == [0xFF, SOI] + AllBytes(w.order, start) && CanScan(w, p, start)
  {
    hide OrderOk, OrderFits, AllBytes, ApplyAll, InStep, SameTables, QuantsReady, FrameOnce, MarkerWriter.Frame, TablesShape, ParamsShape,
      CompsFit, QuantsDefined;
    w.EmitMarker(SOI);
    w.lastRestartInterval := 0;
    NoSegments(w.order);
    NothingApplied(p);
    start := [];
    for i := 0 to |apps|
      invariant w.Valid() && AllFit(start) && NoFrames(start) && w.out == [0xFF, SOI] + AllBytes(w.order, start)
      invariant ApplyAll(p, start) == p && w.tables == old(w.tables) && w.lastRestartInterval == 0
    {
      ghost var sent := w.WriteApplication(apps[i].marker, apps[i].data);
      OneApplied(p, sent[0]);
      ApplyConcat(p, start, sent);
      AllBytesConcat(w.order, start, sent);
      start := start + sent;
    }
    ghost var sent;
    FrameKept(p, start);
    ok, sent := w.WriteFrameHeader(p);
    if ok {
      ApplyConcat(p, start, sent);
      AllBytesConcat(w.order, start, sent);
      FrameOnceConcat(p, start, sent);
      start := start + sent;
    }
  }

  // Scan n is as asked for, with these tables at first, and the decoder will have what it uses.
  ghost predicate ScanAsAsked(w: MarkerWriter, t: Tables, changes: seq<Change>, datas: seq<seq<Byte>>, x: WrittenScan, n: nat)
    requires n < |changes| == |datas| && ChangesFit(w.comps, changes) && TablesShape(t) && w.height <= 65535 && w.width <= 65535
    requires CompsFit(w.comps, w.arithCode)
  {
    && ScanReady(w.comps, w.arithCode, w.Frame(), x) && x.scan == changes[n].scan && x.data == datas[n]
    && SameTables(TablesFor(t, changes, n), x.tables)
  }

  // So many scans have been written.
  ghost predicate Writing(w: MarkerWriter, t: Tables, changes: seq<Change>, datas: seq<seq<Byte>>, p: Params, start: seq<MarkerSegment>,
                          xs: seq<WrittenScan>)
    requires |xs| <= |changes| == |datas| && ChangesFit(w.comps, changes) && TablesShape(t)
    reads w
  {
    && w.Valid() && w.height <= 65535 && w.width <= 65535 && ScansFit(w.comps, w.Frame(), xs) && AllLinked(p, xs)
    && ParamsShape(Before(p, xs, |xs|)) && CanScan(w, Before(p, xs, |xs|), if xs == [] then start else [])
    && w.out == [0xFF, SOI] + AllScans(w.order, w.comps, w.Frame(), xs) + (if xs == [] then AllBytes(w.order, start) else [])
    && SameTables(if xs == [] then t else TablesFor(t, changes, |xs| - 1), w.tables)
    && forall n :: 0 <= n < |xs| ==> ScanAsAsked(w, t, changes, datas, xs[n], n)
  }

  // Scan n has its tables.
  ghost predicate CanCode(comps: seq<Comp>, arithCode: bool, t: Tables, changes: seq<Change>, n: nat)
    requires CompsFit(comps, arithCode) && ChangesFit(comps, changes) && TablesShape(t) && n < |changes|
  {
    TablesDefined(comps, arithCode, TablesFor(t, changes, n), changes[n].scan)
  }

  // The file can be written.
  ghost predicate Writable(w: MarkerWriter, t: Tables, changes: seq<Change>)
    requires CompsFit(w.comps, w.arithCode) && ChangesFit(w.comps, changes) && TablesShape(t)
  {
    && QuantsDefined(t, w.comps, |w.comps|) && w.height <= 65535 && w.width <= 65535
    && forall n :: 0 <= n < |changes| ==> CanCode(w.comps, w.arithCode, t, changes, n)
  }

  // The next scan
  method WriteNext(w: MarkerWriter, ghost t: Tables, changes: seq<Change>, datas: seq<seq<Byte>>, n: nat, ghost p: Params,
                   ghost start: seq<MarkerSegment>, ghost xs: seq<WrittenScan>)
    returns (ok: bool, ghost xs': seq<WrittenScan>)
    requires n == |xs| < |changes| == |datas| && ChangesFit(w.comps, changes) && TablesShape(t)
    requires Writing(w, t, changes, datas, p, start, xs)
    modifies w`out, w`tables, w`lastRestartInterval
    ensures w.Valid() && (ok ==> |xs'| == n + 1 && Writing(w, t, changes, datas, p, start, xs'))
    ensures ok <==> CanCode(w.comps, w.arithCode, t, changes, n)
  {
    hide OrderOk, OrderFits, AllBytes, ApplyAll, InStep, SameTables, QuantsReady, FrameOnce, MarkerWriter.Frame, TablesShape, ParamsShape,
      CompsFit, SegmentFits, EntropyReady, HeaderFits, HeaderBody, Header, Changed, ScanReady, ScanFits, ScanBytesOf, SpecFits, HuffFits,
      AllScans, AllLinked, ScansFit, TablesDefined;
    ghost var q, pending, was := Before(p, xs, n), if n == 0 then start else [], w.tables;
    ghost var written := [0xFF, SOI] + AllScans(w.order, w.comps, w.Frame(), xs);
    ghost var next;
    NoSegments(w.order);
    ok, next := WriteScan(w, changes[n], datas[n], q, pending, written);
    xs' := xs;
    TablesKnown(t);
    TablesKnown(was);
    ChangedSame(if n == 0 then t else TablesFor(t, changes, n - 1), was, w.comps, changes[n]);
    DefinedAlike(w.comps, w.arithCode, TablesFor(t, changes, n), Changed(was, changes[n]), changes[n].scan);
    if ok {
      SameTrans(TablesFor(t, changes, n), Changed(was, changes[n]), w.tables);
      NextLinked(p, xs, next);
      NextScans(w.order, w.comps, w.Frame(), xs, next);
      ReadyToScan(w, next);
      xs' := xs + [next];
    }
  }

  lemma TablesKnown(t: Tables)
    requires TablesShape(t)
    ensures |t.dcHuff| == |t.acHuff| == NUM_HUFF_TBLS
  {
  }

  // A whole file; p is what the decoder has before the first segment.
  method WriteFile(w: MarkerWriter, apps: seq<MarkerSegment>, changes: seq<Change>, datas: seq<seq<Byte>>, ghost p: Params)
    returns (ok: bool, ghost xs: seq<WrittenScan>)
    requires w.Valid() && w.out == [] && ParamsShape(p) && InStep(w.tables, 0, p) && p.frame.None? && Applications(apps)
    requires 0 < |changes| == |datas| && ChangesFit(w.comps, changes)
    modifies w`out, w`tables, w`lastRestartInterval
    ensures ok <==> Writable(w, old(w.tables), changes)
    ensures w.Valid() && (ok ==> |xs| == |changes| && w.height <= 65535 && w.width <= 65535 && ScansFit(w.comps, w.Frame(), xs))
    ensures ok ==> w.out == [0xFF, SOI] + (AllScans(w.order, w.comps, w.Frame(), xs) + [0xFF, EOI])
    ensures ok ==> AllLinked(p, xs) && forall n :: 0 <= n < |xs| ==> ScanAsAsked(w, old(w.tables), changes, datas, xs[n], n)
  {
    hide OrderOk, OrderFits, AllBytes, ApplyAll, InStep, SameTables, QuantsReady, FrameOnce, MarkerWriter.Frame, TablesShape, ParamsShape,
      CompsFit, SegmentFits, ScanAsAsked, ScansFit, AllLinked, AllScans, ChangesFit, CanScan, CanCode;
    ghost var start, t := [], w.tables;
    xs := [];
    ok, start := WriteStart(w, apps, p);
    if !ok {
      return;
    }
    StartsWriting(w, t, changes, datas, p, start);
    for n := 0 to |changes|
      invariant |xs| == n && Writing(w, t, changes, datas, p, start, xs)
      invariant forall m :: 0 <= m < n ==> CanCode(w.comps, w.arithCode, t, changes, m)
    {
      ok, xs := WriteNext(w, t, changes, datas, n, p, start, xs);
      if !ok {
        return;
      }
    }
    w.EmitMarker(EOI);
  }

  lemma StartsWriting(w: MarkerWriter, t: Tables, changes: seq<Change>, datas: seq<seq<Byte>>, p: Params, start: seq<MarkerSegment>)
    requires |changes| == |datas| && ChangesFit(w.comps, changes) && TablesShape(t) && ParamsShape(p)
    requires AllFit(start) && CanScan(w, p, start) && SameTables(t, w.tables) && w.out == [0xFF, SOI] + AllBytes(w.order, start)
    ensures Writing(w, t, changes, datas, p, start, [])
  {
    hide OrderOk, OrderFits, ApplyAll, AllBytes, InStep, SameTables, QuantsReady, FrameOnce, TablesShape, ParamsShape,
        CompsFit, SegmentFits,
      MarkerWriter.Frame;
  }

  lemma NextLinked(p: Params, xs: seq<WrittenScan>, x: WrittenScan)
    requires AllLinked(p, xs) && ParamsShape(Before(p, xs, |xs|)) && AllFit(x.segments) && FrameOnce(Before(p, xs, |xs|), x.segments)
    requires x.params == ApplyAll(Before(p, xs, |xs|), x.segments)
    ensures AllLinked(p, xs + [x]) && Before(p, xs + [x], |xs| + 1) == x.params
  {
    hide AllFit, FrameOnce, ApplyAll, ParamsShape;
    var ys := xs + [x];
    forall n | 0 <= n < |ys|
      ensures Linked(p, ys, n)
    {
      assert Before(p, ys, n) == Before(p, xs, n);
      if n < |xs| {
        assert Linked(p, xs, n) && ys[n] == xs[n];
      }
    }
  }

  lemma NextScans(order: seq<nat>, comps: seq<Comp>, frame: FrameInfo, xs: seq<WrittenScan>, x: WrittenScan)
    requires OrderFits(order) && ScansFit(comps, frame, xs) && ScanFits(comps, frame, x)
    ensures ScansFit(comps, frame, xs + [x])
    ensures AllScans(order, comps, frame, xs + [x]) == AllScans(order, comps, frame, xs) + ScanBytesOf(order, comps, frame, x)
  {
    hide ScanFits, ScanBytesOf;
    assert (xs + [x])[..|xs|] == xs;
  }

  // Behind a scan the next one's header can be written.
  lemma ReadyToScan(w: MarkerWriter, x: WrittenScan)
    requires w.Valid() && w.height <= 65535 && w.width <= 65535 && ScanReady(w.comps, w.arithCode, w.Frame(), x)
    requires x.tables == w.tables && InStep(w.tables, w.lastRestartInterval, x.params)
    ensures CanScan(w, x.params, [])
  {
    hide OrderOk, OrderFits, InStep, QuantsReady, TablesShape, ParamsShape, CompsFit, EntropyReady, MarkerWriter.Frame;
    NothingApplied(x.params);
  }

  lemma {:induction false} InstallSame(t: Tables, u: Tables, made: seq<NewTable>, n: nat)
    requires SameTables(t, u) && n <= |made| && forall k :: 0 <= k < |made| ==> made[k].index < NUM_HUFF_TBLS
    ensures SameTables(Install(t, made, n), Install(u, made, n))
  {
    if n > 0 {
      InstallSame(t, u, made, n - 1);
    }
  }

  lemma ChangedSame(t: Tables, u: Tables, comps: seq<Comp>, c: Change)
    requires SameTables(t, u) && ChangeFits(comps, c)
    ensures SameTables(Changed(t, c), Changed(u, c))
  {
    hide SpecFits, HuffFits;
    InstallSame(t, u, c.made, |c.made|);
  }

  lemma SameTrans(t: Tables, u: Tables, v: Tables)
    requires SameTables(t, u) && SameTables(u, v)
    ensures SameTables(t, v)
  {
  }

  // ----- Reading -----

  // Entropy-coded data is read up to the next marker, which may have been found already.
  method SkipData(r: MarkerReader, size: nat, found: bool, ghost next: seq<Byte>)
    requires r.Valid() && r.unreadMarker == 0 && size <= |r.rest| && r.rest[size..] == next
    requires |next| >= 2 && next[0] == 0xFF && next[1] != 0 && next[1] != 0xFF
    modifies r`rest, r`unreadMarker
    ensures r.Valid() && r.Ahead() == next
  {
    hide OrderOk;
    r.rest := r.rest[size..];
    if found {
      r.unreadMarker, r.rest := r.rest[1], r.rest[2..];
      assert [0xFF, next[1]] + next[2..] == next;
    }
  }

  // What follows a scan starts with a marker.
  lemma FileStarts(order: seq<nat>, comps: seq<Comp>, frame: FrameInfo, xs: seq<WrittenScan>, n: nat)
    requires OrderFits(order) && ScansFit(comps, frame, xs) && n <= |xs|
    ensures var next := FileFrom(order, comps, frame, xs, n);
            |next| >= 2 && next[0] == 0xFF && next[1] != 0 && next[1] != 0xFF
  {
    hide SegmentFits, BodyOf, HeaderBody, HeaderFits, Header, SpecFits;
    if n < |xs| && xs[n].segments != [] {
      MarkerKinds(xs[n].segments[0]);
    }
  }

  // Scan n as the reader expects it
  lemma FileNext(order: seq<nat>, comps: seq<Comp>, frame: FrameInfo, xs: seq<WrittenScan>, n: nat)
    requires OrderFits(order) && ScansFit(comps, frame, xs) && n < |xs|
    ensures ScanFits(comps, frame, xs[n])
    ensures FileFrom(order, comps, frame, xs, n)
         == AllBytes(order, xs[n].segments)
            + ([0xFF, SOS] + HeaderBody(frame, Header(comps, xs[n].scan)) + (xs[n].data + FileFrom(order, comps, frame, xs, n + 1)))
  {
    hide AllBytes, HeaderBody, Header, HeaderFits, SpecFits, AllFit;
  }

  lemma WholeFile(order: seq<nat>, comps: seq<Comp>, frame: FrameInfo, xs: seq<WrittenScan>)
    requires OrderFits(order) && ScansFit(comps, frame, xs)
    ensures AllScans(order, comps, frame, xs) + [0xFF, EOI] == FileFrom(order, comps, frame, xs, 0)
  {
    hide ScanFits, ScanBytesOf, FileFrom;
    FileSplit(order, comps, frame, xs, 0);
    assert AllScans(order, comps, frame, xs[..0]) == [];
  }

  // The reader stands before scan n.
  ghost predicate Reading(r: MarkerReader, p: Params, comps: seq<Comp>, frame: FrameInfo, xs: seq<WrittenScan>, n: nat)
    requires OrderFits(r.order) && ScansFit(comps, frame, xs) && n <= |xs|
    reads r
  {
    && r.Valid() && r.discardedBytes == 0 && (r.sawSOI <==> 0 < n) && r.Base() == Before(p, xs, n)
    && r.Ahead() == (if n == 0 then [0xFF, SOI] else []) + FileFrom(r.order, comps, frame, xs, n)
  }

  // Read the header of scan n; the reader then stands at its data. Behind the last scan it finds the end.
  method ReadHeader(r: MarkerReader, ghost p: Params, ghost comps: seq<Comp>, ghost frame: FrameInfo, ghost xs: seq<WrittenScan>,
                    ghost n: nat)
    returns (result: ReadResult)
    requires OrderFits(r.order) && ScansFit(comps, frame, xs) && n <= |xs| && 0 < |xs| && Reading(r, p, comps, frame, xs, n)
    requires AllLinked(p, xs) && DistinctIds(frame) && (n < |xs| ==> xs[n].params.frame == Some(frame))
    modifies r
    ensures r.Valid()
    ensures if n == |xs| then result == ReachedEoi && r.cinfo == old(r.cinfo)
            else if ComponentsFound(xs[n].scan.comps) then
              && result == ReachedSos(Header(comps, xs[n].scan)) && r.cinfo == xs[n].params && AtData(r, comps, frame, xs, n)
            else result == Failed
  {
    hide OrderOk, OrderFits, AllBytes, ApplyAll, FrameOnce, ParamsShape, HeaderFits, HeaderBody, SpecFits, DistinctIds, AllFit,
      ComponentsFound, FileFrom;
    ghost var x := xs[if n < |xs| then n else 0];
    ghost var h, next := Header(comps, x.scan), if n < |xs| then FileFrom(r.order, comps, frame, xs, n + 1) else [];
    assert ScanFits(comps, frame, x);
    if n < |xs| {
      FileNext(r.order, comps, frame, xs, n);
      assert Linked(p, xs, n);
    } else {
      AllRead(r.order, comps, frame, xs);
    }
    result := r.ReadMarkers(x.segments, frame, h, x.data + next);
  }

  lemma AllRead(order: seq<nat>, comps: seq<Comp>, frame: FrameInfo, xs: seq<WrittenScan>)
    requires OrderFits(order) && ScansFit(comps, frame, xs)
    ensures FileFrom(order, comps, frame, xs, |xs|) == [0xFF, EOI]
  {
  }

  ghost predicate AtData(r: MarkerReader, comps: seq<Comp>, frame: FrameInfo, xs: seq<WrittenScan>, n: nat)
    requires OrderFits(r.order) && ScansFit(comps, frame, xs) && n < |xs|
    reads r
  {
    && r.rest == xs[n].data + FileFrom(r.order, comps, frame, xs, n + 1) && r.unreadMarker == 0 && r.sawSOI && r.discardedBytes == 0
    && r.cinfo == xs[n].params
  }

  // Behind the data of scan n the next one follows.
  lemma BehindData(r: MarkerReader, p: Params, comps: seq<Comp>, frame: FrameInfo, xs: seq<WrittenScan>, n: nat)
    requires OrderFits(r.order) && ScansFit(comps, frame, xs) && n < |xs| && r.Valid() && r.sawSOI && r.discardedBytes == 0
    requires r.cinfo == xs[n].params && r.Ahead() == FileFrom(r.order, comps, frame, xs, n + 1)
    ensures Reading(r, p, comps, frame, xs, n + 1)
  {
    hide OrderOk, OrderFits, ParamsShape, ScansFit, FileFrom;
    assert [] + FileFrom(r.order, comps, frame, xs, n + 1) == FileFrom(r.order, comps, frame, xs, n + 1);
  }

  // Read the header of scan n, and pass its data; found tells whether the entropy decoder runs into the
  // next marker.
  method ReadScan(r: MarkerReader, data: seq<Byte>, found: bool, ghost p: Params, ghost comps: seq<Comp>, ghost frame: FrameInfo,
                  ghost xs: seq<WrittenScan>, ghost n: nat)
    returns (result: ReadResult, state: Params)
    requires OrderFits(r.order) && ScansFit(comps, frame, xs) && n < |xs| && Reading(r, p, comps, frame, xs, n)
    requires AllLinked(p, xs) && DistinctIds(frame) && xs[n].params.frame == Some(frame) && xs[n].data == data
    modifies r
    ensures if ComponentsFound(xs[n].scan.comps) then
              result == ReachedSos(Header(comps, xs[n].scan)) && state == xs[n].params && Reading(r, p, comps, frame, xs, n + 1)
            else result == Failed
  {
    hide OrderOk, OrderFits, ParamsShape, SpecFits, DistinctIds, ComponentsFound, FileFrom, Header, AllLinked, ScansFit;
    result := ReadHeader(r, p, comps, frame, xs, n);
    state := r.cinfo;
    if result.ReachedSos? {
      ghost var next := FileFrom(r.order, comps, frame, xs, n + 1);
      FileStarts(r.order, comps, frame, xs, n + 1);
      assert (data + next)[|data|..] == next;
      SkipData(r, |data|, found, next);
      BehindData(r, p, comps, frame, xs, n);
    }
  }

  // Read all headers, until a scan that the reader does not accept.
  method ReadFile(r: MarkerReader, datas: seq<seq<Byte>>, found: seq<bool>, ghost p: Params, ghost comps: seq<Comp>,
                  ghost frame: FrameInfo, ghost xs: seq<WrittenScan>)
    returns (headers: seq<ScanHeader>, states: seq<Params>)
    requires r.Valid() && !r.sawSOI && r.unreadMarker == 0 && r.discardedBytes == 0 && OrderFits(r.order) && p == Reset(r.cinfo)
    requires ScansFit(comps, frame, xs) && AllLinked(p, xs) && DistinctIds(frame) && |found| == |datas| == |xs|
    requires forall n :: 0 <= n < |xs| ==> xs[n].data == datas[n] && xs[n].params.frame == Some(frame)
    requires r.rest == [0xFF, SOI] + (AllScans(r.order, comps, frame, xs) + [0xFF, EOI])
    modifies r
    ensures |headers| == |states| <= |xs|
    ensures forall n :: 0 <= n < |headers| ==> headers[n] == Header(comps, xs[n].scan) && states[n] == xs[n].params
    ensures forall n :: 0 <= n < |headers| ==> ComponentsFound(xs[n].scan.comps)
    ensures |headers| < |xs| ==> !ComponentsFound(xs[|headers|].scan.comps)
  {
    hide OrderOk, OrderFits, ParamsShape, SpecFits, DistinctIds, AllScans, AllFit, ComponentsFound, FileFrom, AllLinked, Header;
    headers, states := [], [];
    WholeFile(r.order, comps, frame, xs);
    for n := 0 to |found|
      invariant Reading(r, p, comps, frame, xs, n) && |headers| == |states| == n
      invariant forall m :: 0 <= m < n ==> headers[m] == Header(comps, xs[m].scan) && states[m] == xs[m].params
      invariant forall m :: 0 <= m < n ==> ComponentsFound(xs[m].scan.comps)
    {
      var result, state := ReadScan(r, datas[n], found[n], p, comps, frame, xs, n);
      if !result.ReachedSos? {
        return;
      }
      headers, states := headers + [result.header], states + [state];
    }
  }

  // ----- Files -----

  // The decoder finds a scan's components just if they are among the first four of the frame.
  lemma FoundExactly(comps: seq<Comp>, scan: ScanSpec)
    requires SpecFits(comps, scan)
    ensures ComponentsFound(scan.comps) <==> scan.comps[|scan.comps| - 1] < MAX_COMPS_IN_SCAN
  {
    var n := |scan.comps|;
    forall i | 0 <= i < n
      ensures i <= scan.comps[i] <= scan.comps[n - 1]
    {
      Ascending(scan.comps, i);
    }
  }

  lemma {:induction false} Ascending(comps: seq<nat>, i: nat)
    requires i < |comps| && forall j, k :: 0 <= j < k < |comps| ==> comps[j] < comps[k]
    ensures i <= comps[i]
  {
    if i > 0 {
      Ascending(comps, i - 1);
    }
  }

  // So a scan of the fifth component, which the compressor writes, is refused.
  lemma FifthComponent(comps: seq<Comp>, scan: ScanSpec)
    requires SpecFits(comps, scan) && scan.comps == [4]
    ensures !ComponentsFound(scan.comps)
  {
    FoundExactly(comps, scan);
  }

  // Writing a file and reading its headers: up to the first scan with a component that is not among the
  // first four, the reader finds every scan's parameters, and then has the tables that the compressor used
  // for it, the restart interval and the quantization tables.
  method FileRoundTrip(w: MarkerWriter, r: MarkerReader, apps: seq<MarkerSegment>, changes: seq<Change>, datas: seq<seq<Byte>>,
                       found: seq<bool>)
    returns (ok: bool, headers: seq<ScanHeader>, states: seq<Params>, ghost xs: seq<WrittenScan>)
    requires w.Valid() && w.out == [] && r.Valid() && r.order == w.order
    requires InStep(w.tables, 0, Reset(r.cinfo)) && r.cinfo.frame.None? && Applications(apps)
    requires 0 < |changes| == |datas| == |found| && ChangesFit(w.comps, changes)
    requires !r.sawSOI && r.unreadMarker == 0 && r.discardedBytes == 0
    modifies w, r
    ensures ok <==> Writable(w, old(w.tables), changes)
    ensures ok ==> |headers| == |states| <= |changes| == |xs| && w.height <= 65535 && w.width <= 65535
    ensures ok ==> forall n :: 0 <= n < |headers| ==>
              && headers[n] == Header(w.comps, changes[n].scan) && states[n] == xs[n].params
              && ScanAsAsked(w, old(w.tables), changes, datas, xs[n], n)
    ensures ok ==> (|headers| == |changes| <==>
              forall n :: 0 <= n < |changes| ==> changes[n].scan.comps[|changes[n].scan.comps| - 1] < MAX_COMPS_IN_SCAN)
  {
    hide OrderOk, OrderFits, ParamsShape, TablesShape, InStep, HuffFits, SegmentFits, AllScans, ScansFit, AllLinked, Header,
        ComponentsFound,
      EntropyReady, QuantsReady, SameTables, MarkerWriter.Frame, Writable;
    ghost var p := Reset(r.cinfo);
    headers, states := [], [];
    ok, xs := WriteFile(w, apps, changes, datas, p);
    if !ok {
      return;
    }
    FrameIds(w);
    r.rest := w.out;
    headers, states := ReadFile(r, datas, found, p, w.comps, w.Frame(), xs);
    forall n | 0 <= n < |changes|
      ensures ComponentsFound(changes[n].scan.comps) <==> changes[n].scan.comps[|changes[n].scan.comps| - 1] < MAX_COMPS_IN_SCAN
    {
      assert ChangeFits(w.comps, changes[n]);
      FoundExactly(w.comps, changes[n].scan);
    }
    assert forall n :: 0 <= n < |xs| ==> xs[n].scan == changes[n].scan;
  }

  lemma FrameIds(w: MarkerWriter)
    requires w.Valid() && w.height <= 65535 && w.width <= 65535
    ensures DistinctIds(w.Frame())
  {
    hide OrderOk, OrderFits, TablesShape;
  }
}
