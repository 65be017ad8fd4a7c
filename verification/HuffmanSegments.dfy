// Huffman-coded scans as sequences of segments between restart markers, and their encoding
// (encode_mcu_huff in jchuff.c).
module HuffmanSegments {
  import opened BitStrings
  import opened ArithInterval
  import opened ArithBytes
  import opened ByteSource
  import opened ArithScan
  import opened HuffmanTables
  import opened HuffmanWriter
  import opened HuffmanBlock

  // Block i belongs to component comps[i], whose tables are tables[comps[i]].
  ghost predicate SegmentOk(s: Scan, tables: seq<Tables>, comps: seq<nat>, blocks: seq<Block>) {
    && ScanOk(s) && ModeOf(s) == Sequential && |comps| == |blocks|
    && (forall c :: 0 <= c < |tables| ==> TablesMatch(tables[c]))
    && forall i :: 0 <= i < |comps| ==> comps[i] < |tables|
  }

  // ----- DC predictions and restarts -----

  function NoDc(n: nat): (last: seq<Coef>)
    ensures |last| == n
  {
    seq(n, c => 0)
  }

  // Blocks in so many MCUs of n blocks each
  function BlocksIn(n: nat, mcus: nat): nat {
    if mcus == 0 then 0 else n + BlocksIn(n, mcus - 1)
  }

  lemma {:induction false} BlocksMonotonic(n: nat, m: nat, m': nat)
    requires m <= m'
    ensures BlocksIn(n, m) <= BlocksIn(n, m')
    decreases m'
  {
    if m < m' {
      BlocksMonotonic(n, m, m' - 1);
    }
  }

  // The DC predictions, and how many blocks are left before a restart if there are restarts
  datatype DcState = DcState(last: seq<Coef>, togo: nat)

  function StartState(s: Scan, n: nat): (d: DcState)
    ensures |d.last| == n
  {
    DcState(NoDc(n), BlocksIn(|s.membership|, s.restartInterval))
  }

  predicate Due(s: Scan, d: DcState) {
    s.restartInterval != 0 && d.togo == 0
  }

  // The state with which the next block is coded
  function Current(s: Scan, d: DcState): (f: DcState)
    ensures |f.last| == |d.last|
  {
    if Due(s, d) then StartState(s, |d.last|) else d
  }

  // ... and the state behind it
  function Following(s: Scan, d: DcState, c: nat, block: Block): (f: DcState)
    ensures |f.last| == |d.last|
  {
    var now := Current(s, d);
    DcState(if c < |d.last| then now.last[c := block[0]] else now.last, if now.togo > 0 then now.togo - 1 else 0)
  }

  // ----- The bits of a scan -----

  // The blocks from i on are in range and have code words.
  ghost predicate Coded(s: Scan, tables: seq<Tables>, comps: seq<nat>, blocks: seq<Block>, i: nat, d: DcState)
    decreases |blocks| - i
  {
    && |comps| == |blocks| && |d.last| == |tables| && i <= |blocks|
    && (i < |blocks| ==>
          && comps[i] < |tables|
          && BlockCoded(s, tables[comps[i]].dcEncoder, tables[comps[i]].acEncoder, blocks[i], Current(s, d).last[comps[i]])
          && Coded(s, tables, comps, blocks, i + 1, Following(s, d, comps[i], blocks[i])))
  }

  // What the blocks from i on add to the current segment, and the segments behind it
  ghost function ScanBits(s: Scan, tables: seq<Tables>, comps: seq<nat>, blocks: seq<Block>, i: nat, d: DcState): (parts: seq<Bits>)
    requires Coded(s, tables, comps, blocks, i, d)
    ensures |parts| > 0
    decreases |blocks| - i
  {
    hide BlockCoded;
    if i == |blocks| then [[]]
    else
      var t := tables[comps[i]];
      var rest := ScanBits(s, tables, comps, blocks, i + 1, Following(s, d, comps[i], blocks[i]));
      var here := BlockBits(s, t.dcEncoder, t.acEncoder, blocks[i], Current(s, d).last[comps[i]], rest[0]);
      (if Due(s, d) then [[]] else []) + [here] + rest[1..]
  }

  // The numbers of bits that are pending at the ends of the current segment and of those behind
  // it, when now p are pending
  ghost function Pendings(wide: bool, s: Scan, tables: seq<Tables>, comps: seq<nat>, blocks: seq<Block>, i: nat, d: DcState,
                          p: nat): (ends: seq<nat>)
    requires Coded(s, tables, comps, blocks, i, d)
    ensures |ends| == |ScanBits(s, tables, comps, blocks, i, d)|
    decreases |blocks| - i
  {
    hide BlockCoded, BlockBits, BlockPending;
    if i == |blocks| then [p]
    else
      var t := tables[comps[i]];
      var q := BlockPending(wide, s, t.dcEncoder, t.acEncoder, blocks[i], Current(s, d).last[comps[i]], if Due(s, d) then 0 else p);
      (if Due(s, d) then [p] else []) + Pendings(wide, s, tables, comps, blocks, i + 1, Following(s, d, comps[i], blocks[i]), q)
  }

  // No segment leaves a one among the pending bits that do not fit the word when it is flushed.
  ghost predicate FlushesOk(wide: bool, s: Scan, tables: seq<Tables>, comps: seq<nat>, blocks: seq<Block>)
    requires Coded(s, tables, comps, blocks, 0, StartState(s, |tables|))
  {
    var d := StartState(s, |tables|);
    var parts, ends := ScanBits(s, tables, comps, blocks, 0, d), Pendings(wide, s, tables, comps, blocks, 0, d, 0);
    forall j :: 0 <= j < |parts| ==> FlushOk(parts[j], ends[j], WordBits(wide))
  }

  // A restart starts a segment.
  lemma AtRestart(wide: bool, s: Scan, tables: seq<Tables>, comps: seq<nat>, blocks: seq<Block>, i: nat, d: DcState, p: nat)
    requires Coded(s, tables, comps, blocks, i, d) && i < |blocks| && Due(s, d) && |s.membership| > 0
    ensures var f := StartState(s, |d.last|);
            && !Due(s, f) && Coded(s, tables, comps, blocks, i, f)
            && ScanBits(s, tables, comps, blocks, i, d) == [[]] + ScanBits(s, tables, comps, blocks, i, f)
            && Pendings(wide, s, tables, comps, blocks, i, d, p) == [p] + Pendings(wide, s, tables, comps, blocks, i, f, 0)
  {
    hide BlockCoded, BlockBits, BlockPending;
    var f := StartState(s, |d.last|);
    assert !Due(s, f) && Current(s, d) == f == Current(s, f);
    hide Due, Current;
    assert Following(s, d, comps[i], blocks[i]) == Following(s, f, comps[i], blocks[i]);
    hide Following;
  }

  // ----- Encoding -----

  // These segments are finished, and the current one has got so far with the blocks before i.
  ghost predicate Emitted(wide: bool, s: Scan, tables: seq<Tables>, comps: seq<nat>, blocks: seq<Block>, i: nat, d: DcState,
                          p: nat, stream: Bits, done: seq<seq<Byte>>)
  {
    var start := StartState(s, |tables|);
    && SegmentOk(s, tables, comps, blocks) && Coded(s, tables, comps, blocks, 0, start) && Coded(s, tables, comps, blocks, i, d)
    && var parts, ends := ScanBits(s, tables, comps, blocks, 0, start), Pendings(wide, s, tables, comps, blocks, 0, start, 0);
       var rest := ScanBits(s, tables, comps, blocks, i, d);
    && |done| + |rest| == |parts| && stream + rest[0] == parts[|done|] && rest[1..] == parts[|done| + 1..]
    && Pendings(wide, s, tables, comps, blocks, i, d, p) == ends[|done|..]
    && Finished(wide, parts, ends, done)
  }

  // Bytes of the first segments, each as the flush at its end leaves them
  ghost predicate Finished(wide: bool, parts: seq<Bits>, ends: seq<nat>, done: seq<seq<Byte>>) {
    && |done| <= |parts| == |ends|
    && forall j :: 0 <= j < |done| ==> Flushed(done[j], parts[j], ends[j], WordBits(wide))
  }

  lemma EmittedStart(wide: bool, s: Scan, tables: seq<Tables>, comps: seq<nat>, blocks: seq<Block>)
    requires SegmentOk(s, tables, comps, blocks) && Coded(s, tables, comps, blocks, 0, StartState(s, |tables|))
    ensures Emitted(wide, s, tables, comps, blocks, 0, StartState(s, |tables|), 0, [], [])
  {
    hide SegmentOk, Coded, ScanBits, Pendings;
    var parts := ScanBits(s, tables, comps, blocks, 0, StartState(s, |tables|));
    assert [] + parts[0] == parts[0];
  }

  // The next block can be coded, and its bits come before this tail.
  lemma BlockNext(wide: bool, s: Scan, tables: seq<Tables>, comps: seq<nat>, blocks: seq<Block>, i: nat, d: DcState,
                  p: nat, stream: Bits, done: seq<seq<Byte>>)
    returns (tail: Bits)
    requires Emitted(wide, s, tables, comps, blocks, i, d, p, stream, done) && i < |blocks| && !Due(s, d)
    ensures |d.last| == |tables| && |comps| == |blocks| && comps[i] < |tables| && TablesMatch(tables[comps[i]])
    ensures var t := tables[comps[i]]; BlockCoded(s, t.dcEncoder, t.acEncoder, blocks[i], d.last[comps[i]])
    ensures Coded(s, tables, comps, blocks, i + 1, Following(s, d, comps[i], blocks[i]))
    ensures tail == ScanBits(s, tables, comps, blocks, i + 1, Following(s, d, comps[i], blocks[i]))[0]
  {
    hide BlockCoded, BlockBits, BlockPending, ScanOk, TablesMatch, Finished;
    tail := ScanBits(s, tables, comps, blocks, i + 1, Following(s, d, comps[i], blocks[i]))[0];
  }

  lemma EmittedBlock(wide: bool, s: Scan, tables: seq<Tables>, comps: seq<nat>, blocks: seq<Block>, i: nat, d: DcState,
                     p: nat, stream: Bits, done: seq<seq<Byte>>, p': nat, stream': Bits)
    requires Emitted(wide, s, tables, comps, blocks, i, d, p, stream, done) && i < |blocks| && !Due(s, d) && comps[i] < |tables|
    requires var t := tables[comps[i]];
             && BlockCoded(s, t.dcEncoder, t.acEncoder, blocks[i], d.last[comps[i]])
             && Coded(s, tables, comps, blocks, i + 1, Following(s, d, comps[i], blocks[i]))
             && p' == BlockPending(wide, s, t.dcEncoder, t.acEncoder, blocks[i], d.last[comps[i]], p)
             && var tail := ScanBits(s, tables, comps, blocks, i + 1, Following(s, d, comps[i], blocks[i]))[0];
                stream' + tail == stream + BlockBits(s, t.dcEncoder, t.acEncoder, blocks[i], d.last[comps[i]], tail)
    ensures Emitted(wide, s, tables, comps, blocks, i + 1, Following(s, d, comps[i], blocks[i]), p', stream', done)
  {
    hide BlockCoded, BlockBits, BlockPending, ScanOk, TablesMatch, Finished;
  }

  // The current segment is flushed, and a restart follows.
  lemma EmittedRestart(wide: bool, s: Scan, tables: seq<Tables>, comps: seq<nat>, blocks: seq<Block>, i: nat, d: DcState,
                       p: nat, stream: Bits, done: seq<seq<Byte>>, data: seq<Byte>)
    requires Emitted(wide, s, tables, comps, blocks, i, d, p, stream, done) && i < |blocks| && Due(s, d) && |s.membership| > 0
    requires Flushed(data, stream, p, WordBits(wide))
    ensures Emitted(wide, s, tables, comps, blocks, i, StartState(s, |tables|), 0, [], done + [data])
  {
    hide BlockCoded, BlockBits, BlockPending, SegmentOk, Flushed, ScanBits, Pendings;
    AtRestart(wide, s, tables, comps, blocks, i, d, p);
    LastPart(wide, s, tables, comps, blocks, i, d, p, stream, done, data, [[]]);
    hide Coded;
    var rest := ScanBits(s, tables, comps, blocks, i, StartState(s, |tables|));
    assert [] + rest[0] == rest[0];
  }

  // The segment that is being finished
  lemma LastPart(wide: bool, s: Scan, tables: seq<Tables>, comps: seq<nat>, blocks: seq<Block>, i: nat, d: DcState,
                 p: nat, stream: Bits, done: seq<seq<Byte>>, data: seq<Byte>, first: seq<Bits>)
    requires Emitted(wide, s, tables, comps, blocks, i, d, p, stream, done) && first == [[]]
    requires ScanBits(s, tables, comps, blocks, i, d)[..1] == first && Pendings(wide, s, tables, comps, blocks, i, d, p)[0] == p
    requires Flushed(data, stream, p, WordBits(wide))
    ensures var start := StartState(s, |tables|);
            Finished(wide, ScanBits(s, tables, comps, blocks, 0, start),
              Pendings(wide, s, tables, comps, blocks, 0, start, 0), done + [data])
  {
    hide BlockCoded, BlockBits, BlockPending, SegmentOk, Flushed, ScanBits, Pendings, Coded;
    var rest := ScanBits(s, tables, comps, blocks, i, d);
    assert rest[0] == rest[..1][0];
    assert stream + [] == stream;
  }

  // The blocks of an MCU
  method EncodeMcu(w: BitWriter, s: Scan, tables: seq<Tables>, comps: seq<nat>, blocks: seq<Block>, i: nat, n: nat,
                   last: seq<Coef>, ghost d: DcState, ghost done: seq<seq<Byte>>)
    returns (last': seq<Coef>, ghost d': DcState)
    requires w.Ready() && Emitted(w.wide, s, tables, comps, blocks, i, d, w.putBits, w.stream, done)
    requires last == d.last && i + n <= |blocks| && (s.restartInterval != 0 ==> n <= d.togo)
    modifies w
    ensures w.Ready() && w.before == old(w.before) && last' == d'.last && |d'.last| == |d.last|
    ensures Emitted(w.wide, s, tables, comps, blocks, i + n, d', w.putBits, w.stream, done)
    ensures s.restartInterval != 0 ==> d'.togo == d.togo - n
  {
    hide BlockBits, BlockCoded, BlockPending, BitWriter.Ready, TablesMatch, Emitted;
    last', d' := last, d;
    for b := 0 to n
      invariant w.Ready() && w.before == old(w.before) && last' == d'.last && |d'.last| == |d.last|
      invariant Emitted(w.wide, s, tables, comps, blocks, i + b, d', w.putBits, w.stream, done)
      invariant s.restartInterval != 0 ==> d'.togo == d.togo - b
    {
      ghost var tail := BlockNext(w.wide, s, tables, comps, blocks, i + b, d', w.putBits, w.stream, done);
      ghost var p, stream := w.putBits, w.stream;
      var c := comps[i + b];
      var t := tables[c];
      MatchedTables(t);
      EncodeOneBlock(w, s, t.dcEncoder, t.acEncoder, blocks[i + b], last'[c], t.dcTable, t.acTable, tail);
      EmittedBlock(w.wide, s, tables, comps, blocks, i + b, d', p, stream, done, w.putBits, w.stream);
      last' := last'[c := blocks[i + b][0]];
      d' := Following(s, d', c, blocks[i + b]);
    }
  }

  lemma MatchedTables(t: Tables)
    requires TablesMatch(t)
    ensures Encodes(t.dcTable, t.dcEncoder) && Encodes(t.acTable, t.acEncoder)
  {
  }

  // emit_restart: flush, write the marker, and start the DC predictions anew.
  method EmitRestart(w: BitWriter, num: nat, s: Scan, n: nat, ghost tables: seq<Tables>, ghost comps: seq<nat>,
                     ghost blocks: seq<Block>, ghost i: nat, ghost d: DcState, ghost done: seq<seq<Byte>>, ghost written: seq<Byte>)
    returns (last: seq<Coef>, ghost done': seq<seq<Byte>>)
    requires w.Ready() && Emitted(w.wide, s, tables, comps, blocks, i, d, w.putBits, w.stream, done)
    requires i < |blocks| && Due(s, d) && |s.membership| > 0 && n == |tables| && num == |done| % 8
    requires w.before == written + Restarted(done)
    modifies w
    ensures w.Ready() && w.before == written + Restarted(done') && |done'| == |done| + 1 && last == StartState(s, n).last
    ensures Emitted(w.wide, s, tables, comps, blocks, i, StartState(s, n), w.putBits, w.stream, done')
  {
    hide BitWriter.Ready, Emitted, Flushed, Restarted;
    ghost var data := w.FlushBits();
    EmittedRestart(w.wide, s, tables, comps, blocks, i, d, old(w.putBits), old(w.stream), done, data);
    done' := done + [data];
    RestartedSnoc(done, data);
    w.EmitMarker(RST0 + num);
    assert written + Restarted(done) + Stuff(data) + [0xFF, RST0 + num] == written + (Restarted(done) + Stuff(data) + [0xFF, RST0 + num]);
    last := NoDc(n);
  }

  // Code a scan of so many MCUs, with a restart behind every restart interval. A segment's bytes
  // hold its bits just if the flush at its end loses none.
  method EncodeScan(wide: bool, s: Scan, tables: seq<Tables>, comps: seq<nat>, blocks: seq<Block>, mcus: nat, written: seq<Byte>)
    returns (out: seq<Byte>, ghost segments: seq<seq<Byte>>)
    requires SegmentOk(s, tables, comps, blocks) && Coded(s, tables, comps, blocks, 0, StartState(s, |tables|))
    requires |s.membership| > 0 && |blocks| == BlocksIn(|s.membership|, mcus)
    ensures segments != [] && out == written + ScanBytes(segments)
    ensures var start := StartState(s, |tables|);
            var parts := ScanBits(s, tables, comps, blocks, 0, start);
            && |segments| == |parts|
            && Finished(wide, parts, Pendings(wide, s, tables, comps, blocks, 0, start, 0), segments)
  {
    hide BitWriter.Ready, Emitted, Flushed, Restarted, SegmentOk, Coded, ScanBits, Pendings, BlocksIn, Finished, ScanBytes, Stuff;
    var n := |s.membership|;
    var w := new BitWriter(wide, written);
    var last := NoDc(|tables|);
    ghost var d, done: seq<seq<Byte>> := StartState(s, |tables|), [];
    EmittedStart(wide, s, tables, comps, blocks);
    NothingRestarted(written);
    var restartsToGo, nextRestartNum := s.restartInterval, 0;
    var i := 0;
    NoBlocks(n);
    for m := 0 to mcus
      invariant w.Ready() && w.wide == wide && last == d.last && i == BlocksIn(n, m)
      invariant nextRestartNum == |done| % 8
      invariant w.before == written + Restarted(done) && |d.last| == |tables|
      invariant Emitted(wide, s, tables, comps, blocks, i, d, w.putBits, w.stream, done)
      invariant s.restartInterval != 0 ==> d.togo == BlocksIn(n, restartsToGo)
    {
      OneMoreMcu(n, m, mcus);
      if s.restartInterval != 0 && restartsToGo == 0 {
        NoBlocks(n);
        last, done := EmitRestart(w, nextRestartNum, s, |tables|, tables, comps, blocks, i, d, done, written);
        d := StartState(s, |tables|);
      }
      OneMcu(n, if restartsToGo == 0 then s.restartInterval else restartsToGo);
      last, d := EncodeMcu(w, s, tables, comps, blocks, i, n, last, d, done);
      i := i + n;
      if s.restartInterval != 0 {
        if restartsToGo == 0 {
          restartsToGo := s.restartInterval;
          nextRestartNum := (nextRestartNum + 1) % 8;
        }
        restartsToGo := restartsToGo - 1;
      }
    }
    segments := FinishScan(w, s, tables, comps, blocks, d, done, written);
    out := w.out;
  }

  // finish_pass_huff: flush the last segment.
  method FinishScan(w: BitWriter, ghost s: Scan, ghost tables: seq<Tables>, ghost comps: seq<nat>, ghost blocks: seq<Block>,
                    ghost d: DcState, ghost done: seq<seq<Byte>>, ghost written: seq<Byte>)
    returns (ghost segments: seq<seq<Byte>>)
    requires w.Ready() && Emitted(w.wide, s, tables, comps, blocks, |blocks|, d, w.putBits, w.stream, done)
    requires Coded(s, tables, comps, blocks, 0, StartState(s, |tables|)) && w.before == written + Restarted(done)
    modifies w
    ensures segments != [] && w.out == written + ScanBytes(segments)
    ensures var start := StartState(s, |tables|);
            var parts := ScanBits(s, tables, comps, blocks, 0, start);
            && |segments| == |parts|
            && Finished(w.wide, parts, Pendings(w.wide, s, tables, comps, blocks, 0, start, 0), segments)
  {
    hide BitWriter.Ready, Emitted, Flushed, Restarted, Coded, ScanBits, Pendings, Finished, StartState;
    ghost var p, stream := w.putBits, w.stream;
    ghost var data := w.FlushBits();
    EmittedEnd(w.wide, s, tables, comps, blocks, d, p, stream, done, data);
    segments := done + [data];
    assert segments[..|done|] == done;
    assert written + Restarted(done) + Stuff(data) == written + (Restarted(done) + Stuff(data));
  }

  lemma NothingRestarted(written: seq<Byte>)
    ensures written + Restarted([]) == written
  {
  }

  lemma NoBlocks(n: nat)
    ensures BlocksIn(n, 0) == 0
  {
  }

  lemma OneMcu(n: nat, m: nat)
    ensures m > 0 ==> BlocksIn(n, m) == n + BlocksIn(n, m - 1)
  {
  }

  lemma OneMoreMcu(n: nat, m: nat, mcus: nat)
    requires m < mcus
    ensures BlocksIn(n, m + 1) == BlocksIn(n, m) + n <= BlocksIn(n, mcus)
    ensures n > 0 ==> BlocksIn(n, m) < BlocksIn(n, mcus)
  {
    BlocksMonotonic(n, m + 1, mcus);
  }

  // The last segment is flushed.
  lemma EmittedEnd(wide: bool, s: Scan, tables: seq<Tables>, comps: seq<nat>, blocks: seq<Block>, d: DcState,
                   p: nat, stream: Bits, done: seq<seq<Byte>>, data: seq<Byte>)
    requires Emitted(wide, s, tables, comps, blocks, |blocks|, d, p, stream, done)
    requires Flushed(data, stream, p, WordBits(wide))
    ensures var start := StartState(s, |tables|);
            && |ScanBits(s, tables, comps, blocks, 0, start)| == |done| + 1
            && Finished(wide, ScanBits(s, tables, comps, blocks, 0, start),
                 Pendings(wide, s, tables, comps, blocks, 0, start, 0), done + [data])
  {
    hide BlockCoded, BlockBits, BlockPending, SegmentOk, Flushed;
    NothingLeft(wide, s, tables, comps, blocks, d, p);
    LastPart(wide, s, tables, comps, blocks, |blocks|, d, p, stream, done, data, [[]]);
  }

  lemma NothingLeft(wide: bool, s: Scan, tables: seq<Tables>, comps: seq<nat>, blocks: seq<Block>, d: DcState, p: nat)
    requires Coded(s, tables, comps, blocks, |blocks|, d)
    ensures ScanBits(s, tables, comps, blocks, |blocks|, d) == [[]] && Pendings(wide, s, tables, comps, blocks, |blocks|, d, p) == [p]
  {
  }
}
