// Decoding MCUs by the fast path, by the ordinary one, or by the one after the other
// (decode_mcu in jdhuff.c).
module HuffmanMcu {
  import opened BitStrings
  import opened ArithInterval
  import opened ArithBytes
  import opened ByteSource
  import opened ArithScan
  import opened PointTransform
  import opened HuffmanLimit
  import opened HuffmanGen
  import opened HuffmanTables
  import opened HuffmanReader
  import opened HuffmanBlock
  import opened HuffmanSegments
  import opened HuffmanWriter
  import opened HuffmanStatistics
  import opened HuffmanFast
  import HuffmanOptimize

  // Blocks i to j have been decoded into their rows, and nothing else has changed.
  ghost predicate Decoded(blocks: seq<Block>, rows: seq<nat>, i: nat, j: nat, was: seq<Block>, planes: seq<Block>) {
    && i <= j <= |blocks| == |rows| && RowsOk(rows, |was|) && |planes| == |was|
    && (forall x :: i <= x < j ==> planes[rows[x]] == blocks[x])
    && forall r :: 0 <= r < |was| && r !in rows[i..j] ==> planes[r] == was[r]
  }

  // The rows of blocks i to j are different and fit to be decoded into.
  ghost predicate RowsCleared(s: Scan, blocks: seq<Block>, rows: seq<nat>, i: nat, j: nat, planes: seq<Block>) {
    && ScanOk(s) && i <= j <= |blocks| == |rows| && RowsOk(rows, |planes|) && DistinctRows(rows)
    && forall x :: i <= x < j ==> ZerosKnown(s, blocks[x], planes[rows[x]])
  }

  // A sequential scan replaces the whole block.
  lemma SequentialResult(s: Scan, block: Block, was: Block)
    requires ScanOk(s) && ModeOf(s) == Sequential
    ensures BlockResult(s, block, was) == block
  {
    hide TablesOk, Updated, BlockResult, Level, OrderOk;
    var result := BlockResult(s, block, was);
    forall i | 0 <= i < DCTSIZE2
      ensures result[i] == block[i]
    {
      var k := ZigzagPosition(s.order, i);
      OrderLength(s.order);
      ResultLevels(s, block, was, k);
      FullLevel(s, block, k);
    }
  }

  // One more block
  lemma DecodedNext(blocks: seq<Block>, rows: seq<nat>, i: nat, j: nat, was: seq<Block>, planes: seq<Block>)
    requires j < |blocks| && DistinctRows(rows) && Decoded(blocks, rows, i, j, was, planes)
    ensures Decoded(blocks, rows, i, j + 1, was, planes[rows[j] := blocks[j]])
    ensures planes[rows[j]] == was[rows[j]]
  {
    assert rows[i..j + 1] == rows[i..j] + [rows[j]];
  }

  lemma BlockTail(s: Scan, dc: EncoderTable, ac: EncoderTable, block: Block, last: Coef, x: Bits, tail: Bits)
    requires BlockCoded(s, dc, ac, block, last)
    ensures BlockBits(s, dc, ac, block, last, x + tail) == BlockBits(s, dc, ac, block, last, x) + tail
  {
    hide BitsOf, NBits, Extra, AcInRange, AcCoded, AcBits, AtZigzag;
    AcTail(s, ac, block, 1, 0, x + tail);
    AcTail(s, ac, block, 1, 0, x);
    RangeBits(block[0] - last);
  }

  // Decoding has reached block i: the predictions are right, the bits of the rest of the segment
  // are next, and then this tail.
  ghost predicate Reached(s: Scan, tables: seq<Tables>, comps: seq<nat>, blocks: seq<Block>, i: nat, lastDc: seq<int>,
                          d: DcState, tail: Bits, ahead: Bits)
  {
    && SegmentOk(s, tables, comps, blocks) && |d.last| == |tables| && i <= |blocks| && lastDc == d.last
    && Coded(s, tables, comps, blocks, i, d) && ahead == ScanBits(s, tables, comps, blocks, i, d)[0] + tail
  }

  // The next block's bits, and what is reached behind it
  lemma ReachedNext(s: Scan, tables: seq<Tables>, comps: seq<nat>, blocks: seq<Block>, i: nat, lastDc: seq<int>,
                    d: DcState, tail: Bits, ahead: Bits)
    returns (behind: Bits)
    requires Reached(s, tables, comps, blocks, i, lastDc, d, tail, ahead) && i < |blocks| && !Due(s, d)
    ensures comps[i] < |tables| == |lastDc| == |d.last| && lastDc[comps[i]] == d.last[comps[i]]
    ensures TablesMatch(tables[comps[i]]) && ScanOk(s) && ModeOf(s) == Sequential
    ensures var t := tables[comps[i]];
            && BlockCoded(s, t.dcEncoder, t.acEncoder, blocks[i], d.last[comps[i]])
            && ahead == BlockBits(s, t.dcEncoder, t.acEncoder, blocks[i], d.last[comps[i]], behind)
    ensures Reached(s, tables, comps, blocks, i + 1, lastDc[comps[i] := blocks[i][0]], Following(s, d, comps[i], blocks[i]), tail, behind)
    ensures ScanBits(s, tables, comps, blocks, i + 1, Following(s, d, comps[i], blocks[i]))[1..]
            == ScanBits(s, tables, comps, blocks, i, d)[1..]
  {
    hide BlockBits, BlockCoded, ScanOk, TablesMatch;
    var t := tables[comps[i]];
    var rest := ScanBits(s, tables, comps, blocks, i + 1, Following(s, d, comps[i], blocks[i]));
    behind := rest[0] + tail;
    BlockTail(s, t.dcEncoder, t.acEncoder, blocks[i], d.last[comps[i]], rest[0], tail);
  }

  // The segments behind the current one
  ghost function Behind(s: Scan, tables: seq<Tables>, comps: seq<nat>, blocks: seq<Block>, i: nat, d: DcState): seq<Bits>
  {
    if Coded(s, tables, comps, blocks, i, d) then ScanBits(s, tables, comps, blocks, i, d)[1..] else []
  }

  // What the decoder uses of the tables
  function DecodersFor(tables: seq<Tables>): (decoders: seq<Decoders>)
    ensures |decoders| == |tables|
  {
    seq(|tables|, c requires 0 <= c < |tables| => DecodersOf(tables[c]))
  }

  // decode_mcu_slow for blocks i to i + n
  method DecodeMcuSlow(r: BitReader, s: Scan, decoders: seq<Decoders>, comps: seq<nat>, rows: seq<nat>, planes: array<Block>,
                       i: nat, n: nat, lastDc: seq<int>, ghost tables: seq<Tables>, ghost blocks: seq<Block>, ghost d: DcState,
                       ghost tail: Bits)
    returns (lastDc': seq<int>, ghost d': DcState)
    requires DecodersFor(tables) == decoders
    requires r.Valid() && Reached(s, tables, comps, blocks, i, lastDc, d, tail, r.Ahead())
    requires |comps| == |blocks| && RowsCleared(s, blocks, rows, i, i + n, planes[..]) && (s.restartInterval != 0 ==> n <= d.togo)
    modifies r, planes
    ensures r.Valid() && Reached(s, tables, comps, blocks, i + n, lastDc', d', tail, r.Ahead())
    ensures Behind(s, tables, comps, blocks, i + n, d') == Behind(s, tables, comps, blocks, i, d)
    ensures Calm(r, old(r.warnings), old(r.insufficientData)) && (s.restartInterval != 0 ==> d'.togo == d.togo - n)
    ensures Decoded(blocks, rows, i, i + n, old(planes[..]), planes[..])
  {
    hide BlockBits, BlockCoded, BitReader.Valid, BitReader.Ahead, TablesMatch, ScanOk, BlockResult, ZerosKnown, DistinctRows,
      ModeOf, Reached, Behind;
    ghost var was := planes[..];
    lastDc', d' := lastDc, d;
    for j := i to i + n
      invariant r.Valid() && Reached(s, tables, comps, blocks, j, lastDc', d', tail, r.Ahead())
      invariant Behind(s, tables, comps, blocks, j, d') == Behind(s, tables, comps, blocks, i, d)
      invariant Calm(r, old(r.warnings), old(r.insufficientData)) && (s.restartInterval != 0 ==> d'.togo == d.togo - (j - i))
      invariant Decoded(blocks, rows, i, j, was, planes[..])
    {
      var c := comps[j];
      ghost var behind := ReachedNext(s, tables, comps, blocks, j, lastDc', d', tail, r.Ahead());
      SameBehind(s, tables, comps, blocks, j, lastDc', d', tail, r.Ahead());
      DecodedNext(blocks, rows, i, j, was, planes[..]);
      SequentialResult(s, blocks[j], planes[rows[j]]);
      var dc := DecodeOneBlock(r, s, decoders[c], planes, rows[j], lastDc'[c], tables[c], blocks[j], d'.last[c], behind);
      lastDc' := lastDc'[c := dc];
      d' := Following(s, d', c, blocks[j]);
    }
  }

  lemma SameBehind(s: Scan, tables: seq<Tables>, comps: seq<nat>, blocks: seq<Block>, i: nat, lastDc: seq<int>, d: DcState,
                   tail: Bits, ahead: Bits)
    requires Reached(s, tables, comps, blocks, i, lastDc, d, tail, ahead) && i < |blocks| && !Due(s, d)
    ensures |comps| == |blocks|
    ensures Behind(s, tables, comps, blocks, i + 1, Following(s, d, comps[i], blocks[i])) == Behind(s, tables, comps, blocks, i, d)
  {
    hide BlockBits, BlockCoded, ScanOk, TablesMatch, ScanBits;
    var behind := ReachedNext(s, tables, comps, blocks, i, lastDc, d, tail, ahead);
  }

  // ----- The size of a block -----

  lemma {:induction false} LengthBound(h: HuffTable, t: EncoderTable, symbols: seq<UInt8>)
    requires Encodes(h, t) && EncoderShape(t) && AllCoded(t, symbols)
    ensures Length(t, symbols) <= 31 * |symbols|
  {
    if symbols != [] {
      ghost var p := SymbolCode(h, t, symbols[0]);
      assert symbols == [symbols[0]] + symbols[1..];
      AllCodedOne(t, symbols[0], symbols[1..]);
      LengthBound(h, t, symbols[1..]);
    }
  }

  // A block takes at most as many bits as half of the bytes that must be in the buffer.
  lemma BlockBound(s: Scan, t: Tables, block: Block, last: Coef, behind: Bits)
    requires TablesMatch(t) && BlockCoded(s, t.dcEncoder, t.acEncoder, block, last)
    ensures |BlockBits(s, t.dcEncoder, t.acEncoder, block, last, behind)| <= |behind| + BLOCK_BITS
  {
    hide BlockBits, NBits, Length, AcSymbols, TablesMatch, DcSymbol;
    HuffmanOptimize.BlockLength(s, t.dcEncoder, t.acEncoder, block, last, behind);
    SymbolsBound(s, t, block, last);
  }

  lemma SymbolsBound(s: Scan, t: Tables, block: Block, last: Coef)
    requires TablesMatch(t) && BlockCoded(s, t.dcEncoder, t.acEncoder, block, last)
    ensures Length(t.dcEncoder, [DcSymbol(block, last)]) <= 31 && Length(t.acEncoder, AcSymbols(s, block, 1, 0)) <= 31 * 63
  {
    hide AcInRange, AcCoded, NBits, Length, AcSymbols, Encodes, AllCoded, DcSymbol;
    DcCoded(t.dcEncoder, block, last);
    LengthBound(t.dcTable, t.dcEncoder, [DcSymbol(block, last)]);
    AcSymbolsCoded(s, t.acEncoder, block, 1, 0);
    LengthBound(t.acTable, t.acEncoder, AcSymbols(s, block, 1, 0));
  }

  lemma DcCoded(t: EncoderTable, block: Block, last: Coef)
    requires EncoderShape(t) && HuffmanBlock.InRange(block[0] as int - last) && HasDcCode(t, block[0] - last)
    ensures AllCoded(t, [DcSymbol(block, last)])
  {
  }

  // ----- The fast path -----

  // decode_mcu_fast for blocks i to i + n; false, with the reader left alone, if a marker was met
  method DecodeMcuFast(r: BitReader, bytesInBuffer: nat, s: Scan, decoders: seq<Decoders>, comps: seq<nat>, rows: seq<nat>,
                       planes: array<Block>, i: nat, n: nat, lastDc: seq<int>, ghost tables: seq<Tables>, ghost blocks: seq<Block>,
                       ghost d: DcState, ghost tail: Bits)
    returns (ok: bool, lastDc': seq<int>, ghost d': DcState)
    requires DecodersFor(tables) == decoders
    requires r.Valid() && r.clean && r.unreadMarker == 0 && 0 < n && BUFSIZE * n <= bytesInBuffer <= |r.rest|
    requires Reached(s, tables, comps, blocks, i, lastDc, d, tail, r.Ahead())
    requires |comps| == |blocks| && RowsCleared(s, blocks, rows, i, i + n, planes[..]) && (s.restartInterval != 0 ==> n <= d.togo)
    modifies r, planes
    ensures Decoded(blocks, rows, i, i + n, old(planes[..]), planes[..])
    ensures r.Valid() && Calm(r, old(r.warnings), old(r.insufficientData)) && (s.restartInterval != 0 ==> d'.togo == d.togo - n)
    ensures ok ==> Reached(s, tables, comps, blocks, i + n, lastDc', d', tail, r.Ahead())
    ensures ok ==> Behind(s, tables, comps, blocks, i + n, d') == Behind(s, tables, comps, blocks, i, d)
    ensures !ok ==> unchanged(r)
  {
    hide BlockBits, BlockCoded, BitReader.Valid, FastReader.Valid, BitReader.Ahead, TablesMatch, ScanOk, BlockResult, ZerosKnown,
      DistinctRows, ModeOf, Reached, Behind;
    ghost var was := planes[..];
    lastDc', d' := lastDc, d;
    var f := new FastReader(r, bytesInBuffer, n);
    for j := i to i + n
      invariant f.Valid() && Reached(s, tables, comps, blocks, j, lastDc', d', tail, f.unused)
      invariant Behind(s, tables, comps, blocks, j, d') == Behind(s, tables, comps, blocks, i, d)
      invariant s.restartInterval != 0 ==> d'.togo == d.togo - (j - i)
      invariant f.length <= |f.unused| + BLOCK_BITS * (j - i)
      invariant Decoded(blocks, rows, i, j, was, planes[..]) && unchanged(r)
    {
      var c := comps[j];
      ghost var behind := ReachedNext(s, tables, comps, blocks, j, lastDc', d', tail, f.unused);
      SameBehind(s, tables, comps, blocks, j, lastDc', d', tail, f.unused);
      BlockBound(s, tables[c], blocks[j], d'.last[c], behind);
      DecodedNext(blocks, rows, i, j, was, planes[..]);
      SequentialResult(s, blocks[j], planes[rows[j]]);
      var dc := DecodeBlockFast(f, s, decoders[c], planes, rows[j], lastDc'[c], tables[c], blocks[j], d'.last[c], behind);
      lastDc' := lastDc'[c := dc];
      d' := Following(s, d', c, blocks[j]);
    }
    ok := f.unreadMarker == 0;
    if ok {
      SaveState(f, r);
    }
  }

  // ----- decode_mcu -----

  lemma DecodedCleared(s: Scan, blocks: seq<Block>, rows: seq<nat>, i: nat, j: nat, was: seq<Block>, planes: seq<Block>)
    requires RowsCleared(s, blocks, rows, i, j, was) && Decoded(blocks, rows, i, j, was, planes)
    ensures RowsCleared(s, blocks, rows, i, j, planes)
  {
    hide AtZigzag, ScanOk;
    forall x | i <= x < j
      ensures ZerosKnown(s, blocks[x], planes[rows[x]])
    {
      OwnZeros(s, blocks[x]);
    }
  }

  lemma OwnZeros(s: Scan, block: Block)
    requires ScanOk(s)
    ensures ZerosKnown(s, block, block)
  {
  }

  lemma DecodedTwice(blocks: seq<Block>, rows: seq<nat>, i: nat, j: nat, was: seq<Block>, first: seq<Block>, second: seq<Block>)
    requires Decoded(blocks, rows, i, j, was, first) && Decoded(blocks, rows, i, j, first, second)
    ensures Decoded(blocks, rows, i, j, was, second)
  {
  }

  // decode_mcu, behind any restart: the fast path is for MCUs with enough bytes in the buffer, in
  // scans without restarts. If it meets a marker, the ordinary path decodes the MCU again, over
  // what has been stored.
  method DecodeMcu(r: BitReader, bytesInBuffer: nat, s: Scan, decoders: seq<Decoders>, comps: seq<nat>,
                   rows: seq<nat>, planes: array<Block>, i: nat, n: nat, lastDc: seq<int>, ghost tables: seq<Tables>,
                   ghost blocks: seq<Block>, ghost d: DcState, ghost tail: Bits)
    returns (lastDc': seq<int>, ghost d': DcState)
    requires DecodersFor(tables) == decoders
    requires r.Valid() && (s.restartInterval == 0 ==> r.clean) && !r.insufficientData && bytesInBuffer <= |r.rest| && 0 < n
    requires Reached(s, tables, comps, blocks, i, lastDc, d, tail, r.Ahead())
    requires |comps| == |blocks| && RowsCleared(s, blocks, rows, i, i + n, planes[..]) && (s.restartInterval != 0 ==> n <= d.togo)
    modifies r, planes
    ensures Decoded(blocks, rows, i, i + n, old(planes[..]), planes[..])
    ensures r.Valid() && Calm(r, old(r.warnings), false) && (s.restartInterval != 0 ==> d'.togo == d.togo - n)
    ensures Reached(s, tables, comps, blocks, i + n, lastDc', d', tail, r.Ahead())
    ensures Behind(s, tables, comps, blocks, i + n, d') == Behind(s, tables, comps, blocks, i, d)
  {
    hide BitReader.Valid, BitReader.Ahead, Reached, Decoded, RowsCleared, Behind;
    ghost var was := planes[..];
    var usefast := s.restartInterval == 0;
    if bytesInBuffer < BUFSIZE * n || r.unreadMarker != 0 {
      usefast := false;
    }
    if usefast {
      var ok;
      ok, lastDc', d' := DecodeMcuFast(r, bytesInBuffer, s, decoders, comps, rows, planes, i, n, lastDc, tables, blocks, d, tail);
      if ok {
        return;
      }
      DecodedCleared(s, blocks, rows, i, i + n, was, planes[..]);
    }
    ghost var first := planes[..];
    lastDc', d' := DecodeMcuSlow(r, s, decoders, comps, rows, planes, i, n, lastDc, tables, blocks, d, tail);
    if usefast {
      DecodedTwice(blocks, rows, i, i + n, was, first, planes[..]);
    }
  }

  // ----- Segments -----

  lemma NotAmong(rows: seq<nat>, x: nat, j: nat, k: nat)
    requires DistinctRows(rows) && j <= k <= |rows| && x < |rows| && (x < j || k <= x)
    ensures rows[x] !in rows[j..k]
  {
    forall y | 0 <= y < |rows[j..k]|
      ensures rows[j..k][y] != rows[x]
    {
      assert rows[j..k][y] == rows[j + y];
    }
  }

  lemma DecodedJoin(blocks: seq<Block>, rows: seq<nat>, i: nat, j: nat, k: nat, was: seq<Block>, mid: seq<Block>, planes: seq<Block>)
    requires Decoded(blocks, rows, i, j, was, mid) && Decoded(blocks, rows, j, k, mid, planes) && DistinctRows(rows)
    ensures Decoded(blocks, rows, i, k, was, planes)
  {
    assert rows[i..k] == rows[i..j] + rows[j..k];
    forall x | i <= x < j
      ensures planes[rows[x]] == blocks[x]
    {
      NotAmong(rows, x, j, k);
    }
  }

  lemma RowsStillCleared(s: Scan, blocks: seq<Block>, rows: seq<nat>, j: nat, k: nat, was: seq<Block>, planes: seq<Block>)
    requires RowsCleared(s, blocks, rows, 0, |blocks|, was) && Decoded(blocks, rows, 0, j, was, planes) && j <= k <= |blocks|
    ensures RowsCleared(s, blocks, rows, j, k, planes)
  {
    hide ZerosKnown, ScanOk;
    forall x | j <= x < k
      ensures ZerosKnown(s, blocks[x], planes[rows[x]])
    {
      NotAmong(rows, x, 0, j);
    }
  }

  lemma DecodedNone(s: Scan, blocks: seq<Block>, rows: seq<nat>, was: seq<Block>)
    requires RowsCleared(s, blocks, rows, 0, |blocks|, was)
    ensures Decoded(blocks, rows, 0, 0, was, was) && DistinctRows(rows)
  {
  }

  // The bytes of the segments hold their bits.
  ghost predicate Sent(parts: seq<Bits>, segments: seq<seq<Byte>>) {
    |segments| == |parts| && forall j :: 0 <= j < |parts| ==> Holds(segments[j], parts[j])
  }

  // Block i is next, in segment j, and d is the state with which it is coded.
  ghost predicate McuNext(r: BitReader, s: Scan, tables: seq<Tables>, comps: seq<nat>, blocks: seq<Block>,
                          segments: seq<seq<Byte>>, marker: Byte, follow: seq<Byte>, j: nat, i: nat, lastDc: seq<int>,
                          d: DcState, pad: Bits)
    reads r
  {
    var start := StartState(s, |tables|);
    && Coded(s, tables, comps, blocks, 0, start) && |segments| == |ScanBits(s, tables, comps, blocks, 0, start)|
    && j < |segments| && |pad| <= 7 && r.segment == SegmentAt(segments, j, marker, follow)
    && r.warnings == r.discardedBytes == 0 && !r.insufficientData
    && Reached(s, tables, comps, blocks, i, lastDc, d, pad, r.Ahead())
    && Behind(s, tables, comps, blocks, i, d) == ScanBits(s, tables, comps, blocks, 0, start)[j + 1..]
  }

  // A reader at the start of segment j, which begins with block i
  lemma EnterMcu(r: BitReader, s: Scan, tables: seq<Tables>, comps: seq<nat>, blocks: seq<Block>,
                 segments: seq<seq<Byte>>, marker: Byte, follow: seq<Byte>, j: nat, i: nat, d: DcState)
    returns (pad: Bits)
    requires Coded(s, tables, comps, blocks, 0, StartState(s, |tables|)) && SegmentOk(s, tables, comps, blocks)
    requires Sent(ScanBits(s, tables, comps, blocks, 0, StartState(s, |tables|)), segments)
    requires j < |segments| && r.segment == SegmentAt(segments, j, marker, follow) && r.Ahead() == DataBits(r.segment.data)
    requires r.warnings == r.discardedBytes == 0 && !r.insufficientData
    requires Coded(s, tables, comps, blocks, i, d)
    requires ScanBits(s, tables, comps, blocks, i, d) == ScanBits(s, tables, comps, blocks, 0, StartState(s, |tables|))[j..]
    ensures McuNext(r, s, tables, comps, blocks, segments, marker, follow, j, i, d.last, d, pad)
  {
    hide BitReader.Ahead, DataBits, SegmentOk, Remaining, Holds, ScanBits;
    var parts := ScanBits(s, tables, comps, blocks, 0, StartState(s, |tables|));
    pad := HeldBits(segments[j], parts[j]);
    assert ScanBits(s, tables, comps, blocks, i, d)[0] == parts[j];
    CodedShape(s, tables, comps, blocks, i, d);
  }

  lemma CodedShape(s: Scan, tables: seq<Tables>, comps: seq<nat>, blocks: seq<Block>, i: nat, d: DcState)
    requires Coded(s, tables, comps, blocks, i, d)
    ensures |d.last| == |tables| && i <= |blocks| == |comps|
  {
  }

  // When a restart is due the marker is next, and behind it another segment.
  lemma RestartAhead(r: BitReader, s: Scan, tables: seq<Tables>, comps: seq<nat>, blocks: seq<Block>,
                     segments: seq<seq<Byte>>, marker: Byte, follow: seq<Byte>, j: nat, i: nat, lastDc: seq<int>,
                     d: DcState, pad: Bits)
    requires r.Valid() && McuNext(r, s, tables, comps, blocks, segments, marker, follow, j, i, lastDc, d, pad)
    requires i < |blocks| && Due(s, d) && |s.membership| > 0 && marker != 0 && marker != 0xFF
    ensures r.k == |r.segment.data| && r.warnings == r.discardedBytes == r.bitsLeft / 8 == 0 && j + 1 < |segments|
    ensures r.segment.marker == RST0 + j % 8 && ReadSegment(r.segment.after) == SegmentAt(segments, j + 1, marker, follow)
    ensures r.segment.after == CleanRest(SegmentAt(segments, j + 1, marker, follow), 0)
    ensures var start := StartState(s, |tables|);
            && Coded(s, tables, comps, blocks, i, start) && Coded(s, tables, comps, blocks, 0, start)
            && ScanBits(s, tables, comps, blocks, i, start) == ScanBits(s, tables, comps, blocks, 0, start)[j + 1..]
  {
    hide BitReader.Ahead, BitReader.Valid, DataBits, ReadSegment, SegmentOk, Remaining;
    AtRestart(true, s, tables, comps, blocks, i, d, 0);
    hide ScanBits, Coded;
    assert [] + pad == pad;
    DataConsumed(r);
    RemainingRead(segments, j + 1, marker, follow);
    CleanSegments(segments, j + 1, marker, follow);
  }

  // A restart that is due
  method Restart(r: BitReader, nextRestartNum: nat, ghost s: Scan, ghost tables: seq<Tables>, ghost comps: seq<nat>,
                 ghost blocks: seq<Block>, ghost segments: seq<seq<Byte>>, ghost marker: Byte, ghost follow: seq<Byte>,
                 ghost j: nat, ghost i: nat, ghost lastDc: seq<int>, ghost d: DcState, ghost pad: Bits)
    returns (r': BitReader, num: nat, ghost pad': Bits)
    requires r.Valid() && McuNext(r, s, tables, comps, blocks, segments, marker, follow, j, i, lastDc, d, pad)
    requires i < |blocks| && Due(s, d) && |s.membership| > 0 && marker != 0 && marker != 0xFF && nextRestartNum == j % 8
    requires SegmentOk(s, tables, comps, blocks) && Coded(s, tables, comps, blocks, 0, StartState(s, |tables|))
    requires Sent(ScanBits(s, tables, comps, blocks, 0, StartState(s, |tables|)), segments)
    ensures fresh(r') && r'.Valid() && r'.clean && num == (j + 1) % 8
    ensures var start := StartState(s, |tables|);
            McuNext(r', s, tables, comps, blocks, segments, marker, follow, j + 1, i, start.last, start, pad')
  {
    hide BitReader.Ahead, BitReader.Valid, DataBits, McuNext, ReadSegment, Sent, SegmentOk, SegmentAt, ScanBits, Coded;
    RestartAhead(r, s, tables, comps, blocks, segments, marker, follow, j, i, lastDc, d, pad);
    r', num := ProcessRestart(r, nextRestartNum);
    pad' := EnterMcu(r', s, tables, comps, blocks, segments, marker, follow, j + 1, i, StartState(s, |tables|));
  }

  // The next MCU of a segment
  method DecodeNext(r: BitReader, bytesInBuffer: nat, s: Scan, decoders: seq<Decoders>, comps: seq<nat>, rows: seq<nat>,
                    planes: array<Block>, i: nat, n: nat, lastDc: seq<int>, ghost tables: seq<Tables>, ghost blocks: seq<Block>,
                    ghost segments: seq<seq<Byte>>, ghost marker: Byte, ghost follow: seq<Byte>, ghost j: nat,
                    ghost d: DcState, ghost pad: Bits)
    returns (lastDc': seq<int>, ghost d': DcState)
    requires DecodersFor(tables) == decoders
    requires r.Valid() && (s.restartInterval == 0 ==> r.clean) && bytesInBuffer <= |r.rest| && 0 < n
    requires McuNext(r, s, tables, comps, blocks, segments, marker, follow, j, i, lastDc, d, pad)
    requires |comps| == |blocks| && RowsCleared(s, blocks, rows, i, i + n, planes[..]) && (s.restartInterval != 0 ==> n <= d.togo)
    modifies r, planes
    ensures r.Valid() && Decoded(blocks, rows, i, i + n, old(planes[..]), planes[..])
    ensures McuNext(r, s, tables, comps, blocks, segments, marker, follow, j, i + n, lastDc', d', pad)
    ensures s.restartInterval != 0 ==> d'.togo == d.togo - n
  {
    hide BitReader.Valid, BitReader.Ahead, Reached, Decoded, RowsCleared, Behind, SegmentAt, ScanBits, Coded;
    lastDc', d' := DecodeMcu(r, bytesInBuffer, s, decoders, comps, rows, planes, i, n, lastDc, tables, blocks, d, pad);
  }

  lemma DecodedMcu(s: Scan, blocks: seq<Block>, rows: seq<nat>, i: nat, n: nat, was: seq<Block>, mid: seq<Block>, planes: seq<Block>)
    requires RowsCleared(s, blocks, rows, 0, |blocks|, was) && Decoded(blocks, rows, 0, i, was, mid) && i + n <= |blocks|
    requires Decoded(blocks, rows, i, i + n, mid, planes)
    ensures Decoded(blocks, rows, 0, i + n, was, planes)
  {
    hide ZerosKnown, ScanOk, Decoded;
    DecodedNone(s, blocks, rows, was);
    DecodedJoin(blocks, rows, 0, i, i + n, was, mid, planes);
  }

  // Decode a scan across its restart markers; available says how many bytes the source has in its
  // buffer for each MCU.
  method DecodeScan(wide: bool, stream: seq<Byte>, available: seq<nat>, s: Scan, decoders: seq<Decoders>, comps: seq<nat>,
                    rows: seq<nat>, planes: array<Block>, ghost tables: seq<Tables>, ghost blocks: seq<Block>,
                    ghost segments: seq<seq<Byte>>, ghost marker: Byte, ghost follow: seq<Byte>)
    returns (warnings: nat, unread: Byte, rest: seq<Byte>)
    requires DecodersFor(tables) == decoders
    requires SegmentOk(s, tables, comps, blocks) && Coded(s, tables, comps, blocks, 0, StartState(s, |tables|))
    requires Sent(ScanBits(s, tables, comps, blocks, 0, StartState(s, |tables|)), segments) && segments != []
    requires |s.membership| > 0 && |comps| == |blocks| == BlocksIn(|s.membership|, |available|)
    requires RowsCleared(s, blocks, rows, 0, |blocks|, planes[..]) && marker != 0 && marker != 0xFF
    requires stream == Remaining(segments, 0, [0xFF, marker] + follow)
    modifies planes
    ensures warnings == 0 && Decoded(blocks, rows, 0, |blocks|, old(planes[..]), planes[..])
    ensures Unread(unread, rest) == [0xFF, marker] + follow && unread != 0xFF
  {
    hide BitReader.Valid, BitReader.Ahead, Decoded, RowsCleared, SegmentOk, Sent, Remaining, ReadSegment, ScanBits, Coded,
      McuNext, BlocksIn, SegmentAt;
    var n := |s.membership|;
    ghost var was := planes[..];
    RemainingRead(segments, 0, marker, follow);
    CleanSegments(segments, 0, marker, follow);
    var r := new BitReader(wide, stream, true);
    ghost var d := StartState(s, |tables|);
    var lastDc: seq<int> := NoDc(|decoders|);
    WholeScan(s, tables, comps, blocks);
    ghost var pad := EnterMcu(r, s, tables, comps, blocks, segments, marker, follow, 0, 0, d);
    var restartsToGo, nextRestartNum := s.restartInterval, 0;
    var i := 0;
    ghost var j := 0;
    DecodedNone(s, blocks, rows, was);
    NoBlocks(n);
    for m := 0 to |available|
      invariant fresh(r) && r.Valid() && r.clean && i == BlocksIn(n, m) && nextRestartNum == j % 8
      invariant McuNext(r, s, tables, comps, blocks, segments, marker, follow, j, i, lastDc, d, pad)
      invariant s.restartInterval != 0 ==> d.togo == BlocksIn(n, restartsToGo)
      invariant Decoded(blocks, rows, 0, i, was, planes[..])
    {
      OneMoreMcu(n, m, |available|);
      if s.restartInterval != 0 && restartsToGo == 0 {
        NoBlocks(n);
        r, nextRestartNum, pad :=
          Restart(r, nextRestartNum, s, tables, comps, blocks, segments, marker, follow, j, i, lastDc, d, pad);
        lastDc, restartsToGo := NoDc(|decoders|), s.restartInterval;
        d, j := StartState(s, |tables|), j + 1;
      }
      OneMcu(n, restartsToGo);
      ghost var mid := planes[..];
      RowsStillCleared(s, blocks, rows, i, i + n, was, mid);
      var bytesInBuffer := if available[m] <= |r.rest| then available[m] else |r.rest|;
      lastDc, d := DecodeNext(r, bytesInBuffer, s, decoders, comps, rows, planes, i, n, lastDc, tables, blocks, segments, marker, follow,
        j, d, pad);
      DecodedMcu(s, blocks, rows, i, n, was, mid, planes[..]);
      i := i + n;
      if s.restartInterval != 0 {
        restartsToGo := restartsToGo - 1;
      }
    }
    warnings := r.warnings;
    unread, rest := r.unreadMarker, r.rest;
    AtEnd(r, s, tables, comps, blocks, segments, marker, follow, j, lastDc, d, pad);
  }

  // At the end of the scan nothing has gone wrong, and the marker is next, unless it has been met.
  lemma AtEnd(r: BitReader, s: Scan, tables: seq<Tables>, comps: seq<nat>, blocks: seq<Block>,
              segments: seq<seq<Byte>>, marker: Byte, follow: seq<Byte>, j: nat, lastDc: seq<int>,
              d: DcState, pad: Bits)
    requires r.Valid() && r.clean && McuNext(r, s, tables, comps, blocks, segments, marker, follow, j, |blocks|, lastDc, d, pad)
    ensures r.warnings == 0
    ensures Unread(r.unreadMarker, r.rest) == [0xFF, marker] + follow && r.unreadMarker != 0xFF
  {
    hide BitReader.Ahead, BitReader.Valid, SegmentOk, Remaining;
    var rest := ScanBits(s, tables, comps, blocks, |blocks|, d);
    assert rest == [[]] && rest[1..] == [];
    assert [] + pad == pad;
    hide ScanBits, Coded;
    assert j + 1 == |segments|;
    DataConsumed(r);
    Consumed(r);
  }

  lemma Consumed(r: BitReader)
    requires r.Valid() && r.clean && r.k == |r.segment.data|
    ensures Unread(r.unreadMarker, r.rest) == [0xFF, r.segment.marker] + r.segment.after && r.unreadMarker != 0xFF
  {
    hide ReadSegment;
    CleanStart(r.segment, r.k);
  }

  lemma WholeScan(s: Scan, tables: seq<Tables>, comps: seq<nat>, blocks: seq<Block>)
    requires Coded(s, tables, comps, blocks, 0, StartState(s, |tables|))
    ensures var parts := ScanBits(s, tables, comps, blocks, 0, StartState(s, |tables|)); parts == parts[0..]
  {
    hide ScanBits, Coded;
  }

  // A segment is nothing but stuffed data before its marker.
  lemma CleanSegments(segments: seq<seq<Byte>>, j: nat, marker: Byte, follow: seq<Byte>)
    requires j < |segments| && marker != 0 && marker != 0xFF
    ensures Remaining(segments, j, [0xFF, marker] + follow) == CleanRest(SegmentAt(segments, j, marker, follow), 0)
  {
    hide Stuff;
    assert segments[j][0..] == segments[j];
  }
}
