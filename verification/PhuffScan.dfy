// Whole progressive Huffman scans of AC coefficients: statistics, coding and decoding.
module PhuffScan {
  import opened BitFields
  import opened BitStrings
  import opened ArithInterval
  import opened ByteSource
  import opened ArithScan
  import opened PointTransform
  import opened HuffmanLimit
  import opened HuffmanMerge
  import opened HuffmanGen
  import opened HuffmanTables
  import opened HuffmanDecode
  import opened HuffmanReader
  import opened HuffmanBlock
  import opened HuffmanStatistics
  import opened PhuffTokens
  import opened PhuffBlocks
  import opened PhuffEncoder
  import opened PhuffDecoder
  import opened PhuffRefine
  import opened HuffmanOptimize
  import opened HuffmanWriter

  // The scan's blocks can be coded.
  ghost predicate Acceptable(s: Scan, blocks: seq<Block>) {
    AcScan(s) && (s.Ah == 0 ==> forall i :: 0 <= i < |blocks| ==> Codable(s, blocks[i]))
  }

  function CodeOf(s: Scan, block: Block): BlockCode
    requires |s.order| == DCTSIZE2 && s.Ss <= s.Se < DCTSIZE2 && (s.Ah == 0 ==> Codable(s, block))
  {
    if s.Ah == 0 then FirstCode(s, block) else RefineCode(s, block)
  }

  ghost function Codes(s: Scan, blocks: seq<Block>): (codes: seq<BlockCode>)
    requires Acceptable(s, blocks)
    ensures CodesOk(codes) && |codes| == |blocks|
  {
    hide AcLevel, ScanOk;
    var codes := seq(|blocks|, i requires 0 <= i < |blocks| => CodeOf(s, blocks[i]));
    CodesAreOk(s, blocks, codes);
    codes
  }

  lemma CodesAreOk(s: Scan, blocks: seq<Block>, codes: seq<BlockCode>)
    requires Acceptable(s, blocks) && |codes| == |blocks| && forall i :: 0 <= i < |blocks| ==> codes[i] == CodeOf(s, blocks[i])
    ensures CodesOk(codes)
  {
    hide AcLevel, ScanOk, FirstCode, RefineCode, Codable;
    forall i | 0 <= i < |codes|
      ensures CodeOk(codes[i])
    {
      if s.Ah == 0 {
        FirstCodeOk(s, blocks[i]);
      } else {
        RefineCodeOk(s, blocks[i]);
      }
    }
  }

  // ----- Segments -----

  // The tokens of the segment that starts with block i and of those behind it
  ghost function Parts(s: Scan, codes: seq<BlockCode>, i: nat): (parts: seq<seq<Token>>)
    requires i <= |codes|
    ensures |parts| > 0
    decreases |codes| - i
  {
    var end := SegmentEnd(s, |codes|, i);
    [Tokens(codes[..end], i, 0, [])] + if end < |codes| then Parts(s, codes, end) else []
  }

  // The tokens of the whole scan, by segments
  ghost function ScanTokens(s: Scan, blocks: seq<Block>): (parts: seq<seq<Token>>)
    requires Acceptable(s, blocks)
    ensures |parts| > 0
  {
    Parts(s, Codes(s, blocks), 0)
  }

  // Block i is the next one in segment j, which begins at start; so many blocks are left before
  // a restart.
  ghost predicate InSegment(s: Scan, codes: seq<BlockCode>, j: nat, start: nat, i: nat, restartsToGo: nat) {
    && start <= i <= SegmentEnd(s, |codes|, start) && j < |Parts(s, codes, 0)| && start <= |codes|
    && Parts(s, codes, start) == Parts(s, codes, 0)[j..]
    && (s.restartInterval != 0 ==> i + restartsToGo == start + s.restartInterval)
  }

  lemma FirstSegment(s: Scan, codes: seq<BlockCode>)
    ensures InSegment(s, codes, 0, 0, 0, s.restartInterval)
    ensures Parts(s, codes, 0)[0] == Tokens(codes[..SegmentEnd(s, |codes|, 0)], 0, 0, [])
  {
    hide Tokens;
  }

  // When a restart is due the segment is at its end and there is another one.
  lemma NextSegment(s: Scan, codes: seq<BlockCode>, j: nat, start: nat, i: nat)
    requires InSegment(s, codes, j, start, i, 0) && s.restartInterval != 0 && i < |codes|
    ensures i == SegmentEnd(s, |codes|, start) && InSegment(s, codes, j + 1, i, i, s.restartInterval)
    ensures Parts(s, codes, 0)[j + 1] == Tokens(codes[..SegmentEnd(s, |codes|, i)], i, 0, [])
  {
    hide Tokens;
    assert Parts(s, codes, i) == Parts(s, codes, start)[1..];
  }

  lemma SameSegment(s: Scan, codes: seq<BlockCode>, j: nat, start: nat, i: nat, restartsToGo: nat)
    requires InSegment(s, codes, j, start, i, restartsToGo) && i < |codes| && (s.restartInterval != 0 ==> restartsToGo > 0)
    ensures i < SegmentEnd(s, |codes|, start)
    ensures InSegment(s, codes, j, start, i + 1, if s.restartInterval != 0 then restartsToGo - 1 else restartsToGo)
  {
    hide Parts;
  }

  // At the end of the scan the segment is the last one.
  lemma LastSegment(s: Scan, codes: seq<BlockCode>, j: nat, start: nat, restartsToGo: nat)
    requires InSegment(s, codes, j, start, |codes|, restartsToGo)
    ensures |codes| == SegmentEnd(s, |codes|, start) && j + 1 == |Parts(s, codes, 0)|
    ensures Parts(s, codes, 0)[j] == Tokens(codes, start, 0, [])
  {
    hide Tokens;
    assert codes[..|codes|] == codes;
    assert Parts(s, codes, start)[0] == Parts(s, codes, 0)[j];
  }

  // ----- Encoding -----

  // What is left of the current segment, and what has been emitted of it
  ghost predicate Encoding(s: Scan, codes: seq<BlockCode>, j: nat, start: nat, i: nat, n: nat, bits: Bits,
                           past: seq<seq<Token>>, tokens: seq<Token>)
    requires Pending(n, bits)
  {
    && start <= i <= SegmentEnd(s, |codes|, start) <= |codes| && j < |Parts(s, codes, 0)| && past == Parts(s, codes, 0)[..j]
    && tokens + Tokens(codes[..SegmentEnd(s, |codes|, start)], i, n, bits) == Parts(s, codes, 0)[j]
  }

  lemma EncodingStart(s: Scan, codes: seq<BlockCode>)
    ensures Encoding(s, codes, 0, 0, 0, 0, [], [], [])
  {
    hide Tokens;
    FirstSegment(s, codes);
    var t := Tokens(codes[..SegmentEnd(s, |codes|, 0)], 0, 0, []);
    assert [] + t == t;
  }

  lemma EncodingRestart(s: Scan, codes: seq<BlockCode>, j: nat, start: nat, i: nat, n: nat, bits: Bits,
                        past: seq<seq<Token>>, tokens: seq<Token>)
    requires Pending(n, bits) && Encoding(s, codes, j, start, i, n, bits, past, tokens)
    requires InSegment(s, codes, j, start, i, 0) && s.restartInterval != 0 && i < |codes|
    ensures InSegment(s, codes, j + 1, i, i, s.restartInterval)
    ensures Encoding(s, codes, j + 1, i, i, 0, [], past + [tokens + Run(n, bits)], [])
  {
    hide Run;
    NextSegment(s, codes, j, start, i);
    hide InSegment, Parts;
    var parts := Parts(s, codes, 0);
    assert parts[..j + 1] == parts[..j] + [parts[j]];
    var t := Tokens(codes[..SegmentEnd(s, |codes|, i)], i, 0, []);
    assert [] + t == t;
  }

  lemma EncodingStep(s: Scan, codes: seq<BlockCode>, j: nat, start: nat, i: nat, n: nat, bits: Bits,
                     past: seq<seq<Token>>, tokens: seq<Token>)
    requires Pending(n, bits) && Encoding(s, codes, j, start, i, n, bits, past, tokens) && i < SegmentEnd(s, |codes|, start)
    ensures var next := Step(codes[i], n, bits);
            Encoding(s, codes, j, start, i + 1, next.n, next.bits, past, tokens + next.emitted)
  {
    hide Run, Step, Parts;
    var next := Step(codes[i], n, bits);
    var part := codes[..SegmentEnd(s, |codes|, start)];
    assert part[i] == codes[i];
    Associate3(tokens, next.emitted, Tokens(part, i + 1, next.n, next.bits));
  }

  lemma EncodingEnd(s: Scan, codes: seq<BlockCode>, j: nat, start: nat, n: nat, bits: Bits, restartsToGo: nat,
                    past: seq<seq<Token>>, tokens: seq<Token>)
    requires Pending(n, bits) && Encoding(s, codes, j, start, |codes|, n, bits, past, tokens)
    requires InSegment(s, codes, j, start, |codes|, restartsToGo)
    ensures past + [tokens + Run(n, bits)] == Parts(s, codes, 0)
  {
    hide Run;
    LastSegment(s, codes, j, start, restartsToGo);
    hide InSegment, Parts;
    var parts := Parts(s, codes, 0);
    assert codes[..|codes|] == codes;
    assert parts == parts[..j] + [parts[j]];
  }

  // Code one block, or gather its statistics.
  method EncodeBlock(enc: PhuffEncoder, s: Scan, block: Block, ghost n: nat, ghost bits: Bits)
    returns (accepted: bool, ghost next: Stepped)
    requires enc.Valid() && AcScan(s) && enc.RunPending(n, bits) && Pending(n, bits) && (s.Ah == 0 ==> bits == [])
    modifies enc`counts, enc.writer, enc`ok, enc`tokens, enc`EOBRUN, enc`BE, enc.bitBuffer
    ensures enc.Valid() && (accepted <==> (s.Ah == 0 ==> Codable(s, block)))
    ensures accepted ==> next == Step(CodeOf(s, block), n, bits) && enc.RunPending(next.n, next.bits)
    ensures accepted ==> enc.tokens == old(enc.tokens) + next.emitted && (s.Ah == 0 ==> next.bits == [])
  {
    hide PhuffEncoder.Valid, Codable, FirstCode, RefineCode, ScanOk, Step, Run;
    if s.Ah == 0 {
      accepted, next := enc.EncodeAcFirst(s, block, n);
    } else {
      next := enc.EncodeAcRefine(s, block, n, bits);
      accepted := true;
    }
  }

  // Code all blocks, or gather their statistics, with a restart behind every restart interval; an
  // error if a coefficient has too many bits.
  method EncodeScan(enc: PhuffEncoder, s: Scan, blocks: seq<Block>) returns (accepted: bool)
    requires enc.Valid() && AcScan(s) && enc.RunPending(0, []) && enc.tokens == [] && enc.past == Past([], [])
    modifies enc, enc.writer, enc.bitBuffer
    ensures accepted <==> Acceptable(s, blocks)
    ensures accepted ==> enc.past.segments == ScanTokens(s, blocks) && enc.Finished()
  {
    hide PhuffEncoder.Valid, Codable, CodeOf, ScanOk, Step, Run, Encoding, InSegment, PhuffEncoder.Finished, PhuffEncoder.RunPending;
    ghost var n, bits: Bits := 0, [];
    ghost var good := Acceptable(s, blocks);
    ghost var codes := if good then Codes(s, blocks) else [];
    ghost var j, start := 0, 0;
    EncodingStart(s, codes);
    FirstSegment(s, codes);
    var restartsToGo, nextRestartNum := s.restartInterval, 0;
    for i := 0 to |blocks|
      invariant enc.Valid() && enc.RunPending(n, bits) && Pending(n, bits) && (s.Ah == 0 ==> bits == [])
      invariant s.Ah == 0 ==> forall j :: 0 <= j < i ==> Codable(s, blocks[j])
      invariant nextRestartNum == |enc.past.segments| % 8
      invariant good ==> InSegment(s, codes, j, start, i, restartsToGo)
      invariant good ==> Encoding(s, codes, j, start, i, n, bits, enc.past.segments, enc.tokens)
    {
      ghost var next: Stepped;
      if s.restartInterval != 0 && restartsToGo == 0 {
        if good {
          EncodingRestart(s, codes, j, start, i, n, bits, enc.past.segments, enc.tokens);
        }
        RestartReady(enc, n, bits);
        enc.EmitRestart(nextRestartNum);
        n, bits, j, start := 0, [], j + 1, i;
      }
      if good {
        SameSegment(s, codes, j, start, i, if restartsToGo == 0 then s.restartInterval else restartsToGo);
        EncodingStep(s, codes, j, start, i, n, bits, enc.past.segments, enc.tokens);
        assert codes[i] == CodeOf(s, blocks[i]);
      }
      accepted, next := EncodeBlock(enc, s, blocks[i], n, bits);
      if !accepted {
        return;
      }
      n, bits := next.n, next.bits;
      if s.restartInterval != 0 {
        if restartsToGo == 0 {
          restartsToGo := s.restartInterval;
          nextRestartNum := (nextRestartNum + 1) % 8;
        }
        restartsToGo := restartsToGo - 1;
      }
    }
    accepted := true;
    EncodingEnd(s, codes, j, start, n, bits, restartsToGo, enc.past.segments, enc.tokens);
    RestartReady(enc, n, bits);
    enc.Finish();
  }

  lemma RestartReady(enc: PhuffEncoder, n: nat, bits: Bits)
    requires enc.RunPending(n, bits) && Pending(n, bits)
    ensures enc.BE <= enc.bitBuffer.Length && enc.EOBRUN == n <= MAX_EOBRUN && enc.Buffered() == bits
    ensures enc.EOBRUN == 0 ==> enc.BE == 0
  {
  }

  // ----- Decoding -----

  // The first j blocks have been brought to the scan's level in their rows.
  ghost predicate Decoded(s: Scan, blocks: seq<Block>, rows: seq<nat>, j: nat, was: seq<Block>, planes: seq<Block>) {
    && ScanOk(s) && j <= |blocks| == |rows| && |planes| == |was| && (forall x :: 0 <= x < |rows| ==> rows[x] < |was|)
    && (forall x :: 0 <= x < j ==> planes[rows[x]] == BlockResult(s, blocks[x], was[rows[x]]))
    && forall r :: 0 <= r < |was| && r !in rows[..j] ==> planes[r] == was[r]
  }

  // The rows are different and hold what the scan starts from.
  ghost predicate RowsKnown(s: Scan, blocks: seq<Block>, rows: seq<nat>, planes: seq<Block>) {
    && ScanOk(s) && |blocks| == |rows| && (forall x :: 0 <= x < |rows| ==> rows[x] < |planes|)
    && DistinctRows(rows)
    && forall x :: 0 <= x < |rows| ==> BandKnown(s, blocks[x], planes[rows[x]])
  }

  lemma DecodedNext(s: Scan, blocks: seq<Block>, rows: seq<nat>, j: nat, was: seq<Block>, planes: seq<Block>)
    requires RowsKnown(s, blocks, rows, was) && Decoded(s, blocks, rows, j, was, planes) && j < |blocks|
    ensures |rows| == |blocks| && rows[j] < |planes| == |was| && ScanOk(s) && BandKnown(s, blocks[j], planes[rows[j]])
    ensures Decoded(s, blocks, rows, j + 1, was, planes[rows[j] := BlockResult(s, blocks[j], planes[rows[j]])])
  {
    hide BlockResult, BandKnown, ScanOk;
    assert rows[..j + 1] == rows[..j] + [rows[j]];
  }

  // The segments' bytes hold their tokens, all of whose symbols have code words.
  ghost predicate Sent(e: EncoderTable, parts: seq<seq<Token>>, bytes: seq<seq<Byte>>) {
    && EncoderShape(e) && |bytes| == |parts|
    && forall j :: 0 <= j < |parts| ==> AllCoded(e, SymbolsOf(parts[j])) && Holds(bytes[j], TokenBits(e, parts[j], []))
  }

  // At the start of a segment its tokens are next, and then the padding.
  lemma EnterSegment(r: BitReader, e: EncoderTable, parts: seq<seq<Token>>, bytes: seq<seq<Byte>>, j: nat, marker: Byte,
                     follow: seq<Byte>)
    returns (pad: Bits)
    requires Sent(e, parts, bytes) && j < |parts| && r.segment == SegmentAt(bytes, j, marker, follow)
    requires r.Ahead() == DataBits(r.segment.data) && r.warnings == 0 && !r.insufficientData
    ensures Next(r, e, parts[j], pad) && |pad| <= 7
  {
    hide BitReader.Ahead, DataBits, TokenBits, AllCoded, SymbolsOf, Remaining, Holds;
    pad := HeldBits(bytes[j], TokenBits(e, parts[j], []));
    TokenTail(e, parts[j], pad);
  }

  // Block i is next in its segment.
  ghost predicate BlockNext(r: BitReader, e: EncoderTable, s: Scan, codes: seq<BlockCode>, bytes: seq<seq<Byte>>, marker: Byte,
                            follow: seq<Byte>, j: nat, start: nat, i: nat, restartsToGo: nat, EOBRUN: nat, pad: Bits)
    reads r
  {
    && j < |bytes| && |pad| <= 7 && r.segment == SegmentAt(bytes, j, marker, follow) && r.discardedBytes == 0
    && InSegment(s, codes, j, start, i, restartsToGo) && SegmentEnd(s, |codes|, start) <= |codes|
    && BlockAhead(r, e, codes[..SegmentEnd(s, |codes|, start)], i, EOBRUN, pad)
  }

  // A reader at the start of segment j, which begins with block i
  lemma EnterBlock(r: BitReader, e: EncoderTable, s: Scan, codes: seq<BlockCode>, bytes: seq<seq<Byte>>, marker: Byte,
                   follow: seq<Byte>, j: nat, i: nat)
    returns (pad: Bits)
    requires Sent(e, Parts(s, codes, 0), bytes) && CodesOk(codes) && j < |bytes| && r.segment == SegmentAt(bytes, j, marker, follow)
    requires r.Ahead() == DataBits(r.segment.data) && r.warnings == r.discardedBytes == 0 && !r.insufficientData
    requires InSegment(s, codes, j, i, i, s.restartInterval)
    requires Parts(s, codes, 0)[j] == Tokens(codes[..SegmentEnd(s, |codes|, i)], i, 0, [])
    ensures BlockNext(r, e, s, codes, bytes, marker, follow, j, i, i, s.restartInterval, 0, pad)
  {
    hide BitReader.Ahead, DataBits, Next, Sent, Tokens, Parts, SegmentAt;
    pad := EnterSegment(r, e, Parts(s, codes, 0), bytes, j, marker, follow);
    NothingUpcoming(codes[..SegmentEnd(s, |codes|, i)], i);
  }

  // At the end of a segment only its padding is left.
  lemma SegmentRead(r: BitReader, e: EncoderTable, s: Scan, codes: seq<BlockCode>, bytes: seq<seq<Byte>>, marker: Byte,
                    follow: seq<Byte>, j: nat, start: nat, i: nat, restartsToGo: nat, EOBRUN: nat, pad: Bits)
    requires r.Valid() && BlockNext(r, e, s, codes, bytes, marker, follow, j, start, i, restartsToGo, EOBRUN, pad)
    requires i == SegmentEnd(s, |codes|, start)
    ensures r.k == |r.segment.data| && r.warnings == r.discardedBytes == r.bitsLeft / 8 == 0
  {
    hide BitReader.Ahead, SegmentAt, Parts, BitReader.Valid;
    var part := codes[..i];
    NothingUpcoming(part, i);
    AtEnd(r, e, part, pad);
    DataConsumed(r);
  }

  lemma AtEnd(r: BitReader, e: EncoderTable, codes: seq<BlockCode>, tail: Bits)
    requires Next(r, e, Upcoming(codes, |codes|, 0), tail)
    ensures r.Ahead() == tail && r.warnings == 0
  {
    NothingUpcoming(codes, |codes|);
    NoRun();
  }

  // A restart that is due: the marker is there, and the next segment behind it.
  method Restart(r: BitReader, nextRestartNum: nat, ghost e: EncoderTable, ghost s: Scan, ghost codes: seq<BlockCode>,
                 ghost bytes: seq<seq<Byte>>, ghost marker: Byte, ghost follow: seq<Byte>, ghost j: nat, ghost start: nat,
                 ghost i: nat, ghost EOBRUN: nat, ghost pad: Bits)
    returns (r': BitReader, num: nat, ghost pad': Bits)
    requires r.Valid() && BlockNext(r, e, s, codes, bytes, marker, follow, j, start, i, 0, EOBRUN, pad) && nextRestartNum == j % 8
    requires s.restartInterval != 0 && i < |codes| && CodesOk(codes) && marker != 0 && marker != 0xFF
    requires Sent(e, Parts(s, codes, 0), bytes)
    ensures fresh(r') && r'.Valid() && num == (j + 1) % 8
    ensures BlockNext(r', e, s, codes, bytes, marker, follow, j + 1, i, i, s.restartInterval, 0, pad')
  {
    hide BitReader.Ahead, BitReader.Valid, DataBits, BlockNext, ReadSegment, Sent, Tokens, CodesOk, SegmentAt, InSegment, Parts;
    RestartAhead(r, e, s, codes, bytes, marker, follow, j, start, i, EOBRUN, pad);
    r', num := ProcessRestart(r, nextRestartNum);
    pad' := EnterBlock(r', e, s, codes, bytes, marker, follow, j + 1, i);
  }

  // The restart marker is next, and behind it another segment.
  lemma RestartAhead(r: BitReader, e: EncoderTable, s: Scan, codes: seq<BlockCode>, bytes: seq<seq<Byte>>, marker: Byte,
                     follow: seq<Byte>, j: nat, start: nat, i: nat, EOBRUN: nat, pad: Bits)
    requires r.Valid() && BlockNext(r, e, s, codes, bytes, marker, follow, j, start, i, 0, EOBRUN, pad)
    requires s.restartInterval != 0 && i < |codes| && marker != 0 && marker != 0xFF && Sent(e, Parts(s, codes, 0), bytes)
    ensures r.k == |r.segment.data| && r.warnings == r.discardedBytes == r.bitsLeft / 8 == 0
    ensures r.segment.marker == RST0 + j % 8 && j + 1 < |bytes|
    ensures ReadSegment(r.segment.after) == SegmentAt(bytes, j + 1, marker, follow)
    ensures InSegment(s, codes, j + 1, i, i, s.restartInterval)
    ensures Parts(s, codes, 0)[j + 1] == Tokens(codes[..SegmentEnd(s, |codes|, i)], i, 0, [])
  {
    hide BitReader.Ahead, BitReader.Valid, DataBits, BlockAhead, ReadSegment, Sent, Tokens, Remaining;
    NextSegment(s, codes, j, start, i);
    SegmentRead(r, e, s, codes, bytes, marker, follow, j, start, i, 0, EOBRUN, pad);
    BytesOf(e, Parts(s, codes, 0), bytes);
    RemainingRead(bytes, j + 1, marker, follow);
  }

  lemma BytesOf(e: EncoderTable, parts: seq<seq<Token>>, bytes: seq<seq<Byte>>)
    requires Sent(e, parts, bytes)
    ensures |bytes| == |parts|
  {
  }

  // One block into its row
  method DecodeBlock(r: BitReader, s: Scan, t: DecoderTable, planes: array<Block>, b: nat, run: nat, ghost h: HuffTable,
                     ghost e: EncoderTable, ghost block: Block, ghost codes: seq<BlockCode>, ghost i: nat, ghost tail: Bits)
    returns (EOBRUN: nat)
    requires r.Valid() && Decodes(h, t) && Encodes(h, e) && b < planes.Length && i < |codes|
    requires AcScan(s) && (s.Ah == 0 ==> Codable(s, block)) && BandKnown(s, block, planes[b]) && codes[i] == CodeOf(s, block)
    requires BlockAhead(r, e, codes, i, run, tail)
    modifies r, planes
    ensures r.Valid() && planes[..] == old(planes[..])[b := BlockResult(s, block, old(planes[b]))]
    ensures BlockAhead(r, e, codes, i + 1, EOBRUN, tail)
  {
    hide BitReader.Valid, BlockAhead, Decodes, Encodes, Codable, FirstCode, RefineCode, BandKnown, Updated, OrderOk, TablesOk;
    EOBRUN := run;
    if s.Ah == 0 {
      EOBRUN := DecodeAcFirst(r, s, t, planes, b, run, h, e, block, codes, i, tail);
    } else {
      EOBRUN := DecodeAcRefine(r, s, t, planes, b, run, h, e, block, codes, i, tail);
    }
  }

  // The next block of a segment
  method DecodeNext(r: BitReader, s: Scan, t: DecoderTable, planes: array<Block>, b: nat, run: nat, ghost h: HuffTable,
                    ghost e: EncoderTable, ghost blocks: seq<Block>, ghost bytes: seq<seq<Byte>>, ghost marker: Byte,
                    ghost follow: seq<Byte>, ghost j: nat, ghost start: nat, ghost i: nat, ghost restartsToGo: nat, ghost pad: Bits)
    returns (EOBRUN: nat)
    requires r.Valid() && Decodes(h, t) && Encodes(h, e) && b < planes.Length && i < |blocks| && Acceptable(s, blocks)
    requires BandKnown(s, blocks[i], planes[b]) && (s.restartInterval != 0 ==> restartsToGo > 0)
    requires BlockNext(r, e, s, Codes(s, blocks), bytes, marker, follow, j, start, i, restartsToGo, run, pad)
    modifies r, planes
    ensures r.Valid() && planes[..] == old(planes[..])[b := BlockResult(s, blocks[i], old(planes[b]))]
    ensures BlockNext(r, e, s, Codes(s, blocks), bytes, marker, follow, j, start, i + 1,
              if s.restartInterval != 0 then restartsToGo - 1 else restartsToGo, EOBRUN, pad)
  {
    hide BitReader.Valid, BlockAhead, Decodes, Encodes, Codable, BandKnown, ScanOk, InSegment, CodeOf, BlockResult, SegmentAt;
    ghost var codes := Codes(s, blocks);
    SameSegment(s, codes, j, start, i, restartsToGo);
    ghost var part := codes[..SegmentEnd(s, |codes|, start)];
    assert part[i] == codes[i] == CodeOf(s, blocks[i]);
    EOBRUN := DecodeBlock(r, s, t, planes, b, run, h, e, blocks[i], part, i, pad);
  }

  lemma DecodedStart(s: Scan, blocks: seq<Block>, rows: seq<nat>, was: seq<Block>)
    requires RowsKnown(s, blocks, rows, was)
    ensures |rows| == |blocks| && Decoded(s, blocks, rows, 0, was, was)
  {
    hide ScanOk, BandKnown, BlockResult;
  }

  // Decode a scan into the rows of its blocks, across its restart markers.
  method DecodeScan(wide: bool, stream: seq<Byte>, s: Scan, t: DecoderTable, rows: seq<nat>, planes: array<Block>,
                    ghost h: HuffTable, ghost e: EncoderTable, ghost blocks: seq<Block>, ghost bytes: seq<seq<Byte>>,
                    ghost marker: Byte, ghost follow: seq<Byte>)
    returns (warnings: nat)
    requires Decodes(h, t) && Encodes(h, e) && Acceptable(s, blocks) && RowsKnown(s, blocks, rows, planes[..])
    requires Sent(e, ScanTokens(s, blocks), bytes) && marker != 0 && marker != 0xFF
    requires |bytes| > 0 && stream == Remaining(bytes, 0, [0xFF, marker] + follow)
    modifies planes
    ensures warnings == 0 && Decoded(s, blocks, rows, |blocks|, old(planes[..]), planes[..])
  {
    hide BitReader.Valid, BitReader.Ahead, Decodes, Encodes, BandKnown, ScanOk, Sent, Remaining, ReadSegment, Parts, InSegment,
      BlockResult, CodeOf, BlockNext, Acceptable, Decoded, RowsKnown;
    ghost var codes := Codes(s, blocks);
    ghost var was := planes[..];
    DecodedStart(s, blocks, rows, was);
    RemainingRead(bytes, 0, marker, follow);
    var r := new BitReader(wide, stream, false);
    FirstSegment(s, codes);
    ghost var j, start := 0, 0;
    ghost var pad := EnterBlock(r, e, s, codes, bytes, marker, follow, 0, 0);
    var EOBRUN, restartsToGo, nextRestartNum := 0, s.restartInterval, 0;
    for i := 0 to |rows|
      invariant fresh(r) && r.Valid() && nextRestartNum == j % 8
      invariant BlockNext(r, e, s, codes, bytes, marker, follow, j, start, i, restartsToGo, EOBRUN, pad)
      invariant Decoded(s, blocks, rows, i, was, planes[..])
    {
      if s.restartInterval != 0 && restartsToGo == 0 {
        r, nextRestartNum, pad := Restart(r, nextRestartNum, e, s, codes, bytes, marker, follow, j, start, i, EOBRUN, pad);
        EOBRUN, restartsToGo, j, start := 0, s.restartInterval, j + 1, i;
      }
      DecodedNext(s, blocks, rows, i, was, planes[..]);
      EOBRUN := DecodeNext(r, s, t, planes, rows[i], EOBRUN, h, e, blocks, bytes, marker, follow, j, start, i, restartsToGo, pad);
      if s.restartInterval != 0 {
        restartsToGo := restartsToGo - 1;
      }
    }
    AllRead(r, e, s, codes, bytes, marker, follow, j, start, restartsToGo, EOBRUN, pad);
    warnings := r.warnings;
  }

  lemma AllRead(r: BitReader, e: EncoderTable, s: Scan, codes: seq<BlockCode>, bytes: seq<seq<Byte>>, marker: Byte,
                follow: seq<Byte>, j: nat, start: nat, restartsToGo: nat, EOBRUN: nat, pad: Bits)
    requires r.Valid() && BlockNext(r, e, s, codes, bytes, marker, follow, j, start, |codes|, restartsToGo, EOBRUN, pad)
    ensures r.warnings == 0
  {
    hide BitReader.Valid, Parts, SegmentAt, BlockAhead;
    SegmentRead(r, e, s, codes, bytes, marker, follow, j, start, |codes|, restartsToGo, EOBRUN, pad);
  }

  // Symbols that the table generator can handle
  ghost predicate Fit(tokens: seq<Token>) {
    forall x :: x in SymbolsOf(tokens) ==> Countable(x)
  }

  lemma FitConcat(a: seq<Token>, b: seq<Token>)
    ensures Fit(a + b) <==> Fit(a) && Fit(b)
  {
    hide SymbolsOf;
    SymbolsConcat(a, b);
    if Fit(a + b) {
      forall x | x in SymbolsOf(a)
        ensures Countable(x)
      {
        assert x in SymbolsOf(a + b);
      }
      forall x | x in SymbolsOf(b)
        ensures Countable(x)
      {
        assert x in SymbolsOf(a + b);
      }
    }
  }

  lemma FitSymbol(sym: UInt8, rest: seq<Token>)
    ensures Fit([Sym(sym)] + rest) <==> Countable(sym) && Fit(rest)
    ensures Fit([])
  {
    FitConcat([Sym(sym)], rest);
    assert [Sym(sym)][1..] == [] && SymbolsOf([Sym(sym)]) == [sym];
    if Countable(sym) {
      assert Fit([Sym(sym)]);
    } else {
      assert sym in SymbolsOf([Sym(sym)]);
    }
  }

  lemma FitRaw(bits: Bits, rest: seq<Token>)
    ensures Fit(RawTokens(bits) + rest) <==> Fit(rest)
  {
    NoSymbols(bits);
    SymbolsConcat(RawTokens(bits), rest);
    assert [] + SymbolsOf(rest) == SymbolsOf(rest);
  }

  lemma {:induction false} FirstFit(s: Scan, block: Block, k: nat, r: nat)
    requires |s.order| == DCTSIZE2 && s.Ss <= k && s.Se < DCTSIZE2 && Codable(s, block)
    ensures Fit(FirstTokens(s, block, k, r))
    decreases DCTSIZE2 - k, r
  {
    hide Fit, AcLevel, AtZigzag, NBits, Extra, Codable, RawTokens, BitsOf;
    FitSymbol(0, []);
    if k <= s.Se {
      var v := Shifted(s, block, k);
      CodableRange(s, block, k);
      if v == 0 {
        FirstFit(s, block, k + 1, r + 1);
      } else if r > 15 {
        FirstFit(s, block, k, r - 16);
        FitSymbol(0xF0, FirstTokens(s, block, k, r - 16));
      } else {
        var rest := FirstTokens(s, block, k + 1, 0);
        var bits := BitsOf(Extra(v), NBits(Abs(v)));
        FirstFit(s, block, k + 1, 0);
        FitRaw(bits, rest);
        FitSymbol(RunSize(r, v), RawTokens(bits) + rest);
        Associate3([Sym(RunSize(r, v))], RawTokens(bits), rest);
      }
    }
  }

  lemma {:induction false} RefineFit(s: Scan, block: Block, k: nat, r: nat, br: Bits)
    requires |s.order| == DCTSIZE2 && s.Se < DCTSIZE2
    ensures Fit(RefineTokens(s, block, k, r, br))
    decreases DCTSIZE2 - k, r
  {
    hide Fit, AcLevel, AtZigzag, NoneNew, RawTokens;
    FitSymbol(0, []);
    if k <= s.Se && !NoneNew(s, block, k) {
      var a := AcLevel(s, block, k, s.Al);
      if a == 0 {
        RefineFit(s, block, k + 1, r + 1, br);
      } else if r > 15 {
        var rest := RefineTokens(s, block, k, r - 16, []);
        RefineFit(s, block, k, r - 16, []);
        FitRaw(br, rest);
        FitSymbol(0xF0, RawTokens(br) + rest);
        Associate3([Sym(0xF0)], RawTokens(br), rest);
      } else if a > 1 {
        RefineFit(s, block, k + 1, r, br + [a % 2 == 1]);
      } else {
        RefineFit(s, block, k + 1, 0, []);
        NewFit(16 * r + 1, Positive(s, block, k), br, RefineTokens(s, block, k + 1, 0, []));
      }
    }
  }

  lemma NewFit(sym: UInt8, sign: bool, br: Bits, rest: seq<Token>)
    requires Countable(sym) && Fit(rest)
    ensures Fit([Sym(sym), Raw(sign)] + RawTokens(br) + rest)
  {
    hide Fit;
    FitRaw(br, rest);
    FitRaw([sign], RawTokens(br) + rest);
    FitSymbol(sym, RawTokens([sign]) + (RawTokens(br) + rest));
    assert [Sym(sym), Raw(sign)] + RawTokens(br) + rest == [Sym(sym)] + (RawTokens([sign]) + (RawTokens(br) + rest));
  }

  lemma RunFit(n: nat, bits: Bits)
    requires n <= MAX_EOBRUN
    ensures Fit(Run(n, bits)) && (n > 0 ==> SymbolsOf(Run(n, bits)) != [])
  {
    hide Fit, NBits, BitsOf, RawTokens;
    FitSymbol(0, []);
    if n > 0 {
      RunBits(n);
      var x, y := RawTokens(BitsOf(n, NBits(n) - 1)), RawTokens(bits);
      assert y + [] == y;
      FitRaw(bits, []);
      FitRaw(BitsOf(n, NBits(n) - 1), y);
      FitSymbol(16 * (NBits(n) - 1), x + y);
      Associate3([Sym(16 * (NBits(n) - 1))], x, y);
      SymbolsConcat([Sym(16 * (NBits(n) - 1))], x + y);
    }
  }

  lemma {:induction false} TokensFit(codes: seq<BlockCode>, i: nat, n: nat, bits: Bits)
    requires i <= |codes| && Pending(n, bits) && forall j :: 0 <= j < |codes| ==> Fit(codes[j].head)
    ensures Fit(Tokens(codes, i, n, bits))
    decreases |codes| - i
  {
    hide Fit, Run, RunFull;
    RunFit(n, bits);
    if i < |codes| {
      var c, r := codes[i], Step(codes[i], n, bits);
      TokensFit(codes, i + 1, r.n, r.bits);
      StepFit(c, n, bits);
      FitConcat(r.emitted, Tokens(codes, i + 1, r.n, r.bits));
    }
  }

  lemma StepFit(c: BlockCode, n: nat, bits: Bits)
    requires Pending(n, bits) && Fit(c.head)
    ensures Fit(Step(c, n, bits).emitted)
  {
    hide Fit, Run, RunFull;
    FitSymbol(0, []);
    RunFit(n, bits);
    FitConcat(Run(n, bits), c.head);
    var pre := if c.head == [] then [] else Run(n, bits) + c.head;
    var n0 := if c.head == [] then n else 0;
    var bits0 := if c.head == [] then bits else [];
    RunFit(n0 + 1, bits0 + c.tail);
    FitConcat(pre, Run(n0 + 1, bits0 + c.tail));
  }

  // A head starts with a symbol.
  lemma {:induction false} FirstStarts(s: Scan, block: Block, k: nat, r: nat)
    requires |s.order| == DCTSIZE2 && s.Ss <= k && s.Se < DCTSIZE2 && Codable(s, block)
    ensures FirstTokens(s, block, k, r) != [] ==> FirstTokens(s, block, k, r)[0].Sym?
    decreases DCTSIZE2 - k
  {
    hide AcLevel, AtZigzag, NBits, Extra, Codable, RawTokens, BitsOf;
    if k <= s.Se {
      FirstStarts(s, block, k + 1, r + 1);
    }
  }

  lemma {:induction false} RefineStarts(s: Scan, block: Block, k: nat, r: nat, br: Bits)
    requires |s.order| == DCTSIZE2 && s.Se < DCTSIZE2
    ensures RefineTokens(s, block, k, r, br) != [] ==> RefineTokens(s, block, k, r, br)[0].Sym?
    decreases DCTSIZE2 - k
  {
    hide AcLevel, AtZigzag, NoneNew, RawTokens;
    if k <= s.Se {
      RefineStarts(s, block, k + 1, r + 1, br);
      RefineStarts(s, block, k + 1, r, br + [AcLevel(s, block, k, s.Al) % 2 == 1]);
    }
  }

  // Every scan of at least one block has a symbol.
  lemma {:induction false} SomeSymbol(codes: seq<BlockCode>, i: nat, n: nat, bits: Bits)
    requires i <= |codes| && Pending(n, bits) && CodesOk(codes)
    requires forall j :: 0 <= j < |codes| && codes[j].head != [] ==> codes[j].head[0].Sym?
    ensures n > 0 || i < |codes| ==> SymbolsOf(Tokens(codes, i, n, bits)) != []
    decreases |codes| - i
  {
    hide Run, RunFull, Step;
    RunFit(n, bits);
    if i < |codes| {
      var c, r := codes[i], Step(codes[i], n, bits);
      SymbolsConcat(r.emitted, Tokens(codes, i + 1, r.n, r.bits));
      SomeSymbol(codes, i + 1, r.n, r.bits);
      StepSymbol(c, n, bits);
    }
  }

  lemma StepSymbol(c: BlockCode, n: nat, bits: Bits)
    requires Pending(n, bits) && CodeOk(c) && (c.head != [] ==> c.head[0].Sym?)
    ensures Step(c, n, bits).n > 0 || SymbolsOf(Step(c, n, bits).emitted) != []
  {
    hide Run, RunFull;
    SymbolsConcat(Run(n, bits), c.head);
    var pre := if c.head == [] then [] else Run(n, bits) + c.head;
    var n0 := if c.head == [] then n else 0;
    var bits0 := if c.head == [] then bits else [];
    RunFit(n0 + 1, bits0 + c.tail);
    SymbolsConcat(pre, Run(n0 + 1, bits0 + c.tail));
  }

  lemma {:induction false} PartsFit(s: Scan, codes: seq<BlockCode>, i: nat)
    requires i <= |codes| && forall j :: 0 <= j < |codes| ==> Fit(codes[j].head)
    ensures forall j :: 0 <= j < |Parts(s, codes, i)| ==> Fit(Parts(s, codes, i)[j])
    decreases |codes| - i
  {
    hide Fit, Tokens;
    var end := SegmentEnd(s, |codes|, i);
    TokensFit(codes[..end], i, 0, []);
    if end < |codes| {
      PartsFit(s, codes, end);
    }
  }

  lemma {:induction false} SymbolsFit(parts: seq<seq<Token>>)
    requires forall j :: 0 <= j < |parts| ==> Fit(parts[j])
    ensures forall x :: x in AllSymbols(parts) ==> Countable(x)
  {
    hide Countable, SymbolsOf;
    if parts != [] {
      var n := |parts| - 1;
      SymbolsFit(parts[..n]);
      assert Fit(parts[n]);
    }
  }

  // The symbols of a part are among all of them.
  lemma {:induction false} PartSymbols(parts: seq<seq<Token>>, j: nat)
    requires j < |parts|
    ensures |SymbolsOf(parts[j])| <= |AllSymbols(parts)|
    ensures forall x :: x in SymbolsOf(parts[j]) ==> x in AllSymbols(parts)
  {
    hide SymbolsOf;
    if j < |parts| - 1 {
      PartSymbols(parts[..|parts| - 1], j);
    }
  }

  lemma ScanSymbols(s: Scan, blocks: seq<Block>)
    requires Acceptable(s, blocks) && |blocks| > 0
    ensures |AllSymbols(ScanTokens(s, blocks))| > 0
    ensures forall x :: x in AllSymbols(ScanTokens(s, blocks)) ==> Countable(x)
  {
    hide Codable, FirstTokens, RefineTokens, AcLevel, ScanOk, Fit, SymbolsOf, Tokens, AllSymbols, Countable, Parts;
    var codes := Codes(s, blocks);
    forall j | 0 <= j < |codes|
      ensures Fit(codes[j].head) && (codes[j].head != [] ==> codes[j].head[0].Sym?)
    {
      assert codes[j] == CodeOf(s, blocks[j]);
      if s.Ah == 0 {
        FirstFit(s, blocks[j], s.Ss, 0);
        FirstStarts(s, blocks[j], s.Ss, 0);
      } else {
        RefineFit(s, blocks[j], s.Ss, 0, []);
        RefineStarts(s, blocks[j], s.Ss, 0, []);
      }
    }
    PartsFit(s, codes, 0);
    SymbolsFit(Parts(s, codes, 0));
    FirstSegment(s, codes);
    SomeSymbol(codes[..SegmentEnd(s, |codes|, 0)], 0, 0, []);
    PartSymbols(Parts(s, codes, 0), 0);
  }

  // ----- The length of a scan -----

  // Bits that are no part of code words
  function RawCount(tokens: seq<Token>): nat {
    if tokens == [] then 0 else (if tokens[0].Raw? then 1 else 0) + RawCount(tokens[1..])
  }

  function RawTotal(parts: seq<seq<Token>>): nat {
    if parts == [] then 0 else RawTotal(parts[..|parts| - 1]) + RawCount(parts[|parts| - 1])
  }

  // The bits of all segments
  function BitTotal(t: EncoderTable, parts: seq<seq<Token>>): nat
    requires EncoderShape(t)
  {
    if parts == [] then 0 else BitTotal(t, parts[..|parts| - 1]) + |TokenBits(t, parts[|parts| - 1], [])|
  }

  lemma {:induction false} TokensLength(t: EncoderTable, tokens: seq<Token>)
    requires EncoderShape(t)
    ensures |TokenBits(t, tokens, [])| == ListCost(t.ehufsi, SymbolsOf(tokens)) + RawCount(tokens)
  {
    hide BitsOf;
    if tokens != [] {
      TokensLength(t, tokens[1..]);
      var rest := SymbolsOf(tokens[1..]);
      if tokens[0].Sym? {
        assert ([tokens[0].s] + rest)[1..] == rest;
      } else {
        assert [] + rest == rest;
      }
    }
  }

  lemma {:induction false} PartsLength(t: EncoderTable, parts: seq<seq<Token>>)
    requires EncoderShape(t)
    ensures BitTotal(t, parts) == ListCost(t.ehufsi, AllSymbols(parts)) + RawTotal(parts)
  {
    hide TokenBits, SymbolsOf;
    if parts != [] {
      var n := |parts| - 1;
      PartsLength(t, parts[..n]);
      TokensLength(t, parts[n]);
      ListCostConcat(t.ehufsi, AllSymbols(parts[..n]), SymbolsOf(parts[n]));
    }
  }

  // The counts of the statistics pass determine the length of the scan: each code word as often
  // as its symbol was counted, and the bits that are not coded.
  lemma ScanLength(t: EncoderTable, parts: seq<seq<Token>>)
    requires EncoderShape(t)
    ensures var counts := Tally(NoCounts(), AllSymbols(parts));
            BitTotal(t, parts) == Cost(counts[..SYMBOLS], t.ehufsi, SYMBOLS) + RawTotal(parts)
  {
    hide Tally, Cost, BitTotal, AllSymbols, RawTotal;
    PartsLength(t, parts);
    CountsCost(t.ehufsi, AllSymbols(parts));
  }

  // ----- Two passes -----

  // Tables made for a list of symbols serve the encoder.
  lemma ServesAll(m: Made, list: seq<UInt8>)
    requires Serves(m, false, list)
    ensures SizesOk(m.encoder) && AllCoded(m.encoder, list) && Encodes(m.table, m.encoder) && Decodes(m.table, m.decoder)
  {
    hide Encodes, Decodes;
    EncodesSizes(m.table, m.encoder);
  }

  lemma SentBytes(enc: PhuffEncoder)
    requires enc.Finished() && !enc.gather && AllCoded(enc.table, AllSymbols(enc.past.segments))
    ensures Sent(enc.table, enc.past.segments, enc.past.bytes) && |enc.past.bytes| == |enc.past.segments| > 0
    ensures enc.writer.out == enc.start + ScanBytes(enc.past.bytes)
  {
    hide AllSymbols, SymbolsOf, TokenBits, Holds;
    forall j | 0 <= j < |enc.past.segments|
      ensures AllCoded(enc.table, SymbolsOf(enc.past.segments[j]))
    {
      PartSymbols(enc.past.segments, j);
      InList(enc.table, AllSymbols(enc.past.segments), SymbolsOf(enc.past.segments[j]));
    }
  }

  lemma InList(t: EncoderTable, all: seq<UInt8>, some: seq<UInt8>)
    requires EncoderShape(t) && AllCoded(t, all) && forall x :: x in some ==> x in all
    ensures AllCoded(t, some)
  {
    forall i | 0 <= i < |some|
      ensures t.ehufsi[some[i]] > 0
    {
      assert some[i] in all;
    }
  }

  // The statistics pass, a table made from its counts, the output pass with it, and decoding from
  // the bytes and any marker behind them. A scan is refused just if a coefficient has too many
  // bits, and nothing else is refused unless there are so many symbols that a code could be too
  // long; otherwise every block is brought to the scan's level, and the length of the scan is
  // what the counts say.
  method OptimizedScan(s: Scan, blocks: seq<Block>, rows: seq<nat>, planes: array<Block>, wide: bool, wideDecoder: bool,
                       marker: Byte, follow: seq<Byte>)
    returns (outcome: Outcome, out: seq<Byte>, warnings: nat, counts: seq<nat>, m: Made, ghost bytes: seq<seq<Byte>>)
    requires AcScan(s) && |blocks| > 0 && RowsKnown(s, blocks, rows, planes[..]) && marker != 0 && marker != 0xFF
    requires Acceptable(s, blocks) ==> |AllSymbols(ScanTokens(s, blocks))| <= SEARCH_LIMIT
    modifies planes
    ensures outcome == BadCoefficient <==> !Acceptable(s, blocks)
    ensures Acceptable(s, blocks) && |AllSymbols(ScanTokens(s, blocks))| < 9227464 ==> outcome == Written
    ensures outcome != Written ==> planes[..] == old(planes[..])
    ensures outcome == Written ==> warnings == 0 && Decoded(s, blocks, rows, |blocks|, old(planes[..]), planes[..])
    ensures outcome == Written ==> Sent(m.encoder, ScanTokens(s, blocks), bytes) && bytes != [] && out == ScanBytes(bytes)
    ensures outcome == Written ==>
              && counts == Tally(NoCounts(), AllSymbols(ScanTokens(s, blocks))) && |m.encoder.ehufsi| == SYMBOLS
              && BitTotal(m.encoder, ScanTokens(s, blocks))
                 == Cost(counts[..SYMBOLS], m.encoder.ehufsi, SYMBOLS) + RawTotal(ScanTokens(s, blocks))
  {
    hide Acceptable, ScanTokens, Encodes, Decodes, Tally, NoCounts, AllSymbols, Countable, PhuffEncoder.RunPending,
      PhuffEncoder.Valid, RowsKnown, Decoded, Sent, BitTotal, Cost, RawTotal, Remaining, ScanBytes, AllCoded;
    var none := EncoderTable(seq(SYMBOLS, i => 0), seq(SYMBOLS, i => 0));
    outcome, out, warnings, counts, bytes := BadCoefficient, [], 0, [], [];
    m := Made(HuffTable([], []), none, DecoderTable([], [], [], []));
    var gatherer := new PhuffEncoder(true, none, wide, []);
    var ok := EncodeScan(gatherer, s, blocks);
    if !ok {
      return;
    }
    counts := gatherer.counts;
    ghost var list := AllSymbols(ScanTokens(s, blocks));
    ScanSymbols(s, blocks);
    outcome := CodeTooLong;
    ok, m := MakeTables(counts, false, list);
    if !ok {
      return;
    }
    ServesAll(m, list);
    var enc := new PhuffEncoder(false, m.encoder, wide, []);
    ok := EncodeScan(enc, s, blocks);
    SentBytes(enc);
    ScanLength(m.encoder, ScanTokens(s, blocks));
    out := enc.writer.out;
    bytes := enc.past.bytes;
    outcome := Written;
    var trailer := [0xFF, marker] + follow;
    WholeStream(bytes, trailer);
    assert [] + ScanBytes(bytes) == ScanBytes(bytes);
    warnings := DecodeScan(wideDecoder, out + trailer, s, m.decoder, rows, planes, m.table, m.encoder, blocks, bytes, marker, follow);
  }
}
