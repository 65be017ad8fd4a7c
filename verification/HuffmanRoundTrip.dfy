// Sequential Huffman coding of a whole scan: both word sizes, the statistics pass, the tables made
// from it, the output pass, and decoding.
module HuffmanRoundTrip {
  import opened BitFields
  import opened BitStrings
  import opened ArithInterval
  import opened ByteSource
  import opened ArithScan
  import opened HuffmanMerge
  import opened HuffmanLimit
  import opened HuffmanGen
  import opened HuffmanTables
  import opened HuffmanDecode
  import opened HuffmanReader
  import opened HuffmanWriter
  import opened HuffmanBlock
  import opened HuffmanSegments
  import opened HuffmanStatistics
  import opened HuffmanOptimize
  import opened HuffmanMcu

  // ----- When nothing is lost in a flush -----

  // With words of 32 bits few enough bits are always pending.
  lemma {:induction false} NarrowPendings(s: Scan, tables: seq<Tables>, comps: seq<nat>, blocks: seq<Block>, i: nat, d: DcState, p: nat)
    requires SegmentOk(s, tables, comps, blocks) && Coded(s, tables, comps, blocks, i, d) && p <= 15
    ensures forall e :: e in Pendings(false, s, tables, comps, blocks, i, d, p) ==> e <= 15
    decreases |blocks| - i
  {
    hide BlockCoded, BlockPending, OrderOk, TablesOk, TablesMatch, Following, Current, Due;
    if i < |blocks| {
      var t := tables[comps[i]];
      var last := Current(s, d).last[comps[i]];
      var q := if Due(s, d) then 0 else p;
      BlockNarrow(s, t, blocks[i], last, q);
      NarrowPendings(s, tables, comps, blocks, i + 1, Following(s, d, comps[i], blocks[i]),
        BlockPending(false, s, t.dcEncoder, t.acEncoder, blocks[i], last, q));
    }
  }

  lemma BlockNarrow(s: Scan, t: Tables, block: Block, last: Coef, p: nat)
    requires TablesMatch(t) && BlockCoded(s, t.dcEncoder, t.acEncoder, block, last) && p <= 15
    ensures BlockPending(false, s, t.dcEncoder, t.acEncoder, block, last, p) <= 15
  {
    hide AcPending, DcPending, Encodes, Decodes, AcInRange, AcCoded;
    EncodesSizes(t.dcTable, t.dcEncoder);
    EncodesSizes(t.acTable, t.acEncoder);
    DcNarrowPending(t.dcEncoder, block[0] - last, p);
    NarrowPending(s, t.acEncoder, block, 1, 0, DcPending(false, t.dcEncoder, block[0] - last, p));
  }

  lemma FewPending(parts: seq<Bits>, ends: seq<nat>, w: nat)
    requires |parts| == |ends| && forall e :: e in ends ==> e + 7 <= w
    ensures forall j :: 0 <= j < |parts| ==> FlushOk(parts[j], ends[j], w)
  {
    forall j | 0 <= j < |parts|
      ensures FlushOk(parts[j], ends[j], w)
    {
      assert ends[j] in ends;
    }
  }

  lemma NarrowFlushes(s: Scan, tables: seq<Tables>, comps: seq<nat>, blocks: seq<Block>)
    requires SegmentOk(s, tables, comps, blocks) && Coded(s, tables, comps, blocks, 0, StartState(s, |tables|))
    ensures FlushesOk(false, s, tables, comps, blocks)
  {
    hide Coded, ScanBits, Pendings, SegmentOk, FlushOk;
    var start := StartState(s, |tables|);
    NarrowPendings(s, tables, comps, blocks, 0, start, 0);
    FewPending(ScanBits(s, tables, comps, blocks, 0, start), Pendings(false, s, tables, comps, blocks, 0, start, 0), 32);
  }

  // With words of 64 bits they are for blocks of values of at most 10 bits and tables with an
  // end-of-block code of at most 10 bits.
  lemma {:induction false} ModestPendings(s: Scan, tables: seq<Tables>, comps: seq<nat>, blocks: seq<Block>, i: nat, d: DcState, p: nat)
    requires SegmentOk(s, tables, comps, blocks) && Coded(s, tables, comps, blocks, i, d) && p <= 57
    requires forall x :: 0 <= x < |blocks| ==>
               EncoderShape(tables[comps[x]].acEncoder) && Modest(s, tables[comps[x]].acEncoder, blocks[x])
    ensures forall e :: e in Pendings(true, s, tables, comps, blocks, i, d, p) ==> e <= 57
    decreases |blocks| - i
  {
    hide BlockCoded, BlockPending, OrderOk, TablesOk, TablesMatch, Modest, EncoderShape, Following, Current, Due;
    if i < |blocks| {
      var t := tables[comps[i]];
      var last := Current(s, d).last[comps[i]];
      var q := if Due(s, d) then 0 else p;
      BlockModest(s, t, blocks[i], last, q);
      ModestPendings(s, tables, comps, blocks, i + 1, Following(s, d, comps[i], blocks[i]),
        BlockPending(true, s, t.dcEncoder, t.acEncoder, blocks[i], last, q));
    }
  }

  lemma BlockModest(s: Scan, t: Tables, block: Block, last: Coef, p: nat)
    requires TablesMatch(t) && BlockCoded(s, t.dcEncoder, t.acEncoder, block, last) && p <= 57 && Modest(s, t.acEncoder, block)
    ensures BlockPending(true, s, t.dcEncoder, t.acEncoder, block, last, p) <= 57
  {
    hide AcPending, DcPending, Encodes, Decodes, AcInRange, AcCoded, Modest;
    EncodesSizes(t.dcTable, t.dcEncoder);
    EncodesSizes(t.acTable, t.acEncoder);
    DcWidePending(t.dcEncoder, block[0] - last, p);
    ModestPending(s, t.acEncoder, block, 1, 0, DcPending(true, t.dcEncoder, block[0] - last, p));
  }

  lemma ModestFlushes(s: Scan, tables: seq<Tables>, comps: seq<nat>, blocks: seq<Block>)
    requires SegmentOk(s, tables, comps, blocks) && Coded(s, tables, comps, blocks, 0, StartState(s, |tables|))
    requires ScanOk(s) && |comps| == |blocks| && forall x :: 0 <= x < |comps| ==> comps[x] < |tables|
    requires forall x :: 0 <= x < |blocks| ==>
               EncoderShape(tables[comps[x]].acEncoder) && Modest(s, tables[comps[x]].acEncoder, blocks[x])
    ensures FlushesOk(true, s, tables, comps, blocks)
  {
    hide Coded, ScanBits, Pendings, SegmentOk, Modest, ScanOk, FlushOk;
    var start := StartState(s, |tables|);
    ModestPendings(s, tables, comps, blocks, 0, start, 0);
    FewPending(ScanBits(s, tables, comps, blocks, 0, start), Pendings(true, s, tables, comps, blocks, 0, start, 0), 64);
  }

  // ----- Both word sizes -----

  // The bits of a byte string determine it.
  lemma {:induction false} SameBytes(a: seq<Byte>, b: seq<Byte>)
    requires DataBits(a) == DataBits(b)
    ensures a == b
  {
    hide BitsOf;
    if a != [] {
      assert |b| == |a|;
      var n := |a| - 1;
      assert DataBits(a)[..8 * n] == DataBits(a[..n]) && DataBits(b)[..8 * n] == DataBits(b[..n]);
      assert DataBits(a)[8 * n..] == BitsOf(a[n], 8) && DataBits(b)[8 * n..] == BitsOf(b[n], 8);
      SameBytes(a[..n], b[..n]);
      EightBits(a[n]);
      EightBits(b[n]);
      NumOf(a[n], 8);
      NumOf(b[n], 8);
    }
  }

  // Only one byte string holds given bits.
  lemma HoldsOnce(a: seq<Byte>, b: seq<Byte>, bits: Bits)
    requires Holds(a, bits) && Holds(b, bits)
    ensures a == b
  {
    SameBytes(a, b);
  }

  // The segments of the encoder with words of 64 bits are those of the one with words of 32 bits
  // just if nothing is lost in its flushes.
  lemma SameBoth(parts: seq<Bits>, wideEnds: seq<nat>, ends: seq<nat>, wide: seq<seq<Byte>>, narrow: seq<seq<Byte>>)
    requires |wide| == |narrow| == |parts| && Finished(true, parts, wideEnds, wide) && Finished(false, parts, ends, narrow)
    requires forall j :: 0 <= j < |parts| ==> FlushOk(parts[j], ends[j], WordBits(false))
    ensures wide == narrow <==> forall j :: 0 <= j < |parts| ==> FlushOk(parts[j], wideEnds[j], WordBits(true))
  {
    hide Holds, FlushOk;
    if forall j :: 0 <= j < |parts| ==> FlushOk(parts[j], wideEnds[j], WordBits(true)) {
      forall j | 0 <= j < |parts|
        ensures wide[j] == narrow[j]
      {
        HoldsOnce(wide[j], narrow[j], parts[j]);
      }
    }
  }

  // The segments of the encoder with words of 64 bits hold the scan's bits just then, too.
  lemma WideSent(parts: seq<Bits>, ends: seq<nat>, segments: seq<seq<Byte>>)
    requires |segments| == |parts| && Finished(true, parts, ends, segments)
    ensures Sent(parts, segments) <==> forall j :: 0 <= j < |parts| ==> FlushOk(parts[j], ends[j], WordBits(true))
  {
    hide Holds, FlushOk, Padded;
    forall j | 0 <= j < |parts|
      ensures Holds(segments[j], parts[j]) <==> FlushOk(parts[j], ends[j], WordBits(true))
    {
      assert Flushed(segments[j], parts[j], ends[j], WordBits(true));
    }
  }

  // Both encoders write the same file just if the one with words of 64 bits loses nothing, and just then
  // its segments hold the bits of the scan. In any case they are what its flushes make of them.
  method EncodeBoth(s: Scan, tables: seq<Tables>, comps: seq<nat>, blocks: seq<Block>, mcus: nat)
    returns (wideOut: seq<Byte>, out: seq<Byte>, ghost wideSegments: seq<seq<Byte>>, ghost segments: seq<seq<Byte>>)
    requires SegmentOk(s, tables, comps, blocks) && Coded(s, tables, comps, blocks, 0, StartState(s, |tables|))
    requires |s.membership| > 0 && |blocks| == BlocksIn(|s.membership|, mcus)
    ensures wideOut == out <==> FlushesOk(true, s, tables, comps, blocks)
    ensures segments != [] && out == ScanBytes(segments) && wideSegments != [] && wideOut == ScanBytes(wideSegments)
    ensures var start := StartState(s, |tables|);
            var parts := ScanBits(s, tables, comps, blocks, 0, start);
            && Sent(parts, segments) && (Sent(parts, wideSegments) <==> FlushesOk(true, s, tables, comps, blocks))
            && |wideSegments| == |parts| && Finished(true, parts, Pendings(true, s, tables, comps, blocks, 0, start, 0), wideSegments)
  {
    hide SegmentOk, Coded, ScanBits, Pendings, BlocksIn, Finished, ScanBytes, FlushOk, Sent;
    wideOut, wideSegments := EncodeScan(true, s, tables, comps, blocks, mcus, []);
    out, segments := EncodeScan(false, s, tables, comps, blocks, mcus, []);
    assert [] + ScanBytes(segments) == ScanBytes(segments) && [] + ScanBytes(wideSegments) == ScanBytes(wideSegments);
    NarrowFlushes(s, tables, comps, blocks);
    ghost var start := StartState(s, |tables|);
    ghost var parts := ScanBits(s, tables, comps, blocks, 0, start);
    SameBoth(parts, Pendings(true, s, tables, comps, blocks, 0, start, 0), Pendings(false, s, tables, comps, blocks, 0, start, 0),
      wideSegments, segments);
    SentNarrow(parts, Pendings(false, s, tables, comps, blocks, 0, start, 0), segments);
    WideSent(parts, Pendings(true, s, tables, comps, blocks, 0, start, 0), wideSegments);
    if wideOut == out {
      SameSegments(wideSegments, segments);
    }
  }

  lemma SentNarrow(parts: seq<Bits>, ends: seq<nat>, segments: seq<seq<Byte>>)
    requires |segments| == |parts| == |ends| && Finished(false, parts, ends, segments)
    requires forall j :: 0 <= j < |parts| ==> FlushOk(parts[j], ends[j], WordBits(false))
    ensures Sent(parts, segments)
  {
    hide Holds, FlushOk;
  }

  // Coding a scan with words of either size; intact tells whether the segments hold its bits: just if no
  // flush has lost any.
  method EncodeEither(s: Scan, tables: seq<Tables>, comps: seq<nat>, blocks: seq<Block>, mcus: nat, wideEncoder: bool)
    returns (out: seq<Byte>, intact: bool, ghost segments: seq<seq<Byte>>)
    requires SegmentOk(s, tables, comps, blocks) && Coded(s, tables, comps, blocks, 0, StartState(s, |tables|))
    requires |s.membership| > 0 && |blocks| == BlocksIn(|s.membership|, mcus)
    ensures segments != [] && out == ScanBytes(segments)
    ensures intact <==> (wideEncoder ==> FlushesOk(true, s, tables, comps, blocks))
    ensures intact <==> Sent(ScanBits(s, tables, comps, blocks, 0, StartState(s, |tables|)), segments)
  {
    hide SegmentOk, Coded, ScanBits, BlocksIn, ScanBytes, Sent, FlushesOk, Finished;
    var wideOut, narrowOut;
    ghost var wideSegments, narrowSegments;
    wideOut, narrowOut, wideSegments, narrowSegments := EncodeBoth(s, tables, comps, blocks, mcus);
    out, segments := if wideEncoder then wideOut else narrowOut, if wideEncoder then wideSegments else narrowSegments;
    intact := out == narrowOut;
  }

  // Decoding intact segments, in front of any marker, gives back every block, however the source delivers
  // its bytes.
  method DecodeBytes(s: Scan, decoders: seq<Decoders>, comps: seq<nat>, rows: seq<nat>, planes: array<Block>, available: seq<nat>,
                     out: seq<Byte>, wideDecoder: bool, marker: Byte, follow: seq<Byte>, ghost tables: seq<Tables>,
                     ghost blocks: seq<Block>, ghost segments: seq<seq<Byte>>)
    returns (warnings: nat)
    requires DecodersFor(tables) == decoders && segments != [] && out == ScanBytes(segments)
    requires SegmentOk(s, tables, comps, blocks) && Coded(s, tables, comps, blocks, 0, StartState(s, |tables|))
    requires Sent(ScanBits(s, tables, comps, blocks, 0, StartState(s, |tables|)), segments)
    requires |s.membership| > 0 && |comps| == |blocks| == BlocksIn(|s.membership|, |available|)
    requires RowsCleared(s, blocks, rows, 0, |blocks|, planes[..]) && marker != 0 && marker != 0xFF
    modifies planes
    ensures warnings == 0 && Decoded(blocks, rows, 0, |blocks|, old(planes[..]), planes[..])
  {
    hide SegmentOk, Coded, ScanBits, BlocksIn, ScanBytes, Sent, RowsCleared, Decoded, Remaining, DecodersFor;
    var trailer := [0xFF, marker] + follow;
    WholeStream(segments, trailer);
    var unread, rest;
    warnings, unread, rest :=
      DecodeScan(wideDecoder, out + trailer, available, s, decoders, comps, rows, planes, tables, blocks, segments, marker, follow);
  }

  // Coding a scan with any tables that have code words for it, with words of either size, and decoding it
  // gives back every block, if the segments are intact. Otherwise it is left open what a decoder makes of
  // them.
  method CodeAndDecode(s: Scan, tables: seq<Tables>, comps: seq<nat>, blocks: seq<Block>, rows: seq<nat>, planes: array<Block>,
                       available: seq<nat>, wideEncoder: bool, wideDecoder: bool, marker: Byte, follow: seq<Byte>)
    returns (out: seq<Byte>, intact: bool, warnings: nat)
    requires SegmentOk(s, tables, comps, blocks) && Coded(s, tables, comps, blocks, 0, StartState(s, |tables|))
    requires |s.membership| > 0 && |comps| == |blocks| == BlocksIn(|s.membership|, |available|)
    requires RowsCleared(s, blocks, rows, 0, |blocks|, planes[..]) && marker != 0 && marker != 0xFF
    modifies planes
    ensures intact <==> (wideEncoder ==> FlushesOk(true, s, tables, comps, blocks))
    ensures intact ==> warnings == 0 && Decoded(blocks, rows, 0, |blocks|, old(planes[..]), planes[..])
    ensures !intact ==> planes[..] == old(planes[..])
  {
    hide SegmentOk, Coded, ScanBits, BlocksIn, ScanBytes, Sent, RowsCleared, Decoded, FlushesOk;
    ghost var segments;
    out, intact, segments := EncodeEither(s, tables, comps, blocks, |available|, wideEncoder);
    warnings := 0;
    if intact {
      warnings := DecodeBytes(s, DecodersFor(tables), comps, rows, planes, available, out, wideDecoder, marker, follow, tables, blocks,
                              segments);
    }
  }

  // ----- Optimized tables -----

  // What the statistics pass has counted, by table number
  ghost predicate Counts(s: Scan, comps: seq<nat>, blocks: seq<Block>, dcCounts: seq<seq<nat>>, acCounts: seq<seq<nat>>) {
    && BlocksOk(s, comps, blocks) && AllAcceptable(s, comps, blocks, 0, StartState(s, |s.comps|))
    && |dcCounts| == |acCounts| == NUM_HUFF_TBLS
    && forall t :: 0 <= t < NUM_HUFF_TBLS ==>
         && dcCounts[t] == Tally(NoCounts(), DcList(s, comps, blocks, t, 0, StartState(s, |s.comps|)))
         && acCounts[t] == Tally(NoCounts(), AcList(s, comps, blocks, t, 0, StartState(s, |s.comps|)))
  }

  // The counts determine the length of the scan in bits.
  lemma LengthFromCounts(s: Scan, tables: seq<Tables>, comps: seq<nat>, blocks: seq<Block>, dc: seq<EncoderTable>,
                         ac: seq<EncoderTable>, dcCounts: seq<seq<nat>>, acCounts: seq<seq<nat>>)
    requires SegmentOk(s, tables, comps, blocks) && Coded(s, tables, comps, blocks, 0, StartState(s, |tables|))
    requires Counts(s, comps, blocks, dcCounts, acCounts) && ByNumber(s, tables, dc, ac)
    ensures forall t :: 0 <= t < NUM_HUFF_TBLS ==> |dcCounts[t]| == |acCounts[t]| == SYMBOLS + 1
    ensures BitsLength(ScanBits(s, tables, comps, blocks, 0, StartState(s, |tables|)))
            == CountedBits(dcCounts, acCounts, dc, ac, NUM_HUFF_TBLS)
  {
    hide SegmentOk, Coded, ScanBits, DcList, AcList, AllAcceptable, Tally, NoCounts, ListsLength, CountedBits, BitsLength, ScanOk;
    var start := StartState(s, |tables|);
    ScanLength(s, tables, dc, ac, comps, blocks, 0, start);
    ListsByCounts(s, dc, ac, comps, blocks, start, dcCounts, acCounts, NUM_HUFF_TBLS);
  }

  // Tables made for the lists have code words for the whole scan.
  lemma TablesCover(s: Scan, tables: seq<Tables>, comps: seq<nat>, blocks: seq<Block>)
    requires BlocksOk(s, comps, blocks) && AllAcceptable(s, comps, blocks, 0, StartState(s, |s.comps|)) && |tables| == |s.comps|
    requires forall c :: 0 <= c < |tables| ==>
      Serve(tables[c], DcList(s, comps, blocks, s.comps[c].dcTbl, 0, StartState(s, |s.comps|)),
        AcList(s, comps, blocks, s.comps[c].acTbl, 0, StartState(s, |s.comps|)))
    ensures SegmentOk(s, tables, comps, blocks) && Coded(s, tables, comps, blocks, 0, StartState(s, |tables|))
  {
    hide ScanOk, Acceptable, DcList, AcList, AllAcceptable, Serve, Covered, SegmentOk, Coded;
    TablesServe(s, tables, comps, blocks);
    CoveredCoded(s, tables, comps, blocks, 0, StartState(s, |s.comps|));
  }

  // What a component's lists must be for the table generator
  lemma AllListsFit(s: Scan, comps: seq<nat>, blocks: seq<Block>, dcLists: seq<seq<UInt8>>, acLists: seq<seq<UInt8>>)
    requires BlocksOk(s, comps, blocks) && AllAcceptable(s, comps, blocks, 0, StartState(s, |s.comps|))
    requires 63 * |blocks| <= SEARCH_LIMIT && forall c :: 0 <= c < |s.comps| ==> c in comps
    requires |dcLists| == |acLists| == NUM_HUFF_TBLS
    requires forall t :: 0 <= t < NUM_HUFF_TBLS ==>
               && dcLists[t] == DcList(s, comps, blocks, t, 0, StartState(s, |s.comps|))
               && acLists[t] == AcList(s, comps, blocks, t, 0, StartState(s, |s.comps|))
    ensures forall c :: 0 <= c < |s.comps| ==>
              && s.comps[c].dcTbl < NUM_HUFF_TBLS && s.comps[c].acTbl < NUM_HUFF_TBLS
              && ListOk(dcLists[s.comps[c].dcTbl], true) && ListOk(acLists[s.comps[c].acTbl], false)
    ensures forall t :: 0 <= t < NUM_HUFF_TBLS ==> |dcLists[t]| <= 63 * |blocks| && |acLists[t]| <= 63 * |blocks|
  {
    hide ScanOk, DcList, AcList, AllAcceptable, ListOk;
    forall c | 0 <= c < |s.comps|
      ensures ListOk(dcLists[s.comps[c].dcTbl], true) && ListOk(acLists[s.comps[c].acTbl], false)
    {
      ListsFit(s, comps, blocks, c);
    }
  }

  // The codes for the end of a block have at most 10 bits.
  predicate ShortEnds(tables: seq<Tables>) {
    forall c :: 0 <= c < |tables| ==> EncoderShape(tables[c].acEncoder) && tables[c].acEncoder.ehufsi[0] <= 10
  }

  // Then no flush loses bits of blocks that the statistics pass accepts.
  lemma ShortEndsFlush(s: Scan, tables: seq<Tables>, comps: seq<nat>, blocks: seq<Block>)
    requires SegmentOk(s, tables, comps, blocks) && Coded(s, tables, comps, blocks, 0, StartState(s, |tables|))
    requires BlocksOk(s, comps, blocks) && |tables| == |s.comps| && ShortEnds(tables)
    requires AllAcceptable(s, comps, blocks, 0, StartState(s, |s.comps|))
    ensures FlushesOk(true, s, tables, comps, blocks)
  {
    hide Coded, FlushesOk, SegmentOk, ScanOk, NBits, AtZigzag;
    AcceptableValues(s, comps, blocks, 0, StartState(s, |s.comps|));
    ModestFlushes(s, tables, comps, blocks);
  }

  lemma {:induction false} AcceptableValues(s: Scan, comps: seq<nat>, blocks: seq<Block>, i: nat, d: DcState)
    requires BlocksOk(s, comps, blocks) && |d.last| == |s.comps| && i <= |blocks| && AllAcceptable(s, comps, blocks, i, d)
    ensures forall x, k :: i <= x < |blocks| && 1 <= k < DCTSIZE2 ==> NBits(Abs(AtZigzag(s, blocks[x], k))) <= MAX_COEF_BITS
    decreases |blocks| - i
  {
    hide ScanOk, NBits, AtZigzag;
    if i < |blocks| {
      AcceptableValues(s, comps, blocks, i + 1, Following(s, d, comps[i], blocks[i]));
    }
  }

  // The statistics pass, the tables made from its counts, and the output pass with them. Blocks with a
  // coefficient of too many bits are refused, and nothing else is unless there are so many symbols that a
  // code could be too long; otherwise the segments hold the blocks, unless a flush has lost bits, and
  // their length is what the counts say.
  method EncodeOptimized(s: Scan, comps: seq<nat>, blocks: seq<Block>, mcus: nat, wideEncoder: bool)
    returns (outcome: Outcome, intact: bool, out: seq<Byte>, tables: seq<Tables>, dc: seq<EncoderTable>, ac: seq<EncoderTable>,
             dcCounts: seq<seq<nat>>, acCounts: seq<seq<nat>>, ghost segments: seq<seq<Byte>>)
    requires BlocksOk(s, comps, blocks) && 63 * |blocks| <= SEARCH_LIMIT && forall c :: 0 <= c < |s.comps| ==> c in comps
    requires |s.membership| > 0 && |blocks| == BlocksIn(|s.membership|, mcus)
    ensures outcome == BadCoefficient <==> !AllAcceptable(s, comps, blocks, 0, StartState(s, |s.comps|))
    ensures 63 * |blocks| < 9227464 ==> outcome != CodeTooLong
    ensures outcome == Written ==>
              && SegmentOk(s, tables, comps, blocks) && Coded(s, tables, comps, blocks, 0, StartState(s, |tables|))
              && (intact <==> (wideEncoder ==> FlushesOk(true, s, tables, comps, blocks)))
              && (intact <==> Sent(ScanBits(s, tables, comps, blocks, 0, StartState(s, |tables|)), segments))
              && segments != [] && out == ScanBytes(segments)
    ensures outcome == Written && ShortEnds(tables) ==> intact
    ensures outcome == Written ==> Shared(s, tables)
    ensures outcome == Written ==> Counts(s, comps, blocks, dcCounts, acCounts) && ByNumber(s, tables, dc, ac)
    ensures outcome == Written ==> |tables| == |s.comps| && forall c :: 0 <= c < |s.comps| ==>
              Serve(tables[c], DcList(s, comps, blocks, s.comps[c].dcTbl, 0, StartState(s, |s.comps|)),
                AcList(s, comps, blocks, s.comps[c].acTbl, 0, StartState(s, |s.comps|)))
    ensures outcome == Written ==>
              && (forall t :: 0 <= t < NUM_HUFF_TBLS ==> |dcCounts[t]| == |acCounts[t]| == SYMBOLS + 1)
              && BitsLength(ScanBits(s, tables, comps, blocks, 0, StartState(s, |tables|)))
                 == CountedBits(dcCounts, acCounts, dc, ac, NUM_HUFF_TBLS)
  {
    hide ScanOk, DcList, AcList, AllAcceptable, Tally, NoCounts, Serve, SegmentOk, Coded, ScanBits, ListOk, FlushesOk, ByNumber,
      Shared, BitsLength, CountedBits, Sent, ScanBytes;
    outcome, intact, out, tables, segments := BadCoefficient, false, [], [], [];
    dc, ac, dcCounts, acCounts := [], [], [], [];
    var st := new SymbolCounts();
    var ok := Gather(st, s, comps, blocks, mcus);
    if !ok {
      return;
    }
    ghost var start := StartState(s, |s.comps|);
    ghost var dcLists := seq(NUM_HUFF_TBLS, t requires 0 <= t < NUM_HUFF_TBLS => DcList(s, comps, blocks, t, 0, start));
    ghost var acLists := seq(NUM_HUFF_TBLS, t requires 0 <= t < NUM_HUFF_TBLS => AcList(s, comps, blocks, t, 0, start));
    AllListsFit(s, comps, blocks, dcLists, acLists);
    dcCounts, acCounts := st.dcCounts, st.acCounts;
    outcome := CodeTooLong;
    ok, tables, dc, ac := FinishGather(st, s, dcLists, acLists);
    if !ok {
      return;
    }
    SameNumber(s, tables, dc, ac);
    TablesCover(s, tables, comps, blocks);
    LengthFromCounts(s, tables, comps, blocks, dc, ac, dcCounts, acCounts);
    if ShortEnds(tables) {
      ShortEndsFlush(s, tables, comps, blocks);
    }
    out, intact, segments := EncodeEither(s, tables, comps, blocks, mcus, wideEncoder);
    outcome := Written;
  }

  // ... and decoding, which returns all blocks if the segments are intact
  method OptimizedRoundTrip(s: Scan, comps: seq<nat>, blocks: seq<Block>, rows: seq<nat>, planes: array<Block>,
                            available: seq<nat>, wideEncoder: bool, wideDecoder: bool, marker: Byte, follow: seq<Byte>)
    returns (outcome: Outcome, intact: bool, out: seq<Byte>, warnings: nat, tables: seq<Tables>,
             dc: seq<EncoderTable>, ac: seq<EncoderTable>, dcCounts: seq<seq<nat>>, acCounts: seq<seq<nat>>)
    requires BlocksOk(s, comps, blocks) && 63 * |blocks| <= SEARCH_LIMIT && forall c :: 0 <= c < |s.comps| ==> c in comps
    requires |s.membership| > 0 && |blocks| == BlocksIn(|s.membership|, |available|)
    requires RowsCleared(s, blocks, rows, 0, |blocks|, planes[..]) && marker != 0 && marker != 0xFF
    modifies planes
    ensures outcome == BadCoefficient <==> !AllAcceptable(s, comps, blocks, 0, StartState(s, |s.comps|))
    ensures 63 * |blocks| < 9227464 ==> outcome != CodeTooLong
    ensures outcome != Written || !intact ==> planes[..] == old(planes[..])
    ensures outcome == Written && intact ==> warnings == 0 && Decoded(blocks, rows, 0, |blocks|, old(planes[..]), planes[..])
    ensures outcome == Written ==> Coded(s, tables, comps, blocks, 0, StartState(s, |tables|))
    ensures outcome == Written ==> (intact <==> (wideEncoder ==> FlushesOk(true, s, tables, comps, blocks)))
    ensures outcome == Written && ShortEnds(tables) ==> intact
    ensures outcome == Written ==> Counts(s, comps, blocks, dcCounts, acCounts) && ByNumber(s, tables, dc, ac)
    ensures outcome == Written ==> |tables| == |s.comps| && forall c :: 0 <= c < |s.comps| ==>
              Serve(tables[c], DcList(s, comps, blocks, s.comps[c].dcTbl, 0, StartState(s, |s.comps|)),
                AcList(s, comps, blocks, s.comps[c].acTbl, 0, StartState(s, |s.comps|)))
    ensures outcome == Written ==>
              && (forall t :: 0 <= t < NUM_HUFF_TBLS ==> |dcCounts[t]| == |acCounts[t]| == SYMBOLS + 1)
              && BitsLength(ScanBits(s, tables, comps, blocks, 0, StartState(s, |tables|)))
                 == CountedBits(dcCounts, acCounts, dc, ac, NUM_HUFF_TBLS)
  {
    hide BlocksOk, DcList, AcList, AllAcceptable, RowsCleared, Decoded, Serve, SegmentOk, Coded, ScanBits, FlushesOk, ByNumber,
      Shared, BitsLength, CountedBits, Sent, ScanBytes, Counts, ShortEnds;
    warnings := 0;
    ghost var segments;
    outcome, intact, out, tables, dc, ac, dcCounts, acCounts, segments := EncodeOptimized(s, comps, blocks, |available|, wideEncoder);
    if outcome == Written && intact {
      SizesAgree(s, comps, blocks);
      warnings := DecodeBytes(s, DecodersFor(tables), comps, rows, planes, available, out, wideDecoder, marker, follow, tables, blocks,
                              segments);
    }
  }

  lemma SizesAgree(s: Scan, comps: seq<nat>, blocks: seq<Block>)
    requires BlocksOk(s, comps, blocks)
    ensures |comps| == |blocks|
  {
  }

  lemma SameNumber(s: Scan, tables: seq<Tables>, dc: seq<EncoderTable>, ac: seq<EncoderTable>)
    requires ByNumber(s, tables, dc, ac)
    ensures |tables| == |s.comps|
  {
  }
}
