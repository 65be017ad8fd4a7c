// Whole progressive Huffman scans of DC coefficients: decoding (jdphuff.c), and all passes together.
module PhuffDcScan {
  import opened BitFields
  import opened BitStrings
  import opened ArithInterval
  import opened ByteSource
  import opened ArithScan
  import opened PointTransform
  import opened HuffmanMerge
  import opened HuffmanLimit
  import opened HuffmanGen
  import opened HuffmanTables
  import opened HuffmanDecode
  import opened HuffmanWriter
  import opened HuffmanReader
  import opened HuffmanSymbol
  import opened HuffmanBlock
  import opened HuffmanSegments
  import opened HuffmanStatistics
  import opened HuffmanOptimize
  import opened PhuffDc
  import PhuffScan

  // ----- Decoding -----

  // What both sides derive from one table belongs together.
  ghost predicate Matches(m: Made, e: EncoderTable) {
    Encodes(m.table, e) && Decodes(m.table, m.decoder) && SymbolsUpTo(m.table, 15)
  }

  // The components of a first scan have such tables.
  ghost predicate TablesFit(s: Scan, made: seq<Made>, tables: seq<EncoderTable>) {
    && |made| == |tables| == NUM_HUFF_TBLS
    && (s.Ah == 0 ==> forall c :: 0 <= c < |s.comps| && s.comps[c].dcTbl < NUM_HUFF_TBLS ==>
                        Matches(made[s.comps[c].dcTbl], tables[s.comps[c].dcTbl]))
  }

  // The items of a difference are its code word and its bits.
  lemma DifferenceItems(tables: seq<EncoderTable>, tbl: TableNumber, diff: int, rest: seq<Item>, pad: Bits)
    requires EncodersOk(tables) && InRange(diff)
    ensures NBits(Abs(diff)) <= 15
    ensures var items := [Code(tbl, NBits(Abs(diff)))] + PlainItems(BitsOf(Extra(diff), NBits(Abs(diff))));
            ItemBits(tables, items + rest, pad) == DcBits(tables[tbl], diff, ItemBits(tables, rest, pad))
  {
    hide BitsOf, NBits, Extra, EncodersOk;
    RangeBits(diff);
    var n, bits := NBits(Abs(diff)), BitsOf(Extra(diff), NBits(Abs(diff)));
    var tail := ItemBits(tables, rest, pad);
    var all := [Code(tbl, n)] + PlainItems(bits) + rest;
    assert all[1..] == PlainItems(bits) + rest;
    ItemBitsConcat(tables, PlainItems(bits), rest, pad);
    PlainBits(tables, bits, tail);
  }

  // The difference of a first scan
  method DecodeDifference(r: BitReader, m: Made, ghost tables: seq<EncoderTable>, ghost tbl: TableNumber, ghost diff: int,
                          ghost rest: seq<Item>, ghost pad: Bits)
    returns (diff': int)
    requires r.Valid() && EncodersOk(tables) && Matches(m, tables[tbl]) && NBits(Abs(diff)) <= MAX_COEF_BITS + 1
    requires var items := [Code(tbl, NBits(Abs(diff)))] + PlainItems(BitsOf(Extra(diff), NBits(Abs(diff))));
             ItemsCoded(tables, items) && r.Ahead() == ItemBits(tables, items + rest, pad)
    modifies r
    ensures r.Valid() && r.Ahead() == ItemBits(tables, rest, pad) && Calm(r, old(r.warnings), old(r.insufficientData))
    ensures diff' == diff
  {
    hide BitReader.Valid, BitReader.Ahead, Decodes, NBits, Extra, BitsOf, DcBits, ItemBits, PlainItems, ItemsCoded;
    FewBits(diff);
    DifferenceItems(tables, tbl, diff, rest, pad);
    CodedFirst(tables, tbl, diff);
    LegalTable(m.table, tables[tbl]);
    hide Encodes, EncodersOk;
    diff' := DecodeDcDifference(r, m.decoder, m.table, tables[tbl], diff, ItemBits(tables, rest, pad));
  }

  // The bit of a refinement scan
  method DecodeBit(r: BitReader, ghost tables: seq<EncoderTable>, ghost bit: bool, ghost rest: seq<Item>, ghost pad: Bits)
    returns (v: nat)
    requires r.Valid() && EncodersOk(tables) && r.Ahead() == ItemBits(tables, [Plain(bit)] + rest, pad)
    modifies r
    ensures r.Valid() && r.Ahead() == ItemBits(tables, rest, pad) && Calm(r, old(r.warnings), old(r.insufficientData))
    ensures v == if bit then 1 else 0
  {
    hide BitReader.Valid, BitReader.Ahead, EncodersOk, ItemBits, Num;
    PlainFirst(tables, bit, rest, pad);
    ghost var ahead := r.Ahead();
    assert ahead[..1] == [bit] && ahead[1..] == ItemBits(tables, rest, pad);
    ghost var bits;
    v, bits := TakeBits(r, 1);
    OneBit(bit);
  }

  // One block into row b
  method DecodeBlock(r: BitReader, s: Scan, m: Made, planes: array<Block>, b: nat, lastDc: int, ghost tables: seq<EncoderTable>,
                     ghost tbl: TableNumber, ghost block: Block, ghost last: Coef, ghost rest: seq<Item>, ghost pad: Bits)
    returns (lastDc': int)
    requires r.Valid() && ScanOk(s) && s.progressive && s.Ss == 0 && b < planes.Length && EncodersOk(tables)
    requires s.Ah == 0 ==> Matches(m, tables[tbl]) && lastDc == last && DcAccepted(s, block, last)
    requires ItemsCoded(tables, BlockItems(s, tbl, block, last))
    requires r.Ahead() == ItemBits(tables, BlockItems(s, tbl, block, last) + rest, pad)
    modifies r, planes
    ensures r.Valid() && r.Ahead() == ItemBits(tables, rest, pad) && Calm(r, old(r.warnings), old(r.insufficientData))
    ensures planes[..] == old(planes[..])[b := BlockResult(s, block, old(planes[b]))]
    ensures lastDc' == if s.Ah == 0 then DcLevel(s, block) else lastDc
  {
    hide BitReader.Valid, BitReader.Ahead, Matches, NBits, Extra, BitsOf, OrderOk, TablesOk, EncodersOk, Shr, ItemBits, ItemsCoded,
      PlainItems, SetBit, Wrap16;
    lastDc' := lastDc;
    if s.Ah == 0 {
      var diff := DecodeDifference(r, m, tables, tbl, DcLevel(s, block) - last, rest, pad);
      lastDc' := lastDc + diff;
      DcStored(s, block);
      planes[b] := planes[b][0 := Wrap16(Shl(lastDc', s.Al))];
    } else {
      var v := DecodeBit(r, tables, Shr(block[0], s.Al) % 2 == 1, rest, pad);
      if v == 1 {
        planes[b] := planes[b][0 := Wrap16(SetBit(planes[b][0], s.Al))];
      }
    }
  }

  lemma PlainFirst(tables: seq<EncoderTable>, bit: bool, rest: seq<Item>, pad: Bits)
    requires EncodersOk(tables)
    ensures ItemBits(tables, [Plain(bit)] + rest, pad) == [bit] + ItemBits(tables, rest, pad)
  {
    assert ([Plain(bit)] + rest)[1..] == rest;
  }

  lemma OneBit(bit: bool)
    ensures Num([bit]) == if bit then 1 else 0
  {
  }

  lemma CodedFirst(tables: seq<EncoderTable>, tbl: TableNumber, diff: int)
    requires EncodersOk(tables) && InRange(diff) && NBits(Abs(diff)) <= 15
    requires ItemsCoded(tables, [Code(tbl, NBits(Abs(diff)))] + PlainItems(BitsOf(Extra(diff), NBits(Abs(diff)))))
    ensures HasDcCode(tables[tbl], diff)
  {
    hide BitsOf, NBits, Extra, PlainItems;
    var items := [Code(tbl, NBits(Abs(diff)))] + PlainItems(BitsOf(Extra(diff), NBits(Abs(diff))));
    assert items[0].Code?;
  }

  // The stored value is that of the point transform.
  lemma DcStored(s: Scan, block: Block)
    requires ScanOk(s)
    ensures Wrap16(Shl(DcLevel(s, block), s.Al)) == DcPoint(block[0], s.Al)
  {
    hide OrderOk, TablesOk;
  }

  // The segments' bytes hold their items, all of whose symbols have code words.
  ghost predicate Sent(tables: seq<EncoderTable>, parts: seq<seq<Item>>, bytes: seq<seq<Byte>>) {
    && EncodersOk(tables) && |bytes| == |parts|
    && forall j :: 0 <= j < |parts| ==> ItemsCoded(tables, parts[j]) && Holds(bytes[j], ItemBits(tables, parts[j], []))
  }

  // Block i is next, in segment j, and d is the state with which it is coded.
  ghost predicate BlockNext(r: BitReader, tables: seq<EncoderTable>, s: Scan, comps: seq<nat>, blocks: seq<Block>, bytes: seq<seq<Byte>>,
                            marker: Byte, follow: seq<Byte>, j: nat, i: nat, d: DcState, pad: Bits)
    reads r
  {
    && BlocksFit(s, comps, blocks) && |d.last| == |s.comps| && i <= |blocks| && EncodersOk(tables)
    && j < |bytes| && |pad| <= 7 && r.segment == SegmentAt(bytes, j, marker, follow)
    && r.warnings == r.discardedBytes == 0 && !r.insufficientData && AllAccepted(s, comps, blocks, i, d)
    && var rest, parts := Parts(s, comps, blocks, i, d), Parts(s, comps, blocks, 0, StartState(s, |s.comps|));
       && ItemsCoded(tables, rest[0]) && r.Ahead() == ItemBits(tables, rest[0], pad)
       && |parts| == |bytes| && rest[1..] == parts[j + 1..]
  }

  // A reader at the start of segment j, which begins with block i
  lemma EnterBlock(r: BitReader, tables: seq<EncoderTable>, s: Scan, comps: seq<nat>, blocks: seq<Block>, bytes: seq<seq<Byte>>,
                   marker: Byte, follow: seq<Byte>, j: nat, i: nat, d: DcState)
    returns (pad: Bits)
    requires BlocksFit(s, comps, blocks) && |d.last| == |s.comps| && i <= |blocks| && AllAccepted(s, comps, blocks, i, d)
    requires Sent(tables, Parts(s, comps, blocks, 0, StartState(s, |s.comps|)), bytes)
    requires j < |bytes| && r.segment == SegmentAt(bytes, j, marker, follow) && r.Ahead() == DataBits(r.segment.data)
    requires r.warnings == r.discardedBytes == 0 && !r.insufficientData
    requires Parts(s, comps, blocks, i, d) == Parts(s, comps, blocks, 0, StartState(s, |s.comps|))[j..]
    ensures BlockNext(r, tables, s, comps, blocks, bytes, marker, follow, j, i, d, pad)
  {
    hide BitReader.Ahead, DataBits, Remaining, Holds, Parts, AllAccepted, ItemBits, ItemsCoded, EncodersOk, ScanOk;
    var parts := Parts(s, comps, blocks, 0, StartState(s, |s.comps|));
    pad := HeldBits(bytes[j], ItemBits(tables, parts[j], []));
    assert Parts(s, comps, blocks, i, d)[0] == parts[j];
    ItemTail(tables, parts[j], pad);
  }

  // Behind a block the next one follows.
  lemma NextBlock(r: BitReader, tables: seq<EncoderTable>, s: Scan, comps: seq<nat>, blocks: seq<Block>, bytes: seq<seq<Byte>>,
                  marker: Byte, follow: seq<Byte>, j: nat, i: nat, d: DcState, pad: Bits)
    returns (rest: seq<Item>)
    requires BlockNext(r, tables, s, comps, blocks, bytes, marker, follow, j, i, d, pad) && i < |blocks| && !Due(s, d)
    ensures |comps| == |blocks| && comps[i] < |s.comps| == |d.last| && s.comps[comps[i]].dcTbl < NUM_HUFF_TBLS
    ensures DcAccepted(s, blocks[i], d.last[comps[i]])
    ensures EncodersOk(tables) && ScanOk(s) && s.progressive && s.Ss == 0 && BlocksFit(s, comps, blocks)
    ensures var next, items := Following(s, d, comps[i], Leveled(s, blocks[i])),
                               BlockItems(s, s.comps[comps[i]].dcTbl, blocks[i], d.last[comps[i]]);
            && rest == Parts(s, comps, blocks, i + 1, next)[0] && ItemsCoded(tables, items) && ItemsCoded(tables, rest)
            && r.Ahead() == ItemBits(tables, items + rest, pad) && AllAccepted(s, comps, blocks, i + 1, next)
            && Parts(s, comps, blocks, i + 1, next)[1..] == Parts(s, comps, blocks, 0, StartState(s, |s.comps|))[j + 1..]
    ensures j < |bytes| == |Parts(s, comps, blocks, 0, StartState(s, |s.comps|))| && |pad| <= 7
    ensures r.segment == SegmentAt(bytes, j, marker, follow) && r.warnings == r.discardedBytes == 0 && !r.insufficientData
  {
    hide BitReader.Ahead, ItemBits, ItemsCoded, EncodersOk, ScanOk, BlockItems, DcAccepted, Leveled, SegmentAt;
    var next, items := Following(s, d, comps[i], Leveled(s, blocks[i])),
                       BlockItems(s, s.comps[comps[i]].dcTbl, blocks[i], d.last[comps[i]]);
    rest := Parts(s, comps, blocks, i + 1, next)[0];
    assert Parts(s, comps, blocks, i, d) == [items + rest] + Parts(s, comps, blocks, i + 1, next)[1..];
    CodedConcat(tables, items, rest);
  }

  lemma BlockRead(r: BitReader, tables: seq<EncoderTable>, s: Scan, comps: seq<nat>, blocks: seq<Block>, bytes: seq<seq<Byte>>,
                  marker: Byte, follow: seq<Byte>, j: nat, i: nat, d: DcState, pad: Bits, rest: seq<Item>)
    requires BlocksFit(s, comps, blocks) && |d.last| == |s.comps| && i < |blocks| && EncodersOk(tables)
    requires j < |bytes| == |Parts(s, comps, blocks, 0, StartState(s, |s.comps|))| && |pad| <= 7
    requires r.segment == SegmentAt(bytes, j, marker, follow) && r.warnings == r.discardedBytes == 0 && !r.insufficientData
    requires var next := Following(s, d, comps[i], Leveled(s, blocks[i]));
             && rest == Parts(s, comps, blocks, i + 1, next)[0] && AllAccepted(s, comps, blocks, i + 1, next)
             && Parts(s, comps, blocks, i + 1, next)[1..] == Parts(s, comps, blocks, 0, StartState(s, |s.comps|))[j + 1..]
    requires ItemsCoded(tables, rest) && r.Ahead() == ItemBits(tables, rest, pad)
    ensures BlockNext(r, tables, s, comps, blocks, bytes, marker, follow, j, i + 1, Following(s, d, comps[i], Leveled(s, blocks[i])), pad)
  {
    hide BitReader.Ahead, ItemBits, ItemsCoded, EncodersOk, ScanOk, Leveled, Parts, AllAccepted, SegmentAt;
  }

  // The decoder's predictions, which only a first scan needs
  ghost predicate Predicts(s: Scan, lastDc: seq<int>, d: DcState) {
    |lastDc| == |d.last| == |s.comps| && (s.Ah == 0 ==> lastDc == d.last)
  }

  // decode_mcu_DC_first or decode_mcu_DC_refine, behind a restart that is due
  method DecodeMcu(r: BitReader, s: Scan, made: seq<Made>, comps: seq<nat>, rows: seq<nat>, planes: array<Block>, i: nat, n: nat,
                   lastDc: seq<int>, ghost tables: seq<EncoderTable>, ghost blocks: seq<Block>, ghost bytes: seq<seq<Byte>>,
                   ghost marker: Byte, ghost follow: seq<Byte>, ghost j: nat, ghost d: DcState, ghost pad: Bits, ghost was: seq<Block>)
    returns (lastDc': seq<int>, ghost d': DcState)
    requires r.Valid() && BlockNext(r, tables, s, comps, blocks, bytes, marker, follow, j, i, d, pad) && TablesFit(s, made, tables)
    requires Predicts(s, lastDc, d) && i + n <= |blocks| == |comps| && (s.restartInterval != 0 ==> n <= d.togo)
    requires PhuffScan.RowsKnown(s, blocks, rows, was) && PhuffScan.Decoded(s, blocks, rows, i, was, planes[..])
    modifies r, planes
    ensures r.Valid() && BlockNext(r, tables, s, comps, blocks, bytes, marker, follow, j, i + n, d', pad)
    ensures Predicts(s, lastDc', d') && PhuffScan.Decoded(s, blocks, rows, i + n, was, planes[..])
    ensures s.restartInterval != 0 ==> d'.togo == d.togo - n
  {
    hide BitReader.Valid, BlockNext, BlocksFit, Matches, BlockItems, DcAccepted, BlockResult, ItemBits, ItemsCoded, ScanOk,
      EncodersOk, PhuffScan.RowsKnown, PhuffScan.Decoded, Parts, AllAccepted, BitReader.Ahead;
    lastDc', d' := lastDc, d;
    for k := 0 to n
      invariant r.Valid() && BlockNext(r, tables, s, comps, blocks, bytes, marker, follow, j, i + k, d', pad)
      invariant Predicts(s, lastDc', d') && PhuffScan.Decoded(s, blocks, rows, i + k, was, planes[..])
      invariant s.restartInterval != 0 ==> d'.togo == d.togo - k
    {
      ghost var rest := NextBlock(r, tables, s, comps, blocks, bytes, marker, follow, j, i + k, d', pad);
      PhuffScan.DecodedNext(s, blocks, rows, i + k, was, planes[..]);
      var c := comps[i + k];
      var tbl := s.comps[c].dcTbl;
      var dc := DecodeBlock(r, s, made[tbl], planes, rows[i + k], lastDc'[c], tables, tbl, blocks[i + k], d'.last[c], rest, pad);
      BlockRead(r, tables, s, comps, blocks, bytes, marker, follow, j, i + k, d', pad, rest);
      lastDc' := lastDc'[c := dc];
      d' := Following(s, d', c, Leveled(s, blocks[i + k]));
    }
  }

  // When a restart is due the marker is next, and behind it another segment.
  lemma RestartAhead(r: BitReader, tables: seq<EncoderTable>, s: Scan, comps: seq<nat>, blocks: seq<Block>, bytes: seq<seq<Byte>>,
                     marker: Byte, follow: seq<Byte>, j: nat, i: nat, d: DcState, pad: Bits)
    requires r.Valid() && BlockNext(r, tables, s, comps, blocks, bytes, marker, follow, j, i, d, pad)
    requires i < |blocks| && Due(s, d) && |s.membership| > 0 && marker != 0 && marker != 0xFF
    ensures r.k == |r.segment.data| && r.warnings == r.discardedBytes == r.bitsLeft / 8 == 0 && j + 1 < |bytes|
    ensures r.segment.marker == RST0 + j % 8 && ReadSegment(r.segment.after) == SegmentAt(bytes, j + 1, marker, follow)
    ensures BlocksFit(s, comps, blocks)
    ensures var start := StartState(s, |s.comps|);
            && AllAccepted(s, comps, blocks, i, start)
            && Parts(s, comps, blocks, i, start) == Parts(s, comps, blocks, 0, start)[j + 1..]
  {
    hide BitReader.Ahead, BitReader.Valid, DataBits, ReadSegment, Remaining, EncodersOk, ItemsCoded, ScanOk;
    RestartParts(s, comps, blocks, i, d);
    hide Parts, AllAccepted;
    assert r.Ahead() == pad;
    DataConsumed(r);
    RemainingRead(bytes, j + 1, marker, follow);
  }

  // A restart that is due
  method Restart(r: BitReader, nextRestartNum: nat, ghost tables: seq<EncoderTable>, ghost s: Scan, ghost comps: seq<nat>,
                 ghost blocks: seq<Block>, ghost bytes: seq<seq<Byte>>, ghost marker: Byte, ghost follow: seq<Byte>, ghost j: nat,
                 ghost i: nat, ghost d: DcState, ghost pad: Bits)
    returns (r': BitReader, num: nat, ghost pad': Bits)
    requires r.Valid() && BlockNext(r, tables, s, comps, blocks, bytes, marker, follow, j, i, d, pad) && BlocksFit(s, comps, blocks)
    requires i < |blocks| && Due(s, d) && |s.membership| > 0 && marker != 0 && marker != 0xFF && nextRestartNum == j % 8
    requires Sent(tables, Parts(s, comps, blocks, 0, StartState(s, |s.comps|)), bytes)
    ensures fresh(r') && r'.Valid() && num == (j + 1) % 8
    ensures BlockNext(r', tables, s, comps, blocks, bytes, marker, follow, j + 1, i, StartState(s, |s.comps|), pad')
  {
    hide BitReader.Ahead, BitReader.Valid, DataBits, BlockNext, ReadSegment, Sent, SegmentAt, Parts, AllAccepted, BlocksFit;
    RestartAhead(r, tables, s, comps, blocks, bytes, marker, follow, j, i, d, pad);
    r', num := ProcessRestart(r, nextRestartNum);
    pad' := EnterBlock(r', tables, s, comps, blocks, bytes, marker, follow, j + 1, i, StartState(s, |s.comps|));
  }

  // Decode a scan into the rows of its blocks, across its restart markers.
  method DecodeScan(wide: bool, stream: seq<Byte>, s: Scan, made: seq<Made>, comps: seq<nat>, rows: seq<nat>, planes: array<Block>,
                    mcus: nat, ghost tables: seq<EncoderTable>, ghost blocks: seq<Block>, ghost bytes: seq<seq<Byte>>,
                    ghost marker: Byte, ghost follow: seq<Byte>)
    returns (warnings: nat)
    requires BlocksFit(s, comps, blocks) && AllAccepted(s, comps, blocks, 0, StartState(s, |s.comps|)) && TablesFit(s, made, tables)
    requires Sent(tables, Parts(s, comps, blocks, 0, StartState(s, |s.comps|)), bytes) && bytes != []
    requires |s.membership| > 0 && |blocks| == BlocksIn(|s.membership|, mcus)
    requires PhuffScan.RowsKnown(s, blocks, rows, planes[..]) && marker != 0 && marker != 0xFF
    requires stream == Remaining(bytes, 0, [0xFF, marker] + follow)
    modifies planes
    ensures warnings == 0 && PhuffScan.Decoded(s, blocks, rows, |blocks|, old(planes[..]), planes[..])
  {
    hide BitReader.Valid, BitReader.Ahead, BlocksFit, TablesFit, PhuffScan.Decoded, PhuffScan.RowsKnown, Sent, Remaining, ReadSegment,
      Parts, AllAccepted, BlockNext, BlocksIn, SegmentAt;
    var n := |s.membership|;
    ghost var was := planes[..];
    PhuffScan.DecodedStart(s, blocks, rows, was);
    RemainingRead(bytes, 0, marker, follow);
    var r := new BitReader(wide, stream, false);
    ghost var d := StartState(s, |s.comps|);
    var lastDc: seq<int> := NoDc(|s.comps|);
    WholeScan(s, comps, blocks);
    ghost var pad := EnterBlock(r, tables, s, comps, blocks, bytes, marker, follow, 0, 0, d);
    var restartsToGo, nextRestartNum := s.restartInterval, 0;
    var i := 0;
    ghost var j := 0;
    NoBlocks(n);
    for m := 0 to mcus
      invariant fresh(r) && r.Valid() && i == BlocksIn(n, m) && nextRestartNum == j % 8
      invariant BlockNext(r, tables, s, comps, blocks, bytes, marker, follow, j, i, d, pad)
      invariant Predicts(s, lastDc, d) && PhuffScan.Decoded(s, blocks, rows, i, was, planes[..])
      invariant s.restartInterval != 0 ==> d.togo == BlocksIn(n, restartsToGo)
    {
      OneMoreMcu(n, m, mcus);
      if s.restartInterval != 0 && restartsToGo == 0 {
        NoBlocks(n);
        r, nextRestartNum, pad := Restart(r, nextRestartNum, tables, s, comps, blocks, bytes, marker, follow, j, i, d, pad);
        lastDc, restartsToGo := NoDc(|s.comps|), s.restartInterval;
        d, j := StartState(s, |s.comps|), j + 1;
      }
      OneMcu(n, restartsToGo);
      lastDc, d := DecodeMcu(r, s, made, comps, rows, planes, i, n, lastDc, tables, blocks, bytes, marker, follow, j, d, pad, was);
      i := i + n;
      if s.restartInterval != 0 {
        restartsToGo := restartsToGo - 1;
      }
    }
    warnings := r.warnings;
    NoWarnings(r, tables, s, comps, blocks, bytes, marker, follow, j, i, d, pad);
  }

  lemma WholeScan(s: Scan, comps: seq<nat>, blocks: seq<Block>)
    requires BlocksFit(s, comps, blocks)
    ensures var parts := Parts(s, comps, blocks, 0, StartState(s, |s.comps|)); parts == parts[0..] && |comps| == |blocks|
  {
    hide Parts, ScanOk;
  }

  lemma NoWarnings(r: BitReader, tables: seq<EncoderTable>, s: Scan, comps: seq<nat>, blocks: seq<Block>, bytes: seq<seq<Byte>>,
                   marker: Byte, follow: seq<Byte>, j: nat, i: nat, d: DcState, pad: Bits)
    requires BlockNext(r, tables, s, comps, blocks, bytes, marker, follow, j, i, d, pad)
    ensures r.warnings == 0
  {
    hide Parts, SegmentAt, AllAccepted, ScanOk;
  }

  // ----- The symbols of a scan -----

  lemma {:induction false} FlatCons(first: seq<Item>, parts: seq<seq<Item>>)
    ensures Flat([first] + parts) == first + Flat(parts)
  {
    var all := [first] + parts;
    if parts == [] {
      assert all[..0] == [] && first + [] == first;
    } else {
      FlatCons(first, parts[..|parts| - 1]);
      assert all[..|all| - 1] == [first] + parts[..|parts| - 1];
    }
  }

  // The items are those of the next block and of the rest.
  lemma FlatBlock(s: Scan, comps: seq<nat>, blocks: seq<Block>, i: nat, d: DcState)
    requires BlocksFit(s, comps, blocks) && |d.last| == |s.comps| && i < |blocks|
    ensures var c := comps[i];
            Flat(Parts(s, comps, blocks, i, d))
            == BlockItems(s, s.comps[c].dcTbl, blocks[i], Current(s, d).last[c])
               + Flat(Parts(s, comps, blocks, i + 1, Following(s, d, c, Leveled(s, blocks[i]))))
  {
    hide BlockItems, ScanOk, Leveled, Flat, Current, Following;
    var c := comps[i];
    var here := BlockItems(s, s.comps[c].dcTbl, blocks[i], Current(s, d).last[c]);
    var rest := Parts(s, comps, blocks, i + 1, Following(s, d, c, Leveled(s, blocks[i])));
    var start: seq<seq<Item>> := if Due(s, d) then [[]] else [];
    assert Parts(s, comps, blocks, i, d) == start + ([here + rest[0]] + rest[1..]);
    hide Parts;
    FlatCons(here + rest[0], rest[1..]);
    FlatCons([], [here + rest[0]] + rest[1..]);
    FlatCons(rest[0], rest[1..]);
    assert [rest[0]] + rest[1..] == rest;
    assert [] + ([here + rest[0]] + rest[1..]) == [here + rest[0]] + rest[1..];
    assert (here + rest[0]) + Flat(rest[1..]) == here + (rest[0] + Flat(rest[1..]));
    var none: seq<Item> := [];
    assert none + Flat([here + rest[0]] + rest[1..]) == Flat([here + rest[0]] + rest[1..]);
  }

  lemma NoneFlat(s: Scan, comps: seq<nat>, blocks: seq<Block>, d: DcState)
    requires BlocksFit(s, comps, blocks) && |d.last| == |s.comps|
    ensures Flat(Parts(s, comps, blocks, |blocks|, d)) == []
  {
    FlatCons([], []);
  }

  // The symbol of one block, if it is coded with table t
  lemma BlockSymbols(s: Scan, tbl: TableNumber, block: Block, last: Coef, t: nat)
    ensures SymbolsOf(BlockItems(s, tbl, block, last), t)
         == if s.Ah == 0 && t == tbl then [NBits(Abs(DcLevel(s, block) - last))] else []
  {
    hide NBits, BitsOf, Extra, Shr, PlainItems;
    if s.Ah == 0 {
      var d := DcLevel(s, block) - last;
      DifferenceBits(d);
      var bits := BitsOf(Extra(d), NBits(Abs(d)));
      SymbolsConcat([Code(tbl, NBits(Abs(d)))], PlainItems(bits), t);
      NoSymbols(bits, t);
      OneOf(tbl, NBits(Abs(d)), t);
    } else {
      var item := [Plain(Shr(block[0], s.Al) % 2 == 1)];
      assert item[1..] == [];
    }
  }

  // There are at most as many symbols as blocks, of at most 11 bits, with tables of the scan's components.
  lemma {:induction false} ScanSymbols(s: Scan, comps: seq<nat>, blocks: seq<Block>, i: nat, d: DcState, t: nat)
    requires BlocksFit(s, comps, blocks) && |d.last| == |s.comps| && i <= |blocks| && AllAccepted(s, comps, blocks, i, d)
    ensures var list := SymbolsOf(Flat(Parts(s, comps, blocks, i, d)), t);
            && |list| <= |blocks| - i && (forall x :: x in list ==> x <= MAX_COEF_BITS + 1)
            && (list != [] ==> s.Ah == 0 && exists c :: 0 <= c < |s.comps| && s.comps[c].dcTbl == t)
            && (s.Ah == 0 ==> forall j :: i <= j < |blocks| && s.comps[comps[j]].dcTbl == t ==> list != [])
    decreases |blocks| - i
  {
    hide BlockItems, ScanOk, Leveled, Flat, Parts, SymbolsOf, NBits;
    if i == |blocks| {
      NoneFlat(s, comps, blocks, d);
      NoSymbol(t);
    } else {
      var c := comps[i];
      var next := Following(s, d, c, Leveled(s, blocks[i]));
      FlatBlock(s, comps, blocks, i, d);
      BlockSymbols(s, s.comps[c].dcTbl, blocks[i], Current(s, d).last[c], t);
      SymbolsConcat(BlockItems(s, s.comps[c].dcTbl, blocks[i], Current(s, d).last[c]), Flat(Parts(s, comps, blocks, i + 1, next)), t);
      ScanSymbols(s, comps, blocks, i + 1, next, t);
    }
  }

  lemma NoSymbol(t: nat)
    ensures SymbolsOf([], t) == []
  {
  }

  lemma {:induction false} SymbolListed(items: seq<Item>, i: nat)
    requires i < |items| && items[i].Code?
    ensures items[i].sym in SymbolsOf(items, items[i].tbl)
  {
    if i > 0 {
      SymbolListed(items[1..], i - 1);
    }
  }

  // A part's items are among all.
  lemma {:induction false} PartItems(parts: seq<seq<Item>>, j: nat, i: nat)
    requires j < |parts| && i < |parts[j]|
    ensures parts[j][i] in Flat(parts)
  {
    if j < |parts| - 1 {
      PartItems(parts[..|parts| - 1], j, i);
    }
  }

  // ----- The length of a scan -----

  // The bits of all segments
  ghost function BitTotal(tables: seq<EncoderTable>, parts: seq<seq<Item>>): nat
    requires EncodersOk(tables)
  {
    if parts == [] then 0 else BitTotal(tables, parts[..|parts| - 1]) + |ItemBits(tables, parts[|parts| - 1], [])|
  }

  lemma {:induction false} TotalFlat(tables: seq<EncoderTable>, parts: seq<seq<Item>>)
    requires EncodersOk(tables)
    ensures BitTotal(tables, parts) == |ItemBits(tables, Flat(parts), [])|
  {
    hide ItemBits, EncodersOk;
    if parts == [] {
      NoItems(tables);
    } else {
      var n := |parts| - 1;
      TotalFlat(tables, parts[..n]);
      ItemBitsConcat(tables, Flat(parts[..n]), parts[n], []);
      ItemTail(tables, Flat(parts[..n]), ItemBits(tables, parts[n], []));
    }
  }

  // What the counts of the first n tables stand for: code words, and the bits behind them
  ghost function CountedBits(counts: seq<seq<nat>>, tables: seq<EncoderTable>, n: nat): nat
    requires n <= |counts| == |tables| && forall t :: 0 <= t < |counts| ==> EncoderShape(tables[t]) && |counts[t]| == SYMBOLS + 1
  {
    if n == 0 then 0
    else
      CountedBits(counts, tables, n - 1)
      + Cost(counts[n - 1][..SYMBOLS], tables[n - 1].ehufsi, SYMBOLS) + Cost(counts[n - 1][..SYMBOLS], ExtraSizes(), SYMBOLS)
  }

  // ... and the lists of symbols
  ghost function ListedBits(items: seq<Item>, tables: seq<EncoderTable>, n: nat): nat
    requires EncodersOk(tables) && n <= NUM_HUFF_TBLS
  {
    if n == 0 then 0 else ListedBits(items, tables, n - 1) + Length(tables[n - 1], SymbolsOf(items, n - 1))
  }

  lemma {:induction false} ListedByCounts(counts: seq<seq<nat>>, items: seq<Item>, tables: seq<EncoderTable>, n: nat)
    requires EncodersOk(tables) && n <= NUM_HUFF_TBLS && Tallied(counts, items)
    ensures forall t :: 0 <= t < NUM_HUFF_TBLS ==> |counts[t]| == SYMBOLS + 1
    ensures ListedBits(items, tables, n) == CountedBits(counts, tables, n)
  {
    assert |NoCounts()| == SYMBOLS + 1;
    hide Tally, Cost, Length, ListCost, ExtraSizes, NoCounts, SymbolsOf;
    if n > 0 {
      ListedByCounts(counts, items, tables, n - 1);
      var list := SymbolsOf(items, n - 1);
      LengthParts(tables[n - 1], list);
      CountsCost(tables[n - 1].ehufsi, list);
      CountsCost(ExtraSizes(), list);
    }
  }

  lemma {:induction false} ListedConcat(a: seq<Item>, b: seq<Item>, tables: seq<EncoderTable>, n: nat)
    requires EncodersOk(tables) && n <= NUM_HUFF_TBLS
    ensures ListedBits(a + b, tables, n) == ListedBits(a, tables, n) + ListedBits(b, tables, n)
  {
    hide Length, SymbolsOf;
    if n > 0 {
      ListedConcat(a, b, tables, n - 1);
      SymbolsConcat(a, b, n - 1);
      LengthConcat(tables[n - 1], SymbolsOf(a, n - 1), SymbolsOf(b, n - 1));
    }
  }

  lemma {:induction false} ListedBlock(s: Scan, tbl: TableNumber, block: Block, last: Coef, tables: seq<EncoderTable>, n: nat)
    requires EncodersOk(tables) && n <= NUM_HUFF_TBLS && s.Ah == 0 && NBits(Abs(DcLevel(s, block) - last)) <= 15
    ensures ListedBits(BlockItems(s, tbl, block, last), tables, n)
         == if tbl < n then tables[tbl].ehufsi[NBits(Abs(DcLevel(s, block) - last))] + NBits(Abs(DcLevel(s, block) - last)) else 0
  {
    hide Length, SymbolsOf, NBits, BlockItems;
    if n > 0 {
      ListedBlock(s, tbl, block, last, tables, n - 1);
      BlockSymbols(s, tbl, block, last, n - 1);
      LengthOne(tables[n - 1], NBits(Abs(DcLevel(s, block) - last)), []);
    }
  }

  lemma BlockLength(s: Scan, tbl: TableNumber, block: Block, last: Coef, tables: seq<EncoderTable>)
    requires EncodersOk(tables) && DcAccepted(s, block, last)
    ensures |ItemBits(tables, BlockItems(s, tbl, block, last), [])|
         == if s.Ah == 0 then ListedBits(BlockItems(s, tbl, block, last), tables, NUM_HUFF_TBLS) else 1
  {
    hide NBits, Extra, Shr, ItemBits, PlainItems, ListedBits;
    if s.Ah == 0 {
      var d := DcLevel(s, block) - last;
      FewBits(d);
      ListedBlock(s, tbl, block, last, tables, NUM_HUFF_TBLS);
      DifferenceItems(tables, tbl, d, [], []);
      var items := BlockItems(s, tbl, block, last);
      assert items + [] == items;
      NoItems(tables);
    } else {
      var bit := Shr(block[0], s.Al) % 2 == 1;
      PlainFirst(tables, bit, [], []);
      assert [Plain(bit)] + [] == [Plain(bit)];
      NoItems(tables);
    }
  }

  // The bits of a first scan are those of the listed symbols, and a refinement has one for each block.
  lemma {:induction false} ScanLength(s: Scan, comps: seq<nat>, blocks: seq<Block>, i: nat, d: DcState, tables: seq<EncoderTable>)
    requires BlocksFit(s, comps, blocks) && |d.last| == |s.comps| && i <= |blocks| && AllAccepted(s, comps, blocks, i, d)
    requires EncodersOk(tables)
    ensures var items := Flat(Parts(s, comps, blocks, i, d));
            |ItemBits(tables, items, [])| == if s.Ah == 0 then ListedBits(items, tables, NUM_HUFF_TBLS) else |blocks| - i
    decreases |blocks| - i
  {
    hide BlockItems, ScanOk, Leveled, Flat, Parts, SymbolsOf, ItemBits, EncodersOk, DcAccepted, ListedBits;
    if i == |blocks| {
      NoneFlat(s, comps, blocks, d);
      NoItems(tables);
      NothingListed(tables, NUM_HUFF_TBLS);
    } else {
      var c := comps[i];
      var next := Following(s, d, c, Leveled(s, blocks[i]));
      var here := BlockItems(s, s.comps[c].dcTbl, blocks[i], Current(s, d).last[c]);
      var rest := Flat(Parts(s, comps, blocks, i + 1, next));
      FlatBlock(s, comps, blocks, i, d);
      BlockLength(s, s.comps[c].dcTbl, blocks[i], Current(s, d).last[c], tables);
      ItemBitsConcat(tables, here, rest, []);
      ItemTail(tables, here, ItemBits(tables, rest, []));
      ListedConcat(here, rest, tables, NUM_HUFF_TBLS);
      ScanLength(s, comps, blocks, i + 1, next, tables);
    }
  }

  lemma {:induction false} NothingListed(tables: seq<EncoderTable>, n: nat)
    requires EncodersOk(tables) && n <= NUM_HUFF_TBLS
    ensures ListedBits([], tables, n) == 0
  {
    if n > 0 {
      NothingListed(tables, n - 1);
    }
  }

  // ----- The passes -----

  function NoTable(): Made {
    Made(HuffTable([], []), NoCodes(), DecoderTable([], [], [], []))
  }

  function EncodersOf(made: seq<Made>): (tables: seq<EncoderTable>)
    ensures |tables| == |made|
  {
    seq(|made|, t requires 0 <= t < |made| => made[t].encoder)
  }

  // The tables of the scan's components have code words for just the symbols listed.
  ghost predicate AllServe(made: seq<Made>, items: seq<Item>) {
    && |made| == NUM_HUFF_TBLS
    && forall t :: 0 <= t < NUM_HUFF_TBLS ==>
         made[t] == NoTable() || (SymbolsOf(items, t) != [] && Serves(made[t], true, SymbolsOf(items, t)))
  }

  // No table codes more than n symbols.
  ghost predicate ListsShort(items: seq<Item>, n: nat) {
    forall t :: 0 <= t < NUM_HUFF_TBLS ==> |SymbolsOf(items, t)| <= n
  }

  // Only tables of the scan's components code any.
  ghost predicate Owned(s: Scan, items: seq<Item>) {
    forall t :: 0 <= t < NUM_HUFF_TBLS && SymbolsOf(items, t) != [] ==> exists c :: 0 <= c < |s.comps| && s.comps[c].dcTbl == t
  }

  // finish_pass_gather_phuff: a table for every number that a component uses, once each
  method FinishGather(s: Scan, counts: seq<seq<nat>>, ghost items: seq<Item>, ghost n: nat) returns (ok: bool, made: seq<Made>)
    requires Tallied(counts, items) && forall c :: 0 <= c < |s.comps| ==> s.comps[c].dcTbl < NUM_HUFF_TBLS
    requires forall c :: 0 <= c < |s.comps| ==> ListOk(SymbolsOf(items, s.comps[c].dcTbl), true)
    requires ListsShort(items, n)
    ensures n < 9227464 ==> ok
    ensures ok ==> AllServe(made, items)
    ensures ok ==> forall c :: 0 <= c < |s.comps| ==> made[s.comps[c].dcTbl] != NoTable()
  {
    hide Tally, NoCounts, SymbolsOf, Serves;
    made := seq(NUM_HUFF_TBLS, _ => NoTable());
    var did := seq(NUM_HUFF_TBLS, _ => false);
    for ci := 0 to |s.comps|
      invariant |did| == NUM_HUFF_TBLS && AllServe(made, items)
      invariant forall t :: 0 <= t < NUM_HUFF_TBLS && did[t] ==> made[t] != NoTable()
      invariant forall c :: 0 <= c < ci ==> did[s.comps[c].dcTbl]
    {
      var tbl := s.comps[ci].dcTbl;
      if !did[tbl] {
        var m;
        ok, m := MakeTables(counts[tbl], true, SymbolsOf(items, tbl));
        if !ok {
          return;
        }
        ServesSome(m, SymbolsOf(items, tbl));
        made := made[tbl := m];
        did := did[tbl := true];
      }
    }
    ok := true;
  }

  lemma ServesSome(m: Made, list: seq<UInt8>)
    requires Serves(m, true, list) && list != []
    ensures m != NoTable()
  {
    hide Encodes, Decodes;
    assert list[0] in list;
  }

  // Then all symbols have code words, and both sides have matching tables.
  lemma TablesServe(s: Scan, made: seq<Made>, items: seq<Item>)
    requires AllServe(made, items)
    requires forall c :: 0 <= c < |s.comps| ==> s.comps[c].dcTbl < NUM_HUFF_TBLS && made[s.comps[c].dcTbl] != NoTable()
    requires Owned(s, items)
    ensures EncodersOk(EncodersOf(made)) && TablesFit(s, made, EncodersOf(made)) && ItemsCoded(EncodersOf(made), items)
  {
    hide Encodes, Decodes, SymbolsOf;
    var tables := EncodersOf(made);
    forall t: nat | t < NUM_HUFF_TBLS
      ensures SizesOk(tables[t])
    {
      if made[t] == NoTable() {
        NoSizes();
      } else {
        EncodesSizes(made[t].table, made[t].encoder);
      }
    }
    forall i | 0 <= i < |items| && items[i].Code?
      ensures tables[items[i].tbl].ehufsi[items[i].sym] > 0
    {
      SymbolListed(items, i);
    }
  }

  lemma NoSizes()
    ensures SizesOk(NoCodes())
  {
  }

  // When everything has been coded, each segment has.
  lemma SentParts(tables: seq<EncoderTable>, p: Past)
    requires EncodersOk(tables) && PastOk(p, tables) && ItemsCoded(tables, Flat(p.segments))
    ensures Sent(tables, p.segments, p.bytes)
  {
    hide ItemBits, Holds, Flat;
    forall j, i | 0 <= j < |p.segments| && 0 <= i < |p.segments[j]| && p.segments[j][i].Code?
      ensures tables[p.segments[j][i].tbl].ehufsi[p.segments[j][i].sym] > 0
    {
      PartItems(p.segments, j, i);
      var all, item := Flat(p.segments), p.segments[j][i];
      var k :| 0 <= k < |all| && all[k] == item;
    }
  }

  // A refinement scan has no symbols.
  lemma RefinementCoded(s: Scan, comps: seq<nat>, blocks: seq<Block>, tables: seq<EncoderTable>)
    requires BlocksFit(s, comps, blocks) && s.Ah != 0 && AllAccepted(s, comps, blocks, 0, StartState(s, |s.comps|)) && EncodersOk(tables)
    ensures ItemsCoded(tables, Flat(Parts(s, comps, blocks, 0, StartState(s, |s.comps|))))
  {
    hide Parts, Flat, SymbolsOf, AllAccepted, ScanOk, EncodersOk;
    var items := Flat(Parts(s, comps, blocks, 0, StartState(s, |s.comps|)));
    forall i | 0 <= i < |items| && items[i].Code?
      ensures false
    {
      SymbolListed(items, i);
      ScanSymbols(s, comps, blocks, 0, StartState(s, |s.comps|), items[i].tbl);
    }
  }

  // Counting is done for first scans only; a refinement needs no tables.
  method GatherTables(s: Scan, comps: seq<nat>, blocks: seq<Block>, mcus: nat, wide: bool)
    returns (outcome: Outcome, made: seq<Made>, counts: seq<seq<nat>>)
    requires BlocksFit(s, comps, blocks) && (forall c :: 0 <= c < |s.comps| ==> c in comps) && |blocks| <= SEARCH_LIMIT
    requires |s.membership| > 0 && |blocks| == BlocksIn(|s.membership|, mcus)
    ensures outcome == BadCoefficient <==> !AllAccepted(s, comps, blocks, 0, StartState(s, |s.comps|))
    ensures |blocks| < 9227464 ==> outcome != CodeTooLong
    ensures outcome == Written ==>
              var items := Flat(Parts(s, comps, blocks, 0, StartState(s, |s.comps|)));
              && EncodersOk(EncodersOf(made)) && TablesFit(s, made, EncodersOf(made)) && ItemsCoded(EncodersOf(made), items)
              && (s.Ah == 0 ==> Tallied(counts, items))
  {
    hide BlocksFit, AllAccepted, Parts, Flat, SymbolsOf, DcEncoder.Valid, BlocksIn, EncodersOk, TablesFit, ItemsCoded, Tallied,
      ListsShort, Owned, AllServe, ListOk;
    made, counts := seq(NUM_HUFF_TBLS, _ => NoTable()), [];
    NoTables(s, made);
    outcome := BadCoefficient;
    ghost var start := StartState(s, |s.comps|);
    if s.Ah == 0 {
      var gatherer := new DcEncoder(true, EncodersOf(made), wide, []);
      var ok := PhuffDc.EncodeScan(gatherer, s, comps, blocks, mcus);
      if !ok {
        return;
      }
      counts := gatherer.counts;
      ghost var items := Flat(Parts(s, comps, blocks, 0, start));
      GatheredCounts(gatherer);
      ListsFit(s, comps, blocks);
      outcome := CodeTooLong;
      ok, made := FinishGather(s, counts, items, |blocks|);
      if !ok {
        return;
      }
      TablesServe(s, made, items);
    } else {
      RefinementAccepted(s, comps, blocks, 0, start);
      RefinementCoded(s, comps, blocks, EncodersOf(made));
    }
    outcome := Written;
  }

  lemma GatheredCounts(enc: DcEncoder)
    requires enc.Finished() && enc.gather
    ensures Tallied(enc.counts, Flat(enc.past.segments))
  {
  }

  lemma NoTables(s: Scan, made: seq<Made>)
    requires made == seq(NUM_HUFF_TBLS, _ => NoTable())
    ensures EncodersOk(EncodersOf(made)) && (s.Ah != 0 ==> TablesFit(s, made, EncodersOf(made)))
  {
    NoSizes();
  }

  lemma {:induction false} RefinementAccepted(s: Scan, comps: seq<nat>, blocks: seq<Block>, i: nat, d: DcState)
    requires BlocksFit(s, comps, blocks) && |d.last| == |s.comps| && i <= |blocks| && s.Ah != 0
    ensures AllAccepted(s, comps, blocks, i, d)
    decreases |blocks| - i
  {
    if i < |blocks| {
      RefinementAccepted(s, comps, blocks, i + 1, Following(s, d, comps[i], Leveled(s, blocks[i])));
    }
  }

  // The lists of symbols are such as the table generator takes.
  lemma ListsFit(s: Scan, comps: seq<nat>, blocks: seq<Block>)
    requires BlocksFit(s, comps, blocks) && (forall c :: 0 <= c < |s.comps| ==> c in comps) && |blocks| <= SEARCH_LIMIT
    requires AllAccepted(s, comps, blocks, 0, StartState(s, |s.comps|)) && s.Ah == 0
    ensures forall c :: 0 <= c < |s.comps| ==> s.comps[c].dcTbl < NUM_HUFF_TBLS
    ensures var items := Flat(Parts(s, comps, blocks, 0, StartState(s, |s.comps|)));
            && (forall c :: 0 <= c < |s.comps| ==> ListOk(SymbolsOf(items, s.comps[c].dcTbl), true))
            && ListsShort(items, |blocks|) && Owned(s, items)
  {
    hide Parts, Flat, SymbolsOf, AllAccepted, ScanOk;
    var start := StartState(s, |s.comps|);
    var items := Flat(Parts(s, comps, blocks, 0, start));
    forall t: nat | t < NUM_HUFF_TBLS
      ensures |SymbolsOf(items, t)| <= |blocks| && forall x :: x in SymbolsOf(items, t) ==> x <= MAX_COEF_BITS + 1
      ensures SymbolsOf(items, t) != [] ==> exists c :: 0 <= c < |s.comps| && s.comps[c].dcTbl == t
      ensures forall j :: 0 <= j < |blocks| && s.comps[comps[j]].dcTbl == t ==> SymbolsOf(items, t) != []
    {
      ScanSymbols(s, comps, blocks, 0, start, t);
    }
    forall c | 0 <= c < |s.comps|
      ensures ListOk(SymbolsOf(items, s.comps[c].dcTbl), true)
    {
      assert c in comps;
      var j :| 0 <= j < |comps| && comps[j] == c;
      SmallSymbols(SymbolsOf(items, s.comps[c].dcTbl));
    }
  }

  lemma SmallSymbols(list: seq<UInt8>)
    requires 1 <= |list| <= SEARCH_LIMIT && forall x :: x in list ==> x <= MAX_COEF_BITS + 1
    ensures ListOk(list, true)
  {
    forall i | 0 <= i < |list|
      ensures list[i] <= MAX_COEF_BITS + 1
    {
      assert list[i] in list;
    }
  }

  // The statistics pass, tables made from its counts, the output pass with them, and decoding from the
  // bytes and any marker behind them; a refinement needs the output pass only. A scan is refused just if a
  // difference has too many bits (or there are so many blocks that a code could be too long); otherwise
  // every block is brought to the scan's level, and the length of the scan is what the counts say.
  method OptimizedDcScan(s: Scan, comps: seq<nat>, blocks: seq<Block>, rows: seq<nat>, planes: array<Block>, mcus: nat, wide: bool,
                         wideDecoder: bool, marker: Byte, follow: seq<Byte>)
    returns (outcome: Outcome, out: seq<Byte>, warnings: nat, counts: seq<seq<nat>>, made: seq<Made>, ghost bytes: seq<seq<Byte>>)
    requires BlocksFit(s, comps, blocks) && (forall c :: 0 <= c < |s.comps| ==> c in comps) && |blocks| <= SEARCH_LIMIT
    requires |s.membership| > 0 && |blocks| == BlocksIn(|s.membership|, mcus)
    requires PhuffScan.RowsKnown(s, blocks, rows, planes[..]) && marker != 0 && marker != 0xFF
    modifies planes
    ensures outcome == BadCoefficient <==> !AllAccepted(s, comps, blocks, 0, StartState(s, |s.comps|))
    ensures |blocks| < 9227464 ==> outcome != CodeTooLong
    ensures outcome != Written ==> planes[..] == old(planes[..])
    ensures outcome == Written ==> warnings == 0 && PhuffScan.Decoded(s, blocks, rows, |blocks|, old(planes[..]), planes[..])
    ensures outcome == Written ==>
              && Sent(EncodersOf(made), Parts(s, comps, blocks, 0, StartState(s, |s.comps|)), bytes)
              && bytes != [] && out == ScanBytes(bytes)
    ensures outcome == Written ==>
              && (s.Ah == 0 ==> |counts| == |made| && forall t :: 0 <= t < |made| ==> |counts[t]| == SYMBOLS + 1)
              && BitTotal(EncodersOf(made), Parts(s, comps, blocks, 0, StartState(s, |s.comps|)))
                 == if s.Ah == 0 then CountedBits(counts, EncodersOf(made), NUM_HUFF_TBLS) else |blocks|
  {
    hide BlocksFit, AllAccepted, Parts, Flat, DcEncoder.Valid, DcEncoder.Finished, BlocksIn, TablesFit, ItemsCoded, Tallied,
      PhuffScan.RowsKnown, PhuffScan.Decoded, Remaining, ScanBytes, Sent, BitTotal, CountedBits, ItemBits, SizesOk;
    out, warnings, bytes := [], 0, [];
    outcome, made, counts := GatherTables(s, comps, blocks, mcus, wide);
    if outcome != Written {
      return;
    }
    ghost var start := StartState(s, |s.comps|);
    ghost var tables, parts := EncodersOf(made), Parts(s, comps, blocks, 0, start);
    var enc := new DcEncoder(false, EncodersOf(made), wide, []);
    var ok := PhuffDc.EncodeScan(enc, s, comps, blocks, mcus);
    FinishedBytes(enc);
    out := enc.writer.out;
    bytes := enc.past.bytes;
    LengthFromCounts(s, comps, blocks, counts, tables);
    var trailer := [0xFF, marker] + follow;
    WholeStream(bytes, trailer);
    assert [] + ScanBytes(bytes) == ScanBytes(bytes);
    warnings := DecodeScan(wideDecoder, out + trailer, s, made, comps, rows, planes, mcus, tables, blocks, bytes, marker, follow);
  }

  lemma FinishedBytes(enc: DcEncoder)
    requires enc.Finished() && !enc.gather && ItemsCoded(enc.tables, Flat(enc.past.segments))
    ensures Sent(enc.tables, enc.past.segments, enc.past.bytes) && enc.past.bytes != []
    ensures enc.writer.out == enc.start + ScanBytes(enc.past.bytes)
  {
    hide ItemBits, Holds, EncodersOk, Flat, ItemsCoded, PastOk;
    SentParts(enc.tables, enc.past);
  }

  lemma LengthFromCounts(s: Scan, comps: seq<nat>, blocks: seq<Block>, counts: seq<seq<nat>>, tables: seq<EncoderTable>)
    requires BlocksFit(s, comps, blocks) && AllAccepted(s, comps, blocks, 0, StartState(s, |s.comps|)) && EncodersOk(tables)
    requires s.Ah == 0 ==> Tallied(counts, Flat(Parts(s, comps, blocks, 0, StartState(s, |s.comps|))))
    ensures s.Ah == 0 ==> |counts| == NUM_HUFF_TBLS && forall t :: 0 <= t < NUM_HUFF_TBLS ==> |counts[t]| == SYMBOLS + 1
    ensures BitTotal(tables, Parts(s, comps, blocks, 0, StartState(s, |s.comps|)))
         == if s.Ah == 0 then CountedBits(counts, tables, NUM_HUFF_TBLS) else |blocks|
  {
    hide Parts, Flat, AllAccepted, ScanOk, ItemBits, ListedBits, CountedBits, BitTotal;
    var parts := Parts(s, comps, blocks, 0, StartState(s, |s.comps|));
    TotalFlat(tables, parts);
    ScanLength(s, comps, blocks, 0, StartState(s, |s.comps|), tables);
    if s.Ah == 0 {
      ListedByCounts(counts, Flat(parts), tables, NUM_HUFF_TBLS);
    }
  }
}
