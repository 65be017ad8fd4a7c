// Optimized Huffman coding: a statistics pass over a segment's blocks, tables generated from its
// counts, and the output pass with these tables.
module HuffmanOptimize {
  import opened Arithmetic
  import opened BitStrings
  import opened ArithScan
  import opened HuffmanMerge
  import opened HuffmanLimit
  import opened HuffmanGen
  import opened HuffmanCode
  import opened HuffmanTables
  import opened HuffmanDecode
  import opened HuffmanSymbol
  import opened HuffmanBlock
  import opened HuffmanSegments
  import opened HuffmanStatistics

  // Blocks and the components that they belong to
  ghost predicate BlocksOk(s: Scan, comps: seq<nat>, blocks: seq<Block>) {
    && ScanOk(s) && |s.order| == DCTSIZE2 && ModeOf(s) == Sequential && |comps| == |blocks|
    && (forall i :: 0 <= i < |comps| ==> comps[i] < |s.comps|)
    && forall c :: 0 <= c < |s.comps| ==> s.comps[c].dcTbl < NUM_HUFF_TBLS && s.comps[c].acTbl < NUM_HUFF_TBLS
  }

  // The statistics pass accepts the blocks from i on, with these DC predictions.
  ghost predicate AllAcceptable(s: Scan, comps: seq<nat>, blocks: seq<Block>, i: nat, d: DcState)
    requires BlocksOk(s, comps, blocks) && |d.last| == |s.comps| && i <= |blocks|
    decreases |blocks| - i
  {
    i < |blocks| ==>
      && Acceptable(s, blocks[i], Current(s, d).last[comps[i]])
      && AllAcceptable(s, comps, blocks, i + 1, Following(s, d, comps[i], blocks[i]))
  }

  // The symbols that these blocks have coded with DC table number tbl
  ghost function DcList(s: Scan, comps: seq<nat>, blocks: seq<Block>, tbl: nat, i: nat, d: DcState): (list: seq<UInt8>)
    requires BlocksOk(s, comps, blocks) && |d.last| == |s.comps| && i <= |blocks|
    requires AllAcceptable(s, comps, blocks, i, d)
    ensures |list| <= |blocks| - i
    decreases |blocks| - i
  {
    if i == |blocks| then []
    else
      var c := comps[i];
      var rest := DcList(s, comps, blocks, tbl, i + 1, Following(s, d, c, blocks[i]));
      AcceptableInRange(s, blocks[i], Current(s, d).last[c]);
      if s.comps[c].dcTbl == tbl then [DcSymbol(blocks[i], Current(s, d).last[c])] + rest else rest
  }

  // ... and with AC table number tbl
  ghost function AcList(s: Scan, comps: seq<nat>, blocks: seq<Block>, tbl: nat, i: nat, d: DcState): (list: seq<UInt8>)
    requires BlocksOk(s, comps, blocks) && |d.last| == |s.comps| && i <= |blocks|
    requires AllAcceptable(s, comps, blocks, i, d)
    ensures |list| <= 63 * (|blocks| - i)
    decreases |blocks| - i
  {
    if i == |blocks| then []
    else
      var c := comps[i];
      var rest := AcList(s, comps, blocks, tbl, i + 1, Following(s, d, c, blocks[i]));
      AcceptableInRange(s, blocks[i], Current(s, d).last[c]);
      if s.comps[c].acTbl == tbl then AcSymbols(s, blocks[i], 1, 0) + rest else rest
  }

  // ----- The statistics pass -----

  // After the blocks before i, these counts lack what the others add.
  ghost predicate Lacks(s: Scan, comps: seq<nat>, blocks: seq<Block>, i: nat, d: DcState,
                        dc: seq<seq<nat>>, ac: seq<seq<nat>>, dcAll: seq<seq<nat>>, acAll: seq<seq<nat>>)
    requires BlocksOk(s, comps, blocks) && |d.last| == |s.comps| && i <= |blocks|
    requires AllAcceptable(s, comps, blocks, i, d)
  {
    && |dc| == |ac| == |dcAll| == |acAll| == NUM_HUFF_TBLS
    && forall t :: 0 <= t < NUM_HUFF_TBLS ==>
         && |dc[t]| == |ac[t]| == SYMBOLS + 1
         && Tally(dc[t], DcList(s, comps, blocks, t, i, d)) == dcAll[t]
         && Tally(ac[t], AcList(s, comps, blocks, t, i, d)) == acAll[t]
  }

  lemma LacksLess(s: Scan, comps: seq<nat>, blocks: seq<Block>, i: nat, d: DcState,
                  dc: seq<seq<nat>>, ac: seq<seq<nat>>, dcAll: seq<seq<nat>>, acAll: seq<seq<nat>>)
    requires BlocksOk(s, comps, blocks) && |d.last| == |s.comps| && i < |blocks|
    requires AllAcceptable(s, comps, blocks, i, d) && Lacks(s, comps, blocks, i, d, dc, ac, dcAll, acAll)
    ensures AcInRange(s, blocks[i]) && HuffmanBlock.InRange(blocks[i][0] as int - Current(s, d).last[comps[i]])
    ensures var c := comps[i];
            var x, y := s.comps[c].dcTbl, s.comps[c].acTbl;
            Lacks(s, comps, blocks, i + 1, Following(s, d, c, blocks[i]),
              dc[x := Tally(dc[x], [DcSymbol(blocks[i], Current(s, d).last[c])])], ac[y := Tally(ac[y], AcSymbols(s, blocks[i], 1, 0))],
              dcAll, acAll)
  {
    hide ScanOk, AcInRange, Tally, AcSymbols, DcSymbol, Acceptable;
    var c := comps[i];
    var x, y := s.comps[c].dcTbl, s.comps[c].acTbl;
    AcceptableInRange(s, blocks[i], Current(s, d).last[c]);
    var next := Following(s, d, c, blocks[i]);
    TallyConcat(dc[x], [DcSymbol(blocks[i], Current(s, d).last[c])], DcList(s, comps, blocks, x, i + 1, next));
    TallyConcat(ac[y], AcSymbols(s, blocks[i], 1, 0), AcList(s, comps, blocks, y, i + 1, next));
  }

  lemma AllCounts(s: Scan, comps: seq<nat>, blocks: seq<Block>, d: DcState, dc: seq<seq<nat>>, ac: seq<seq<nat>>)
    returns (dcAll: seq<seq<nat>>, acAll: seq<seq<nat>>)
    requires BlocksOk(s, comps, blocks) && |d.last| == |s.comps| && AllAcceptable(s, comps, blocks, 0, d)
    requires |dc| == |ac| == NUM_HUFF_TBLS && forall t :: 0 <= t < NUM_HUFF_TBLS ==> |dc[t]| == |ac[t]| == SYMBOLS + 1
    ensures Lacks(s, comps, blocks, 0, d, dc, ac, dcAll, acAll)
  {
    hide Tally, DcList, AcList, AllAcceptable;
    dcAll := seq(NUM_HUFF_TBLS, t requires 0 <= t < NUM_HUFF_TBLS => Tally(dc[t], DcList(s, comps, blocks, t, 0, d)));
    acAll := seq(NUM_HUFF_TBLS, t requires 0 <= t < NUM_HUFF_TBLS => Tally(ac[t], AcList(s, comps, blocks, t, 0, d)));
  }

  // Count the symbols of all blocks; an error if one is not acceptable.
  // The state before a block may as well be the one after a restart that is due.
  lemma CurrentSame(s: Scan, comps: seq<nat>, blocks: seq<Block>, i: nat, d: DcState, dc: seq<seq<nat>>, ac: seq<seq<nat>>,
                    dcAll: seq<seq<nat>>, acAll: seq<seq<nat>>)
    requires BlocksOk(s, comps, blocks) && |d.last| == |s.comps| && i < |blocks| && |s.membership| > 0
    ensures AllAcceptable(s, comps, blocks, i, Current(s, d)) == AllAcceptable(s, comps, blocks, i, d)
    ensures AllAcceptable(s, comps, blocks, i, d) && Lacks(s, comps, blocks, i, d, dc, ac, dcAll, acAll) ==>
              Lacks(s, comps, blocks, i, Current(s, d), dc, ac, dcAll, acAll)
  {
    hide ScanOk, AcInRange, Tally, AcSymbols, DcSymbol, Acceptable;
    StartNotDue(s, |d.last|);
    assert Current(s, Current(s, d)) == Current(s, d);
    assert Following(s, Current(s, d), comps[i], blocks[i]) == Following(s, d, comps[i], blocks[i]);
  }

  lemma StartNotDue(s: Scan, n: nat)
    requires |s.membership| > 0
    ensures !Due(s, StartState(s, n))
  {
  }

  // Counting has got to block i: what is counted lacks what the other blocks add, if they are
  // all acceptable.
  ghost predicate Gathering(s: Scan, comps: seq<nat>, blocks: seq<Block>, i: nat, d: DcState, good: bool,
                            dc: seq<seq<nat>>, ac: seq<seq<nat>>, dcAll: seq<seq<nat>>, acAll: seq<seq<nat>>) {
    && BlocksOk(s, comps, blocks) && |d.last| == |s.comps| && i <= |blocks| && good == AllAcceptable(s, comps, blocks, i, d)
    && (good ==> Lacks(s, comps, blocks, i, d, dc, ac, dcAll, acAll))
  }

  lemma GatheringBlock(s: Scan, comps: seq<nat>, blocks: seq<Block>, i: nat, d: DcState, good: bool,
                       dc: seq<seq<nat>>, ac: seq<seq<nat>>, dcAll: seq<seq<nat>>, acAll: seq<seq<nat>>)
    requires Gathering(s, comps, blocks, i, d, good, dc, ac, dcAll, acAll) && i < |blocks| && !Due(s, d)
    requires |dc| == |ac| == NUM_HUFF_TBLS && forall t :: 0 <= t < NUM_HUFF_TBLS ==> |dc[t]| == |ac[t]| == SYMBOLS + 1
    ensures |comps| == |blocks| && |s.order| == DCTSIZE2 && comps[i] < |s.comps| == |d.last|
    ensures s.comps[comps[i]].dcTbl < NUM_HUFF_TBLS && s.comps[comps[i]].acTbl < NUM_HUFF_TBLS
    ensures var c := comps[i];
            var x, y := s.comps[c].dcTbl, s.comps[c].acTbl;
            if Acceptable(s, blocks[i], d.last[c]) then
              && AcInRange(s, blocks[i]) && HuffmanBlock.InRange(blocks[i][0] as int - d.last[c])
              && Gathering(s, comps, blocks, i + 1, Following(s, d, c, blocks[i]), good,
                   dc[x := Tally(dc[x], [DcSymbol(blocks[i], d.last[c])])],
                   ac[y := Tally(ac[y], AcSymbols(s, blocks[i], 1, 0))], dcAll, acAll)
            else !good
  {
    hide ScanOk, AcInRange, Tally, AcSymbols, DcSymbol, Acceptable, DcList, AcList, Lacks;
    if Acceptable(s, blocks[i], d.last[comps[i]]) {
      AcceptableInRange(s, blocks[i], d.last[comps[i]]);
    }
    if good {
      LacksLess(s, comps, blocks, i, d, dc, ac, dcAll, acAll);
    }
  }

  // Count the symbols of an MCU; an error if a block is not acceptable.
  method GatherMcu(st: SymbolCounts, s: Scan, comps: seq<nat>, blocks: seq<Block>, i: nat, n: nat, last: seq<Coef>,
                   ghost d: DcState, ghost good: bool, ghost dcAll: seq<seq<nat>>, ghost acAll: seq<seq<nat>>)
    returns (ok: bool, last': seq<Coef>, ghost d': DcState)
    requires st.Valid() && last == d.last && i + n <= |blocks| && (s.restartInterval != 0 ==> n <= d.togo)
    requires Gathering(s, comps, blocks, i, d, good, st.dcCounts, st.acCounts, dcAll, acAll)
    modifies st
    ensures st.Valid() && (good ==> ok) && |last'| == |d.last|
    ensures ok ==> last' == d'.last && Gathering(s, comps, blocks, i + n, d', good, st.dcCounts, st.acCounts, dcAll, acAll)
    ensures ok && s.restartInterval != 0 ==> d'.togo == d.togo - n
  {
    hide ScanOk, AcInRange, Tally, AcSymbols, DcSymbol, Acceptable, Gathering;
    last', d' := last, d;
    for b := 0 to n
      invariant st.Valid() && last' == d'.last && |last'| == |d.last|
      invariant Gathering(s, comps, blocks, i + b, d', good, st.dcCounts, st.acCounts, dcAll, acAll)
      invariant s.restartInterval != 0 ==> d'.togo == d.togo - b
    {
      GatheringBlock(s, comps, blocks, i + b, d', good, st.dcCounts, st.acCounts, dcAll, acAll);
      var c := comps[i + b];
      ok := st.CountBlock(s, blocks[i + b], last'[c], s.comps[c].dcTbl, s.comps[c].acTbl);
      if !ok {
        return;
      }
      last' := last'[c := blocks[i + b][0]];
      d' := Following(s, d', c, blocks[i + b]);
    }
    ok := true;
  }

  // encode_mcu_gather: count the symbols of all MCUs, with the DC predictions started anew at each
  // restart; an error if a block is not acceptable.
  method Gather(st: SymbolCounts, s: Scan, comps: seq<nat>, blocks: seq<Block>, mcus: nat) returns (ok: bool)
    requires st.Valid() && BlocksOk(s, comps, blocks)
    requires |s.membership| > 0 && |blocks| == BlocksIn(|s.membership|, mcus)
    modifies st
    ensures st.Valid() && (ok <==> AllAcceptable(s, comps, blocks, 0, StartState(s, |s.comps|)))
    ensures ok ==> forall t :: 0 <= t < NUM_HUFF_TBLS ==>
      && st.dcCounts[t] == Tally(old(st.dcCounts[t]), DcList(s, comps, blocks, t, 0, StartState(s, |s.comps|)))
      && st.acCounts[t] == Tally(old(st.acCounts[t]), AcList(s, comps, blocks, t, 0, StartState(s, |s.comps|)))
  {
    hide ScanOk, AcInRange, Tally, AcSymbols, DcSymbol, Acceptable, DcList, AcList, AllAcceptable, BlocksIn, Gathering;
    var n := |s.membership|;
    var last := NoDc(|s.comps|);
    ghost var d := StartState(s, |s.comps|);
    ghost var good := AllAcceptable(s, comps, blocks, 0, d);
    ghost var dcAll, acAll := st.dcCounts, st.acCounts;
    if good {
      dcAll, acAll := AllCounts(s, comps, blocks, d, st.dcCounts, st.acCounts);
    }
    assert Gathering(s, comps, blocks, 0, d, good, st.dcCounts, st.acCounts, dcAll, acAll) by {
      GatheringStart(s, comps, blocks, d, good, st.dcCounts, st.acCounts, dcAll, acAll);
    }
    var restartsToGo := s.restartInterval;
    var i := 0;
    NoBlocks(n);
    for m := 0 to mcus
      invariant st.Valid() && last == d.last && |last| == |s.comps| && i == BlocksIn(n, m)
      invariant Gathering(s, comps, blocks, i, d, good, st.dcCounts, st.acCounts, dcAll, acAll)
      invariant s.restartInterval != 0 ==> d.togo == BlocksIn(n, restartsToGo)
    {
      OneMoreMcu(n, m, mcus);
      OneMcu(n, if restartsToGo == 0 then s.restartInterval else restartsToGo);
      NoBlocks(n);
      GatheringRestart(s, comps, blocks, i, d, good, st.dcCounts, st.acCounts, dcAll, acAll);
      if s.restartInterval != 0 {
        if restartsToGo == 0 {
          last := NoDc(|s.comps|);
          restartsToGo := s.restartInterval;
        }
        restartsToGo := restartsToGo - 1;
      }
      d := Current(s, d);
      ok, last, d := GatherMcu(st, s, comps, blocks, i, n, last, d, good, dcAll, acAll);
      if !ok {
        return;
      }
      i := i + n;
    }
    GatheringEnd(s, comps, blocks, d, good, st.dcCounts, st.acCounts, dcAll, acAll);
    return true;
  }

  lemma GatheringStart(s: Scan, comps: seq<nat>, blocks: seq<Block>, d: DcState, good: bool,
                       dc: seq<seq<nat>>, ac: seq<seq<nat>>, dcAll: seq<seq<nat>>, acAll: seq<seq<nat>>)
    requires BlocksOk(s, comps, blocks) && |d.last| == |s.comps| && good == AllAcceptable(s, comps, blocks, 0, d)
    requires good ==> Lacks(s, comps, blocks, 0, d, dc, ac, dcAll, acAll)
    ensures Gathering(s, comps, blocks, 0, d, good, dc, ac, dcAll, acAll)
  {
  }

  lemma GatheringRestart(s: Scan, comps: seq<nat>, blocks: seq<Block>, i: nat, d: DcState, good: bool,
                         dc: seq<seq<nat>>, ac: seq<seq<nat>>, dcAll: seq<seq<nat>>, acAll: seq<seq<nat>>)
    requires Gathering(s, comps, blocks, i, d, good, dc, ac, dcAll, acAll) && i < |blocks| && |s.membership| > 0
    ensures Gathering(s, comps, blocks, i, Current(s, d), good, dc, ac, dcAll, acAll)
  {
    hide Lacks, AllAcceptable;
    CurrentSame(s, comps, blocks, i, d, dc, ac, dcAll, acAll);
  }

  lemma GatheringEnd(s: Scan, comps: seq<nat>, blocks: seq<Block>, d: DcState, good: bool,
                     dc: seq<seq<nat>>, ac: seq<seq<nat>>, dcAll: seq<seq<nat>>, acAll: seq<seq<nat>>)
    requires Gathering(s, comps, blocks, |blocks|, d, good, dc, ac, dcAll, acAll)
    ensures good && dc == dcAll && ac == acAll
  {
    hide ScanOk, Tally, DcList, AcList, AllAcceptable;
    NothingCounted(s, comps, blocks, d);
  }

  lemma NothingCounted(s: Scan, comps: seq<nat>, blocks: seq<Block>, d: DcState)
    requires BlocksOk(s, comps, blocks) && |d.last| == |s.comps|
    ensures AllAcceptable(s, comps, blocks, |blocks|, d)
    ensures forall t: nat :: DcList(s, comps, blocks, t, |blocks|, d) == [] && AcList(s, comps, blocks, t, |blocks|, d) == []
    ensures forall counts :: |counts| == SYMBOLS + 1 ==> Tally(counts, []) == counts
  {
  }

  // ----- Tables from counts -----

  // A generated table and what both sides derive from it
  datatype Made = Made(table: HuffTable, encoder: EncoderTable, decoder: DecoderTable)

  // These are lengths of an optimal code for the counts, and the table's if none had to be shortened.
  ghost predicate BestLengths(e: EncoderTable, counts: seq<nat>, len: seq<nat>)
    requires EncoderShape(e) && |counts| == SYMBOLS + 1
  {
    && |len| == SYMBOLS + 1 && HuffmanLengths.CodeSizes(WithPseudo(counts), len)
    && ((forall s :: 0 <= s <= SYMBOLS ==> len[s] <= 16) ==> forall s :: 0 <= s < SYMBOLS ==> e.ehufsi[s] == len[s])
  }

  // The tables belong together and have code words for just these symbols, of optimal lengths.
  ghost predicate Serves(m: Made, isDC: bool, list: seq<UInt8>) {
    && Encodes(m.table, m.encoder) && Decodes(m.table, m.decoder) && (isDC ==> SymbolsUpTo(m.table, 15))
    && EncoderShape(m.encoder) && (forall x: UInt8 :: m.encoder.ehufsi[x] > 0 <==> x in list)
    && |NoCounts()| == SYMBOLS + 1 && exists len :: BestLengths(m.encoder, Tally(NoCounts(), list), len)
  }

  // Symbols 14 and 15 are never counted, so at most 254 are.
  lemma FewSymbols(list: seq<UInt8>)
    requires |list| > 0 && forall i :: 0 <= i < |list| ==> Countable(list[i])
    ensures var counts := Tally(NoCounts(), list);
            1 <= Live(counts, SYMBOLS) <= 254 && Total(counts, SYMBOLS) == |list|
            && forall x: UInt8 :: counts[x] > 0 <==> x in list
  {
    var counts := Tally(NoCounts(), list);
    hide Tally, Live, Total;
    forall x: UInt8
      ensures counts[x] > 0 <==> x in list
    {
      TallyCounts(NoCounts(), list, x);
    }
    TallyTotal(NoCounts(), list);
    NoTotal(SYMBOLS);
    assert list[0] in list;
    LiveAt(counts, list[0], SYMBOLS);
    assert !Countable(14) && !Countable(15);
    assert 14 !in list && 15 !in list;
    assert counts[14] == 0 && counts[15] == 0;
    DeadPair(counts, 14, SYMBOLS);
  }

  lemma {:induction false} NoTotal(n: nat)
    requires n <= SYMBOLS
    ensures Total(NoCounts(), n) == 0
  {
    if n > 0 {
      NoTotal(n - 1);
    }
  }

  lemma {:induction false} LiveAt(counts: seq<nat>, x: nat, n: nat)
    requires x < n <= |counts| && counts[x] > 0
    ensures Live(counts, n) >= 1
  {
    if x < n - 1 {
      LiveAt(counts, x, n - 1);
    }
  }

  lemma {:induction false} DeadPair(counts: seq<nat>, x: nat, n: nat)
    requires x + 2 <= n <= |counts| && counts[x] == 0 && counts[x + 1] == 0
    ensures Live(counts, n) <= n - 2
  {
    if x + 2 < n {
      DeadPair(counts, x, n - 1);
    }
  }

  method MakeTables(counts: seq<nat>, isDC: bool, ghost list: seq<UInt8>) returns (ok: bool, made: Made)
    requires counts == Tally(NoCounts(), list) && ListOk(list, isDC)
    ensures |list| < 9227464 ==> ok
    ensures ok ==> Serves(made, isDC, list)
  {
    hide Tally, Live, Total, Encodes, Decodes, Words, HuffmanLengths.CodeSizes, Legal;
    FewSymbols(list);
    var freq := new nat[SYMBOLS + 1](i requires 0 <= i <= SYMBOLS => counts[i]);
    assert freq[..] == counts;
    var h, e, d;
    ghost var len;
    ok, h, e, len := MakeGeneratedTable(freq, isDC);
    made := Made(h, e, DecoderTable([], [], [], []));
    if ok {
      LegalTable(h, e);
      ok, d := MakeDecoderTable(h, isDC);
      made := Made(h, e, d);
      assert BestLengths(e, counts, len);
    }
  }

  lemma LegalTable(h: HuffTable, e: EncoderTable)
    requires Encodes(h, e)
    ensures TableShape(h) && Legal(h.bits) && EncoderShape(e) && Words(h.bits, 17) <= SYMBOLS
  {
  }

  // ----- The output pass -----

  // The tables of each component have code words for the symbols counted for them.
  ghost predicate Covered(s: Scan, tables: seq<Tables>, comps: seq<nat>, blocks: seq<Block>, i: nat, d: DcState)
    requires BlocksOk(s, comps, blocks) && |d.last| == |s.comps| == |tables| && i <= |blocks|
    requires AllAcceptable(s, comps, blocks, i, d)
  {
    forall c :: 0 <= c < |s.comps| ==>
      && EncoderShape(tables[c].dcEncoder) && EncoderShape(tables[c].acEncoder)
      && AllCoded(tables[c].dcEncoder, DcList(s, comps, blocks, s.comps[c].dcTbl, i, d))
      && AllCoded(tables[c].acEncoder, AcList(s, comps, blocks, s.comps[c].acTbl, i, d))
  }

  lemma CoveredRest(s: Scan, tables: seq<Tables>, comps: seq<nat>, blocks: seq<Block>, i: nat, d: DcState)
    requires BlocksOk(s, comps, blocks) && |d.last| == |s.comps| == |tables| && i < |blocks|
    requires AllAcceptable(s, comps, blocks, i, d) && Covered(s, tables, comps, blocks, i, d)
    ensures Covered(s, tables, comps, blocks, i + 1, Following(s, d, comps[i], blocks[i]))
  {
    hide ScanOk, AcInRange, AcSymbols, Acceptable, AllCoded, DcSymbol;
    var next := Following(s, d, comps[i], blocks[i]);
    var dc := Current(s, d).last[comps[i]];
    AcceptableInRange(s, blocks[i], dc);
    forall c | 0 <= c < |s.comps|
      ensures AllCoded(tables[c].dcEncoder, DcList(s, comps, blocks, s.comps[c].dcTbl, i + 1, next))
      ensures AllCoded(tables[c].acEncoder, AcList(s, comps, blocks, s.comps[c].acTbl, i + 1, next))
    {
      AllCodedConcat(tables[c].dcEncoder, [DcSymbol(blocks[i], dc)], DcList(s, comps, blocks, s.comps[c].dcTbl, i + 1, next));
      AllCodedConcat(tables[c].acEncoder, AcSymbols(s, blocks[i], 1, 0), AcList(s, comps, blocks, s.comps[c].acTbl, i + 1, next));
    }
  }

  lemma CoveredBlock(s: Scan, tables: seq<Tables>, comps: seq<nat>, blocks: seq<Block>, i: nat, d: DcState)
    requires BlocksOk(s, comps, blocks) && |d.last| == |s.comps| == |tables| && i < |blocks|
    requires AllAcceptable(s, comps, blocks, i, d) && Covered(s, tables, comps, blocks, i, d)
    ensures BlockCoded(s, tables[comps[i]].dcEncoder, tables[comps[i]].acEncoder, blocks[i], Current(s, d).last[comps[i]])
  {
    hide ScanOk, AcInRange, AcSymbols, Acceptable, AllCoded;
    var next := Following(s, d, comps[i], blocks[i]);
    var b := comps[i];
    var t := tables[b];
    AcceptableInRange(s, blocks[i], Current(s, d).last[b]);
    AllCodedOne(t.dcEncoder, DcSymbol(blocks[i], Current(s, d).last[b]), DcList(s, comps, blocks, s.comps[b].dcTbl, i + 1, next));
    AllCodedConcat(t.acEncoder, AcSymbols(s, blocks[i], 1, 0), AcList(s, comps, blocks, s.comps[b].acTbl, i + 1, next));
    AcSymbolsCoded(s, t.acEncoder, blocks[i], 1, 0);
  }

  // So nothing that the output pass emits is without a code word.
  lemma {:induction false} CoveredCoded(s: Scan, tables: seq<Tables>, comps: seq<nat>, blocks: seq<Block>, i: nat, d: DcState)
    requires BlocksOk(s, comps, blocks) && |d.last| == |s.comps| == |tables| && i <= |blocks|
    requires AllAcceptable(s, comps, blocks, i, d) && Covered(s, tables, comps, blocks, i, d)
    requires SegmentOk(s, tables, comps, blocks)
    ensures Coded(s, tables, comps, blocks, i, d)
    decreases |blocks| - i
  {
    hide ScanOk, Acceptable, BlockCoded, Covered, TablesMatch;
    if i < |blocks| {
      CoveredRest(s, tables, comps, blocks, i, d);
      CoveredBlock(s, tables, comps, blocks, i, d);
      CoveredCoded(s, tables, comps, blocks, i + 1, Following(s, d, comps[i], blocks[i]));
    }
  }

  // ----- The length of the segment -----

  // Bits that the symbols counted for the first n tables take
  ghost function ListsLength(s: Scan, dc: seq<EncoderTable>, ac: seq<EncoderTable>, comps: seq<nat>, blocks: seq<Block>,
                             i: nat, d: DcState, n: nat): nat
    requires BlocksOk(s, comps, blocks) && |d.last| == |s.comps| && i <= |blocks| && AllAcceptable(s, comps, blocks, i, d)
    requires n <= |dc| && n <= |ac| && forall t :: 0 <= t < n ==> EncoderShape(dc[t]) && EncoderShape(ac[t])
    decreases n
  {
    if n == 0 then 0
    else
      ListsLength(s, dc, ac, comps, blocks, i, d, n - 1)
      + Length(dc[n - 1], DcList(s, comps, blocks, n - 1, i, d))
      + Length(ac[n - 1], AcList(s, comps, blocks, n - 1, i, d))
  }

  lemma {:induction false} LengthConcat(t: EncoderTable, a: seq<UInt8>, b: seq<UInt8>)
    requires EncoderShape(t)
    ensures Length(t, a + b) == Length(t, a) + Length(t, b)
  {
    if a == [] {
      assert a + b == b;
    } else {
      LengthConcat(t, a[1..], b);
      assert (a + b)[1..] == a[1..] + b;
    }
  }

  // A block adds to the lists of its own tables.
  lemma {:induction false} ListsLengthStep(s: Scan, dc: seq<EncoderTable>, ac: seq<EncoderTable>, comps: seq<nat>,
                                           blocks: seq<Block>, i: nat, d: DcState, n: nat)
    requires BlocksOk(s, comps, blocks) && |d.last| == |s.comps| && i < |blocks| && AllAcceptable(s, comps, blocks, i, d)
    requires n <= |dc| && n <= |ac| && forall t :: 0 <= t < n ==> EncoderShape(dc[t]) && EncoderShape(ac[t])
    requires AcInRange(s, blocks[i]) && HuffmanBlock.InRange(blocks[i][0] as int - Current(s, d).last[comps[i]])
    ensures var c := comps[i];
            var x, y := s.comps[c].dcTbl, s.comps[c].acTbl;
            ListsLength(s, dc, ac, comps, blocks, i, d, n)
            == ListsLength(s, dc, ac, comps, blocks, i + 1, Following(s, d, c, blocks[i]), n)
               + (if x < n then Length(dc[x], [DcSymbol(blocks[i], Current(s, d).last[c])]) else 0)
               + (if y < n then Length(ac[y], AcSymbols(s, blocks[i], 1, 0)) else 0)
    decreases n
  {
    hide ScanOk, AcInRange, AcSymbols, DcSymbol, Acceptable, Length, DcList, AcList, AllAcceptable;
    if n > 0 {
      ListsLengthStep(s, dc, ac, comps, blocks, i, d, n - 1);
      LengthStep(s, dc[n - 1], ac[n - 1], comps, blocks, n - 1, i, d);
    }
  }

  lemma LengthStep(s: Scan, dc: EncoderTable, ac: EncoderTable, comps: seq<nat>, blocks: seq<Block>, tbl: nat, i: nat,
                   d: DcState)
    requires BlocksOk(s, comps, blocks) && |d.last| == |s.comps| && i < |blocks| && AllAcceptable(s, comps, blocks, i, d)
    requires EncoderShape(dc) && EncoderShape(ac)
    requires AcInRange(s, blocks[i]) && HuffmanBlock.InRange(blocks[i][0] as int - Current(s, d).last[comps[i]])
    ensures var c := comps[i];
            var next := Following(s, d, c, blocks[i]);
            && Length(dc, DcList(s, comps, blocks, tbl, i, d)) == Length(dc, DcList(s, comps, blocks, tbl, i + 1, next))
               + (if s.comps[c].dcTbl == tbl then Length(dc, [DcSymbol(blocks[i], Current(s, d).last[c])]) else 0)
            && Length(ac, AcList(s, comps, blocks, tbl, i, d)) == Length(ac, AcList(s, comps, blocks, tbl, i + 1, next))
               + (if s.comps[c].acTbl == tbl then Length(ac, AcSymbols(s, blocks[i], 1, 0)) else 0)
  {
    hide ScanOk, AcInRange, AcSymbols, DcSymbol, Acceptable, Length;
    var c := comps[i];
    var next := Following(s, d, c, blocks[i]);
    LengthConcat(dc, [DcSymbol(blocks[i], Current(s, d).last[c])], DcList(s, comps, blocks, tbl, i + 1, next));
    LengthConcat(ac, AcSymbols(s, blocks[i], 1, 0), AcList(s, comps, blocks, tbl, i + 1, next));
  }

  lemma BlockLength(s: Scan, dc: EncoderTable, ac: EncoderTable, block: Block, last: Coef, tail: Bits)
    requires BlockCoded(s, dc, ac, block, last)
    ensures |BlockBits(s, dc, ac, block, last, tail)|
            == Length(dc, [DcSymbol(block, last)]) + Length(ac, AcSymbols(s, block, 1, 0)) + |tail|
  {
    hide BitsOf, NBits, Extra, AcInRange, AcCoded, AcBits, AcSymbols, Length;
    AcLength(s, ac, block, 1, 0);
    AcTail(s, ac, block, 1, 0, tail);
    RangeBits(block[0] - last);
    LengthOne(dc, DcSymbol(block, last), []);
  }

  // The bits of all segments
  function BitsLength(parts: seq<Bits>): nat {
    if parts == [] then 0 else |parts[0]| + BitsLength(parts[1..])
  }

  // The bits written are those of the counted symbols and what follows each of them.
  lemma {:induction false} ScanLength(s: Scan, tables: seq<Tables>, dc: seq<EncoderTable>, ac: seq<EncoderTable>,
                                      comps: seq<nat>, blocks: seq<Block>, i: nat, d: DcState)
    requires BlocksOk(s, comps, blocks) && SegmentOk(s, tables, comps, blocks) && |d.last| == |s.comps| == |tables|
    requires i <= |blocks| && AllAcceptable(s, comps, blocks, i, d) && Coded(s, tables, comps, blocks, i, d)
    requires |dc| == |ac| == NUM_HUFF_TBLS && forall t :: 0 <= t < NUM_HUFF_TBLS ==> EncoderShape(dc[t]) && EncoderShape(ac[t])
    requires forall c :: 0 <= c < |s.comps| ==>
               tables[c].dcEncoder == dc[s.comps[c].dcTbl] && tables[c].acEncoder == ac[s.comps[c].acTbl]
    ensures BitsLength(ScanBits(s, tables, comps, blocks, i, d)) == ListsLength(s, dc, ac, comps, blocks, i, d, NUM_HUFF_TBLS)
    decreases |blocks| - i
  {
    hide ScanOk, Acceptable, BlockCoded, TablesMatch, BlockBits, AcSymbols, DcSymbol, Length, EncoderShape, ListsLength, BitsLength;
    if i < |blocks| {
      var c := comps[i];
      var next := Following(s, d, c, blocks[i]);
      AcceptableInRange(s, blocks[i], Current(s, d).last[c]);
      var rest := ScanBits(s, tables, comps, blocks, i + 1, next);
      var here := BlockBits(s, tables[c].dcEncoder, tables[c].acEncoder, blocks[i], Current(s, d).last[c], rest[0]);
      BlockLength(s, tables[c].dcEncoder, tables[c].acEncoder, blocks[i], Current(s, d).last[c], rest[0]);
      PartsLength(rest, here, Due(s, d));
      ListsLengthStep(s, dc, ac, comps, blocks, i, d, NUM_HUFF_TBLS);
      ScanLength(s, tables, dc, ac, comps, blocks, i + 1, next);
    } else {
      NothingCounted(s, comps, blocks, d);
      NoLength(s, dc, ac, comps, blocks, d, NUM_HUFF_TBLS);
      assert BitsLength([[]]) == 0 by {
        PartsLength([[]], [], false);
      }
    }
  }

  lemma PartsLength(rest: seq<Bits>, here: Bits, restart: bool)
    requires |rest| > 0
    ensures BitsLength((if restart then [[]] else []) + [here] + rest[1..]) == BitsLength(rest) - |rest[0]| + |here|
    ensures BitsLength([[]]) == 0
  {
    var tail := [here] + rest[1..];
    assert tail[1..] == rest[1..] && BitsLength([]) == 0;
    assert [] + [here] + rest[1..] == tail;
    var none: Bits := [];
    assert ([none] + tail)[1..] == tail && [none] + [here] + rest[1..] == [none] + tail;
    assert [none][1..] == [];
  }

  lemma {:induction false} NoLength(s: Scan, dc: seq<EncoderTable>, ac: seq<EncoderTable>, comps: seq<nat>, blocks: seq<Block>,
                                    d: DcState, n: nat)
    requires BlocksOk(s, comps, blocks) && |d.last| == |s.comps| && AllAcceptable(s, comps, blocks, |blocks|, d)
    requires n <= |dc| && n <= |ac| && forall t :: 0 <= t < n ==> EncoderShape(dc[t]) && EncoderShape(ac[t])
    ensures ListsLength(s, dc, ac, comps, blocks, |blocks|, d, n) == 0
  {
    if n > 0 {
      NoLength(s, dc, ac, comps, blocks, d, n - 1);
      NothingCounted(s, comps, blocks, d);
    }
  }

  // ----- Lengths from counts -----

  // What symbols of these sizes take in all
  function ListCost(len: seq<nat>, list: seq<UInt8>): nat
    requires |len| == SYMBOLS
  {
    if list == [] then 0 else len[list[0]] + ListCost(len, list[1..])
  }

  lemma {:induction false} ListCostConcat(len: seq<nat>, a: seq<UInt8>, b: seq<UInt8>)
    requires |len| == SYMBOLS
    ensures ListCost(len, a + b) == ListCost(len, a) + ListCost(len, b)
  {
    if a == [] {
      assert a + b == b;
    } else {
      ListCostConcat(len, a[1..], b);
      assert (a + b)[1..] == a[1..] + b;
    }
  }

  // The number of bits that follow each symbol's code word
  function ExtraSizes(): (len: seq<nat>)
    ensures |len| == SYMBOLS
  {
    seq(SYMBOLS, x => x % 16)
  }

  lemma {:induction false} LengthParts(t: EncoderTable, list: seq<UInt8>)
    requires EncoderShape(t)
    ensures Length(t, list) == ListCost(t.ehufsi, list) + ListCost(ExtraSizes(), list)
  {
    if list != [] {
      LengthParts(t, list[1..]);
    }
  }

  // Each size as often as its symbol was counted
  lemma {:induction false} CostTally(len: seq<nat>, counts: seq<nat>, list: seq<UInt8>)
    requires |len| == SYMBOLS && |counts| == SYMBOLS + 1
    ensures Cost(Tally(counts, list)[..SYMBOLS], len, SYMBOLS) == Cost(counts[..SYMBOLS], len, SYMBOLS) + ListCost(len, list)
    decreases |list|
  {
    hide Cost;
    if list != [] {
      var x := list[0];
      OneMore(counts[..SYMBOLS], len, x, SYMBOLS);
      var counts' := counts[x := counts[x] + 1];
      assert counts'[..SYMBOLS] == counts[..SYMBOLS][x := counts[x] + 1];
      CostTally(len, counts', list[1..]);
    }
  }

  lemma {:induction false} OneMore(counts: seq<nat>, len: seq<nat>, x: nat, n: nat)
    requires x < |counts| == |len| && n <= |counts|
    ensures Cost(counts[x := counts[x] + 1], len, n) == Cost(counts, len, n) + if x < n then len[x] else 0
  {
    if n > 0 {
      OneMore(counts, len, x, n - 1);
      Distribute(len[n - 1], counts[n - 1], 1);
    }
  }

  lemma {:induction false} NoCost(len: seq<nat>, n: nat)
    requires n <= SYMBOLS == |len|
    ensures Cost(NoCounts()[..SYMBOLS], len, n) == 0
  {
    if n > 0 {
      NoCost(len, n - 1);
    }
  }

  // The counts of a list of symbols determine what they take.
  lemma CountsCost(len: seq<nat>, list: seq<UInt8>)
    requires |len| == SYMBOLS
    ensures Cost(Tally(NoCounts(), list)[..SYMBOLS], len, SYMBOLS) == ListCost(len, list)
  {
    hide Cost, Tally;
    CostTally(len, NoCounts(), list);
    NoCost(len, SYMBOLS);
  }

  // The bits that the counts of the first n tables stand for: code words and the bits behind them
  ghost function CountedBits(dcCounts: seq<seq<nat>>, acCounts: seq<seq<nat>>, dc: seq<EncoderTable>, ac: seq<EncoderTable>,
                             n: nat): nat
    requires n <= |dcCounts| == |acCounts| == |dc| == |ac|
    requires forall t :: 0 <= t < |dc| ==> EncoderShape(dc[t]) && EncoderShape(ac[t]) && |dcCounts[t]| == |acCounts[t]| == SYMBOLS + 1
  {
    if n == 0 then 0
    else
      var t := n - 1;
      CountedBits(dcCounts, acCounts, dc, ac, t)
      + Cost(dcCounts[t][..SYMBOLS], dc[t].ehufsi, SYMBOLS) + Cost(dcCounts[t][..SYMBOLS], ExtraSizes(), SYMBOLS)
      + Cost(acCounts[t][..SYMBOLS], ac[t].ehufsi, SYMBOLS) + Cost(acCounts[t][..SYMBOLS], ExtraSizes(), SYMBOLS)
  }

  lemma {:induction false} ListsByCounts(s: Scan, dc: seq<EncoderTable>, ac: seq<EncoderTable>, comps: seq<nat>, blocks: seq<Block>,
                                         d: DcState, dcCounts: seq<seq<nat>>, acCounts: seq<seq<nat>>, n: nat)
    requires BlocksOk(s, comps, blocks) && |d.last| == |s.comps| && AllAcceptable(s, comps, blocks, 0, d)
    requires n <= |dcCounts| == |acCounts| == |dc| == |ac|
    requires forall t :: 0 <= t < |dc| ==> EncoderShape(dc[t]) && EncoderShape(ac[t]) && |dcCounts[t]| == |acCounts[t]| == SYMBOLS + 1
    requires forall t :: 0 <= t < |dc| ==>
               && dcCounts[t] == Tally(NoCounts(), DcList(s, comps, blocks, t, 0, d))
               && acCounts[t] == Tally(NoCounts(), AcList(s, comps, blocks, t, 0, d))
    ensures ListsLength(s, dc, ac, comps, blocks, 0, d, n) == CountedBits(dcCounts, acCounts, dc, ac, n)
  {
    hide ScanOk, DcList, AcList, AllAcceptable, Tally, Cost, Length, ListCost, ExtraSizes, NoCounts;
    if n > 0 {
      var t := n - 1;
      ListsByCounts(s, dc, ac, comps, blocks, d, dcCounts, acCounts, t);
      var x, y := DcList(s, comps, blocks, t, 0, d), AcList(s, comps, blocks, t, 0, d);
      LengthParts(dc[t], x);
      LengthParts(ac[t], y);
      CountsCost(dc[t].ehufsi, x);
      CountsCost(ExtraSizes(), x);
      CountsCost(ac[t].ehufsi, y);
      CountsCost(ExtraSizes(), y);
    }
  }

  // ----- The two passes -----

  // The encoder's tables by number, for components with these tables
  ghost predicate ByNumber(s: Scan, tables: seq<Tables>, dc: seq<EncoderTable>, ac: seq<EncoderTable>) {
    && |dc| == |ac| == NUM_HUFF_TBLS && (forall t :: 0 <= t < NUM_HUFF_TBLS ==> EncoderShape(dc[t]) && EncoderShape(ac[t]))
    && |tables| == |s.comps|
    && forall c :: 0 <= c < |s.comps| ==>
         && s.comps[c].dcTbl < NUM_HUFF_TBLS && s.comps[c].acTbl < NUM_HUFF_TBLS
         && tables[c].dcEncoder == dc[s.comps[c].dcTbl] && tables[c].acEncoder == ac[s.comps[c].acTbl]
  }

  // Components with the same table number have the same table.
  ghost predicate Shared(s: Scan, tables: seq<Tables>) {
    && |tables| == |s.comps|
    && forall a, b :: 0 <= a < |tables| && 0 <= b < |tables| ==>
         && (s.comps[a].dcTbl == s.comps[b].dcTbl ==> tables[a].dcTable == tables[b].dcTable)
         && (s.comps[a].acTbl == s.comps[b].acTbl ==> tables[a].acTable == tables[b].acTable)
  }

  function NoCodes(): (t: EncoderTable)
    ensures EncoderShape(t)
  {
    EncoderTable(seq(SYMBOLS, i => 0), seq(SYMBOLS, i => 0))
  }

  // Tables of numbers that are not used have no codes.
  function Encoders(made: map<nat, Made>): (encoders: seq<EncoderTable>)
    ensures |encoders| == NUM_HUFF_TBLS
  {
    seq(NUM_HUFF_TBLS, t => if t in made then made[t].encoder else NoCodes())
  }

  // Generate a table for every table number that a component uses, once each.
  method FinishGather(st: SymbolCounts, s: Scan, ghost dcLists: seq<seq<UInt8>>, ghost acLists: seq<seq<UInt8>>)
    returns (ok: bool, tables: seq<Tables>, dc: seq<EncoderTable>, ac: seq<EncoderTable>)
    requires st.Valid() && |dcLists| == |acLists| == NUM_HUFF_TBLS
    requires forall c :: 0 <= c < |s.comps| ==> s.comps[c].dcTbl < NUM_HUFF_TBLS && s.comps[c].acTbl < NUM_HUFF_TBLS
    requires forall t :: 0 <= t < NUM_HUFF_TBLS ==>
      st.dcCounts[t] == Tally(NoCounts(), dcLists[t]) && st.acCounts[t] == Tally(NoCounts(), acLists[t])
    requires forall c :: 0 <= c < |s.comps| ==>
      ListOk(dcLists[s.comps[c].dcTbl], true) && ListOk(acLists[s.comps[c].acTbl], false)
    ensures (forall t :: 0 <= t < NUM_HUFF_TBLS ==> |dcLists[t]| < 9227464 && |acLists[t]| < 9227464) ==> ok
    ensures ok ==> ByNumber(s, tables, dc, ac) && Shared(s, tables)
    ensures ok ==> forall c :: 0 <= c < |tables| ==>
      Serve(tables[c], dcLists[s.comps[c].dcTbl], acLists[s.comps[c].acTbl])
  {
    hide Tally, NoCounts, Serves, ListOk, NoCodes, Encoders;
    var dcMade: map<nat, Made> := map[];
    var acMade: map<nat, Made> := map[];
    tables, dc, ac := [], [], [];
    for ci := 0 to |s.comps|
      invariant forall c :: 0 <= c < ci ==> s.comps[c].dcTbl in dcMade && s.comps[c].acTbl in acMade
      invariant forall t :: t in dcMade ==> t < NUM_HUFF_TBLS && Serves(dcMade[t], true, dcLists[t])
      invariant forall t :: t in acMade ==> t < NUM_HUFF_TBLS && Serves(acMade[t], false, acLists[t])
    {
      var dctbl, actbl := s.comps[ci].dcTbl, s.comps[ci].acTbl;
      if dctbl !in dcMade {
        var made;
        ok, made := MakeTables(st.dcCounts[dctbl], true, dcLists[dctbl]);
        if !ok {
          return;
        }
        dcMade := dcMade[dctbl := made];
      }
      if actbl !in acMade {
        var made;
        ok, made := MakeTables(st.acCounts[actbl], false, acLists[actbl]);
        if !ok {
          return;
        }
        acMade := acMade[actbl := made];
      }
    }
    ok := true;
    dc, ac := Encoders(dcMade), Encoders(acMade);
    EncodersByNumber(dcMade, true, dcLists);
    EncodersByNumber(acMade, false, acLists);
    tables := seq(|s.comps|, c requires 0 <= c < |s.comps| =>
      Together(dcMade[s.comps[c].dcTbl], acMade[s.comps[c].acTbl]));
    forall c | 0 <= c < |tables|
      ensures Serve(tables[c], dcLists[s.comps[c].dcTbl], acLists[s.comps[c].acTbl])
    {
      assert Serves(dcMade[s.comps[c].dcTbl], true, dcLists[s.comps[c].dcTbl]);
      assert Serves(acMade[s.comps[c].acTbl], false, acLists[s.comps[c].acTbl]);
    }
  }

  lemma EncodersByNumber(made: map<nat, Made>, isDC: bool, lists: seq<seq<UInt8>>)
    requires |lists| == NUM_HUFF_TBLS
    requires forall t :: t in made ==> t < NUM_HUFF_TBLS && Serves(made[t], isDC, lists[t])
    ensures forall t :: 0 <= t < NUM_HUFF_TBLS ==> EncoderShape(Encoders(made)[t])
    ensures forall t :: t in made ==> Encoders(made)[t] == made[t].encoder
  {
    hide Encodes, Decodes, NoCodes;
  }

  // A list that the generator can make a table for
  ghost predicate ListOk(list: seq<UInt8>, isDC: bool) {
    && 1 <= |list| <= SEARCH_LIMIT
    && forall i :: 0 <= i < |list| ==> Countable(list[i]) && list[i] <= MaxSymbol(isDC)
  }

  function Together(dc: Made, ac: Made): Tables {
    Tables(dc.table, dc.encoder, dc.decoder, ac.table, ac.encoder, ac.decoder)
  }

  ghost predicate Serve(t: Tables, dcList: seq<UInt8>, acList: seq<UInt8>) {
    && Serves(Made(t.dcTable, t.dcEncoder, t.dcDecoder), true, dcList)
    && Serves(Made(t.acTable, t.acEncoder, t.acDecoder), false, acList)
  }

  lemma {:induction false} SymbolsOk(s: Scan, comps: seq<nat>, blocks: seq<Block>, tbl: nat, i: nat, d: DcState)
    requires BlocksOk(s, comps, blocks) && |d.last| == |s.comps| && i <= |blocks| && AllAcceptable(s, comps, blocks, i, d)
    ensures forall x :: x in DcList(s, comps, blocks, tbl, i, d) ==> Countable(x) && x <= 15
    ensures forall x :: x in AcList(s, comps, blocks, tbl, i, d) ==> Countable(x)
    decreases |blocks| - i
  {
    hide ScanOk, AcInRange, AcSymbols, NBits, AtZigzag;
    if i < |blocks| {
      var c := comps[i];
      SymbolsOk(s, comps, blocks, tbl, i + 1, Following(s, d, c, blocks[i]));
      AcceptableInRange(s, blocks[i], Current(s, d).last[c]);
      AcSymbolsInRange(s, blocks[i], 1, 0);
    }
  }

  lemma {:induction false} SomeSymbol(s: Scan, block: Block, k: nat, r: nat)
    requires |s.order| == DCTSIZE2 && AcInRange(s, block) && 1 <= k <= DCTSIZE2
    ensures k < DCTSIZE2 || r > 0 ==> |AcSymbols(s, block, k, r)| > 0
    decreases DCTSIZE2 - k
  {
    hide AcInRange, AtZigzag;
    if k < DCTSIZE2 {
      SomeSymbol(s, block, k + 1, r + 1);
    }
  }

  // A component that has a block has symbols.
  lemma {:induction false} ListsNonempty(s: Scan, comps: seq<nat>, blocks: seq<Block>, i: nat, d: DcState, j: nat)
    requires BlocksOk(s, comps, blocks) && |d.last| == |s.comps| && i <= j < |blocks| && AllAcceptable(s, comps, blocks, i, d)
    ensures |DcList(s, comps, blocks, s.comps[comps[j]].dcTbl, i, d)| > 0
    ensures |AcList(s, comps, blocks, s.comps[comps[j]].acTbl, i, d)| > 0
    decreases j - i
  {
    hide ScanOk, AcInRange, AcSymbols, Acceptable;
    AcceptableInRange(s, blocks[i], Current(s, d).last[comps[i]]);
    if i < j {
      ListsNonempty(s, comps, blocks, i + 1, Following(s, d, comps[i], blocks[i]), j);
    } else {
      SomeSymbol(s, blocks[i], 1, 0);
    }
  }

  // Every component's lists are fit for the generator.
  lemma ListsFit(s: Scan, comps: seq<nat>, blocks: seq<Block>, c: nat)
    requires BlocksOk(s, comps, blocks) && AllAcceptable(s, comps, blocks, 0, StartState(s, |s.comps|))
    requires c < |s.comps| && c in comps && 63 * |blocks| <= SEARCH_LIMIT
    ensures ListOk(DcList(s, comps, blocks, s.comps[c].dcTbl, 0, StartState(s, |s.comps|)), true)
    ensures ListOk(AcList(s, comps, blocks, s.comps[c].acTbl, 0, StartState(s, |s.comps|)), false)
  {
    hide ScanOk, AcInRange, Acceptable, DcList, AcList, AllAcceptable, NoDc;
    var j :| 0 <= j < |comps| && comps[j] == c;
    ListsNonempty(s, comps, blocks, 0, StartState(s, |s.comps|), j);
    SymbolsOk(s, comps, blocks, s.comps[c].dcTbl, 0, StartState(s, |s.comps|));
    SymbolsOk(s, comps, blocks, s.comps[c].acTbl, 0, StartState(s, |s.comps|));
  }

  // Tables made for the lists serve the output pass.
  lemma TablesServe(s: Scan, tables: seq<Tables>, comps: seq<nat>, blocks: seq<Block>)
    requires BlocksOk(s, comps, blocks) && AllAcceptable(s, comps, blocks, 0, StartState(s, |s.comps|)) && |tables| == |s.comps|
    requires forall c :: 0 <= c < |tables| ==>
      Serve(tables[c], DcList(s, comps, blocks, s.comps[c].dcTbl, 0, StartState(s, |s.comps|)),
        AcList(s, comps, blocks, s.comps[c].acTbl, 0, StartState(s, |s.comps|)))
    ensures SegmentOk(s, tables, comps, blocks) && Covered(s, tables, comps, blocks, 0, StartState(s, |s.comps|))
  {
    hide ScanOk, Acceptable, DcList, AcList, AllAcceptable, NoDc, Encodes, Decodes;
    forall c | 0 <= c < |tables|
      ensures TablesMatch(tables[c])
      ensures EncoderShape(tables[c].dcEncoder) && EncoderShape(tables[c].acEncoder)
      ensures AllCoded(tables[c].dcEncoder, DcList(s, comps, blocks, s.comps[c].dcTbl, 0, StartState(s, |s.comps|)))
      ensures AllCoded(tables[c].acEncoder, AcList(s, comps, blocks, s.comps[c].acTbl, 0, StartState(s, |s.comps|)))
    {
      ServeOne(tables[c], DcList(s, comps, blocks, s.comps[c].dcTbl, 0, StartState(s, |s.comps|)),
        AcList(s, comps, blocks, s.comps[c].acTbl, 0, StartState(s, |s.comps|)));
    }
  }

  lemma ServeOne(t: Tables, dcList: seq<UInt8>, acList: seq<UInt8>)
    requires Serve(t, dcList, acList)
    ensures TablesMatch(t) && EncoderShape(t.dcEncoder) && EncoderShape(t.acEncoder)
    ensures AllCoded(t.dcEncoder, dcList) && AllCoded(t.acEncoder, acList)
  {
    hide Encodes, Decodes;
  }

  datatype Outcome = BadCoefficient | CodeTooLong | Written
}
