// Which scans code Huffman symbols, and so need statistics: all but refinements of DC coefficients.
module SymbolScans {
  import opened BitStrings
  import opened ArithScan
  import opened HuffmanSegments
  import HuffmanOptimize
  import opened PhuffTokens
  import opened PhuffBlocks
  import PhuffEncoder
  import PhuffScan
  import PhuffDc
  import opened ScanScript
  import PassMachine
  import MarkerWriter

  // ----- DC scans -----

  lemma {:induction false} FlatFirst(x: seq<PhuffDc.Item>, parts: seq<seq<PhuffDc.Item>>)
    ensures PhuffDc.Flat([x] + parts) == x + PhuffDc.Flat(parts)
  {
    hide PhuffDc.BlockItems;
    if parts == [] {
      assert [x] + parts == [x] && [x][..0] == [] && PhuffDc.Flat([]) == [];
      assert PhuffDc.Flat([x]) == PhuffDc.Flat([x][..0]) + x;
    } else {
      var init, last := parts[..|parts| - 1], parts[|parts| - 1];
      FlatFirst(x, init);
      assert ([x] + parts)[..|parts|] == [x] + init;
    }
  }

  // The first block's items, and those of the others
  lemma FlatParts(s: Scan, comps: seq<nat>, blocks: seq<Block>, i: nat, d: DcState)
    requires PhuffDc.BlocksFit(s, comps, blocks) && |d.last| == |s.comps| && i < |blocks|
    ensures PhuffDc.Flat(PhuffDc.Parts(s, comps, blocks, i, d))
            == PhuffDc.BlockItems(s, s.comps[comps[i]].dcTbl, blocks[i], Current(s, d).last[comps[i]])
               + PhuffDc.Flat(PhuffDc.Parts(s, comps, blocks, i + 1, Following(s, d, comps[i], PhuffDc.Leveled(s, blocks[i]))))
  {
    hide PhuffDc.BlockItems, PhuffDc.Leveled, ScanOk, PhuffDc.Flat;
    var here := PhuffDc.BlockItems(s, s.comps[comps[i]].dcTbl, blocks[i], Current(s, d).last[comps[i]]);
    var rest := PhuffDc.Parts(s, comps, blocks, i + 1, Following(s, d, comps[i], PhuffDc.Leveled(s, blocks[i])));
    FlatFirst(rest[0], rest[1..]);
    assert [rest[0]] + rest[1..] == rest;
    FlatRestart(Due(s, d), here + rest[0], rest[1..]);
    assert here + rest[0] + PhuffDc.Flat(rest[1..]) == here + (rest[0] + PhuffDc.Flat(rest[1..]));
  }

  // The empty end of a segment does not matter.
  lemma FlatRestart(restart: bool, x: seq<PhuffDc.Item>, parts: seq<seq<PhuffDc.Item>>)
    ensures PhuffDc.Flat((if restart then [[]] else []) + [x] + parts) == x + PhuffDc.Flat(parts)
  {
    hide PhuffDc.Flat;
    FlatFirst(x, parts);
    var none: seq<PhuffDc.Item> := [];
    FlatFirst(none, [x] + parts);
    assert [none] + [x] + parts == [none] + ([x] + parts);
    assert [] + [x] + parts == [x] + parts;
    assert none + (x + PhuffDc.Flat(parts)) == x + PhuffDc.Flat(parts);
  }

  // A first scan has a symbol for every block, and a refinement none for any.
  lemma {:induction false} DcSymbols(s: Scan, comps: seq<nat>, blocks: seq<Block>, i: nat, d: DcState)
    requires PhuffDc.BlocksFit(s, comps, blocks) && |d.last| == |s.comps| && i <= |blocks|
    ensures s.Ah == 0 && i < |blocks| ==>
              |PhuffDc.SymbolsOf(PhuffDc.Flat(PhuffDc.Parts(s, comps, blocks, i, d)), s.comps[comps[i]].dcTbl)| > 0
    ensures s.Ah != 0 ==> forall t: nat :: PhuffDc.SymbolsOf(PhuffDc.Flat(PhuffDc.Parts(s, comps, blocks, i, d)), t) == []
    decreases |blocks| - i
  {
    hide PhuffDc.Leveled, ScanOk, PhuffDc.Flat, PhuffDc.Parts, PhuffDc.BlockItems, PhuffDc.SymbolsOf;
    if i == |blocks| {
      NoBlocks(s, comps, blocks, d);
    } else {
      var next := Following(s, d, comps[i], PhuffDc.Leveled(s, blocks[i]));
      DcSymbols(s, comps, blocks, i + 1, next);
      FlatParts(s, comps, blocks, i, d);
      var items := PhuffDc.BlockItems(s, s.comps[comps[i]].dcTbl, blocks[i], Current(s, d).last[comps[i]]);
      var rest := PhuffDc.Flat(PhuffDc.Parts(s, comps, blocks, i + 1, next));
      forall t: nat
        ensures PhuffDc.SymbolsOf(items + rest, t) == PhuffDc.SymbolsOf(items, t) + PhuffDc.SymbolsOf(rest, t)
      {
        PhuffDc.SymbolsConcat(items, rest, t);
      }
      BlockSymbols(s, s.comps[comps[i]].dcTbl, blocks[i], Current(s, d).last[comps[i]]);
    }
  }

  ghost predicate DcSymbol(s: Scan, comps: seq<nat>, blocks: seq<Block>, d: DcState)
    requires PhuffDc.BlocksFit(s, comps, blocks) && |d.last| == |s.comps|
  {
    exists t: nat :: |PhuffDc.SymbolsOf(PhuffDc.Flat(PhuffDc.Parts(s, comps, blocks, 0, d)), t)| > 0
  }

  lemma DcExactly(s: Scan, comps: seq<nat>, blocks: seq<Block>, d: DcState)
    requires PhuffDc.BlocksFit(s, comps, blocks) && |d.last| == |s.comps| && blocks != []
    ensures DcSymbol(s, comps, blocks, d) <==> s.Ah == 0
  {
    hide PhuffDc.Flat, PhuffDc.Parts, PhuffDc.SymbolsOf;
    DcSymbols(s, comps, blocks, 0, d);
  }

  lemma NoBlocks(s: Scan, comps: seq<nat>, blocks: seq<Block>, d: DcState)
    requires PhuffDc.BlocksFit(s, comps, blocks) && |d.last| == |s.comps|
    ensures forall t: nat :: PhuffDc.SymbolsOf(PhuffDc.Flat(PhuffDc.Parts(s, comps, blocks, |blocks|, d)), t) == []
  {
    var none: seq<PhuffDc.Item> := [];
    assert PhuffDc.Parts(s, comps, blocks, |blocks|, d) == [none] && [none][..0] == [] && PhuffDc.Flat([]) == [];
    assert PhuffDc.Flat([none]) == [];
  }

  lemma BlockSymbols(s: Scan, tbl: PhuffDc.TableNumber, block: Block, last: Coef)
    ensures s.Ah == 0 ==> |PhuffDc.SymbolsOf(PhuffDc.BlockItems(s, tbl, block, last), tbl)| > 0
    ensures s.Ah != 0 ==> forall t: nat :: PhuffDc.SymbolsOf(PhuffDc.BlockItems(s, tbl, block, last), t) == []
  {
  }

  // ----- AC scans -----

  // What a block codes by itself starts with a symbol.
  predicate StartsCoded(codes: seq<BlockCode>) {
    forall i :: 0 <= i < |codes| ==> codes[i].head == [] || codes[i].head[0].Sym?
  }

  lemma {:induction false} FirstStarts(s: Scan, block: Block, k: nat, r: nat)
    requires AcScan(s) && s.Ss <= k && Codable(s, block)
    ensures FirstTokens(s, block, k, r) == [] || FirstTokens(s, block, k, r)[0].Sym?
    decreases DCTSIZE2 - k
  {
    hide ScanOk, AcLevel, AtZigzag, Codable;
    if k <= s.Se && Shifted(s, block, k) == 0 {
      FirstStarts(s, block, k + 1, r + 1);
    }
  }

  lemma {:induction false} RefineStarts(s: Scan, block: Block, k: nat, r: nat, br: Bits)
    requires AcScan(s)
    ensures RefineTokens(s, block, k, r, br) == [] || RefineTokens(s, block, k, r, br)[0].Sym?
    decreases DCTSIZE2 - k
  {
    hide ScanOk, AcLevel, AtZigzag, NoneNew;
    if k <= s.Se && !NoneNew(s, block, k) {
      var a := AcLevel(s, block, k, s.Al);
      if a == 0 {
        RefineStarts(s, block, k + 1, r + 1, br);
      } else if r <= 15 && a > 1 {
        RefineStarts(s, block, k + 1, r, br + [a % 2 == 1]);
      }
    }
  }

  lemma AllStart(s: Scan, blocks: seq<Block>)
    requires PhuffScan.Acceptable(s, blocks)
    ensures StartsCoded(PhuffScan.Codes(s, blocks))
  {
    hide ScanOk, AcLevel;
    forall i | 0 <= i < |blocks|
      ensures var head := PhuffScan.Codes(s, blocks)[i].head; head == [] || head[0].Sym?
    {
      if s.Ah == 0 {
        FirstStarts(s, blocks[i], s.Ss, 0);
      } else {
        RefineStarts(s, blocks[i], s.Ss, 0, []);
      }
    }
  }

  lemma RunSymbol(n: nat, bits: Bits)
    requires 0 < n <= MAX_EOBRUN
    ensures |PhuffEncoder.SymbolsOf(Run(n, bits))| > 0
  {
    hide BitsOf;
  }

  // A block or a pending run gives at least one symbol.
  lemma {:induction false} TokensHaveSymbol(codes: seq<BlockCode>, i: nat, n: nat, bits: Bits)
    requires CodesOk(codes) && StartsCoded(codes) && i <= |codes| && Pending(n, bits) && (i < |codes| || n > 0)
    ensures |PhuffEncoder.SymbolsOf(Tokens(codes, i, n, bits))| > 0
    decreases |codes| - i
  {
    hide Run, RunFull, PhuffEncoder.SymbolsOf;
    if i == |codes| {
      RunSymbol(n, bits);
    } else {
      var c, r := codes[i], Step(codes[i], n, bits);
      assert CodeOk(c);
      PhuffEncoder.SymbolsConcat(r.emitted, Tokens(codes, i + 1, r.n, r.bits));
      if c.head != [] {
        HeadSymbol(c, n, bits);
      } else if r.n == 0 {
        RunSymbol(n + 1, bits + c.tail);
        assert [] + Run(n + 1, bits + c.tail) == Run(n + 1, bits + c.tail);
      } else {
        TokensHaveSymbol(codes, i + 1, r.n, r.bits);
      }
    }
  }

  lemma HeadSymbol(c: BlockCode, n: nat, bits: Bits)
    requires CodeOk(c) && Pending(n, bits) && c.head != [] && c.head[0].Sym?
    ensures |PhuffEncoder.SymbolsOf(Step(c, n, bits).emitted)| > 0
  {
    hide Run, RunFull;
    var r := Step(c, n, bits);
    PhuffEncoder.SymbolsConcat(Run(n, bits), c.head);
    if c.hasTail && RunFull(1, [] + c.tail) {
      PhuffEncoder.SymbolsConcat(Run(n, bits) + c.head, Run(1, [] + c.tail));
    }
  }

  lemma {:induction false} SegmentSymbols(segments: seq<seq<Token>>, j: nat)
    requires j < |segments| && |PhuffEncoder.SymbolsOf(segments[j])| > 0
    ensures |PhuffEncoder.AllSymbols(segments)| > 0
  {
    hide PhuffEncoder.SymbolsOf;
    if j < |segments| - 1 {
      SegmentSymbols(segments[..|segments| - 1], j);
    }
  }

  // Every AC scan has a symbol.
  lemma AcSymbols(s: Scan, blocks: seq<Block>)
    requires PhuffScan.Acceptable(s, blocks) && blocks != []
    ensures |PhuffEncoder.AllSymbols(PhuffScan.ScanTokens(s, blocks))| > 0
  {
    hide ScanOk, AcLevel, PhuffEncoder.AllSymbols, PhuffEncoder.SymbolsOf, Tokens, PhuffScan.Codes, PhuffScan.Acceptable;
    AllStart(s, blocks);
    var codes, end := PhuffScan.Codes(s, blocks), SegmentEnd(s, |blocks|, 0);
    assert CodesOk(codes[..end]) && StartsCoded(codes[..end]);
    TokensHaveSymbol(codes[..end], 0, 0, []);
    SegmentSymbols(PhuffScan.ScanTokens(s, blocks), 0);
  }

  // ----- All scans -----

  ghost predicate SequentialSymbol(s: Scan, comps: seq<nat>, blocks: seq<Block>, d: DcState)
    requires HuffmanOptimize.BlocksOk(s, comps, blocks) && |d.last| == |s.comps|
    requires HuffmanOptimize.AllAcceptable(s, comps, blocks, 0, d)
  {
    exists t: nat :: |HuffmanOptimize.DcList(s, comps, blocks, t, 0, d)| > 0
  }

  // So has every sequential one.
  lemma SequentialSymbols(s: Scan, comps: seq<nat>, blocks: seq<Block>, d: DcState)
    requires HuffmanOptimize.BlocksOk(s, comps, blocks) && |d.last| == |s.comps| && blocks != []
    requires HuffmanOptimize.AllAcceptable(s, comps, blocks, 0, d)
    ensures SequentialSymbol(s, comps, blocks, d)
  {
    hide HuffmanOptimize.DcList, HuffmanOptimize.AllAcceptable;
    HuffmanOptimize.ListsNonempty(s, comps, blocks, 0, d, 0);
  }

  // The entropy coder has a symbol to code for these blocks with this scan, whatever its kind.
  ghost predicate HasSymbol(s: Scan, comps: seq<nat>, blocks: seq<Block>, d: DcState)
    requires CanCode(s, comps, blocks, d)
  {
    if !s.progressive then SequentialSymbol(s, comps, blocks, d)
    else if s.Ss == 0 then DcSymbol(s, comps, blocks, d)
    else |PhuffEncoder.AllSymbols(PhuffScan.ScanTokens(s, blocks))| > 0
  }

  // It takes these blocks.
  ghost predicate CanCode(s: Scan, comps: seq<nat>, blocks: seq<Block>, d: DcState) {
    if !s.progressive then
      && HuffmanOptimize.BlocksOk(s, comps, blocks) && |d.last| == |s.comps| && HuffmanOptimize.AllAcceptable(s, comps, blocks, 0, d)
    else if s.Ss == 0 then PhuffDc.BlocksFit(s, comps, blocks) && |d.last| == |s.comps|
    else PhuffScan.Acceptable(s, blocks)
  }

  // Statistics are gathered for the scans that have symbols, whatever the blocks are.
  lemma SymbolsExactly(x: ScanInfo, s: Scan, comps: seq<nat>, blocks: seq<Block>, d: DcState)
    requires CanCode(s, comps, blocks, d) && blocks != [] && ScanOk(s) && s.Ss == x.Ss && s.Ah == x.Ah
    ensures HasSymbol(s, comps, blocks, d) <==> PassMachine.CodesSymbols(x)
  {
    hide OrderOk, TablesOk, HuffmanOptimize.BlocksOk, HuffmanOptimize.AllAcceptable, SequentialSymbol, PhuffDc.BlocksFit,
      PhuffScan.Acceptable, DcSymbol, PhuffEncoder.AllSymbols, PhuffScan.ScanTokens;
    if !s.progressive {
      SequentialSymbols(s, comps, blocks, d);
    } else if s.Ss == 0 {
      DcExactly(s, comps, blocks, d);
    } else {
      AcSymbols(s, blocks);
    }
  }

  ghost predicate AcListed(s: Scan, comps: seq<nat>, blocks: seq<Block>, d: DcState)
    requires HuffmanOptimize.BlocksOk(s, comps, blocks) && |d.last| == |s.comps|
    requires HuffmanOptimize.AllAcceptable(s, comps, blocks, 0, d)
  {
    exists t: nat :: |HuffmanOptimize.AcList(s, comps, blocks, t, 0, d)| > 0
  }

  lemma SequentialAc(s: Scan, comps: seq<nat>, blocks: seq<Block>, d: DcState)
    requires HuffmanOptimize.BlocksOk(s, comps, blocks) && |d.last| == |s.comps| && blocks != []
    requires HuffmanOptimize.AllAcceptable(s, comps, blocks, 0, d)
    ensures AcListed(s, comps, blocks, d)
  {
    hide HuffmanOptimize.AcList, HuffmanOptimize.AllAcceptable;
    HuffmanOptimize.ListsNonempty(s, comps, blocks, 0, d, 0);
  }

  // The scan has symbols that are coded with a DC table, or with an AC table.
  ghost predicate HasDcSymbol(s: Scan, comps: seq<nat>, blocks: seq<Block>, d: DcState)
    requires CanCode(s, comps, blocks, d)
  {
    if !s.progressive then SequentialSymbol(s, comps, blocks, d) else s.Ss == 0 && DcSymbol(s, comps, blocks, d)
  }

  ghost predicate HasAcSymbol(s: Scan, comps: seq<nat>, blocks: seq<Block>, d: DcState)
    requires CanCode(s, comps, blocks, d)
  {
    if !s.progressive then AcListed(s, comps, blocks, d)
    else s.Ss != 0 && |PhuffEncoder.AllSymbols(PhuffScan.ScanTokens(s, blocks))| > 0
  }

  // A scan header needs a table of a kind just if the scan has symbols of that kind.
  lemma TablesNeeded(x: MarkerWriter.ScanSpec, s: Scan, comps: seq<nat>, blocks: seq<Block>, d: DcState)
    requires CanCode(s, comps, blocks, d) && blocks != [] && ScanOk(s) && s.Ss == x.Ss && s.Se == x.Se && s.Ah == x.Ah
    ensures MarkerWriter.NeedsTable(x, false) <==> HasDcSymbol(s, comps, blocks, d)
    ensures MarkerWriter.NeedsTable(x, true) <==> HasAcSymbol(s, comps, blocks, d)
  {
    hide OrderOk, TablesOk, HuffmanOptimize.BlocksOk, HuffmanOptimize.AllAcceptable, SequentialSymbol, AcListed, PhuffDc.BlocksFit,
      PhuffScan.Acceptable, DcSymbol, PhuffEncoder.AllSymbols, PhuffScan.ScanTokens;
    if !s.progressive {
      SequentialSymbols(s, comps, blocks, d);
      SequentialAc(s, comps, blocks, d);
    } else if s.Ss == 0 {
      DcExactly(s, comps, blocks, d);
    } else {
      AcSymbols(s, blocks);
    }
  }
}
