// How many symbols a progressive scan of AC coefficients has at most.
module PhuffCount {
  import opened BitFields
  import opened BitStrings
  import opened ArithScan
  import opened HuffmanLimit
  import opened HuffmanBlock
  import opened PhuffTokens
  import opened PhuffBlocks
  import opened PhuffEncoder
  import opened PhuffScan

  // A symbol stands for one coefficient, or for 16 zeros.
  lemma {:induction false} FirstCount(s: Scan, block: Block, k: nat, r: nat)
    requires |s.order| == DCTSIZE2 && s.Ss <= k <= DCTSIZE2 && s.Se < DCTSIZE2 && Codable(s, block)
    ensures |SymbolsOf(FirstTokens(s, block, k, r))| <= DCTSIZE2 - k + r / 16
    decreases DCTSIZE2 - k, r
  {
    hide AcLevel, AtZigzag, NBits, Extra, Codable, RawTokens, BitsOf, SymbolsOf, RunSize;
    if k <= s.Se {
      var v := Shifted(s, block, k);
      CodableRange(s, block, k);
      if v == 0 {
        FirstCount(s, block, k + 1, r + 1);
      } else if r > 15 {
        FirstCount(s, block, k, r - 16);
        CountSymbol(0xF0, [], FirstTokens(s, block, k, r - 16));
        assert [Sym(0xF0)] + RawTokens([]) == [Sym(0xF0)];
      } else {
        FirstCount(s, block, k + 1, 0);
        CountSymbol(RunSize(r, v), BitsOf(Extra(v), NBits(Abs(v))), FirstTokens(s, block, k + 1, 0));
      }
    } else {
      NoTokens();
    }
  }

  lemma CountSymbol(sym: UInt8, bits: Bits, rest: seq<Token>)
    ensures |SymbolsOf([Sym(sym)] + RawTokens(bits) + rest)| == 1 + |SymbolsOf(rest)|
  {
    hide SymbolsOf, RawTokens;
    SymbolsConcat([Sym(sym)] + RawTokens(bits), rest);
    SymbolsConcat([Sym(sym)], RawTokens(bits));
    NoSymbols(bits);
    OneSymbol(sym);
  }

  lemma OneSymbol(sym: UInt8)
    ensures SymbolsOf([Sym(sym)]) == [sym]
  {
    assert [Sym(sym)][1..] == [];
  }

  lemma {:induction false} RefineCount(s: Scan, block: Block, k: nat, r: nat, br: Bits)
    requires |s.order| == DCTSIZE2 && s.Se < DCTSIZE2 && k <= DCTSIZE2
    ensures |SymbolsOf(RefineTokens(s, block, k, r, br))| <= DCTSIZE2 - k + r / 16
    decreases DCTSIZE2 - k, r
  {
    hide AcLevel, AtZigzag, NoneNew, RawTokens, SymbolsOf;
    if k <= s.Se && !NoneNew(s, block, k) {
      var a := AcLevel(s, block, k, s.Al);
      if a == 0 {
        RefineCount(s, block, k + 1, r + 1, br);
      } else if r > 15 {
        RefineCount(s, block, k, r - 16, []);
        CountSymbol(0xF0, br, RefineTokens(s, block, k, r - 16, []));
      } else if a > 1 {
        RefineCount(s, block, k + 1, r, br + [a % 2 == 1]);
      } else {
        var rest := RefineTokens(s, block, k + 1, 0, []);
        RefineCount(s, block, k + 1, 0, []);
        CountSymbol(16 * r + 1, [Positive(s, block, k)] + br, rest);
        RawConcat([Positive(s, block, k)], br);
        assert RawTokens([Positive(s, block, k)]) == [Raw(Positive(s, block, k))] by {
          OneRaw(Positive(s, block, k));
        }
        assert [Sym(16 * r + 1), Raw(Positive(s, block, k))] == [Sym(16 * r + 1)] + [Raw(Positive(s, block, k))];
        assert [Sym(16 * r + 1)] + ([Raw(Positive(s, block, k))] + RawTokens(br)) + rest
            == [Sym(16 * r + 1), Raw(Positive(s, block, k))] + RawTokens(br) + rest;
      }
    } else {
      NoTokens();
    }
  }

  lemma OneRaw(b: bool)
    ensures RawTokens([b]) == [Raw(b)]
  {
  }

  lemma RunCount(n: nat, bits: Bits)
    requires n <= MAX_EOBRUN
    ensures |SymbolsOf(Run(n, bits))| == if n > 0 then 1 else 0
  {
    hide NBits, BitsOf, RawTokens, SymbolsOf;
    NoTokens();
    if n > 0 {
      RunBits(n);
      var x := BitsOf(n, NBits(n) - 1);
      CountSymbol(16 * (NBits(n) - 1), x + bits, []);
      RawConcat(x, bits);
      var head := [Sym(16 * (NBits(n) - 1))];
      assert head + (RawTokens(x) + RawTokens(bits)) + [] == head + RawTokens(x) + RawTokens(bits);
    }
  }

  // A block adds no more than 64, counting the symbol of the run that it joins or begins.
  lemma {:induction false} TokensCount(codes: seq<BlockCode>, i: nat, n: nat, bits: Bits)
    requires i <= |codes| && Pending(n, bits) && CodesOk(codes)
    requires forall j :: 0 <= j < |codes| ==> |SymbolsOf(codes[j].head)| < DCTSIZE2
    ensures |SymbolsOf(Tokens(codes, i, n, bits))| <= DCTSIZE2 * (|codes| - i) + if n > 0 then 1 else 0
    decreases |codes| - i
  {
    hide Run, RunFull, Step, SymbolsOf;
    RunCount(n, bits);
    if i < |codes| {
      var r := Step(codes[i], n, bits);
      TokensCount(codes, i + 1, r.n, r.bits);
      StepCount(codes[i], n, bits);
      SymbolsConcat(r.emitted, Tokens(codes, i + 1, r.n, r.bits));
    }
  }

  lemma StepCount(c: BlockCode, n: nat, bits: Bits)
    requires Pending(n, bits) && CodeOk(c) && |SymbolsOf(c.head)| < DCTSIZE2
    ensures var r := Step(c, n, bits);
            |SymbolsOf(r.emitted)| + (if r.n > 0 then 1 else 0) <= DCTSIZE2 + if n > 0 then 1 else 0
  {
    hide Run, RunFull, SymbolsOf;
    NoTokens();
    RunCount(n, bits);
    SymbolsConcat(Run(n, bits), c.head);
    var pre := if c.head == [] then [] else Run(n, bits) + c.head;
    var n0 := if c.head == [] then n else 0;
    var bits0 := if c.head == [] then bits else [];
    RunCount(n0 + 1, bits0 + c.tail);
    SymbolsConcat(pre, Run(n0 + 1, bits0 + c.tail));
  }

  lemma {:induction false} SymbolsCons(first: seq<Token>, parts: seq<seq<Token>>)
    ensures |AllSymbols([first] + parts)| == |SymbolsOf(first)| + |AllSymbols(parts)|
  {
    hide SymbolsOf;
    var all := [first] + parts;
    if parts == [] {
      assert all[..0] == [];
    } else {
      SymbolsCons(first, parts[..|parts| - 1]);
      assert all[..|all| - 1] == [first] + parts[..|parts| - 1];
    }
  }

  lemma {:induction false} PartsCount(s: Scan, codes: seq<BlockCode>, i: nat)
    requires i <= |codes| && CodesOk(codes) && forall j :: 0 <= j < |codes| ==> |SymbolsOf(codes[j].head)| < DCTSIZE2
    ensures |AllSymbols(Parts(s, codes, i))| <= DCTSIZE2 * (|codes| - i)
    decreases |codes| - i
  {
    hide SymbolsOf, Tokens, AllSymbols;
    var end := SegmentEnd(s, |codes|, i);
    TokensCount(codes[..end], i, 0, []);
    if end < |codes| {
      PartsCount(s, codes, end);
      SymbolsCons(Tokens(codes[..end], i, 0, []), Parts(s, codes, end));
    } else {
      SymbolsCons(Tokens(codes[..end], i, 0, []), []);
      NoneAtAll();
      assert [Tokens(codes[..end], i, 0, [])] + [] == [Tokens(codes[..end], i, 0, [])];
    }
  }

  lemma NoneAtAll()
    ensures AllSymbols([]) == []
  {
  }

  // A scan has at most 64 symbols for each block.
  lemma ScanCount(s: Scan, blocks: seq<Block>)
    requires Acceptable(s, blocks)
    ensures |AllSymbols(ScanTokens(s, blocks))| <= DCTSIZE2 * |blocks|
  {
    hide Codable, FirstTokens, RefineTokens, AcLevel, ScanOk, SymbolsOf, AllSymbols, Parts;
    var codes := Codes(s, blocks);
    forall j | 0 <= j < |codes|
      ensures |SymbolsOf(codes[j].head)| < DCTSIZE2
    {
      assert codes[j] == CodeOf(s, blocks[j]);
      if s.Ah == 0 {
        FirstCount(s, blocks[j], s.Ss, 0);
      } else {
        RefineCount(s, blocks[j], s.Ss, 0, []);
      }
    }
    PartsCount(s, codes, 0);
  }
}
