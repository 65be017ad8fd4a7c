// The progressive Huffman decoder for scans of AC coefficients (jdphuff.c), on data that the
// encoder has made.
module PhuffDecoder {
  import opened Arithmetic
  import opened BitFields
  import opened BitStrings
  import opened ArithScan
  import opened PointTransform
  import opened HuffmanLimit
  import opened HuffmanGen
  import opened HuffmanTables
  import opened HuffmanDecode
  import opened HuffmanReader
  import opened HuffmanBlock
  import opened HuffmanStatistics
  import opened PhuffTokens
  import opened PhuffBlocks
  import opened PhuffEncoder

  // ----- Tokens from bits -----

  // These tokens are next, all their symbols have code words, and nothing has gone wrong.
  ghost predicate Next(r: BitReader, e: EncoderTable, tokens: seq<Token>, tail: Bits)
    reads r
  {
    && EncoderShape(e) && AllCoded(e, SymbolsOf(tokens)) && r.Ahead() == TokenBits(e, tokens, tail)
    && r.warnings == 0 && !r.insufficientData
  }

  lemma CodedParts(e: EncoderTable, a: seq<Token>, b: seq<Token>)
    requires EncoderShape(e)
    ensures AllCoded(e, SymbolsOf(a + b)) <==> AllCoded(e, SymbolsOf(a)) && AllCoded(e, SymbolsOf(b))
  {
    hide SymbolsOf, AllCoded;
    SymbolsConcat(a, b);
    AllCodedConcat(e, SymbolsOf(a), SymbolsOf(b));
  }

  method TakeSym(r: BitReader, t: DecoderTable, ghost h: HuffTable, ghost e: EncoderTable, ghost sym: UInt8,
                 ghost rest: seq<Token>, ghost tail: Bits)
    returns (s: nat)
    requires r.Valid() && Decodes(h, t) && Encodes(h, e) && Next(r, e, [Sym(sym)] + rest, tail)
    modifies r
    ensures r.Valid() && s == sym && Next(r, e, rest, tail)
  {
    hide BitReader.Valid, BitReader.Ahead, Decodes, Encodes, Symbol, AllCoded;
    CodedParts(e, [Sym(sym)], rest);
    OneToken(e, sym);
    AllCodedOne(e, sym, []);
    assert [sym] + [] == [sym] && ([Sym(sym)] + rest)[1..] == rest;
    s := TakeSymbol(r, t, h, e, sym, TokenBits(e, rest, tail));
  }

  method TakeRaw(r: BitReader, n: nat, ghost e: EncoderTable, ghost bits: Bits, ghost rest: seq<Token>, ghost tail: Bits)
    returns (v: nat)
    requires r.Valid() && n <= 16 && |bits| == n && Next(r, e, RawTokens(bits) + rest, tail)
    modifies r
    ensures r.Valid() && v == Num(bits) && Next(r, e, rest, tail)
  {
    hide BitReader.Valid, BitReader.Ahead, AllCoded, RawTokens, SymbolsOf, TokenBits, Num;
    CodedParts(e, RawTokens(bits), rest);
    TokenBitsConcat(e, RawTokens(bits), rest, tail);
    RawBits(e, bits, TokenBits(e, rest, tail));
    ghost var ahead := r.Ahead();
    assert ahead[..n] == bits && ahead[n..] == TokenBits(e, rest, tail);
    ghost var taken;
    v, taken := TakeBits(r, n);
  }

  // ----- First scans -----

  lemma StoredLevel(s: Scan, block: Block, k: nat)
    requires AcScan(s) && s.Ss <= k <= s.Se
    ensures Wrap16(Shl(Shifted(s, block, k), s.Al)) == Level(s, block, k, s.Al)
  {
    hide ScanOk, Wrap16;
  }

  // The value behind a symbol
  method TakeLevel(r: BitReader, n: nat, ghost e: EncoderTable, ghost v: int, ghost rest: seq<Token>, ghost tail: Bits)
    returns (v': int)
    requires r.Valid() && 0 < n <= 16 && v != 0 && n == NBits(Abs(v))
    requires Next(r, e, RawTokens(BitsOf(Extra(v), n)) + rest, tail)
    modifies r
    ensures r.Valid() && v' == v && Next(r, e, rest, tail)
  {
    hide BitReader.Valid, BitsOf, NBits, Num, Next;
    NumOf(Extra(v), n);
    ExtendExtra(v);
    var x := TakeRaw(r, n, e, BitsOf(Extra(v), n), rest, tail);
    v' := Extend(x, n);
  }

  // ----- Runs -----

  // Blocks i to i + m are in a run.
  ghost predicate InRun(codes: seq<BlockCode>, i: nat, m: nat) {
    i + m <= |codes| && CodesOk(codes) && forall x :: i <= x < i + m ==> codes[x].head == [] && codes[x].hasTail
  }

  // What is next at block i: the correction bits of the run's blocks, and then the other blocks
  ghost function Upcoming(codes: seq<BlockCode>, i: nat, m: nat): seq<Token>
    requires i + m <= |codes|
  {
    RawTokens(Tails(codes, i, i + m)) + Tokens(codes, i + m, 0, [])
  }

  // A run's symbol, its length and what follows them
  function RunStart(n: nat, rest: seq<Token>): seq<Token>
    requires 0 < n <= MAX_EOBRUN
  {
    RunBits(n);
    [Sym(16 * (NBits(n) - 1))] + (RawTokens(BitsOf(n, NBits(n) - 1)) + rest)
  }

  lemma StartBlock(codes: seq<BlockCode>, i: nat) returns (n: nat)
    requires i < |codes| && CodesOk(codes)
    ensures !codes[i].hasTail ==> n == 0 && Upcoming(codes, i, 0) == codes[i].head + Upcoming(codes, i + 1, 0)
    ensures codes[i].hasTail ==> 0 < n <= MAX_EOBRUN && InRun(codes, i + 1, n - 1)
    ensures codes[i].hasTail ==>
              Upcoming(codes, i, 0) == codes[i].head + RunStart(n, RawTokens(codes[i].tail) + Upcoming(codes, i + 1, n - 1))
  {
    hide Tokens, NBits, BitsOf, RawTokens, Run, RunStart, Joining, Upcoming, Tails;
    FromBlock(codes, i);
    NothingUpcoming(codes, i);
    NothingUpcoming(codes, i + 1);
    n := 0;
    if codes[i].hasTail {
      n := 1 + Joining(codes, i + 1, 1, codes[i].tail);
      UpcomingRun(codes, i, n);
    }
  }

  lemma NothingUpcoming(codes: seq<BlockCode>, i: nat)
    requires i <= |codes|
    ensures Upcoming(codes, i, 0) == Tokens(codes, i, 0, [])
  {
    hide Tokens, RawTokens;
    NoRawBits();
    assert [] + Tokens(codes, i, 0, []) == Tokens(codes, i, 0, []);
  }

  lemma UpcomingRun(codes: seq<BlockCode>, i: nat, n: nat)
    requires 0 < n <= MAX_EOBRUN && i + n <= |codes|
    ensures Run(n, Tails(codes, i, i + n)) + Tokens(codes, i + n, 0, [])
            == RunStart(n, RawTokens(codes[i].tail) + Upcoming(codes, i + 1, n - 1))
  {
    hide Tokens, RawTokens, Run, RunStart;
    RunRegrouped(n, codes[i].tail, Tails(codes, i + 1, i + n), Tokens(codes, i + n, 0, []));
  }

  lemma RunRegrouped(n: nat, a: Bits, b: Bits, rest: seq<Token>)
    requires 0 < n <= MAX_EOBRUN
    ensures Run(n, a + b) + rest == RunStart(n, RawTokens(a) + (RawTokens(b) + rest))
  {
    hide NBits, BitsOf, RawTokens;
    RunBits(n);
    RawConcat(a, b);
    var x, y, u, v := [Sym(16 * (NBits(n) - 1))], RawTokens(BitsOf(n, NBits(n) - 1)), RawTokens(a), RawTokens(b);
    assert (x + y + (u + v)) + rest == x + (y + (u + (v + rest)));
  }

  lemma ContinueBlock(codes: seq<BlockCode>, i: nat, m: nat)
    requires InRun(codes, i, m) && m > 0
    ensures Upcoming(codes, i, m) == RawTokens(codes[i].tail) + Upcoming(codes, i + 1, m - 1) && InRun(codes, i + 1, m - 1)
  {
    hide Tokens, RawTokens;
    RawConcat(codes[i].tail, Tails(codes, i + 1, i + m));
    Associate3(RawTokens(codes[i].tail), RawTokens(Tails(codes, i + 1, i + m)), Tokens(codes, i + m, 0, []));
  }

  // The low bits of a number are what it exceeds its highest power of two by.
  lemma BelowTop(n: nat)
    requires n > 0
    ensures NBits(n) > 0 && Scale(1, NBits(n) - 1) + Num(BitsOf(n, NBits(n) - 1)) == n
  {
    hide NBits, BitsOf, Num;
    var lg: nat := NBits(n) - 1;
    assert Scale(1, lg + 1) == 2 * Scale(1, lg);
    hide Scale;
    var x: nat := n - Scale(1, lg);
    BitsAppend(1, 0, x, lg);
    NoBit(1);
    assert [] + BitsOf(x, lg) == BitsOf(x, lg);
    NumOf(x, lg);
  }

  lemma NoBit(v: nat)
    ensures BitsOf(v, 0) == []
  {
  }

  // The length of a run whose symbol has been taken
  method TakeRun(r: BitReader, lg: nat, ghost e: EncoderTable, ghost n: nat, ghost rest: seq<Token>, ghost tail: Bits)
    returns (EOBRUN: nat)
    requires r.Valid() && 0 < n <= MAX_EOBRUN && lg == NBits(n) - 1 && Next(r, e, RawTokens(BitsOf(n, lg)) + rest, tail)
    modifies r
    ensures r.Valid() && EOBRUN == n && Next(r, e, rest, tail)
  {
    hide BitReader.Valid, BitsOf, NBits, Num, Next, RawTokens, Scale;
    RunBits(n);
    BelowTop(n);
    EOBRUN := Scale(1, lg);
    NoBit(n);
    NoRawBits();
    assert [] + rest == rest;
    if lg > 0 {
      var x := TakeRaw(r, lg, e, BitsOf(n, lg), rest, tail);
      EOBRUN := EOBRUN + x;
    } else {
      NoBitNum();
    }
  }

  lemma NoBitNum()
    ensures Num([]) == 0
  {
  }

  // ----- First scans -----

  // The tokens ahead, and the row with the coefficients below k
  ghost predicate FirstAhead(r: BitReader, e: EncoderTable, s: Scan, block: Block, was: Block, row: Block, k: nat,
                             rest: seq<Token>, tail: Bits)
    reads r
  {
    && AcScan(s) && s.Ah == 0 && Codable(s, block) && BandKnown(s, block, was) && s.Ss <= k <= s.Se + 1
    && row == Updated(s, block, was, k) && Next(r, e, FirstTokens(s, block, k, 0) + rest, tail)
  }

  // One symbol of the block's own, and the coefficient behind it
  method DecodeFirstAt(r: BitReader, s: Scan, t: DecoderTable, planes: array<Block>, b: nat, k: nat, sym: nat,
                       ghost e: EncoderTable, ghost block: Block, ghost was: Block, ghost n: nat, ghost rest: seq<Token>,
                       ghost tail: Bits)
    returns (k': nat)
    requires r.Valid() && AcScan(s) && s.Ah == 0 && Codable(s, block) && BandKnown(s, block, was) && b < planes.Length
    requires s.Ss <= k <= s.Se && n == NextLevel(s, block, k) <= s.Se && planes[b] == Updated(s, block, was, k)
    requires sym == FirstSymbol(s, block, k, n) && Next(r, e, FirstBehind(s, block, k, n) + rest, tail)
    modifies r, planes
    ensures r.Valid() && planes[..] == old(planes[..])[b := planes[b]] && k < k' <= n + 1
    ensures FirstAhead(r, e, s, block, was, planes[b], k', rest, tail)
  {
    hide BitReader.Valid, Next, AcLevel, AtZigzag, NBits, Extra, Updated, Level, Codable, BandKnown, OrderOk, TablesOk, RawTokens,
      FirstTokens, Shifted, RunSize, BitsOf;
    var run, size := sym / 16, sym % 16;
    FirstZerosStored(s, block, was, k, n);
    SymbolParts(s, block, k, n);
    if size != 0 {
      k' := k + run;
      ghost var v := Shifted(s, block, n);
      Associate3(RawTokens(BitsOf(Extra(v), NBits(Abs(v)))), FirstTokens(s, block, n + 1, 0), rest);
      var v' := TakeLevel(r, size, e, v, FirstTokens(s, block, n + 1, 0) + rest, tail);
      planes[b] := planes[b][NaturalOrder(s, k') := Wrap16(Shl(v', s.Al))];
      StoredLevel(s, block, n);
      UpdatedNext(s, block, was, n);
      k' := k' + 1;
    } else {
      FirstZerosStored(s, block, was, k, k + 16);
      k' := k + 16;
    }
  }

  function FirstSymbol(s: Scan, block: Block, k: nat, n: nat): nat
    requires AcScan(s) && Codable(s, block) && s.Ss <= k <= n <= s.Se
  {
    CodableRange(s, block, n);
    if n - k > 15 then 0xF0 else RunSize(n - k, Shifted(s, block, n))
  }

  function FirstBehind(s: Scan, block: Block, k: nat, n: nat): seq<Token>
    requires AcScan(s) && Codable(s, block) && s.Ss <= k <= n <= s.Se
  {
    var v := Shifted(s, block, n);
    if n - k > 15 then FirstTokens(s, block, k + 16, 0)
    else RawTokens(BitsOf(Extra(v), NBits(Abs(v)))) + FirstTokens(s, block, n + 1, 0)
  }

  lemma SymbolParts(s: Scan, block: Block, k: nat, n: nat)
    requires AcScan(s) && Codable(s, block) && s.Ss <= k <= n <= s.Se && Shifted(s, block, n) != 0
    ensures var sym := FirstSymbol(s, block, k, n);
            if n - k > 15 then sym / 16 == 15 && sym % 16 == 0
            else sym / 16 == n - k && sym % 16 == NBits(Abs(Shifted(s, block, n))) > 0
  {
    hide AcLevel, AtZigzag;
  }

  lemma UpdatedNext(s: Scan, block: Block, was: Block, k: nat)
    requires AcScan(s) && s.Ss <= k <= s.Se
    ensures Updated(s, block, was, k + 1) == Updated(s, block, was, k)[s.order[k] := Level(s, block, k, s.Al)]
  {
    hide Level, OrderOk, TablesOk;
  }

  lemma FirstZerosStored(s: Scan, block: Block, was: Block, k: nat, n: nat)
    requires AcScan(s) && BandKnown(s, block, was) && s.Ss <= k <= n <= s.Se + 1
    requires forall i :: k <= i < n ==> AcLevel(s, block, i, s.Al) == 0
    ensures Updated(s, block, was, n) == Updated(s, block, was, k)
  {
    hide AcLevel, BandKnown, Updated, OrderOk, TablesOk;
    UpdatedZeros(s, block, was, k, n);
  }

  // What is behind a block's own tokens: the run that it starts, or the next block
  function BehindHead(n: nat, after: seq<Token>): seq<Token>
    requires n <= MAX_EOBRUN
  {
    if n > 0 then RunStart(n, after) else after
  }

  // The symbol that is next in a first scan
  function SymbolAt(s: Scan, block: Block, k: nat, n: nat): (sym: UInt8)
    requires AcScan(s) && Codable(s, block) && s.Ss <= k <= s.Se && n <= MAX_EOBRUN
  {
    var p := NextLevel(s, block, k);
    if p <= s.Se then FirstSymbol(s, block, k, p)
    else if n == 0 then 0
    else
      RunBits(n);
      16 * (NBits(n) - 1)
  }

  function BehindSymbol(s: Scan, block: Block, k: nat, n: nat, rest: seq<Token>, after: seq<Token>): seq<Token>
    requires AcScan(s) && Codable(s, block) && s.Ss <= k <= s.Se && n <= MAX_EOBRUN
  {
    var p := NextLevel(s, block, k);
    if p <= s.Se then FirstBehind(s, block, k, p) + rest
    else if n == 0 then after
    else
      RunBits(n);
      RawTokens(BitsOf(n, NBits(n) - 1)) + after
  }

  lemma NextAtFirst(s: Scan, block: Block, k: nat, n: nat, after: seq<Token>)
    requires AcScan(s) && Codable(s, block) && s.Ss <= k <= s.Se && n <= MAX_EOBRUN
    requires NextLevel(s, block, k) > s.Se ==> n > 0
    ensures var rest := BehindHead(n, after);
            FirstTokens(s, block, k, 0) + rest == [Sym(SymbolAt(s, block, k, n))] + BehindSymbol(s, block, k, n, rest, after)
    ensures NextLevel(s, block, k) > s.Se ==> SymbolAt(s, block, k, n) % 16 == 0 && SymbolAt(s, block, k, n) / 16 == NBits(n) - 1 < 15
    ensures NextLevel(s, block, k) <= s.Se ==> SymbolAt(s, block, k, n) % 16 != 0 || SymbolAt(s, block, k, n) / 16 == 15
  {
    hide AcLevel, AtZigzag, NBits, Extra, Codable, RawTokens, FirstTokens, RunSize, BitsOf, ScanOk;
    var p := NextFirst(s, block, k);
    var rest := BehindHead(n, after);
    if p > s.Se {
      RunBits(n);
      assert [] + rest == rest;
    } else {
      SymbolParts(s, block, k, p);
      var v := Shifted(s, block, p);
      Associate3([Sym(SymbolAt(s, block, k, n))], FirstBehind(s, block, k, p), rest);
      if p - k <= 15 {
        Associate3([Sym(RunSize(p - k, v))], RawTokens(BitsOf(Extra(v), NBits(Abs(v)))), FirstTokens(s, block, p + 1, 0));
      }
    }
  }

  // The band of a block that is not in a run
  method DecodeFirstBand(r: BitReader, s: Scan, t: DecoderTable, planes: array<Block>, b: nat, ghost h: HuffTable,
                         ghost e: EncoderTable, ghost block: Block, ghost was: Block, ghost n: nat, ghost after: seq<Token>,
                         ghost tail: Bits)
    returns (EOBRUN: nat)
    requires r.Valid() && Decodes(h, t) && Encodes(h, e) && b < planes.Length && n <= MAX_EOBRUN
    requires FirstAhead(r, e, s, block, was, planes[b], s.Ss, BehindHead(n, after), tail)
    requires n > 0 <==> AcLevel(s, block, s.Se, s.Al) == 0
    modifies r, planes
    ensures r.Valid() && planes[..] == old(planes[..])[b := planes[b]] && Next(r, e, after, tail)
    ensures EOBRUN == (if n > 0 then n - 1 else 0) && planes[b] == Updated(s, block, was, s.Se + 1)
  {
    hide BitReader.Valid, Next, AcLevel, AtZigzag, NBits, Extra, Updated, Level, Codable, BandKnown, ScanOk, RawTokens, FirstTokens,
      BehindHead, BehindSymbol, SymbolAt, FirstBehind, FirstSymbol, BitsOf, Decodes, Encodes;
    EOBRUN := 0;
    var k := s.Ss;
    while k <= s.Se
      invariant r.Valid() && planes[..] == old(planes[..])[b := planes[b]] && EOBRUN == 0 && s.Ss <= k
      invariant FirstAhead(r, e, s, block, was, planes[b], k, BehindHead(n, after), tail)
      invariant k > s.Se ==> AcLevel(s, block, s.Se, s.Al) != 0
      decreases s.Se + 1 - k
    {
      ghost var rest, p := BehindHead(n, after), NextLevel(s, block, k);
      if p > s.Se {
        assert AcLevel(s, block, s.Se, s.Al) == 0;
      }
      NextAtFirst(s, block, k, n, after);
      BehindIs(s, block, k, n, rest, after);
      var sym := TakeSym(r, t, h, e, SymbolAt(s, block, k, n), BehindSymbol(s, block, k, n, rest, after), tail);
      if sym % 16 == 0 && sym / 16 != 15 {
        EOBRUN := TakeRun(r, sym / 16, e, n, after, tail);
        FirstZerosStored(s, block, was, k, s.Se + 1);
        EOBRUN := EOBRUN - 1;
        return;
      }
      k := DecodeFirstAt(r, s, t, planes, b, k, sym, e, block, was, p, rest, tail);
    }
    BandEnd(s, block, n, after);
  }

  lemma BehindIs(s: Scan, block: Block, k: nat, n: nat, rest: seq<Token>, after: seq<Token>)
    requires AcScan(s) && Codable(s, block) && s.Ss <= k <= s.Se && n <= MAX_EOBRUN
    ensures var p := NextLevel(s, block, k);
            if p <= s.Se then
              BehindSymbol(s, block, k, n, rest, after) == FirstBehind(s, block, k, p) + rest
              && SymbolAt(s, block, k, n) == FirstSymbol(s, block, k, p)
            else n > 0 ==> BehindSymbol(s, block, k, n, rest, after) == RawTokens(BitsOf(n, NBits(n) - 1)) + after
  {
  }

  // At the end of the band nothing is left of the block.
  lemma BandEnd(s: Scan, block: Block, n: nat, after: seq<Token>)
    requires AcScan(s) && Codable(s, block) && n <= MAX_EOBRUN
    ensures FirstTokens(s, block, s.Se + 1, 0) + BehindHead(n, after) == BehindHead(n, after)
    ensures n == 0 ==> BehindHead(n, after) == after
  {
  }

  // ----- Blocks -----

  // The reader is at block i, in a run that has m blocks left.
  ghost predicate BlockAhead(r: BitReader, e: EncoderTable, codes: seq<BlockCode>, i: nat, m: nat, tail: Bits)
    reads r
  {
    InRun(codes, i, m) && Next(r, e, Upcoming(codes, i, m), tail)
  }

  // decode_mcu_AC_first
  method DecodeAcFirst(r: BitReader, s: Scan, t: DecoderTable, planes: array<Block>, b: nat, run: nat, ghost h: HuffTable,
                       ghost e: EncoderTable, ghost block: Block, ghost codes: seq<BlockCode>, ghost i: nat, ghost tail: Bits)
    returns (EOBRUN: nat)
    requires r.Valid() && Decodes(h, t) && Encodes(h, e) && b < planes.Length && i < |codes|
    requires AcScan(s) && s.Ah == 0 && Codable(s, block) && BandKnown(s, block, planes[b]) && codes[i] == FirstCode(s, block)
    requires BlockAhead(r, e, codes, i, run, tail)
    modifies r, planes
    ensures r.Valid() && planes[..] == old(planes[..])[b := Updated(s, block, old(planes[b]), s.Se + 1)]
    ensures BlockAhead(r, e, codes, i + 1, EOBRUN, tail)
  {
    hide BitReader.Valid, Next, AcLevel, AtZigzag, NBits, Updated, Level, Codable, BandKnown, OrderOk, TablesOk, RawTokens, FirstTokens,
      Decodes, Encodes, Upcoming, Tokens, RunStart;
    ghost var was := planes[b];
    assert planes[..] == old(planes[..])[b := planes[b]];
    if run > 0 {
      ContinueBlock(codes, i, run);
      NoRawBits();
      assert [] + Upcoming(codes, i + 1, run - 1) == Upcoming(codes, i + 1, run - 1);
      NoneLeftNoTokens(s, block, s.Ss, 0);
      FirstZerosStored(s, block, was, s.Ss, s.Se + 1);
      UpdatedNone(s, block, was);
      EOBRUN := run - 1;
    } else {
      ghost var n := StartBlock(codes, i);
      UpdatedNone(s, block, was);
      ghost var after := Upcoming(codes, i + 1, if n > 0 then n - 1 else 0);
      NoRawBits();
      assert [] + after == after;
      EOBRUN := DecodeFirstBand(r, s, t, planes, b, h, e, block, was, n, after, tail);
    }
  }
}
