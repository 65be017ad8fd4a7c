// The decoder's side of refinement scans (decode_mcu_AC_refine in jdphuff.c).
module PhuffRefine {
  import opened Arithmetic
  import opened BitFields
  import opened BitStrings
  import opened ArithScan
  import opened PointTransform
  import opened HuffmanLimit
  import opened HuffmanGen
  import opened HuffmanTables
  import opened HuffmanDecode
  import opened HuffmanReader
  import opened HuffmanBlock
  import opened PhuffTokens
  import opened PhuffBlocks
  import opened PhuffEncoder
  import opened PhuffDecoder

  predicate RefineScan(s: Scan) {
    s.Ah == s.Al + 1 && s.Al <= 13
  }

  // The bit to be added is still clear in what is known of a coefficient.
  lemma BitIsClear(s: Scan, block: Block, k: nat)
    requires AcScan(s) && RefineScan(s) && s.Ss <= k <= s.Se
    ensures Shr(Level(s, block, k, s.Ah), s.Al) % 2 == 0
  {
    hide ScanOk, AtZigzag, Shr, Shl, Abs;
    var c := AtZigzag(s, block, k);
    BitOfPoint(c, s.Al);
  }

  lemma BitOfPoint(c: Coef, al: nat)
    ensures Shr(AcPoint(c, al + 1), al) % 2 == 0
  {
    hide Shr, Scale;
    var y := Shr(Abs(c), al + 1);
    LowBitClear(y, al);
    LowBitClear(0 - y, al);
  }

  // A coefficient that is nonzero already: its magnitude grows if the next bit says so.
  method CorrectCoef(r: BitReader, s: Scan, c: Coef, ghost e: EncoderTable, ghost block: Block, ghost k: nat,
                     ghost rest: seq<Token>, ghost tail: Bits)
    returns (c': Coef)
    requires r.Valid() && AcScan(s) && RefineScan(s) && s.Ss <= k <= s.Se && c == Level(s, block, k, s.Ah)
    requires AcLevel(s, block, k, s.Al) > 1 && Next(r, e, RawTokens([AcLevel(s, block, k, s.Al) % 2 == 1]) + rest, tail)
    modifies r
    ensures r.Valid() && c' == Level(s, block, k, s.Al) && Next(r, e, rest, tail)
  {
    hide BitReader.Valid, Next, AcLevel, AtZigzag, Level, ScanOk, Scale, Wrap16, Shr, RawTokens;
    RefineLevel(s, block, k);
    BitIsClear(s, block, k);
    OneBit(AcLevel(s, block, k, s.Al) % 2 == 1);
    c' := c;
    var bit := TakeRaw(r, 1, e, [AcLevel(s, block, k, s.Al) % 2 == 1], rest, tail);
    if bit == 1 && Shr(c, s.Al) % 2 == 0 {
      var p1: int := Scale(1, s.Al);
      c' := Wrap16(if c >= 0 then c + p1 else c - p1);
    }
  }

  lemma OneBit(b: bool)
    ensures Num([b]) == if b then 1 else 0
  {
    assert [b][..0] == [];
  }

  // Position k: corrected if it is nonzero already
  method CorrectAt(r: BitReader, s: Scan, planes: array<Block>, b: nat, k: nat, ghost e: EncoderTable, ghost block: Block,
                   ghost was: Block, ghost j: nat, ghost rest: seq<Token>, ghost tail: Bits)
    requires r.Valid() && AcScan(s) && RefineScan(s) && s.Ss <= k <= s.Se && k < j <= DCTSIZE2 && b < planes.Length
    requires BandKnown(s, block, was) && planes[b] == Updated(s, block, was, k) && AcLevel(s, block, k, s.Al) != 1
    requires Next(r, e, RawTokens(Corrections(s, block, k, j)) + rest, tail)
    modifies r, planes
    ensures r.Valid() && planes[..] == old(planes[..])[b := planes[b]] && planes[b] == Updated(s, block, was, k + 1)
    ensures Next(r, e, RawTokens(Corrections(s, block, k + 1, j)) + rest, tail)
  {
    hide BitReader.Valid, Next, AcLevel, AtZigzag, Updated, Level, BandKnown, OrderOk, TablesOk, RawTokens;
    RowBefore(s, block, was, k);
    CorrectionsFrom(s, block, k, j);
    UpdatedNext(s, block, was, k);
    var i := NaturalOrder(s, k);
    if planes[b][i] != 0 {
      ghost var bit := [AcLevel(s, block, k, s.Al) % 2 == 1];
      RawConcat(bit, Corrections(s, block, k + 1, j));
      Associate3(RawTokens(bit), RawTokens(Corrections(s, block, k + 1, j)), rest);
      var c := CorrectCoef(r, s, planes[b][i], e, block, k, RawTokens(Corrections(s, block, k + 1, j)) + rest, tail);
      planes[b] := planes[b][i := c];
    } else {
      assert [] + Corrections(s, block, k + 1, j) == Corrections(s, block, k + 1, j);
    }
  }

  // What a row holds at a position that has not been reached
  lemma RowBefore(s: Scan, block: Block, was: Block, k: nat)
    requires AcScan(s) && RefineScan(s) && s.Ss <= k <= s.Se && BandKnown(s, block, was)
    ensures var c := Updated(s, block, was, k)[s.order[k]];
            && c == Level(s, block, k, s.Ah) && (c != 0 <==> AcLevel(s, block, k, s.Al) > 1)
    ensures AcLevel(s, block, k, s.Al) == 0 ==> Level(s, block, k, s.Al) == 0
  {
    hide AcLevel, AtZigzag, Level, OrderOk, TablesOk, Updated;
    UpdatedBeyond(s, block, was, k, k);
    RefineLevel(s, block, k);
    LevelZero(s, block, k, s.Al);
  }

  // The do loop: pass over coefficients that are nonzero already and r that stay zero.
  method Advance(r: BitReader, s: Scan, planes: array<Block>, b: nat, k0: nat, zeros: nat, ghost e: EncoderTable,
                 ghost block: Block, ghost was: Block, ghost rest: seq<Token>, ghost tail: Bits)
    returns (k: nat)
    requires r.Valid() && AcScan(s) && RefineScan(s) && s.Ss <= k0 <= s.Se && b < planes.Length && !NoneNew(s, block, k0)
    requires BandKnown(s, block, was) && planes[b] == Updated(s, block, was, k0) && zeros == Passed(s, block, k0, 0)
    requires Next(r, e, RawTokens(Corrections(s, block, k0, Target(s, block, k0, 0))) + rest, tail)
    modifies r, planes
    ensures r.Valid() && planes[..] == old(planes[..])[b := planes[b]] && k == Target(s, block, k0, 0)
    ensures planes[b] == Updated(s, block, was, k) && Next(r, e, rest, tail)
  {
    hide BitReader.Valid, Next, AcLevel, AtZigzag, Updated, Level, BandKnown, OrderOk, TablesOk, RawTokens, NoneNew;
    ghost var p, q := Target(s, block, k0, 0), Passed(s, block, k0, 0);
    k := k0;
    var left: nat := zeros;
    while k <= s.Se
      invariant r.Valid() && planes[..] == old(planes[..])[b := planes[b]] && s.Ss <= k <= p && left <= q
      invariant planes[b] == Updated(s, block, was, k) && !NoneNew(s, block, k)
      invariant Target(s, block, k, q - left) == p && Passed(s, block, k, q - left) == q
      invariant Next(r, e, RawTokens(Corrections(s, block, k, p)) + rest, tail)
      decreases s.Se + 1 - k
    {
      RowBefore(s, block, was, k);
      OnTheWay(s, block, k, q - left);
      if planes[b][NaturalOrder(s, k)] == 0 {
        if left == 0 {
          NoRawBits();
          assert Corrections(s, block, p, p) == [] && [] + rest == rest;
          return;
        }
        left := left - 1;
      }
      CorrectAt(r, s, planes, b, k, e, block, was, p, rest, tail);
      k := k + 1;
    }
    assert false;
  }

  // Before the target, a position that stays zero leaves fewer zeros to pass.
  lemma OnTheWay(s: Scan, block: Block, k: nat, r: nat)
    requires |s.order| == DCTSIZE2 && s.Se < DCTSIZE2 && k <= s.Se && !NoneNew(s, block, k) && r <= 15
    ensures var p, q, a := Target(s, block, k, r), Passed(s, block, k, r), AcLevel(s, block, k, s.Al);
            && (a > 1 ==> k < p && !NoneNew(s, block, k + 1) && Target(s, block, k + 1, r) == p && Passed(s, block, k + 1, r) == q)
            && (a <= 1 && q == r ==> k == p)
            && (a <= 1 && q > r ==> a == 0 && r < 15 && k < p && !NoneNew(s, block, k + 1)
                                    && Target(s, block, k + 1, r + 1) == p && Passed(s, block, k + 1, r + 1) == q)
  {
    hide AcLevel;
  }

  // ----- The band -----

  // The position behind the last coefficient that became nonzero, or on the way to one
  ghost predicate RefineAhead(r: BitReader, e: EncoderTable, s: Scan, block: Block, was: Block, row: Block, k: nat,
                              rest: seq<Token>, tail: Bits)
    reads r
  {
    && AcScan(s) && RefineScan(s) && BandKnown(s, block, was) && s.Ss <= k <= s.Se + 1
    && row == Updated(s, block, was, k) && Next(r, e, RefineTokens(s, block, k, 0, []) + rest, tail)
    && (NoneNew(s, block, k) ==> k == TailStart(s, block, s.Se + 1))
  }

  // One symbol with the coefficients up to its target
  method DecodeRefineAt(r: BitReader, s: Scan, t: DecoderTable, planes: array<Block>, b: nat, k: nat, sym: nat,
                        ghost e: EncoderTable, ghost block: Block, ghost was: Block, ghost rest: seq<Token>, ghost tail: Bits)
    returns (k': nat)
    requires r.Valid() && AcScan(s) && RefineScan(s) && BandKnown(s, block, was) && b < planes.Length
    requires s.Ss <= k <= s.Se && !NoneNew(s, block, k) && planes[b] == Updated(s, block, was, k)
    requires sym == RefineSymbol(s, block, k) && Next(r, e, RefineBehind(s, block, k) + rest, tail)
    modifies r, planes
    ensures r.Valid() && planes[..] == old(planes[..])[b := planes[b]] && k < k'
    ensures RefineAhead(r, e, s, block, was, planes[b], k', rest, tail)
  {
    hide BitReader.Valid, Next, AcLevel, AtZigzag, Updated, Level, BandKnown, OrderOk, TablesOk, RawTokens, NoneNew, RefineTokens,
      Target, Passed, Corrections, TailStart, Scale, Wrap16;
    ghost var p, q := Target(s, block, k, 0), Passed(s, block, k, 0);
    ghost var behind := RefineTokens(s, block, p + 1, 0, []) + rest;
    ghost var corrections := Corrections(s, block, k, p);
    RefineNew(s, block, k);
    var run, size := sym / 16, sym % 16;
    var v: Coef := 0;
    if size != 0 {
      ghost var sign := [Positive(s, block, p)];
      OneBit(Positive(s, block, p));
      RefineGroups(RawTokens(sign), RawTokens(corrections), RefineTokens(s, block, p + 1, 0, []), rest);
      var bit := TakeRaw(r, 1, e, sign, RawTokens(corrections) + behind, tail);
      var p1: int := Scale(1, s.Al);
      v := Wrap16(if bit == 1 then p1 else 0 - p1);
      NewLevel(s, block, p);
    } else {
      RefineGroups([], RawTokens(corrections), RefineTokens(s, block, p + 1, 0, []), rest);
      assert [] + (RawTokens(corrections) + behind) == RawTokens(corrections) + behind;
    }
    k' := Advance(r, s, planes, b, k, run, e, block, was, behind, tail);
    RowBefore(s, block, was, p);
    UpdatedNext(s, block, was, p);
    if size != 0 {
      planes[b] := planes[b][NaturalOrder(s, k') := v];
    }
    k' := k' + 1;
  }

  lemma RefineGroups(a: seq<Token>, b: seq<Token>, c: seq<Token>, d: seq<Token>)
    ensures (a + b + c) + d == a + (b + (c + d))
    ensures (b + c) + d == b + (c + d)
  {
  }

  // A new coefficient has one bit.
  lemma NewLevel(s: Scan, block: Block, k: nat)
    requires AcScan(s) && RefineScan(s) && s.Ss <= k <= s.Se && AcLevel(s, block, k, s.Al) == 1
    ensures Level(s, block, k, s.Al) == if Positive(s, block, k) then Wrap16(Scale(1, s.Al)) else Wrap16(0 - Scale(1, s.Al))
  {
    RefineLevel(s, block, k);
  }

  function RefineSymbol(s: Scan, block: Block, k: nat): (sym: UInt8)
    requires AcScan(s) && k <= s.Se && !NoneNew(s, block, k)
  {
    if AcLevel(s, block, Target(s, block, k, 0), s.Al) == 1 then 16 * Passed(s, block, k, 0) + 1 else 0xF0
  }

  // What is behind that symbol: a sign, the correction bits on the way, and the rest of the head
  function RefineBehind(s: Scan, block: Block, k: nat): seq<Token>
    requires AcScan(s) && k <= s.Se && !NoneNew(s, block, k)
  {
    var p := Target(s, block, k, 0);
    (if AcLevel(s, block, p, s.Al) == 1 then RawTokens([Positive(s, block, p)]) else [])
    + RawTokens(Corrections(s, block, k, p)) + RefineTokens(s, block, p + 1, 0, [])
  }

  lemma NextAtRefine(s: Scan, block: Block, k: nat)
    requires AcScan(s) && k <= s.Se && !NoneNew(s, block, k)
    ensures RefineTokens(s, block, k, 0, []) == [Sym(RefineSymbol(s, block, k))] + RefineBehind(s, block, k)
  {
    hide AcLevel, AtZigzag, RefineTokens, NoneNew, Target, Passed, Corrections, ScanOk;
    var p := Target(s, block, k, 0);
    NextRefine(s, block, k, 0, []);
    assert [] + Corrections(s, block, k, p) == Corrections(s, block, k, p);
    assert RawTokens([Positive(s, block, p)]) == [Raw(Positive(s, block, p))];
  }

  // The target is new or not; after it, either more is to come or it was the last.
  lemma RefineNew(s: Scan, block: Block, k: nat)
    requires AcScan(s) && s.Ss <= k <= s.Se && !NoneNew(s, block, k)
    ensures var p := Target(s, block, k, 0);
            && RefineSymbol(s, block, k) / 16 == Passed(s, block, k, 0)
            && (RefineSymbol(s, block, k) % 16 != 0 <==> AcLevel(s, block, p, s.Al) == 1)
            && (AcLevel(s, block, p, s.Al) != 1 ==> AcLevel(s, block, p, s.Al) == 0)
            && (NoneNew(s, block, p + 1) ==> p + 1 == TailStart(s, block, s.Se + 1))
  {
    hide AcLevel, AtZigzag, RefineTokens, ScanOk;
    var p := Target(s, block, k, 0);
    NextRefine(s, block, k, 0, []);
    if NoneNew(s, block, p + 1) {
      var t := TailStart(s, block, s.Se + 1);
      assert AcLevel(s, block, p, s.Al) == 1;
    }
  }

  // The coefficients behind the end of the band: only corrections
  method CorrectRest(r: BitReader, s: Scan, planes: array<Block>, b: nat, k0: nat, ghost e: EncoderTable, ghost block: Block,
                     ghost was: Block, ghost rest: seq<Token>, ghost tail: Bits)
    requires r.Valid() && AcScan(s) && RefineScan(s) && s.Ss <= k0 <= s.Se + 1 && b < planes.Length && NoneNew(s, block, k0)
    requires BandKnown(s, block, was) && planes[b] == Updated(s, block, was, k0)
    requires Next(r, e, RawTokens(Corrections(s, block, k0, s.Se + 1)) + rest, tail)
    modifies r, planes
    ensures r.Valid() && planes[..] == old(planes[..])[b := planes[b]]
    ensures planes[b] == Updated(s, block, was, s.Se + 1) && Next(r, e, rest, tail)
  {
    hide BitReader.Valid, Next, AcLevel, AtZigzag, Updated, Level, BandKnown, ScanOk, RawTokens;
    for k := k0 to s.Se + 1
      invariant r.Valid() && planes[..] == old(planes[..])[b := planes[b]]
      invariant planes[b] == Updated(s, block, was, k) && Next(r, e, RawTokens(Corrections(s, block, k, s.Se + 1)) + rest, tail)
    {
      CorrectAt(r, s, planes, b, k, e, block, was, s.Se + 1, rest, tail);
    }
    NoRawBits();
    assert Corrections(s, block, s.Se + 1, s.Se + 1) == [] && [] + rest == rest;
  }

  // The symbols of a block that is not in a run, up to the run that it starts, if any
  method DecodeRefineHead(r: BitReader, s: Scan, t: DecoderTable, planes: array<Block>, b: nat, ghost h: HuffTable,
                          ghost e: EncoderTable, ghost block: Block, ghost was: Block, ghost n: nat, ghost after: seq<Token>,
                          ghost tail: Bits)
    returns (EOBRUN: nat, k: nat)
    requires r.Valid() && Decodes(h, t) && Encodes(h, e) && b < planes.Length && n <= MAX_EOBRUN
    requires RefineAhead(r, e, s, block, was, planes[b], s.Ss, BehindHead(n, after), tail)
    requires n > 0 <==> TailStart(s, block, s.Se + 1) <= s.Se
    modifies r, planes
    ensures r.Valid() && planes[..] == old(planes[..])[b := planes[b]] && Next(r, e, after, tail)
    ensures EOBRUN == n && k == TailStart(s, block, s.Se + 1) && planes[b] == Updated(s, block, was, k)
  {
    hide BitReader.Valid, Next, AcLevel, AtZigzag, Updated, Level, BandKnown, ScanOk, RawTokens, RefineTokens, NoneNew, BehindHead,
      RefineBehind, RefineSymbol, BitsOf, Decodes, Encodes, TailStart, NBits;
    EOBRUN := 0;
    k := s.Ss;
    ghost var rest := BehindHead(n, after);
    while k <= s.Se
      invariant r.Valid() && planes[..] == old(planes[..])[b := planes[b]] && EOBRUN == 0 && s.Ss <= k
      invariant RefineAhead(r, e, s, block, was, planes[b], k, rest, tail)
      decreases s.Se + 1 - k
    {
      ghost var sym0, behind := NextRefineSymbol(s, block, k, n, rest, after);
      var sym := TakeSym(r, t, h, e, sym0, behind, tail);
      if sym % 16 == 0 && sym / 16 != 15 {
        EOBRUN := TakeRun(r, sym / 16, e, n, after, tail);
        return;
      }
      k := DecodeRefineAt(r, s, t, planes, b, k, sym, e, block, was, rest, tail);
    }
    RefineEnd(s, block, k, n, after);
  }

  // The symbol that is next, the run's or one of the block's own, and what is behind it
  lemma NextRefineSymbol(s: Scan, block: Block, k: nat, n: nat, rest: seq<Token>, after: seq<Token>)
    returns (sym: UInt8, behind: seq<Token>)
    requires AcScan(s) && s.Ss <= k <= s.Se && n <= MAX_EOBRUN && rest == BehindHead(n, after)
    requires NoneNew(s, block, k) ==> n > 0
    ensures RefineTokens(s, block, k, 0, []) + rest == [Sym(sym)] + behind
    ensures NoneNew(s, block, k) ==>
              behind == RawTokens(BitsOf(n, NBits(n) - 1)) + after && sym % 16 == 0 && sym / 16 == NBits(n) - 1 < 15
    ensures !NoneNew(s, block, k) ==>
              sym == RefineSymbol(s, block, k) && behind == RefineBehind(s, block, k) + rest && (sym % 16 != 0 || sym / 16 == 15)
  {
    hide AcLevel, AtZigzag, ScanOk, RawTokens, RefineTokens, NoneNew, BehindHead, RefineBehind, BitsOf, TailStart, NBits;
    NoneNewNoTokens(s, block, k, 0, []);
    if NoneNew(s, block, k) {
      RunBits(n);
      RunIs(n, after);
      assert [] + rest == rest;
      sym, behind := 16 * (NBits(n) - 1), RawTokens(BitsOf(n, NBits(n) - 1)) + after;
    } else {
      NextAtRefine(s, block, k);
      Associate3([Sym(RefineSymbol(s, block, k))], RefineBehind(s, block, k), rest);
      sym, behind := RefineSymbol(s, block, k), RefineBehind(s, block, k) + rest;
    }
  }

  lemma RunIs(n: nat, after: seq<Token>)
    requires 0 < n <= MAX_EOBRUN
    ensures BehindHead(n, after) == RunStart(n, after)
  {
  }

  lemma RefineEnd(s: Scan, block: Block, k: nat, n: nat, after: seq<Token>)
    requires |s.order| == DCTSIZE2 && s.Se < DCTSIZE2 && s.Se < k && n <= MAX_EOBRUN
    ensures NoneNew(s, block, k) && RefineTokens(s, block, k, 0, []) + BehindHead(n, after) == BehindHead(n, after)
    ensures n == 0 ==> BehindHead(n, after) == after
  {
  }

  // decode_mcu_AC_refine
  method DecodeAcRefine(r: BitReader, s: Scan, t: DecoderTable, planes: array<Block>, b: nat, run: nat, ghost h: HuffTable,
                        ghost e: EncoderTable, ghost block: Block, ghost codes: seq<BlockCode>, ghost i: nat, ghost tail: Bits)
    returns (EOBRUN: nat)
    requires r.Valid() && Decodes(h, t) && Encodes(h, e) && b < planes.Length && i < |codes|
    requires AcScan(s) && RefineScan(s) && BandKnown(s, block, planes[b]) && codes[i] == RefineCode(s, block)
    requires BlockAhead(r, e, codes, i, run, tail)
    modifies r, planes
    ensures r.Valid() && planes[..] == old(planes[..])[b := Updated(s, block, old(planes[b]), s.Se + 1)]
    ensures BlockAhead(r, e, codes, i + 1, EOBRUN, tail)
  {
    hide BitReader.Valid, Next, AcLevel, AtZigzag, NBits, Updated, Level, BandKnown, OrderOk, TablesOk, RawTokens, RefineTokens,
      Decodes, Encodes, Upcoming, Tokens, RunStart, TailStart, NoneNew, Corrections;
    ghost var was := planes[b];
    ghost var tailBits := RawTokens(codes[i].tail);
    assert planes[..] == old(planes[..])[b := planes[b]];
    UpdatedNone(s, block, was);
    NoneNewNoTokens(s, block, s.Ss, 0, []);
    BandTail(s, block);
    EOBRUN := run;
    var k := s.Ss;
    ghost var left := if run > 0 then run - 1 else 0;
    if EOBRUN == 0 {
      ghost var n := StartBlock(codes, i);
      left := if n > 0 then n - 1 else 0;
      ghost var after := if n > 0 then tailBits + Upcoming(codes, i + 1, left) else Upcoming(codes, i + 1, 0);
      EOBRUN, k := DecodeRefineHead(r, s, t, planes, b, h, e, block, was, n, after, tail);
    } else {
      ContinueBlock(codes, i, run);
    }
    if EOBRUN > 0 {
      CorrectRest(r, s, planes, b, k, e, block, was, Upcoming(codes, i + 1, left), tail);
      EOBRUN := EOBRUN - 1;
    }
  }

  lemma BandTail(s: Scan, block: Block)
    requires AcScan(s)
    ensures var t := TailStart(s, block, s.Se + 1);
            s.Ss <= t <= s.Se + 1 && NoneNew(s, block, t) && (NoneNew(s, block, s.Ss) ==> t == s.Ss)
  {
    hide ScanOk, AcLevel;
  }
}
