// What progressive Huffman scans emit, as section G.1.2 of ITU-T T.81 describes it, in closed form.
module PhuffFigures {
  import opened Arithmetic
  import opened BitFields
  import opened BitStrings
  import opened ArithScan
  import opened HuffmanBlock
  import opened HuffmanSegments
  import opened HuffmanFigures
  import opened PhuffTokens
  import opened PhuffBlocks
  import PhuffScan
  import PhuffDc

  // ----- Runs -----

  lemma {:induction false} HigherBit(x: nat, m: nat)
    ensures BitsOf(x + Scale(1, m), m) == BitsOf(x, m)
    decreases m
  {
    if m > 0 {
      HigherBit(x / 2, m - 1);
      assert (x + 2 * Scale(1, m - 1)) / 2 == x / 2 + Scale(1, m - 1);
    }
  }

  // Table G.1: EOBm, whose low digit is zero, stands for 2^m up to 2^(m+1) - 1 blocks, and m bits tell
  // which; the correction bits follow.
  lemma RunFigure(n: nat, m: nat, bits: Bits)
    requires 0 < n <= MAX_EOBRUN && Scale(1, m) <= n < Scale(1, m + 1)
    ensures m <= 14 && Run(n, bits) == [Sym(0x10 * m)] + RawTokens(BitsOf(n - Scale(1, m), m)) + RawTokens(bits)
  {
    hide Scale, BitsOf, RawTokens;
    CategoryIs(n, m + 1);
    RunBits(n);
    HigherBit(n - Scale(1, m), m);
  }

  // A block that only joins a run emits nothing, until the run has 0x7FFF blocks or the buffer might not
  // take the correction bits of another one.
  lemma RunWaits(c: BlockCode, n: nat, bits: Bits)
    requires Pending(n, bits) && c.head == [] && c.hasTail
    ensures n + 1 < 0x7FFF && |bits| + |c.tail| <= 1000 - 63 ==> Step(c, n, bits) == Stepped([], n + 1, bits + c.tail)
    ensures !(n + 1 < 0x7FFF && |bits| + |c.tail| <= 1000 - 63) ==> Step(c, n, bits) == Stepped(Run(n + 1, bits + c.tail), 0, [])
  {
    hide Run;
    assert [] + Run(n + 1, bits + c.tail) == Run(n + 1, bits + c.tail);
  }

  // ----- First scans of AC coefficients -----

  // Less than 2^10 after the point transform
  predicate SmallLevel(s: Scan, block: Block, k: nat)
    requires |s.order| == DCTSIZE2 && k < DCTSIZE2
  {
    Abs(AtZigzag(s, block, k)) / Scale(1, s.Al) < 1024
  }

  // Such values are accepted in a first pass, and no others.
  lemma CodableExactly(s: Scan, block: Block)
    requires |s.order| == DCTSIZE2 && s.Se < DCTSIZE2
    ensures Codable(s, block) <==> forall k :: s.Ss <= k <= s.Se ==> SmallLevel(s, block, k)
  {
    hide NBits, AcLevel, SmallLevel;
    forall k | s.Ss <= k <= s.Se
      ensures NBits(AcLevel(s, block, k, s.Al)) <= 10 <==> SmallLevel(s, block, k)
    {
      SmallExactly(s, block, k);
    }
  }

  lemma SmallExactly(s: Scan, block: Block, k: nat)
    requires |s.order| == DCTSIZE2 && k < DCTSIZE2
    ensures NBits(AcLevel(s, block, k, s.Al)) <= 10 <==> SmallLevel(s, block, k)
  {
    hide NBits, AtZigzag, Scale, Shr;
    ShrQuotient(Abs(AtZigzag(s, block, k)), s.Al);
    BitsBelow(AcLevel(s, block, k, s.Al), 10);
    PowersOfTen();
  }

  // Symbols for a run of sixteen zeros
  function Sixteens(n: nat): seq<Token> {
    seq(n, i => Sym(0xF0))
  }

  // The coefficient divided by 2^Al, rounded towards zero
  predicate Quotient(s: Scan, block: Block, k: nat, v: int)
    requires |s.order| == DCTSIZE2 && k < DCTSIZE2
  {
    var c: int := AtZigzag(s, block, k);
    if c < 0 then v == -((-c) / Scale(1, s.Al)) else v == c / Scale(1, s.Al)
  }

  lemma QuotientIs(s: Scan, block: Block, k: nat, v: int)
    requires |s.order| == DCTSIZE2 && k < DCTSIZE2
    ensures Quotient(s, block, k, v) <==> v == Shifted(s, block, k)
  {
    ShrQuotient(Abs(AtZigzag(s, block, k)), s.Al);
    hide Shr, AtZigzag;
  }

  // Positions k to j - 1 of the band are zero, and j is not.
  ghost predicate ZeroLevels(s: Scan, block: Block, k: nat, j: nat)
    requires |s.order| == DCTSIZE2 && s.Se < DCTSIZE2
  {
    s.Ss <= k <= j <= s.Se && AcLevel(s, block, j, s.Al) != 0 && forall i :: k <= i < j ==> AcLevel(s, block, i, s.Al) == 0
  }

  // A coefficient: the run of zeros by sixteens, the rest of it and the category, and the value bits
  lemma FirstNext(s: Scan, block: Block, k: nat, j: nat, v: int, n: nat)
    requires AcScan(s) && Codable(s, block) && ZeroLevels(s, block, k, j) && Quotient(s, block, j, v) && InCategory(v, n)
    ensures 1 <= n <= 15
    ensures FirstTokens(s, block, k, 0)
            == Sixteens((j - k) / 16)
               + ([Sym(0x10 * ((j - k) % 16) + n)] + RawTokens(BitsOf(ValueBits(v, n), n)) + FirstTokens(s, block, j + 1, 0))
  {
    hide ScanOk, AcLevel, AtZigzag, BitsOf, NBits, Extra, ValueBits, InCategory, RawTokens, Quotient, Codable, FirstTokens, Sixteens;
    QuotientIs(s, block, j, v);
    CodableRange(s, block, j);
    RangeBits(v);
    CategoryIs(v, n);
    ValueBitsAre(v, n);
    NonzeroCategory(v, n);
    FirstZeros(s, block, k, j, 0);
    FirstSixteens(s, block, j, j - k);
    FirstValue(s, block, j, (j - k) % 16);
  }

  lemma FirstValue(s: Scan, block: Block, j: nat, r: nat)
    requires AcScan(s) && Codable(s, block) && s.Ss <= j <= s.Se && Shifted(s, block, j) != 0 && r <= 15
    ensures var v := Shifted(s, block, j);
            && InRange(v) && NBits(Abs(v)) <= 15
            && FirstTokens(s, block, j, r)
               == [Sym(0x10 * r + NBits(Abs(v)))] + RawTokens(BitsOf(Extra(v), NBits(Abs(v)))) + FirstTokens(s, block, j + 1, 0)
  {
    hide ScanOk, AcLevel, AtZigzag, BitsOf, NBits, Extra, RawTokens, Codable, Shifted;
    CodableRange(s, block, j);
    RangeBits(Shifted(s, block, j));
  }

  lemma FirstLong(s: Scan, block: Block, j: nat, r: nat)
    requires AcScan(s) && Codable(s, block) && s.Ss <= j <= s.Se && Shifted(s, block, j) != 0 && r > 15
    ensures FirstTokens(s, block, j, r) == [Sym(0xF0)] + FirstTokens(s, block, j, r - 16)
  {
    hide ScanOk, AcLevel, AtZigzag, BitsOf, NBits, Extra, RawTokens, Codable, Shifted;
  }

  lemma NonzeroCategory(v: int, n: nat)
    requires InCategory(v, n) && v != 0
    ensures n >= 1
  {
  }

  lemma {:induction false} FirstSixteens(s: Scan, block: Block, j: nat, r: nat)
    requires AcScan(s) && Codable(s, block) && s.Ss <= j <= s.Se && Shifted(s, block, j) != 0
    ensures FirstTokens(s, block, j, r) == Sixteens(r / 16) + FirstTokens(s, block, j, r % 16)
    decreases r
  {
    hide ScanOk, AtZigzag, Shifted, Codable, FirstTokens, Sixteens;
    OneSixteen(r);
    if r > 15 {
      FirstSixteens(s, block, j, r - 16);
      FirstLong(s, block, j, r);
    } else {
      assert [] + FirstTokens(s, block, j, r) == FirstTokens(s, block, j, r);
    }
  }

  lemma OneSixteen(r: nat)
    ensures if r > 15 then
              Sixteens(r / 16) == [Sym(0xF0)] + Sixteens((r - 16) / 16) && r % 16 == (r - 16) % 16
            else Sixteens(r / 16) == [] && r % 16 == r
  {
    assert r > 15 ==> r / 16 == 1 + (r - 16) / 16;
  }

  // Behind the last one nothing is emitted; the block then joins a run just if the band's last position
  // is zero.
  lemma FirstEnd(s: Scan, block: Block, k: nat)
    requires AcScan(s) && Codable(s, block) && s.Ss <= k && forall i :: k <= i <= s.Se ==> AcLevel(s, block, i, s.Al) == 0
    ensures FirstTokens(s, block, k, 0) == [] && (FirstCode(s, block).hasTail <==> AcLevel(s, block, s.Se, s.Al) == 0)
    ensures FirstCode(s, block).head == FirstTokens(s, block, s.Ss, 0) && FirstCode(s, block).tail == []
  {
    hide ScanOk, AcLevel;
    NoneLeftNoTokens(s, block, k, 0);
  }

  // ----- Refinement of AC coefficients -----

  // So many coefficients from position k up to j are zero.
  function ZeroCount(s: Scan, block: Block, k: nat, j: nat): (n: nat)
    requires |s.order| == DCTSIZE2 && k <= j <= DCTSIZE2
    decreases j - k
  {
    if k == j then 0 else (if AcLevel(s, block, k, s.Al) == 0 then 1 else 0) + ZeroCount(s, block, k + 1, j)
  }

  // The next bit of the magnitude of each coefficient from position k up to j that is known already
  function NextBits(s: Scan, block: Block, k: nat, j: nat): Bits
    requires |s.order| == DCTSIZE2 && k <= j <= DCTSIZE2
    decreases j - k
  {
    if k == j then []
    else
      (if Abs(AtZigzag(s, block, k)) / Scale(1, s.Al) > 1 then [Abs(AtZigzag(s, block, k)) / Scale(1, s.Al) % 2 == 1] else [])
      + NextBits(s, block, k + 1, j)
  }

  lemma {:induction false} CorrectionsAre(s: Scan, block: Block, k: nat, j: nat)
    requires |s.order| == DCTSIZE2 && k <= j <= DCTSIZE2
    ensures Corrections(s, block, k, j) == NextBits(s, block, k, j)
    decreases j - k
  {
    if k < j {
      CorrectionsAre(s, block, k + 1, j);
      CorrectionsFrom(s, block, k, j);
      ShrQuotient(Abs(AtZigzag(s, block, k)), s.Al);
    }
  }

  // Position j is the next that becomes nonzero, behind at most 15 zeros.
  lemma {:induction false} TargetIs(s: Scan, block: Block, k: nat, r: nat, j: nat)
    requires |s.order| == DCTSIZE2 && s.Se < DCTSIZE2 && k <= j <= s.Se && AcLevel(s, block, j, s.Al) == 1
    requires (forall i :: k <= i < j ==> AcLevel(s, block, i, s.Al) != 1) && r + ZeroCount(s, block, k, j) <= 15
    ensures !NoneNew(s, block, k) && Target(s, block, k, r) == j && Passed(s, block, k, r) == r + ZeroCount(s, block, k, j)
    decreases j - k
  {
    hide AcLevel;
    if k < j {
      TargetIs(s, block, k + 1, if AcLevel(s, block, k, s.Al) == 0 then r + 1 else r, j);
    }
  }

  // Section G.1.2.3: a new coefficient has the number of zeros before it as high digit and 1 as low digit,
  // its sign (1 if it is positive), and then the bits of the known ones that were passed.
  lemma RefineNext(s: Scan, block: Block, k: nat, j: nat)
    requires AcScan(s) && s.Ss <= k <= j <= s.Se && AcLevel(s, block, j, s.Al) == 1
    requires (forall i :: k <= i < j ==> AcLevel(s, block, i, s.Al) != 1) && ZeroCount(s, block, k, j) <= 15
    ensures RefineTokens(s, block, k, 0, [])
            == [Sym(0x10 * ZeroCount(s, block, k, j) + 1), Raw(AtZigzag(s, block, j) > 0)] + RawTokens(NextBits(s, block, k, j))
               + RefineTokens(s, block, j + 1, 0, [])
  {
    hide AcLevel, AtZigzag, ScanOk, RefineTokens, Target, Passed, NextBits, Corrections, RawTokens, ZeroCount, NoneNew;
    TargetIs(s, block, k, 0, j);
    NextRefine(s, block, k, 0, []);
    CorrectionsAre(s, block, k, j);
    NewNonzero(s, block, j);
    assert [] + NextBits(s, block, k, j) == NextBits(s, block, k, j);
  }

  lemma NewNonzero(s: Scan, block: Block, j: nat)
    requires |s.order| == DCTSIZE2 && j < DCTSIZE2 && AcLevel(s, block, j, s.Al) == 1
    ensures Positive(s, block, j) <==> AtZigzag(s, block, j) > 0
  {
    hide AtZigzag;
  }

  lemma {:induction false} SixteenthIs(s: Scan, block: Block, k: nat, r: nat, p: nat)
    requires |s.order| == DCTSIZE2 && s.Se < DCTSIZE2 && k <= p <= s.Se && AcLevel(s, block, p, s.Al) == 0 && !NoneNew(s, block, k)
    requires (forall i :: k <= i < p ==> AcLevel(s, block, i, s.Al) != 1) && r + ZeroCount(s, block, k, p) == 15
    ensures Target(s, block, k, r) == p && Passed(s, block, k, r) == 15
    decreases p - k
  {
    hide AcLevel;
    if k < p {
      SixteenthIs(s, block, k + 1, if AcLevel(s, block, k, s.Al) == 0 then r + 1 else r, p);
    }
  }

  // Sixteen zeros before the next new coefficient have a symbol of their own, with the bits of the known
  // ones passed up to the sixteenth.
  lemma RefineSixteen(s: Scan, block: Block, k: nat, p: nat)
    requires AcScan(s) && s.Ss <= k <= p <= s.Se && AcLevel(s, block, p, s.Al) == 0 && !NoneNew(s, block, k)
    requires (forall i :: k <= i < p ==> AcLevel(s, block, i, s.Al) != 1) && ZeroCount(s, block, k, p) == 15
    ensures RefineTokens(s, block, k, 0, [])
            == [Sym(0xF0)] + RawTokens(NextBits(s, block, k, p)) + RefineTokens(s, block, p + 1, 0, [])
  {
    hide AcLevel, AtZigzag, ScanOk, RefineTokens, Target, Passed, NextBits, Corrections, RawTokens, ZeroCount, NoneNew;
    SixteenthIs(s, block, k, 0, p);
    NextRefine(s, block, k, 0, []);
    CorrectionsAre(s, block, k, p);
    assert [] + NextBits(s, block, k, p) == NextBits(s, block, k, p);
  }

  // Behind the last new coefficient there is no symbol, and the bits of the known ones join a run, unless
  // the band ends there.
  lemma RefineEnd(s: Scan, block: Block, t: nat)
    requires AcScan(s) && s.Ss <= t <= s.Se + 1 && NoneNew(s, block, t) && (t > s.Ss ==> AcLevel(s, block, t - 1, s.Al) == 1)
    ensures RefineTokens(s, block, t, 0, []) == []
    ensures var c := RefineCode(s, block);
            && c.head == RefineTokens(s, block, s.Ss, 0, []) && (c.hasTail <==> t <= s.Se)
            && c.tail == NextBits(s, block, t, s.Se + 1)
  {
    hide AcLevel, ScanOk;
    NoneNewNoTokens(s, block, t, 0, []);
    CorrectionsAre(s, block, t, s.Se + 1);
    assert TailStart(s, block, s.Se + 1) == t;
  }

  // ----- DC coefficients -----

  // The value divided by 2^Al, rounded down
  lemma DcRoundsDown(s: Scan, block: Block)
    ensures DcLevel(s, block) == block[0] as int / Scale(1, s.Al)
  {
    ShrQuotient(block[0], s.Al);
  }

  // Section G.1.2.1: a first scan codes the difference as a sequential one does, a refinement the next bit.
  lemma DcFigures(s: Scan, tbl: PhuffDc.TableNumber, block: Block, last: Coef, d: int, n: nat)
    requires d == block[0] as int / Scale(1, s.Al) - last && InCategory(d, n)
    ensures n <= 16
    ensures s.Ah == 0 ==> PhuffDc.BlockItems(s, tbl, block, last) == [PhuffDc.Code(tbl, n)] + PhuffDc.PlainItems(BitsOf(ValueBits(d, n), n))
    ensures s.Ah != 0 ==> PhuffDc.BlockItems(s, tbl, block, last) == [PhuffDc.Plain(block[0] as int / Scale(1, s.Al) % 2 == 1)]
  {
    DcRoundsDown(s, block);
    ShrQuotient(block[0], s.Al);
    hide BitsOf, NBits, Extra, InCategory, ValueBits, Scale, Shr;
    PhuffDc.DifferenceBits(d);
    CategoryIs(d, n);
    ValueBitsAre(d, n);
  }

  // Differences of less than 2^11 are accepted.
  lemma DcAcceptedExactly(s: Scan, block: Block, last: Coef)
    ensures PhuffDc.DcAccepted(s, block, last) <==> (s.Ah == 0 ==> Abs(block[0] as int / Scale(1, s.Al) - last) < 2048)
  {
    DcRoundsDown(s, block);
    BitsBelow(Abs(DcLevel(s, block) - last), 11);
    PowersOfTen();
  }

  // The blocks with their values after the point transform
  function AllLeveled(s: Scan, blocks: seq<Block>): (leveled: seq<Block>)
    ensures |leveled| == |blocks|
  {
    seq(|blocks|, i requires 0 <= i < |blocks| => PhuffDc.Leveled(s, blocks[i]))
  }

  // Block i is coded with the prediction that HuffmanFigures.PredictionIsLatest describes, behind a new
  // segment if a restart is due.
  lemma DcInScan(s: Scan, comps: seq<nat>, blocks: seq<Block>, i: nat)
    requires PhuffDc.BlocksFit(s, comps, blocks) && i < |blocks|
    ensures comps[i] < |s.comps|
    ensures var nc, leveled := |s.comps|, AllLeveled(s, blocks);
            var d := StateAt(s, comps, leveled, nc, i);
            var rest := PhuffDc.Parts(s, comps, blocks, i + 1, StateAt(s, comps, leveled, nc, i + 1));
            PhuffDc.Parts(s, comps, blocks, i, d)
            == (if Due(s, d) then [[]] else [])
               + [PhuffDc.BlockItems(s, s.comps[comps[i]].dcTbl, blocks[i], Current(s, d).last[comps[i]]) + rest[0]] + rest[1..]
  {
    hide PhuffDc.BlockItems, PhuffDc.Leveled, ScanOk, Due, Current, Following;
  }

  // ----- Restart intervals of AC scans -----

  // Segment j has the blocks of the interval j, and all of them have one.
  lemma {:induction false} PartsAre(s: Scan, codes: seq<BlockCode>, i: nat, j: nat)
    requires i <= |codes| && 0 < s.restartInterval && j < |PhuffScan.Parts(s, codes, i)|
    ensures var start, end := i + j * s.restartInterval, i + (j + 1) * s.restartInterval;
            && start <= |codes|
            && PhuffScan.Parts(s, codes, i)[j] == Tokens(codes[..if end < |codes| then end else |codes|], start, 0, [])
            && (j + 1 == |PhuffScan.Parts(s, codes, i)| <==> |codes| <= end)
    decreases j
  {
    hide Tokens;
    Distribute(s.restartInterval, j, 1);
    if j > 0 {
      var next := SegmentEnd(s, |codes|, i);
      PartsAre(s, codes, next, j - 1);
      Distribute(s.restartInterval, j - 1, 1);
    }
  }
}
