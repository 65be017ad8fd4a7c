// The statistics pass of the Huffman coder: it counts exactly the symbols that the output pass
// emits, so that tables generated from the counts have code words for all of them.
module HuffmanStatistics {
  import opened Arithmetic
  import opened BitFields
  import opened BitStrings
  import opened ArithScan
  import opened HuffmanMerge
  import opened HuffmanLimit
  import opened HuffmanGen
  import opened HuffmanTables
  import opened HuffmanBlock

  const NUM_HUFF_TBLS := 4
  const MAX_COEF_BITS := 10

  // ----- The symbols of a block -----

  // Those of the AC coefficients from position k on, after r zeros
  function AcSymbols(s: Scan, block: Block, k: nat, r: nat): (symbols: seq<UInt8>)
    requires |s.order| == DCTSIZE2 && AcInRange(s, block) && 1 <= k <= DCTSIZE2
    ensures |symbols| <= DCTSIZE2 - k + (r + 15) / 16
    decreases DCTSIZE2 - k, r
  {
    if k == DCTSIZE2 then (if r > 0 then [0] else [])
    else
      var v := AtZigzag(s, block, k);
      if v == 0 then AcSymbols(s, block, k + 1, r + 1)
      else if r > 15 then [0xF0] + AcSymbols(s, block, k, r - 16)
      else [RunSize(r, v)] + AcSymbols(s, block, k + 1, 0)
  }

  // The number of bits of some symbols and of what follows them
  function Length(t: EncoderTable, symbols: seq<UInt8>): nat
    requires EncoderShape(t)
  {
    if symbols == [] then 0 else t.ehufsi[symbols[0]] + symbols[0] % 16 + Length(t, symbols[1..])
  }

  ghost predicate AllCoded(t: EncoderTable, symbols: seq<UInt8>)
    requires EncoderShape(t)
  {
    forall i :: 0 <= i < |symbols| ==> t.ehufsi[symbols[i]] > 0
  }

  // Symbols that blocks accepted by the statistics pass give rise to
  predicate Countable(sym: UInt8) {
    sym % 16 <= MAX_COEF_BITS + 1
  }

  lemma {:induction false} AcSymbolsCoded(s: Scan, t: EncoderTable, block: Block, k: nat, r: nat)
    requires EncoderShape(t) && |s.order| == DCTSIZE2 && AcInRange(s, block) && 1 <= k <= DCTSIZE2
    ensures AcCoded(s, t, block, k, r) <==> AllCoded(t, AcSymbols(s, block, k, r))
    decreases DCTSIZE2 - k, r
  {
    hide AtZigzag, AllCoded;
    if k == DCTSIZE2 {
      AllCodedOne(t, 0, []);
      assert [0] + [] == [0];
      AllCodedNone(t);
    } else {
      var v := AtZigzag(s, block, k);
      if v == 0 {
        AcSymbolsCoded(s, t, block, k + 1, r + 1);
      } else if r > 15 {
        AcSymbolsCoded(s, t, block, k, r - 16);
        AllCodedOne(t, 0xF0, AcSymbols(s, block, k, r - 16));
      } else {
        AcSymbolsCoded(s, t, block, k + 1, 0);
        AllCodedOne(t, RunSize(r, v), AcSymbols(s, block, k + 1, 0));
      }
    }
  }

  lemma AllCodedNone(t: EncoderTable)
    requires EncoderShape(t)
    ensures AllCoded(t, [])
  {
  }

  lemma AllCodedOne(t: EncoderTable, sym: UInt8, rest: seq<UInt8>)
    requires EncoderShape(t)
    ensures AllCoded(t, [sym] + rest) <==> t.ehufsi[sym] > 0 && AllCoded(t, rest)
  {
    var all := [sym] + rest;
    if AllCoded(t, all) {
      assert all[0] == sym;
      forall i | 0 <= i < |rest|
        ensures t.ehufsi[rest[i]] > 0
      {
        assert all[i + 1] == rest[i];
      }
    }
  }

  lemma AllCodedConcat(t: EncoderTable, a: seq<UInt8>, b: seq<UInt8>)
    requires EncoderShape(t)
    ensures AllCoded(t, a + b) <==> AllCoded(t, a) && AllCoded(t, b)
  {
    if AllCoded(t, a + b) {
      forall i | 0 <= i < |a|
        ensures t.ehufsi[a[i]] > 0
      {
        assert (a + b)[i] == a[i];
      }
      forall i | 0 <= i < |b|
        ensures t.ehufsi[b[i]] > 0
      {
        assert (a + b)[|a| + i] == b[i];
      }
    }
  }

  lemma {:induction false} AcSymbolsInRange(s: Scan, block: Block, k: nat, r: nat)
    requires |s.order| == DCTSIZE2 && AcInRange(s, block) && 1 <= k <= DCTSIZE2
    requires forall i :: k <= i < DCTSIZE2 ==> NBits(Abs(AtZigzag(s, block, i))) <= MAX_COEF_BITS
    ensures forall i :: 0 <= i < |AcSymbols(s, block, k, r)| ==> Countable(AcSymbols(s, block, k, r)[i])
    decreases DCTSIZE2 - k, r
  {
    hide AtZigzag, AcInRange, NBits;
    if k < DCTSIZE2 {
      var v := AtZigzag(s, block, k);
      if v == 0 {
        AcSymbolsInRange(s, block, k + 1, r + 1);
      } else if r > 15 {
        AcSymbolsInRange(s, block, k, r - 16);
      } else {
        AcSymbolsInRange(s, block, k + 1, 0);
      }
    }
  }

  lemma LengthOne(t: EncoderTable, sym: UInt8, rest: seq<UInt8>)
    requires EncoderShape(t)
    ensures Length(t, [sym] + rest) == t.ehufsi[sym] + sym % 16 + Length(t, rest)
    ensures Length(t, [sym]) == t.ehufsi[sym] + sym % 16 && Length(t, []) == 0
  {
    assert ([sym] + rest)[1..] == rest && [sym][1..] == [];
  }

  // The coded length is what the symbols say.
  lemma {:induction false} AcLength(s: Scan, t: EncoderTable, block: Block, k: nat, r: nat)
    requires EncoderShape(t) && |s.order| == DCTSIZE2 && AcInRange(s, block) && 1 <= k <= DCTSIZE2
    ensures |AcBits(s, t, block, k, r, [])| == Length(t, AcSymbols(s, block, k, r))
    decreases DCTSIZE2 - k, r
  {
    hide AtZigzag, NBits, Extra, Length, BitsOf;
    if k == DCTSIZE2 {
      LengthOne(t, 0, []);
    } else {
      var v := AtZigzag(s, block, k);
      if v == 0 {
        AcLength(s, t, block, k + 1, r + 1);
      } else if r > 15 {
        AcLength(s, t, block, k, r - 16);
        LengthOne(t, 0xF0, AcSymbols(s, block, k, r - 16));
      } else {
        AcLength(s, t, block, k + 1, 0);
        LengthOne(t, RunSize(r, v), AcSymbols(s, block, k + 1, 0));
      }
    }
  }

  // ----- Counting -----

  // Counts after these symbols
  function Tally(counts: seq<nat>, symbols: seq<UInt8>): (counts': seq<nat>)
    requires |counts| == SYMBOLS + 1
    ensures |counts'| == SYMBOLS + 1
    decreases |symbols|
  {
    if symbols == [] then counts
    else Tally(counts[symbols[0] := counts[symbols[0]] + 1], symbols[1..])
  }

  // Each symbol's count grows by the number of times it occurs.
  lemma {:induction false} TallyCounts(counts: seq<nat>, symbols: seq<UInt8>, x: nat)
    requires |counts| == SYMBOLS + 1 && x <= SYMBOLS
    ensures Tally(counts, symbols)[x] == counts[x] + if x < SYMBOLS then multiset(symbols)[x] else 0
    decreases |symbols|
  {
    if symbols != [] {
      TallyCounts(counts[symbols[0] := counts[symbols[0]] + 1], symbols[1..], x);
      assert symbols == [symbols[0]] + symbols[1..];
    }
  }

  lemma TallyOne(counts: seq<nat>, sym: UInt8, rest: seq<UInt8>)
    requires |counts| == SYMBOLS + 1
    ensures Tally(counts, [sym] + rest) == Tally(counts[sym := counts[sym] + 1], rest)
    ensures Tally(counts, [sym]) == counts[sym := counts[sym] + 1]
  {
    assert ([sym] + rest)[1..] == rest && [sym][1..] == [];
  }

  lemma {:induction false} TallyConcat(counts: seq<nat>, a: seq<UInt8>, b: seq<UInt8>)
    requires |counts| == SYMBOLS + 1
    ensures Tally(counts, a + b) == Tally(Tally(counts, a), b)
    decreases |a|
  {
    if a == [] {
      assert a + b == b;
    } else {
      TallyConcat(counts[a[0] := counts[a[0]] + 1], a[1..], b);
      assert (a + b)[1..] == a[1..] + b;
    }
  }

  lemma {:induction false} TallyTotal(counts: seq<nat>, symbols: seq<UInt8>)
    requires |counts| == SYMBOLS + 1
    ensures Total(Tally(counts, symbols), SYMBOLS) == Total(counts, SYMBOLS) + |symbols|
    decreases |symbols|
  {
    hide Total;
    if symbols != [] {
      var sym := symbols[0];
      TotalUpdate(counts, sym, counts[sym] + 1, SYMBOLS);
      TallyTotal(counts[sym := counts[sym] + 1], symbols[1..]);
    }
  }

  // A block that the statistics pass accepts
  predicate Acceptable(s: Scan, block: Block, lastDc: Coef)
    requires |s.order| == DCTSIZE2
  {
    && NBits(Abs(block[0] - lastDc)) <= MAX_COEF_BITS + 1
    && forall k :: 1 <= k < DCTSIZE2 ==> NBits(Abs(AtZigzag(s, block, k))) <= MAX_COEF_BITS
  }

  lemma AcceptableInRange(s: Scan, block: Block, lastDc: Coef)
    requires |s.order| == DCTSIZE2 && Acceptable(s, block, lastDc)
    ensures AcInRange(s, block) && InRange(block[0] - lastDc)
  {
    hide AtZigzag, NBits;
    FewBits(block[0] - lastDc);
    AllFew(s, block);
  }

  lemma FewBits(v: int)
    requires NBits(Abs(v)) <= MAX_COEF_BITS + 1
    ensures InRange(v)
  {
    hide NBits;
    var n := NBits(Abs(v));
    ScaleTwice(1, n, 11 - n);
    ScaleValues(1);
  }

  // The number of bits of a magnitude, by counting shifts from n on
  method CountBits(a: nat, n: nat) returns (nbits: nat)
    ensures nbits == n + NBits(a)
  {
    var temp := a;
    nbits := n;
    while temp > 0
      invariant nbits + NBits(temp) == n + NBits(a)
    {
      nbits := nbits + 1;
      temp := temp / 2;
    }
  }

  lemma AllFew(s: Scan, block: Block)
    requires |s.order| == DCTSIZE2 && forall k :: 1 <= k < DCTSIZE2 ==> NBits(Abs(AtZigzag(s, block, k))) <= MAX_COEF_BITS
    ensures AcInRange(s, block)
  {
    hide AtZigzag, NBits;
    forall k | 1 <= k < DCTSIZE2
      ensures InRange(AtZigzag(s, block, k))
    {
      FewBits(AtZigzag(s, block, k));
    }
  }

  lemma ZeroAt(s: Scan, block: Block, k: nat, r: nat)
    requires |s.order| == DCTSIZE2 && 1 <= k < DCTSIZE2 && AtZigzag(s, block, k) == 0
    ensures NBits(Abs(AtZigzag(s, block, k))) == 0
    ensures AcInRange(s, block) ==> AcSymbols(s, block, k, r) == AcSymbols(s, block, k + 1, r + 1)
  {
  }

  lemma EndSymbols(s: Scan, block: Block, r: nat)
    requires |s.order| == DCTSIZE2 && AcInRange(s, block)
    ensures AcSymbols(s, block, DCTSIZE2, r) == if r > 0 then [0] else []
    ensures forall counts :: |counts| == SYMBOLS + 1 ==> Tally(counts, []) == counts
  {
  }

  // The symbol of the DC difference
  function DcSymbol(block: Block, lastDc: Coef): (sym: UInt8)
    requires InRange(block[0] - lastDc)
    ensures sym == NBits(Abs(block[0] - lastDc)) <= 15
  {
    RangeBits(block[0] - lastDc);
    NBits(Abs(block[0] - lastDc))
  }

  class SymbolCounts {
    // Counts by table and symbol; each has a place for the pseudo-symbol of the generator.
    var dcCounts: seq<seq<nat>>
    var acCounts: seq<seq<nat>>

    ghost predicate Valid()
      reads this
    {
      && |dcCounts| == |acCounts| == NUM_HUFF_TBLS
      && forall t :: 0 <= t < NUM_HUFF_TBLS ==> |dcCounts[t]| == |acCounts[t]| == SYMBOLS + 1
    }

    constructor ()
      ensures Valid()
      ensures forall t :: 0 <= t < NUM_HUFF_TBLS ==> dcCounts[t] == acCounts[t] == NoCounts()
    {
      dcCounts := seq(NUM_HUFF_TBLS, t => NoCounts());
      acCounts := seq(NUM_HUFF_TBLS, t => NoCounts());
    }

    // The AC coefficients; an error if one has too many bits
    method CountAc(s: Scan, block: Block, actbl: nat) returns (ok: bool)
      requires Valid() && actbl < NUM_HUFF_TBLS && |s.order| == DCTSIZE2
      modifies this`acCounts
      ensures Valid()
      ensures ok <==> forall k :: 1 <= k < DCTSIZE2 ==> NBits(Abs(AtZigzag(s, block, k))) <= MAX_COEF_BITS
      ensures ok ==> AcInRange(s, block)
      ensures ok ==> acCounts == old(acCounts)[actbl := Tally(old(acCounts[actbl]), AcSymbols(s, block, 1, 0))]
    {
      hide AcSymbols, AtZigzag, NBits, Tally, AcInRange;
      var counts;
      ok, counts := CountValues(s, block, acCounts[actbl]);
      if ok {
        acCounts := acCounts[actbl := counts];
      }
    }

    static method CountValues(s: Scan, block: Block, counts0: seq<nat>) returns (ok: bool, counts: seq<nat>)
      requires |s.order| == DCTSIZE2 && |counts0| == SYMBOLS + 1
      ensures |counts| == SYMBOLS + 1
      ensures ok <==> forall k :: 1 <= k < DCTSIZE2 ==> NBits(Abs(AtZigzag(s, block, k))) <= MAX_COEF_BITS
      ensures ok ==> AcInRange(s, block) && counts == Tally(counts0, AcSymbols(s, block, 1, 0))
    {
      hide AtZigzag, NBits, Tally, AcInRange, AcSymbols;
      counts := counts0;
      ghost var good := AcInRange(s, block);
      var r := 0;
      for k := 1 to DCTSIZE2
        invariant |counts| == SYMBOLS + 1
        invariant forall i :: 1 <= i < k ==> NBits(Abs(AtZigzag(s, block, i))) <= MAX_COEF_BITS
        invariant good ==> Tally(counts, AcSymbols(s, block, k, r)) == Tally(counts0, AcSymbols(s, block, 1, 0))
      {
        if AtZigzag(s, block, k) == 0 {
          ZeroAt(s, block, k, r);
          r := r + 1;
        } else {
          ok, counts, r := CountValue(s, block, k, r, counts, good);
          if !ok {
            return;
          }
        }
      }
      AllFew(s, block);
      EndSymbols(s, block, r);
      TallyOne(counts, 0, []);
      if r > 0 {
        counts := counts[0 := counts[0] + 1];
      }
      ok := true;
    }

    // A nonzero coefficient and the zeros before it
    static method CountValue(s: Scan, block: Block, k: nat, r0: nat, counts0: seq<nat>, ghost good: bool)
      returns (ok: bool, counts: seq<nat>, r: nat)
      requires |s.order| == DCTSIZE2 && 1 <= k < DCTSIZE2 && AtZigzag(s, block, k) != 0 && |counts0| == SYMBOLS + 1
      requires good ==> AcInRange(s, block)
      ensures ok <==> NBits(Abs(AtZigzag(s, block, k))) <= MAX_COEF_BITS
      ensures |counts| == SYMBOLS + 1
      ensures ok && good ==>
                Tally(counts, AcSymbols(s, block, k + 1, r)) == Tally(counts0, AcSymbols(s, block, k, r0))
    {
      hide AtZigzag, NBits, Tally, AcInRange;
      r, counts := r0, counts0;
      while r > 15
        invariant |counts| == SYMBOLS + 1
        invariant good ==> Tally(counts, AcSymbols(s, block, k, r)) == Tally(counts0, AcSymbols(s, block, k, r0))
      {
        if good {
          TallyOne(counts, 0xF0, AcSymbols(s, block, k, r - 16));
        }
        counts := counts[0xF0 := counts[0xF0] + 1];
        r := r - 16;
      }
      var v := AtZigzag(s, block, k);
      var nbits := CountBits(Abs(v), 0);
      ok := nbits <= MAX_COEF_BITS;
      if ok {
        FewBits(v);
        var sym := 16 * r + nbits;
        assert sym == RunSize(r, v);
        if good {
          TallyOne(counts, sym, AcSymbols(s, block, k + 1, 0));
        }
        counts := counts[sym := counts[sym] + 1];
        r := 0;
      }
    }

    // htest_one_block
    method CountBlock(s: Scan, block: Block, lastDc: Coef, dctbl: nat, actbl: nat) returns (ok: bool)
      requires Valid() && dctbl < NUM_HUFF_TBLS && actbl < NUM_HUFF_TBLS && |s.order| == DCTSIZE2
      modifies this
      ensures Valid()
      ensures ok <==> Acceptable(s, block, lastDc)
      ensures ok ==> AcInRange(s, block) && InRange(block[0] - lastDc)
      ensures ok ==> dcCounts == old(dcCounts)[dctbl := Tally(old(dcCounts[dctbl]), [DcSymbol(block, lastDc)])]
      ensures ok ==> acCounts == old(acCounts)[actbl := Tally(old(acCounts[actbl]), AcSymbols(s, block, 1, 0))]
    {
      hide AtZigzag, NBits, Tally, AcInRange, AcSymbols, InRange;
      var nbits := CountBits(Abs(block[0] - lastDc), 0);
      if nbits > MAX_COEF_BITS + 1 {
        return false;
      }
      FewBits(block[0] - lastDc);
      TallyOne(dcCounts[dctbl], nbits, []);
      dcCounts := dcCounts[dctbl := dcCounts[dctbl][nbits := dcCounts[dctbl][nbits] + 1]];
      ok := CountAc(s, block, actbl);
    }
  }

  function NoCounts(): seq<nat> {
    seq(SYMBOLS + 1, i => 0)
  }
}
