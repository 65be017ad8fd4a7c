// The MCU decoding routines of jdarith.c recover what the decisions of ArithScan carry.
module ArithMcuDecoder {
  import opened Arithmetic
  import opened BitFields
  import opened ArithInterval
  import opened ArithDecoder
  import opened ByteSource
  import opened ArithScan
  import opened PointTransform

  const OVERFLOW := 0x8000

  lemma PowerOfTwoOverflow(m: nat)
    requires PowerOfTwo(m) && m < OVERFLOW
    ensures 2 * m <= OVERFLOW && PowerOfTwo(2 * m)
  {
    var one: nat := 1;
    SixteenTimes(one);
    SixteenTimes(0x10);
    SixteenTimes(0x100);
    hide PowerOfTwo;
    PowerGap(m, OVERFLOW);
    Twice(m);
  }

  lemma Twice(m: nat)
    requires PowerOfTwo(m)
    ensures PowerOfTwo(2 * m)
  {
  }

  lemma SixteenTimes(m: nat)
    requires PowerOfTwo(m)
    ensures PowerOfTwo(8 * m) && PowerOfTwo(16 * m)
  {
    Twice(m);
    Twice(2 * m);
    Twice(4 * m);
    Twice(8 * m);
  }

  // Doubling m' for the i-th time gives m, which is still below the overflow value.
  lemma CategoryIndex(m: nat, m': nat, i: nat)
    requires 1 <= m' <= 2 && i <= 14 && Scale(m, 14 - i) == Scale(m', 14) && 2 * m < OVERFLOW
    ensures i < 14 && Scale(2 * m, 13 - i) == Scale(m', 14)
  {
    ScaleValues(m');
    assert Scale(m', 14) == 8 * Scale(m', 11);
    if i < 14 {
      ScaleDouble(m, 13 - i);
    }
  }

  class McuDecoder {
    const s: Scan
    const coder: Decoder
    var lastDcVal: seq<int>
    var dcContext: seq<nat>
    var restartsToGo: nat
    var nextRestartNum: nat
    var warnings: nat

    ghost predicate Valid()
      reads this, coder
    {
      && coder.Valid() && ScanOk(s)
      && |lastDcVal| == |dcContext| == |s.comps|
      && (forall i :: 0 <= i < |s.comps| ==> dcContext[i] <= 16)
      && restartsToGo <= s.restartInterval && nextRestartNum < 8
      && (ModeOf(s) == DcRefinement ==> coder.ct != -1)
      && (!CodesDc(s) ==> Expects(ResetPrediction(s)))
    }

    // start_pass, with the statistics areas as earlier scans left them
    constructor (s: Scan, previous: Statistics, stream: seq<Byte>)
      requires ScanOk(s)
      ensures Valid() && fresh(coder) && this.s == s
      ensures coder.segment == ReadSegment(stream) && coder.Ideal() == Start(Cleared(s, previous, |s.comps|))
      ensures coder.ct != -1 && Expects(ResetPrediction(s))
      ensures restartsToGo == s.restartInterval && nextRestartNum == 0 && warnings == 0
    {
      this.s := s;
      coder := new Decoder(Cleared(s, previous, |s.comps|), stream);
      lastDcVal, dcContext := seq(|s.comps|, i => 0), seq(|s.comps|, i => 0);
      restartsToGo, nextRestartNum, warnings := s.restartInterval, 0, 0;
    }

    // The predictions are those of the encoder.
    ghost predicate Expects(p: Prediction)
      reads this
    {
      lastDcVal == p.lastDc && dcContext == p.context
    }

    // Figure F.24: the magnitude bit pattern below the top bit m0
    method DecodeMagnitudeBits(st: Bin, m0: nat, ghost v: nat, ghost tail: Decisions, ghost goal: Goal)
      returns (v': nat)
      requires coder.Valid() && coder.ct != -1 && (m0 == 0 || PowerOfTwo(m0))
      modifies coder
      ensures coder.Valid() && coder.ct != -1
      ensures old(coder.Delivers(MagnitudeBits(st, m0, v, tail), goal)) && ClearBelow(v, m0) == m0 ==>
                v' == v && coder.Delivers(tail, goal)
    {
      hide Decoder.Valid, Decoder.Delivers, CodeAll, OrBit, BitTest;
      ghost var good := coder.Delivers(MagnitudeBits(st, m0, v, tail), goal) && ClearBelow(v, m0) == m0;
      v' := m0;
      var m: nat := m0 / 2;
      while m != 0
        invariant coder.Valid() && coder.ct != -1 && (m == 0 || PowerOfTwo(m))
        invariant good ==> coder.Delivers(MagnitudeBits(st, 2 * m, v, tail), goal) && v' == ClearBelow(v, 2 * m)
      {
        var bit := coder.ArithDecode(st);
        NextBit(v, m);
        if bit == 1 {
          v' := OrBit(v', m);
        }
        m := m / 2;
      }
    }

    // Category decision number i
    method DecodeCategoryBit(base: nat, i: nat, ghost m: nat, ghost v: nat, ghost tail: Decisions, ghost goal: Goal)
      returns (bit: Bit)
      requires coder.Valid() && coder.ct != -1 && base + 29 < BINS && i <= 14
      modifies coder
      ensures coder.Valid() && coder.ct != -1
      ensures InCategory(v, m) && old(coder.Delivers(Category(base, i, Above(v, m), m, v, tail), goal)) ==>
                && InCategory(v, if bit == 1 then 2 * m else m)
                && (bit == 0 ==> Above(v, m) == 1 && coder.Delivers(MagnitudeBits(base + i + M_OFFSET, m, v, tail), goal))
                && (bit == 1 ==> coder.Delivers(Category(base, i + 1, Above(v, 2 * m), 2 * m, v, tail), goal))
    {
      hide Decoder.Valid, Decoder.Delivers, CodeAll, MagnitudeBits, Above;
      if InCategory(v, m) {
        AboveHalf(v, m);
      }
      bit := coder.ArithDecode(base + i);
    }

    // Figure F.23: the magnitude category, from its bit m' on; ok is false if it overflows.
    method DecodeCategory(base: nat, m': nat, ghost v: nat, ghost tail: Decisions, ghost goal: Goal)
      returns (ok: bool, m: nat, st: nat)
      requires coder.Valid() && coder.ct != -1 && base + 29 < BINS && 1 <= m' <= 2
      modifies coder
      ensures coder.Valid() && coder.ct != -1 && base <= st <= base + 14 && PowerOfTwo(m)
      ensures InCategory(v, m') && old(coder.Delivers(Category(base, 0, Above(v, m'), m', v, tail), goal)) ==>
                (ok <==> v < OVERFLOW)
                && (ok ==> m == TopBit(v) == ClearBelow(v, m) && coder.Delivers(MagnitudeBits(st + M_OFFSET, m, v, tail), goal))
    {
      hide Decoder.Valid, Decoder.Delivers, CodeAll, MagnitudeBits, Category, Scale, Above, TopBit, ClearBelow, PowerOfTwo;
      FirstPowers();
      ghost var good := InCategory(v, m') && coder.Delivers(Category(base, 0, Above(v, m'), m', v, tail), goal);
      st, m := base, m';
      var bit := DecodeCategoryBit(base, 0, m, v, tail, goal);
      while bit == 1
        invariant coder.Valid() && coder.ct != -1
        invariant PowerOfTwo(m) && m < OVERFLOW && base <= st <= base + 14 && Scale(m, 14 - (st - base)) == Scale(m', 14)
        invariant good ==> InCategory(v, if bit == 1 then 2 * m else m)
        invariant good && bit == 0 ==> Above(v, m) == 1 && coder.Delivers(MagnitudeBits(st + M_OFFSET, m, v, tail), goal)
        invariant good && bit == 1 ==> coder.Delivers(Category(base, st - base + 1, Above(v, 2 * m), 2 * m, v, tail), goal)
        decreases OVERFLOW - m
      {
        PowerOfTwoOverflow(m);
        if 2 * m < OVERFLOW {
          CategoryIndex(m, m', st - base);
        } else if good {
          AboveAtLeast(v, 2 * m);
        }
        m := 2 * m;
        if m == OVERFLOW {
          return false, m, st;
        }
        st := st + 1;
        bit := DecodeCategoryBit(base, st - base, m, v, tail, goal);
      }
      PowerOfTwoOverflow(m);
      if good {
        AboveOne(v, m);
      }
      ok := true;
    }

    // The magnitude of a DC difference less one, with its top bit m
    method DecodeDcMagnitude(tbl: nat, st: Bin, ghost v: nat, ghost tail: Decisions, ghost goal: Goal)
      returns (ok: bool, m: nat, v': nat)
      requires coder.Valid() && coder.ct != -1 && tbl < NUM_ARITH_TBLS && v < 0x1_0000
      modifies coder
      ensures coder.Valid() && coder.ct != -1
      ensures old(coder.Delivers(DcMagnitude(tbl, st, v, tail), goal)) ==>
                (ok <==> v < OVERFLOW) && (ok ==> m == TopBit(v) && v' == v && coder.Delivers(tail, goal))
    {
      hide Decoder.Valid, Decoder.Delivers, CodeAll, MagnitudeBits, Category, TopBit, ClearBelow;
      ghost var good := coder.Delivers(DcMagnitude(tbl, st, v, tail), goal);
      SmallBits(v);
      ok, v' := true, 0;
      m := coder.ArithDecode(st);
      if m != 0 {
        var st';
        ok, m, st' := DecodeCategory(DcBin(tbl, 20), m, v, tail, goal);
        if ok {
          v' := DecodeMagnitudeBits(st' + M_OFFSET, m, v, tail, goal);
        }
      }
    }

    // Figure F.19: a DC difference and the conditioning category that it establishes
    method DecodeDcDifference(tbl: nat, ctx: nat, ghost diff: int, ghost tail: Decisions, ghost goal: Goal)
      returns (ok: bool, diff': int, ctx': nat)
      requires coder.Valid() && coder.ct != -1 && TablesOk(s) && tbl < NUM_ARITH_TBLS && ctx <= 16 && Abs(diff) <= 0x1_0000
      modifies coder
      ensures coder.Valid() && coder.ct != -1 && ctx' <= 16
      ensures old(coder.Delivers(DcDifference(tbl, ctx, diff, tail), goal)) ==>
                (ok <==> Abs(diff) <= OVERFLOW)
                && (ok ==> diff' == diff && ctx' == DcContext(s, tbl, diff) && coder.Delivers(tail, goal))
    {
      hide Decoder.Valid, Decoder.Delivers, CodeAll, SignedDifference, DcContext, TablesOk;
      NoContext(tbl);
      DifferenceParts(tbl, ctx, diff, tail);
      var bit := coder.ArithDecode(DcBin(tbl, ctx));
      if bit == 0 {
        return true, 0, 0;
      }
      ok, diff', ctx' := DecodeNonzeroDifference(tbl, ctx, if diff == 0 then 1 else diff, tail, goal);
    }

    lemma NoContext(tbl: nat)
      requires TablesOk(s) && tbl < NUM_ARITH_TBLS
      ensures DcContext(s, tbl, 0) == 0
    {
    }

    // The sign of a difference and its magnitude
    function SignedDifference(tbl: nat, ctx: nat, diff: int, tail: Decisions): Decisions
      requires tbl < NUM_ARITH_TBLS && ctx <= 16 && 0 < Abs(diff) <= 0x1_0000
    {
      var sign := if diff > 0 then 0 else 1;
      Decide(DcBin(tbl, ctx + 1), sign, DcMagnitude(tbl, DcBin(tbl, ctx + 2 + sign), Abs(diff) - 1, tail))
    }

    lemma DifferenceParts(tbl: nat, ctx: nat, diff: int, tail: Decisions)
      requires tbl < NUM_ARITH_TBLS && ctx <= 16 && Abs(diff) <= 0x1_0000
      ensures DcDifference(tbl, ctx, diff, tail)
              == if diff == 0 then Decide(DcBin(tbl, ctx), 0, tail)
                 else Decide(DcBin(tbl, ctx), 1, SignedDifference(tbl, ctx, diff, tail))
    {
      hide DcMagnitude;
    }

    method DecodeNonzeroDifference(tbl: nat, ctx: nat, ghost diff: int, ghost tail: Decisions, ghost goal: Goal)
      returns (ok: bool, diff': int, ctx': nat)
      requires coder.Valid() && coder.ct != -1 && TablesOk(s) && tbl < NUM_ARITH_TBLS && ctx <= 16 && 0 < Abs(diff) <= 0x1_0000
      modifies coder
      ensures coder.Valid() && coder.ct != -1 && ctx' <= 16
      ensures old(coder.Delivers(SignedDifference(tbl, ctx, diff, tail), goal)) ==>
                (ok <==> Abs(diff) <= OVERFLOW)
                && (ok ==> diff' == diff && ctx' == DcContext(s, tbl, diff) && coder.Delivers(tail, goal))
    {
      hide Decoder.Valid, Decoder.Delivers, CodeAll, DcMagnitude, TopBit, DcContext, ContextFor, TablesOk;
      ContextOf(tbl, diff);
      var sign: nat := coder.ArithDecode(DcBin(tbl, ctx + 1));
      var m, v;
      ok, m, v := DecodeDcMagnitude(tbl, DcBin(tbl, ctx + 2 + sign), Abs(diff) - 1, tail, goal);
      diff', ctx' := 0, 0;
      if !ok {
        return;
      }
      ctx' := Condition(tbl, m, sign);
      diff' := v + 1;
      if sign == 1 {
        diff' := -diff';
      }
    }

    // Section F.1.4.4.1.2: conditioning category
    method Condition(tbl: nat, m: nat, sign: nat) returns (ctx: nat)
      requires TablesOk(s) && tbl < NUM_ARITH_TBLS && sign <= 1
      ensures ctx == ContextFor(tbl, m, sign) <= 16
    {
      hide Scale;
      if m < Scale(1, s.dcL[tbl]) / 2 {
        ctx := 0;
      } else if m > Scale(1, s.dcU[tbl]) / 2 {
        ctx := 12 + sign * 4;
      } else {
        ctx := 4 + sign * 4;
      }
    }

    function ContextFor(tbl: nat, m: nat, sign: nat): nat
      requires TablesOk(s) && tbl < NUM_ARITH_TBLS && sign <= 1
    {
      if m < Scale(1, s.dcL[tbl]) / 2 then 0
      else if m > Scale(1, s.dcU[tbl]) / 2 then 12 + 4 * sign
      else 4 + 4 * sign
    }

    lemma ContextOf(tbl: nat, diff: int)
      requires TablesOk(s) && tbl < NUM_ARITH_TBLS
      ensures DcContext(s, tbl, diff) == if diff == 0 then 0 else ContextFor(tbl, TopBit(Abs(diff) - 1), if diff > 0 then 0 else 1)
    {
      hide TopBit, Scale;
    }

    // The magnitude category of the coefficient at position k, which is above zero
    method DecodeAcAboveZero(tbl: nat, k: nat, ghost v: nat, ghost tail: Decisions, ghost goal: Goal)
      returns (ok: bool, m: nat, st: nat)
      requires coder.Valid() && coder.ct != -1 && TablesOk(s) && tbl < NUM_ARITH_TBLS && 1 <= k < DCTSIZE2 && v < 0x1_0000
      modifies coder
      ensures coder.Valid() && coder.ct != -1 && st + M_OFFSET < BINS && PowerOfTwo(m)
      ensures 0 < v && old(coder.Delivers(AcMagnitudeAboveZero(s, tbl, k, v, tail), goal)) ==>
                (ok <==> v < OVERFLOW)
                && (ok ==> ClearBelow(v, m) == m && coder.Delivers(MagnitudeBits(st + M_OFFSET, m, v, tail), goal))
    {
      hide Decoder.Valid, Decoder.Delivers, CodeAll, MagnitudeBits, Category, TopBit, ClearBelow, Above, AcBase, TablesOk,
        InCategory;
      SmallBits(v);
      if v / 2 != 0 {
        AboveTwo(v);
      }
      st := AcBin(tbl, 3 * (k - 1) + 2);
      var bit := coder.ArithDecode(st);
      if bit == 1 {
        ok, m, st := DecodeCategory(AcBin(tbl, AcBase(s, tbl, k)), 2, v, tail, goal);
      } else {
        NoMagnitudeBits(st + M_OFFSET, 1, v, tail);
        ok, m := true, 1;
      }
    }

    // The magnitude of the coefficient at position k, less one
    method DecodeAcMagnitude(tbl: nat, k: nat, ghost v: nat, ghost tail: Decisions, ghost goal: Goal)
      returns (ok: bool, v': nat)
      requires coder.Valid() && coder.ct != -1 && TablesOk(s) && tbl < NUM_ARITH_TBLS && 1 <= k < DCTSIZE2 && v < 0x1_0000
      modifies coder
      ensures coder.Valid() && coder.ct != -1
      ensures old(coder.Delivers(AcMagnitude(s, tbl, k, v, tail), goal)) ==>
                (ok <==> v < OVERFLOW) && (ok ==> v' == v && coder.Delivers(tail, goal))
    {
      hide Decoder.Valid, Decoder.Delivers, CodeAll, MagnitudeBits, AcMagnitudeAboveZero, ClearBelow, TablesOk;
      var bit := coder.ArithDecode(AcBin(tbl, 3 * (k - 1) + 2));
      if bit == 0 {
        return true, 0;
      }
      v' := 0;
      var m, st;
      ok, m, st := DecodeAcAboveZero(tbl, k, v, tail, goal);
      if ok {
        v' := DecodeMagnitudeBits(st + M_OFFSET, m, v, tail, goal);
      }
    }

    // Is the coefficient at position k zero?
    method DecodeZeroTest(tbl: nat, k: nat, ghost block: Block, ghost ke: nat, ghost tail: Decisions, ghost goal: Goal)
      returns (bit: Bit)
      requires coder.Valid() && coder.ct != -1 && TablesOk(s) && |s.order| == DCTSIZE2
      requires tbl < NUM_ARITH_TBLS && 1 <= k <= s.Se < DCTSIZE2
      modifies coder
      ensures coder.Valid() && coder.ct != -1
      ensures EndsBand(s, block, ke, k) && old(coder.Delivers(AcRun(s, tbl, block, ke, k, tail), goal)) ==>
                && (if bit == 0 then EndsBand(s, block, ke, k + 1) && AcLevel(s, block, k, s.Al) == 0
                    else AcLevel(s, block, k, s.Al) != 0)
                && coder.Delivers(AfterZeroTest(s, tbl, block, ke, k, tail), goal)
    {
      hide Decoder.Valid, Decoder.Delivers, CodeAll, AcLevel, AcNonzero, TablesOk;
      bit := coder.ArithDecode(AcBin(tbl, 3 * (k - 1) + 1));
    }

    // The zero coefficients from k' on; ok is false if they overflow the band.
    method DecodeZeros(tbl: nat, k': nat, ghost block: Block, ghost ke: nat, ghost tail: Decisions, ghost goal: Goal)
      returns (ok: bool, k: nat)
      requires coder.Valid() && coder.ct != -1 && TablesOk(s) && |s.order| == DCTSIZE2
      requires tbl < NUM_ARITH_TBLS && 1 <= k' <= s.Se < DCTSIZE2
      modifies coder
      ensures coder.Valid() && coder.ct != -1 && k' <= k && (ok ==> k <= s.Se)
      ensures EndsBand(s, block, ke, k') && old(coder.Delivers(AcRun(s, tbl, block, ke, k', tail), goal)) ==>
                && ok && AtNonzero(s, block, ke, k', k)
                && coder.Delivers(AcNonzero(s, tbl, block, ke, k, tail), goal)
    {
      hide Decoder.Valid, Decoder.Delivers, CodeAll, AcLevel, AcNonzero, TablesOk, AcRun;
      ghost var good := EndsBand(s, block, ke, k') && coder.Delivers(AcRun(s, tbl, block, ke, k', tail), goal);
      k := k';
      var bit := DecodeZeroTest(tbl, k, block, ke, tail, goal);
      while bit == 0
        invariant coder.Valid() && coder.ct != -1 && k' <= k <= s.Se
        invariant good ==> forall i :: k' <= i < k ==> AcLevel(s, block, i, s.Al) == 0
        invariant good ==> EndsBand(s, block, ke, k) && coder.Delivers(AfterZeroTest(s, tbl, block, ke, k, tail), goal)
        invariant good && bit == 0 ==> EndsBand(s, block, ke, k + 1) && AcLevel(s, block, k, s.Al) == 0
        invariant good && bit == 1 ==> AcLevel(s, block, k, s.Al) != 0
        decreases s.Se - k
      {
        k := k + 1;
        if k > s.Se {
          return false, k;
        }
        bit := DecodeZeroTest(tbl, k, block, ke, tail, goal);
      }
      ok := true;
    }

    // The sign and the magnitude of the coefficient at position k, shifted into place
    method DecodeNonzero(tbl: nat, k: nat, ghost block: Block, ghost ke: nat, ghost tail: Decisions, ghost goal: Goal)
      returns (ok: bool, c: Coef)
      requires coder.Valid() && coder.ct != -1 && TablesOk(s) && |s.order| == DCTSIZE2 && s.Al <= 13
      requires tbl < NUM_ARITH_TBLS && 1 <= k <= s.Se < DCTSIZE2
      modifies coder
      ensures coder.Valid() && coder.ct != -1
      ensures EndsBand(s, block, ke, k) && AcLevel(s, block, k, s.Al) != 0
              && old(coder.Delivers(AcNonzero(s, tbl, block, ke, k, tail), goal)) ==>
                ok && c == Level(s, block, k, s.Al) && coder.Delivers(AcCoefs(s, tbl, block, ke, k + 1, tail), goal)
    {
      hide Decoder.Valid, Decoder.Delivers, CodeAll, AcMagnitude, AcCoefs, TablesOk, Scale;
      ghost var good := EndsBand(s, block, ke, k) && AcLevel(s, block, k, s.Al) != 0;
      ghost var level := AcLevel(s, block, k, s.Al);
      var sign := coder.ArithDecode(FIXED_BIN);
      var v';
      ok, v' := DecodeAcMagnitude(tbl, k, if good then level - 1 else 0,
        if good then AcCoefs(s, tbl, block, ke, k + 1, tail) else Nil, goal);
      var v: int := v' + 1;
      if sign == 1 {
        v := -v;
      }
      c := Wrap16(Shl(v, s.Al));
    }

    // Zero coefficients from k' on and the nonzero one that ends the run, stored in row b
    method DecodeRun(tbl: nat, planes: array<Block>, b: nat, k': nat, ghost block: Block, ghost was: Block,
                     ghost ke: nat, ghost tail: Decisions, ghost goal: Goal)
      returns (ok: bool, k: nat)
      requires coder.Valid() && coder.ct != -1 && ScanOk(s) && tbl < NUM_ARITH_TBLS
      requires 1 <= FirstAc(s) <= k' <= s.Se < DCTSIZE2 && b < planes.Length
      modifies coder, planes
      ensures coder.Valid() && coder.ct != -1 && k' <= k && (ok ==> k <= s.Se)
      ensures planes[..] == old(planes[..])[b := planes[b]]
      ensures EndsBand(s, block, ke, k') && old(coder.Delivers(AcRun(s, tbl, block, ke, k', tail), goal))
              && BandKnown(s, block, was) && old(planes[b]) == Updated(s, block, was, k') ==>
                && ok && k <= ke && coder.Delivers(AcCoefs(s, tbl, block, ke, k + 1, tail), goal)
                && planes[b] == Updated(s, block, was, k + 1)
    {
      hide Decoder.Valid, Decoder.Delivers, CodeAll, AcRun, AcNonzero, AcCoefs, AcLevel, Level, TablesOk, BandKnown;
      ghost var good := EndsBand(s, block, ke, k') && coder.Delivers(AcRun(s, tbl, block, ke, k', tail), goal)
        && BandKnown(s, block, was);
      ok, k := DecodeZeros(tbl, k', block, ke, tail, goal);
      if ok {
        if good {
          UpdatedZeros(s, block, was, k', k);
        }
        var c;
        ok, c := DecodeNonzero(tbl, k, block, ke, tail, goal);
        if ok {
          planes[b] := planes[b][s.order[k] := c];
        }
      }
    }

    // The end-of-block decision at position k
    method DecodeEndOfBlock(tbl: nat, k: nat, ghost block: Block, ghost ke: nat, ghost tail: Decisions, ghost goal: Goal)
      returns (bit: Bit)
      requires coder.Valid() && coder.ct != -1 && TablesOk(s) && |s.order| == DCTSIZE2
      requires tbl < NUM_ARITH_TBLS && 1 <= k <= s.Se < DCTSIZE2
      requires ke <= s.Se && (0 < ke ==> AcLevel(s, block, ke, s.Al) != 0)
      modifies coder
      ensures coder.Valid() && coder.ct != -1
      ensures old(coder.Delivers(AcCoefs(s, tbl, block, ke, k, tail), goal)) ==>
                if bit == 1 then ke < k && coder.Delivers(tail, goal)
                else EndsBand(s, block, ke, k) && coder.Delivers(AcRun(s, tbl, block, ke, k, tail), goal)
    {
      hide Decoder.Valid, Decoder.Delivers, CodeAll, AcLevel, AcRun, TablesOk;
      bit := coder.ArithDecode(AcBin(tbl, 3 * (k - 1)));
    }

    // Figure F.20: the AC coefficients of the band, into row b; ok is false if the data overflows.
    method DecodeAc(tbl: nat, planes: array<Block>, b: nat, ghost block: Block, ghost tail: Decisions, ghost goal: Goal)
      returns (ok: bool)
      requires coder.Valid() && coder.ct != -1 && ScanOk(s) && tbl < NUM_ARITH_TBLS
      requires 1 <= FirstAc(s) && b < planes.Length
      modifies coder, planes
      ensures coder.Valid() && coder.ct != -1
      ensures planes[..] == old(planes[..])[b := planes[b]]
      ensures old(coder.Delivers(BlockAc(s, tbl, block, tail), goal)) && BandKnown(s, block, old(planes[b])) ==>
                && ok && coder.Delivers(tail, goal)
                && planes[b] == Updated(s, block, old(planes[b]), s.Se + 1)
    {
      hide Decoder.Valid, Decoder.Delivers, CodeAll, AcCoefs, AcRun, AcNonzero, AcLevel, Level, TablesOk, LastNonzero,
        BandKnown, EndsBand, Updated;
      ghost var ke, was := LastNonzero(s, block, s.Se, s.Al), planes[b];
      ghost var good := coder.Delivers(BlockAc(s, tbl, block, tail), goal) && BandKnown(s, block, was);
      var k := FirstAc(s);
      UpdatedNone(s, block, was);
      NoMoreCoefs(s, tbl, block, ke, tail);
      while k <= s.Se
        invariant FirstAc(s) <= k <= s.Se + 1 && coder.Valid() && coder.ct != -1
        invariant planes[..] == old(planes[..])[b := planes[b]]
        invariant good ==> planes[b] == Updated(s, block, was, k)
        invariant good ==> coder.Delivers(AcCoefs(s, tbl, block, ke, k, tail), goal)
      {
        var bit := DecodeEndOfBlock(tbl, k, block, ke, tail, goal);
        if bit == 1 {
          break;
        }
        ok, k := DecodeRun(tbl, planes, b, k, block, was, ke, tail, goal);
        if !ok {
          return;
        }
        k := k + 1;
      }
      if good {
        UpdatedZeros(s, block, was, k, s.Se + 1);
      }
      ok := true;
    }

    // One position of a refinement scan, whose coefficient is c; done if it is now nonzero.
    method RefineCoef(tbl: nat, k: nat, c: Coef, ghost block: Block, ghost ke: nat, ghost kex: nat,
                      ghost tail: Decisions, ghost goal: Goal)
      returns (done: bool, c': Coef)
      requires coder.Valid() && coder.ct != -1 && TablesOk(s) && |s.order| == DCTSIZE2 && s.Al <= 13
      requires tbl < NUM_ARITH_TBLS && 1 <= k <= s.Se < DCTSIZE2
      modifies coder
      ensures coder.Valid() && coder.ct != -1
      ensures s.Ah == s.Al + 1 && EndsBand(s, block, ke, k) && c == Level(s, block, k, s.Ah)
              && old(coder.Delivers(RefineRun(s, tbl, block, ke, kex, k, tail), goal)) ==>
                && c' == Level(s, block, k, s.Al) && (done <==> AcLevel(s, block, k, s.Al) != 0)
                && (!done ==> EndsBand(s, block, ke, k + 1))
                && coder.Delivers(AfterRefined(s, tbl, block, ke, kex, k, tail), goal)
    {
      hide Decoder.Valid, Decoder.Delivers, CodeAll, AcLevel, AcRefine, TablesOk, Scale, Level, Wrap16, AtZigzag;
      if s.Ah == s.Al + 1 {
        RefineLevel(s, block, k);
      }
      done, c' := true, c;
      var p1: int := Scale(1, s.Al);
      if c != 0 {
        // previously nonzero coefficient
        var bit := coder.ArithDecode(AcBin(tbl, 3 * (k - 1) + 2));
        if bit == 1 {
          c' := Wrap16(if c < 0 then c - p1 else c + p1);
        }
      } else {
        var bit := coder.ArithDecode(AcBin(tbl, 3 * (k - 1) + 1));
        if bit == 1 {
          // newly nonzero coefficient
          var sign := coder.ArithDecode(FIXED_BIN);
          c' := Wrap16(if sign == 1 then -p1 else p1);
        } else {
          done := false;
        }
      }
    }

    // Position k of a refinement scan, in row b
    method RefineAt(tbl: nat, planes: array<Block>, b: nat, k: nat, ghost block: Block, ghost was: Block,
                    ghost ke: nat, ghost kex: nat, ghost tail: Decisions, ghost goal: Goal)
      returns (done: bool)
      requires coder.Valid() && coder.ct != -1 && ScanOk(s) && s.Ah == s.Al + 1 && tbl < NUM_ARITH_TBLS
      requires 1 <= FirstAc(s) <= k <= s.Se < DCTSIZE2 && b < planes.Length
      modifies coder, planes
      ensures coder.Valid() && coder.ct != -1 && planes[..] == old(planes[..])[b := planes[b]]
      ensures EndsBand(s, block, ke, k) && old(coder.Delivers(RefineRun(s, tbl, block, ke, kex, k, tail), goal))
              && BandKnown(s, block, was) && old(planes[b]) == Updated(s, block, was, k) ==>
                && planes[b] == Updated(s, block, was, k + 1) && (done <==> AcLevel(s, block, k, s.Al) != 0)
                && (!done ==> EndsBand(s, block, ke, k + 1))
                && coder.Delivers(AfterRefined(s, tbl, block, ke, kex, k, tail), goal)
    {
      hide Decoder.Valid, Decoder.Delivers, CodeAll, AcLevel, AfterRefined, RefineRun, TablesOk, Level, EndsBand;
      if BandKnown(s, block, was) {
        UpdatedBeyond(s, block, was, k, k);
      }
      var c;
      done, c := RefineCoef(tbl, k, planes[b][s.order[k]], block, ke, kex, tail, goal);
      planes[b] := planes[b][s.order[k] := c];
    }

    // Positions from k' on, up to a coefficient that is now nonzero
    method DecodeRefineRun(tbl: nat, planes: array<Block>, b: nat, k': nat, ghost block: Block, ghost was: Block,
                           ghost ke: nat, ghost kex: nat, ghost tail: Decisions, ghost goal: Goal)
      returns (ok: bool, k: nat)
      requires coder.Valid() && coder.ct != -1 && ScanOk(s) && s.Ah == s.Al + 1 && tbl < NUM_ARITH_TBLS
      requires 1 <= FirstAc(s) <= k' <= s.Se < DCTSIZE2 && b < planes.Length
      modifies coder, planes
      ensures coder.Valid() && coder.ct != -1 && k' <= k && (ok ==> k <= s.Se)
      ensures planes[..] == old(planes[..])[b := planes[b]]
      ensures EndsBand(s, block, ke, k') && old(coder.Delivers(RefineRun(s, tbl, block, ke, kex, k', tail), goal))
              && BandKnown(s, block, was) && old(planes[b]) == Updated(s, block, was, k') ==>
                && ok && EndsBand(s, block, ke, k)
                && coder.Delivers(AcRefine(s, tbl, block, ke, kex, k + 1, tail), goal)
                && planes[b] == Updated(s, block, was, k + 1)
    {
      hide Decoder.Valid, Decoder.Delivers, CodeAll, AcLevel, RefineRun, AcRefine, TablesOk, Level, BandKnown, Updated;
      ghost var good := EndsBand(s, block, ke, k') && coder.Delivers(RefineRun(s, tbl, block, ke, kex, k', tail), goal)
        && BandKnown(s, block, was) && planes[b] == Updated(s, block, was, k');
      k := k';
      var done := false;
      while !done
        invariant coder.Valid() && coder.ct != -1 && k' <= k <= s.Se
        invariant planes[..] == old(planes[..])[b := planes[b]]
        invariant good ==> EndsBand(s, block, ke, k) && planes[b] == Updated(s, block, was, if done then k + 1 else k)
        invariant good && !done ==> coder.Delivers(RefineRun(s, tbl, block, ke, kex, k, tail), goal)
        invariant good && done ==> coder.Delivers(AcRefine(s, tbl, block, ke, kex, k + 1, tail), goal)
        decreases !done, s.Se - k
      {
        done := RefineAt(tbl, planes, b, k, block, was, ke, kex, tail, goal);
        if !done {
          k := k + 1;
          if k > s.Se {
            return false, k;
          }
        }
      }
      ok := true;
    }

    // Previous stage end-of-block: the last position whose coefficient in row b is not zero
    method FindPrevious(row: Block) returns (kex: nat)
      requires |s.order| == DCTSIZE2 && s.Se < DCTSIZE2
      ensures kex <= s.Se && (0 < kex ==> AtZigzag(s, row, kex) != 0)
      ensures forall i :: kex < i <= s.Se ==> AtZigzag(s, row, i) == 0
    {
      kex := s.Se;
      while kex > 0
        invariant kex <= s.Se && forall i :: kex < i <= s.Se ==> AtZigzag(s, row, i) == 0
      {
        if AtZigzag(s, row, kex) != 0 {
          break;
        }
        kex := kex - 1;
      }
    }

    // The decoder's end-of-block of the previous stage may differ from the encoder's outside
    // the band, but the two agree on where end-of-block decisions begin.
    lemma SamePrevious(block: Block, was: Block, kex: nat, ke: nat, kex': nat, k: nat)
      requires ScanOk(s) && ModeOf(s) == AcRefinement && BandKnown(s, block, was)
      requires kex <= s.Se && (0 < kex ==> AtZigzag(s, was, kex) != 0)
      requires forall i :: kex < i <= s.Se ==> AtZigzag(s, was, i) == 0
      requires ke == LastNonzero(s, block, s.Se, s.Al) && kex' == LastNonzero(s, block, ke, s.Ah)
      requires s.Ss <= k <= s.Se
      ensures k > kex <==> k > kex'
    {
      hide Level, AcLevel, LastNonzero;
      if k <= kex' {
        LevelZero(s, block, kex', s.Ah);
        assert was[s.order[kex']] == LevelBefore(s, block, kex');
        assert AtZigzag(s, was, kex') != 0;
      } else if k <= kex {
        assert was[s.order[kex]] == LevelBefore(s, block, kex);
        LevelZero(s, block, kex, s.Ah);
        LevelZero(s, block, kex, s.Al);
      }
    }

    // The end-of-block decision of a refinement scan, due after kex only
    method RefineEndOfBlock(tbl: nat, k: nat, kex: nat, ghost block: Block, ghost ke: nat, ghost kex': nat,
                            ghost tail: Decisions, ghost goal: Goal)
      returns (bit: Bit)
      requires coder.Valid() && coder.ct != -1 && TablesOk(s) && |s.order| == DCTSIZE2
      requires tbl < NUM_ARITH_TBLS && 1 <= k <= s.Se < DCTSIZE2
      requires ke <= s.Se && (0 < ke ==> AcLevel(s, block, ke, s.Al) != 0)
      modifies coder
      ensures coder.Valid() && coder.ct != -1
      ensures old(coder.Delivers(AcRefine(s, tbl, block, ke, kex', k, tail), goal)) && kex' <= ke
              && (k > kex <==> k > kex') ==>
                if bit == 1 then ke < k && coder.Delivers(tail, goal)
                else EndsBand(s, block, ke, k) && coder.Delivers(RefineRun(s, tbl, block, ke, kex', k, tail), goal)
    {
      hide Decoder.Valid, Decoder.Delivers, CodeAll, AcLevel, RefineRun, TablesOk;
      bit := 0;
      if k > kex {
        bit := coder.ArithDecode(AcBin(tbl, 3 * (k - 1)));
      }
    }

    // Refinement of the AC coefficients in row b; ok is false if the data overflows the band.
    method DecodeAcRefine(tbl: nat, planes: array<Block>, b: nat, ghost block: Block, ghost tail: Decisions,
                          ghost goal: Goal)
      returns (ok: bool)
      requires coder.Valid() && coder.ct != -1 && ScanOk(s) && ModeOf(s) == AcRefinement && tbl < NUM_ARITH_TBLS
      requires b < planes.Length
      modifies coder, planes
      ensures coder.Valid() && coder.ct != -1 && planes[..] == old(planes[..])[b := planes[b]]
      ensures old(coder.Delivers(BlockRefine(s, tbl, block, tail), goal)) && BandKnown(s, block, old(planes[b])) ==>
                && ok && coder.Delivers(tail, goal)
                && planes[b] == Updated(s, block, old(planes[b]), s.Se + 1)
    {
      hide Decoder.Valid, Decoder.Delivers, CodeAll, AcLevel, AcRefine, RefineRun, TablesOk, Level, LastNonzero, BandKnown,
        Updated, EndsBand, AtZigzag;
      ghost var was, ke := planes[b], LastNonzero(s, block, s.Se, s.Al);
      ghost var kex' := LastNonzero(s, block, ke, s.Ah);
      ghost var good := coder.Delivers(BlockRefine(s, tbl, block, tail), goal) && BandKnown(s, block, was);
      UpdatedNone(s, block, was);
      NoMoreRefinement(s, tbl, block, ke, kex', tail);
      var kex := FindPrevious(planes[b]);
      var k := s.Ss;
      while k <= s.Se
        invariant s.Ss <= k <= s.Se + 1 && coder.Valid() && coder.ct != -1
        invariant planes[..] == old(planes[..])[b := planes[b]]
        invariant good ==> planes[b] == Updated(s, block, was, k)
        invariant good ==> coder.Delivers(AcRefine(s, tbl, block, ke, kex', k, tail), goal)
      {
        if good {
          SamePrevious(block, was, kex, ke, kex', k);
        }
        var bit := RefineEndOfBlock(tbl, k, kex, block, ke, kex', tail, goal);
        if bit == 1 {
          break;
        }
        ok, k := DecodeRefineRun(tbl, planes, b, k, block, was, ke, kex', tail, goal);
        if !ok {
          return;
        }
        k := k + 1;
      }
      if good {
        UpdatedZeros(s, block, was, k, s.Se + 1);
      }
      ok := true;
    }

    // The DC coefficient of component ci, into row b
    method DecodeDc(ci: nat, planes: array<Block>, b: nat, ghost diff: int, ghost tail: Decisions, ghost goal: Goal)
      returns (ok: bool)
      requires Valid() && coder.ct != -1 && CodesDc(s) && ci < |s.comps| && b < planes.Length && Abs(diff) <= 0x1_0000
      modifies `lastDcVal, `dcContext, coder, planes
      ensures Valid() && coder.ct != -1 && planes[..] == old(planes[..])[b := planes[b]]
      ensures old(coder.Delivers(DcDifference(s.comps[ci].dcTbl, dcContext[ci], diff, tail), goal)) ==>
                (ok <==> Abs(diff) <= OVERFLOW)
                && (ok ==> DcUpdated(ci, diff) && coder.Delivers(tail, goal)
                           && planes[b] == old(planes[b])[0 := Wrap16(Shl(lastDcVal[ci], s.Al))])
    {
      hide Decoder.Valid, Decoder.Delivers, CodeAll, DcDifference, DcContext, OrderOk, ProgressionOk, Scale;
      var diff', ctx';
      ok, diff', ctx' := DecodeDcDifference(s.comps[ci].dcTbl, dcContext[ci], diff, tail, goal);
      if ok {
        lastDcVal, dcContext := lastDcVal[ci := lastDcVal[ci] + diff'], dcContext[ci := ctx'];
        planes[b] := planes[b][0 := Wrap16(Shl(lastDcVal[ci], s.Al))];
      }
    }

    twostate predicate DcUpdated(ci: nat, diff: int)
      requires TablesOk(s) && ci < |s.comps| && |old(lastDcVal)| == |old(dcContext)| == |s.comps|
      reads this
    {
      && lastDcVal == old(lastDcVal)[ci := old(lastDcVal)[ci] + diff]
      && dcContext == old(dcContext)[ci := DcContext(s, s.comps[ci].dcTbl, diff)]
    }

    // DC refinement: the next bit of the coefficient in row b
    method DecodeDcRefine(planes: array<Block>, b: nat, ghost block: Block, ghost tail: Decisions, ghost goal: Goal)
      requires coder.Valid() && coder.ct != -1 && b < planes.Length && ScanOk(s)
      modifies coder, planes
      ensures coder.Valid() && coder.ct != -1 && planes[..] == old(planes[..])[b := planes[b]]
      ensures old(coder.Delivers(Decide(FIXED_BIN, Shr(block[0], s.Al) % 2, tail), goal)) ==>
                coder.Delivers(tail, goal) && planes[b] == WithBit(s, block, old(planes[b]))
    {
      hide Decoder.Valid, Decoder.Delivers, CodeAll, Shr, SetBit, Wrap16, ScanOk;
      var bit := coder.ArithDecode(FIXED_BIN);
      if bit == 1 {
        planes[b] := planes[b][0 := Wrap16(SetBit(planes[b][0], s.Al))];
      }
    }

    // Script of the DC difference of a block with predictions p
    ghost function DcScript(p: Prediction, ci: nat, block: Block, tail: Decisions): Decisions
      requires TablesOk(s) && PredictionOk(s, p) && ci < |s.comps|
    {
      DcDifference(s.comps[ci].dcTbl, p.context[ci], DcLevel(s, block) - p.lastDc[ci], tail)
    }

    // The DC part of a block
    method DecodeBlockDc(ci: nat, planes: array<Block>, b: nat, ghost block: Block, ghost p: Prediction,
                         ghost tail: Decisions, ghost goal: Goal)
      returns (ok: bool)
      requires Valid() && coder.ct != -1 && CodesDc(s) && ci < |s.comps| && b < planes.Length && PredictionOk(s, p)
      modifies `lastDcVal, `dcContext, coder, planes
      ensures Valid() && coder.ct != -1 && planes[..] == old(planes[..])[b := planes[b]]
      ensures old(Expects(p)) && old(coder.Delivers(DcScript(p, ci, block, tail), goal)) ==>
                (ok <==> DcInRange(s, p, ci, block))
                && (ok ==> Expects(NextPrediction(s, p, ci, block)) && coder.Delivers(tail, goal)
                           && planes[b] == WithDc(s, block, old(planes[b])))
    {
      hide Decoder.Valid, Decoder.Delivers, CodeAll, DcDifference, DcContext, OrderOk, ProgressionOk, TablesOk, Scale, Wrap16, Shr;
      ghost var diff := DcLevel(s, block) - p.lastDc[ci];
      ok := DecodeDc(ci, planes, b, diff, tail, goal);
    }

    // A block of a sequential scan
    method DecodeSequential(ci: nat, planes: array<Block>, b: nat, ghost block: Block, ghost p: Prediction,
                            ghost tail: Decisions, ghost goal: Goal)
      returns (ok: bool)
      requires Valid() && coder.ct != -1 && ModeOf(s) == Sequential
      requires ci < |s.comps| && b < planes.Length && PredictionOk(s, p)
      modifies `lastDcVal, `dcContext, coder, planes
      ensures Valid() && coder.ct != -1 && planes[..] == old(planes[..])[b := planes[b]]
      ensures old(Expects(p)) && old(coder.Delivers(DcScript(p, ci, block, BlockAc(s, s.comps[ci].acTbl, block, tail)), goal))
              && BandKnown(s, block, old(planes[b])) ==>
                (ok <==> DcInRange(s, p, ci, block))
                && (ok ==> Expects(NextPrediction(s, p, ci, block)) && coder.Delivers(tail, goal)
                           && planes[b] == Updated(s, block, WithDc(s, block, old(planes[b])), s.Se + 1))
    {
      hide Decoder.Valid, Decoder.Delivers, CodeAll, DcScript, OrderOk, BlockAc, BandKnown, Updated, WithDc, DcLevel;
      ghost var was := planes[b];
      if BandKnown(s, block, was) {
        KnownWithDc(s, block, was);
      }
      ghost var tail' := BlockAc(s, s.comps[ci].acTbl, block, tail);
      ok := DecodeBlockDc(ci, planes, b, block, p, tail', goal);
      if ok {
        ok := DecodeAc(s.comps[ci].acTbl, planes, b, block, tail, goal);
      }
    }

    // Passes that code no DC differences neither change the predictions nor can they overflow.
    lemma DcUntouched(p: Prediction, ci: nat, block: Block)
      requires TablesOk(s) && PredictionOk(s, p) && ci < |s.comps|
      ensures !CodesDc(s) ==> NextPrediction(s, p, ci, block) == p && DcInRange(s, p, ci, block)
    {
    }

    // One block in the scan's mode, into row b; ok is false if the data overflows.
    method DecodeBlock(ci: nat, planes: array<Block>, b: nat, ghost block: Block, ghost p: Prediction,
                       ghost tail: Decisions, ghost goal: Goal)
      returns (ok: bool)
      requires Valid() && coder.ct != -1 && ci < |s.comps| && b < planes.Length && PredictionOk(s, p)
      modifies `lastDcVal, `dcContext, coder, planes
      ensures Valid() && coder.ct != -1 && planes[..] == old(planes[..])[b := planes[b]]
      ensures ModeOf(s) == DcRefinement ==> ok
      ensures old(Expects(p)) && old(coder.Delivers(BlockDecisions(s, p, ci, block, tail), goal))
              && BandKnown(s, block, old(planes[b])) ==>
                (ok <==> DcInRange(s, p, ci, block))
                && (ok ==> Expects(NextPrediction(s, p, ci, block)) && coder.Delivers(tail, goal)
                           && planes[b] == BlockResult(s, block, old(planes[b])))
    {
      hide Decoder.Valid, Decoder.Delivers, CodeAll, DcDifference, DcContext, OrderOk, BlockAc, BlockRefine,
        BandKnown, Updated, DcLevel, NextPrediction, DcInRange, Shr, DcPoint, Wrap16, PredictionOk;
      DcUntouched(p, ci, block);
      var c := s.comps[ci];
      match ModeOf(s)
      case Sequential =>
        ok := DecodeSequential(ci, planes, b, block, p, tail, goal);
      case DcFirst =>
        ok := DecodeBlockDc(ci, planes, b, block, p, tail, goal);
      case AcFirst =>
        ok := DecodeAc(c.acTbl, planes, b, block, tail, goal);
      case DcRefinement =>
        DecodeDcRefine(planes, b, block, tail, goal);
        ok := true;
      case AcRefinement =>
        ok := DecodeAcRefine(c.acTbl, planes, b, block, tail, goal);
    }

    // The data cannot be continued: ignore the rest up to the next restart.
    method Fail()
      requires Valid() && coder.ct != -1 && ModeOf(s) != DcRefinement
      modifies `warnings, coder`ct
      ensures Valid() && coder.ct == -1 && warnings == old(warnings) + 1
    {
      hide OrderOk, TablesOk, ProgressionOk, Decoder.RegistersValid;
      warnings := warnings + 1;
      coder.ct := -1;
    }

    // Find the restart marker and advance past it.
    method NextRestart()
      requires coder.SourceValid() && nextRestartNum < 8
      modifies `warnings, `nextRestartNum, coder`rest, coder`unreadMarker
      ensures coder.unreadMarker != 0xFF && nextRestartNum == (old(nextRestartNum) + 1) % 8 && warnings >= old(warnings)
      ensures warnings == old(warnings) <==> old(InStep())
      ensures old(InStep()) ==> coder.Ahead() == ReadSegment(old(coder.segment.after))
    {
      var discarded, more;
      coder.unreadMarker, coder.rest, nextRestartNum, discarded, more :=
        ReadRestartMarker(coder.unreadMarker, coder.rest, nextRestartNum, 0);
      warnings := warnings + more;
    }

    // The data of the segment has been used up, and the expected restart marker follows.
    ghost predicate InStep()
      reads `nextRestartNum, coder`segment, coder`k
    {
      |coder.segment.data| <= coder.k && coder.segment.marker == RST0 + nextRestartNum
    }

    // process_restart
    method ProcessRestart()
      requires Valid()
      modifies this, coder
      ensures Valid() && coder.ct == -16 && restartsToGo == s.restartInterval
      ensures coder.Ideal() == Start(Cleared(s, old(coder.stats), |s.comps|)) && Expects(ResetPrediction(s))
      ensures nextRestartNum == (old(nextRestartNum) + 1) % 8 && warnings >= old(warnings)
      ensures warnings == old(warnings) <==> old(InStep())
      ensures old(InStep()) ==> coder.segment == ReadSegment(old(coder.segment.after))
    {
      hide Decoder.RegistersValid, OrderOk, ClearArea;
      NextRestart();
      var stats := ResetComponents();
      coder.Reset(stats);
      restartsToGo := s.restartInterval;
    }

    // Clear the statistics areas and predictions of the scan's components.
    method ResetComponents() returns (stats: Statistics)
      requires ScanOk(s) && |lastDcVal| == |dcContext| == |s.comps|
      requires !CodesDc(s) ==> Expects(ResetPrediction(s))
      modifies `lastDcVal, `dcContext
      ensures stats == Cleared(s, coder.stats, |s.comps|) && Expects(ResetPrediction(s))
    {
      hide OrderOk, ClearArea;
      stats := coder.stats;
      for ci := 0 to |s.comps|
        invariant stats == Cleared(s, coder.stats, ci) && |lastDcVal| == |dcContext| == |s.comps|
        invariant !CodesDc(s) ==> Expects(ResetPrediction(s))
        invariant forall i :: 0 <= i < ci ==> lastDcVal[i] == dcContext[i] == 0
      {
        var c := s.comps[ci];
        if !s.progressive || (s.Ss == 0 && s.Ah == 0) {
          stats := ClearArea(stats, DcBin(c.dcTbl, 0), DC_STAT_BINS);
          lastDcVal, dcContext := lastDcVal[ci := 0], dcContext[ci := 0];
        }
        if !s.progressive || s.Ss != 0 {
          stats := ClearArea(stats, AcBin(c.acTbl, 0), AC_STAT_BINS);
        }
      }
    }

    // The data goes on with the decisions ds, and the predictions are in step.
    ghost predicate Following(p: Prediction, ds: Decisions, goal: Goal)
      reads this, coder
    {
      coder.ct != -1 && Expects(p) && coder.Delivers(ds, goal)
    }

    // Block blkn of an MCU, into its row
    method DecodeBlockOf(planes: array<Block>, rows: seq<nat>, blkn: nat, ghost mcu: seq<Block>, ghost was: seq<Block>,
                         ghost p: Prediction, ghost tail: Decisions, ghost goal: Goal)
      returns (ok: bool)
      requires Valid() && coder.ct != -1 && |rows| == |mcu| == |s.membership| && RowsOk(rows, planes.Length)
      requires PredictionOk(s, p) && blkn < |rows| && |was| == planes.Length
      modifies `lastDcVal, `dcContext, coder, planes
      ensures Valid() && coder.ct != -1 && (ModeOf(s) == DcRefinement ==> ok)
      ensures planes[..] == old(planes[..])[rows[blkn] := planes[rows[blkn]]]
      ensures old(Following(p, McuDecisions(s, p, mcu, blkn, tail), goal)) && McuKnown(s, mcu, rows, was)
              && old(planes[..]) == McuResult(s, mcu, rows, was, blkn) ==>
                var ci := s.membership[blkn];
                var p' := NextPrediction(s, p, ci, mcu[blkn]);
                (ok <==> DcInRange(s, p, ci, mcu[blkn]))
                && (ok ==> Following(p', McuDecisions(s, p', mcu, blkn + 1, tail), goal)
                           && planes[..] == McuResult(s, mcu, rows, was, blkn + 1))
    {
      hide Decoder.Valid, Decoder.Delivers, CodeAll, OrderOk, BlockDecisions, BlockResult, NextPrediction, DcInRange,
        BandKnown, PredictionOk;
      var ci := s.membership[blkn];
      ghost var p' := NextPrediction(s, p, ci, mcu[blkn]);
      ok := DecodeBlock(ci, planes, rows[blkn], mcu[blkn], p, McuDecisions(s, p', mcu, blkn + 1, tail), goal);
    }

    // The blocks of an MCU, into these rows; ok is false if the data overflows.
    method DecodeBlocks(planes: array<Block>, rows: seq<nat>, ghost mcu: seq<Block>, ghost p: Prediction,
                        ghost tail: Decisions, ghost goal: Goal)
      returns (ok: bool)
      requires Valid() && coder.ct != -1 && |rows| == |mcu| == |s.membership| && RowsOk(rows, planes.Length)
      requires PredictionOk(s, p)
      modifies `lastDcVal, `dcContext, coder, planes
      ensures Valid() && coder.ct != -1 && (ModeOf(s) == DcRefinement ==> ok)
      ensures forall b :: 0 <= b < planes.Length && b !in rows ==> planes[b] == old(planes[b])
      ensures old(Following(p, McuDecisions(s, p, mcu, 0, tail), goal)) && McuKnown(s, mcu, rows, old(planes[..])) ==>
                (ok <==> McuInRange(s, p, mcu, 0))
                && (ok ==> Following(McuPrediction(s, p, mcu, 0), tail, goal)
                           && planes[..] == McuResult(s, mcu, rows, old(planes[..]), |mcu|))
    {
      hide Decoder.Valid, Decoder.Delivers, CodeAll, OrderOk, BlockDecisions, BlockResult, NextPrediction, DcInRange,
        BandKnown, McuKnown, PredictionOk, McuResult, Following;
      McuNotStarted(s, mcu, rows, planes[..], p, tail);
      ghost var was := planes[..];
      ghost var good := Following(p, McuDecisions(s, p, mcu, 0, tail), goal) && McuKnown(s, mcu, rows, planes[..]);
      ghost var q := p;
      for blkn := 0 to |rows|
        invariant Valid() && coder.ct != -1 && PredictionOk(s, q)
        invariant forall b :: 0 <= b < planes.Length && b !in rows ==> planes[b] == old(planes[b])
        invariant good ==> Following(q, McuDecisions(s, q, mcu, blkn, tail), goal)
        invariant good ==> McuInRange(s, p, mcu, 0) == McuInRange(s, q, mcu, blkn)
        invariant McuPrediction(s, p, mcu, 0) == McuPrediction(s, q, mcu, blkn)
        invariant good ==> planes[..] == McuResult(s, mcu, rows, was, blkn)
      {
        ok := DecodeBlockOf(planes, rows, blkn, mcu, was, q, tail, goal);
        if !ok {
          return;
        }
        q := NextPrediction(s, q, s.membership[blkn], mcu[blkn]);
      }
      ok := true;
    }

    ghost predicate RestartDue()
      reads this
    {
      s.restartInterval != 0 && restartsToGo == 0
    }

    // Process a restart marker if one is due.
    method RestartIfDue()
      requires Valid()
      modifies this, coder
      ensures Valid() && warnings >= old(warnings)
      ensures if old(RestartDue()) then
                && coder.ct == -16 && coder.Ideal() == Start(Cleared(s, old(coder.stats), |s.comps|))
                && Expects(ResetPrediction(s)) && nextRestartNum == (old(nextRestartNum) + 1) % 8
                && (warnings == old(warnings) <==> old(InStep()))
                && (old(InStep()) ==> coder.segment == ReadSegment(old(coder.segment.after)))
                && restartsToGo + 1 == s.restartInterval
              else
                && unchanged(coder, `lastDcVal, `dcContext, `nextRestartNum, `warnings)
                && restartsToGo == old(restartsToGo) - if s.restartInterval != 0 then 1 else 0
    {
      hide Decoder.Valid, OrderOk, TablesOk, ProgressionOk, Cleared, ResetPrediction;
      if s.restartInterval != 0 {
        if restartsToGo == 0 {
          ProcessRestart();
        }
        restartsToGo := restartsToGo - 1;
      }
    }

    // The next MCU is coded by ds, in this segment or, if a restart is due, in the next one.
    ghost predicate ReadyFor(p: Prediction, ds: Decisions, goal: Goal)
      requires TablesOk(s)
      reads this, coder
    {
      if RestartDue() then
        && InStep() && p == ResetPrediction(s) && goal.segment == ReadSegment(coder.segment.after)
        && Leads(goal.segment.data, Start(Cleared(s, coder.stats, |s.comps|)), ds, goal.final)
      else Following(p, ds, goal)
    }

    // One MCU, into these rows.  Data that overflows is given up until the next restart.
    method DecodeMcu(planes: array<Block>, rows: seq<nat>, ghost mcu: seq<Block>, ghost p: Prediction,
                     ghost tail: Decisions, ghost goal: Goal)
      requires Valid() && |rows| == |mcu| == |s.membership| && RowsOk(rows, planes.Length) && PredictionOk(s, p)
      modifies this, coder, planes
      ensures Valid() && warnings >= old(warnings)
      ensures forall b :: 0 <= b < planes.Length && b !in rows ==> planes[b] == old(planes[b])
      ensures nextRestartNum == if old(RestartDue()) then (old(nextRestartNum) + 1) % 8 else old(nextRestartNum)
      ensures s.restartInterval != 0 ==>
                restartsToGo == (if old(RestartDue()) then s.restartInterval else old(restartsToGo)) - 1
      ensures old(ReadyFor(p, McuDecisions(s, p, mcu, 0, tail), goal)) && McuKnown(s, mcu, rows, old(planes[..])) ==>
                if McuInRange(s, p, mcu, 0) then
                  && warnings == old(warnings) && Following(McuPrediction(s, p, mcu, 0), tail, goal)
                  && planes[..] == McuResult(s, mcu, rows, old(planes[..]), |mcu|)
                else warnings == old(warnings) + 1 && coder.ct == -1
    {
      hide Decoder.Valid, Leads, CodeAll, OrderOk, TablesOk, ProgressionOk, Cleared, McuDecisions, McuKnown, McuInRange,
        McuPrediction, McuResult, PredictionOk, ResetPrediction, InStep;
      RestartIfDue();
      if coder.ct != -1 {
        var ok := DecodeBlocks(planes, rows, mcu, p, tail, goal);
        if !ok {
          Fail();
        }
      }
    }
  }

  lemma McuNotStarted(s: Scan, mcu: seq<Block>, rows: seq<nat>, was: seq<Block>, p: Prediction, tail: Decisions)
    requires ScanOk(s) && |mcu| == |rows| == |s.membership| && RowsOk(rows, |was|) && PredictionOk(s, p)
    ensures McuResult(s, mcu, rows, was, 0) == was && McuDecisions(s, p, mcu, |mcu|, tail) == tail
    ensures McuInRange(s, p, mcu, |mcu|) && McuPrediction(s, p, mcu, |mcu|) == p
  {
  }

  lemma NoMoreRefinement(s: Scan, tbl: nat, block: Block, ke: nat, kex: nat, tail: Decisions)
    requires ScanOk(s) && tbl < NUM_ARITH_TBLS && ke <= s.Se && (0 < ke ==> AcLevel(s, block, ke, s.Al) != 0)
    ensures AcRefine(s, tbl, block, ke, kex, s.Se + 1, tail) == tail
  {
  }

  // What follows position k of a refinement scan
  function AfterRefined(s: Scan, tbl: nat, block: Block, ke: nat, kex: nat, k: nat, tail: Decisions): Decisions
    requires TablesOk(s) && |s.order| == DCTSIZE2 && tbl < NUM_ARITH_TBLS
    requires 1 <= k && EndsBand(s, block, ke, k)
  {
    if AcLevel(s, block, k, s.Al) == 0 then RefineRun(s, tbl, block, ke, kex, k + 1, tail)
    else AcRefine(s, tbl, block, ke, kex, k + 1, tail)
  }

  lemma NoMoreCoefs(s: Scan, tbl: nat, block: Block, ke: nat, tail: Decisions)
    requires ScanOk(s) && tbl < NUM_ARITH_TBLS && ke <= s.Se && (0 < ke ==> AcLevel(s, block, ke, s.Al) != 0)
    ensures AcCoefs(s, tbl, block, ke, s.Se + 1, tail) == tail
  {
  }

  // ke is the last nonzero position, and not before k.
  predicate EndsBand(s: Scan, block: Block, ke: nat, k: nat)
    requires |s.order| == DCTSIZE2
  {
    k <= ke <= s.Se < DCTSIZE2 && AcLevel(s, block, ke, s.Al) != 0
  }

  // k is the first nonzero position from k' on.
  predicate AtNonzero(s: Scan, block: Block, ke: nat, k': nat, k: nat)
    requires |s.order| == DCTSIZE2
  {
    && EndsBand(s, block, ke, k) && AcLevel(s, block, k, s.Al) != 0
    && forall i :: k' <= i < k ==> AcLevel(s, block, i, s.Al) == 0
  }

  // What follows the test of position k for zero
  function AfterZeroTest(s: Scan, tbl: nat, block: Block, ke: nat, k: nat, tail: Decisions): Decisions
    requires TablesOk(s) && |s.order| == DCTSIZE2 && tbl < NUM_ARITH_TBLS
    requires 1 <= k && EndsBand(s, block, ke, k)
  {
    if AcLevel(s, block, k, s.Al) == 0 then AcRun(s, tbl, block, ke, k + 1, tail)
    else AcNonzero(s, tbl, block, ke, k, tail)
  }

  lemma NoMagnitudeBits(st: Bin, m: nat, v: nat, tail: Decisions)
    requires m <= 1
    ensures MagnitudeBits(st, m, v, tail) == tail
  {
  }

  lemma AboveTwo(v: nat)
    requires v / 2 != 0
    ensures InCategory(v, 2) && Above(v, 2) == v / 2
  {
    assert PowerOfTwo(2);
  }

  lemma FirstPowers()
    ensures PowerOfTwo(1) && PowerOfTwo(2)
  {
  }

  predicate InCategory(v: nat, m: nat) {
    PowerOfTwo(m) && 0 < Above(v, m)
  }
}
