// The MCU encoding routines of jcarith.c make exactly the decisions of ArithScan.
module ArithMcuEncoder {
  import opened Arithmetic
  import opened BitFields
  import opened ArithInterval
  import opened ArithBytes
  import opened ArithTermination
  import opened ArithEncoder
  import opened ArithScan
  import opened ByteSource
  import opened ArithSegments

  class McuEncoder {
    const s: Scan
    const coder: Encoder
    var lastDcVal: seq<Coef>
    var dcContext: seq<nat>
    var restartsToGo: nat
    var nextRestartNum: nat

    ghost function Predicted(): Prediction
      reads this
    {
      Prediction(lastDcVal, dcContext)
    }

    ghost predicate Valid()
      reads this, coder
    {
      && coder.Valid() && ScanOk(s) && PredictionOk(s, Predicted())
      && restartsToGo <= s.restartInterval && nextRestartNum < 8
    }

    // start_pass, with the statistics areas as earlier scans left them
    constructor (s: Scan, previous: Statistics, written: seq<Byte>)
      requires ScanOk(s)
      ensures Valid() && fresh(coder) && this.s == s
      ensures coder.before == written && coder.Ideal() == Start(Cleared(s, previous, |s.comps|))
      ensures Predicted() == ResetPrediction(s)
      ensures restartsToGo == s.restartInterval && nextRestartNum == 0
    {
      this.s := s;
      coder := new Encoder(Cleared(s, previous, |s.comps|), written);
      lastDcVal, dcContext := seq(|s.comps|, i => 0), seq(|s.comps|, i => 0);
      restartsToGo, nextRestartNum := s.restartInterval, 0;
    }

    // The coder has made all decisions of d but those of tail.
    twostate predicate Made(d: Decisions, tail: Decisions)
      requires old(coder.Valid())
      reads coder
    {
      && coder.Valid() && coder.before == old(coder.before)
      && CodeAll(coder.Ideal(), tail) == CodeAll(old(coder.Ideal()), d)
    }

    // Figure F.9: the magnitude bit pattern
    method EncodeMagnitudeBits(st: Bin, m0: nat, v: nat, ghost tail: Decisions)
      requires coder.Valid()
      modifies coder
      ensures Made(MagnitudeBits(st, m0, v, tail), tail)
    {
      hide Encoder.Valid, CodeAll;
      var m: nat := m0 / 2;
      while m != 0
        invariant Made(MagnitudeBits(st, m0, v, tail), MagnitudeBits(st, 2 * m, v, tail))
      {
        coder.ArithEncode(st, if BitTest(m, v) then 1 else 0);
        m := m / 2;
      }
    }

    // Figure F.8: the magnitude category of v, of which m' is known; m is its top bit
    method EncodeCategory(base: nat, v2': nat, m': nat, v: nat, ghost tail: Decisions)
      returns (m: nat, st: nat)
      requires coder.Valid() && base + 29 < BINS && 0 < v2' < Scale(1, 16)
      requires PowerOfTwo(m') && Above(v, m') == v2'
      modifies coder
      ensures m == TopBit(v) && base <= st <= base + 15
      ensures Made(Category(base, 0, v2', m', v, tail), MagnitudeBits(st + M_OFFSET, m, v, tail))
    {
      hide Encoder.Valid, CodeAll, MagnitudeBits, Scale, Above, TopBit, ClearBelow;
      var v2: nat;
      v2, m, st := v2', m', base;
      while v2 / 2 != 0
        invariant base <= st <= base + 15 && v2 < Scale(1, 16 - (st - base))
        invariant 0 < v2 && PowerOfTwo(m) && Above(v, m) == v2
        invariant Made(Category(base, 0, v2', m', v, tail), Category(base, st - base, v2, m, v, tail))
        decreases v2
      {
        AboveHalf(v, m);
        CategoryRoom(v2, st - base);
        v2 := v2 / 2;
        coder.ArithEncode(st, 1);
        m := m * 2;
        st := st + 1;
      }
      AboveOne(v, m);
      coder.ArithEncode(st, 0);
    }

    // The magnitude v + 1 of a DC difference, from the bin st after its sign on
    method EncodeDcMagnitude(tbl: nat, st: Bin, v: nat, ghost tail: Decisions) returns (m: nat)
      requires coder.Valid() && tbl < NUM_ARITH_TBLS && v < 0x1_0000
      modifies coder
      ensures m == TopBit(v) && Made(DcMagnitude(tbl, st, v, tail), tail)
    {
      hide Encoder.Valid, CodeAll, Category, MagnitudeBits, TopBit;
      SmallBits(0);
      FirstBits(v);
      m := 0;
      if v != 0 {
        ScaleValues(1);
        coder.ArithEncode(st, 1);
        var st';
        m, st' := EncodeCategory(DcBin(tbl, 20), v, 1, v, tail);
        EncodeMagnitudeBits(st' + M_OFFSET, m, v, tail);
      } else {
        coder.ArithEncode(st, 0);
      }
    }

    // A nonzero difference: its sign, magnitude category and bits
    method EncodeDcNonzero(tbl: nat, ctx: nat, diff: int, ghost tail: Decisions)
      returns (context: nat, top: nat)
      requires coder.Valid() && tbl < NUM_ARITH_TBLS && ctx <= 16 && 0 < Abs(diff) <= 0x1_0000
      modifies coder
      ensures top == TopBit(Abs(diff) - 1) && context == 4 + 4 * Sign(diff)
      ensures Made(DcDifference(tbl, ctx, diff, tail), tail)
    {
      hide Encoder.Valid, CodeAll, DcMagnitude, TopBit;
      var st;
      var v := diff;
      coder.ArithEncode(DcBin(tbl, ctx), 1);
      if v > 0 {
        coder.ArithEncode(DcBin(tbl, ctx + 1), 0);
        st, context := DcBin(tbl, ctx + 2), 4;
      } else {
        v := -v;
        coder.ArithEncode(DcBin(tbl, ctx + 1), 1);
        st, context := DcBin(tbl, ctx + 3), 8;
      }
      top := EncodeDcMagnitude(tbl, st, v - 1, tail);
    }

    // DC coefficient of component ci, whose point-transformed value is m
    method EncodeDc(ci: nat, m: Coef, ghost tail: Decisions)
      requires Valid() && CodesDc(s) && ci < |s.comps|
      modifies this, coder
      ensures Valid() && unchanged(`restartsToGo, `nextRestartNum)
      ensures Made(DcDifference(s.comps[ci].dcTbl, old(dcContext[ci]), m - old(lastDcVal[ci]), tail), tail)
      ensures lastDcVal == old(lastDcVal)[ci := m]
      ensures dcContext == old(dcContext)[ci := DcContext(s, s.comps[ci].dcTbl, m - old(lastDcVal[ci]))]
      ensures Conditioned(s.dcL[s.comps[ci].dcTbl], s.dcU[s.comps[ci].dcTbl], m - old(lastDcVal[ci]), dcContext[ci])
    {
      hide Encoder.Valid, CodeAll, Conditioned, TopBit, Scale, DcMagnitude, OrderOk;
      DcConditioned(s, s.comps[ci].dcTbl, m - lastDcVal[ci]);
      var tbl := s.comps[ci].dcTbl;
      var v: int := m - lastDcVal[ci];
      if v == 0 {
        coder.ArithEncode(DcBin(tbl, dcContext[ci]), 0);
        dcContext := dcContext[ci := 0];
      } else {
        lastDcVal := lastDcVal[ci := m];
        var context, top := EncodeDcNonzero(tbl, dcContext[ci], v, tail);
        // Section F.1.4.4.1.2: conditioning category
        if top < Scale(1, s.dcL[tbl]) / 2 {
          context := 0;
        } else if top > Scale(1, s.dcU[tbl]) / 2 {
          context := context + 8;
        }
        dcContext := dcContext[ci := context];
      }
    }

    // A magnitude v + 1 above one: whether it is two, else its category and bits
    method EncodeAcAboveZero(tbl: nat, k: nat, v: nat, ghost tail: Decisions)
      requires coder.Valid() && TablesOk(s) && tbl < NUM_ARITH_TBLS && 1 <= k < DCTSIZE2 && 0 < v < 0x1_0000
      modifies coder
      ensures Made(AcMagnitudeAboveZero(s, tbl, k, v, tail), tail)
    {
      hide Encoder.Valid, CodeAll, TablesOk, Category, MagnitudeBits, AcBase, TopBit;
      FirstBits(v);
      ScaleValues(1);
      var st := AcBin(tbl, 3 * (k - 1) + 2);
      var v2 := v / 2;
      if v2 != 0 {
        coder.ArithEncode(st, 1);
        var m, st' := EncodeCategory(AcBin(tbl, AcBase(s, tbl, k)), v2, 2, v, tail);
        EncodeMagnitudeBits(st' + M_OFFSET, m, v, tail);
      } else {
        coder.ArithEncode(st, 0);
      }
    }

    // The magnitude v + 1 of the coefficient at position k
    method EncodeAcMagnitude(tbl: nat, k: nat, v: nat, ghost tail: Decisions)
      requires coder.Valid() && TablesOk(s) && tbl < NUM_ARITH_TBLS && 1 <= k < DCTSIZE2 && v < 0x1_0000
      modifies coder
      ensures Made(AcMagnitude(s, tbl, k, v, tail), tail)
    {
      hide Encoder.Valid, CodeAll, TablesOk, AcMagnitudeAboveZero;
      var st := AcBin(tbl, 3 * (k - 1) + 2);
      if v != 0 {
        coder.ArithEncode(st, 1);
        EncodeAcAboveZero(tbl, k, v, tail);
      } else {
        coder.ArithEncode(st, 0);
      }
    }

    lemma FirstBits(v: nat)
      ensures PowerOfTwo(2) && Above(v, 2) == v / 2 && PowerOfTwo(1) && Above(v, 1) == v
    {
    }

    // The index of the last coefficient up to k that is nonzero after the point transform
    method FindEnd(block: Block, k: nat, al: nat) returns (ke: nat)
      requires |s.order| == DCTSIZE2 && k < DCTSIZE2
      ensures ke == LastNonzero(s, block, k, al)
    {
      ke := k;
      while ke > 0
        invariant ke <= k && LastNonzero(s, block, k, al) == LastNonzero(s, block, ke, al)
      {
        if AcLevel(s, block, ke, al) != 0 {
          break;
        }
        ke := ke - 1;
      }
    }

    // The zero coefficients from k' on
    method EncodeZeros(tbl: nat, block: Block, ke: nat, k': nat, ghost tail: Decisions) returns (k: nat)
      requires coder.Valid() && ScanOk(s) && tbl < NUM_ARITH_TBLS
      requires 1 <= k' <= ke <= s.Se < DCTSIZE2 && AcLevel(s, block, ke, s.Al) != 0
      modifies coder
      ensures k' <= k <= ke && AcLevel(s, block, k, s.Al) != 0
      ensures Made(AcRun(s, tbl, block, ke, k', tail), AcRun(s, tbl, block, ke, k, tail))
    {
      hide Encoder.Valid, CodeAll, AcLevel, AtZigzag;
      k := k';
      while AcLevel(s, block, k, s.Al) == 0
        invariant k' <= k <= ke
        invariant Made(AcRun(s, tbl, block, ke, k', tail), AcRun(s, tbl, block, ke, k, tail))
        decreases ke - k
      {
        coder.ArithEncode(AcBin(tbl, 3 * (k - 1) + 1), 0);
        k := k + 1;
      }
    }

    // The nonzero coefficient at position k
    method EncodeCoef(tbl: nat, block: Block, ghost ke: nat, k: nat, ghost tail: Decisions)
      requires coder.Valid() && ScanOk(s) && tbl < NUM_ARITH_TBLS
      requires 1 <= k <= ke <= s.Se < DCTSIZE2 && AcLevel(s, block, ke, s.Al) != 0
      requires AcLevel(s, block, k, s.Al) != 0
      modifies coder
      ensures Made(AcRun(s, tbl, block, ke, k, tail), AcCoefs(s, tbl, block, ke, k + 1, tail))
    {
      hide Encoder.Valid, CodeAll, AcLevel, AtZigzag, AcCoefs, AcMagnitude;
      coder.ArithEncode(AcBin(tbl, 3 * (k - 1) + 1), 1);
      coder.ArithEncode(FIXED_BIN, Sign(AtZigzag(s, block, k)));
      EncodeAcMagnitude(tbl, k, AcLevel(s, block, k, s.Al) - 1, AcCoefs(s, tbl, block, ke, k + 1, tail));
    }

    // Figure F.5: the AC coefficients of the scan's band
    method EncodeAc(tbl: nat, block: Block, ghost tail: Decisions)
      requires coder.Valid() && ScanOk(s) && tbl < NUM_ARITH_TBLS && 1 <= FirstAc(s)
      modifies coder
      ensures Made(BlockAc(s, tbl, block, tail), tail)
    {
      hide Encoder.Valid, CodeAll, AcLevel, AtZigzag, AcRun, LastNonzero;
      var ke := FindEnd(block, s.Se, s.Al);
      var k := FirstAc(s);
      while k <= ke
        invariant 1 <= k <= s.Se + 1
        invariant Made(BlockAc(s, tbl, block, tail), AcCoefs(s, tbl, block, ke, k, tail))
      {
        coder.ArithEncode(AcBin(tbl, 3 * (k - 1)), 0);
        k := EncodeZeros(tbl, block, ke, k, tail);
        EncodeCoef(tbl, block, ke, k, tail);
        k := k + 1;
      }
      // The end-of-block decision is coded only before the end of the band.
      if k <= s.Se {
        coder.ArithEncode(AcBin(tbl, 3 * (k - 1)), 1);
      }
    }

    // The coefficients from k' on that were and remain zero
    method EncodeStillZero(tbl: nat, block: Block, ke: nat, ghost kex: nat, k': nat, ghost tail: Decisions)
      returns (k: nat)
      requires coder.Valid() && ScanOk(s) && tbl < NUM_ARITH_TBLS
      requires 1 <= k' <= ke <= s.Se < DCTSIZE2 && AcLevel(s, block, ke, s.Al) != 0
      modifies coder
      ensures k' <= k <= ke && AcLevel(s, block, k, s.Al) != 0
      ensures Made(RefineRun(s, tbl, block, ke, kex, k', tail), RefineRun(s, tbl, block, ke, kex, k, tail))
    {
      hide Encoder.Valid, CodeAll, AcLevel, AtZigzag;
      k := k';
      while AcLevel(s, block, k, s.Al) == 0
        invariant k' <= k <= ke
        invariant Made(RefineRun(s, tbl, block, ke, kex, k', tail), RefineRun(s, tbl, block, ke, kex, k, tail))
        decreases ke - k
      {
        coder.ArithEncode(AcBin(tbl, 3 * (k - 1) + 1), 0);
        k := k + 1;
      }
    }

    // The nonzero coefficient at position k: its next bit, or its sign if it is new
    method EncodeRefined(tbl: nat, block: Block, ghost ke: nat, ghost kex: nat, k: nat, ghost tail: Decisions)
      requires coder.Valid() && ScanOk(s) && tbl < NUM_ARITH_TBLS
      requires 1 <= k <= ke <= s.Se < DCTSIZE2 && AcLevel(s, block, ke, s.Al) != 0
      requires AcLevel(s, block, k, s.Al) != 0
      modifies coder
      ensures Made(RefineRun(s, tbl, block, ke, kex, k, tail), AcRefine(s, tbl, block, ke, kex, k + 1, tail))
    {
      hide Encoder.Valid, CodeAll, AcLevel, AtZigzag, AcRefine;
      var v := AcLevel(s, block, k, s.Al);
      if v / 2 != 0 {
        // previously nonzero coefficient
        coder.ArithEncode(AcBin(tbl, 3 * (k - 1) + 2), v % 2);
      } else {
        // newly nonzero coefficient
        coder.ArithEncode(AcBin(tbl, 3 * (k - 1) + 1), 1);
        coder.ArithEncode(FIXED_BIN, Sign(AtZigzag(s, block, k)));
      }
    }

    // Figure G.10: successive approximation of the AC coefficients
    method EncodeAcRefine(tbl: nat, block: Block, ghost tail: Decisions)
      requires coder.Valid() && ScanOk(s) && tbl < NUM_ARITH_TBLS && ModeOf(s) == AcRefinement
      modifies coder
      ensures Made(BlockRefine(s, tbl, block, tail), tail)
    {
      hide Encoder.Valid, CodeAll, AcLevel, AtZigzag, RefineRun, LastNonzero;
      var ke := FindEnd(block, s.Se, s.Al);
      var kex := FindEnd(block, ke, s.Ah);
      var k := s.Ss;
      while k <= ke
        invariant 1 <= k <= s.Se + 1
        invariant Made(AcRefine(s, tbl, block, ke, kex, s.Ss, tail), AcRefine(s, tbl, block, ke, kex, k, tail))
      {
        if k > kex {
          coder.ArithEncode(AcBin(tbl, 3 * (k - 1)), 0);
        }
        k := EncodeStillZero(tbl, block, ke, kex, k, tail);
        EncodeRefined(tbl, block, ke, kex, k, tail);
        k := k + 1;
      }
      if k <= s.Se {
        coder.ArithEncode(AcBin(tbl, 3 * (k - 1)), 1);
      }
    }

    // One block in the scan's mode
    method EncodeBlock(ci: nat, block: Block, ghost tail: Decisions)
      requires Valid() && ci < |s.comps|
      modifies this, coder
      ensures Valid() && unchanged(`restartsToGo, `nextRestartNum)
      ensures Made(BlockDecisions(s, old(Predicted()), ci, block, tail), tail)
      ensures Predicted() == NextPrediction(s, old(Predicted()), ci, block)
    {
      hide Encoder.Valid, CodeAll, DcDifference, AcCoefs, AcRefine, LastNonzero, DcContext, OrderOk;
      var c := s.comps[ci];
      match ModeOf(s)
      case Sequential =>
        EncodeDc(ci, DcLevel(s, block), BlockAc(s, c.acTbl, block, tail));
        EncodeAc(c.acTbl, block, tail);
      case DcFirst =>
        EncodeDc(ci, DcLevel(s, block), tail);
      case AcFirst =>
        EncodeAc(c.acTbl, block, tail);
      case DcRefinement =>
        coder.ArithEncode(FIXED_BIN, Shr(block[0], s.Al) % 2);
      case AcRefinement =>
        EncodeAcRefine(c.acTbl, block, tail);
    }

    // The blocks of an MCU
    method EncodeBlocks(mcu: seq<Block>, ghost tail: Decisions)
      requires Valid() && |mcu| == |s.membership|
      modifies this, coder
      ensures Valid() && unchanged(`restartsToGo, `nextRestartNum)
      ensures Made(McuDecisions(s, old(Predicted()), mcu, 0, tail), tail)
      ensures Predicted() == McuPrediction(s, old(Predicted()), mcu, 0)
    {
      hide Encoder.Valid, CodeAll, BlockDecisions, NextPrediction, PredictionOk, OrderOk, ProgressionOk;
      ghost var p := Predicted();
      for blkn := 0 to |mcu|
        invariant Valid() && unchanged(`restartsToGo, `nextRestartNum)
        invariant Made(McuDecisions(s, p, mcu, 0, tail), McuDecisions(s, Predicted(), mcu, blkn, tail))
        invariant McuPrediction(s, p, mcu, 0) == McuPrediction(s, Predicted(), mcu, blkn)
      {
        var ci := s.membership[blkn];
        EncodeBlock(ci, mcu[blkn], McuDecisions(s, NextPrediction(s, Predicted(), ci, mcu[blkn]), mcu, blkn + 1, tail));
      }
    }

    // Clear the statistics areas and predictions of the scan's components.
    method ResetComponents() returns (stats: Statistics)
      requires ScanOk(s) && PredictionOk(s, Predicted())
      modifies `lastDcVal, `dcContext
      ensures stats == Cleared(s, coder.stats, |s.comps|) && Predicted() == ResetPrediction(s)
    {
      hide Encoder.Valid, OrderOk, ClearArea;
      stats := coder.stats;
      for ci := 0 to |s.comps|
        invariant stats == Cleared(s, coder.stats, ci) && PredictionOk(s, Predicted())
        invariant forall i :: 0 <= i < ci ==> lastDcVal[i] == dcContext[i] == 0
      {
        var c := s.comps[ci];
        if !s.progressive || (s.Ss == 0 && s.Ah == 0) {
          stats := ClearArea(stats, DcBin(c.dcTbl, 0), DC_STAT_BINS);
          lastDcVal, dcContext := lastDcVal[ci := 0], dcContext[ci := 0];
        }
        if !s.progressive || s.Se != 0 {
          stats := ClearArea(stats, AcBin(c.acTbl, 0), AC_STAT_BINS);
        }
      }
    }

    // End the segment and write a restart marker.
    method CloseSegment(restartNum: nat) returns (ghost data: seq<Byte>)
      requires coder.Valid() && restartNum < 8
      modifies coder
      ensures ShortestOf(data, old(coder.Ideal())) && coder.stats == old(coder.stats)
      ensures coder.out == old(coder.before) + Stuff(data) + [0xFF, RST0 + restartNum]
    {
      hide Encoder.RegistersValid, Stuff, ShortestOf;
      coder.FinishPass();
      data := coder.sent;
      coder.EmitByte(0xFF);
      coder.EmitByte(RST0 + restartNum);
    }

    // End the segment and start the next one.
    method EmitRestart(restartNum: nat) returns (ghost data: seq<Byte>)
      requires Valid() && restartNum < 8
      modifies this, coder
      ensures Valid() && unchanged(`restartsToGo, `nextRestartNum)
      ensures ShortestOf(data, old(coder.Ideal()))
      ensures coder.before == old(coder.before) + Stuff(data) + [0xFF, RST0 + restartNum]
      ensures coder.Ideal() == Start(Cleared(s, old(coder.stats), |s.comps|))
      ensures Predicted() == ResetPrediction(s)
    {
      hide OrderOk, Stuff, ShortestOf, Cleared, Encoder.Valid;
      data := CloseSegment(restartNum);
      var stats := ResetComponents();
      coder.Reset(stats);
    }

    ghost predicate RestartDue()
      reads this
    {
      s.restartInterval != 0 && restartsToGo == 0
    }

    // The coder and the predictions with which the next MCU is coded
    ghost function NextCoder(): Coder
      requires TablesOk(s)
      reads this, coder
    {
      if RestartDue() then Start(Cleared(s, coder.stats, |s.comps|)) else coder.Ideal()
    }

    ghost function NextPredicted(): Prediction
      reads this
    {
      if RestartDue() then ResetPrediction(s) else Predicted()
    }

    // If a restart was due, a segment with these data bytes has been closed.
    twostate predicate Entered(data: seq<Byte>)
      reads this, coder
    {
      && (if old(RestartDue()) then
            && ShortestOf(data, old(coder.Ideal()))
            && coder.before == old(coder.before) + (Stuff(data) + [0xFF, RST0 + old(nextRestartNum) % 8])
            && nextRestartNum == (old(nextRestartNum) + 1) % 8
            && restartsToGo + 1 == s.restartInterval
          else
            && coder.before == old(coder.before) && nextRestartNum == old(nextRestartNum)
            && restartsToGo + (if s.restartInterval != 0 then 1 else 0) == old(restartsToGo))
    }

    // Emit a restart marker if one is needed.
    method RestartIfDue() returns (ghost data: seq<Byte>)
      requires Valid()
      modifies this, coder
      ensures Valid() && Entered(data)
      ensures coder.Ideal() == old(NextCoder()) && Predicted() == old(NextPredicted())
    {
      hide OrderOk, Stuff, ShortestOf, Cleared, Encoder.Valid;
      data := [];
      if s.restartInterval != 0 {
        if restartsToGo == 0 {
          data := EmitRestart(nextRestartNum);
          restartsToGo := s.restartInterval;
          nextRestartNum := (nextRestartNum + 1) % 8;
        }
        restartsToGo := restartsToGo - 1;
      }
    }

    method EncodeMcu(mcu: seq<Block>, ghost tail: Decisions) returns (ghost data: seq<Byte>)
      requires Valid() && |mcu| == |s.membership|
      modifies this, coder
      ensures Valid() && Entered(data)
      ensures CodeAll(coder.Ideal(), tail) == CodeAll(old(NextCoder()), McuDecisions(s, old(NextPredicted()), mcu, 0, tail))
      ensures Predicted() == McuPrediction(s, old(NextPredicted()), mcu, 0)
    {
      hide OrderOk, Stuff, ShortestOf, Cleared, Encoder.Valid, CodeAll, McuDecisions;
      data := RestartIfDue();
      EncodeBlocks(mcu, tail);
    }

    // The first i MCUs have been coded; the segments that are complete have these bytes.
    ghost predicate InScan(mcus: seq<seq<Block>>, previous: Statistics, written: seq<Byte>,
                           closed: seq<seq<Byte>>, i: nat)
      reads this, coder
    {
      && Valid() && McusOk(s, mcus)
      && Coding(s, mcus, previous, |closed|, i, coder.Ideal(), Predicted())
      && (s.restartInterval != 0 ==> i + restartsToGo == SegmentStart(s, |closed|) + s.restartInterval)
      && (closed != [] ==> 0 < s.restartInterval && SegmentStart(s, |closed|) < i)
      && coder.before == written + Restarted(closed) && nextRestartNum == |closed| % 8
      && AllCoded(s, mcus, previous, closed)
    }

    lemma EnterSegment(mcus: seq<seq<Block>>, previous: Statistics, j: nat, i: nat)
      requires Valid() && McusOk(s, mcus) && Coding(s, mcus, previous, j, i, coder.Ideal(), Predicted())
      requires s.restartInterval != 0 ==> i + restartsToGo == SegmentStart(s, j) + s.restartInterval
      requires i < |mcus|
      ensures Normal(NextCoder()) && SegmentStart(s, j) <= i
      ensures RestartDue() ==> coder.Ideal() == SegmentFinal(s, mcus, previous, j)
      ensures var j' := if RestartDue() then j + 1 else j;
              && Coding(s, mcus, previous, j', i, NextCoder(), NextPredicted())
              && SegmentStart(s, j') <= i < SegmentEnd(s, |mcus|, SegmentStart(s, j'))
    {
      hide OrderOk, Cleared, SegmentFinal;
      if RestartDue() {
        NextSegment(s, mcus, previous, j, i, coder.Ideal(), Predicted());
      }
    }

    // MCU i of the scan, which may be the first one of the next segment
    method EncodeAt(mcus: seq<seq<Block>>, i: nat, ghost previous: Statistics, ghost j: nat)
      returns (ghost data: seq<Byte>)
      requires Valid() && McusOk(s, mcus) && Coding(s, mcus, previous, j, i, coder.Ideal(), Predicted())
      requires s.restartInterval != 0 ==> i + restartsToGo == SegmentStart(s, j) + s.restartInterval
      requires i < |mcus|
      modifies this, coder
      ensures Valid() && Entered(data)
      ensures SegmentStart(s, if old(RestartDue()) then j + 1 else j) <= i && SegmentStart(s, j) <= i
      ensures old(RestartDue()) ==> old(coder.Ideal()) == SegmentFinal(s, mcus, previous, j)
      ensures Coding(s, mcus, previous, if old(RestartDue()) then j + 1 else j, i + 1, coder.Ideal(), Predicted())
    {
      hide OrderOk, Encoder.Valid, CodeAll, McuDecisions, Coding, AllCoded, Entered, Cleared;
      EnterSegment(mcus, previous, j, i);
      ghost var j' := if RestartDue() then j + 1 else j;
      ghost var e, p := NextCoder(), NextPredicted();
      ghost var tail := Rest(s, McuPrediction(s, p, mcus[i], 0), mcus, SegmentStart(s, j'), i + 1);
      data := EncodeMcu(mcus[i], tail);
      coder.IsNormal();
      CodingStep(s, mcus, previous, j', i, e, p, coder.Ideal(), tail);
    }

    // After the last MCU the coder is where the last segment ends.
    lemma LastSegment(mcus: seq<seq<Block>>, previous: Statistics, written: seq<Byte>, closed: seq<seq<Byte>>)
      requires InScan(mcus, previous, written, closed, |mcus|)
      ensures coder.Ideal() == SegmentFinal(s, mcus, previous, |closed|)
      ensures coder.before == written + Restarted(closed) && AllCoded(s, mcus, previous, closed)
      ensures coder.Valid() && ScanOk(s) && McusOk(s, mcus)
      ensures SegmentStart(s, |closed|) <= |mcus| == SegmentEnd(s, |mcus|, SegmentStart(s, |closed|))
      ensures closed != [] ==> 0 < s.restartInterval && SegmentStart(s, |closed|) < |mcus|
    {
      hide OrderOk, Encoder.Valid, McuDecisions, AllCoded, Cleared, SegmentFinal, Restarted;
      assert Rest(s, Predicted(), mcus, SegmentStart(s, |closed|), |mcus|) == Nil;
    }

    // finish_pass
    method FinishScan(ghost mcus: seq<seq<Block>>, ghost previous: Statistics, ghost written: seq<Byte>,
                      ghost closed: seq<seq<Byte>>)
      returns (out: seq<Byte>, after: Statistics, ghost segments: seq<seq<Byte>>)
      requires InScan(mcus, previous, written, closed, |mcus|)
      modifies coder
      ensures ScanCoded(s, mcus, previous, segments, after)
      ensures segments != [] && out == written + ScanBytes(segments)
    {
      hide OrderOk, Encoder.RegistersValid, CodeAll, McuDecisions, Cleared, SegmentFinal, Restarted, Stuff,
        TablesOk, ProgressionOk, PredictionOk, McusOk, ShortestOf, AllCoded, InScan;
      after := coder.stats;
      LastSegment(mcus, previous, written, closed);
      coder.FinishPass();
      out := coder.out;
      AllCodedSnoc(s, mcus, previous, closed, coder.sent);
      segments := closed + [coder.sent];
      assert segments[..|segments| - 1] == closed;
    }

    // The next MCU of a scan
    method EncodeNext(mcus: seq<seq<Block>>, i: nat, ghost previous: Statistics, ghost written: seq<Byte>,
                      ghost closed: seq<seq<Byte>>)
      returns (ghost closed': seq<seq<Byte>>)
      requires InScan(mcus, previous, written, closed, i) && i < |mcus|
      modifies this, coder
      ensures InScan(mcus, previous, written, closed', i + 1)
    {
      hide OrderOk, Encoder.Valid, CodeAll, McuDecisions, AllCoded, Cleared, SegmentFinal, Restarted, Stuff, Coding, Rest,
        TablesOk, ProgressionOk, PredictionOk, McusOk, ShortestOf;
      ghost var data := EncodeAt(mcus, i, previous, |closed|);
      closed' := closed;
      if old(RestartDue()) {
        SegmentClosed(s, mcus, previous, written, closed, data, coder.before);
        closed' := closed + [data];
      }
    }
  }

  // A whole scan: every MCU in turn, and the end of the last segment.
  method EncodeScan(s: Scan, mcus: seq<seq<Block>>, previous: Statistics, written: seq<Byte>)
    returns (out: seq<Byte>, after: Statistics, ghost segments: seq<seq<Byte>>)
    requires ScanOk(s) && McusOk(s, mcus)
    ensures ScanCoded(s, mcus, previous, segments, after)
    ensures segments != [] && out == written + ScanBytes(segments)
  {
    hide OrderOk, Encoder.RegistersValid, CodeAll, McuDecisions, Cleared, SegmentFinal, Stuff,
      TablesOk, ProgressionOk, PredictionOk, McusOk, ShortestOf;
    var e := new McuEncoder(s, previous, written);
    FirstSegment(s, mcus, previous);
    ghost var closed := [];
    for i := 0 to |mcus|
      invariant fresh(e) && fresh(e.coder) && e.s == s
      invariant e.InScan(mcus, previous, written, closed, i)
    {
      closed := e.EncodeNext(mcus, i, previous, written, closed);
    }
    out, after, segments := e.FinishScan(mcus, previous, written, closed);
  }
}
