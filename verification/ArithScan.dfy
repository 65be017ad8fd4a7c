// The decisions by which a scan's coefficients are coded: sections F.1.4 and G.1.3 of
// ITU-T T.81, as jcarith.c makes them.  Every script takes the decisions that follow it
// as its last argument.
module ArithScan {
  import opened Aritab
  import opened ArithInterval
  import opened BitFields
  import opened Arithmetic

  datatype Component = Component(dcTbl: nat, acTbl: nat)

  // Parameters of a scan: spectral band, successive approximation, tables and sampling
  // of its components, conditioning, the zigzag order and the restart interval.
  datatype Scan = Scan(
    progressive: bool, Ss: nat, Se: nat, Ah: nat, Al: nat,
    comps: seq<Component>, membership: seq<nat>,
    dcL: seq<nat>, dcU: seq<nat>, acK: seq<nat>,
    order: seq<nat>, restartInterval: nat)

  const DCTSIZE2 := 64
  const MAX_COMPONENTS := 10
  const MAX_COMPS_IN_SCAN := 4

  type Coef = c: int | -0x8000 <= c < 0x8000
  type Block = b: seq<Coef> | |b| == DCTSIZE2 witness seq(DCTSIZE2, i => 0)

  // The zigzag order is a permutation that starts with the DC coefficient.
  ghost predicate OrderOk(order: seq<nat>) {
    && |order| == DCTSIZE2 && order[0] == 0
    && (forall i :: 0 <= i < DCTSIZE2 ==> order[i] < DCTSIZE2)
    && (forall i, j :: 0 <= i < j < DCTSIZE2 ==> order[i] != order[j])
  }

  predicate TablesOk(s: Scan) {
    && |s.dcL| == |s.dcU| == |s.acK| == NUM_ARITH_TBLS
    && 0 < |s.comps| <= MAX_COMPS_IN_SCAN
    && (forall i :: 0 <= i < |s.comps| ==>
          s.comps[i].dcTbl < NUM_ARITH_TBLS && s.comps[i].acTbl < NUM_ARITH_TBLS)
    && (forall i :: 0 <= i < |s.membership| ==> s.membership[i] < |s.comps|)
  }

  // What the start of a pass accepts.
  predicate ProgressionOk(s: Scan) {
    if s.progressive then
      && (if s.Ss == 0 then s.Se == 0 else s.Ss <= s.Se < DCTSIZE2 && |s.comps| == 1 && |s.membership| == 1)
      && (s.Ah != 0 ==> s.Ah == s.Al + 1)
      && s.Al <= 13
    else
      s.Ss == 0 && s.Se == DCTSIZE2 - 1 && s.Ah == 0 && s.Al == 0
  }

  ghost predicate ScanOk(s: Scan) {
    OrderOk(s.order) && TablesOk(s) && ProgressionOk(s)
  }

  // ----- Restarts -----

  // Segment j starts with this MCU.
  function SegmentStart(s: Scan, j: nat): nat {
    if j == 0 then 0 else SegmentStart(s, j - 1) + s.restartInterval
  }

  // A segment ends after restartInterval MCUs or with the scan.
  function SegmentEnd(s: Scan, total: nat, start: nat): (end: nat)
    ensures start <= total ==> start <= end <= total
  {
    if s.restartInterval == 0 || total <= start + s.restartInterval then total
    else start + s.restartInterval
  }

  // ----- Statistics bins -----

  function DcBin(tbl: nat, i: nat): Bin
    requires tbl < NUM_ARITH_TBLS && i < DC_STAT_BINS
  {
    tbl * DC_STAT_BINS + i
  }

  function AcBin(tbl: nat, i: nat): Bin
    requires tbl < NUM_ARITH_TBLS && i < AC_STAT_BINS
  {
    NUM_ARITH_TBLS * DC_STAT_BINS + tbl * AC_STAT_BINS + i
  }

  const FIXED_BIN: Bin := BINS - 1

  // ----- Magnitudes -----

  // Figure F.9: the bits of v below m
  function MagnitudeBits(st: Bin, m: nat, v: nat, tail: Decisions): Decisions {
    if m <= 1 then tail
    else Decide(st, if BitTest(m / 2, v) then 1 else 0, MagnitudeBits(st, m / 2, v, tail))
  }

  // Distance from a category bin to the bin for the bits that follow it
  const M_OFFSET := 14

  // Figure F.8, from bin base + i on, with m == 1 << (category so far) and v2 == v >> that.
  // A value of 16 bits needs no more than 15 such steps.
  function Category(base: nat, i: nat, v2: nat, m: nat, v: nat, tail: Decisions): Decisions
    requires base + 29 < BINS && i <= 15
    decreases v2
  {
    if v2 / 2 != 0 && i < 15 then Decide(base + i, 1, Category(base, i + 1, v2 / 2, 2 * m, v, tail))
    else Decide(base + i, 0, MagnitudeBits(base + i + M_OFFSET, m, v, tail))
  }

  // A value that has more than one bit left after i steps, of 16 at most
  lemma CategoryRoom(v2: nat, i: nat)
    requires i <= 15 && 1 < v2 < Scale(1, 16 - i)
    ensures i < 15 && v2 / 2 < Scale(1, 15 - i)
  {
  }

  // Sections F.1.4.1 and F.1.4.4.1: a difference of DC values in the conditioning context ctx
  function DcDifference(tbl: nat, ctx: nat, diff: int, tail: Decisions): Decisions
    requires tbl < NUM_ARITH_TBLS && ctx <= 16 && Abs(diff) <= 0x1_0000
  {
    if diff == 0 then Decide(DcBin(tbl, ctx), 0, tail)
    else
      var (sign, v) := if diff > 0 then (0, diff - 1) else (1, -diff - 1);
      Decide(DcBin(tbl, ctx), 1,
        Decide(DcBin(tbl, ctx + 1), sign, DcMagnitude(tbl, DcBin(tbl, ctx + 2 + sign), v, tail)))
  }

  function DcMagnitude(tbl: nat, st: Bin, v: nat, tail: Decisions): Decisions
    requires tbl < NUM_ARITH_TBLS && v < 0x1_0000
  {
    if v == 0 then Decide(st, 0, tail)
    else Decide(st, 1, Category(DcBin(tbl, 20), 0, v, 1, v, tail))
  }

  // Section F.1.4.4.1.2: the conditioning category that a difference establishes
  function DcContext(s: Scan, tbl: nat, diff: int): (ctx: nat)
    requires TablesOk(s) && tbl < NUM_ARITH_TBLS
    ensures ctx <= 16
  {
    if diff == 0 then 0
    else
      var (sign, m) := if diff > 0 then (0, TopBit(diff - 1)) else (1, TopBit(-diff - 1));
      if m < Scale(1, s.dcL[tbl]) / 2 then 0
      else if m > Scale(1, s.dcU[tbl]) / 2 then 12 + 4 * sign
      else 4 + 4 * sign
  }

  // Section F.1.4.4.1.2, with lower and upper bound L and U: a difference of at most 2^L / 2 counts as zero,
  // and otherwise one of more than 2^U as large.
  predicate Conditioned(L: nat, U: nat, diff: int, ctx: nat) {
    if 2 * Abs(diff) <= Scale(1, L) then ctx == 0
    else if Abs(diff) > Scale(1, U) then ctx == if diff > 0 then 12 else 16
    else ctx == if diff > 0 then 4 else 8
  }

  // The code compares the top bit of the magnitude less one with half of each power.
  lemma DcConditioned(s: Scan, tbl: nat, diff: int)
    requires TablesOk(s) && tbl < NUM_ARITH_TBLS
    ensures Conditioned(s.dcL[tbl], s.dcU[tbl], diff, DcContext(s, tbl, diff))
  {
    if diff != 0 {
      TopBitBelow(Abs(diff) - 1, s.dcL[tbl]);
      TopBitBelow(Abs(diff) - 1, s.dcU[tbl]);
    }
  }

  lemma TopBitBelow(v: nat, n: nat)
    ensures TopBit(v) < Scale(1, n) / 2 <==> 2 * (v + 1) <= Scale(1, n)
    ensures TopBit(v) > Scale(1, n) / 2 <==> v + 1 > Scale(1, n)
  {
    if n > 0 {
      TopBitPowers(v, n - 1);
      TopBitPowers(v, n);
      TopBitOrder(v, n - 1);
    }
  }

  lemma {:induction false} TopBitPowers(v: nat, n: nat)
    ensures TopBit(v) < Scale(1, n) <==> v < Scale(1, n)
    decreases v
  {
    if v > 1 {
      TopBitPowers(v / 2, if n > 0 then n - 1 else 0);
    }
  }

  // There is nothing between a power of two and the next.
  lemma {:induction false} TopBitOrder(v: nat, n: nat)
    ensures TopBit(v) > Scale(1, n) <==> TopBit(v) >= Scale(1, n + 1)
    decreases n
  {
    if v > 1 {
      if n > 0 {
        TopBitOrder(v / 2, n - 1);
      } else {
        assert Scale(1, 1) == 2;
      }
    }
  }

  // A nonzero AC coefficient with magnitude v + 1 at position k
  function AcMagnitude(s: Scan, tbl: nat, k: nat, v: nat, tail: Decisions): Decisions
    requires TablesOk(s) && tbl < NUM_ARITH_TBLS && 1 <= k < DCTSIZE2 && v < 0x1_0000
  {
    var st := AcBin(tbl, 3 * (k - 1) + 2);
    if v == 0 then Decide(st, 0, tail) else Decide(st, 1, AcMagnitudeAboveZero(s, tbl, k, v, tail))
  }

  function AcMagnitudeAboveZero(s: Scan, tbl: nat, k: nat, v: nat, tail: Decisions): Decisions
    requires TablesOk(s) && tbl < NUM_ARITH_TBLS && 1 <= k < DCTSIZE2 && v < 0x1_0000
  {
    var st := AcBin(tbl, 3 * (k - 1) + 2);
    if v / 2 == 0 then Decide(st, 0, tail)
    else Decide(st, 1, Category(AcBin(tbl, AcBase(s, tbl, k)), 0, v / 2, 2, v, tail))
  }

  function AcBase(s: Scan, tbl: nat, k: nat): (b: nat)
    requires TablesOk(s) && tbl < NUM_ARITH_TBLS
    ensures b == 189 || b == 217
  {
    if k <= s.acK[tbl] then 189 else 217
  }

  // ----- AC coefficients of one block, in zigzag order -----

  function AtZigzag(s: Scan, block: Block, k: nat): Coef
    requires |s.order| == DCTSIZE2 && k < DCTSIZE2
  {
    if s.order[k] < DCTSIZE2 then block[s.order[k]] else 0
  }

  // The point transform of AC coefficients rounds towards zero.
  function AcLevel(s: Scan, block: Block, k: nat, al: nat): (v: nat)
    requires |s.order| == DCTSIZE2 && k < DCTSIZE2
    ensures v <= 0x8000
  {
    Shr(Abs(AtZigzag(s, block, k)), al)
  }

  // The last position up to k whose level is not zero, or 0
  function LastNonzero(s: Scan, block: Block, k: nat, al: nat): (e: nat)
    requires |s.order| == DCTSIZE2 && k < DCTSIZE2
    ensures e <= k && (0 < e ==> AcLevel(s, block, e, al) != 0)
    ensures forall i :: e < i <= k ==> AcLevel(s, block, i, al) == 0
  {
    if k == 0 || AcLevel(s, block, k, al) != 0 then k else LastNonzero(s, block, k - 1, al)
  }

  function Sign(c: int): Bit {
    if c >= 0 then 0 else 1
  }

  // Figure F.5: the coefficients from position k on, ke being the last nonzero one
  function AcCoefs(s: Scan, tbl: nat, block: Block, ke: nat, k: nat, tail: Decisions): Decisions
    requires TablesOk(s) && |s.order| == DCTSIZE2 && tbl < NUM_ARITH_TBLS
    requires ke <= s.Se < DCTSIZE2 && 1 <= k <= s.Se + 1
    requires 0 < ke ==> AcLevel(s, block, ke, s.Al) != 0
    decreases DCTSIZE2 - k, 2
  {
    if k <= ke then Decide(AcBin(tbl, 3 * (k - 1)), 0, AcRun(s, tbl, block, ke, k, tail))
    else if k <= s.Se then Decide(AcBin(tbl, 3 * (k - 1)), 1, tail)
    else tail
  }

  // Zero coefficients up to the next nonzero one, and that one
  function AcRun(s: Scan, tbl: nat, block: Block, ke: nat, k: nat, tail: Decisions): Decisions
    requires TablesOk(s) && |s.order| == DCTSIZE2 && tbl < NUM_ARITH_TBLS
    requires 1 <= k <= ke <= s.Se < DCTSIZE2
    requires AcLevel(s, block, ke, s.Al) != 0
    decreases DCTSIZE2 - k, 1
  {
    if AcLevel(s, block, k, s.Al) == 0 then
      Decide(AcBin(tbl, 3 * (k - 1) + 1), 0, AcRun(s, tbl, block, ke, k + 1, tail))
    else Decide(AcBin(tbl, 3 * (k - 1) + 1), 1, AcNonzero(s, tbl, block, ke, k, tail))
  }

  // The sign and the magnitude of the coefficient at position k, and all that follows
  function AcNonzero(s: Scan, tbl: nat, block: Block, ke: nat, k: nat, tail: Decisions): Decisions
    requires TablesOk(s) && |s.order| == DCTSIZE2 && tbl < NUM_ARITH_TBLS
    requires 1 <= k <= ke <= s.Se < DCTSIZE2
    requires AcLevel(s, block, ke, s.Al) != 0 && AcLevel(s, block, k, s.Al) != 0
    decreases DCTSIZE2 - k, 0
  {
    Decide(FIXED_BIN, Sign(AtZigzag(s, block, k)),
      AcMagnitude(s, tbl, k, AcLevel(s, block, k, s.Al) - 1, AcCoefs(s, tbl, block, ke, k + 1, tail)))
  }

  // ----- Refinement of AC coefficients (figure G.10) -----

  // From position k on; kex is the last position that was nonzero before
  function AcRefine(s: Scan, tbl: nat, block: Block, ke: nat, kex: nat, k: nat, tail: Decisions): Decisions
    requires TablesOk(s) && |s.order| == DCTSIZE2 && tbl < NUM_ARITH_TBLS
    requires ke <= s.Se < DCTSIZE2 && 1 <= k <= s.Se + 1
    requires 0 < ke ==> AcLevel(s, block, ke, s.Al) != 0
    decreases DCTSIZE2 - k, 1
  {
    if k <= ke then
      var run := RefineRun(s, tbl, block, ke, kex, k, tail);
      if k > kex then Decide(AcBin(tbl, 3 * (k - 1)), 0, run) else run
    else if k <= s.Se then Decide(AcBin(tbl, 3 * (k - 1)), 1, tail)
    else tail
  }

  function RefineRun(s: Scan, tbl: nat, block: Block, ke: nat, kex: nat, k: nat, tail: Decisions): Decisions
    requires TablesOk(s) && |s.order| == DCTSIZE2 && tbl < NUM_ARITH_TBLS
    requires 1 <= k <= ke <= s.Se < DCTSIZE2
    requires AcLevel(s, block, ke, s.Al) != 0
    decreases DCTSIZE2 - k, 0
  {
    var t := AcLevel(s, block, k, s.Al);
    if t == 0 then
      Decide(AcBin(tbl, 3 * (k - 1) + 1), 0, RefineRun(s, tbl, block, ke, kex, k + 1, tail))
    else if t / 2 != 0 then
      Decide(AcBin(tbl, 3 * (k - 1) + 2), t % 2, AcRefine(s, tbl, block, ke, kex, k + 1, tail))
    else
      Decide(AcBin(tbl, 3 * (k - 1) + 1), 1,
        Decide(FIXED_BIN, Sign(AtZigzag(s, block, k)), AcRefine(s, tbl, block, ke, kex, k + 1, tail)))
  }

  // ----- Blocks and MCUs -----

  datatype Mode = Sequential | DcFirst | AcFirst | DcRefinement | AcRefinement

  // The coding routine that the start of a pass selects
  function ModeOf(s: Scan): Mode {
    if !s.progressive then Sequential
    else if s.Ah == 0 then (if s.Ss == 0 then DcFirst else AcFirst)
    else if s.Ss == 0 then DcRefinement else AcRefinement
  }

  // DC predictions and conditioning contexts of the components
  datatype Prediction = Prediction(lastDc: seq<Coef>, context: seq<nat>)

  // Passes that do not code DC differences leave the predictions at zero.
  predicate PredictionOk(s: Scan, p: Prediction) {
    && |p.lastDc| == |p.context| == |s.comps|
    && (forall i :: 0 <= i < |s.comps| ==> p.context[i] <= 16)
    && (!CodesDc(s) ==> p == ResetPrediction(s))
  }

  function ResetPrediction(s: Scan): Prediction {
    Prediction(seq(|s.comps|, i => 0), seq(|s.comps|, i => 0))
  }

  // The DC value after the point transform, an arithmetic shift
  function DcLevel(s: Scan, block: Block): (m: Coef)
    ensures m == Shr(block[0], s.Al)
  {
    ShrCoef(block[0], s.Al);
    Shr(block[0], s.Al)
  }

  lemma {:induction false} ShrCoef(c: int, n: nat)
    requires -0x8000 <= c < 0x8000
    ensures -0x8000 <= Shr(c, n) < 0x8000
    decreases n
  {
    if n > 0 {
      ShrCoef(c / 2, n - 1);
    }
  }

  predicate CodesDc(s: Scan) {
    !s.progressive || (s.Ss == 0 && s.Ah == 0)
  }

  predicate CodesAc(s: Scan) {
    !s.progressive || s.Ss != 0
  }

  // ----- Statistics areas at the start of a segment -----

  function ClearArea(stats: Statistics, from: nat, len: nat): Statistics
    requires from + len <= BINS
  {
    stats[..from] + seq(len, i => Stat(0, 0)) + stats[from + len..]
  }

  // The areas of the tables that the first n components use in this scan are cleared.
  function Cleared(s: Scan, stats: Statistics, n: nat): Statistics
    requires TablesOk(s) && n <= |s.comps|
  {
    if n == 0 then stats else ClearTables(s, Cleared(s, stats, n - 1), s.comps[n - 1])
  }

  function ClearTables(s: Scan, stats: Statistics, c: Component): Statistics
    requires c.dcTbl < NUM_ARITH_TBLS && c.acTbl < NUM_ARITH_TBLS
  {
    var dc := if CodesDc(s) then ClearArea(stats, DcBin(c.dcTbl, 0), DC_STAT_BINS) else stats;
    if CodesAc(s) then ClearArea(dc, AcBin(c.acTbl, 0), AC_STAT_BINS) else dc
  }

  function NextPrediction(s: Scan, p: Prediction, ci: nat, block: Block): (p': Prediction)
    requires TablesOk(s) && PredictionOk(s, p) && ci < |s.comps|
    ensures PredictionOk(s, p')
  {
    if !CodesDc(s) then p
    else
      var m := DcLevel(s, block);
      Prediction(p.lastDc[ci := m],
                 p.context[ci := DcContext(s, s.comps[ci].dcTbl, m - p.lastDc[ci])])
  }

  function FirstAc(s: Scan): nat {
    if s.progressive then s.Ss else 1
  }

  ghost function BlockAc(s: Scan, tbl: nat, block: Block, tail: Decisions): Decisions
    requires ScanOk(s) && tbl < NUM_ARITH_TBLS && 1 <= FirstAc(s)
  {
    AcCoefs(s, tbl, block, LastNonzero(s, block, s.Se, s.Al), FirstAc(s), tail)
  }

  ghost function BlockRefine(s: Scan, tbl: nat, block: Block, tail: Decisions): Decisions
    requires ScanOk(s) && tbl < NUM_ARITH_TBLS && ModeOf(s) == AcRefinement
  {
    var ke := LastNonzero(s, block, s.Se, s.Al);
    AcRefine(s, tbl, block, ke, LastNonzero(s, block, ke, s.Ah), s.Ss, tail)
  }

  ghost function BlockDecisions(s: Scan, p: Prediction, ci: nat, block: Block, tail: Decisions): Decisions
    requires ScanOk(s) && PredictionOk(s, p) && ci < |s.comps|
  {
    var c := s.comps[ci];
    match ModeOf(s)
    case Sequential =>
      DcDifference(c.dcTbl, p.context[ci], DcLevel(s, block) - p.lastDc[ci], BlockAc(s, c.acTbl, block, tail))
    case DcFirst => DcDifference(c.dcTbl, p.context[ci], DcLevel(s, block) - p.lastDc[ci], tail)
    case AcFirst => BlockAc(s, c.acTbl, block, tail)
    case DcRefinement => Decide(FIXED_BIN, Shr(block[0], s.Al) % 2, tail)
    case AcRefinement => BlockRefine(s, c.acTbl, block, tail)
  }

  // The blocks of an MCU from blkn on, in coding order
  ghost function McuDecisions(s: Scan, p: Prediction, mcu: seq<Block>, blkn: nat, tail: Decisions): Decisions
    requires ScanOk(s) && PredictionOk(s, p) && |mcu| == |s.membership| && blkn <= |mcu|
    decreases |mcu| - blkn
  {
    if blkn == |mcu| then tail
    else
      var ci := s.membership[blkn];
      var p' := NextPrediction(s, p, ci, mcu[blkn]);
      BlockDecisions(s, p, ci, mcu[blkn], McuDecisions(s, p', mcu, blkn + 1, tail))
  }

  function McuPrediction(s: Scan, p: Prediction, mcu: seq<Block>, blkn: nat): (p': Prediction)
    requires TablesOk(s) && PredictionOk(s, p) && |mcu| == |s.membership| && blkn <= |mcu|
    ensures PredictionOk(s, p')
    decreases |mcu| - blkn
  {
    if blkn == |mcu| then p
    else McuPrediction(s, NextPrediction(s, p, s.membership[blkn], mcu[blkn]), mcu, blkn + 1)
  }
}
