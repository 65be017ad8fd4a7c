// The decisions of a scan in closed form, as tables F.4 and F.5 and figures F.4 to F.9 and G.10 of
// ITU-T T.81 give them: which bin each decision is made with, and what it says.
module ArithFigures {
  import opened Arithmetic
  import opened BitFields
  import opened Aritab
  import opened ArithInterval
  import opened ArithScan
  import opened ArithSegments

  datatype Decision = Decision(st: nat, bit: nat)

  // These decisions, and then others
  predicate Starts(ds: Decisions, xs: seq<Decision>, tail: Decisions)
    decreases |xs|
  {
    if xs == [] then ds == tail
    else ds.Decide? && ds.st == xs[0].st && ds.bit == xs[0].bit && Starts(ds.tail, xs[1..], tail)
  }

  lemma {:induction false} StartsJoin(ds: Decisions, xs: seq<Decision>, mid: Decisions, ys: seq<Decision>, tail: Decisions)
    requires Starts(ds, xs, mid) && Starts(mid, ys, tail)
    ensures Starts(ds, xs + ys, tail)
    decreases |xs|
  {
    if xs == [] {
      assert xs + ys == ys;
    } else {
      StartsJoin(ds.tail, xs[1..], mid, ys, tail);
      assert (xs + ys)[1..] == xs[1..] + ys;
    }
  }

  lemma StartsMore(ds: Decisions, st: nat, bit: nat, ys: seq<Decision>, tail: Decisions)
    requires ds.Decide? && ds.st == st && ds.bit == bit && Starts(ds.tail, ys, tail)
    ensures Starts(ds, [Decision(st, bit)] + ys, tail)
  {
    assert ([Decision(st, bit)] + ys)[1..] == ys;
  }

  // ----- Magnitudes -----

  // v has n bits.
  predicate HasBits(v: nat, n: nat) {
    n >= 1 && Scale(1, n - 1) <= v < Scale(1, n)
  }

  // The value of the bit of v with this weight
  function BitAt(v: nat, i: nat): (b: nat)
    ensures b <= 1
  {
    v / Scale(1, i) % 2
  }

  // A category number from 1 on, in unary, with one bin for each digit
  function Unary(base: nat, n: nat): seq<Decision>
    requires n >= 1
  {
    seq(n - 1, i requires 0 <= i < n - 1 => Decision(base + i, 1)) + [Decision(base + n - 1, 0)]
  }

  // The bits of v below its first one, all with the same bin
  function Pattern(st: nat, v: nat, n: nat): seq<Decision>
    requires n >= 1
  {
    seq(n - 1, i requires 0 <= i < n - 1 => Decision(st, BitAt(v, n - 2 - i)))
  }

  lemma {:induction false} BitTestAt(v: nat, i: nat)
    ensures BitTest(Scale(1, i), v) <==> BitAt(v, i) == 1
  {
    if i > 0 {
      BitTestAt(v / 2, i - 1);
      HalfFirst(v, i - 1);
    }
  }

  lemma HalfFirst(v: nat, i: nat)
    ensures v / (2 * Scale(1, i)) == v / 2 / Scale(1, i)
  {
    var d := Scale(1, i);
    var q, r := v / 2 / d, v / 2 % d;
    assert v / 2 == d * q + r;
    assert v == 2 * (v / 2) + v % 2;
    Distribute(2, d * q, r);
    assert 2 * d * q == 2 * (d * q);
    DivMod(2 * d, q, 2 * r + v % 2);
  }

  lemma {:induction false} PatternStarts(st: Bin, v: nat, n: nat, tail: Decisions)
    requires n >= 1
    ensures Starts(MagnitudeBits(st, Scale(1, n - 1), v, tail), Pattern(st, v, n), tail)
    decreases n
  {
    hide BitTest, BitAt;
    var xs := Pattern(st, v, n);
    if n > 1 {
      PatternStarts(st, v, n - 1, tail);
      BitTestAt(v, n - 2);
      assert xs[1..] == Pattern(st, v, n - 1);
    }
  }

  // Figure F.8, when k bits of v are left
  lemma {:induction false} CategoryStarts(base: nat, i: nat, v2: nat, m: nat, k: nat, v: nat, n: nat, tail: Decisions)
    requires base + 29 < BINS && HasBits(v2, k) && k <= n && m == Scale(1, n - k) && i + k <= 16
    ensures Starts(Category(base, i, v2, m, v, tail), Unary(base + i, k) + Pattern(base + i + k - 1 + M_OFFSET, v, n), tail)
    decreases k
  {
    hide MagnitudeBits, Pattern;
    var ds, rest := Category(base, i, v2, m, v, tail), Pattern(base + i + k - 1 + M_OFFSET, v, n);
    var xs := Unary(base + i, k) + rest;
    if k > 1 {
      CategoryStarts(base, i + 1, v2 / 2, 2 * m, k - 1, v, n, tail);
      assert xs[0] == Decision(base + i, 1) && xs[1..] == Unary(base + (i + 1), k - 1) + rest;
    } else {
      PatternStarts(base + i + M_OFFSET, v, n, tail);
      assert xs[0] == Decision(base + i, 0) && xs[1..] == rest;
    }
  }

  // ----- DC differences -----

  // Table F.4: bins S0, SS = S0 + 1, SP = S0 + 2, SN = S0 + 3, with S0 the category of the difference
  // before, X1 = 20, and the bit pattern 14 bins behind the last bin of the category; n is the number of
  // bits of the magnitude less one.
  function DcFigure(area: nat, ctx: nat, diff: int, n: nat): seq<Decision>
    requires n >= 1
  {
    var sign := if diff > 0 then 0 else 1;
    if diff == 0 then [Decision(area + ctx, 0)]
    else
      [Decision(area + ctx, 1), Decision(area + ctx + 1, sign), Decision(area + ctx + 2 + sign, if Abs(diff) > 1 then 1 else 0)]
      + if Abs(diff) > 1 then Unary(area + 20, n) + Pattern(area + 20 + n - 1 + 14, Abs(diff) - 1, n) else []
  }

  // A difference is coded as figures F.4 to F.9 say.
  lemma DcFigures(tbl: nat, ctx: nat, diff: int, n: nat, tail: Decisions)
    requires tbl < NUM_ARITH_TBLS && ctx <= 16 && Abs(diff) <= 0x1_0000 && 1 <= n <= 16
    requires Abs(diff) > 1 ==> HasBits(Abs(diff) - 1, n)
    ensures Starts(DcDifference(tbl, ctx, diff, tail), DcFigure(64 * tbl, ctx, diff, n), tail)
  {
    hide Category, Unary, Pattern, HasBits, Starts;
    var ds, area := DcDifference(tbl, ctx, diff, tail), 64 * tbl;
    var sign := if diff > 0 then 0 else 1;
    Nothing(tail);
    if diff == 0 {
      StartsMore(ds, area + ctx, 0, [], tail);
      assert [Decision(area + ctx, 0)] + [] == [Decision(area + ctx, 0)];
    } else {
      var v: nat, ys := Abs(diff) - 1, [];
      if v > 0 {
        CategoryStarts(DcBin(tbl, 20), 0, v, 1, n, v, n, tail);
        ys := Unary(area + 20, n) + Pattern(area + 20 + n - 1 + 14, v, n);
      }
      var x, y, z := Decision(area + ctx, 1), Decision(area + ctx + 1, sign), Decision(area + ctx + 2 + sign, if v > 0 then 1 else 0);
      StartsMore(ds.tail.tail, z.st, z.bit, ys, tail);
      StartsMore(ds.tail, y.st, y.bit, [z] + ys, tail);
      StartsMore(ds, x.st, x.bit, [y] + ([z] + ys), tail);
      assert [x] + ([y] + ([z] + ys)) == [x, y, z] + ys;
    }
  }

  lemma Nothing(tail: Decisions)
    ensures Starts(tail, [], tail)
  {
  }

  // ----- AC coefficients -----

  // Table F.5: bins SE = 3 (k - 1), S0 = SE + 1, SP = SN = X1 = SE + 2, X2 = 189 up to position Kx and 217
  // behind it, and the bit pattern 14 bins behind the last bin of the category
  function AcFigure(area: nat, k: nat, kx: nat, magnitude: nat, n: nat): seq<Decision>
    requires n >= 1 && k >= 1
  {
    var sp, x2 := area + 3 * (k - 1) + 2, area + if k <= kx then 189 else 217;
    if magnitude <= 1 then [Decision(sp, 0)]
    else
      [Decision(sp, 1), Decision(sp, if magnitude > 2 then 1 else 0)]
      + if magnitude > 2 && n >= 2 then Unary(x2, n - 1) + Pattern(x2 + n - 2 + 14, magnitude - 1, n) else []
  }

  lemma AcFigures(s: Scan, tbl: nat, k: nat, magnitude: nat, n: nat, tail: Decisions)
    requires TablesOk(s) && tbl < NUM_ARITH_TBLS && 1 <= k < DCTSIZE2 && 1 <= magnitude <= 0x1_0000 && 1 <= n <= 16
    requires magnitude > 1 ==> HasBits(magnitude - 1, n)
    ensures Starts(AcMagnitude(s, tbl, k, magnitude - 1, tail), AcFigure(1024 + 256 * tbl, k, s.acK[tbl], magnitude, n), tail)
  {
    hide Category, Unary, Pattern, HasBits, Starts;
    var v, x2 := magnitude - 1, 1024 + 256 * tbl + if k <= s.acK[tbl] then 189 else 217;
    var ds, sp := AcMagnitude(s, tbl, k, v, tail), AcBin(tbl, 3 * (k - 1) + 2);
    Nothing(tail);
    if v == 0 {
      StartsMore(ds, sp, 0, [], tail);
      assert [Decision(sp, 0)] + [] == [Decision(sp, 0)];
    } else {
      HalfBits(v, n);
      var ys := [];
      if v > 1 {
        CategoryStarts(x2, 0, v / 2, 2, n - 1, v, n, tail);
        ys := Unary(x2, n - 1) + Pattern(x2 + n - 2 + 14, v, n);
      }
      var x, y := Decision(sp, 1), Decision(sp, if v > 1 then 1 else 0);
      StartsMore(ds.tail, y.st, y.bit, ys, tail);
      StartsMore(ds, x.st, x.bit, [y] + ys, tail);
      assert [x] + ([y] + ys) == [x, y] + ys;
    }
  }

  lemma HalfBits(v: nat, n: nat)
    requires HasBits(v, n)
    ensures v >= 2 <==> n >= 2
    ensures n >= 2 ==> HasBits(v / 2, n - 1)
  {
  }

  // Positions k to j - 1 are zero after the point transform, and j is not.
  ghost predicate Run(s: Scan, block: Block, k: nat, j: nat)
    requires |s.order| == DCTSIZE2
  {
    && 1 <= k <= j <= s.Se < DCTSIZE2 && AcLevel(s, block, j, s.Al) != 0
    && forall i :: k <= i < j ==> AcLevel(s, block, i, s.Al) == 0
  }

  // Decisions that the coefficients at these positions are zero
  function Zeros(area: nat, k: nat, j: nat): seq<Decision>
    requires 1 <= k <= j
  {
    seq(j - k, i requires 0 <= i < j - k => Decision(area + 3 * (k + i - 1) + 1, 0))
  }

  function SignOf(c: int): nat {
    if c > 0 then 0 else 1
  }

  lemma {:induction false} ZerosStart(s: Scan, tbl: nat, block: Block, ke: nat, k: nat, j: nat, tail: Decisions)
    requires TablesOk(s) && |s.order| == DCTSIZE2 && tbl < NUM_ARITH_TBLS && Run(s, block, k, j) && j <= ke <= s.Se
    requires AcLevel(s, block, ke, s.Al) != 0
    ensures Starts(AcRun(s, tbl, block, ke, k, tail), Zeros(1024 + 256 * tbl, k, j), AcRun(s, tbl, block, ke, j, tail))
    decreases j - k
  {
    hide AcLevel, TablesOk, AcNonzero;
    if k < j {
      ZerosStart(s, tbl, block, ke, k + 1, j, tail);
      assert Zeros(1024 + 256 * tbl, k, j) == [Decision(1024 + 256 * tbl + 3 * (k - 1) + 1, 0)] + Zeros(1024 + 256 * tbl, k + 1, j);
      StartsMore(AcRun(s, tbl, block, ke, k, tail), 1024 + 256 * tbl + 3 * (k - 1) + 1, 0, Zeros(1024 + 256 * tbl, k + 1, j),
        AcRun(s, tbl, block, ke, j, tail));
    }
  }

  // Figure F.5: not the end of the block, zeros, and a coefficient with sign and magnitude; ke is the last
  // position that is not zero.
  lemma AcNext(s: Scan, tbl: nat, block: Block, ke: nat, k: nat, j: nat, tail: Decisions)
    requires TablesOk(s) && |s.order| == DCTSIZE2 && tbl < NUM_ARITH_TBLS && Run(s, block, k, j) && j <= ke <= s.Se
    requires AcLevel(s, block, ke, s.Al) != 0
    ensures var area := 1024 + 256 * tbl;
            Starts(AcCoefs(s, tbl, block, ke, k, tail),
              [Decision(area + 3 * (k - 1), 0)] + Zeros(area, k, j)
              + [Decision(area + 3 * (j - 1) + 1, 1), Decision(FIXED_BIN, SignOf(AtZigzag(s, block, j)))],
              AcMagnitude(s, tbl, j, AcLevel(s, block, j, s.Al) - 1, AcCoefs(s, tbl, block, ke, j + 1, tail)))
  {
    hide TablesOk, AcMagnitude, Starts, Zeros, AcLevel, AtZigzag;
    var area, ds, run := 1024 + 256 * tbl, AcCoefs(s, tbl, block, ke, k, tail), AcRun(s, tbl, block, ke, j, tail);
    var behind := AcMagnitude(s, tbl, j, AcLevel(s, block, j, s.Al) - 1, AcCoefs(s, tbl, block, ke, j + 1, tail));
    var sign := Decision(FIXED_BIN, SignOf(AtZigzag(s, block, j)));
    ZerosStart(s, tbl, block, ke, k, j, tail);
    SignKnown(s, block, j, s.Al);
    Nothing(behind);
    StartsMore(run.tail, sign.st, sign.bit, [], behind);
    StartsMore(run, area + 3 * (j - 1) + 1, 1, [sign] + [], behind);
    StartsJoin(ds.tail, Zeros(area, k, j), run, [Decision(area + 3 * (j - 1) + 1, 1)] + ([sign] + []), behind);
    StartsMore(ds, area + 3 * (k - 1), 0, Zeros(area, k, j) + ([Decision(area + 3 * (j - 1) + 1, 1)] + ([sign] + [])), behind);
    assert [Decision(area + 3 * (k - 1), 0)] + (Zeros(area, k, j) + ([Decision(area + 3 * (j - 1) + 1, 1)] + ([sign] + [])))
        == [Decision(area + 3 * (k - 1), 0)] + Zeros(area, k, j) + [Decision(area + 3 * (j - 1) + 1, 1), sign];
  }

  lemma SignKnown(s: Scan, block: Block, k: nat, al: nat)
    requires |s.order| == DCTSIZE2 && k < DCTSIZE2 && AcLevel(s, block, k, al) != 0
    ensures SignOf(AtZigzag(s, block, k)) == Sign(AtZigzag(s, block, k))
  {
    hide AtZigzag;
  }

  // Behind the last coefficient, the end of the block unless the band ends there
  lemma AcEnd(s: Scan, tbl: nat, block: Block, ke: nat, kex: nat, k: nat, tail: Decisions)
    requires TablesOk(s) && |s.order| == DCTSIZE2 && tbl < NUM_ARITH_TBLS && ke < k <= s.Se + 1 <= DCTSIZE2
    requires 0 < ke ==> AcLevel(s, block, ke, s.Al) != 0
    ensures AcCoefs(s, tbl, block, ke, k, tail) == if k <= s.Se then Decide(1024 + 256 * tbl + 3 * (k - 1), 1, tail) else tail
    ensures AcRefine(s, tbl, block, ke, kex, k, tail) == AcCoefs(s, tbl, block, ke, k, tail)
  {
    hide TablesOk, AcLevel;
  }

  lemma {:induction false} RefineZerosStart(s: Scan, tbl: nat, block: Block, ke: nat, kex: nat, k: nat, j: nat, tail: Decisions)
    requires TablesOk(s) && |s.order| == DCTSIZE2 && tbl < NUM_ARITH_TBLS && Run(s, block, k, j) && j <= ke <= s.Se
    requires AcLevel(s, block, ke, s.Al) != 0
    ensures Starts(RefineRun(s, tbl, block, ke, kex, k, tail), Zeros(1024 + 256 * tbl, k, j), RefineRun(s, tbl, block, ke, kex, j, tail))
    decreases j - k
  {
    hide AcLevel, TablesOk, AcRefine;
    if k < j {
      RefineZerosStart(s, tbl, block, ke, kex, k + 1, j, tail);
      assert Zeros(1024 + 256 * tbl, k, j) == [Decision(1024 + 256 * tbl + 3 * (k - 1) + 1, 0)] + Zeros(1024 + 256 * tbl, k + 1, j);
      StartsMore(RefineRun(s, tbl, block, ke, kex, k, tail), 1024 + 256 * tbl + 3 * (k - 1) + 1, 0, Zeros(1024 + 256 * tbl, k + 1, j),
        RefineRun(s, tbl, block, ke, kex, j, tail));
    }
  }

  // Figure G.10: the end of the block is asked for only behind kex, the last position known before; a known
  // coefficient has its next bit, and a new one its sign.
  function RefineFigure(area: nat, kex: nat, k: nat, j: nat, level: nat, sign: nat): seq<Decision>
    requires 1 <= k <= j
  {
    (if k > kex then [Decision(area + 3 * (k - 1), 0)] else [])
    + (Zeros(area, k, j)
       + (if level >= 2 then [Decision(area + 3 * (j - 1) + 2, level % 2)]
          else [Decision(area + 3 * (j - 1) + 1, 1), Decision(FIXED_BIN, sign)]))
  }

  lemma RefineNext(s: Scan, tbl: nat, block: Block, ke: nat, kex: nat, k: nat, j: nat, tail: Decisions)
    requires TablesOk(s) && |s.order| == DCTSIZE2 && tbl < NUM_ARITH_TBLS && Run(s, block, k, j) && j <= ke <= s.Se
    requires AcLevel(s, block, ke, s.Al) != 0
    ensures Starts(AcRefine(s, tbl, block, ke, kex, k, tail),
              RefineFigure(1024 + 256 * tbl, kex, k, j, AcLevel(s, block, j, s.Al), SignOf(AtZigzag(s, block, j))),
              AcRefine(s, tbl, block, ke, kex, j + 1, tail))
  {
    hide TablesOk, Starts, Zeros, AcLevel, AtZigzag;
    var area, level, sign := 1024 + 256 * tbl, AcLevel(s, block, j, s.Al), SignOf(AtZigzag(s, block, j));
    var ds, first, run := AcRefine(s, tbl, block, ke, kex, k, tail), RefineRun(s, tbl, block, ke, kex, k, tail),
                          RefineRun(s, tbl, block, ke, kex, j, tail);
    var behind := AcRefine(s, tbl, block, ke, kex, j + 1, tail);
    RefineZerosStart(s, tbl, block, ke, kex, k, j, tail);
    SignKnown(s, block, j, s.Al);
    Nothing(behind);
    var ys := if level >= 2 then [Decision(area + 3 * (j - 1) + 2, level % 2)]
              else [Decision(area + 3 * (j - 1) + 1, 1), Decision(FIXED_BIN, sign)];
    if level >= 2 {
      StartsMore(run, area + 3 * (j - 1) + 2, level % 2, [], behind);
      assert [Decision(area + 3 * (j - 1) + 2, level % 2)] + [] == ys;
    } else {
      StartsMore(run.tail, FIXED_BIN, sign, [], behind);
      StartsMore(run, area + 3 * (j - 1) + 1, 1, [Decision(FIXED_BIN, sign)] + [], behind);
      assert [Decision(area + 3 * (j - 1) + 1, 1)] + ([Decision(FIXED_BIN, sign)] + []) == ys;
    }
    StartsJoin(first, Zeros(area, k, j), run, ys, behind);
    if k > kex {
      StartsMore(ds, area + 3 * (k - 1), 0, Zeros(area, k, j) + ys, behind);
    } else {
      assert [] + (Zeros(area, k, j) + ys) == Zeros(area, k, j) + ys;
    }
  }

  // ----- DC predictions -----

  // The state with which block i of an MCU is coded
  function PredictionAt(s: Scan, p: Prediction, mcu: seq<Block>, i: nat): (p': Prediction)
    requires TablesOk(s) && PredictionOk(s, p) && |mcu| == |s.membership| && i <= |mcu|
    ensures PredictionOk(s, p')
  {
    if i == 0 then p else NextPrediction(s, PredictionAt(s, p, mcu, i - 1), s.membership[i - 1], mcu[i - 1])
  }

  lemma McuFrom(s: Scan, p: Prediction, mcu: seq<Block>, i: nat, tail: Decisions)
    requires ScanOk(s) && PredictionOk(s, p) && |mcu| == |s.membership| && i < |mcu|
    ensures McuDecisions(s, PredictionAt(s, p, mcu, i), mcu, i, tail)
            == BlockDecisions(s, PredictionAt(s, p, mcu, i), s.membership[i], mcu[i],
                 McuDecisions(s, PredictionAt(s, p, mcu, i + 1), mcu, i + 1, tail))
  {
  }

  // Block j is the last one of component c before block i.
  predicate Latest(s: Scan, c: nat, j: nat, i: nat) {
    j < i <= |s.membership| && s.membership[j] == c && forall k :: j < k < i ==> s.membership[k] != c
  }

  // The prediction is the value of the last block of the component, and the context is conditioned by that
  // block's difference; what has no block yet is as before the MCU.
  lemma {:induction false} PredictionIsLatest(s: Scan, p: Prediction, mcu: seq<Block>, i: nat, c: nat)
    requires TablesOk(s) && PredictionOk(s, p) && |mcu| == |s.membership| && i <= |mcu| && c < |s.comps| && CodesDc(s)
    ensures forall j :: 0 <= j < i && Latest(s, c, j, i) ==>
              && PredictionAt(s, p, mcu, i).lastDc[c] == DcLevel(s, mcu[j])
              && Conditioned(s.dcL[s.comps[c].dcTbl], s.dcU[s.comps[c].dcTbl], DcLevel(s, mcu[j]) - PredictionAt(s, p, mcu, j).lastDc[c],
                             PredictionAt(s, p, mcu, i).context[c])
    ensures c !in s.membership[..i] ==>
              PredictionAt(s, p, mcu, i).lastDc[c] == p.lastDc[c] && PredictionAt(s, p, mcu, i).context[c] == p.context[c]
  {
    hide Conditioned, DcContext, DcLevel;
    if i > 0 {
      PredictionIsLatest(s, p, mcu, i - 1, c);
      assert s.membership[..i] == s.membership[..i - 1] + [s.membership[i - 1]];
      if s.membership[i - 1] == c {
        DcConditioned(s, s.comps[c].dcTbl, DcLevel(s, mcu[i - 1]) - PredictionAt(s, p, mcu, i - 1).lastDc[c]);
      }
    }
  }

  // ----- Restart intervals -----

  lemma {:induction false} StartProduct(s: Scan, j: nat)
    ensures SegmentStart(s, j) == j * s.restartInterval
  {
    if j > 0 {
      StartProduct(s, j - 1);
      Distribute(s.restartInterval, j - 1, 1);
    }
  }

  // Segment j has the MCUs of interval j, and there are just as many segments as the MCUs take intervals,
  // or one without restarts.
  lemma SegmentsAreIntervals(s: Scan, mcus: seq<seq<Block>>, previous: Statistics, segments: seq<seq<Byte>>, after: Statistics, j: nat)
    requires ScanOk(s) && McusOk(s, mcus) && ScanCoded(s, mcus, previous, segments, after) && j < |segments|
    ensures s.restartInterval == 0 ==> |segments| == 1 && SegmentStart(s, j) == 0 && SegmentEnd(s, |mcus|, SegmentStart(s, j)) == |mcus|
    ensures s.restartInterval > 0 ==>
              && SegmentStart(s, j) == j * s.restartInterval <= |mcus|
              && SegmentEnd(s, |mcus|, SegmentStart(s, j))
                 == (if (j + 1) * s.restartInterval < |mcus| then (j + 1) * s.restartInterval else |mcus|)
              && (j + 1 == |segments| <==> |mcus| <= (j + 1) * s.restartInterval)
  {
    hide ScanOk, McusOk, AllCoded, SegmentFinal;
    var last := |segments| - 1;
    StartProduct(s, j);
    StartProduct(s, last);
    Distribute(s.restartInterval, j, 1);
    Distribute(s.restartInterval, last, 1);
    if j < last {
      ProductMonotonic(j + 1, last, s.restartInterval);
    }
  }

  // ----- Statistics at the start of a segment -----

  // The bin belongs to a component's area for DC differences, if the scan codes such, or for AC coefficients.
  predicate InArea(s: Scan, c: Component, b: nat) {
    || ((!s.progressive || (s.Ss == 0 && s.Ah == 0)) && 64 * c.dcTbl <= b < 64 * (c.dcTbl + 1))
    || ((!s.progressive || s.Se > 0) && 1024 + 256 * c.acTbl <= b < 1024 + 256 * (c.acTbl + 1))
  }

  lemma ClearedArea(s: Scan, stats: Statistics, c: Component, b: nat)
    requires c.dcTbl < NUM_ARITH_TBLS && c.acTbl < NUM_ARITH_TBLS && b < BINS && ProgressionOk(s)
    ensures ClearTables(s, stats, c)[b] == if InArea(s, c, b) then Stat(0, 0) else stats[b]
  {
    var dc := if CodesDc(s) then ClearArea(stats, DcBin(c.dcTbl, 0), DC_STAT_BINS) else stats;
    ClearedBin(stats, DcBin(c.dcTbl, 0), DC_STAT_BINS, b);
    ClearedBin(dc, AcBin(c.acTbl, 0), AC_STAT_BINS, b);
    hide ClearArea;
  }

  lemma ClearedBin(stats: Statistics, from: nat, len: nat, b: nat)
    requires from + len <= BINS && b < BINS
    ensures ClearArea(stats, from, len)[b] == if from <= b < from + len then Stat(0, 0) else stats[b]
  {
  }

  // Just the areas of the first n components start anew.
  lemma {:induction false} ClearedAreas(s: Scan, stats: Statistics, n: nat, b: nat)
    requires ScanOk(s) && n <= |s.comps| && b < BINS
    ensures Cleared(s, stats, n)[b] == if exists c :: 0 <= c < n && InArea(s, s.comps[c], b) then Stat(0, 0) else stats[b]
  {
    hide OrderOk, ClearTables, InArea;
    if n > 0 {
      ClearedAreas(s, stats, n - 1, b);
      ClearedArea(s, Cleared(s, stats, n - 1), s.comps[n - 1], b);
    }
  }
}
