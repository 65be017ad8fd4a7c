// The bits of a scan as the figures and tables of annexes C and F of ITU-T T.81 give them, in closed form:
// categories, value bits, code words, the symbols of a block, DC predictions and restart intervals.
module HuffmanFigures {
  import opened Arithmetic
  import opened BitFields
  import opened BitStrings
  import opened ArithScan
  import opened HuffmanLimit
  import opened HuffmanGen
  import opened HuffmanCode
  import opened HuffmanTables
  import opened HuffmanDecode
  import opened ArithInterval
  import opened HuffmanWriter
  import opened HuffmanBlock
  import opened HuffmanSegments
  import opened HuffmanStatistics

  // ----- Bit strings -----

  // The most significant bit comes first.
  lemma {:induction false} BitsOfAt(v: nat, n: nat, i: nat)
    requires i < n
    ensures BitsOf(v, n)[i] <==> v / Scale(1, n - 1 - i) % 2 == 1
    decreases n
  {
    if i < n - 1 {
      BitsOfAt(v / 2, n - 1, i);
      HalfFirst(v, n - 2 - i);
    }
  }

  lemma HalfFirst(v: nat, i: nat)
    ensures v / Scale(1, i + 1) == v / 2 / Scale(1, i)
  {
    var d := Scale(1, i);
    var q, r := v / 2 / d, v / 2 % d;
    assert v == 2 * (v / 2) + v % 2 && v / 2 == d * q + r;
    assert 2 * d * q == 2 * (d * q);
    DivMod(2 * d, q, 2 * r + v % 2);
  }

  // Bytes follow one another, each with its most significant bit first.
  lemma {:induction false} DataBitsAt(data: seq<Byte>, j: nat, k: nat)
    requires j < |data| && k < 8
    ensures DataBits(data)[8 * j + k] <==> data[j] / Scale(1, 7 - k) % 2 == 1
  {
    hide BitsOf, Scale;
    var n := |data| - 1;
    BitsOfAt(data[n], 8, k);
    if j < n {
      DataBitsAt(data[..n], j, k);
    }
  }

  // Bytes that hold bits are as few as do, and have ones behind them.
  lemma HeldWithOnes(data: seq<Byte>, bits: Bits)
    requires Holds(data, bits)
    ensures |bits| <= 8 * |data| < |bits| + 8 && DataBits(data)[..|bits|] == bits
    ensures forall i :: |bits| <= i < 8 * |data| ==> DataBits(data)[i]
  {
  }

  // ----- Values -----

  // Tables F.1 and F.2: category n has the values of 2^(n-1) up to 2^n - 1, and their negatives.
  predicate InCategory(v: int, n: nat) {
    if n == 0 then v == 0 else Scale(1, n - 1) <= Abs(v) < Scale(1, n)
  }

  lemma CategoryIs(v: int, n: nat)
    ensures InCategory(v, n) <==> n == NBits(Abs(v))
  {
    var m := NBits(Abs(v));
    if InCategory(v, n) && n != m {
      if n < m {
        ScaleGrows(n, m - 1);
      } else {
        ScaleGrows(m, n - 1);
      }
    }
  }

  lemma {:induction false} ScaleGrows(m: nat, n: nat)
    requires m <= n
    ensures Scale(1, m) <= Scale(1, n)
  {
    if m < n {
      ScaleGrows(m, n - 1);
    }
  }

  // Section F.1.2.1: the low n bits of the value or, if it is negative, of the value less one
  function ValueBits(v: int, n: nat): (x: nat)
    ensures x < Scale(1, n)
  {
    (if v < 0 then v - 1 else v) % Scale(1, n)
  }

  lemma ValueBitsAre(v: int, n: nat)
    requires InCategory(v, n)
    ensures Extra(v) == ValueBits(v, n)
  {
    CategoryIs(v, n);
    hide Scale, NBits;
    Remainder(if v < 0 then v - 1 else v, Scale(1, n));
  }

  lemma Remainder(x: int, d: int)
    requires -d <= x < d && 0 < d
    ensures x % d == if x < 0 then x + d else x
  {
    if x < 0 {
      DivMod(d, -1, x + d);
    } else {
      DivMod(d, 0, x);
    }
  }

  // Figure F.12: the smallest value of the category for the bits 0...0, and the smallest positive one for
  // 10...0; from there on they count up.
  lemma ExtendCounts(x: nat, s: nat)
    requires s > 0 && x < Scale(1, s)
    ensures Extend(0, s) == 1 - Scale(1, s) && Extend(Scale(1, s - 1), s) == Scale(1, s - 1)
    ensures x + 1 < Scale(1, s) && x + 1 != Scale(1, s - 1) ==> Extend(x + 1, s) == Extend(x, s) + 1
  {
  }

  // The statistics pass accepts AC values of less than 2^10, and DC differences of less than 2^11.
  lemma AcceptableExactly(s: Scan, block: Block, last: Coef)
    requires |s.order| == DCTSIZE2
    ensures Acceptable(s, block, last) <==>
              Abs(block[0] - last) < 2048 && forall k :: 1 <= k < DCTSIZE2 ==> Abs(AtZigzag(s, block, k)) < 1024
  {
    hide NBits, AtZigzag;
    BitsBelow(Abs(block[0] - last), 11);
    forall k | 1 <= k < DCTSIZE2
      ensures NBits(Abs(AtZigzag(s, block, k))) <= 10 <==> Abs(AtZigzag(s, block, k)) < 1024
    {
      BitsBelow(Abs(AtZigzag(s, block, k)), 10);
    }
    PowersOfTen();
  }

  lemma BitsBelow(a: nat, n: nat)
    ensures NBits(a) <= n <==> a < Scale(1, n)
  {
    if a < Scale(1, n) {
      NBitsBound(a, n);
    } else if NBits(a) <= n {
      ScaleGrows(NBits(a), n);
    }
    PowersOfTen();
  }

  lemma PowersOfTen()
    ensures Scale(1, 10) == 1024 && Scale(1, 11) == 2048
  {
    ScaleValues(1);
    assert Scale(1, 11) == 2 * Scale(1, 10);
  }

  // ----- Code words -----

  // Figure C.2: the first code word consists of zeros, and each is the one before plus one, with zeros
  // behind it if it is longer.
  lemma CodesCount(bits: seq<nat>, p: nat)
    requires |bits| == 17 && p < Words(bits, 17)
    ensures p == 0 ==> CodeOf(bits, p) == 0
    ensures p > 0 ==>
              && SizeOf(bits, p - 1) <= SizeOf(bits, p)
              && CodeOf(bits, p) == Scale(CodeOf(bits, p - 1) + 1, SizeOf(bits, p) - SizeOf(bits, p - 1))
  {
    hide Sizes, Space, Words, Scale;
    WordsBefore(bits, p, 17);
    var m := SizeOf(bits, p);
    if p == 0 {
      NoSpaceBefore(bits, m, m);
    } else {
      WordsBefore(bits, p - 1, 17);
      var l := SizeOf(bits, p - 1);
      if m < l {
        WordsGrow(bits, m + 1, l);
      } else if l < m {
        WordsGrow(bits, l + 1, m);
        SpaceEnd(bits, l);
        NothingBetween(bits, l, m);
      } else {
        Unscaled(CodeOf(bits, p - 1) + 1);
      }
    }
  }

  // An entry of the lookahead table has the length of the code word above its low eight bits, and the symbol
  // in these; for longer code words the length is greater than the lookahead.
  lemma EntryFields(h: HuffTable, p: nat)
    requires TableShape(h) && p < Words(h.bits, 17) <= SYMBOLS
    ensures Entry(h, p) % 0x100 == h.huffval[p] && Entry(h, p) / 0x100 == SizeOf(h.bits, p)
    ensures TOO_LONG / 0x100 == 8 + 1
  {
    hide Words, SizeOf;
  }

  lemma {:induction false} NoSpaceBefore(bits: seq<nat>, m: nat, n: nat)
    requires n <= |bits| && Words(bits, n) == 0
    ensures Space(bits, m, n) == 0
  {
    if n > 1 {
      NoSpaceBefore(bits, m, n - 1);
      assert Scale(0, if n - 1 <= m then m - (n - 1) else 0) == 0;
    }
  }

  // There are no words of the lengths between l and m.
  lemma {:induction false} NothingBetween(bits: seq<nat>, l: nat, m: nat)
    requires 1 <= l < m < |bits| && Words(bits, m) == Words(bits, l + 1)
    ensures Space(bits, m, m) == Scale(Space(bits, l, l + 1), m - l)
    decreases m
  {
    SpaceHalf(bits, m, m);
    if l + 1 < m {
      WordsGrow(bits, l + 1, m - 1);
      NothingBetween(bits, l, m - 1);
      SpaceEnd(bits, m - 1);
    }
  }

  // ----- Blocks -----

  // So many code words for a run of sixteen zeros
  function Sixteens(t: EncoderTable, n: nat, tail: Bits): Bits
    requires EncoderShape(t)
  {
    if n == 0 then tail else Symbol(t, 0xF0, Sixteens(t, n - 1, tail))
  }

  // Positions k to j - 1 are zero, and j is not.
  predicate ZeroRun(s: Scan, block: Block, k: nat, j: nat)
    requires |s.order| == DCTSIZE2
  {
    1 <= k <= j < DCTSIZE2 && AtZigzag(s, block, j) != 0 && forall i :: k <= i < j ==> AtZigzag(s, block, i) == 0
  }

  // Section F.1.2.2: a coefficient behind so many zeros has a code word for each sixteen of them, one for
  // the rest of the run (high digit) and its category (low digit), and its value bits.
  lemma AcNext(s: Scan, t: EncoderTable, block: Block, k: nat, j: nat, n: nat, tail: Bits)
    requires EncoderShape(t) && |s.order| == DCTSIZE2 && AcInRange(s, block) && ZeroRun(s, block, k, j)
    requires InCategory(AtZigzag(s, block, j), n)
    ensures n <= 15
    ensures AcBits(s, t, block, k, 0, tail)
            == Sixteens(t, (j - k) / 16,
                 Symbol(t, 0x10 * ((j - k) % 16) + n,
                   BitsOf(ValueBits(AtZigzag(s, block, j), n), n) + AcBits(s, t, block, j + 1, 0, tail)))
  {
    hide AtZigzag, BitsOf, NBits, Extra, Symbol, ValueBits, InCategory, Sixteens;
    AcValueBits(s, block, j);
    CategoryIs(AtZigzag(s, block, j), n);
    ValueBitsAre(AtZigzag(s, block, j), n);
    AcZeros(s, t, block, k, j, 0, tail);
    SixteensFirst(s, t, block, j, j - k, tail);
  }

  lemma {:induction false} SixteensFirst(s: Scan, t: EncoderTable, block: Block, j: nat, r: nat, tail: Bits)
    requires EncoderShape(t) && |s.order| == DCTSIZE2 && AcInRange(s, block) && 1 <= j < DCTSIZE2 && AtZigzag(s, block, j) != 0
    ensures InRange(AtZigzag(s, block, j))
    ensures AcBits(s, t, block, j, r, tail)
            == Sixteens(t, r / 16,
                 Symbol(t, RunSize(r % 16, AtZigzag(s, block, j)),
                   BitsOf(Extra(AtZigzag(s, block, j)), NBits(Abs(AtZigzag(s, block, j)))) + AcBits(s, t, block, j + 1, 0, tail)))
    decreases r
  {
    hide AtZigzag, BitsOf, NBits, Extra, Symbol;
    if r > 15 {
      SixteensFirst(s, t, block, j, r - 16, tail);
      assert r / 16 == 1 + (r - 16) / 16 && r % 16 == (r - 16) % 16;
    }
  }

  // Behind the last coefficient, the code word for the end of the block unless it is the last of all
  lemma AcEnd(s: Scan, t: EncoderTable, block: Block, k: nat, tail: Bits)
    requires EncoderShape(t) && |s.order| == DCTSIZE2 && AcInRange(s, block) && 1 <= k <= DCTSIZE2
    requires forall i :: k <= i < DCTSIZE2 ==> AtZigzag(s, block, i) == 0
    ensures AcBits(s, t, block, k, 0, tail) == if k < DCTSIZE2 then Symbol(t, 0x00, tail) else tail
  {
    hide AtZigzag, Symbol;
    AcZeros(s, t, block, k, DCTSIZE2, 0, tail);
  }

  // Section F.1.2.1: the category of the difference, and its value bits
  lemma DcFigure(t: EncoderTable, diff: int, n: nat, tail: Bits)
    requires EncoderShape(t) && InRange(diff) && InCategory(diff, n)
    ensures n <= 15 && DcBits(t, diff, tail) == Symbol(t, n, BitsOf(ValueBits(diff, n), n) + tail)
  {
    hide BitsOf, NBits, Extra, Symbol, ValueBits, InCategory;
    RangeBits(diff);
    CategoryIs(diff, n);
    ValueBitsAre(diff, n);
  }

  // ----- Restart intervals and predictions -----

  // The state with which block i is coded, apart from a restart that is due
  function StateAt(s: Scan, comps: seq<nat>, blocks: seq<Block>, nc: nat, i: nat): (d: DcState)
    requires i <= |comps| == |blocks|
    ensures |d.last| == nc
  {
    if i == 0 then StartState(s, nc) else Following(s, StateAt(s, comps, blocks, nc, i - 1), comps[i - 1], blocks[i - 1])
  }

  // The first block of the restart interval that block i is in, when an interval has n blocks, or 0
  // without restarts
  function IntervalStart(i: nat, n: nat): nat {
    if n == 0 then 0 else i - i % n
  }

  // Blocks in an interval: so many MCUs
  function IntervalBlocks(s: Scan): nat {
    |s.membership| * s.restartInterval
  }

  lemma {:induction false} BlocksProduct(n: nat, m: nat)
    ensures BlocksIn(n, m) == n * m
  {
    if m > 0 {
      BlocksProduct(n, m - 1);
      Distribute(n, m - 1, 1);
    }
  }

  // Restarts are due behind each interval, and only there.
  lemma {:induction false} DueAt(s: Scan, comps: seq<nat>, blocks: seq<Block>, nc: nat, i: nat)
    requires i <= |comps| == |blocks| && 0 < |s.membership| && 0 < s.restartInterval
    ensures 0 < IntervalBlocks(s)
    ensures StateAt(s, comps, blocks, nc, i).togo
            == if i > 0 && i % IntervalBlocks(s) == 0 then 0 else IntervalBlocks(s) - i % IntervalBlocks(s)
  {
    hide IntervalBlocks;
    IntervalSize(s);
    var n := IntervalBlocks(s);
    if i == 0 {
      DivMod(n, 0, 0);
    } else {
      DueAt(s, comps, blocks, nc, i - 1);
      NextModulo(i - 1, n);
    }
  }

  lemma IntervalSize(s: Scan)
    requires 0 < |s.membership| && 0 < s.restartInterval
    ensures BlocksIn(|s.membership|, s.restartInterval) == IntervalBlocks(s) > 0
  {
    BlocksProduct(|s.membership|, s.restartInterval);
    ProductMonotonic(1, |s.membership|, s.restartInterval);
  }

  lemma NextModulo(i: nat, n: nat)
    requires 0 < n
    ensures (i + 1) % n == if i % n == n - 1 then 0 else i % n + 1
  {
    assert i == n * (i / n) + i % n;
    if i % n == n - 1 {
      Distribute(n, i / n, 1);
      DivMod(n, i / n + 1, 0);
    } else {
      DivMod(n, i / n, i % n + 1);
    }
  }

  // Block j is the last one of component c before block i.
  predicate Latest(comps: seq<nat>, c: nat, j: nat, i: nat) {
    j < i <= |comps| && comps[j] == c && forall k :: j < k < i ==> comps[k] != c
  }

  // The prediction is the DC value of the last block of the component in the same interval, and 0 if there
  // is none.
  predicate Predicts(s: Scan, comps: seq<nat>, blocks: seq<Block>, nc: nat, i: nat, c: nat)
    requires i <= |comps| == |blocks| && c < nc
  {
    var p, start := Current(s, StateAt(s, comps, blocks, nc, i)).last[c], IntervalStart(i, IntervalBlocks(s));
    && (forall j :: start <= j < i && Latest(comps, c, j, i) ==> p == blocks[j][0])
    && ((forall j :: start <= j < i ==> comps[j] != c) ==> p == 0)
  }

  lemma {:induction false} PredictionIsLatest(s: Scan, comps: seq<nat>, blocks: seq<Block>, nc: nat, i: nat, c: nat)
    requires i <= |comps| == |blocks| && 0 < |s.membership| && c < nc
    ensures Predicts(s, comps, blocks, nc, i, c)
  {
    hide IntervalBlocks;
    if i > 0 {
      PredictionIsLatest(s, comps, blocks, nc, i - 1, c);
    }
    IntervalAt(s, comps, blocks, nc, i);
    hide IntervalStart;
  }

  // Without a restart due, the interval goes on.
  lemma IntervalAt(s: Scan, comps: seq<nat>, blocks: seq<Block>, nc: nat, i: nat)
    requires i <= |comps| == |blocks| && 0 < |s.membership|
    ensures var start := IntervalStart(i, IntervalBlocks(s));
            if i == 0 || Due(s, StateAt(s, comps, blocks, nc, i)) then start == i
            else start == IntervalStart(i - 1, IntervalBlocks(s)) <= i - 1
  {
    var n := IntervalBlocks(s);
    if s.restartInterval > 0 {
      DueAt(s, comps, blocks, nc, i);
      hide StateAt, IntervalBlocks;
      if i > 0 {
        NextModulo(i - 1, n);
      }
    } else {
      hide StateAt;
      assert n == 0;
    }
  }

  // This is the prediction with which the scan has block i, behind a new segment if a restart is due.
  lemma {:induction false} BlockInScan(s: Scan, tables: seq<Tables>, comps: seq<nat>, blocks: seq<Block>, i: nat)
    requires Coded(s, tables, comps, blocks, 0, StartState(s, |tables|)) && i < |blocks|
    ensures |comps| == |blocks| && comps[i] < |tables|
    ensures var d, t := StateAt(s, comps, blocks, |tables|, i), tables[comps[i]];
            && Coded(s, tables, comps, blocks, i, d)
            && BlockCoded(s, t.dcEncoder, t.acEncoder, blocks[i], Current(s, d).last[comps[i]])
            && Coded(s, tables, comps, blocks, i + 1, StateAt(s, comps, blocks, |tables|, i + 1))
            && var rest := ScanBits(s, tables, comps, blocks, i + 1, StateAt(s, comps, blocks, |tables|, i + 1));
               ScanBits(s, tables, comps, blocks, i, d)
               == (if Due(s, d) then [[]] else [])
                  + [BlockBits(s, t.dcEncoder, t.acEncoder, blocks[i], Current(s, d).last[comps[i]], rest[0])] + rest[1..]
  {
    hide BlockCoded, BlockBits, StartState, Following, Due, Current;
    if i > 0 {
      BlockInScan(s, tables, comps, blocks, i - 1);
    }
  }
}
