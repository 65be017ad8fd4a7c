// A scan of ordinary blocks for which the tables that the statistics call for give the end of a block a
// code of 11 bits, and the flush of a word of 64 bits loses a bit.
module HuffmanDamage {
  import opened Arithmetic
  import opened BitFields
  import opened BitStrings
  import opened ArithInterval
  import opened ArithScan
  import opened PointTransform
  import opened HuffmanMerge
  import opened HuffmanForest
  import opened HuffmanLimit
  import opened HuffmanGen
  import opened HuffmanTables
  import opened HuffmanWriter
  import opened HuffmanBlock
  import opened HuffmanSegments
  import opened HuffmanStatistics
  import opened HuffmanOptimize
  import opened HuffmanMcu
  import opened HuffmanRoundTrip
  import opened HuffmanStairs
  import HuffmanFlush
  import HuffmanScript

  // ----- The blocks -----

  // All AC coefficients have y bits.
  predicate Full(s: Scan, block: Block, y: nat)
    requires |s.order| == DCTSIZE2 && 1 <= y <= 10
  {
    block[0] == 0 && forall k :: 1 <= k < DCTSIZE2 ==> AtZigzag(s, block, k) == Scale(1, y - 1)
  }

  // 61 of one bit, one of 10, and a zero at the end
  predicate Final(s: Scan, block: Block)
    requires |s.order| == DCTSIZE2
  {
    && block[0] == 0 && AtZigzag(s, block, 62) == Scale(1, 9) && AtZigzag(s, block, 63) == 0
    && forall k :: 1 <= k < 62 ==> AtZigzag(s, block, k) == 1
  }

  lemma {:induction false} PowerSize(n: nat)
    ensures NBits(Scale(1, n)) == n + 1
  {
    if n > 0 {
      PowerSize(n - 1);
      assert Scale(1, n) == 2 * Scale(1, n - 1);
    }
  }

  // Powers of two of up to 10 bits
  lemma PowerBits(y: nat)
    requires 1 <= y <= 10
    ensures 0 < Scale(1, y - 1) < 1024 && InRange(Scale(1, y - 1)) && NBits(Scale(1, y - 1)) == y && Abs(Scale(1, y - 1)) == Scale(1, y - 1)
    ensures RunSize(0, Scale(1, y - 1)) == y
  {
    hide RunSize, NBits, Scale;
    PowerSize(y - 1);
    ScaleValues(1);
    Positive(y - 1);
    HuffmanStairs.Longer(y - 1, 9);
    Twice(9);
    Twice(10);
    assert RunSize(0, Scale(1, y - 1)) / 16 == 0 && RunSize(0, Scale(1, y - 1)) % 16 == y;
  }

  // n blocks of this size
  ghost predicate AllFull(s: Scan, blocks: seq<Block>, i: nat, n: nat, y: nat)
    requires |s.order| == DCTSIZE2 && 1 <= y <= 10
  {
    i + n < |blocks| && forall x :: i <= x < i + n ==> Full(s, blocks[x], y)
  }

  // As many blocks of each size as make each size outweigh all that are larger, and the final block
  ghost predicate Crowd(s: Scan, blocks: seq<Block>, i: nat, y: nat)
    requires |s.order| == DCTSIZE2 && 1 <= y <= 11
    decreases 11 - y
  {
    if y == 11 then i + 1 == |blocks| && Final(s, blocks[i])
    else AllFull(s, blocks, i, Scale(1, 10 - y), y) && Crowd(s, blocks, i + Scale(1, 10 - y), y + 1)
  }

  lemma CrowdParts(s: Scan, blocks: seq<Block>, i: nat, y: nat)
    requires |s.order| == DCTSIZE2 && 1 <= y <= 11
    ensures y == 11 ==> (Crowd(s, blocks, i, y) <==> i + 1 == |blocks| && Final(s, blocks[i]))
    ensures y < 11 ==> (Crowd(s, blocks, i, y)
              <==> AllFull(s, blocks, i, Scale(1, 10 - y), y) && Crowd(s, blocks, i + Scale(1, 10 - y), y + 1))
  {
    hide AllFull, Final, Scale;
  }

  // ----- Their symbols -----

  function Repeat(n: nat, x: UInt8): (list: seq<UInt8>)
    ensures |list| == n
  {
    seq(n, _ => x)
  }

  lemma {:induction false} FullSymbols(s: Scan, block: Block, y: nat, k: nat)
    requires |s.order| == DCTSIZE2 && 1 <= y <= 10 && Full(s, block, y) && AcInRange(s, block) && 1 <= k <= DCTSIZE2
    ensures AcSymbols(s, block, k, 0) == Repeat(DCTSIZE2 - k, y)
    decreases DCTSIZE2 - k
  {
    hide AtZigzag, NBits, RunSize, AcInRange;
    PowerBits(y);
    if k < DCTSIZE2 {
      FullSymbols(s, block, y, k + 1);
      assert [y] + Repeat(DCTSIZE2 - (k + 1), y) == Repeat(DCTSIZE2 - k, y);
    }
  }

  lemma {:induction false} FinalSymbols(s: Scan, block: Block, k: nat)
    requires |s.order| == DCTSIZE2 && Final(s, block) && AcInRange(s, block) && 1 <= k <= 62
    ensures AcSymbols(s, block, k, 0) == Repeat(62 - k, 1) + [10, 0]
    decreases DCTSIZE2 - k
  {
    hide AtZigzag, NBits, RunSize, AcInRange;
    PowerBits(1);
    PowerBits(10);
    if k < 62 {
      FinalSymbols(s, block, k + 1);
      assert [1] + (Repeat(62 - (k + 1), 1) + [10, 0]) == Repeat(62 - k, 1) + [10, 0];
    } else {
      assert AcSymbols(s, block, 64, 1) == [0];
      assert AcSymbols(s, block, 63, 0) == [0];
      assert AcSymbols(s, block, 62, 0) == [10] + [0];
      assert Repeat(0, 1) == [];
    }
  }

  // n more of symbol x
  function More(counts: seq<nat>, x: nat, n: nat): (more: seq<nat>)
    requires x < |counts|
    ensures |more| == |counts|
  {
    counts[x := counts[x] + n]
  }

  lemma TallyMore(counts: seq<nat>, x: UInt8)
    requires |counts| == SYMBOLS + 1
    ensures Tally(counts, [x]) == More(counts, x, 1)
  {
    hide Tally;
    TallyOne(counts, x, []);
  }

  lemma MoreTwice(counts: seq<nat>, x: nat, m: nat, n: nat)
    requires x < |counts|
    ensures More(More(counts, x, m), x, n) == More(counts, x, m + n)
  {
  }

  lemma {:induction false} TallyRepeat(counts: seq<nat>, n: nat, x: UInt8)
    requires |counts| == SYMBOLS + 1
    ensures Tally(counts, Repeat(n, x)) == More(counts, x, n)
    decreases n
  {
    if n == 0 {
      assert Repeat(0, x) == [];
    } else {
      hide More;
      assert Repeat(n, x) == [x] + Repeat(n - 1, x);
      TallyRepeat(More(counts, x, 1), n - 1, x);
      MoreTwice(counts, x, 1, n - 1);
      hide Tally;
      TallyMore(counts, x);
      TallyConcat(counts, [x], Repeat(n - 1, x));
    }
  }

  // ----- Statistics of one component whose DC values are all zero -----

  ghost predicate Single(s: Scan, comps: seq<nat>, blocks: seq<Block>) {
    && BlocksOk(s, comps, blocks) && |s.comps| == 1 && s.membership == [0] && s.restartInterval == 1
    && forall x :: 0 <= x < |blocks| ==> blocks[x][0] == 0
  }

  // The predictions are zero.
  predicate Zero(d: DcState) {
    |d.last| == 1 && d.last[0] == 0
  }

  // The symbols of the blocks from i on
  ghost predicate Listable(s: Scan, comps: seq<nat>, blocks: seq<Block>, i: nat, d: DcState) {
    Single(s, comps, blocks) && Zero(d) && i <= |blocks| && AllAcceptable(s, comps, blocks, i, d)
  }

  ghost function Acs(s: Scan, comps: seq<nat>, blocks: seq<Block>, i: nat, d: DcState): seq<UInt8>
    requires Listable(s, comps, blocks, i, d)
  {
    AcList(s, comps, blocks, s.comps[0].acTbl, i, d)
  }

  ghost function Dcs(s: Scan, comps: seq<nat>, blocks: seq<Block>, i: nat, d: DcState): seq<UInt8>
    requires Listable(s, comps, blocks, i, d)
  {
    DcList(s, comps, blocks, s.comps[0].dcTbl, i, d)
  }

  // A block's symbols come first.
  lemma NextSymbols(s: Scan, comps: seq<nat>, blocks: seq<Block>, i: nat, d: DcState)
    returns (next: DcState)
    requires Listable(s, comps, blocks, i, d) && i < |blocks|
    ensures |s.order| == DCTSIZE2 && AcInRange(s, blocks[i]) && Listable(s, comps, blocks, i + 1, next)
    ensures Acs(s, comps, blocks, i, d) == AcSymbols(s, blocks[i], 1, 0) + Acs(s, comps, blocks, i + 1, next)
    ensures Dcs(s, comps, blocks, i, d) == [0] + Dcs(s, comps, blocks, i + 1, next)
  {
    hide ScanOk, AcSymbols, Acceptable, AcInRange;
    assert comps[i] == 0;
    AcceptableInRange(s, blocks[i], Current(s, d).last[0]);
    next := Following(s, d, 0, blocks[i]);
    assert Current(s, d).last[0] == 0;
    NoDifference(blocks[i], 0);
  }

  lemma NoDifference(block: Block, last: Coef)
    requires block[0] == last
    ensures DcSymbol(block, last) == 0
  {
  }

  lemma {:induction false} GroupSymbols(s: Scan, comps: seq<nat>, blocks: seq<Block>, i: nat, n: nat, y: nat, d: DcState)
    returns (next: DcState)
    requires |s.order| == DCTSIZE2 && Listable(s, comps, blocks, i, d) && 1 <= y <= 10 && AllFull(s, blocks, i, n, y)
    ensures Listable(s, comps, blocks, i + n, next)
    ensures Acs(s, comps, blocks, i, d) == Repeat(63 * n, y) + Acs(s, comps, blocks, i + n, next)
    ensures Dcs(s, comps, blocks, i, d) == Repeat(n, 0) + Dcs(s, comps, blocks, i + n, next)
    decreases n
  {
    hide AcSymbols, AcInRange, Acs, Dcs, Listable, Full;
    next := d;
    if n == 0 {
      assert Repeat(0, y) == [] && Repeat(0, 0) == [];
    } else {
      var first := NextSymbols(s, comps, blocks, i, d);
      FullSymbols(s, blocks[i], y, 1);
      next := GroupSymbols(s, comps, blocks, i + 1, n - 1, y, first);
      var ac, dc := Acs(s, comps, blocks, i + n, next), Dcs(s, comps, blocks, i + n, next);
      assert Repeat(63, y) + (Repeat(63 * (n - 1), y) + ac) == Repeat(63 * n, y) + ac;
      assert [0] + (Repeat(n - 1, 0) + dc) == Repeat(n, 0) + dc;
    }
  }

  // What the blocks from size y on are counted as
  function Counted(counts: seq<nat>, y: nat): (counted: seq<nat>)
    requires |counts| == SYMBOLS + 1 && 1 <= y <= 11
    ensures |counted| == SYMBOLS + 1
    decreases 11 - y
  {
    if y == 11 then More(More(More(counts, 1, 61), 10, 1), 0, 1)
    else Counted(More(counts, y, 63 * Scale(1, 10 - y)), y + 1)
  }

  lemma {:induction false} CrowdCounts(s: Scan, comps: seq<nat>, blocks: seq<Block>, i: nat, y: nat, d: DcState, ac: seq<nat>, dc: seq<nat>)
    requires |s.order| == DCTSIZE2 && Listable(s, comps, blocks, i, d) && 1 <= y <= 11
    requires Crowd(s, blocks, i, y) && |ac| == |dc| == SYMBOLS + 1
    ensures i <= |blocks| && Tally(ac, Acs(s, comps, blocks, i, d)) == Counted(ac, y)
    ensures Tally(dc, Dcs(s, comps, blocks, i, d)) == More(dc, 0, |blocks| - i)
    decreases 11 - y
  {
    hide Listable, Acs, Dcs, Full, Final, Tally, Scale, NoCounts, More, Crowd, Counted, Repeat;
    CrowdParts(s, blocks, i, y);
    if y == 11 {
      FinalCounts(s, comps, blocks, i, d, ac, dc);
    } else {
      CountedParts(ac, y);
      var n: nat := Scale(1, 10 - y);
      var next := GroupSymbols(s, comps, blocks, i, n, y, d);
      GroupTally(ac, 63 * n, y, Acs(s, comps, blocks, i + n, next));
      GroupTally(dc, n, 0, Dcs(s, comps, blocks, i + n, next));
      MoreTwice(dc, 0, n, |blocks| - (i + n));
      CrowdCounts(s, comps, blocks, i + n, y + 1, next, More(ac, y, 63 * n), More(dc, 0, n));
    }
  }

  lemma CountedParts(counts: seq<nat>, y: nat)
    requires |counts| == SYMBOLS + 1 && 1 <= y < 11
    ensures Counted(counts, y) == Counted(More(counts, y, 63 * Scale(1, 10 - y)), y + 1)
  {
    hide Scale, More;
  }

  lemma GroupTally(counts: seq<nat>, n: nat, x: UInt8, rest: seq<UInt8>)
    requires |counts| == SYMBOLS + 1
    ensures Tally(counts, Repeat(n, x) + rest) == Tally(More(counts, x, n), rest)
  {
    hide Tally, Repeat, More;
    TallyConcat(counts, Repeat(n, x), rest);
    TallyRepeat(counts, n, x);
  }

  lemma FinalCounts(s: Scan, comps: seq<nat>, blocks: seq<Block>, i: nat, d: DcState, ac: seq<nat>, dc: seq<nat>)
    requires |s.order| == DCTSIZE2 && Listable(s, comps, blocks, i, d) && i + 1 == |blocks|
    requires Final(s, blocks[i]) && |ac| == |dc| == SYMBOLS + 1
    ensures Tally(ac, Acs(s, comps, blocks, i, d)) == Counted(ac, 11)
    ensures Tally(dc, Dcs(s, comps, blocks, i, d)) == More(dc, 0, 1)
  {
    hide AcSymbols, AcInRange, Final, Tally, Repeat, NoCounts, More, Counted, Listable, Acs, Dcs;
    var next := NextSymbols(s, comps, blocks, i, d);
    FinalSymbols(s, blocks[i], 1);
    NoSymbols(s, comps, blocks, next);
    var list := Repeat(61, 1) + [10, 0];
    assert list + [] == list && [0] + [] == [0];
    FinalTally(ac);
    TallyMore(dc, 0);
  }

  lemma NoSymbols(s: Scan, comps: seq<nat>, blocks: seq<Block>, d: DcState)
    requires Listable(s, comps, blocks, |blocks|, d)
    ensures Acs(s, comps, blocks, |blocks|, d) == [] && Dcs(s, comps, blocks, |blocks|, d) == []
  {
  }

  lemma FinalTally(ac: seq<nat>)
    requires |ac| == SYMBOLS + 1
    ensures Tally(ac, Repeat(61, 1) + [10, 0]) == Counted(ac, 11)
  {
    hide Tally, Repeat, NoCounts, More;
    TallyConcat(ac, Repeat(61, 1), [10, 0]);
    TallyRepeat(ac, 61, 1);
    TallyTwo(More(ac, 1, 61), 10, 0);
  }

  lemma TallyTwo(counts: seq<nat>, x: UInt8, y: UInt8)
    requires |counts| == SYMBOLS + 1
    ensures Tally(counts, [x, y]) == More(More(counts, x, 1), y, 1)
  {
    hide Tally, More;
    assert [x] + [y] == [x, y];
    TallyConcat(counts, [x], [y]);
    TallyMore(counts, x);
    TallyMore(More(counts, x, 1), y);
  }

  // ----- The code lengths -----

  // How often a symbol occurs
  function Times(x: nat): nat {
    if x == 0 then 1 else if x == 1 then 63 * Scale(1, 9) + 61 else if x == 10 then 64 else if x < 10 then 63 * Scale(1, 10 - x) else 0
  }

  lemma {:induction false} CountedIs(counts: seq<nat>, y: nat, x: nat)
    requires |counts| == SYMBOLS + 1 && 1 <= y <= 11 && x <= SYMBOLS
    ensures Counted(counts, y)[x] == counts[x] + (if y <= x <= 10 then 63 * Scale(1, 10 - x) else 0)
                                     + if x == 0 || x == 10 then 1 else if x == 1 then 61 else 0
    decreases 11 - y
  {
    hide Scale;
    if y < 11 {
      CountedIs(More(counts, y, 63 * Scale(1, 10 - y)), y + 1, x);
    }
  }

  // Behind symbol x there are fewer than of it.
  lemma {:induction false} LighterIs(freq: seq<nat>, x: nat, n: nat)
    requires |freq| == SYMBOLS + 1 && 1 <= x <= 10 && n <= SYMBOLS + 1 && freq[SYMBOLS] == 1
    requires forall i :: 0 <= i < SYMBOLS ==> freq[i] == Times(i)
    ensures x < n <= 11 ==> Lighter(freq, x, n) + 63 * Scale(1, 11 - n) == 1 + 63 * Scale(1, 10 - x) + if n == 11 && x < 10 then 1 else 0
    ensures 0 < n <= x ==> Lighter(freq, x, n) == 1
    ensures 11 <= n ==> Lighter(freq, x, n) <= 63 * Scale(1, 10 - x) - 61 + if n == SYMBOLS + 1 then 1 else 0
  {
    if n > 0 {
      LighterIs(freq, x, n - 1);
      if x + 1 < n <= 11 {
        Twice(11 - n);
      }
    }
  }

  lemma CrowdStairs(counts: seq<nat>)
    requires |counts| == SYMBOLS + 1 && forall i :: 0 <= i < SYMBOLS ==> counts[i] == Times(i)
    ensures Stairs(WithPseudo(counts), 10)
  {
    hide Lighter, Scale;
    var freq := WithPseudo(counts);
    forall x | 1 <= x <= 10
      ensures freq[x] > Lighter(freq, x, SYMBOLS + 1)
    {
      LighterIs(freq, x, SYMBOLS + 1);
      OneIs();
    }
  }

  lemma OneIs()
    ensures Scale(1, 0) == 1
  {
  }

  // All optimal lengths fit, so they are those of the table.
  lemma TableLengths(e: EncoderTable, counts: seq<nat>, k: nat, len: seq<nat>)
    requires EncoderShape(e) && |counts| == SYMBOLS + 1 && BestLengths(e, counts, len) && Stairs(WithPseudo(counts), k) && k <= 15
    ensures e.ehufsi[0] == k + 1 && forall x :: 1 <= x <= k ==> e.ehufsi[x] == x
  {
    hide Kraft, Cost, Scale, Total, Lighter;
    StairLengths(WithPseudo(counts), len, k);
    forall x | 0 <= x <= SYMBOLS
      ensures len[x] <= 16
    {
    }
  }

  // ----- The flush behind the final block -----

  ghost predicate SizesAre(t: Tables) {
    && EncoderShape(t.dcEncoder) && EncoderShape(t.acEncoder) && t.dcEncoder.ehufsi[0] == 1
    && t.acEncoder.ehufsi[0] == 11 && t.acEncoder.ehufsi[1] == 1 && t.acEncoder.ehufsi[10] == 10
  }

  // A coefficient that is not zero, and the bits that are pending behind it
  lemma NextPending(s: Scan, e: EncoderTable, block: Block, k: nat, y: nat, p: nat)
    requires |s.order| == DCTSIZE2 && EncoderShape(e) && AcInRange(s, block) && 1 <= k < DCTSIZE2 && 1 <= y <= 10
    requires AtZigzag(s, block, k) == Scale(1, y - 1)
    ensures AcPending(true, s, e, block, k, 0, p) == AcPending(true, s, e, block, k + 1, 0, AfterCode(true, p, e.ehufsi[y], y))
    ensures |AcBits(s, e, block, k, 0, [])| == e.ehufsi[y] + y + |AcBits(s, e, block, k + 1, 0, [])|
    ensures AcBits(s, e, block, k, 0, [])
         == BitsOf(e.ehufco[y], e.ehufsi[y]) + (BitsOf(Extra(Scale(1, y - 1)), y) + AcBits(s, e, block, k + 1, 0, []))
  {
    hide AtZigzag, NBits, Extra, RunSize, BitsOf, Scale, AcInRange, AfterCode;
    PowerBits(y);
  }

  lemma FinalEnd(s: Scan, e: EncoderTable, block: Block)
    requires |s.order| == DCTSIZE2 && EncoderShape(e) && AcInRange(s, block) && Final(s, block)
    requires e.ehufsi[0] == 11 && e.ehufsi[10] == 10
    ensures |AcBits(s, e, block, 62, 0, [])| == 31 && AcPending(true, s, e, block, 62, 0, 27) == 58
  {
    hide AtZigzag, NBits, Extra, RunSize, BitsOf, Scale, AcInRange;
    NextPending(s, e, block, 62, 10, 27);
    assert AcPending(true, s, e, block, 64, 1, 47) == 58;
    assert AcPending(true, s, e, block, 63, 0, 47) == 58;
    assert |AcBits(s, e, block, 64, 1, [])| == 11;
    assert |AcBits(s, e, block, 63, 0, [])| == 11;
  }

  // The bits that are pending before coefficient k
  function PendingAt(k: nat): nat
    requires 1 <= k
  {
    if k == 1 then 1 else 2 * ((k - 2) % 16) + 3
  }

  lemma {:induction false} FinalOnes(s: Scan, e: EncoderTable, block: Block, k: nat)
    requires |s.order| == DCTSIZE2 && EncoderShape(e) && AcInRange(s, block) && Final(s, block) && 1 <= k <= 62
    requires e.ehufsi[0] == 11 && e.ehufsi[1] == 1 && e.ehufsi[10] == 10
    ensures |AcBits(s, e, block, k, 0, [])| == 2 * (62 - k) + 31
    ensures AcPending(true, s, e, block, k, 0, PendingAt(k)) == 58
    ensures k <= 48 ==> AcBits(s, e, block, k, 0, [])[2 * (48 - k) + 1]
    decreases 62 - k
  {
    hide AtZigzag, NBits, Extra, RunSize, BitsOf, AcInRange, AcBits, AcPending, PendingAt, AfterCode;
    if k == 62 {
      assert PendingAt(62) == 27 by {
        PendingEnd();
      }
      FinalEnd(s, e, block);
    } else {
      FinalOnes(s, e, block, k + 1);
      OneIs();
      OneBit();
      NextPending(s, e, block, k, 1, PendingAt(k));
      PendingNext(k);
    }
  }

  lemma PendingNext(k: nat)
    requires 1 <= k
    ensures AfterCode(true, PendingAt(k), 1, 1) == PendingAt(k + 1)
  {
  }

  lemma PendingEnd()
    ensures PendingAt(62) == 27
  {
  }

  lemma OneBit()
    ensures BitsOf(Extra(1), 1) == [true]
  {
    assert BitsOf(1, 1) == [true];
  }

  // The first of 58 pending bits does not fit, and it is a one.
  lemma FinalLoses(s: Scan, t: Tables, block: Block)
    requires BlockCoded(s, t.dcEncoder, t.acEncoder, block, 0) && Final(s, block) && SizesAre(t)
    ensures BlockPending(true, s, t.dcEncoder, t.acEncoder, block, 0, 0) == 58
    ensures !FlushOk(BlockBits(s, t.dcEncoder, t.acEncoder, block, 0, []), 58, 64)
  {
    hide AtZigzag, AcBits, AcCoded, AcPending, DcPending, DcBits, AcInRange, InRange, HasDcCode, BitsOf;
    FinalOnes(s, t.acEncoder, block, 1);
    HuffmanFlush.NoDifference(t.dcEncoder, block[0], AcBits(s, t.acEncoder, block, 1, 0, []), 0);
    var bits := BlockBits(s, t.dcEncoder, t.acEncoder, block, 0, []);
    assert |bits| == 154 && bits[96] == AcBits(s, t.acEncoder, block, 1, 0, [])[95];
  }

  // With a restart behind every block the final block is the last segment.
  lemma {:induction false} LastSegment(s: Scan, t: Tables, comps: seq<nat>, blocks: seq<Block>, i: nat, d: DcState, p: nat)
    requires Coded(s, [t], comps, blocks, i, d) && i < |blocks| && Due(s, d) && s.restartInterval == 1 && |s.membership| == 1
    ensures var block := blocks[|blocks| - 1];
            && BlockCoded(s, t.dcEncoder, t.acEncoder, block, 0)
            && EndsWith(ScanBits(s, [t], comps, blocks, i, d), BlockBits(s, t.dcEncoder, t.acEncoder, block, 0, []))
            && EndsWith(Pendings(true, s, [t], comps, blocks, i, d, p), BlockPending(true, s, t.dcEncoder, t.acEncoder, block, 0, 0))
    decreases |blocks| - i
  {
    hide BlockCoded, BlockBits, BlockPending;
    assert comps[i] == 0;
    assert BlocksIn(1, 0) == 0 && BlocksIn(1, 1) == 1;
    var next := Following(s, d, 0, blocks[i]);
    assert Current(s, d).last[0] == 0 && Due(s, next);
    var q := BlockPending(true, s, t.dcEncoder, t.acEncoder, blocks[i], 0, 0);
    if i + 1 < |blocks| {
      LastSegment(s, t, comps, blocks, i + 1, next, q);
    }
  }

  // The list has several entries, of which this is the last.
  predicate EndsWith<T(==)>(list: seq<T>, x: T) {
    2 <= |list| && list[|list| - 1] == x
  }

  // From its first block on
  lemma WholeEnds(s: Scan, t: Tables, comps: seq<nat>, blocks: seq<Block>)
    requires Coded(s, [t], comps, blocks, 0, StartState(s, 1)) && 2 <= |blocks| && s.restartInterval == 1 && |s.membership| == 1
    ensures var block, d := blocks[|blocks| - 1], StartState(s, 1);
            && BlockCoded(s, t.dcEncoder, t.acEncoder, block, 0)
            && EndsWith(ScanBits(s, [t], comps, blocks, 0, d), BlockBits(s, t.dcEncoder, t.acEncoder, block, 0, []))
            && EndsWith(Pendings(true, s, [t], comps, blocks, 0, d, 0), BlockPending(true, s, t.dcEncoder, t.acEncoder, block, 0, 0))
  {
    hide BlockCoded, BlockBits, BlockPending;
    var d := StartState(s, 1);
    assert comps[0] == 0;
    assert BlocksIn(1, 0) == 0 && BlocksIn(1, 1) == 1;
    var next := Following(s, d, 0, blocks[0]);
    assert !Due(s, d) && Due(s, next) && Coded(s, [t], comps, blocks, 1, next);
    LastSegment(s, t, comps, blocks, 1, next, BlockPending(true, s, t.dcEncoder, t.acEncoder, blocks[0], 0, 0));
  }

  lemma ScanLoses(s: Scan, t: Tables, comps: seq<nat>, blocks: seq<Block>)
    requires Coded(s, [t], comps, blocks, 0, StartState(s, 1)) && 2 <= |blocks| && s.restartInterval == 1 && |s.membership| == 1
    requires |s.order| == DCTSIZE2 && Final(s, blocks[|blocks| - 1]) && SizesAre(t)
    ensures !FlushesOk(true, s, [t], comps, blocks)
  {
    hide BlockCoded, BlockBits, BlockPending, Final, SizesAre, FlushOk, Coded, ScanBits, Pendings;
    var d := StartState(s, 1);
    WholeEnds(s, t, comps, blocks);
    FinalLoses(s, t, blocks[|blocks| - 1]);
    var parts, ends := ScanBits(s, [t], comps, blocks, 0, d), Pendings(true, s, [t], comps, blocks, 0, d, 0);
    assert !FlushOk(parts[|parts| - 1], ends[|parts| - 1], 64);
  }

  // ----- The scan -----

  // What the tables made for the scan are like
  lemma TablesAre(s: Scan, comps: seq<nat>, blocks: seq<Block>, t: Tables)
    requires Single(s, comps, blocks) && Crowd(s, blocks, 0, 1) && AllAcceptable(s, comps, blocks, 0, StartState(s, 1))
    requires Serve(t, DcList(s, comps, blocks, s.comps[0].dcTbl, 0, StartState(s, 1)),
               AcList(s, comps, blocks, s.comps[0].acTbl, 0, StartState(s, 1)))
    ensures SizesAre(t)
  {
    hide Crowd, AllAcceptable, DcList, AcList, Tally, Encodes, BestLengths, ScanOk, More, Counted, Times, Stairs;
    var d := StartState(s, 1);
    CrowdCounts(s, comps, blocks, 0, 1, d, NoCounts(), NoCounts());
    CrowdSome(s, blocks, 0, 1);
    var ac, dc := Counted(NoCounts(), 1), More(NoCounts(), 0, |blocks|);
    assert Acs(s, comps, blocks, 0, d) == AcList(s, comps, blocks, s.comps[0].acTbl, 0, d);
    assert Dcs(s, comps, blocks, 0, d) == DcList(s, comps, blocks, s.comps[0].dcTbl, 0, d);
    assert EncoderShape(t.dcEncoder) && EncoderShape(t.acEncoder);
    AcStairs(ac);
    DcStairs(dc, |blocks|);
    var acLen :| BestLengths(t.acEncoder, ac, acLen);
    TableLengths(t.acEncoder, ac, 10, acLen);
    var dcLen :| BestLengths(t.dcEncoder, dc, dcLen);
    TableLengths(t.dcEncoder, dc, 0, dcLen);
  }

  lemma AcStairs(ac: seq<nat>)
    requires ac == Counted(NoCounts(), 1)
    ensures Stairs(WithPseudo(ac), 10)
  {
    hide Scale, Counted, Stairs;
    forall x | 0 <= x < SYMBOLS
      ensures ac[x] == Times(x)
    {
      CountedIs(NoCounts(), 1, x);
      OneIs();
    }
    CrowdStairs(ac);
  }

  lemma DcStairs(dc: seq<nat>, n: nat)
    requires dc == More(NoCounts(), 0, n) && n > 0
    ensures Stairs(WithPseudo(dc), 0)
  {
  }

  lemma {:induction false} CrowdSome(s: Scan, blocks: seq<Block>, i: nat, y: nat)
    requires |s.order| == DCTSIZE2 && 1 <= y <= 11 && Crowd(s, blocks, i, y)
    ensures i < |blocks| && Final(s, blocks[|blocks| - 1]) && (y < 11 ==> i + 1 < |blocks|)
    decreases 11 - y
  {
    hide Full, Final, Crowd, Scale;
    CrowdParts(s, blocks, i, y);
    if y < 11 {
      Positive(10 - y);
      CrowdSome(s, blocks, i + Scale(1, 10 - y), y + 1);
    }
  }

  // Every coefficient is ordinary.
  lemma {:induction false} CrowdOrdinary(s: Scan, blocks: seq<Block>, i: nat, y: nat)
    requires OrderOk(s.order) && |s.order| == DCTSIZE2 && 1 <= y <= 11 && Crowd(s, blocks, i, y)
    ensures forall x :: i <= x < |blocks| ==> Plain(blocks[x])
    decreases 11 - y
  {
    hide Final, Scale, Crowd, OrderOk, Plain, AllFull;
    CrowdParts(s, blocks, i, y);
    if y == 11 {
      FinalOrdinary(s, blocks[i]);
    } else {
      GroupOrdinary(s, blocks, i, Scale(1, 10 - y), y);
      CrowdOrdinary(s, blocks, i + Scale(1, 10 - y), y + 1);
    }
  }

  lemma GroupOrdinary(s: Scan, blocks: seq<Block>, i: nat, n: nat, y: nat)
    requires OrderOk(s.order) && |s.order| == DCTSIZE2 && 1 <= y <= 10 && AllFull(s, blocks, i, n, y)
    ensures i + n < |blocks| && forall x :: i <= x < i + n ==> Plain(blocks[x])
  {
    hide OrderOk, Plain, Full;
    forall x | i <= x < i + n
      ensures Plain(blocks[x])
    {
      FullOrdinary(s, blocks[x], y);
    }
  }

  // Ordinary coefficients, of which DC is zero
  predicate Plain(block: Block) {
    HuffmanScript.Ordinary(block) && block[0] == 0
  }

  lemma FullOrdinary(s: Scan, block: Block, y: nat)
    requires OrderOk(s.order) && |s.order| == DCTSIZE2 && 1 <= y <= 10 && Full(s, block, y)
    ensures Plain(block)
  {
    hide OrderOk, Scale, AtZigzag;
    PowerBits(y);
    OrdinaryAll(s, block);
  }

  lemma FinalOrdinary(s: Scan, block: Block)
    requires OrderOk(s.order) && Final(s, block)
    ensures Plain(block)
  {
    OrderLength(s.order);
    hide OrderOk;
    FinalBounds(s, block);
    OrdinaryAll(s, block);
  }

  lemma FinalBounds(s: Scan, block: Block)
    requires |s.order| == DCTSIZE2 && Final(s, block)
    ensures block[0] == 0 && forall k :: 1 <= k < DCTSIZE2 ==> -1024 < AtZigzag(s, block, k) < 1024
  {
    hide Scale, AtZigzag;
    PowerOfNine();
    forall k | 1 <= k < DCTSIZE2
      ensures -1024 < AtZigzag(s, block, k) < 1024
    {
      if k < 62 {
        assert AtZigzag(s, block, k) == 1;
      }
    }
  }

  lemma OrdinaryAll(s: Scan, block: Block)
    requires OrderOk(s.order) && block[0] == 0 && |s.order| == DCTSIZE2
    requires forall k :: 1 <= k < DCTSIZE2 ==> -1024 < AtZigzag(s, block, k) < 1024
    ensures HuffmanScript.Ordinary(block)
  {
    forall j | 1 <= j < DCTSIZE2
      ensures -1024 < block[j] < 1024
    {
      var k := ZigzagPosition(s.order, j);
      assert AtZigzag(s, block, k) == block[j];
    }
  }

  // ----- Such blocks -----

  function FullBlock(y: nat): Block
    requires 1 <= y <= 10
  {
    PowerBits(y);
    seq(DCTSIZE2, i => if i == 0 then 0 else Scale(1, y - 1))
  }

  lemma FullIs(s: Scan, y: nat)
    requires OrderOk(s.order) && 1 <= y <= 10
    ensures Full(s, FullBlock(y), y)
  {
    hide Scale;
    forall k | 1 <= k < DCTSIZE2
      ensures AtZigzag(s, FullBlock(y), k) == Scale(1, y - 1)
    {
      assert s.order[k] != s.order[0];
    }
  }

  function FinalBlock(s: Scan): Block
    requires OrderOk(s.order)
  {
    FullBlock(1)[s.order[62] := 512][s.order[63] := 0]
  }

  lemma FinalIs(s: Scan)
    requires OrderOk(s.order)
    ensures Final(s, FinalBlock(s))
  {
    hide FullBlock, Scale;
    OrderLength(s.order);
    FullIs(s, 1);
    OneIs();
    PowerOfNine();
    var ones, block := FullBlock(1), FinalBlock(s);
    assert s.order[0] == 0 && s.order[62] != 0 && s.order[63] != 0;
    forall k | 1 <= k < DCTSIZE2
      ensures AtZigzag(s, block, k) == if k == 62 then 512 else if k == 63 then 0 else AtZigzag(s, ones, k)
    {
      assert s.order[k] != s.order[62] || k == 62;
      assert s.order[k] != s.order[63] || k == 63;
    }
    hide AtZigzag;
    assert forall k :: 1 <= k < DCTSIZE2 ==> AtZigzag(s, ones, k) == 1;
  }

  lemma PowerOfNine()
    ensures Scale(1, 9) == 512
  {
    hide Scale;
    ScaleValues(1);
    Twice(9);
    Twice(10);
  }

  function CrowdBlocks(s: Scan, y: nat): seq<Block>
    requires OrderOk(s.order) && 1 <= y <= 11
    decreases 11 - y
  {
    if y == 11 then [FinalBlock(s)] else Copies(Scale(1, 10 - y), FullBlock(y)) + CrowdBlocks(s, y + 1)
  }

  function Copies(n: nat, block: Block): (blocks: seq<Block>)
    ensures |blocks| == n
  {
    seq(n, _ => block)
  }

  lemma HereFull(s: Scan, before: seq<Block>, n: nat, y: nat, rest: seq<Block>)
    requires |s.order| == DCTSIZE2 && 1 <= y <= 10 && Full(s, FullBlock(y), y)
    ensures rest != [] ==> AllFull(s, before + Copies(n, FullBlock(y)) + rest, |before|, n, y)
  {
    hide FullBlock, Full;
  }

  lemma CrowdStep(s: Scan, y: nat, before: seq<Block>, rest: seq<Block>)
    requires OrderOk(s.order) && |s.order| == DCTSIZE2 && 1 <= y <= 10 && rest != []
    requires var here := Copies(Scale(1, 10 - y), FullBlock(y));
             Crowd(s, before + here + rest, |before + here|, y + 1)
    ensures Crowd(s, before + Copies(Scale(1, 10 - y), FullBlock(y)) + rest, |before|, y)
  {
    hide OrderOk, FullBlock, Full, Scale, Crowd, AllFull;
    var n: nat := Scale(1, 10 - y);
    var blocks := before + Copies(n, FullBlock(y)) + rest;
    FullIs(s, y);
    HereFull(s, before, n, y, rest);
    CrowdParts(s, blocks, |before|, y);
  }

  lemma {:induction false} CrowdIs(s: Scan, y: nat, before: seq<Block>)
    requires OrderOk(s.order) && |s.order| == DCTSIZE2 && 1 <= y <= 11
    ensures Crowd(s, before + CrowdBlocks(s, y), |before|, y) && CrowdBlocks(s, y) != []
    decreases 11 - y
  {
    hide FullBlock, FinalBlock, Full, Final, Scale, OrderOk, Crowd, Copies;
    if y == 11 {
      FinalIs(s);
      CrowdParts(s, before + [FinalBlock(s)], |before|, 11);
    } else {
      var here, rest := Copies(Scale(1, 10 - y), FullBlock(y)), CrowdBlocks(s, y + 1);
      assert CrowdBlocks(s, y) == here + rest;
      hide CrowdBlocks;
      assert before + (here + rest) == before + here + rest;
      CrowdIs(s, y + 1, before + here);
      CrowdStep(s, y, before, rest);
    }
  }

  lemma {:induction false} CrowdSize(s: Scan, y: nat)
    requires OrderOk(s.order) && 1 <= y <= 11
    ensures |CrowdBlocks(s, y)| == Scale(1, 11 - y)
    decreases 11 - y
  {
    hide FullBlock, FinalBlock, OrderOk;
    if y < 11 {
      CrowdSize(s, y + 1);
      Twice(10 - y);
    }
  }

  // Coding these blocks with tables made from their statistics, with words of 64 bits and a restart behind
  // every MCU, is not refused, but the file does not hold the scan.
  method DamagedScan(s: Scan, planes: array<Block>, wideDecoder: bool, marker: Byte, follow: seq<Byte>)
    returns (blocks: seq<Block>, outcome: Outcome, intact: bool, tables: seq<Tables>)
    requires ScanOk(s) && ModeOf(s) == Sequential && s.membership == [0] && |s.comps| == 1 && s.restartInterval == 1
    requires s.comps[0].dcTbl < NUM_HUFF_TBLS && s.comps[0].acTbl < NUM_HUFF_TBLS && marker != 0 && marker != 0xFF
    requires planes.Length == 1024 && forall r, i :: 0 <= r < 1024 && 0 <= i < DCTSIZE2 ==> planes[r][i] == 0
    modifies planes
    ensures |blocks| == 1024 && forall x :: 0 <= x < |blocks| ==> HuffmanScript.Ordinary(blocks[x])
    ensures outcome == Written && !intact && |tables| == 1 && EncoderShape(tables[0].acEncoder) && tables[0].acEncoder.ehufsi[0] == 11
  {
    hide CrowdBlocks, Crowd, HuffmanScript.Ordinary, AllAcceptable, FlushesOk, Coded, ScanBits, Serve, ByNumber, Counts, RowsCleared,
      BitsLength, CountedBits, BlocksIn, SizesAre;
    blocks := CrowdBlocks(s, 1);
    var comps, rows := seq(1024, _ => 0), seq(1024, i => i);
    OrderLength(s.order);
    CrowdIs(s, 1, []);
    CrowdSize(s, 1);
    assert [] + blocks == blocks;
    CrowdOrdinary(s, blocks, 0, 1);
    ManyBlocks();
    ScanFits(s, comps, blocks);
    RowsFit(s, blocks, rows, planes[..]);
    var out, warnings, dc, ac, dcCounts, acCounts;
    outcome, intact, out, warnings, tables, dc, ac, dcCounts, acCounts :=
      OptimizedRoundTrip(s, comps, blocks, rows, planes, comps, true, wideDecoder, marker, follow);
    assert tables == [tables[0]];
    TablesAre(s, comps, blocks, tables[0]);
    CrowdSome(s, blocks, 0, 1);
    ScanLoses(s, tables[0], comps, blocks);
    SizesKnown(tables[0]);
  }

  lemma SizesKnown(t: Tables)
    requires SizesAre(t)
    ensures EncoderShape(t.acEncoder) && t.acEncoder.ehufsi[0] == 11
  {
  }

  lemma ManyBlocks()
    ensures Scale(1, 10) == 1024
  {
    hide Scale;
    ScaleValues(1);
    Twice(10);
  }

  lemma {:induction false} AsManyBlocks(n: nat)
    ensures BlocksIn(1, n) == n
  {
    if n > 0 {
      AsManyBlocks(n - 1);
    }
  }

  lemma ScanFits(s: Scan, comps: seq<nat>, blocks: seq<Block>)
    requires ScanOk(s) && ModeOf(s) == Sequential && s.membership == [0] && |s.comps| == 1 && s.restartInterval == 1
    requires s.comps[0].dcTbl < NUM_HUFF_TBLS && s.comps[0].acTbl < NUM_HUFF_TBLS && comps == seq(1024, _ => 0) && |blocks| == 1024
    requires forall x :: 0 <= x < |blocks| ==> Plain(blocks[x])
    ensures Single(s, comps, blocks) && AllAcceptable(s, comps, blocks, 0, StartState(s, 1))
    ensures BlocksIn(|s.membership|, 1024) == 1024 && forall c :: 0 <= c < |s.comps| ==> c in comps
  {
    hide AllAcceptable, HuffmanScript.Ordinary;
    OrderLength(s.order);
    assert comps[0] == 0;
    HuffmanScript.SequentialAccepted(s, comps, blocks, 0, StartState(s, 1));
    AsManyBlocks(1024);
  }

  lemma RowsFit(s: Scan, blocks: seq<Block>, rows: seq<nat>, planes: seq<Block>)
    requires ScanOk(s) && |blocks| == 1024 == |planes| && rows == seq(1024, i => i)
    requires forall r, i :: 0 <= r < 1024 && 0 <= i < DCTSIZE2 ==> planes[r][i] == 0
    ensures RowsCleared(s, blocks, rows, 0, 1024, planes)
  {
    hide TablesOk, AtZigzag;
  }
}
