// The point transform of successive approximation (section G.1.2.1 of ITU-T T.81), and
// what a scan makes of the coefficients it carries.
module PointTransform {
  import opened Arithmetic
  import opened BitFields
  import opened ArithScan

  // The cast to a 16-bit coefficient
  function Wrap16(x: int): (c: Coef)
    ensures -0x8000 <= x < 0x8000 ==> c == x
  {
    (x + 0x8000) % 0x1_0000 - 0x8000
  }

  // x | (1 << n)
  function SetBit(x: int, n: nat): int {
    if Shr(x, n) % 2 == 1 then x else x + Scale(1, n)
  }

  // A DC value without the bits below al: rounded down
  function DcPoint(c: Coef, al: nat): (p: Coef)
    requires al <= 15
    ensures p == Shl(Shr(c, al), al)
  {
    DcPointRange(c, al);
    Shl(Shr(c, al), al)
  }

  lemma DcPointRange(c: Coef, al: nat)
    requires al <= 15
    ensures -0x8000 <= Shl(Shr(c, al), al) < 0x8000
  {
    ScaleByte(1, 7);
    ScaleValues(1);
    assert Scale(1, 7) == 0x80 by {
      assert Scale(1, 8) == 2 * Scale(1, 7);
    }
    RoundedDown(c, al, 15);
  }

  // An AC value without the bits below al: rounded towards zero
  function AcPoint(c: Coef, al: nat): (p: Coef)
    ensures p == if c < 0 then -Shl(Shr(Abs(c), al), al) else Shl(Shr(c, al), al)
  {
    AcPointRange(Abs(c), al);
    if c < 0 then -Shl(Shr(Abs(c), al), al) else Shl(Shr(c, al), al)
  }

  // So DC values are rounded down to a multiple of 2^al, and the magnitudes of AC values are.
  lemma PointsRounded(c: Coef, al: nat)
    requires al <= 15
    ensures DcPoint(c, al) % Scale(1, al) == 0 && DcPoint(c, al) <= c < DcPoint(c, al) + Scale(1, al)
    ensures AcPoint(c, al) % Scale(1, al) == 0 && Abs(AcPoint(c, al)) <= Abs(c) < Abs(AcPoint(c, al)) + Scale(1, al)
    ensures AcPoint(c, al) != 0 ==> (AcPoint(c, al) < 0 <==> c < 0)
  {
    hide Shl, Shr, Scale;
    RoundedMultiple(c, al);
    RoundedMultiple(Abs(c), al);
  }

  lemma RoundedMultiple(x: int, n: nat)
    ensures var y := Shl(Shr(x, n), n);
            y % Scale(1, n) == 0 && (-y) % Scale(1, n) == 0 && y <= x < y + Scale(1, n) && (x >= 0 ==> y >= 0)
  {
    ShrQuotient(x, n);
    ShlProduct(Shr(x, n), n);
    hide Shl, Shr, Scale;
    Multiple(x, Scale(1, n), x / Scale(1, n));
  }

  lemma Multiple(x: int, d: nat, q: int)
    requires d > 0 && q == x / d
    ensures (q * d) % d == 0 && (-(q * d)) % d == 0 && q * d <= x < q * d + d && (x >= 0 ==> q * d >= 0)
  {
    var y := d * q;
    assert q * d == y && x == y + x % d;
    DivMod(d, q, 0);
    DivMod(d, -q, 0);
    MinusProduct(d, q);
    if x >= 0 {
      ProductNonnegative(d, q);
    }
  }

  lemma MinusProduct(d: int, q: int)
    ensures d * -q == -(d * q)
  {
  }

  lemma ProductNonnegative(d: nat, q: nat)
    ensures d * q >= 0
  {
  }

  lemma {:induction false} AcPointRange(x: nat, n: nat)
    ensures 0 <= Shl(Shr(x, n), n) <= x
    decreases n
  {
    if n > 0 {
      AcPointRange(x / 2, n - 1);
    }
  }

  // The coefficient at zigzag position k, known down to bit al
  function Level(s: Scan, block: Block, k: nat, al: nat): Coef
    requires |s.order| == DCTSIZE2 && k < DCTSIZE2 && al <= 15
  {
    if k == 0 then DcPoint(AtZigzag(s, block, k), al) else AcPoint(AtZigzag(s, block, k), al)
  }

  // A refinement scan brings the next bit of a DC value.
  lemma DcNextBit(c: Coef, al: nat)
    requires al <= 14
    ensures DcPoint(c, al) == if Shr(c, al) % 2 == 1 then SetBit(DcPoint(c, al + 1), al) else DcPoint(c, al + 1)
  {
    OneMoreBit(c, al);
    LowBitClear(Shr(c, al + 1), al);
  }

  // A refinement scan brings the next bit of the magnitude of an AC value.
  lemma AcNextBit(c: Coef, al: nat)
    ensures Abs(AcPoint(c, al)) == Abs(AcPoint(c, al + 1)) + if Shr(Abs(c), al) % 2 == 1 then Scale(1, al) else 0
    ensures AcPoint(c, al + 1) != 0 <==> Shr(Abs(c), al) / 2 != 0
  {
    OneMoreBit(Abs(c), al);
    ShrHalf(Abs(c), al);
  }

  lemma LevelZero(s: Scan, block: Block, k: nat, al: nat)
    requires |s.order| == DCTSIZE2 && 1 <= k < DCTSIZE2 && al <= 14
    ensures Level(s, block, k, al) == 0 <==> AcLevel(s, block, k, al) == 0
    ensures AcLevel(s, block, k, al + 1) == AcLevel(s, block, k, al) / 2
  {
    ShrHalf(Abs(AtZigzag(s, block, k)), al);
  }

  // How a refinement scan improves what is known of the coefficient at position k.
  lemma RefineLevel(s: Scan, block: Block, k: nat)
    requires |s.order| == DCTSIZE2 && 1 <= k < DCTSIZE2 && s.Al <= 13 && s.Ah == s.Al + 1
    ensures Level(s, block, k, s.Ah) != 0 <==> AcLevel(s, block, k, s.Al) / 2 != 0
    ensures var step := if AtZigzag(s, block, k) < 0 then -(Scale(1, s.Al) as int) else Scale(1, s.Al) as int;
            Level(s, block, k, s.Al) == Level(s, block, k, s.Ah) + if AcLevel(s, block, k, s.Al) % 2 == 1 then step else 0
    ensures Level(s, block, k, s.Ah) != 0 ==> (Level(s, block, k, s.Ah) < 0 <==> AtZigzag(s, block, k) < 0)
  {
    AcNextBit(AtZigzag(s, block, k), s.Al);
  }

  // Without a point transform the levels are the coefficients.
  lemma FullLevel(s: Scan, block: Block, k: nat)
    requires |s.order| == DCTSIZE2 && k < DCTSIZE2
    ensures Level(s, block, k, 0) == AtZigzag(s, block, k)
    ensures AcLevel(s, block, k, 0) == Abs(AtZigzag(s, block, k))
  {
  }

  // ----- The zigzag order reaches every coefficient -----

  function Visited(order: seq<nat>, n: nat): set<nat>
    requires n <= |order|
  {
    if n == 0 then {} else Visited(order, n - 1) + {order[n - 1]}
  }

  function Below(n: nat): set<nat> {
    if n == 0 then {} else Below(n - 1) + {n - 1}
  }

  lemma {:induction false} BelowSize(n: nat)
    ensures |Below(n)| == n && forall i: nat :: i in Below(n) <==> i < n
  {
    if n > 0 {
      BelowSize(n - 1);
    }
  }

  lemma {:induction false} VisitedDistinct(order: seq<nat>, n: nat)
    requires n <= |order| && forall i, j :: 0 <= i < j < |order| ==> order[i] != order[j]
    ensures |Visited(order, n)| == n
    ensures forall i :: i in Visited(order, n) ==> exists k :: 0 <= k < n && order[k] == i
  {
    if n > 0 {
      VisitedDistinct(order, n - 1);
    }
  }

  lemma SameSize(a: set<nat>, b: set<nat>)
    requires a <= b && |a| == |b|
    ensures a == b
  {
    if i :| i in b && i !in a {
      SameSizeAfterRemoval(a, b, i);
    }
  }

  lemma SameSizeAfterRemoval(a: set<nat>, b: set<nat>, i: nat)
    requires a <= b && i in b && i !in a
    ensures |a| < |b|
  {
    SubsetSize(a, b - {i});
  }

  lemma {:induction false} SubsetSize(a: set<nat>, b: set<nat>)
    requires a <= b
    ensures |a| <= |b|
    decreases a
  {
    if i :| i in a {
      SubsetSize(a - {i}, b - {i});
    }
  }

  lemma ZigzagPosition(order: seq<nat>, i: nat) returns (k: nat)
    requires OrderOk(order) && i < DCTSIZE2
    ensures k < DCTSIZE2 && order[k] == i
  {
    hide Visited;
    VisitedDistinct(order, |order|);
    BelowSize(|order|);
    SameSize(Visited(order, |order|), Below(|order|));
    assert i in Visited(order, |order|);
    k :| k < |order| && order[k] == i;
  }

  lemma OrderLength(order: seq<nat>)
    requires OrderOk(order)
    ensures |order| == DCTSIZE2
  {
  }

  // ----- The order that the codec uses -----

  // jpeg_natural_order, without the entries for damaged data
  function NaturalAt(k: nat): nat
    requires k < DCTSIZE2
  {
    if k < 8 then [0, 1, 8, 16, 9, 2, 3, 10][k]
    else if k < 16 then [17, 24, 32, 25, 18, 11, 4, 5][k - 8]
    else if k < 24 then [12, 19, 26, 33, 40, 48, 41, 34][k - 16]
    else if k < 32 then [27, 20, 13, 6, 7, 14, 21, 28][k - 24]
    else if k < 40 then [35, 42, 49, 56, 57, 50, 43, 36][k - 32]
    else if k < 48 then [29, 22, 15, 23, 30, 37, 44, 51][k - 40]
    else if k < 56 then [58, 59, 52, 45, 38, 31, 39, 46][k - 48]
    else [53, 60, 61, 54, 47, 55, 62, 63][k - 56]
  }

  // The zigzag position of each coefficient
  function ZigzagAt(k: nat): nat
    requires k < DCTSIZE2
  {
    if k < 8 then [0, 1, 5, 6, 14, 15, 27, 28][k]
    else if k < 16 then [2, 4, 7, 13, 16, 26, 29, 42][k - 8]
    else if k < 24 then [3, 8, 12, 17, 25, 30, 41, 43][k - 16]
    else if k < 32 then [9, 11, 18, 24, 31, 40, 44, 53][k - 24]
    else if k < 40 then [10, 19, 23, 32, 39, 45, 52, 54][k - 32]
    else if k < 48 then [20, 22, 33, 38, 46, 51, 55, 60][k - 40]
    else if k < 56 then [21, 34, 37, 47, 50, 56, 59, 61][k - 48]
    else [35, 36, 48, 49, 57, 58, 62, 63][k - 56]
  }

  function JpegNaturalOrder(): seq<nat> {
    seq(DCTSIZE2, k requires 0 <= k < DCTSIZE2 => NaturalAt(k))
  }

  lemma InverseAt(k: nat)
    requires k < DCTSIZE2
    ensures NaturalAt(k) < DCTSIZE2 && ZigzagAt(NaturalAt(k)) == k
  {
    hide NaturalAt, ZigzagAt;
    if k < 16 {
      InverseFirst(k);
    } else if k < 32 {
      InverseSecond(k);
    } else if k < 48 {
      InverseThird(k);
    } else {
      InverseFourth(k);
    }
  }

  lemma InverseFirst(k: nat)
    requires 0 <= k < 16
    ensures NaturalAt(k) < DCTSIZE2 && ZigzagAt(NaturalAt(k)) == k
  {
  }

  lemma InverseSecond(k: nat)
    requires 16 <= k < 32
    ensures NaturalAt(k) < DCTSIZE2 && ZigzagAt(NaturalAt(k)) == k
  {
  }

  lemma InverseThird(k: nat)
    requires 32 <= k < 48
    ensures NaturalAt(k) < DCTSIZE2 && ZigzagAt(NaturalAt(k)) == k
  {
  }

  lemma InverseFourth(k: nat)
    requires 48 <= k < 64
    ensures NaturalAt(k) < DCTSIZE2 && ZigzagAt(NaturalAt(k)) == k
  {
  }

  lemma JpegNaturalOrderOk()
    ensures OrderOk(JpegNaturalOrder())
  {
    hide NaturalAt, ZigzagAt;
    forall k: nat | k < DCTSIZE2
      ensures NaturalAt(k) < DCTSIZE2 && ZigzagAt(NaturalAt(k)) == k
    {
      InverseAt(k);
    }
    FirstCoefficient();
  }

  lemma FirstCoefficient()
    ensures NaturalAt(0) == 0
  {
  }

  // The walk over the antidiagonals of figure 5 of T.81: up to the right on even ones and down to the left
  // on odd ones, along the edge at their ends
  function WalkOn(row: nat, col: nat): (nat, nat) {
    if (row + col) % 2 == 0 then
      if col == 7 then (row + 1, col) else if row == 0 then (row, col + 1) else (row - 1, col + 1)
    else
      if row == 7 then (row, col + 1) else if col == 0 then (row + 1, col) else (row + 1, col - 1)
  }

  predicate Walks(k: nat)
    requires k + 1 < DCTSIZE2
  {
    WalkOn(NaturalAt(k) / 8, NaturalAt(k) % 8) == (NaturalAt(k + 1) / 8, NaturalAt(k + 1) % 8)
  }

  // The table takes this walk, from the DC coefficient on.
  lemma NaturalWalks(k: nat)
    requires k + 1 < DCTSIZE2
    ensures NaturalAt(0) == 0 && Walks(k)
  {
    hide Walks, NaturalAt;
    FirstCoefficient();
    if k < 16 {
      WalksFirst(k);
    } else if k < 32 {
      WalksSecond(k);
    } else if k < 48 {
      WalksThird(k);
    } else {
      WalksFourth(k);
    }
  }

  lemma WalksFirst(k: nat)
    requires 0 <= k < 16
    ensures Walks(k)
  {
  }

  lemma WalksSecond(k: nat)
    requires 16 <= k < 32
    ensures Walks(k)
  {
  }

  lemma WalksThird(k: nat)
    requires 32 <= k < 48
    ensures Walks(k)
  {
  }

  lemma WalksFourth(k: nat)
    requires 48 <= k < 63
    ensures Walks(k)
  {
  }

  // ----- What a scan does to a block -----

  // The level at which a scan of AC coefficients finds position k
  function LevelBefore(s: Scan, block: Block, k: nat): Coef
    requires ScanOk(s) && k <= s.Se
  {
    if s.Ah == 0 then 0 else Level(s, block, k, s.Ah)
  }

  // The AC coefficients of the band are at the level that the scan starts from.
  ghost predicate BandKnown(s: Scan, block: Block, was: Block)
    requires ScanOk(s)
  {
    forall k :: 1 <= k && FirstAc(s) <= k <= s.Se ==> was[s.order[k]] == LevelBefore(s, block, k)
  }

  // The coefficients of the band from its start up to position k are known down to bit Al.
  function Updated(s: Scan, block: Block, was: Block, k: nat): Block
    requires ScanOk(s) && FirstAc(s) <= k <= s.Se + 1
    decreases k
  {
    if k == FirstAc(s) then was
    else Updated(s, block, was, k - 1)[s.order[k - 1] := Level(s, block, k - 1, s.Al)]
  }

  lemma UpdatedNone(s: Scan, block: Block, was: Block)
    requires ScanOk(s)
    ensures Updated(s, block, was, FirstAc(s)) == was
  {
  }

  // Positions from k on have not been touched.
  lemma {:induction false} UpdatedBeyond(s: Scan, block: Block, was: Block, k: nat, i: nat)
    requires ScanOk(s) && FirstAc(s) <= k <= i <= s.Se
    ensures Updated(s, block, was, k)[s.order[i]] == was[s.order[i]]
    decreases k
  {
    if k > FirstAc(s) {
      UpdatedBeyond(s, block, was, k - 1, i);
    }
  }

  // Coefficients that stay zero need no update.
  lemma {:induction false} UpdatedZeros(s: Scan, block: Block, was: Block, k: nat, k': nat)
    requires ScanOk(s) && 1 <= FirstAc(s) <= k <= k' <= s.Se + 1 && BandKnown(s, block, was)
    requires forall i :: k <= i < k' ==> AcLevel(s, block, i, s.Al) == 0
    ensures Updated(s, block, was, k') == Updated(s, block, was, k)
    decreases k'
  {
    hide AcLevel, Level;
    if k < k' {
      UpdatedZeros(s, block, was, k, k' - 1);
      UpdatedBeyond(s, block, was, k' - 1, k' - 1);
      LevelZero(s, block, k' - 1, s.Al);
      LevelZero(s, block, k' - 1, s.Al + 1);
    }
  }

  // Afterwards the band is known down to bit Al and the rest is as before.
  lemma {:induction false} UpdatedLevels(s: Scan, block: Block, was: Block, k: nat, i: nat)
    requires ScanOk(s) && FirstAc(s) <= k <= s.Se + 1 && i < DCTSIZE2
    ensures Updated(s, block, was, k)[s.order[i]]
         == if FirstAc(s) <= i < k then Level(s, block, i, s.Al) else was[s.order[i]]
    decreases k
  {
    hide Level;
    if k > FirstAc(s) {
      UpdatedLevels(s, block, was, k - 1, i);
    }
  }

  // ----- What a block must hold before a scan, and what it holds afterwards -----

  function WithDc(s: Scan, block: Block, was: Block): Block
    requires ScanOk(s)
  {
    was[0 := DcPoint(block[0], s.Al)]
  }

  // A refinement scan sets the next bit of whatever DC value is there.
  function WithBit(s: Scan, block: Block, was: Block): Block
    requires ScanOk(s)
  {
    if Shr(block[0], s.Al) % 2 == 1 then was[0 := Wrap16(SetBit(was[0], s.Al))] else was
  }

  lemma RefinedDc(s: Scan, block: Block, was: Block)
    requires ScanOk(s) && ModeOf(s) == DcRefinement && was[0] == DcPoint(block[0], s.Ah)
    ensures WithBit(s, block, was) == was[0 := DcPoint(block[0], s.Al)]
  {
    hide OrderOk, TablesOk, Shr, SetBit, DcPoint, Wrap16;
    DcNextBit(block[0], s.Al);
  }

  function BlockResult(s: Scan, block: Block, was: Block): Block
    requires ScanOk(s)
  {
    match ModeOf(s)
    case Sequential => Updated(s, block, WithDc(s, block, was), s.Se + 1)
    case DcFirst => WithDc(s, block, was)
    case DcRefinement => WithBit(s, block, was)
    case AcFirst => Updated(s, block, was, s.Se + 1)
    case AcRefinement => Updated(s, block, was, s.Se + 1)
  }

  // Storing the DC coefficient leaves the AC coefficients alone.
  lemma KnownWithDc(s: Scan, block: Block, was: Block)
    requires ScanOk(s) && BandKnown(s, block, was)
    ensures BandKnown(s, block, WithDc(s, block, was))
  {
  }

  // A scan brings the positions of its band, and no others, to its bit Al.
  lemma ResultLevels(s: Scan, block: Block, was: Block, k: nat)
    requires ScanOk(s) && k < DCTSIZE2 && (ModeOf(s) == DcRefinement ==> was[0] == DcPoint(block[0], s.Ah))
    ensures BlockResult(s, block, was)[s.order[k]] == if s.Ss <= k <= s.Se then Level(s, block, k, s.Al) else was[s.order[k]]
  {
    hide Updated;
    if ModeOf(s) == Sequential {
      UpdatedLevels(s, block, WithDc(s, block, was), s.Se + 1, k);
    } else if s.Ss != 0 {
      UpdatedLevels(s, block, was, s.Se + 1, k);
    } else if s.Ah != 0 {
      RefinedDc(s, block, was);
    }
  }

  // The decoder can represent the DC difference of the block.
  predicate DcInRange(s: Scan, p: Prediction, ci: nat, block: Block)
    requires PredictionOk(s, p) && ci < |s.comps|
  {
    CodesDc(s) ==> Abs(DcLevel(s, block) - p.lastDc[ci]) <= 0x8000
  }

  // The first n blocks of an MCU have been stored in their rows of the coefficient arrays.
  function McuResult(s: Scan, mcu: seq<Block>, rows: seq<nat>, was: seq<Block>, n: nat): (planes: seq<Block>)
    requires ScanOk(s) && |mcu| == |rows| && n <= |rows| && RowsOk(rows, |was|)
    ensures |planes| == |was|
  {
    if n == 0 then was
    else
      var planes := McuResult(s, mcu, rows, was, n - 1);
      planes[rows[n - 1] := BlockResult(s, mcu[n - 1], planes[rows[n - 1]])]
  }

  predicate RowsOk(rows: seq<nat>, total: nat) {
    forall x :: 0 <= x < |rows| ==> rows[x] < total
  }

  predicate DistinctRows(rows: seq<nat>) {
    forall x, y :: 0 <= x < y < |rows| ==> rows[x] != rows[y]
  }

  predicate DistinctLayout(layout: seq<seq<nat>>) {
    && (forall i :: 0 <= i < |layout| ==> DistinctRows(layout[i]))
    && forall i, j, x, y :: 0 <= i < j < |layout| && 0 <= x < |layout[i]| && 0 <= y < |layout[j]| ==>
         layout[i][x] != layout[j][y]
  }

  predicate InMcus(layout: seq<seq<nat>>, n: nat, r: nat)
    requires n <= |layout|
  {
    exists i :: 0 <= i < n && r in layout[i]
  }

  ghost predicate McuKnown(s: Scan, mcu: seq<Block>, rows: seq<nat>, was: seq<Block>)
    requires ScanOk(s) && |mcu| == |rows| && RowsOk(rows, |was|)
  {
    forall x :: 0 <= x < |rows| ==> BandKnown(s, mcu[x], McuResult(s, mcu, rows, was, x)[rows[x]])
  }

  // The decoder can represent the DC differences of the blocks from blkn on.
  predicate McuInRange(s: Scan, p: Prediction, mcu: seq<Block>, blkn: nat)
    requires TablesOk(s) && PredictionOk(s, p) && |mcu| == |s.membership| && blkn <= |mcu|
    decreases |mcu| - blkn
  {
    blkn == |mcu| ||
    var ci := s.membership[blkn];
    DcInRange(s, p, ci, mcu[blkn]) && McuInRange(s, NextPrediction(s, p, ci, mcu[blkn]), mcu, blkn + 1)
  }
}
