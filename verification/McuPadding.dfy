// What the coefficient controllers send: the blocks of an image in MCUs, with blocks that repeat a
// DC value beyond its edges.
module McuPadding {
  import opened Arithmetic
  import opened ArithScan
  import opened Geometry
  import opened McuPlaces

  // Zero but for its DC value
  function DcOnly(dc: Coef): Block {
    seq(DCTSIZE2, _ => 0)[0 := dc]
  }

  function Min(a: nat, b: nat): nat {
    if a < b then a else b
  }

  // The last column of the interleaved MCU that has column x
  function LastInMcu(x: nat, h: nat): nat
    requires 0 < h
  {
    FirstOf(x / h, h) + (h - 1)
  }

  // The block whose DC value a block of padding repeats: to the right of the image the last one of the
  // row, and below it the last one of the MCU, in the last row.
  function Neighbour(img: Image, p: Place): (q: Place)
    requires ImageOk(img) && InPlane(img, p)
    ensures Real(img, q)
  {
    var w, h := WidthInBlocks(img, p.c), HeightInBlocks(img, p.c);
    BlocksOfComponent(img, p.c);
    if p.y < h then Place(p.c, p.y, Min(p.x, w - 1))
    else Place(p.c, h - 1, Min(LastInMcu(p.x, img.comps[p.c].h), w - 1))
  }

  // The image's blocks are those in the rows of the real places.
  function Padded(img: Image, blocks: seq<Block>, p: Place): Block
    requires ImageOk(img) && |blocks| == Total(img) && InPlane(img, p)
  {
    if Real(img, p) then
      RowInside(img, p);
      blocks[RowOf(img, p)]
    else
      var q := Neighbour(img, p);
      RealInPlane(img, q);
      RowInside(img, q);
      DcOnly(blocks[RowOf(img, q)][0])
  }

  // To the right of the image, the DC value is that of the block before.
  lemma PaddedRight(img: Image, blocks: seq<Block>, p: Place)
    requires ImageOk(img) && |blocks| == Total(img) && InPlane(img, p)
    requires p.y < HeightInBlocks(img, p.c) && WidthInBlocks(img, p.c) <= p.x
    ensures 0 < p.x && InPlane(img, p.(x := p.x - 1))
    ensures Padded(img, blocks, p) == DcOnly(Padded(img, blocks, p.(x := p.x - 1))[0])
  {
    hide PaddedWidth, PaddedHeight, RowOf, WidthInBlocks, HeightInBlocks, ImageOk;
    BlocksOfComponent(img, p.c);
  }

  // Below it, it is that of the last block of the MCU in the row above, throughout the MCU.
  lemma PaddedBelow(img: Image, blocks: seq<Block>, p: Place)
    requires ImageOk(img) && |blocks| == Total(img) && InPlane(img, p) && HeightInBlocks(img, p.c) <= p.y
    ensures 0 < p.y
    ensures var q := Place(p.c, p.y - 1, LastInMcu(p.x, img.comps[p.c].h));
            InPlane(img, q) && Padded(img, blocks, p) == DcOnly(Padded(img, blocks, q)[0])
  {
    hide PaddedHeight, RowOf, WidthInBlocks, HeightInBlocks, ImageOk;
    BlocksOfComponent(img, p.c);
    var h := img.comps[p.c].h;
    Unit(ImcuColumns(img), h, p.x);
    var x := LastInMcu(p.x, h);
    Within(p.x / h, ImcuColumns(img), h, x);
    assert LastInMcu(x, h) == x;
  }

  lemma PaddedChain(img: Image, blocks: seq<Block>, p: Place)
    requires ImageOk(img) && |blocks| == Total(img) && InPlane(img, p) && HeightInBlocks(img, p.c) <= p.y
    requires 0 < p.x && (p.x - 1) / img.comps[p.c].h == p.x / img.comps[p.c].h
    ensures InPlane(img, p.(x := p.x - 1))
    ensures Padded(img, blocks, p) == DcOnly(Padded(img, blocks, p.(x := p.x - 1))[0])
  {
    hide PaddedWidth, PaddedHeight, RowOf, WidthInBlocks, HeightInBlocks, ImageOk;
    BlocksOfComponent(img, p.c);
  }

  // The block before p in an MCU of h columns, among those of its component: to the left, or the last one
  // of the row above
  predicate Precedes(q: Place, p: Place, h: nat)
    requires 0 < h
  {
    q.c == p.c && if p.x % h != 0 then q.y == p.y && q.x + 1 == p.x else q.y + 1 == p.y && q.x == p.x + h - 1
  }

  predicate InOneMcu(q: Place, p: Place, h: nat, v: nat)
    requires 0 < h && 0 < v
  {
    q.x / h == p.x / h && q.y / v == p.y / v
  }

  // Every block of padding repeats the DC value of the block before it in the MCU, so that its difference
  // is zero, and it never is the first one there.
  lemma PaddingRepeats(img: Image, blocks: seq<Block>, p: Place) returns (q: Place)
    requires ImageOk(img) && |blocks| == Total(img) && InPlane(img, p) && !Real(img, p)
    ensures Precedes(q, p, img.comps[p.c].h) && InOneMcu(q, p, img.comps[p.c].h, img.comps[p.c].v)
    ensures InPlane(img, q) && Padded(img, blocks, p) == DcOnly(Padded(img, blocks, q)[0])
  {
    hide PaddedWidth, PaddedHeight, RowOf, WidthInBlocks, HeightInBlocks, Neighbour, Padded, ImcuColumns, ImcuRows, Total;
    BlocksOfComponent(img, p.c);
    PlaneSizes(img, p);
    var h, v, w, t := img.comps[p.c].h, img.comps[p.c].v, WidthInBlocks(img, p.c), HeightInBlocks(img, p.c);
    NotFirst(p.x, h, ImcuColumns(img), w);
    NotFirst(p.y, v, ImcuRows(img), t);
    if p.x % h != 0 {
      q := p.(x := p.x - 1);
      SameUnit(p.x, h);
      if t <= p.y {
        PaddedChain(img, blocks, p);
      } else {
        PaddedRight(img, blocks, p);
      }
    } else {
      q := Place(p.c, p.y - 1, p.x + h - 1);
      SameUnit(p.y, v);
      PaddedBelow(img, blocks, p);
      LastUnit(p.x, h);
    }
  }

  lemma PlaneSizes(img: Image, p: Place)
    requires ImageOk(img) && InPlane(img, p)
    ensures p.x < ImcuColumns(img) * img.comps[p.c].h && p.y < ImcuRows(img) * img.comps[p.c].v
    ensures Real(img, p) <==> p.x < WidthInBlocks(img, p.c) && p.y < HeightInBlocks(img, p.c)
  {
  }

  // Nothing behind the image starts a unit.
  lemma NotFirst(x: nat, h: nat, units: nat, w: nat)
    requires 0 < h && 1 <= units && (units - 1) * h < w && x < units * h
    ensures x >= w ==> x % h != 0
  {
    if x % h == 0 && x >= w {
      assert x == h * (x / h);
      CancelLess(units - 1, x / h, h);
      ProductMonotonic(units, x / h, h);
    }
  }

  lemma SameUnit(x: nat, h: nat)
    requires 0 < h && x % h != 0
    ensures (x - 1) / h == x / h
  {
    DivMod(h, x / h, x % h - 1);
  }

  lemma LastUnit(x: nat, h: nat)
    requires 0 < h && x % h == 0
    ensures LastInMcu(x, h) == x + h - 1 && (x + h - 1) / h == x / h
  {
    assert x == h * (x / h);
    DivMod(h, x / h, h - 1);
  }

  // ----- MCUs -----

  predicate InPlanes(img: Image, places: seq<Place>)
    requires ImageOk(img)
  {
    forall n :: 0 <= n < |places| ==> InPlane(img, places[n])
  }

  function PaddedAll(img: Image, blocks: seq<Block>, places: seq<Place>): (mcu: seq<Block>)
    requires ImageOk(img) && |blocks| == Total(img) && InPlanes(img, places)
    ensures |mcu| == |places| && forall n :: 0 <= n < |places| ==> mcu[n] == Padded(img, blocks, places[n])
  {
    seq(|places|, n requires 0 <= n < |places| => Padded(img, blocks, places[n]))
  }

  lemma PaddedConcat(img: Image, blocks: seq<Block>, a: seq<Place>, b: seq<Place>)
    requires ImageOk(img) && |blocks| == Total(img) && InPlanes(img, a) && InPlanes(img, b)
    ensures InPlanes(img, a + b) && PaddedAll(img, blocks, a + b) == PaddedAll(img, blocks, a) + PaddedAll(img, blocks, b)
  {
    hide InPlane, Padded, ImageOk;
  }

  lemma NoPlaces(img: Image, blocks: seq<Block>, c: nat, y: nat, x: nat)
    requires ImageOk(img) && |blocks| == Total(img)
    ensures InPlanes(img, RowPlaces(c, y, x, 0)) && PaddedAll(img, blocks, RowPlaces(c, y, x, 0)) == []
  {
  }

  lemma PaddedNone(img: Image, blocks: seq<Block>)
    requires ImageOk(img) && |blocks| == Total(img)
    ensures InPlanes(img, []) && PaddedAll(img, blocks, []) == []
  {
  }

  // One block more at the end of a row
  lemma PaddedSnoc(img: Image, blocks: seq<Block>, c: nat, y: nat, x: nat, n: nat)
    requires ImageOk(img) && |blocks| == Total(img) && InPlanes(img, RowPlaces(c, y, x, n)) && InPlane(img, Place(c, y, x + n))
    ensures InPlanes(img, RowPlaces(c, y, x, n + 1))
    ensures PaddedAll(img, blocks, RowPlaces(c, y, x, n + 1))
         == PaddedAll(img, blocks, RowPlaces(c, y, x, n)) + [Padded(img, blocks, Place(c, y, x + n))]
  {
    hide InPlane, Padded, ImageOk;
    var last := [Place(c, y, x + n)];
    assert RowPlaces(c, y, x, n + 1) == RowPlaces(c, y, x, n) + last;
    assert InPlanes(img, last) && PaddedAll(img, blocks, last) == [Padded(img, blocks, last[0])];
    PaddedConcat(img, blocks, RowPlaces(c, y, x, n), last);
  }

  lemma McuInPlanes(img: Image, comps: seq<nat>, k: nat)
    requires ImageOk(img) && ScanComps(img, comps) && k < McuCount(img, comps)
    ensures InPlanes(img, PlacesOf(img, comps, k))
  {
    hide PlacesOf, McuCount, InPlane;
    PlacesInPlane(img, comps, k);
  }

  function Mcu(img: Image, comps: seq<nat>, blocks: seq<Block>, k: nat): (mcu: seq<Block>)
    requires ImageOk(img) && ScanComps(img, comps) && |blocks| == Total(img) && k < McuCount(img, comps)
  {
    McuInPlanes(img, comps, k);
    PaddedAll(img, blocks, PlacesOf(img, comps, k))
  }

  // What a scan sends
  function Mcus(img: Image, comps: seq<nat>, blocks: seq<Block>): (mcus: seq<seq<Block>>)
    requires ImageOk(img) && ScanComps(img, comps) && |blocks| == Total(img)
    ensures |mcus| == McuCount(img, comps)
  {
    seq(McuCount(img, comps), k requires 0 <= k < McuCount(img, comps) => Mcu(img, comps, blocks, k))
  }

  // Component i's blocks in the MCU are in its plane.
  lemma PartInPlanes(img: Image, comps: seq<nat>, i: nat, row: nat, col: nat)
    requires ImageOk(img) && ScanComps(img, comps) && i < |comps|
    requires row < McuRowsInScan(img, comps) && col < McusPerRow(img, comps)
    ensures InPlanes(img, PartPlaces(img, comps, i, row, col, McuHeight(img, comps, i)))
  {
    hide ImageOk, McuHeight, McuWidth, PartPlaces, McusPerRow, McuRowsInScan, InPlane, Real;
    var places := PartPlaces(img, comps, i, row, col, McuHeight(img, comps, i));
    PartContents(img, comps, i, row, col, McuHeight(img, comps, i));
    forall n | 0 <= n < |places|
      ensures InPlane(img, places[n])
    {
      var p := places[n];
      assert p in places;
      Within(row, McuRowsInScan(img, comps), McuHeight(img, comps, i), p.y);
      Within(col, McusPerRow(img, comps), McuWidth(img, comps, i), p.x);
      Extent(img, comps, i, p);
      if Real(img, p) {
        RealInPlane(img, p);
      }
    }
  }

  lemma {:induction false} AllInPlanes(img: Image, comps: seq<nat>, row: nat, col: nat, n: nat)
    requires ImageOk(img) && ScanComps(img, comps) && n <= |comps|
    requires row < McuRowsInScan(img, comps) && col < McusPerRow(img, comps)
    ensures InPlanes(img, Places(img, comps, row, col, n))
  {
    hide ImageOk, McuHeight, McuWidth, PartPlaces, McusPerRow, McuRowsInScan, InPlane;
    if n > 0 {
      AllInPlanes(img, comps, row, col, n - 1);
      PartInPlanes(img, comps, n - 1, row, col);
    }
  }

  // ----- The order of iMCU rows -----

  // MCU rows before iMCU row i
  function FirstRow(img: Image, comps: seq<nat>, i: nat): nat
    requires ImageOk(img) && ScanComps(img, comps)
  {
    if |comps| > 1 then i else Min(FirstOf(i, img.comps[comps[0]].v), HeightInBlocks(img, comps[0]))
  }

  // MCU rows in iMCU row i
  function RowsIn(img: Image, comps: seq<nat>, i: nat): nat
    requires ImageOk(img) && ScanComps(img, comps)
  {
    if |comps| > 1 then 1
    else if i < ImcuRows(img) - 1 then img.comps[comps[0]].v
    else
      BlocksOfComponent(img, comps[0]);
      HeightInBlocks(img, comps[0]) - (ImcuRows(img) - 1) * img.comps[comps[0]].v
  }

  lemma NextRows(img: Image, comps: seq<nat>, i: nat)
    requires ImageOk(img) && ScanComps(img, comps) && i < ImcuRows(img)
    ensures 0 < RowsIn(img, comps, i) && FirstRow(img, comps, i) + RowsIn(img, comps, i) == FirstRow(img, comps, i + 1)
    ensures FirstRow(img, comps, i + 1) <= McuRowsInScan(img, comps)
  {
    hide ImageOk, HeightInBlocks, ImcuRows;
    if |comps| == 1 {
      var c := comps[0];
      BlocksOfComponent(img, c);
      var v := img.comps[c].v;
      Distribute(v, i, 1);
      if i < ImcuRows(img) - 1 {
        ProductMonotonic(i + 1, ImcuRows(img) - 1, v);
      }
    }
  }

  lemma AllRows(img: Image, comps: seq<nat>)
    requires ImageOk(img) && ScanComps(img, comps)
    ensures FirstRow(img, comps, ImcuRows(img)) == McuRowsInScan(img, comps) && FirstRow(img, comps, 0) == 0
  {
    hide ImageOk, HeightInBlocks, ImcuRows;
    BlocksOfComponent(img, comps[0]);
  }

  // A block row of the MCU row is one of the image, if it is in an iMCU row before the last or among
  // the rows left in that one.
  lemma RowIsReal(img: Image, comps: seq<nat>, i: nat, imcu: nat, yoffset: nat, yindex: nat)
    requires ImageOk(img) && ScanComps(img, comps) && i < |comps| && imcu < ImcuRows(img)
    requires yoffset < RowsIn(img, comps, imcu) && yindex < McuHeight(img, comps, i)
    ensures FirstOf(FirstRow(img, comps, imcu) + yoffset, McuHeight(img, comps, i)) + yindex
            == FirstOf(imcu, img.comps[comps[i]].v) + (yoffset + yindex)
    ensures FirstOf(imcu, img.comps[comps[i]].v) + (yoffset + yindex) < HeightInBlocks(img, comps[i])
        <==> imcu < ImcuRows(img) - 1
             || yoffset + yindex < HeightInBlocks(img, comps[i]) - (ImcuRows(img) - 1) * img.comps[comps[i]].v
  {
    hide ImageOk, HeightInBlocks, ImcuRows;
    var c := comps[i];
    var v := img.comps[c].v;
    BlocksOfComponent(img, c);
    Distribute(v, imcu, 1);
    if imcu < ImcuRows(img) - 1 {
      ProductMonotonic(imcu + 1, ImcuRows(img) - 1, v);
    }
    if |comps| == 1 {
      NextRows(img, comps, imcu);
    }
  }

  // Likewise for a column.
  lemma ColumnIsReal(img: Image, comps: seq<nat>, i: nat, col: nat, xindex: nat)
    requires ImageOk(img) && ScanComps(img, comps) && i < |comps| && col < McusPerRow(img, comps)
    requires xindex < McuWidth(img, comps, i)
    ensures FirstOf(col, McuWidth(img, comps, i)) + xindex < WidthInBlocks(img, comps[i])
        <==> col < McusPerRow(img, comps) - 1
             || xindex < WidthInBlocks(img, comps[i]) - (McusPerRow(img, comps) - 1) * McuWidth(img, comps, i)
  {
    hide ImageOk, WidthInBlocks, ImcuColumns;
    var c := comps[i];
    var w := McuWidth(img, comps, i);
    BlocksOfComponent(img, c);
    Distribute(w, col, 1);
    if col < McusPerRow(img, comps) - 1 {
      ProductMonotonic(col + 1, McusPerRow(img, comps) - 1, w);
    }
  }

  // ----- Arithmetic of MCU columns -----

  lemma SameMcu(x: nat, w: nat, k: nat)
    requires k < w && x % w == 0
    ensures LastInMcu(x + k, w) == x + w - 1
  {
    assert x == w * (x / w);
    DivMod(w, x / w, k);
  }

  lemma Multiple(n: nat, w: nat)
    requires 0 < w
    ensures FirstOf(n, w) % w == 0
  {
    DivMod(w, n, 0);
  }

  lemma MoreColumns(m: nat, n: nat, h: nat)
    requires m < n
    ensures m * h + h == (m + 1) * h <= n * h
  {
    ProductMonotonic(m + 1, n, h);
    Distribute(h, m, 1);
  }
}
