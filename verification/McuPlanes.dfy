// The virtual arrays of a compression with several passes: its first pass fills them with the blocks
// of the image and with padding (compress_first_pass of jccoefct.c).
module McuPlanes {
  import opened Arithmetic
  import opened ArithScan
  import opened Geometry
  import opened McuPlaces
  import opened McuPadding
  import opened McuPointers

  // ----- Block rows of a plane -----

  function RowStart(img: Image, c: nat, y: nat): nat
    requires ImageOk(img) && c < |img.comps|
  {
    Base(img, c) + FirstOf(y, PaddedWidth(img, c))
  }

  lemma RowExtent(img: Image, c: nat, y: nat)
    requires ImageOk(img) && c < |img.comps| && y < PaddedHeight(img, c)
    ensures RowStart(img, c, y) + PaddedWidth(img, c) <= Total(img) && 0 < PaddedWidth(img, c)
  {
    hide ImageOk, PaddedWidth, PaddedHeight;
    SomeWidth(img, c);
    RowInside(img, Place(c, y, PaddedWidth(img, c) - 1));
  }

  lemma SomeWidth(img: Image, c: nat)
    requires ImageOk(img) && c < |img.comps|
    ensures 0 < PaddedWidth(img, c)
  {
    hide ImageOk, ImcuColumns, WidthInBlocks;
    BlocksOfComponent(img, c);
  }

  lemma RowBehind(img: Image, c: nat, y: nat)
    requires ImageOk(img) && c < |img.comps| && 0 < y
    ensures RowStart(img, c, y - 1) + PaddedWidth(img, c) == RowStart(img, c, y)
  {
    Distribute(PaddedWidth(img, c), y - 1, 1);
  }

  lemma RowsApart(img: Image, c: nat, y: nat, d: nat, z: nat)
    requires ImageOk(img) && c < |img.comps| && d < |img.comps| && y < PaddedHeight(img, c) && z < PaddedHeight(img, d)
    requires c != d || y != z
    ensures RowStart(img, c, y) + PaddedWidth(img, c) <= RowStart(img, d, z)
         || RowStart(img, d, z) + PaddedWidth(img, d) <= RowStart(img, c, y)
  {
    hide ImageOk, PaddedHeight, PaddedWidth;
    if c < d || (c == d && y < z) {
      RowAfter(img, c, y, d, z);
    } else {
      RowAfter(img, d, z, c, y);
    }
  }

  lemma RowAfter(img: Image, c: nat, y: nat, d: nat, z: nat)
    requires ImageOk(img) && c < |img.comps| && d < |img.comps| && y < PaddedHeight(img, c) && z < PaddedHeight(img, d)
    requires c < d || (c == d && y < z)
    ensures RowStart(img, c, y) + PaddedWidth(img, c) <= RowStart(img, d, z)
  {
    hide ImageOk, PaddedHeight, PaddedWidth;
    var w := PaddedWidth(img, c);
    if c == d {
      Distribute(w, y, 1);
      ProductMonotonic(y + 1, z, w);
    } else {
      SomeWidth(img, c);
      RowInside(img, Place(c, y, w - 1));
      BaseGrows(img, c + 1, d);
      hide Base;
      ProductMonotonic(0, z, PaddedWidth(img, d));
    }
  }

  // The number of dummy blocks that fill the last MCU
  lemma DummyCount(img: Image, c: nat)
    requires ImageOk(img) && c < |img.comps|
    ensures 0 < WidthInBlocks(img, c) && 0 < img.comps[c].h
    ensures var n := WidthInBlocks(img, c) % img.comps[c].h;
            WidthInBlocks(img, c) + (if n > 0 then img.comps[c].h - n else 0) == PaddedWidth(img, c)
  {
    hide WidthInBlocks, ImcuColumns;
    BlocksOfComponent(img, c);
    LastPartIs(WidthInBlocks(img, c), img.comps[c].h, ImcuColumns(img));
    Distribute(img.comps[c].h, ImcuColumns(img) - 1, 1);
  }

  lemma RowInPlane(img: Image, c: nat, y: nat)
    requires ImageOk(img) && c < |img.comps| && y < PaddedHeight(img, c)
    ensures InPlanes(img, RowPlaces(c, y, 0, PaddedWidth(img, c)))
  {
  }

  // What block row y of component c is to hold, padding included
  ghost function PlaneRow(img: Image, blocks: seq<Block>, c: nat, y: nat): (row: seq<Block>)
    requires ImageOk(img) && |blocks| == Total(img) && c < |img.comps| && y < PaddedHeight(img, c)
    ensures |row| == PaddedWidth(img, c)
  {
    RowInPlane(img, c, y);
    PaddedAll(img, blocks, RowPlaces(c, y, 0, PaddedWidth(img, c)))
  }

  function Spliced(whole: seq<Block>, start: nat, row: seq<Block>): seq<Block>
    requires start + |row| <= |whole|
  {
    whole[..start] + row + whole[start + |row|..]
  }

  ghost predicate RowLoaded(img: Image, blocks: seq<Block>, whole: seq<Block>, c: nat, y: nat)
    requires ImageOk(img) && |blocks| == |whole| == Total(img) && c < |img.comps| && y < PaddedHeight(img, c)
  {
    RowExtent(img, c, y);
    whole[RowStart(img, c, y)..RowStart(img, c, y) + PaddedWidth(img, c)] == PlaneRow(img, blocks, c, y)
  }

  // With one more row stored, the other rows are as before.
  ghost predicate RowStored(img: Image, blocks: seq<Block>, was: seq<Block>, now: seq<Block>, c: nat, y: nat)
    requires ImageOk(img) && |blocks| == |was| == Total(img) && c < |img.comps| && y < PaddedHeight(img, c)
  {
    RowExtent(img, c, y);
    now == Spliced(was, RowStart(img, c, y), PlaneRow(img, blocks, c, y))
  }

  lemma StoredLoaded(img: Image, blocks: seq<Block>, was: seq<Block>, now: seq<Block>, c: nat, y: nat)
    requires ImageOk(img) && |blocks| == |was| == Total(img) && c < |img.comps| && y < PaddedHeight(img, c)
    requires RowStored(img, blocks, was, now, c, y)
    ensures |now| == |was| && RowLoaded(img, blocks, now, c, y)
  {
    hide ImageOk, PaddedHeight, PaddedWidth, RowStart, PlaneRow, Total;
    RowExtent(img, c, y);
  }

  lemma RowKept(img: Image, blocks: seq<Block>, was: seq<Block>, now: seq<Block>, c: nat, y: nat, d: nat, z: nat)
    requires ImageOk(img) && |blocks| == |was| == |now| == Total(img) && c < |img.comps| && y < PaddedHeight(img, c)
    requires d < |img.comps| && z < PaddedHeight(img, d) && (c != d || y != z)
    requires RowStored(img, blocks, was, now, c, y) && RowLoaded(img, blocks, was, d, z)
    ensures RowLoaded(img, blocks, now, d, z)
  {
    hide ImageOk, PaddedHeight, PaddedWidth, RowStart, PlaneRow, Total;
    RowExtent(img, c, y);
    RowExtent(img, d, z);
    RowsApart(img, c, y, d, z);
    SplicedElsewhere(was, RowStart(img, c, y), PlaneRow(img, blocks, c, y), RowStart(img, d, z),
      RowStart(img, d, z) + PaddedWidth(img, d));
  }

  lemma SplicedElsewhere(whole: seq<Block>, start: nat, row: seq<Block>, from: nat, to: nat)
    requires start + |row| <= |whole| && from <= to <= |whole| && (to <= start || start + |row| <= from)
    ensures Spliced(whole, start, row)[from..to] == whole[from..to]
  {
  }

  // The rows that have been loaded, by component
  ghost predicate Loaded(img: Image, blocks: seq<Block>, whole: seq<Block>, limit: seq<nat>)
    requires ImageOk(img) && |blocks| == |whole| == Total(img)
  {
    && |limit| == |img.comps|
    && forall c :: 0 <= c < |img.comps| ==>
         limit[c] <= PaddedHeight(img, c) && forall y :: 0 <= y < limit[c] ==> RowLoaded(img, blocks, whole, c, y)
  }

  lemma NextLoaded(img: Image, blocks: seq<Block>, was: seq<Block>, now: seq<Block>, limit: seq<nat>, c: nat)
    requires ImageOk(img) && |blocks| == |was| == Total(img) && Loaded(img, blocks, was, limit)
    requires c < |img.comps| && limit[c] < PaddedHeight(img, c) && RowStored(img, blocks, was, now, c, limit[c])
    ensures |now| == |was| && Loaded(img, blocks, now, limit[c := limit[c] + 1])
  {
    hide ImageOk, PaddedHeight, RowLoaded, RowStored;
    StoredLoaded(img, blocks, was, now, c, limit[c]);
    forall d, y: nat | 0 <= d < |img.comps| && 0 <= y < limit[d]
      ensures RowLoaded(img, blocks, now, d, y)
    {
      RowKept(img, blocks, was, now, c, limit[c], d, y);
    }
  }

  lemma NextLoadedAt(img: Image, blocks: seq<Block>, was: seq<Block>, now: seq<Block>, limit: seq<nat>, c: nat, y: nat)
    requires ImageOk(img) && |blocks| == |was| == Total(img) && c < |img.comps| == |limit| && y < PaddedHeight(img, c)
    requires Loaded(img, blocks, was, limit[c := y]) && RowStored(img, blocks, was, now, c, y)
    ensures |now| == |was| && Loaded(img, blocks, now, limit[c := y + 1])
  {
    hide ImageOk, PaddedHeight, Loaded, RowStored;
    NextLoaded(img, blocks, was, now, limit[c := y], c);
    assert limit[c := y][c := y + 1] == limit[c := y + 1];
  }

  // ----- A row with blocks of the image -----

  method LoadRow(img: Image, dct: seq<Block>, wholeImage: array<Block>, c: nat, y: nat)
    requires ImageOk(img) && |dct| == wholeImage.Length == Total(img) && c < |img.comps|
    requires y < HeightInBlocks(img, c) && y < PaddedHeight(img, c)
    modifies wholeImage
    ensures RowStored(img, dct, old(wholeImage[..]), wholeImage[..], c, y)
  {
    hide ImageOk, WidthInBlocks, HeightInBlocks, PaddedHeight, PaddedWidth, RowStart, PlaneRow, DcOnly, Total;
    RowExtent(img, c, y);
    DummyCount(img, c);
    var start, across, h := RowStart(img, c, y), WidthInBlocks(img, c), img.comps[c].h;
    ghost var was, row := wholeImage[..], PlaneRow(img, dct, c, y);
    var ndummy := across % h;
    if ndummy > 0 {
      ndummy := h - ndummy;
    }
    RealInRow(img, dct, c, y);
    ForwardDct(dct, wholeImage, start, across);
    assert wholeImage[..] == Spliced(was, start, row[..across]);
    LoadDummies(img, dct, wholeImage, c, y, ndummy, was);
    assert row[..across + ndummy] == row;
  }

  // forward_DCT for a whole row
  method ForwardDct(dct: seq<Block>, wholeImage: array<Block>, start: nat, count: nat)
    requires start + count <= |dct| == wholeImage.Length
    modifies wholeImage
    ensures wholeImage[..] == Spliced(old(wholeImage[..]), start, dct[start..start + count])
  {
    for x := 0 to count
      invariant wholeImage[..] == Spliced(old(wholeImage[..]), start, dct[start..start + x])
    {
      wholeImage[start + x] := dct[start + x];
    }
  }

  // Dummy blocks at the right edge of the row
  method LoadDummies(img: Image, dct: seq<Block>, wholeImage: array<Block>, c: nat, y: nat, ndummy: nat, ghost was: seq<Block>)
    requires ImageOk(img) && |dct| == wholeImage.Length == Total(img) && c < |img.comps|
    requires y < HeightInBlocks(img, c) && y < PaddedHeight(img, c) && RowStart(img, c, y) + PaddedWidth(img, c) <= |was| == Total(img)
    requires 0 < WidthInBlocks(img, c) && WidthInBlocks(img, c) + ndummy == PaddedWidth(img, c)
    requires wholeImage[..] == Spliced(was, RowStart(img, c, y), PlaneRow(img, dct, c, y)[..WidthInBlocks(img, c)])
    modifies wholeImage
    ensures wholeImage[..] == Spliced(was, RowStart(img, c, y), PlaneRow(img, dct, c, y)[..WidthInBlocks(img, c) + ndummy])
  {
    hide ImageOk, WidthInBlocks, HeightInBlocks, PaddedHeight, PaddedWidth, RowStart, PlaneRow, DcOnly, Total;
    var start, across := RowStart(img, c, y), WidthInBlocks(img, c);
    ghost var row := PlaneRow(img, dct, c, y);
    var lastDC := wholeImage[start + across - 1][0];
    assert wholeImage[..][start + across - 1] == row[across - 1];
    for bi := 0 to ndummy
      invariant wholeImage[..] == Spliced(was, start, row[..across + bi])
    {
      DummyInRow(img, dct, c, y, across + bi);
      SplicedNext(was, start, row, across + bi);
      wholeImage[start + (across + bi)] := DcOnly(lastDC);
    }
  }

  lemma SplicedNext(was: seq<Block>, start: nat, row: seq<Block>, n: nat)
    requires n < |row| && start + |row| <= |was|
    ensures Spliced(was, start, row[..n + 1]) == Spliced(was, start, row[..n])[start + n := row[n]]
  {
  }

  lemma RealInRow(img: Image, blocks: seq<Block>, c: nat, y: nat)
    requires ImageOk(img) && |blocks| == Total(img) && c < |img.comps| && y < HeightInBlocks(img, c) && y < PaddedHeight(img, c)
    ensures WidthInBlocks(img, c) <= PaddedWidth(img, c) && RowStart(img, c, y) + PaddedWidth(img, c) <= |blocks|
    ensures PlaneRow(img, blocks, c, y)[..WidthInBlocks(img, c)]
         == blocks[RowStart(img, c, y)..RowStart(img, c, y) + WidthInBlocks(img, c)]
  {
    hide ImageOk, WidthInBlocks, HeightInBlocks, PaddedHeight, PaddedWidth, Total, Base, RowPlaces;
    RowExtent(img, c, y);
    DummyCount(img, c);
    RowInPlane(img, c, y);
    forall x: nat | x < WidthInBlocks(img, c)
      ensures PlaneRow(img, blocks, c, y)[x] == blocks[RowStart(img, c, y) + x]
    {
      RealInPlane(img, Place(c, y, x));
      PlaceInRow(c, y, 0, PaddedWidth(img, c), x);
      RowInside(img, Place(c, y, x));
    }
  }

  lemma DummyInRow(img: Image, blocks: seq<Block>, c: nat, y: nat, x: nat)
    requires ImageOk(img) && |blocks| == Total(img) && c < |img.comps| && y < HeightInBlocks(img, c) && y < PaddedHeight(img, c)
    requires WidthInBlocks(img, c) <= x < PaddedWidth(img, c)
    ensures 0 < WidthInBlocks(img, c)
    ensures PlaneRow(img, blocks, c, y)[x] == DcOnly(PlaneRow(img, blocks, c, y)[WidthInBlocks(img, c) - 1][0])
  {
    hide ImageOk, WidthInBlocks, HeightInBlocks, ImcuColumns, PaddedHeight, DcOnly;
    BlocksOfComponent(img, c);
    RowInPlane(img, c, y);
    PlaceInRow(c, y, 0, PaddedWidth(img, c), x);
    PlaceInRow(c, y, 0, PaddedWidth(img, c), WidthInBlocks(img, c) - 1);
  }

  // ----- A row of dummy blocks -----

  // It repeats the last DC value of each MCU in the row above.
  method LoadBottomRow(img: Image, dct: seq<Block>, wholeImage: array<Block>, c: nat, y: nat)
    requires ImageOk(img) && |dct| == wholeImage.Length == Total(img) && c < |img.comps|
    requires HeightInBlocks(img, c) <= y < PaddedHeight(img, c) && 0 < y && RowLoaded(img, dct, wholeImage[..], c, y - 1)
    modifies wholeImage
    ensures RowStored(img, dct, old(wholeImage[..]), wholeImage[..], c, y)
  {
    hide ImageOk, WidthInBlocks, HeightInBlocks, PaddedHeight, PaddedWidth, RowStart, PlaneRow, DcOnly, Total, ImcuColumns, RowLoaded;
    RowExtent(img, c, y);
    var h := img.comps[c].h;
    ghost var was, row := wholeImage[..], PlaneRow(img, dct, c, y);
    assert Spliced(was, RowStart(img, c, y), row[..0]) == was;
    for MCUindex := 0 to ImcuColumns(img)
      invariant 0 <= MCUindex * h <= |row| && wholeImage[..] == Spliced(was, RowStart(img, c, y), row[..MCUindex * h])
    {
      LoadBottomMcu(img, dct, wholeImage, c, y, MCUindex, was);
      MoreColumns(MCUindex, ImcuColumns(img), h);
    }
    WholeRow(img, c);
    assert row[..ImcuColumns(img) * h] == row;
  }

  lemma WholeRow(img: Image, c: nat)
    requires ImageOk(img) && c < |img.comps|
    ensures ImcuColumns(img) * img.comps[c].h == PaddedWidth(img, c)
  {
  }

  method LoadBottomMcu(img: Image, dct: seq<Block>, wholeImage: array<Block>, c: nat, y: nat, m: nat, ghost was: seq<Block>)
    requires ImageOk(img) && |dct| == wholeImage.Length == Total(img) == |was| && c < |img.comps| && m < ImcuColumns(img)
    requires HeightInBlocks(img, c) <= y < PaddedHeight(img, c) && 0 < y && RowLoaded(img, dct, was, c, y - 1)
    requires RowStart(img, c, y) + PaddedWidth(img, c) <= |was| && 0 <= m * img.comps[c].h <= PaddedWidth(img, c)
    requires wholeImage[..] == Spliced(was, RowStart(img, c, y), PlaneRow(img, dct, c, y)[..m * img.comps[c].h])
    modifies wholeImage
    ensures 0 <= m * img.comps[c].h + img.comps[c].h <= PaddedWidth(img, c)
    ensures wholeImage[..] == Spliced(was, RowStart(img, c, y), PlaneRow(img, dct, c, y)[..m * img.comps[c].h + img.comps[c].h])
  {
    hide ImageOk, WidthInBlocks, HeightInBlocks, PaddedHeight, PaddedWidth, RowStart, PlaneRow, DcOnly, Total, ImcuColumns;
    var h := img.comps[c].h;
    var x0: nat := m * h;
    RowBehind(img, c, y);
    BelowInRow(img, dct, c, y, m);
    var start, above := RowStart(img, c, y), RowStart(img, c, y - 1);
    ghost var row, rowAbove := PlaneRow(img, dct, c, y), PlaneRow(img, dct, c, y - 1);
    var lastDC := wholeImage[above + (x0 + h - 1)][0];
    assert was[above..start] == rowAbove;
    assert wholeImage[..][above + (x0 + h - 1)] == was[above + (x0 + h - 1)] == rowAbove[x0 + h - 1];
    for bi := 0 to h
      invariant wholeImage[..] == Spliced(was, start, row[..x0 + bi])
    {
      SplicedNext(was, start, row, x0 + bi);
      wholeImage[start + (x0 + bi)] := DcOnly(lastDC);
    }
  }

  lemma BelowInRow(img: Image, blocks: seq<Block>, c: nat, y: nat, m: nat)
    requires ImageOk(img) && |blocks| == Total(img) && c < |img.comps| && m < ImcuColumns(img)
    requires HeightInBlocks(img, c) <= y < PaddedHeight(img, c) && 0 < y
    ensures var h := img.comps[c].h;
            && 0 < h && 0 <= m * h && m * h + h <= PaddedWidth(img, c)
            && forall bi :: m * h <= bi < m * h + h ==>
                 PlaneRow(img, blocks, c, y)[bi] == DcOnly(PlaneRow(img, blocks, c, y - 1)[m * h + h - 1][0])
  {
    hide WidthInBlocks, HeightInBlocks, ImcuColumns, PaddedHeight, DcOnly, LastInMcu, Padded, InPlane;
    var h := img.comps[c].h;
    var x: nat := FirstOf(m, h);
    MoreColumns(m, ImcuColumns(img), h);
    Multiple(m, h);
    RowInPlane(img, c, y);
    RowInPlane(img, c, y - 1);
    PlaceInRow(c, y - 1, 0, PaddedWidth(img, c), x + h - 1);
    forall bi | m * h <= bi < m * h + h
      ensures PlaneRow(img, blocks, c, y)[bi] == DcOnly(PlaneRow(img, blocks, c, y - 1)[m * h + h - 1][0])
    {
      PlaceInRow(c, y, 0, PaddedWidth(img, c), bi);
      PaddedBelow(img, blocks, Place(c, y, bi));
      SameMcu(x, h, bi - x);
    }
  }

  // ----- An iMCU row -----

  method LoadComponent(img: Image, dct: seq<Block>, wholeImage: array<Block>, imcu: nat, c: nat, ghost limit: seq<nat>)
    requires ImageOk(img) && |dct| == wholeImage.Length == Total(img) && imcu < ImcuRows(img) && c < |img.comps|
    requires |limit| == |img.comps| && limit[c] == FirstOf(imcu, img.comps[c].v) && Loaded(img, dct, wholeImage[..], limit)
    modifies wholeImage
    ensures Loaded(img, dct, wholeImage[..], limit[c := FirstOf(imcu + 1, img.comps[c].v)])
  {
    hide ImageOk, HeightInBlocks, ImcuRows, PaddedHeight, Total, Loaded, RowStored, RowLoaded;
    RowCount(img, c, imcu);
    var v, first, last := img.comps[c].v, FirstOf(imcu, img.comps[c].v), ImcuRows(img) - 1;
    var blockRows := v;
    if imcu == last {
      blockRows := HeightInBlocks(img, c) % v;
      if blockRows == 0 {
        blockRows := v;
      }
    }
    assert limit[c := first] == limit;
    for blockRow := 0 to blockRows
      invariant Loaded(img, dct, wholeImage[..], limit[c := first + blockRow])
    {
      ghost var was := wholeImage[..];
      LoadRow(img, dct, wholeImage, c, first + blockRow);
      NextLoadedAt(img, dct, was, wholeImage[..], limit, c, first + blockRow);
    }
    if imcu == last {
      for blockRow := blockRows to v
        invariant Loaded(img, dct, wholeImage[..], limit[c := first + blockRow])
      {
        ghost var was := wholeImage[..];
        LoadedRow(img, dct, was, limit[c := first + blockRow], c, first + blockRow - 1);
        LoadBottomRow(img, dct, wholeImage, c, first + blockRow);
        NextLoadedAt(img, dct, was, wholeImage[..], limit, c, first + blockRow);
      }
    }
  }

  lemma LoadedRow(img: Image, blocks: seq<Block>, whole: seq<Block>, limit: seq<nat>, c: nat, y: nat)
    requires ImageOk(img) && |blocks| == |whole| == Total(img) && Loaded(img, blocks, whole, limit)
    requires c < |img.comps| && y < limit[c]
    ensures y < PaddedHeight(img, c) && RowLoaded(img, blocks, whole, c, y)
  {
  }

  // The block rows of an iMCU row, and how many of them are in the image
  lemma RowCount(img: Image, c: nat, imcu: nat)
    requires ImageOk(img) && c < |img.comps| && imcu < ImcuRows(img)
    ensures 0 < img.comps[c].v
    ensures FirstOf(imcu, img.comps[c].v) + img.comps[c].v == FirstOf(imcu + 1, img.comps[c].v) <= PaddedHeight(img, c)
    ensures imcu < ImcuRows(img) - 1 ==> FirstOf(imcu + 1, img.comps[c].v) <= HeightInBlocks(img, c)
    ensures imcu == ImcuRows(img) - 1 ==>
              var n := HeightInBlocks(img, c) % img.comps[c].v;
              HeightInBlocks(img, c) == FirstOf(imcu, img.comps[c].v) + if n == 0 then img.comps[c].v else n
  {
    hide HeightInBlocks, ImcuRows;
    var v := img.comps[c].v;
    BlocksOfComponent(img, c);
    LastPartIs(HeightInBlocks(img, c), v, ImcuRows(img));
    Distribute(v, imcu, 1);
    ProductMonotonic(imcu + 1, ImcuRows(img), v);
    if imcu < ImcuRows(img) - 1 {
      ProductMonotonic(imcu + 1, ImcuRows(img) - 1, v);
    }
  }

  // The first so many iMCU rows
  function Limits(img: Image, n: nat): seq<nat> {
    seq(|img.comps|, c requires 0 <= c < |img.comps| => FirstOf(n, img.comps[c].v))
  }

  // compress_first_pass, up to the output: the rows of this iMCU row, of all components
  method LoadImcuRow(img: Image, dct: seq<Block>, wholeImage: array<Block>, imcu: nat)
    requires ImageOk(img) && |dct| == wholeImage.Length == Total(img) && imcu < ImcuRows(img)
    requires Loaded(img, dct, wholeImage[..], Limits(img, imcu))
    modifies wholeImage
    ensures Loaded(img, dct, wholeImage[..], Limits(img, imcu + 1))
  {
    hide ImageOk, Total, ImcuRows, Loaded;
    assert Limits(img, imcu + 1)[..0] + Limits(img, imcu)[0..] == Limits(img, imcu);
    for c := 0 to |img.comps|
      invariant Loaded(img, dct, wholeImage[..], Limits(img, imcu + 1)[..c] + Limits(img, imcu)[c..])
    {
      var limit := Limits(img, imcu + 1)[..c] + Limits(img, imcu)[c..];
      LoadComponent(img, dct, wholeImage, imcu, c, limit);
      assert limit[c := FirstOf(imcu + 1, img.comps[c].v)] == Limits(img, imcu + 1)[..c + 1] + Limits(img, imcu)[c + 1..];
    }
    assert Limits(img, imcu + 1)[..|img.comps|] + Limits(img, imcu)[|img.comps|..] == Limits(img, imcu + 1);
  }

  lemma LoadedLess(img: Image, blocks: seq<Block>, whole: seq<Block>, n: nat)
    requires ImageOk(img) && |blocks| == |whole| == Total(img) && n < ImcuRows(img)
    ensures Loaded(img, blocks, whole, Limits(img, n + 1)) ==> Loaded(img, blocks, whole, Limits(img, n))
  {
    hide ImageOk, ImcuRows, Total, PaddedHeight, RowLoaded;
    forall c | 0 <= c < |img.comps|
      ensures Limits(img, n)[c] <= Limits(img, n + 1)[c]
    {
      RowCount(img, c, n);
    }
  }

  lemma NothingLoaded(img: Image, blocks: seq<Block>, whole: seq<Block>)
    requires ImageOk(img) && |blocks| == |whole| == Total(img)
    ensures Loaded(img, blocks, whole, Limits(img, 0))
  {
  }

  // What has been loaded is there.
  lemma LoadedAt(img: Image, blocks: seq<Block>, whole: seq<Block>, n: nat, p: Place)
    requires ImageOk(img) && |blocks| == |whole| == Total(img) && Loaded(img, blocks, whole, Limits(img, n)) && InPlane(img, p)
    requires p.y < FirstOf(n, img.comps[p.c].v)
    ensures RowOf(img, p) < |whole| && whole[RowOf(img, p)] == Padded(img, blocks, p)
  {
    hide ImageOk, PaddedHeight, PaddedWidth, Total, Padded, Base, RowPlaces;
    LoadedRow(img, blocks, whole, Limits(img, n), p.c, p.y);
    RowInPlane(img, p.c, p.y);
    RowInside(img, p);
    PlaceInRow(p.c, p.y, 0, PaddedWidth(img, p.c), p.x);
    var start, end := RowStart(img, p.c, p.y), RowStart(img, p.c, p.y) + PaddedWidth(img, p.c);
    RowExtent(img, p.c, p.y);
    assert whole[start..end][p.x] == whole[start + p.x];
  }
}
