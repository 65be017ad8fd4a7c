// The list of pointers to an MCU's blocks in the virtual arrays, which compress_output of jccoefct.c
// and consume_data of jdcoefct.c make alike.
module McuPointers {
  import opened ArithScan
  import opened Geometry
  import opened McuPlaces
  import opened McuPadding

  // The places of block row y that belong to component i in MCU column col
  function RowIn(img: Image, comps: seq<nat>, i: nat, y: nat, col: nat): seq<Place>
    requires ImageOk(img) && ScanComps(img, comps) && i < |comps|
  {
    RowPlaces(comps[i], y, FirstOf(col, McuWidth(img, comps, i)), McuWidth(img, comps, i))
  }

  lemma NoPart(img: Image, comps: seq<nat>, i: nat, row: nat, col: nat)
    requires ImageOk(img) && ScanComps(img, comps) && i < |comps|
    ensures PartPlaces(img, comps, i, row, col, 0) == []
  {
  }

  // The next block row of component i's part
  lemma NextRow(img: Image, comps: seq<nat>, i: nat, row: nat, col: nat, n: nat)
    requires ImageOk(img) && ScanComps(img, comps) && i < |comps| && n < McuHeight(img, comps, i)
    requires InPlanes(img, PartPlaces(img, comps, i, row, col, n + 1))
    ensures var next := RowIn(img, comps, i, FirstOf(row, McuHeight(img, comps, i)) + n, col);
            && PartPlaces(img, comps, i, row, col, n + 1) == PartPlaces(img, comps, i, row, col, n) + next && InPlanes(img, next)
  {
    hide ImageOk, InPlane, McuWidth, McuHeight, RowPlaces;
    var part, next := PartPlaces(img, comps, i, row, col, n), RowIn(img, comps, i, FirstOf(row, McuHeight(img, comps, i)) + n, col);
    forall k | 0 <= k < |next|
      ensures InPlane(img, next[k])
    {
      assert (part + next)[|part| + k] == next[k];
    }
  }

  lemma PartInside(img: Image, comps: seq<nat>, i: nat, row: nat, col: nat, n: nat)
    requires ImageOk(img) && ScanComps(img, comps) && i < |comps| && n <= McuHeight(img, comps, i)
    requires InPlanes(img, PartPlaces(img, comps, i, row, col, McuHeight(img, comps, i)))
    ensures InPlanes(img, PartPlaces(img, comps, i, row, col, n))
  {
    hide ImageOk, InPlane, McuWidth, McuHeight, PartPlaces;
    PartPrefix(img, comps, i, row, col, n, McuHeight(img, comps, i));
  }

  lemma {:induction false} PartPrefix(img: Image, comps: seq<nat>, i: nat, row: nat, col: nat, m: nat, n: nat)
    requires ImageOk(img) && ScanComps(img, comps) && i < |comps| && m <= n
    ensures PartPlaces(img, comps, i, row, col, m) <= PartPlaces(img, comps, i, row, col, n)
  {
    hide ImageOk, McuWidth, McuHeight, RowPlaces;
    if m < n {
      PartPrefix(img, comps, i, row, col, m, n - 1);
    }
  }

  lemma LastOfPart(img: Image, comps: seq<nat>, i: nat, row: nat, col: nat, n: nat)
    requires ImageOk(img) && ScanComps(img, comps) && i < |comps| && 0 < n
    ensures var part := PartPlaces(img, comps, i, row, col, n);
            && 0 < |part|
            && part[|part| - 1] == Place(comps[i], FirstOf(row, McuHeight(img, comps, i)) + (n - 1),
                                         FirstOf(col, McuWidth(img, comps, i)) + McuWidth(img, comps, i) - 1)
  {
    hide ImageOk;
  }

  // ----- Pointers -----

  function RowsOf(img: Image, places: seq<Place>): (rows: seq<nat>)
    requires ImageOk(img) && InPlanes(img, places)
    ensures |rows| == |places|
  {
    seq(|places|, n requires 0 <= n < |places| => RowOf(img, places[n]))
  }

  lemma RowsConcat(img: Image, a: seq<Place>, b: seq<Place>)
    requires ImageOk(img) && InPlanes(img, a) && InPlanes(img, b)
    ensures InPlanes(img, a + b) && RowsOf(img, a + b) == RowsOf(img, a) + RowsOf(img, b)
  {
    hide ImageOk, InPlane, RowOf;
  }

  // Consecutive blocks of a block row are consecutive in the array.
  method PointRow(img: Image, c: nat, y: nat, x: nat, width: nat) returns (rows: seq<nat>)
    requires ImageOk(img) && InPlanes(img, RowPlaces(c, y, x, width)) && 0 < width
    ensures rows == RowsOf(img, RowPlaces(c, y, x, width))
  {
    hide ImageOk, InPlane;
    PlaceInRow(c, y, x, width, 0);
    var bufferPtr := RowOf(img, Place(c, y, x));
    rows := [];
    for xindex := 0 to width
      invariant rows == RowsOf(img, RowPlaces(c, y, x, width))[..xindex]
      invariant bufferPtr == RowOf(img, Place(c, y, x)) + xindex
    {
      PlaceInRow(c, y, x, width, xindex);
      rows := rows + [bufferPtr];
      bufferPtr := bufferPtr + 1;
    }
  }

  method PointPart(img: Image, comps: seq<nat>, p: Part, i: nat, imcu: nat, yoffset: nat, col: nat) returns (rows: seq<nat>)
    requires ImageOk(img) && ScanComps(img, comps) && i < |comps| && PartOk(p, img, comps, i) && imcu < ImcuRows(img)
    requires yoffset < RowsIn(img, comps, imcu)
    requires InPlanes(img, PartPlaces(img, comps, i, FirstRow(img, comps, imcu) + yoffset, col, p.mcuHeight))
    ensures rows == RowsOf(img, PartPlaces(img, comps, i, FirstRow(img, comps, imcu) + yoffset, col, p.mcuHeight))
  {
    hide ImageOk, ScanComps, InPlane, InPlanes, PartPlaces, FirstOf, McuWidth, McuHeight, FirstRow, RowsIn, ImcuRows, RowPlaces,
      PartOk, RowsOf;
    PartSizes(p, img, comps, i);
    rows := [];
    ghost var row := FirstRow(img, comps, imcu) + yoffset;
    PartInside(img, comps, i, row, col, 0);
    NoPart(img, comps, i, row, col);
    assert RowsOf(img, PartPlaces(img, comps, i, row, col, 0)) == [];
    for yindex := 0 to p.mcuHeight
      invariant InPlanes(img, PartPlaces(img, comps, i, row, col, yindex))
      invariant rows == RowsOf(img, PartPlaces(img, comps, i, row, col, yindex))
    {
      PartInside(img, comps, i, row, col, yindex + 1);
      NextRow(img, comps, i, row, col, yindex);
      RowIsReal(img, comps, i, imcu, yoffset, yindex);
      var y := FirstOf(imcu, img.comps[p.comp].v) + (yoffset + yindex);
      var next := PointRow(img, p.comp, y, FirstOf(col, p.mcuWidth), p.mcuWidth);
      RowsConcat(img, PartPlaces(img, comps, i, row, col, yindex), RowIn(img, comps, i, y, col));
      rows := rows + next;
    }
  }

  // All blocks of an MCU, in the order of coding
  method PointMcu(img: Image, comps: seq<nat>, setup: Setup, imcu: nat, yoffset: nat, col: nat) returns (rows: seq<nat>)
    requires ImageOk(img) && ScanComps(img, comps) && Describes(setup, img, comps) && imcu < ImcuRows(img)
    requires yoffset < RowsIn(img, comps, imcu) && col < McusPerRow(img, comps)
    ensures InPlanes(img, Places(img, comps, FirstRow(img, comps, imcu) + yoffset, col, |comps|))
    ensures rows == RowsOf(img, Places(img, comps, FirstRow(img, comps, imcu) + yoffset, col, |comps|))
  {
    hide ImageOk, ScanComps, InPlane, InPlanes, PartPlaces, McuWidth, McuHeight, FirstRow, RowsIn, ImcuRows, PartOk;
    NextRows(img, comps, imcu);
    rows := [];
    ghost var row := FirstRow(img, comps, imcu) + yoffset;
    AllInPlanes(img, comps, row, col, 0);
    for i := 0 to |comps|
      invariant InPlanes(img, Places(img, comps, row, col, i)) && rows == RowsOf(img, Places(img, comps, row, col, i))
    {
      PartInPlanes(img, comps, i, row, col);
      PartSizes(setup.parts[i], img, comps, i);
      var part := PointPart(img, comps, setup.parts[i], i, imcu, yoffset, col);
      RowsConcat(img, Places(img, comps, row, col, i), PartPlaces(img, comps, i, row, col, McuHeight(img, comps, i)));
      rows := rows + part;
    }
  }

  lemma PartSizes(p: Part, img: Image, comps: seq<nat>, i: nat)
    requires ImageOk(img) && ScanComps(img, comps) && i < |comps| && PartOk(p, img, comps, i)
    ensures p.comp == comps[i] < |img.comps| && 0 < p.mcuWidth == McuWidth(img, comps, i) && p.mcuHeight == McuHeight(img, comps, i)
  {
  }

  lemma NextInRow(img: Image, c: nat, y: nat, x: nat, n: nat)
    requires ImageOk(img) && InPlane(img, Place(c, y, x)) && InPlane(img, Place(c, y, x + n))
    ensures RowOf(img, Place(c, y, x + n)) == RowOf(img, Place(c, y, x)) + n
  {
  }

  lemma RowMember(img: Image, blocks: seq<Block>, c: nat, y: nat, x: nat, n: nat, k: nat)
    requires ImageOk(img) && |blocks| == Total(img) && InPlanes(img, RowPlaces(c, y, x, n)) && k < n
    ensures |RowPlaces(c, y, x, n)| == n && InPlane(img, Place(c, y, x + k))
    ensures PaddedAll(img, blocks, RowPlaces(c, y, x, n))[k] == Padded(img, blocks, Place(c, y, x + k))
  {
    hide ImageOk, InPlane, Padded;
    PlaceInRow(c, y, x, n, k);
  }

  lemma PlaceInRow(c: nat, y: nat, x: nat, n: nat, k: nat)
    requires k < n
    ensures |RowPlaces(c, y, x, n)| == n && RowPlaces(c, y, x, n)[k] == Place(c, y, x + k)
  {
  }
}
