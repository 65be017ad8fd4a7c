// The coefficient controllers of compression: with one pass or several (jccoefct.c), and of
// transcoding (jctrans.c).
module McuWriter {
  import opened Arithmetic
  import opened ArithScan
  import opened Geometry
  import opened McuPlaces
  import opened McuPadding
  import opened McuPointers
  import opened McuPlanes

  // In the first of several passes the blocks are saved, and in later ones read back. A transcoder
  // has been given them, but no padding.
  datatype PassMode = PassThru | SaveAndPass | CrankDest | Transcode

  // Blocks of a transcoder's MCUs are in the virtual arrays or in the dummy buffer.
  datatype Pointer = InImage(row: nat) | InDummy(n: nat)

  // Each dummy block stands at its own place.
  predicate PointersOk(pointers: seq<Pointer>, size: nat, room: nat) {
    |pointers| <= room && forall n :: 0 <= n < |pointers| ==> PointerOk(pointers[n], n, size)
  }

  predicate PointerOk(p: Pointer, n: nat, size: nat) {
    match p
    case InImage(row) => row < size
    case InDummy(m) => m == n
  }

  function DerefAll(pointers: seq<Pointer>, whole: seq<Block>, dummies: seq<Block>): (mcu: seq<Block>)
    requires PointersOk(pointers, |whole|, |dummies|)
    ensures |mcu| == |pointers|
  {
    seq(|pointers|, n requires 0 <= n < |pointers| =>
      match pointers[n] case InImage(row) => whole[row] case InDummy(m) => dummies[m])
  }

  lemma DerefNext(pointers: seq<Pointer>, p: Pointer, whole: seq<Block>, dummies: seq<Block>)
    requires PointersOk(pointers, |whole|, |dummies|) && |pointers| < |dummies| && PointerOk(p, |pointers|, |whole|)
    ensures PointersOk(pointers + [p], |whole|, |dummies|)
    ensures DerefAll(pointers + [p], whole, dummies)
         == DerefAll(pointers, whole, dummies) + [if p.InImage? then whole[p.row] else dummies[|pointers|]]
  {
  }

  class CoefController {
    const img: Image
    // What the DCT makes of the input
    const dct: seq<Block>
    const wholeImage: array<Block>
    // MCU_buffer of jccoefct.c, dummy_buffer of jctrans.c
    const workspace: array<Block>

    var mode: PassMode
    var comps: seq<nat>
    var setup: Setup
    var iMCURowNum: nat
    var mcuCtr: nat
    var MCUVertOffset: nat
    var MCURowsPerIMCURow: nat

    // The entropy encoder: MCUs taken so far, and how many more it will take
    var sent: seq<seq<Block>>
    var room: nat

    ghost predicate Shape()
      reads `comps, `setup
    {
      && ImageOk(img) && ScanComps(img, comps) && Describes(setup, img, comps)
      && |setup.membership| <= MAX_BLOCKS_IN_MCU == workspace.Length
      && |dct| == wholeImage.Length == Total(img) && workspace != wholeImage
    }

    constructor (img: Image, dct: seq<Block>, given: seq<Block>)
      requires ImageOk(img) && |dct| == |given| == Total(img)
      ensures this.img == img && this.dct == dct && fresh(wholeImage) && fresh(workspace) && wholeImage != workspace
      ensures wholeImage[..] == given && workspace.Length == MAX_BLOCKS_IN_MCU && DummiesOk()
    {
      this.img := img;
      this.dct := dct;
      this.mode := PassThru;
      var whole := new Block[|given|](i requires 0 <= i < |given| => given[i]);
      wholeImage := whole;
      workspace := new Block[MAX_BLOCKS_IN_MCU](i => DcOnly(0));
      new;
      assert wholeImage[..] == given;
    }

    // ----- One MCU, in a single pass -----

    // forward_DCT for count blocks, to the workspace
    method ForwardDct(blkn: nat, c: nat, y: nat, x: nat, count: nat)
      requires Shape() && blkn + count <= workspace.Length
      requires c < |img.comps| && y < HeightInBlocks(img, c) && x + count <= WidthInBlocks(img, c)
      modifies workspace
      ensures InPlanes(img, RowPlaces(c, y, x, count))
      ensures workspace[..blkn + count] == old(workspace[..blkn]) + PaddedAll(img, dct, RowPlaces(c, y, x, count))
    {
      hide ImageOk, WidthInBlocks, HeightInBlocks, ScanComps, Describes, RowOf, InPlane, PaddedAll, RowPlaces;
      ghost var before := workspace[..blkn];
      NoPlaces(img, dct, c, y, x);
      for n := 0 to count
        invariant InPlanes(img, RowPlaces(c, y, x, n))
        invariant workspace[..blkn + n] == before + PaddedAll(img, dct, RowPlaces(c, y, x, n))
      {
        var p := Place(c, y, x + n);
        RealInPlane(img, p);
        RowInside(img, p);
        workspace[blkn + n] := dct[RowOf(img, p)];
        PaddedSnoc(img, dct, c, y, x, n);
      }
    }

    // Dummy blocks at the right edge of the image
    method RightEdge(blkn: nat, c: nat, y: nat, x: nat, blockcnt: nat, width: nat)
      requires Shape() && blkn + width <= workspace.Length && 1 <= blockcnt <= width
      requires c < |img.comps| && y < HeightInBlocks(img, c) && x + blockcnt == WidthInBlocks(img, c)
      requires InPlanes(img, RowPlaces(c, y, x, width)) && InPlanes(img, RowPlaces(c, y, x, blockcnt))
      requires workspace[blkn..blkn + blockcnt] == PaddedAll(img, dct, RowPlaces(c, y, x, blockcnt))
      modifies workspace
      ensures workspace[..blkn + width] == old(workspace[..blkn]) + PaddedAll(img, dct, RowPlaces(c, y, x, width))
    {
      hide ImageOk, WidthInBlocks, HeightInBlocks, ScanComps, Describes, RowOf, InPlane, RowPlaces, Padded, DcOnly, PaddedAll, InPlanes;
      ghost var before := workspace[..blkn];
      for bi := blockcnt to width
        invariant InPlanes(img, RowPlaces(c, y, x, bi))
        invariant workspace[..blkn + bi] == before + PaddedAll(img, dct, RowPlaces(c, y, x, bi))
      {
        ghost var p := Place(c, y, x + bi);
        RowMember(img, dct, c, y, x, width, bi);
        RowMember(img, dct, c, y, x, bi, bi - 1);
        PaddedRight(img, dct, p);
        assert workspace[blkn + bi - 1] == Padded(img, dct, Place(c, y, x + (bi - 1)));
        workspace[blkn + bi] := DcOnly(workspace[blkn + bi - 1][0]);
        PaddedSnoc(img, dct, c, y, x, bi);
      }
    }

    // A row of dummy blocks at the bottom of the image, where the block before is the last one of the
    // MCU in the row above
    method BottomEdge(blkn: nat, c: nat, y: nat, x: nat, width: nat)
      requires Shape() && 0 < blkn && blkn + width <= workspace.Length && c < |img.comps| && HeightInBlocks(img, c) <= y
      requires width == img.comps[c].h && x % width == 0 && InPlanes(img, RowPlaces(c, y, x, width))
      requires InPlane(img, Place(c, y - 1, x + width - 1)) && workspace[blkn - 1] == Padded(img, dct, Place(c, y - 1, x + width - 1))
      modifies workspace
      ensures workspace[..blkn + width] == old(workspace[..blkn]) + PaddedAll(img, dct, RowPlaces(c, y, x, width))
    {
      hide ImageOk, WidthInBlocks, HeightInBlocks, ScanComps, Describes, RowOf, InPlane, RowPlaces, Padded, DcOnly;
      ghost var before := workspace[..blkn];
      NoPlaces(img, dct, c, y, x);
      for bi := 0 to width
        invariant InPlanes(img, RowPlaces(c, y, x, bi))
        invariant workspace[..blkn + bi] == before + PaddedAll(img, dct, RowPlaces(c, y, x, bi))
      {
        ghost var p := Place(c, y, x + bi);
        PlaceInRow(c, y, x, width, bi);
        PaddedBelow(img, dct, p);
        SameMcu(x, width, bi);
        assert workspace[blkn - 1] == before[blkn - 1];
        workspace[blkn + bi] := DcOnly(workspace[blkn - 1][0]);
        PaddedSnoc(img, dct, c, y, x, bi);
      }
    }

    // A block row of component i
    method TransformRow(i: nat, y: nat, col: nat, realRow: bool, blockcnt: nat, blkn: nat)
      requires Shape() && i < |comps| && blkn + McuWidth(img, comps, i) <= workspace.Length
      requires InPlanes(img, RowIn(img, comps, i, y, col)) && (realRow <==> y < HeightInBlocks(img, comps[i]))
      requires RightCount(img, comps, i, col, blockcnt)
      requires !realRow ==> LastAbove(img, dct, comps, i, y, col, workspace[..blkn])
      modifies workspace
      ensures workspace[..blkn + McuWidth(img, comps, i)] == old(workspace[..blkn]) + PaddedAll(img, dct, RowIn(img, comps, i, y, col))
    {
      hide ImageOk, WidthInBlocks, HeightInBlocks, ScanComps, Describes, RowOf, InPlane, RowPlaces, Padded, DcOnly, PaddedAll,
        InPlanes;
      PartSetup(i);
      var c, x, width := comps[i], FirstOf(col, McuWidth(img, comps, i)), setup.parts[i].mcuWidth;
      if realRow {
        ghost var before := workspace[..blkn];
        ForwardDct(blkn, c, y, x, blockcnt);
        if blockcnt < width {
          assert workspace[blkn..blkn + blockcnt] == workspace[..blkn + blockcnt][blkn..];
          assert |before| == blkn;
          RightEdge(blkn, c, y, x, blockcnt, width);
        }
      } else {
        Multiple(col, width);
        BottomEdge(blkn, c, y, x, width);
      }
    }

    // Block row yindex of component i
    method TransformPartRow(i: nat, yoffset: nat, col: nat, yindex: nat, blockcnt: nat, blkn: nat, ghost before: seq<Block>)
      requires Shape() && i < |comps| && iMCURowNum < ImcuRows(img) && yoffset < RowsIn(img, comps, iMCURowNum)
      requires yindex < McuHeight(img, comps, i) && blkn + McuWidth(img, comps, i) <= workspace.Length
      requires InPlanes(img, PartPlaces(img, comps, i, Row(yoffset), col, yindex + 1)) && RightCount(img, comps, i, col, blockcnt)
      requires InPlanes(img, PartPlaces(img, comps, i, Row(yoffset), col, yindex))
      requires workspace[..blkn] == before + PaddedAll(img, dct, PartPlaces(img, comps, i, Row(yoffset), col, yindex))
      modifies workspace
      ensures workspace[..blkn + McuWidth(img, comps, i)]
           == before + PaddedAll(img, dct, PartPlaces(img, comps, i, Row(yoffset), col, yindex + 1))
    {
      hide ImageOk, WidthInBlocks, HeightInBlocks, ScanComps, Describes, RowOf, InPlane, RowPlaces, Padded, DcOnly, PaddedAll,
        InPlanes, McuWidth, McuHeight, RightCount, RowsIn, ImcuRows, FirstOf, PartPlaces, FirstRow;
      PartSetup(i);
      var p := setup.parts[i];
      var realRow := iMCURowNum < ImcuRows(img) - 1 || yoffset + yindex < p.lastRowHeight;
      var y := FirstOf(iMCURowNum, img.comps[p.comp].v) + (yoffset + yindex);
      RowIsReal(img, comps, i, iMCURowNum, yoffset, yindex);
      NextRow(img, comps, i, Row(yoffset), col, yindex);
      if !realRow {
        RowAbove(i, yoffset, col, yindex, workspace[..blkn], before);
      }
      TransformRow(i, y, col, realRow, blockcnt, blkn);
      PaddedConcat(img, dct, PartPlaces(img, comps, i, Row(yoffset), col, yindex), RowIn(img, comps, i, y, col));
    }

    // A row of dummy blocks has one above it in the MCU.
    lemma RowAbove(i: nat, yoffset: nat, col: nat, yindex: nat, built: seq<Block>, before: seq<Block>)
      requires Shape() && i < |comps| && iMCURowNum < ImcuRows(img) && yoffset < RowsIn(img, comps, iMCURowNum)
      requires yindex < McuHeight(img, comps, i)
      requires HeightInBlocks(img, comps[i]) <= FirstOf(iMCURowNum, img.comps[comps[i]].v) + (yoffset + yindex)
      requires InPlanes(img, PartPlaces(img, comps, i, Row(yoffset), col, yindex))
      requires built == before + PaddedAll(img, dct, PartPlaces(img, comps, i, Row(yoffset), col, yindex))
      ensures LastAbove(img, dct, comps, i, FirstOf(iMCURowNum, img.comps[comps[i]].v) + (yoffset + yindex), col, built)
    {
      hide ImageOk, WidthInBlocks, HeightInBlocks, ScanComps, Describes, RowOf, InPlane, RowPlaces, Padded, PartPlaces,
        McuWidth, ImcuRows, FirstOf, RowsIn, FirstRow;
      FirstIsReal(img, comps, i, iMCURowNum, yoffset);
      RowIsReal(img, comps, i, iMCURowNum, yoffset, yindex);
      LastOfPart(img, comps, i, Row(yoffset), col, yindex);
    }

    // All block rows of component i
    method TransformPart(i: nat, yoffset: nat, col: nat, blkn0: nat) returns (blkn: nat)
      requires Shape() && i < |comps| && iMCURowNum < ImcuRows(img)
      requires yoffset < RowsIn(img, comps, iMCURowNum) && col < McusPerRow(img, comps)
      requires blkn0 + McuWidth(img, comps, i) * McuHeight(img, comps, i) <= workspace.Length
      requires InPlanes(img, PartPlaces(img, comps, i, Row(yoffset), col, McuHeight(img, comps, i)))
      modifies workspace
      ensures blkn == blkn0 + McuWidth(img, comps, i) * McuHeight(img, comps, i)
      ensures workspace[..blkn]
           == old(workspace[..blkn0]) + PaddedAll(img, dct, PartPlaces(img, comps, i, Row(yoffset), col, McuHeight(img, comps, i)))
    {
      hide ImageOk, WidthInBlocks, HeightInBlocks, ScanComps, Describes, RowOf, InPlane, RowPlaces, Padded, DcOnly, PaddedAll,
        InPlanes, McuWidth, McuHeight, RightCount, RowsIn, ImcuRows, FirstOf, PartPlaces, FirstRow;
      PartSetup(i);
      var p := setup.parts[i];
      var blockcnt := if col < setup.mcusPerRow - 1 then p.mcuWidth else p.lastColWidth;
      BlockCount(i, col);
      blkn := blkn0;
      ghost var before := workspace[..blkn0];
      EmptyPart(img, dct, comps, i, Row(yoffset), col);
      assert InRows(p.mcuWidth, 0) == 0 && InRows(p.mcuWidth, p.mcuHeight) == p.mcuWidth * p.mcuHeight;
      hide InRows;
      for yindex := 0 to p.mcuHeight
        invariant blkn == blkn0 + InRows(p.mcuWidth, yindex) <= workspace.Length
        invariant InPlanes(img, PartPlaces(img, comps, i, Row(yoffset), col, yindex))
        invariant workspace[..blkn] == before + PaddedAll(img, dct, PartPlaces(img, comps, i, Row(yoffset), col, yindex))
      {
        PartInside(img, comps, i, Row(yoffset), col, yindex + 1);
        MoreBlocks(p.mcuWidth, yindex, p.mcuHeight);
        TransformPartRow(i, yoffset, col, yindex, blockcnt, blkn, before);
        blkn := blkn + p.mcuWidth;
      }
    }

    // What the MCU at this place of the current iMCU row holds
    ghost predicate IsMcu(mcu: seq<Block>, yoffset: nat, col: nat)
      requires Shape()
      reads `comps, `setup, `iMCURowNum
    {
      && InPlanes(img, Places(img, comps, Row(yoffset), col, |comps|))
      && mcu == PaddedAll(img, dct, Places(img, comps, Row(yoffset), col, |comps|))
    }

    // The position is one in the scan.
    ghost predicate Inside(yoffset: nat, col: nat)
      requires Shape()
      reads `comps, `setup, `iMCURowNum
    {
      iMCURowNum < ImcuRows(img) && yoffset < RowsIn(img, comps, iMCURowNum) && col < McusPerRow(img, comps)
    }

    method TransformMcu(yoffset: nat, col: nat) returns (mcu: seq<Block>)
      requires Shape() && Inside(yoffset, col)
      modifies workspace
      ensures IsMcu(mcu, yoffset, col)
    {
      hide ImageOk, ScanComps, Describes, InPlane, PaddedAll, InPlanes, McuWidth, McuHeight, RowsIn, ImcuRows, PartPlaces,
        FirstRow, McusPerRow;
      SetupSizes();
      NextRows(img, comps, iMCURowNum);
      var blkn := 0;
      PaddedNone(img, dct);
      for i := 0 to |comps|
        invariant blkn == |Membership(img, comps, i)| <= workspace.Length
        invariant InPlanes(img, Places(img, comps, Row(yoffset), col, i))
        invariant workspace[..blkn] == PaddedAll(img, dct, Places(img, comps, Row(yoffset), col, i))
      {
        PartInPlanes(img, comps, i, Row(yoffset), col);
        MembershipGrows(img, comps, i + 1, |comps|);
        blkn := TransformPart(i, yoffset, col, blkn);
        PaddedConcat(img, dct, Places(img, comps, Row(yoffset), col, i),
          PartPlaces(img, comps, i, Row(yoffset), col, McuHeight(img, comps, i)));
      }
      mcu := workspace[..blkn];
    }

    lemma SetupSizes()
      requires Shape()
      ensures |Membership(img, comps, |comps|)| <= workspace.Length && setup.mcusPerRow == McusPerRow(img, comps)
    {
    }

    // ----- One MCU, in a transcoder -----

    ghost predicate PointersFit(pointers: seq<Pointer>) {
      PointersOk(pointers, wholeImage.Length, workspace.Length)
    }

    // The blocks that the pointers lead to
    ghost function Pointed(pointers: seq<Pointer>): (mcu: seq<Block>)
      requires PointersFit(pointers)
      reads wholeImage, workspace
      ensures |mcu| == |pointers|
    {
      DerefAll(pointers, wholeImage[..], workspace[..])
    }

    // The dummy blocks have been zeroed, and only their DC values are ever set.
    ghost predicate DummiesOk()
      reads workspace
    {
      forall n :: 0 <= n < workspace.Length ==> workspace[n] == DcOnly(workspace[n][0])
    }

    // The virtual arrays have the image's blocks; what pads them is arbitrary.
    ghost predicate RealBlocks()
      requires ImageOk(img) && |dct| == wholeImage.Length == Total(img)
      reads wholeImage
    {
      SameBlocks(img, dct, wholeImage[..])
    }

    // Pointers to real blocks
    method PointReal(c: nat, y: nat, x: nat, count: nat, before: seq<Pointer>) returns (pointers: seq<Pointer>)
      requires Shape() && PointersFit(before) && |before| + count <= workspace.Length && RealBlocks() && 0 < count
      requires c < |img.comps| && y < HeightInBlocks(img, c) && x + count <= WidthInBlocks(img, c)
      requires InPlanes(img, RowPlaces(c, y, x, count))
      ensures PointersFit(pointers) && Pointed(pointers) == Pointed(before) + PaddedAll(img, dct, RowPlaces(c, y, x, count))
    {
      hide ImageOk, WidthInBlocks, HeightInBlocks, ScanComps, Describes, RowOf, InPlane, RowPlaces, DerefAll, PointersOk, PaddedAll,
        RealBlocks;
      PlaceInRow(c, y, x, count, 0);
      RealRow(c, y, x, count);
      var bufferPtr := RowOf(img, Place(c, y, x));
      ghost var row := PaddedAll(img, dct, RowPlaces(c, y, x, count));
      pointers := before;
      for xindex := 0 to count
        invariant PointersFit(pointers) && |pointers| == |before| + xindex
        invariant bufferPtr == RowOf(img, Place(c, y, x)) + xindex
        invariant Pointed(pointers) == Pointed(before) + row[..xindex]
      {
        DerefNext(pointers, InImage(bufferPtr), wholeImage[..], workspace[..]);
        pointers := pointers + [InImage(bufferPtr)];
        bufferPtr := bufferPtr + 1;
      }
    }

    // Real blocks of a row are one behind the other.
    lemma RealRow(c: nat, y: nat, x: nat, count: nat)
      requires Shape() && RealBlocks() && 0 < count && InPlanes(img, RowPlaces(c, y, x, count)) && InPlane(img, Place(c, y, x))
      requires c < |img.comps| && y < HeightInBlocks(img, c) && x + count <= WidthInBlocks(img, c)
      ensures RowOf(img, Place(c, y, x)) + count <= wholeImage.Length
      ensures forall n :: 0 <= n < count ==>
                wholeImage[RowOf(img, Place(c, y, x)) + n] == PaddedAll(img, dct, RowPlaces(c, y, x, count))[n]
    {
      hide ImageOk, WidthInBlocks, HeightInBlocks, ScanComps, Describes, RowOf, InPlane, RowPlaces;
      PlaceInRow(c, y, x, count, 0);
      forall n | 0 <= n < count
        ensures RowOf(img, Place(c, y, x)) + n < wholeImage.Length
        ensures wholeImage[RowOf(img, Place(c, y, x)) + n] == PaddedAll(img, dct, RowPlaces(c, y, x, count))[n]
      {
        PlaceInRow(c, y, x, count, n);
        NextInRow(img, c, y, x, n);
        RowInside(img, Place(c, y, x + n));
        assert SameBlock(img, dct, wholeImage[..], Place(c, y, x + n));
      }
      PlaceInRow(c, y, x, count, count - 1);
      NextInRow(img, c, y, x, count - 1);
      RowInside(img, Place(c, y, x + (count - 1)));
    }

    // Dummy blocks that each repeat the DC value of the block before
    method PointDummies(count: nat, before: seq<Pointer>, ghost start: seq<Block>, ghost row: seq<Block>)
      returns (pointers: seq<Pointer>)
      requires PointersFit(before) && |before| + count <= workspace.Length && DummiesOk() && workspace != wholeImage
      requires start != [] && |row| == count && Pointed(before) == start && Repeats(row, 0, start[|start| - 1])
      modifies workspace
      ensures PointersFit(pointers) && DummiesOk() && Pointed(pointers) == start + row
    {
      hide DcOnly;
      pointers := before;
      for xindex := 0 to count
        invariant PointersFit(pointers) && |pointers| == |before| + xindex && DummiesOk()
        invariant Pointed(pointers) == start + row[..xindex]
      {
        var blkn, last := |pointers|, pointers[|pointers| - 1];
        ghost var was := Pointed(pointers);
        var dc := (if last.InImage? then wholeImage[last.row] else workspace[last.n])[0];
        assert was[blkn - 1][0] == dc && was[blkn - 1] == if xindex == 0 then start[|start| - 1] else row[xindex - 1];
        DummySet(workspace[blkn], dc);
        workspace[blkn] := workspace[blkn][0 := dc];
        assert Pointed(pointers) == was;
        RepeatsAt(row, 0, start[|start| - 1], xindex, was[blkn - 1]);
        DerefNext(pointers, InDummy(blkn), wholeImage[..], workspace[..]);
        assert start + row[..xindex + 1] == start + row[..xindex] + [row[xindex]];
        pointers := pointers + [InDummy(blkn)];
      }
    }

    // A block row of component i: what is real of it, and dummy blocks for the rest
    method PointRow(i: nat, y: nat, col: nat, realRow: bool, blockcnt: nat, before: seq<Pointer>) returns (pointers: seq<Pointer>)
      requires Shape() && i < |comps| && PointersFit(before) && |before| + McuWidth(img, comps, i) <= workspace.Length
      requires RealBlocks() && DummiesOk() && InPlanes(img, RowIn(img, comps, i, y, col))
      requires (realRow <==> y < HeightInBlocks(img, comps[i])) && RightCount(img, comps, i, col, blockcnt)
      requires !realRow ==> LastAbove(img, dct, comps, i, y, col, Pointed(before))
      modifies workspace
      ensures PointersFit(pointers) && DummiesOk()
      ensures Pointed(pointers) == old(Pointed(before)) + PaddedAll(img, dct, RowIn(img, comps, i, y, col))
    {
      hide ImageOk, WidthInBlocks, HeightInBlocks, ScanComps, Describes, RowOf, InPlane, RowPlaces, Padded, PaddedAll, InPlanes,
        PointersOk, DerefAll, RealBlocks, DummiesOk, Repeats, FirstOf;
      PartSetup(i);
      var c, x, width := comps[i], FirstOf(col, McuWidth(img, comps, i)), setup.parts[i].mcuWidth;
      ghost var row := PaddedAll(img, dct, RowPlaces(c, y, x, width));
      RowValue(img, dct, c, y, x, width, 0);
      if realRow {
        pointers := PointRight(c, y, x, blockcnt, width, before);
      } else {
        Multiple(col, width);
        BottomRow(img, dct, c, y, x, width);
        pointers := PointDummies(width, before, Pointed(before), row);
      }
    }

    method PointRight(c: nat, y: nat, x: nat, blockcnt: nat, width: nat, before: seq<Pointer>) returns (pointers: seq<Pointer>)
      requires Shape() && PointersFit(before) && |before| + width <= workspace.Length && RealBlocks() && DummiesOk()
      requires c < |img.comps| && y < HeightInBlocks(img, c) && InPlanes(img, RowPlaces(c, y, x, width))
      requires 1 <= blockcnt <= width && x + blockcnt <= WidthInBlocks(img, c)
      requires blockcnt < width ==> x + blockcnt == WidthInBlocks(img, c)
      modifies workspace
      ensures PointersFit(pointers) && DummiesOk()
      ensures Pointed(pointers) == old(Pointed(before)) + PaddedAll(img, dct, RowPlaces(c, y, x, width))
    {
      hide ImageOk, WidthInBlocks, HeightInBlocks, ScanComps, Describes, RowOf, InPlane, RowPlaces, Padded, PaddedAll, InPlanes,
        PointersOk, DerefAll, RealBlocks, DummiesOk, Repeats;
      ghost var start, row := Pointed(before), PaddedAll(img, dct, RowPlaces(c, y, x, width));
      RowValue(img, dct, c, y, x, width, 0);
      RightRow(img, dct, c, y, x, blockcnt, width, DcOnly(0));
      pointers := PointReal(c, y, x, blockcnt, before);
      if blockcnt < width {
        // The first dummy block has a real one before it.
        ghost var all := start + row[..blockcnt];
        RepeatsRest(row, blockcnt, DcOnly(0));
        pointers := PointDummies(width - blockcnt, pointers, all, row[blockcnt..]);
        assert all + row[blockcnt..] == start + row;
      } else {
        assert row[..blockcnt] == row;
      }
    }

    // Block row yindex of component i
    method PointPartRow(i: nat, yoffset: nat, col: nat, yindex: nat, blockcnt: nat, before: seq<Pointer>, ghost start: seq<Block>)
      returns (pointers: seq<Pointer>)
      requires Shape() && i < |comps| && iMCURowNum < ImcuRows(img) && yoffset < RowsIn(img, comps, iMCURowNum)
      requires yindex < McuHeight(img, comps, i) && PointersFit(before) && |before| + McuWidth(img, comps, i) <= workspace.Length
      requires RealBlocks() && DummiesOk()
      requires InPlanes(img, PartPlaces(img, comps, i, Row(yoffset), col, yindex + 1)) && RightCount(img, comps, i, col, blockcnt)
      requires InPlanes(img, PartPlaces(img, comps, i, Row(yoffset), col, yindex))
      requires Pointed(before) == start + PaddedAll(img, dct, PartPlaces(img, comps, i, Row(yoffset), col, yindex))
      modifies workspace
      ensures PointersFit(pointers) && DummiesOk()
      ensures Pointed(pointers) == start + PaddedAll(img, dct, PartPlaces(img, comps, i, Row(yoffset), col, yindex + 1))
    {
      hide ImageOk, WidthInBlocks, HeightInBlocks, ScanComps, Describes, RowOf, InPlane, RowPlaces, Padded, DcOnly, PaddedAll,
        InPlanes, McuWidth, McuHeight, RightCount, RowsIn, ImcuRows, FirstOf, PartPlaces, FirstRow, PointersOk, DerefAll,
        RealBlocks, DummiesOk;
      PartSetup(i);
      var p := setup.parts[i];
      var realRow := iMCURowNum < ImcuRows(img) - 1 || yoffset + yindex < p.lastRowHeight;
      var y := FirstOf(iMCURowNum, img.comps[p.comp].v) + (yoffset + yindex);
      RowIsReal(img, comps, i, iMCURowNum, yoffset, yindex);
      NextRow(img, comps, i, Row(yoffset), col, yindex);
      if !realRow {
        RowAbove(i, yoffset, col, yindex, Pointed(before), start);
      }
      pointers := PointRow(i, y, col, realRow, blockcnt, before);
      PaddedConcat(img, dct, PartPlaces(img, comps, i, Row(yoffset), col, yindex), RowIn(img, comps, i, y, col));
    }

    method PointPart(i: nat, yoffset: nat, col: nat, before: seq<Pointer>) returns (pointers: seq<Pointer>)
      requires Shape() && i < |comps| && iMCURowNum < ImcuRows(img) && RealBlocks() && DummiesOk()
      requires yoffset < RowsIn(img, comps, iMCURowNum) && col < McusPerRow(img, comps) && PointersFit(before)
      requires |before| + McuWidth(img, comps, i) * McuHeight(img, comps, i) <= workspace.Length
      requires InPlanes(img, PartPlaces(img, comps, i, Row(yoffset), col, McuHeight(img, comps, i)))
      modifies workspace
      ensures PointersFit(pointers) && DummiesOk() && |pointers| == |before| + McuWidth(img, comps, i) * McuHeight(img, comps, i)
      ensures Pointed(pointers)
           == old(Pointed(before)) + PaddedAll(img, dct, PartPlaces(img, comps, i, Row(yoffset), col, McuHeight(img, comps, i)))
    {
      hide ImageOk, WidthInBlocks, HeightInBlocks, ScanComps, Describes, RowOf, InPlane, RowPlaces, Padded, DcOnly, PaddedAll,
        InPlanes, McuWidth, McuHeight, RightCount, RowsIn, ImcuRows, FirstOf, PartPlaces, FirstRow, PointersOk, DerefAll,
        RealBlocks, DummiesOk;
      PartSetup(i);
      var p := setup.parts[i];
      var blockcnt := if col < setup.mcusPerRow - 1 then p.mcuWidth else p.lastColWidth;
      BlockCount(i, col);
      pointers := before;
      ghost var start := Pointed(before);
      EmptyPart(img, dct, comps, i, Row(yoffset), col);
      assert InRows(p.mcuWidth, 0) == 0 && InRows(p.mcuWidth, p.mcuHeight) == p.mcuWidth * p.mcuHeight;
      hide InRows;
      for yindex := 0 to p.mcuHeight
        invariant PointersFit(pointers) && DummiesOk() && |pointers| == |before| + InRows(p.mcuWidth, yindex)
        invariant InPlanes(img, PartPlaces(img, comps, i, Row(yoffset), col, yindex))
        invariant Pointed(pointers) == start + PaddedAll(img, dct, PartPlaces(img, comps, i, Row(yoffset), col, yindex))
      {
        PartInside(img, comps, i, Row(yoffset), col, yindex + 1);
        MoreBlocks(p.mcuWidth, yindex, p.mcuHeight);
        NextRowSize(img, comps, i, Row(yoffset), col, yindex);
        pointers := PointPartRow(i, yoffset, col, yindex, blockcnt, pointers, start);
      }
    }

    method PointMcu(yoffset: nat, col: nat) returns (pointers: seq<Pointer>)
      requires Shape() && Inside(yoffset, col) && RealBlocks() && DummiesOk()
      modifies workspace
      ensures PointersFit(pointers) && DummiesOk() && IsMcu(Pointed(pointers), yoffset, col)
    {
      hide ImageOk, ScanComps, Describes, InPlane, PaddedAll, InPlanes, McuWidth, McuHeight, RowsIn, ImcuRows, PartPlaces,
        FirstRow, McusPerRow, RealBlocks, DummiesOk;
      SetupSizes();
      NextRows(img, comps, iMCURowNum);
      pointers := [];
      PaddedNone(img, dct);
      for i := 0 to |comps|
        invariant PointersFit(pointers) && DummiesOk() && |pointers| == |Membership(img, comps, i)|
        invariant InPlanes(img, Places(img, comps, Row(yoffset), col, i))
        invariant Pointed(pointers) == PaddedAll(img, dct, Places(img, comps, Row(yoffset), col, i))
      {
        PartInPlanes(img, comps, i, Row(yoffset), col);
        MembershipGrows(img, comps, i + 1, |comps|);
        pointers := PointPart(i, yoffset, col, pointers);
        PaddedConcat(img, dct, Places(img, comps, Row(yoffset), col, i),
          PartPlaces(img, comps, i, Row(yoffset), col, McuHeight(img, comps, i)));
      }
    }

    // ----- Any MCU -----

    // What the virtual arrays hold between calls, and while an iMCU row is sent
    ghost predicate Stored(sending: bool)
      requires Shape()
      reads `comps, `setup, `mode, `iMCURowNum, wholeImage, workspace
    {
      match mode
      case PassThru => true
      case SaveAndPass => Loaded(img, dct, wholeImage[..], Limits(img, if sending then iMCURowNum + 1 else iMCURowNum))
      case CrankDest => Loaded(img, dct, wholeImage[..], Limits(img, ImcuRows(img)))
      case Transcode => RealBlocks() && DummiesOk()
    }

    method MakeMcu(yoffset: nat, col: nat) returns (mcu: seq<Block>)
      requires Shape() && Inside(yoffset, col) && Stored(true)
      modifies workspace
      ensures Stored(true) && IsMcu(mcu, yoffset, col)
    {
      hide ImageOk, ScanComps, Describes, InPlane, PaddedAll, InPlanes, RowsIn, ImcuRows, FirstRow, McusPerRow, RealBlocks,
        DummiesOk, Loaded, Limits, Places;
      match mode
      case PassThru =>
        mcu := TransformMcu(yoffset, col);
      case SaveAndPass =>
        mcu := SavedMcu(yoffset, col, iMCURowNum + 1);
      case CrankDest =>
        mcu := SavedMcu(yoffset, col, ImcuRows(img));
      case Transcode =>
        var pointers := PointMcu(yoffset, col);
        mcu := DerefAll(pointers, wholeImage[..], workspace[..]);
    }

    // compress_output: the blocks of the MCU are read from the virtual arrays.
    method SavedMcu(yoffset: nat, col: nat, ghost loaded: nat) returns (mcu: seq<Block>)
      requires Shape() && Inside(yoffset, col) && iMCURowNum < loaded && Loaded(img, dct, wholeImage[..], Limits(img, loaded))
      ensures IsMcu(mcu, yoffset, col)
    {
      hide ImageOk, ScanComps, Describes, InPlane, RowsIn, ImcuRows, FirstRow, McusPerRow, Loaded, Limits, Places, Padded, RowOf;
      SetupDescribes();
      var rows := McuPointers.PointMcu(img, comps, setup, iMCURowNum, yoffset, col);
      ghost var places := Places(img, comps, Row(yoffset), col, |comps|);
      forall n | 0 <= n < |rows|
        ensures rows[n] < wholeImage.Length && wholeImage[rows[n]] == Padded(img, dct, places[n])
      {
        ImcuRowOf(img, comps, iMCURowNum, yoffset, col, places[n]);
        ImcuRowsGrow(iMCURowNum + 1, loaded, img.comps[places[n].c].v);
        LoadedAt(img, dct, wholeImage[..], loaded, places[n]);
      }
      mcu := seq(|rows|, n requires 0 <= n < |rows| && rows[n] < wholeImage.Length reads wholeImage => wholeImage[rows[n]]);
    }

    lemma SetupDescribes()
      requires Shape()
      ensures Describes(setup, img, comps)
    {
    }

    // ----- Sending -----

    // All MCUs before this one have been sent.
    ghost predicate SentTo(yoffset: nat, col: nat)
      requires Shape()
      reads `comps, `setup, `iMCURowNum, `sent
    {
      var k := FirstOf(Row(yoffset), McusPerRow(img, comps)) + col;
      k <= McuCount(img, comps) && sent == Mcus(img, comps, dct)[..k]
    }

    ghost predicate Counters()
      requires Shape()
      reads `comps, `setup, `iMCURowNum, `mcuCtr, `MCUVertOffset, `MCURowsPerIMCURow
    {
      && iMCURowNum <= ImcuRows(img) && MCURowsPerIMCURow == RowsIn(img, comps, iMCURowNum)
      && if iMCURowNum < ImcuRows(img) then MCUVertOffset < MCURowsPerIMCURow && mcuCtr < McusPerRow(img, comps)
         else MCUVertOffset == mcuCtr == 0
    }

    ghost predicate Valid()
      reads this, wholeImage, workspace
    {
      Shape() && Counters() && Stored(false) && SentTo(MCUVertOffset, mcuCtr)
    }

    // encode_mcu, which suspends if there is no room for what it writes
    method EncodeMcu(mcu: seq<Block>) returns (taken: bool)
      modifies `sent, `room
      ensures taken <==> 0 < old(room)
      ensures if taken then sent == old(sent) + [mcu] && room == old(room) - 1 else sent == old(sent) && room == old(room)
    {
      if room == 0 {
        return false;
      }
      sent := sent + [mcu];
      room := room - 1;
      return true;
    }

    method StartImcuRow()
      requires Shape() && iMCURowNum <= ImcuRows(img)
      modifies `MCURowsPerIMCURow, `mcuCtr, `MCUVertOffset
      ensures Counters() && mcuCtr == MCUVertOffset == 0
    {
      hide ImageOk, ImcuRows, HeightInBlocks, WidthInBlocks;
      SomeMcus(img, comps);
      if iMCURowNum < ImcuRows(img) {
        NextRows(img, comps, iMCURowNum);
      }
      PartSetup(0);
      if |comps| > 1 {
        MCURowsPerIMCURow := 1;
      } else if iMCURowNum < ImcuRows(img) - 1 {
        MCURowsPerIMCURow := img.comps[comps[0]].v;
      } else {
        MCURowsPerIMCURow := setup.parts[0].lastRowHeight;
      }
      mcuCtr := 0;
      MCUVertOffset := 0;
    }

    // The next MCU, if it can be sent
    method SendMcu(yoffset: nat, col: nat) returns (taken: bool)
      requires Shape() && Inside(yoffset, col) && Stored(true) && SentTo(yoffset, col)
      modifies workspace, `sent, `room
      ensures Stored(true) && (taken <==> 0 < old(room)) && old(sent) <= sent && |sent| + room == |old(sent)| + old(room)
      ensures SentTo(yoffset, if taken then col + 1 else col)
    {
      hide ImageOk, ScanComps, Describes, RowsIn, ImcuRows, FirstRow, McusPerRow, RealBlocks, DummiesOk, Loaded, Limits, Places,
        PaddedAll, InPlanes, PartPlaces, McuRowsInScan, FirstOf;
      var mcu := MakeMcu(yoffset, col);
      NextRows(img, comps, iMCURowNum);
      McuIndex(img, comps, Row(yoffset), col);
      taken := EncodeMcu(mcu);
    }

    // An MCU row from mcuCtr on
    method SendMcuRow(yoffset: nat) returns (completed: bool)
      requires Shape() && Inside(yoffset, mcuCtr) && Stored(true) && SentTo(yoffset, mcuCtr)
      modifies workspace, `sent, `room, `mcuCtr, `MCUVertOffset
      ensures Stored(true) && old(sent) <= sent && |sent| + room == |old(sent)| + old(room)
      ensures completed ==> mcuCtr == 0 && SentTo(yoffset + 1, 0)
      ensures !completed ==> room == 0 && MCUVertOffset == yoffset && mcuCtr < McusPerRow(img, comps) && SentTo(yoffset, mcuCtr)
    {
      hide ImageOk, ScanComps, Describes, RowsIn, ImcuRows, FirstRow, McusPerRow, RealBlocks, DummiesOk, Loaded, Limits, Mcus,
        McuRowsInScan, McuCount, Stored;
      SetupSizes();
      for col := mcuCtr to setup.mcusPerRow
        invariant Stored(true) && old(sent) <= sent && |sent| + room == |old(sent)| + old(room) && SentTo(yoffset, col)
        invariant mcuCtr == old(mcuCtr)
      {
        var taken := SendMcu(yoffset, col);
        if !taken {
          MCUVertOffset := yoffset;
          mcuCtr := col;
          return false;
        }
      }
      mcuCtr := 0;
      NextStart(Row(yoffset), setup.mcusPerRow);
      return true;
    }

    // compress_data, compress_first_pass or compress_output: send as much of an iMCU row as the encoder
    // takes. A first pass that has been suspended loads the row again.
    method CompressData(space: nat) returns (completed: bool)
      requires Valid() && iMCURowNum < ImcuRows(img)
      modifies wholeImage, workspace, `sent, `room, `iMCURowNum, `mcuCtr, `MCUVertOffset, `MCURowsPerIMCURow
      ensures Valid() && old(sent) <= sent && |sent| <= |old(sent)| + space
      ensures iMCURowNum == if completed then old(iMCURowNum) + 1 else old(iMCURowNum)
      ensures !completed ==> |sent| == |old(sent)| + space
      ensures mode != SaveAndPass ==> wholeImage[..] == old(wholeImage[..])
    {
      hide ImageOk, ScanComps, Describes, RowsIn, ImcuRows, FirstRow, McusPerRow, RealBlocks, DummiesOk, Loaded, Limits, SentTo;
      room := space;
      if mode == SaveAndPass {
        LoadImcuRow(img, dct, wholeImage, iMCURowNum);
      }
      var yoffset: nat := MCUVertOffset;
      while yoffset < MCURowsPerIMCURow
        invariant yoffset <= MCURowsPerIMCURow == RowsIn(img, comps, iMCURowNum) && Stored(true)
        invariant SentTo(yoffset, mcuCtr) && mcuCtr < McusPerRow(img, comps)
        invariant yoffset == MCURowsPerIMCURow ==> mcuCtr == 0
        invariant old(sent) <= sent && |sent| + room == |old(sent)| + space
        invariant iMCURowNum == old(iMCURowNum) && (mode != SaveAndPass ==> wholeImage[..] == old(wholeImage[..]))
      {
        var done := SendMcuRow(yoffset);
        if !done {
          LoadedLess(img, dct, wholeImage[..], iMCURowNum);
          return false;
        }
        SomeMcus(img, comps);
        yoffset := yoffset + 1;
      }
      NextImcuRow();
      return true;
    }

    // Completed the iMCU row, advance counters for the next one
    method NextImcuRow()
      requires Shape() && iMCURowNum < ImcuRows(img) && Stored(true)
      requires SentTo(RowsIn(img, comps, iMCURowNum), 0)
      modifies `iMCURowNum, `mcuCtr, `MCUVertOffset, `MCURowsPerIMCURow
      ensures Valid() && iMCURowNum == old(iMCURowNum) + 1
    {
      hide ImageOk, ScanComps, Describes, RowsIn, ImcuRows, FirstRow, McusPerRow, RealBlocks, DummiesOk, Loaded, Limits, Mcus,
        McuCount;
      NextRows(img, comps, iMCURowNum);
      iMCURowNum := iMCURowNum + 1;
      StartImcuRow();
    }

    // start_pass_coef, behind the setup of the scan
    method StartPass(mode: PassMode, comps: seq<nat>, setup: Setup)
      requires ImageOk(img) && ScanComps(img, comps) && Describes(setup, img, comps)
      requires |setup.membership| <= MAX_BLOCKS_IN_MCU == workspace.Length
      requires |dct| == wholeImage.Length == Total(img) && workspace != wholeImage
      requires mode == CrankDest ==> Loaded(img, dct, wholeImage[..], Limits(img, ImcuRows(img)))
      requires mode == Transcode ==> RealBlocks() && DummiesOk()
      modifies this
      ensures Valid() && this.mode == mode && this.comps == comps && iMCURowNum == 0 && sent == []
    {
      hide ImageOk, ScanComps, Describes, ImcuRows, HeightInBlocks, WidthInBlocks, RealBlocks, DummiesOk, Total;
      this.mode, this.comps, this.setup := mode, comps, setup;
      sent := [];
      iMCURowNum := 0;
      AllRows(img, comps);
      StartImcuRow();
      NothingLoaded(img, dct, wholeImage[..]);
    }

    // When all iMCU rows are completed the scan has been sent.
    lemma Completed()
      requires Valid() && iMCURowNum == ImcuRows(img)
      ensures sent == Mcus(img, comps, dct)
    {
      hide ImageOk, ScanComps, Describes, RowsIn, ImcuRows, McusPerRow, RealBlocks, DummiesOk, Loaded, Limits;
      AllRows(img, comps);
    }

    lemma NotTooMany()
      requires Valid()
      ensures |sent| <= McuCount(img, comps) && sent == Mcus(img, comps, dct)[..|sent|]
    {
    }

    // Compress a scan, with these spaces for output from call to call. It is finished if there are enough
    // calls with any space at all.
    method CompressScan(spaces: seq<nat>) returns (finished: bool)
      requires Valid() && iMCURowNum == 0 && sent == []
      modifies wholeImage, workspace, `sent, `room, `iMCURowNum, `mcuCtr, `MCUVertOffset, `MCURowsPerIMCURow
      ensures Valid() && sent <= Mcus(img, comps, dct)
      ensures finished <==> iMCURowNum == ImcuRows(img)
      ensures finished ==> sent == Mcus(img, comps, dct)
      ensures (forall n :: 0 <= n < |spaces| ==> 0 < spaces[n]) && ImcuRows(img) + McuCount(img, comps) <= |spaces| ==> finished
      ensures mode != SaveAndPass ==> wholeImage[..] == old(wholeImage[..])
    {
      hide ImageOk, ScanComps, ImcuRows, McuCount, Mcus, Valid;
      RowsNotPassed();
      for n := 0 to |spaces|
        invariant Valid() && iMCURowNum <= ImcuRows(img) && (mode != SaveAndPass ==> wholeImage[..] == old(wholeImage[..]))
        invariant (forall j :: 0 <= j < n ==> 0 < spaces[j]) && iMCURowNum < ImcuRows(img) ==> n <= iMCURowNum + |sent|
      {
        if iMCURowNum == ImcuRows(img) {
          break;
        }
        var completed := CompressData(spaces[n]);
        RowsNotPassed();
      }
      NotTooMany();
      finished := iMCURowNum == ImcuRows(img);
      if finished {
        Completed();
      }
    }

    lemma RowsNotPassed()
      requires Valid()
      ensures ImageOk(img) && ScanComps(img, comps) && iMCURowNum <= ImcuRows(img) && |dct| == Total(img)
    {
    }

    // The MCU row at this offset in the current iMCU row
    ghost function Row(yoffset: nat): nat
      requires ImageOk(img) && ScanComps(img, comps)
      reads `comps, `iMCURowNum
    {
      FirstRow(img, comps, iMCURowNum) + yoffset
    }

    lemma BlockCount(i: nat, col: nat)
      requires Shape() && i < |comps| && col < McusPerRow(img, comps)
      ensures var p := setup.parts[i];
              RightCount(img, comps, i, col, if col < setup.mcusPerRow - 1 then p.mcuWidth else p.lastColWidth)
    {
      hide ImageOk, WidthInBlocks, HeightInBlocks, ScanComps, McusPerRow;
      var p := setup.parts[i];
      var w: nat := p.mcuWidth - 1;
      ColumnIsReal(img, comps, i, col, w);
    }

    lemma PartSetup(i: nat)
      requires Shape() && i < |comps|
      ensures PartOk(setup.parts[i], img, comps, i) && setup.mcusPerRow == McusPerRow(img, comps)
      ensures |setup.parts| == |comps| && comps[i] < |img.comps| && setup.parts[i].mcuWidth == McuWidth(img, comps, i)
      ensures setup.parts[i].mcuHeight == McuHeight(img, comps, i) && setup.parts[i].comp == comps[i]
    {
    }
  }

  // What has been built ends with the row of component i above this one; the scan is interleaved.
  ghost predicate LastAbove(img: Image, blocks: seq<Block>, comps: seq<nat>, i: nat, y: nat, col: nat, built: seq<Block>)
    requires ImageOk(img) && |blocks| == Total(img) && ScanComps(img, comps) && i < |comps|
  {
    && |comps| > 1 && built != [] && 0 < y
    && var p := Place(comps[i], y - 1, FirstOf(col, McuWidth(img, comps, i)) + McuWidth(img, comps, i) - 1);
       InPlane(img, p) && built[|built| - 1] == Padded(img, blocks, p)
  }

  lemma RowValue(img: Image, blocks: seq<Block>, c: nat, y: nat, x: nat, width: nat, n: nat)
    requires ImageOk(img) && |blocks| == Total(img) && InPlanes(img, RowPlaces(c, y, x, width)) && n < width
    ensures |PaddedAll(img, blocks, RowPlaces(c, y, x, width))| == width && InPlane(img, Place(c, y, x + n))
    ensures PaddedAll(img, blocks, RowPlaces(c, y, x, width))[n] == Padded(img, blocks, Place(c, y, x + n))
  {
    hide ImageOk, InPlane, Padded;
    PlaceInRow(c, y, x, width, n);
  }

  // A row that is cut off at the right edge
  lemma RightRow(img: Image, blocks: seq<Block>, c: nat, y: nat, x: nat, blockcnt: nat, width: nat, before: Block)
    requires ImageOk(img) && |blocks| == Total(img) && c < |img.comps| && y < HeightInBlocks(img, c)
    requires 1 <= blockcnt <= width && (blockcnt < width ==> x + blockcnt == WidthInBlocks(img, c))
    requires InPlanes(img, RowPlaces(c, y, x, width))
    ensures InPlanes(img, RowPlaces(c, y, x, blockcnt))
    ensures var row := PaddedAll(img, blocks, RowPlaces(c, y, x, width));
            row[..blockcnt] == PaddedAll(img, blocks, RowPlaces(c, y, x, blockcnt)) && Repeats(row, blockcnt, before)
  {
    hide ImageOk, InPlane, Padded, PaddedAll, WidthInBlocks, HeightInBlocks, DcOnly;
    var row := PaddedAll(img, blocks, RowPlaces(c, y, x, width));
    assert RowPlaces(c, y, x, blockcnt) == RowPlaces(c, y, x, width)[..blockcnt];
    PaddedConcat(img, blocks, RowPlaces(c, y, x, width)[..blockcnt], RowPlaces(c, y, x, width)[blockcnt..]);
    assert RowPlaces(c, y, x, width)[..blockcnt] + RowPlaces(c, y, x, width)[blockcnt..] == RowPlaces(c, y, x, width);
    forall n: nat | blockcnt <= n < width
      ensures row[n] == DcOnly(row[n - 1][0])
    {
      RowValue(img, blocks, c, y, x, width, n);
      RowValue(img, blocks, c, y, x, width, n - 1);
      PaddedRight(img, blocks, Place(c, y, x + n));
    }
  }

  // A row below the image
  lemma BottomRow(img: Image, blocks: seq<Block>, c: nat, y: nat, x: nat, width: nat)
    requires ImageOk(img) && |blocks| == Total(img) && c < |img.comps| && HeightInBlocks(img, c) <= y && 0 < y && 0 < width
    requires width == img.comps[c].h && x % width == 0 && InPlanes(img, RowPlaces(c, y, x, width))
    requires InPlane(img, Place(c, y - 1, x + width - 1))
    ensures Repeats(PaddedAll(img, blocks, RowPlaces(c, y, x, width)), 0, Padded(img, blocks, Place(c, y - 1, x + width - 1)))
  {
    hide ImageOk, InPlane, Padded, PaddedAll, RowPlaces, WidthInBlocks, HeightInBlocks, DcOnly, LastInMcu, InPlanes;
    var row := PaddedAll(img, blocks, RowPlaces(c, y, x, width));
    RowValue(img, blocks, c, y, x, width, 0);
    PaddedBelow(img, blocks, Place(c, y, x));
    SameMcu(x, width, 0);
    forall n: nat | 0 < n < width
      ensures row[n] == DcOnly(row[n - 1][0])
    {
      RowValue(img, blocks, c, y, x, width, n);
      RowValue(img, blocks, c, y, x, width, n - 1);
      SameUnit(x, width, n);
      PaddedChain(img, blocks, Place(c, y, x + n));
    }
  }

  lemma RepeatsRest(row: seq<Block>, n: nat, before: Block)
    requires 0 < n < |row| && Repeats(row, n, before)
    ensures Repeats(row[n..], 0, row[n - 1])
  {
    forall k | 0 <= k < |row| - n
      ensures row[n..][k] == DcOnly((if k == 0 then row[n - 1] else row[n..][k - 1])[0])
    {
      RepeatsAt(row, n, before, n + k, row[n + k - 1]);
    }
  }

  lemma SameUnit(x: nat, w: nat, k: nat)
    requires 0 < k < w && x % w == 0
    ensures (x + k) / w == (x + k - 1) / w
  {
    assert x == w * (x / w);
    DivMod(w, x / w, k);
    DivMod(w, x / w, k - 1);
  }

  lemma NextRowSize(img: Image, comps: seq<nat>, i: nat, row: nat, col: nat, n: nat)
    requires ImageOk(img) && ScanComps(img, comps) && i < |comps|
    ensures |PartPlaces(img, comps, i, row, col, n)| == McuWidth(img, comps, i) * n
    ensures |PartPlaces(img, comps, i, row, col, n + 1)| == McuWidth(img, comps, i) * (n + 1)
  {
    PartOfComponent(img, comps, i, row, col, n);
    PartOfComponent(img, comps, i, row, col, n + 1);
  }

  // ----- Whole scans -----

  // Enough calls that make progress
  predicate Steady(img: Image, comps: seq<nat>, spaces: seq<nat>)
    requires ImageOk(img) && ScanComps(img, comps)
  {
    ImcuRows(img) + McuCount(img, comps) <= |spaces| && forall n :: 0 <= n < |spaces| ==> 0 < spaces[n]
  }

  // The calls that a scan needs, if there is always so much space
  function Calls(img: Image, comps: seq<nat>, space: nat): (spaces: seq<nat>)
    requires ImageOk(img) && ScanComps(img, comps) && 0 < space
    ensures Steady(img, comps, spaces)
  {
    seq(ImcuRows(img) + McuCount(img, comps), _ => space)
  }

  method SendScan(coef: CoefController, mode: PassMode, comps: seq<nat>, spaces: seq<nat>) returns (ok: bool, sent: seq<seq<Block>>)
    requires ImageOk(coef.img) && ScanComps(coef.img, comps) && Steady(coef.img, comps, spaces)
    requires |coef.dct| == coef.wholeImage.Length == Total(coef.img) && coef.workspace.Length == MAX_BLOCKS_IN_MCU
    requires coef.wholeImage != coef.workspace
    requires mode == CrankDest ==> Loaded(coef.img, coef.dct, coef.wholeImage[..], Limits(coef.img, ImcuRows(coef.img)))
    requires mode == Transcode ==> coef.RealBlocks() && coef.DummiesOk()
    modifies coef, coef.wholeImage, coef.workspace
    ensures ok <==> |Membership(coef.img, comps, |comps|)| <= MAX_BLOCKS_IN_MCU
    ensures ok ==> sent == Mcus(coef.img, comps, coef.dct)
    ensures ok && mode == SaveAndPass ==>
              Loaded(coef.img, coef.dct, coef.wholeImage[..], Limits(coef.img, ImcuRows(coef.img)))
    ensures mode != SaveAndPass ==> coef.wholeImage[..] == old(coef.wholeImage[..])
  {
    hide ImageOk, ScanComps, ImcuRows, McuCount, Mcus, Membership, Total, Loaded, Limits, CoefController.RealBlocks,
        CoefController.DummiesOk;
    var setup;
    sent := [];
    ok, setup := PerScanSetup(coef.img, comps);
    if ok {
      coef.StartPass(mode, comps, setup);
      var finished := coef.CompressScan(spaces);
      sent := coef.sent;
    }
  }

  // The entropy encoder gets the same MCUs in a single pass, in the first of several passes, in a later
  // one, and from a transcoder that was given the image's blocks and anything for padding, wherever
  // the output is suspended.
  method SendAlike(img: Image, comps: seq<nat>, dct: seq<Block>, given: seq<Block>, spaces: seq<nat>, spacesFirst: seq<nat>,
                   spacesLater: seq<nat>, spacesTranscode: seq<nat>)
    returns (ok: bool, single: seq<seq<Block>>, first: seq<seq<Block>>, later: seq<seq<Block>>, transcoded: seq<seq<Block>>)
    requires ImageOk(img) && ScanComps(img, comps) && |dct| == |given| == Total(img) && SameBlocks(img, dct, given)
    requires Steady(img, comps, spaces) && Steady(img, comps, spacesFirst) && Steady(img, comps, spacesLater)
    requires Steady(img, comps, spacesTranscode)
    ensures ok <==> |Membership(img, comps, |comps|)| <= MAX_BLOCKS_IN_MCU
    ensures ok ==> single == first == later == transcoded == Mcus(img, comps, dct)
  {
    hide ImageOk, ScanComps, ImcuRows, McuCount, Mcus, Membership, Total, Loaded, Limits, Steady;
    first, later, transcoded := [], [], [];
    var coef := new CoefController(img, dct, given);
    ok, single := SendScan(coef, PassThru, comps, spaces);
    if ok {
      coef := new CoefController(img, dct, given);
      ok, first := SendScan(coef, SaveAndPass, comps, spacesFirst);
      ok, later := SendScan(coef, CrankDest, comps, spacesLater);
      coef := new CoefController(img, dct, given);
      ok, transcoded := SendScan(coef, Transcode, comps, spacesTranscode);
    }
  }

  // The same blocks wherever the image has any
  ghost predicate SameBlocks(img: Image, blocks: seq<Block>, given: seq<Block>)
    requires ImageOk(img) && |blocks| == |given| == Total(img)
  {
    forall p :: Real(img, p) && InPlane(img, p) ==> SameBlock(img, blocks, given, p)
  }

  ghost predicate SameBlock(img: Image, blocks: seq<Block>, given: seq<Block>, p: Place)
    requires ImageOk(img) && |blocks| == |given| == Total(img) && InPlane(img, p)
  {
    RowInside(img, p);
    given[RowOf(img, p)] == blocks[RowOf(img, p)]
  }

  lemma EmptyPart(img: Image, blocks: seq<Block>, comps: seq<nat>, i: nat, row: nat, col: nat)
    requires ImageOk(img) && |blocks| == Total(img) && ScanComps(img, comps) && i < |comps|
    ensures InPlanes(img, PartPlaces(img, comps, i, row, col, 0))
    ensures PaddedAll(img, blocks, PartPlaces(img, comps, i, row, col, 0)) == []
  {
  }

  // The blocks of an MCU are in the iMCU row.
  lemma ImcuRowOf(img: Image, comps: seq<nat>, imcu: nat, yoffset: nat, col: nat, p: Place)
    requires ImageOk(img) && ScanComps(img, comps) && imcu < ImcuRows(img) && yoffset < RowsIn(img, comps, imcu)
    requires p in Places(img, comps, FirstRow(img, comps, imcu) + yoffset, col, |comps|)
    ensures p.c < |img.comps| && p.y < FirstOf(imcu + 1, img.comps[p.c].v)
  {
    hide ImageOk, HeightInBlocks, ImcuRows, Places, FirstRow, RowsIn;
    var row := FirstRow(img, comps, imcu) + yoffset;
    PlacesContents(img, comps, row, col, |comps|);
    var i :| 0 <= i < |comps| && InPart(img, comps, i, row, col, McuHeight(img, comps, i), p);
    var yindex: nat := p.y - row * McuHeight(img, comps, i);
    RowIsReal(img, comps, i, imcu, yoffset, yindex);
    Distribute(img.comps[p.c].v, imcu, 1);
    RowsFit(img, comps, i, imcu);
  }

  lemma RowsFit(img: Image, comps: seq<nat>, i: nat, imcu: nat)
    requires ImageOk(img) && ScanComps(img, comps) && i < |comps| && imcu < ImcuRows(img)
    ensures RowsIn(img, comps, imcu) - 1 + McuHeight(img, comps, i) <= img.comps[comps[i]].v
  {
    hide ImageOk, HeightInBlocks, ImcuRows;
    BlocksOfComponent(img, comps[i]);
    Distribute(img.comps[comps[i]].v, ImcuRows(img) - 1, 1);
  }

  lemma NextStart(n: nat, unit: nat)
    ensures FirstOf(n, unit) + unit == FirstOf(n + 1, unit)
  {
    Distribute(unit, n, 1);
  }

  lemma ImcuRowsGrow(m: nat, n: nat, v: nat)
    requires m <= n
    ensures FirstOf(m, v) <= FirstOf(n, v)
  {
    ProductMonotonic(m, n, v);
  }

  // The first block row of an MCU is one of the image.
  lemma FirstIsReal(img: Image, comps: seq<nat>, i: nat, imcu: nat, yoffset: nat)
    requires ImageOk(img) && ScanComps(img, comps) && i < |comps| && imcu < ImcuRows(img)
    requires yoffset < RowsIn(img, comps, imcu)
    ensures FirstOf(imcu, img.comps[comps[i]].v) + yoffset < HeightInBlocks(img, comps[i])
  {
    hide ImageOk, HeightInBlocks, ImcuRows;
    BlocksOfComponent(img, comps[i]);
    RowIsReal(img, comps, i, imcu, yoffset, 0);
  }

  // With a row below the image the scan is interleaved.
  // The blocks in n rows
  function InRows(w: nat, n: nat): nat {
    ProductMonotonic(0, w, n);
    w * n
  }

  lemma MoreBlocks(w: nat, n: nat, h: nat)
    requires n < h
    ensures InRows(w, n) + w == InRows(w, n + 1) <= InRows(w, h) == w * h
  {
    ProductMonotonic(n + 1, h, w);
    Distribute(w, n, 1);
  }

  // From this one on, each block of the row repeats the DC value of the one before.
  predicate Repeats(row: seq<Block>, from: nat, before: Block) {
    forall n :: from <= n < |row| ==> row[n] == DcOnly((if n == 0 then before else row[n - 1])[0])
  }

  lemma RepeatsAt(row: seq<Block>, from: nat, start: Block, n: nat, before: Block)
    requires Repeats(row, from, start) && from <= n < |row| && before == if n == 0 then start else row[n - 1]
    ensures row[n] == DcOnly(before[0])
  {
  }

  lemma DummySet(block: Block, dc: Coef)
    requires block == DcOnly(block[0])
    ensures block[0 := dc] == DcOnly(dc)
  {
  }

  // How many columns of component i's part of the MCU are in the image
  ghost predicate RightCount(img: Image, comps: seq<nat>, i: nat, col: nat, blockcnt: nat)
    requires ImageOk(img) && ScanComps(img, comps) && i < |comps|
  {
    && 1 <= blockcnt <= McuWidth(img, comps, i)
    && FirstOf(col, McuWidth(img, comps, i)) + blockcnt <= WidthInBlocks(img, comps[i])
    && (blockcnt < McuWidth(img, comps, i) ==> FirstOf(col, McuWidth(img, comps, i)) + blockcnt == WidthInBlocks(img, comps[i]))
  }
}
