// The decompressor's input side: MCUs of a scan are decoded into the virtual arrays (jdcoefct.c,
// jdcoefct.h).
module McuReader {
  import opened ArithScan
  import opened PointTransform
  import opened Geometry
  import opened McuPlaces
  import opened McuPadding
  import opened McuPointers
  import opened McuPlanes
  import opened McuWriter

  datatype Consumed = Suspended | RowCompleted | ScanCompleted

  // The first k MCUs are in their rows, and other rows are as before.
  ghost predicate Placed(img: Image, comps: seq<nat>, mcus: seq<seq<Block>>, was: seq<Block>, now: seq<Block>, k: nat)
    requires ImageOk(img) && ScanComps(img, comps) && |mcus| == McuCount(img, comps) && |was| == Total(img) && k <= |mcus|
    requires McusFit(img, comps, mcus)
  {
    && |now| == |was|
    && (forall i :: 0 <= i < k ==> McuStored(img, comps, mcus[i], now, i))
    && forall r :: 0 <= r < |was| && !InMcus(Layout(img, comps), k, r) ==> now[r] == was[r]
  }

  ghost predicate McuStored(img: Image, comps: seq<nat>, mcu: seq<Block>, now: seq<Block>, i: nat)
    requires ImageOk(img) && ScanComps(img, comps) && i < McuCount(img, comps) && |mcu| == |McuRows(img, comps, i)|
    requires |now| == Total(img)
  {
    RowsWithin(img, comps, i);
    forall n :: 0 <= n < |mcu| ==> now[McuRows(img, comps, i)[n]] == mcu[n]
  }

  ghost predicate McusFit(img: Image, comps: seq<nat>, mcus: seq<seq<Block>>)
    requires ImageOk(img) && ScanComps(img, comps)
  {
    |mcus| == McuCount(img, comps) && forall i :: 0 <= i < |mcus| ==> |mcus[i]| == |McuRows(img, comps, i)|
  }

  class InputController {
    const img: Image
    const wholeImage: array<Block>
    var comps: seq<nat>
    var setup: Setup
    var inputImcuRow: nat
    var MCUCtr: nat
    var MCUVertOffset: nat
    var MCURowsPerIMCURow: nat

    // The entropy decoder: the MCUs that it decodes, where it was told to put them, and how many more it
    // finds data for
    var decoded: seq<seq<Block>>
    var asked: seq<seq<nat>>
    var available: nat
    // The arrays at the start of the scan
    ghost var was: seq<Block>

    ghost predicate Shape()
      reads `comps, `setup, `decoded, `was
    {
      && ImageOk(img) && ScanComps(img, comps) && Describes(setup, img, comps)
      && |was| == wholeImage.Length == Total(img) && McusFit(img, comps, decoded)
    }

    ghost function Row(yoffset: nat): nat
      requires ImageOk(img) && ScanComps(img, comps)
      reads `comps, `inputImcuRow
    {
      FirstRow(img, comps, inputImcuRow) + yoffset
    }

    ghost predicate Inside(yoffset: nat, col: nat)
      requires Shape()
      reads `comps, `setup, `decoded, `was, `inputImcuRow
    {
      inputImcuRow < ImcuRows(img) && yoffset < RowsIn(img, comps, inputImcuRow) && col < McusPerRow(img, comps)
    }

    // All MCUs before this one have been decoded.
    ghost predicate DecodedTo(yoffset: nat, col: nat)
      requires Shape()
      reads `comps, `setup, `decoded, `was, `inputImcuRow, `asked, wholeImage
    {
      var k := FirstOf(Row(yoffset), McusPerRow(img, comps)) + col;
      && k <= McuCount(img, comps) && asked == Layout(img, comps)[..k]
      && Placed(img, comps, decoded, was, wholeImage[..], k)
    }

    ghost predicate Counters()
      requires Shape()
      reads `comps, `setup, `decoded, `was, `inputImcuRow, `MCUCtr, `MCUVertOffset, `MCURowsPerIMCURow
    {
      && inputImcuRow <= ImcuRows(img)
      && (inputImcuRow < ImcuRows(img) ==>
            && MCURowsPerIMCURow == RowsIn(img, comps, inputImcuRow)
            && MCUVertOffset < MCURowsPerIMCURow && MCUCtr < McusPerRow(img, comps))
    }

    // Between calls; at the end of the scan the counters are of no use any more.
    ghost predicate Valid()
      reads this, wholeImage
    {
      && Shape() && Counters()
      && if inputImcuRow < ImcuRows(img) then DecodedTo(MCUVertOffset, MCUCtr) else DecodedTo(0, 0)
    }

    // decode_mcu, which suspends if there is no data
    method DecodeMcu(rows: seq<nat>) returns (decodedOne: bool)
      requires |asked| < |decoded| && |rows| == |decoded[|asked|]| && RowsOk(rows, wholeImage.Length) && DistinctRows(rows)
      modifies `asked, `available, wholeImage
      ensures decodedOne <==> 0 < old(available)
      ensures !decodedOne ==> asked == old(asked) && available == old(available) && wholeImage[..] == old(wholeImage[..])
      ensures decodedOne ==> asked == old(asked) + [rows] && available == old(available) - 1
      ensures decodedOne ==> forall n :: 0 <= n < |rows| ==> wholeImage[rows[n]] == decoded[|old(asked)|][n]
      ensures forall r :: 0 <= r < wholeImage.Length && r !in rows ==> wholeImage[r] == old(wholeImage[r])
    {
      if available == 0 {
        return false;
      }
      var mcu := decoded[|asked|];
      for n := 0 to |rows|
        invariant asked == old(asked) && available == old(available)
        invariant forall j :: 0 <= j < n ==> wholeImage[rows[j]] == mcu[j]
        invariant forall r :: 0 <= r < wholeImage.Length && r !in rows ==> wholeImage[r] == old(wholeImage[r])
      {
        wholeImage[rows[n]] := mcu[n];
      }
      asked := asked + [rows];
      available := available - 1;
      return true;
    }

    // start_input_pass, behind the setup of the scan
    method StartInputPass(comps: seq<nat>, setup: Setup, decoded: seq<seq<Block>>)
      requires ImageOk(img) && ScanComps(img, comps) && Describes(setup, img, comps) && McusFit(img, comps, decoded)
      requires wholeImage.Length == Total(img)
      modifies this
      ensures Valid() && inputImcuRow == 0 && asked == [] && was == wholeImage[..]
      ensures this.comps == comps && this.decoded == decoded && inputImcuRow < ImcuRows(img)
    {
      hide ImageOk, ScanComps, Describes, ImcuRows, HeightInBlocks, WidthInBlocks, Total, McusFit;
      this.comps, this.setup, this.decoded := comps, setup, decoded;
      asked := [];
      was := wholeImage[..];
      inputImcuRow := 0;
      AllRows(img, comps);
      SomeMcus(img, comps);
      SomeRows(img);
      StartImcuRow();
      NothingPlaced(img, comps, decoded, was);
    }

    // At the end of the scan all MCUs have been put into their rows.
    lemma Completed()
      requires Valid() && inputImcuRow == ImcuRows(img)
      ensures asked == Layout(img, comps) && Placed(img, comps, decoded, was, wholeImage[..], McuCount(img, comps))
    {
      hide ImageOk, ScanComps, Describes, RowsIn, ImcuRows, McusPerRow, Placed;
      AllRows(img, comps);
    }

    lemma RowsNotPassed()
      requires Valid()
      ensures ImageOk(img) && ScanComps(img, comps) && inputImcuRow <= ImcuRows(img) && |asked| <= McuCount(img, comps)
    {
    }

    // The next MCU, if there is data for it
    method ConsumeMcu(yoffset: nat, col: nat) returns (taken: bool)
      requires Shape() && Inside(yoffset, col) && DecodedTo(yoffset, col)
      modifies `asked, `available, wholeImage
      ensures taken <==> 0 < old(available)
      ensures |old(asked)| <= |asked| && |asked| + available == |old(asked)| + old(available)
      ensures DecodedTo(yoffset, if taken then col + 1 else col)
    {
      hide ImageOk, ScanComps, Describes, RowsIn, ImcuRows, FirstRow, McusPerRow, McuRowsInScan, FirstOf, Total, McuRows, Placed,
        DistinctRows, RowOf, InPlane, Places;
      ghost var k, before := FirstOf(Row(yoffset), McusPerRow(img, comps)) + col, wholeImage[..];
      NextRows(img, comps, inputImcuRow);
      McuIndex(img, comps, Row(yoffset), col);
      var rows := PointMcu(img, comps, setup, inputImcuRow, yoffset, col);
      RowsOfMcu(img, comps, k);
      LayoutSound(img, comps);
      assert rows == McuRows(img, comps, k) == Layout(img, comps)[k];
      taken := DecodeMcu(rows);
      if taken {
        StoredMcu(img, comps, decoded[k], wholeImage[..], k, rows);
        PlacedNext(img, comps, decoded, was, before, wholeImage[..], k);
      }
    }

    // An MCU row from MCU_ctr on
    method ConsumeMcuRow(yoffset: nat) returns (completed: bool)
      requires Shape() && Inside(yoffset, MCUCtr) && DecodedTo(yoffset, MCUCtr)
      modifies `asked, `available, wholeImage, `MCUCtr, `MCUVertOffset
      ensures |old(asked)| <= |asked| && |asked| + available == |old(asked)| + old(available)
      ensures completed ==> MCUCtr == 0 && DecodedTo(yoffset + 1, 0)
      ensures !completed ==> available == 0 && MCUVertOffset == yoffset && MCUCtr < McusPerRow(img, comps) && DecodedTo(yoffset, MCUCtr)
    {
      hide ImageOk, ScanComps, RowsIn, ImcuRows, FirstRow, McusPerRow, McuRowsInScan, McuCount, Total, McuRows, Placed, Layout,
        McusFit;
      for col := MCUCtr to setup.mcusPerRow
        invariant |old(asked)| <= |asked| && |asked| + available == |old(asked)| + old(available)
        invariant DecodedTo(yoffset, col) && MCUCtr == old(MCUCtr)
      {
        var taken := ConsumeMcu(yoffset, col);
        if !taken {
          MCUVertOffset := yoffset;
          MCUCtr := col;
          return false;
        }
      }
      MCUCtr := 0;
      NextStart(Row(yoffset), setup.mcusPerRow);
      return true;
    }

    // consume_data, when the source has data for so many MCUs
    method ConsumeData(data: nat) returns (result: Consumed)
      requires Valid() && inputImcuRow < ImcuRows(img)
      modifies `asked, `available, wholeImage, `MCUCtr, `MCUVertOffset, `inputImcuRow, `MCURowsPerIMCURow
      ensures Valid() && |old(asked)| <= |asked| <= |old(asked)| + data
      ensures result == Suspended ==> inputImcuRow == old(inputImcuRow) && |asked| == |old(asked)| + data
      ensures result != Suspended ==> inputImcuRow == old(inputImcuRow) + 1
      ensures result == ScanCompleted <==> inputImcuRow == ImcuRows(img)
    {
      hide ImageOk, ScanComps, Describes, RowsIn, ImcuRows, FirstRow, McusPerRow, McuRowsInScan, McuCount, DecodedTo, McusFit;
      available := data;
      var yoffset: nat := MCUVertOffset;
      while yoffset < MCURowsPerIMCURow
        invariant yoffset <= MCURowsPerIMCURow == RowsIn(img, comps, inputImcuRow)
        invariant DecodedTo(yoffset, MCUCtr) && MCUCtr < McusPerRow(img, comps)
        invariant yoffset == MCURowsPerIMCURow ==> MCUCtr == 0
        invariant |old(asked)| <= |asked| && |asked| + available == |old(asked)| + data && inputImcuRow == old(inputImcuRow)
      {
        var done := ConsumeMcuRow(yoffset);
        if !done {
          return Suspended;
        }
        SomeMcus(img, comps);
        yoffset := yoffset + 1;
      }
      result := NextImcuRow();
    }

    // Completed the iMCU row, advance counters for the next one
    method NextImcuRow() returns (result: Consumed)
      requires Shape() && inputImcuRow < ImcuRows(img) && DecodedTo(RowsIn(img, comps, inputImcuRow), 0)
      modifies `MCUCtr, `MCUVertOffset, `inputImcuRow, `MCURowsPerIMCURow
      ensures Valid() && inputImcuRow == old(inputImcuRow) + 1 && result != Suspended
      ensures result == ScanCompleted <==> inputImcuRow == ImcuRows(img)
    {
      hide ImageOk, ScanComps, Describes, RowsIn, ImcuRows, FirstRow, McusPerRow, McuRowsInScan, McuCount, McusFit, Placed, Layout;
      NextRows(img, comps, inputImcuRow);
      inputImcuRow := inputImcuRow + 1;
      if inputImcuRow < ImcuRows(img) {
        StartImcuRow();
        return RowCompleted;
      }
      return ScanCompleted;
    }

    method StartImcuRow()
      requires Shape() && inputImcuRow < ImcuRows(img)
      modifies `MCURowsPerIMCURow, `MCUCtr, `MCUVertOffset
      ensures Counters() && MCUCtr == MCUVertOffset == 0
    {
      hide ImageOk, ImcuRows, HeightInBlocks, WidthInBlocks;
      SomeMcus(img, comps);
      NextRows(img, comps, inputImcuRow);
      if |comps| > 1 {
        MCURowsPerIMCURow := 1;
      } else if inputImcuRow < ImcuRows(img) - 1 {
        MCURowsPerIMCURow := img.comps[comps[0]].v;
      } else {
        MCURowsPerIMCURow := setup.parts[0].lastRowHeight;
      }
      MCUCtr := 0;
      MCUVertOffset := 0;
    }
  }

  // ----- Whole scans -----

  lemma McusAreFit(img: Image, comps: seq<nat>, blocks: seq<Block>)
    requires ImageOk(img) && ScanComps(img, comps) && |blocks| == Total(img)
    ensures McusFit(img, comps, Mcus(img, comps, blocks))
  {
    hide ImageOk, ScanComps, McuCount, PlacesOf, Total, InPlane;
  }

  // The scan's blocks have arrived at their places, with their padding, and nothing else has changed.
  lemma ArrivedAt(img: Image, comps: seq<nat>, blocks: seq<Block>, was: seq<Block>, now: seq<Block>, p: Place)
    requires ImageOk(img) && ScanComps(img, comps) && |blocks| == |was| == Total(img) && InPlane(img, p)
    requires McusFit(img, comps, Mcus(img, comps, blocks))
    requires Placed(img, comps, Mcus(img, comps, blocks), was, now, McuCount(img, comps))
    ensures RowOf(img, p) < |now| == |was|
    ensures now[RowOf(img, p)] == if InScan(img, comps, p) then Padded(img, blocks, p) else was[RowOf(img, p)]
  {
    hide ImageOk, ScanComps, McuCount, Total, InPlane, InScan, RowOf, Padded, PlacesOf;
    RowInside(img, p);
    LayoutComplete(img, comps, p);
    if InScan(img, comps, p) {
      var k := McuWith(img, comps, p);
      var places := PlacesOf(img, comps, k);
      var n :| 0 <= n < |places| && places[n] == p;
      assert McuStored(img, comps, Mcus(img, comps, blocks)[k], now, k);
      assert McuRows(img, comps, k)[n] == RowOf(img, p);
    }
  }

  // Decode a scan into the arrays, with data for so many MCUs from call to call.
  method ConsumeScan(input: InputController, comps: seq<nat>, mcus: seq<seq<Block>>, supplies: seq<nat>) returns (ok: bool)
    requires ImageOk(input.img) && ScanComps(input.img, comps) && McusFit(input.img, comps, mcus)
    requires input.wholeImage.Length == Total(input.img) && Steady(input.img, comps, supplies)
    modifies input, input.wholeImage
    ensures ok <==> |Membership(input.img, comps, |comps|)| <= MAX_BLOCKS_IN_MCU
    ensures ok ==> input.asked == Layout(input.img, comps)
    ensures ok ==> Placed(input.img, comps, mcus, old(input.wholeImage[..]), input.wholeImage[..], McuCount(input.img, comps))
  {
    hide ImageOk, ScanComps, ImcuRows, McuCount, Membership, Total, McusFit, Layout, Placed;
    var setup;
    ok, setup := PerScanSetup(input.img, comps);
    if !ok {
      return;
    }
    input.StartInputPass(comps, setup, mcus);
    for n := 0 to |supplies|
      invariant input.Valid() && input.inputImcuRow <= ImcuRows(input.img)
      invariant input.comps == comps && input.decoded == mcus && input.was == old(input.wholeImage[..])
      invariant |input.asked| <= McuCount(input.img, comps)
      invariant input.inputImcuRow < ImcuRows(input.img) ==> n <= input.inputImcuRow + |input.asked|
    {
      if input.inputImcuRow == ImcuRows(input.img) {
        break;
      }
      var result := input.ConsumeData(supplies[n]);
      input.RowsNotPassed();
    }
    input.Completed();
  }

  // Sending a scan and storing it, both with any suspensions: its blocks come back to their places.
  method SendAndStore(coef: CoefController, mode: PassMode, input: InputController, comps: seq<nat>, spaces: seq<nat>,
                      supplies: seq<nat>)
    returns (ok: bool)
    requires ImageOk(coef.img) && input.img == coef.img && ScanComps(coef.img, comps)
    requires Steady(coef.img, comps, spaces) && Steady(coef.img, comps, supplies)
    requires |coef.dct| == coef.wholeImage.Length == input.wholeImage.Length == Total(coef.img)
    requires coef.workspace.Length == MAX_BLOCKS_IN_MCU && coef.wholeImage != coef.workspace
    requires input.wholeImage != coef.wholeImage && input.wholeImage != coef.workspace
    requires mode == CrankDest ==> Loaded(coef.img, coef.dct, coef.wholeImage[..], Limits(coef.img, ImcuRows(coef.img)))
    requires mode == Transcode ==> coef.RealBlocks() && coef.DummiesOk()
    modifies coef, coef.wholeImage, coef.workspace, input, input.wholeImage
    ensures ok <==> |Membership(coef.img, comps, |comps|)| <= MAX_BLOCKS_IN_MCU
    ensures ok ==> forall p :: InPlane(coef.img, p) ==>
              && RowOf(coef.img, p) < input.wholeImage.Length
              && input.wholeImage[RowOf(coef.img, p)]
                 == if InScan(coef.img, comps, p) then Padded(coef.img, coef.dct, p) else old(input.wholeImage[..])[RowOf(coef.img, p)]
  {
    hide ImageOk, ScanComps, ImcuRows, McuCount, Membership, Total, McusFit, Layout, Placed, Mcus, Loaded, Limits, InPlane, RowOf,
      InScan, Padded, Steady, CoefController.RealBlocks, CoefController.DummiesOk;
    ghost var was := input.wholeImage[..];
    var sent;
    ok, sent := SendScan(coef, mode, comps, spaces);
    if ok {
      McusAreFit(coef.img, comps, coef.dct);
      ok := ConsumeScan(input, comps, sent, supplies);
      forall p | InPlane(coef.img, p)
        ensures RowOf(coef.img, p) < input.wholeImage.Length
        ensures input.wholeImage[RowOf(coef.img, p)]
             == if InScan(coef.img, comps, p) then Padded(coef.img, coef.dct, p) else was[RowOf(coef.img, p)]
      {
        ArrivedAt(coef.img, comps, coef.dct, was, input.wholeImage[..], p);
      }
    }
  }

  lemma RowsOfMcu(img: Image, comps: seq<nat>, k: nat)
    requires ImageOk(img) && ScanComps(img, comps) && k < McuCount(img, comps)
    ensures InPlanes(img, PlacesOf(img, comps, k)) && McuRows(img, comps, k) == RowsOf(img, PlacesOf(img, comps, k))
  {
    hide ImageOk, ScanComps, McuCount, PlacesOf, InPlane;
    PlacesInPlane(img, comps, k);
  }

  lemma NothingPlaced(img: Image, comps: seq<nat>, mcus: seq<seq<Block>>, was: seq<Block>)
    requires ImageOk(img) && ScanComps(img, comps) && McusFit(img, comps, mcus) && |was| == Total(img)
    ensures Placed(img, comps, mcus, was, was, 0)
  {
    hide ImageOk, ScanComps, McuCount, Total;
  }

  lemma StoredMcu(img: Image, comps: seq<nat>, mcu: seq<Block>, now: seq<Block>, k: nat, rows: seq<nat>)
    requires ImageOk(img) && ScanComps(img, comps) && k < McuCount(img, comps) && |now| == Total(img)
    requires rows == McuRows(img, comps, k) && |mcu| == |rows| && RowsOk(rows, |now|)
    requires forall n :: 0 <= n < |rows| ==> now[rows[n]] == mcu[n]
    ensures McuStored(img, comps, mcu, now, k)
  {
    hide ImageOk, ScanComps, McuCount, Total, McuRows;
  }

  // With one MCU more in its rows
  lemma PlacedNext(img: Image, comps: seq<nat>, mcus: seq<seq<Block>>, was: seq<Block>, before: seq<Block>, now: seq<Block>, k: nat)
    requires ImageOk(img) && ScanComps(img, comps) && McusFit(img, comps, mcus) && |was| == Total(img) && k < |mcus|
    requires Placed(img, comps, mcus, was, before, k) && |now| == |before| && McuStored(img, comps, mcus[k], now, k)
    requires forall r :: 0 <= r < |now| && r !in McuRows(img, comps, k) ==> now[r] == before[r]
    ensures Placed(img, comps, mcus, was, now, k + 1)
  {
    hide ImageOk, ScanComps, McuCount, Total, McuRows;
    forall i | 0 <= i < k
      ensures McuStored(img, comps, mcus[i], now, i)
    {
      assert McuStored(img, comps, mcus[i], before, i);
      RowsWithin(img, comps, i);
      forall n | 0 <= n < |mcus[i]|
        ensures now[McuRows(img, comps, i)[n]] == mcus[i][n]
      {
        if McuRows(img, comps, i)[n] in McuRows(img, comps, k) {
          var m :| 0 <= m < |McuRows(img, comps, k)| && McuRows(img, comps, k)[m] == McuRows(img, comps, i)[n];
          RowDetermines(img, comps, i, n, k, m);
        }
      }
    }
    forall r | 0 <= r < |was| && !InMcus(Layout(img, comps), k + 1, r)
      ensures now[r] == was[r]
    {
      assert Layout(img, comps)[k] == McuRows(img, comps, k);
    }
  }
}
