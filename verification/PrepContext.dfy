// Context rows in the compressor's preprocessing controller: three row groups in a ring (jcprepct.c).
module PrepContext {
  import opened Arithmetic

  // Rows on offer, and row groups wanted
  datatype Call = Call(rows: nat, groups: nat)

  class PrepController {
    // max_v_samp_factor, the height of a row group, and the height of the image
    const g: nat
    const height: nat
    // Sample rows by number, in the buffer of three row groups
    const trueBuffer: array<int>
    // Pointers to its rows, with one row group more on either side
    const fakeBuffer: array<nat>

    var rowsToGo: nat
    var nextBufRow: nat
    var thisRowGroup: nat
    var nextBufStop: nat

    // What the downsampler has seen: row groups with the ones above and below
    var output: seq<seq<int>>

    // Rows stored so far, those that repeat the last one included
    ghost var stored: nat

    ghost predicate Shape()
      reads fakeBuffer
    {
      && 0 < g && 0 < height && trueBuffer.Length == 3 * g && fakeBuffer.Length == 5 * g
      && forall i :: 0 <= i < 5 * g ==> fakeBuffer[i] == Slot(i - g)
    }

    // The place in the ring of a row that is counted without end
    function Slot(x: int): (s: nat)
      requires 0 < g
      ensures s < 3 * g
    {
      x % (3 * g)
    }

    // The image's row x, with the first and the last one repeated
    function Clamped(x: int): int {
      if x < 0 then 0 else if x < height then x else height - 1
    }

    lemma SlotIs(q: int, r: nat)
      requires 0 < g && r < 3 * g
      ensures Slot(3 * g * q + r) == r
    {
      DivMod(3 * g, q, r);
    }

    // Rows of three row groups have places of their own.
    lemma SlotsDiffer(x: int, y: int)
      requires 0 < g && x < y < x + 3 * g
      ensures Slot(x) != Slot(y)
    {
      var m := 3 * g;
      if Slot(x) == Slot(y) {
        assert x == m * (x / m) + Slot(x) && y == m * (y / m) + Slot(y);
        MulGap(m, x / m, y / m);
      }
    }

    lemma SlotShift(x: int, y: int, d: int)
      requires 0 < g && Slot(x) == Slot(y)
      ensures Slot(x + d) == Slot(y + d)
    {
      var m := 3 * g;
      SameRemainder(m, x / m, Slot(x) + d);
      SameRemainder(m, y / m, Slot(y) + d);
      assert x + d == m * (x / m) + (Slot(x) + d) && y + d == m * (y / m) + (Slot(y) + d);
    }

    // First row of row group n
    function GroupStart(n: nat): nat {
      NotNegative(n, g);
      n * g
    }

    lemma NextStart(n: nat)
      ensures GroupStart(n + 1) == GroupStart(n) + g
    {
      Distribute(g, n, 1);
    }

    // In the ring a row group is not divided.
    lemma GroupSlot(n: nat, d: nat)
      requires 0 < g && d < g
      ensures Slot(GroupStart(n) + d) == Slot(GroupStart(n)) + d
    {
      var q, r := n / 3, n % 3;
      assert n == 3 * q + r;
      GroupSplit(q, r);
      assert r * g == (if r == 0 then 0 else if r == 1 then g else 2 * g);
      SlotIs(q, r * g);
      SlotIs(q, r * g + d);
    }

    lemma GroupSplit(q: nat, r: nat)
      ensures GroupStart(3 * q + r) == 3 * g * q + r * g
    {
      Distribute(g, 3 * q, r);
    }

    // jinit_c_prep_controller and create_context_buffer
    constructor (rgroupHeight: nat, imageHeight: nat)
      requires 0 < rgroupHeight && 0 < imageHeight
      ensures g == rgroupHeight && height == imageHeight && Shape() && fresh(trueBuffer) && fresh(fakeBuffer)
      ensures trueBuffer != fakeBuffer as object
    {
      g, height := rgroupHeight, imageHeight;
      trueBuffer := new int[3 * rgroupHeight](_ => 0);
      var fake := new nat[5 * rgroupHeight](_ => 0);
      fakeBuffer := fake;
      rowsToGo, nextBufRow, thisRowGroup, nextBufStop, output := 0, 0, 0, 0, [];
      new;
      for i := 0 to 3 * g
        invariant forall k :: g <= k < g + i ==> fake[k] == Slot(k - g)
      {
        SlotIs(0, i);
        fake[g + i] := i;
      }
      for i := 0 to g
        invariant forall k :: g <= k < 4 * g ==> fake[k] == Slot(k - g)
        invariant forall k :: 0 <= k < i ==> fake[k] == Slot(k - g)
        invariant forall k :: 4 * g <= k < 4 * g + i ==> fake[k] == Slot(k - g)
      {
        SlotIs(-1, 2 * g + i);
        SlotIs(1, i);
        fake[i] := 2 * g + i;
        fake[4 * g + i] := i;
      }
    }

    // The ring has these rows.
    ghost predicate Holding(ring: seq<int>, lo: int, hi: int)
      requires 0 < g && |ring| == 3 * g
    {
      forall x :: lo <= x < hi ==> ring[Slot(x)] == Clamped(x)
    }

    lemma StoredAbove(ring: seq<int>, lo: int, hi: int)
      requires 0 < g && |ring| == 3 * g && Holding(ring, lo, hi) && hi < lo + 3 * g
      ensures Holding(ring[Slot(hi) := Clamped(hi)], lo, hi + 1)
    {
      hide Slot, Clamped;
      forall x | lo <= x < hi
        ensures Slot(x) != Slot(hi)
      {
        SlotsDiffer(x, hi);
      }
    }

    lemma StoredBelow(ring: seq<int>, lo: int, hi: int)
      requires 0 < g && |ring| == 3 * g && Holding(ring, lo, hi) && hi < lo + 3 * g
      ensures Holding(ring[Slot(lo - 1) := Clamped(lo - 1)], lo - 1, hi)
    {
      hide Slot, Clamped;
      forall x | lo <= x < hi
        ensures Slot(x) != Slot(lo - 1)
      {
        SlotsDiffer(lo - 1, x);
      }
    }

    // What the downsampler is to see of row group n
    ghost predicate Right(view: seq<int>, n: nat) {
      |view| == 3 * g && forall j :: 0 <= j < 3 * g ==> view[j] == Clamped(GroupStart(n) + j - g)
    }

    ghost predicate Valid()
      reads this, trueBuffer, fakeBuffer
    {
      var n := |output|;
      && Shape() && rowsToGo == (if stored < height then height - stored else 0)
      && (if n == 0 then 0 <= stored else GroupStart(n + 1) <= stored) && stored < GroupStart(n + 1) + g
      && nextBufRow == Slot(stored) && thisRowGroup == Slot(GroupStart(n)) && nextBufStop == Slot(GroupStart(n + 1)) + g
      && (0 < stored ==> Holding(trueBuffer[..], GroupStart(n) - g, stored)) && forall k :: 0 <= k < n ==> Right(output[k], k)
    }

    // start_pass_prep
    method StartPass()
      requires Shape()
      modifies this
      ensures Valid() && output == [] && stored == 0 && rowsToGo == height
    {
      rowsToGo, nextBufRow, thisRowGroup, nextBufStop, output, stored := height, 0, 0, 2 * g, [], 0;
      GroupSlot(0, 0);
      NextStart(0);
      SlotIs(0, 0);
      SlotIs(0, g);
    }

    // Row i of the conversion buffer, which has one row group more on either side
    function Pointer(i: int): (p: nat)
      requires -(g as int) <= i < 4 * g && fakeBuffer.Length == 5 * g
      reads fakeBuffer
    {
      fakeBuffer[g + i]
    }

    // color_convert, for rows that follow the ones stored
    method ColorConvert(numrows: nat, ghost lo: int)
      requires Shape() && nextBufRow == Slot(stored) && nextBufRow + numrows <= 3 * g && rowsToGo <= height
      requires stored == height - rowsToGo && stored + numrows <= height
      requires lo <= stored && stored + numrows <= lo + 3 * g && Holding(trueBuffer[..], lo, stored)
      modifies trueBuffer, `stored
      ensures Shape() && stored == old(stored) + numrows && Holding(trueBuffer[..], lo, stored)
    {
      hide Slot, Holding;
      for i := 0 to numrows
        invariant stored == old(stored) + i && Shape() && Holding(trueBuffer[..], lo, stored)
      {
        InGroup(old(stored), i, nextBufRow);
        StoredAbove(trueBuffer[..], lo, stored);
        trueBuffer[Pointer(nextBufRow + i)] := (height - rowsToGo) + i;
        stored := stored + 1;
      }
    }

    // Rows that follow one another, up to the end of the ring
    lemma InGroup(x: int, d: nat, s: nat)
      requires 0 < g && s == Slot(x) && s + d < 3 * g
      ensures Slot(x + d) == s + d && Slot(s + d) == s + d
    {
      var m := 3 * g;
      assert x == m * (x / m) + s;
      SlotIs(x / m, s + d);
      SlotIs(0, s + d);
    }

    // The row above the image, as often as a row group has rows
    method PadTop()
      requires Shape() && 0 < stored <= 2 * g && Holding(trueBuffer[..], 0, stored)
      modifies trueBuffer
      ensures Shape() && Holding(trueBuffer[..], -(g as int), stored)
    {
      hide Slot, Holding;
      for row := 1 to g + 1
        invariant Shape() && Holding(trueBuffer[..], 1 - row, stored)
      {
        RowHeld(trueBuffer[..], 1 - row, stored, 0);
        StoredBelow(trueBuffer[..], 1 - row, stored);
        trueBuffer[Pointer(-row)] := trueBuffer[Pointer(0)];
      }
    }

    lemma RowHeld(ring: seq<int>, lo: int, hi: int, x: int)
      requires 0 < g && |ring| == 3 * g && Holding(ring, lo, hi) && lo <= x < hi
      ensures ring[Slot(x)] == Clamped(x)
    {
    }

    // expand_bottom_edge: the last row stored, up to the end of the row group
    method PadBottom(ghost lo: int)
      requires Shape() && nextBufRow == Slot(stored) && nextBufRow <= nextBufStop <= 3 * g && height <= stored && lo < stored
      requires stored + (nextBufStop - nextBufRow) <= lo + 3 * g && Holding(trueBuffer[..], lo, stored)
      modifies trueBuffer, `stored
      ensures Shape() && stored == old(stored) + (nextBufStop - nextBufRow) && Holding(trueBuffer[..], lo, stored)
    {
      hide Slot, Holding;
      LastRow(stored, nextBufRow);
      for row := nextBufRow to nextBufStop
        invariant stored == old(stored) + (row - nextBufRow) && Shape() && Holding(trueBuffer[..], lo, stored)
      {
        RowHeld(trueBuffer[..], lo, stored, old(stored) - 1);
        InGroup(old(stored), row - nextBufRow, nextBufRow);
        StoredAbove(trueBuffer[..], lo, stored);
        trueBuffer[Pointer(row)] := trueBuffer[Pointer(nextBufRow - 1)];
        stored := stored + 1;
      }
    }

    lemma LastRow(x: int, s: nat)
      requires 0 < g && s == Slot(x)
      ensures Slot(s - 1) == Slot(x - 1)
    {
      SlotIs(0, s);
      SlotShift(x, s, -1);
    }

    // The next row group's place, with wraparound
    lemma NextSlot(n: nat)
      requires 0 < g
      ensures Slot(GroupStart(n)) + g <= 3 * g
      ensures Slot(GroupStart(n + 1)) == if Slot(GroupStart(n)) + g >= 3 * g then 0 else Slot(GroupStart(n)) + g
    {
      GroupSlot(n, g - 1);
      NextStart(n);
      SlotIs(0, Slot(GroupStart(n)));
      SlotShift(GroupStart(n), Slot(GroupStart(n)), g);
      SlotIs(1, 0);
      if Slot(GroupStart(n)) + g < 3 * g {
        SlotIs(0, Slot(GroupStart(n)) + g);
      }
    }

    // What the downsampler sees of the row group at thisRowGroup
    method Downsample() returns (view: seq<int>)
      requires Shape() && thisRowGroup == Slot(GroupStart(|output|)) && thisRowGroup + g <= 3 * g
      requires Holding(trueBuffer[..], GroupStart(|output|) - g, GroupStart(|output|) + 2 * g)
      modifies `output
      ensures output == old(output) + [view] && Right(view, |old(output)|)
    {
      hide Slot, Holding;
      ghost var n := |output|;
      view := [];
      for j := 0 to 3 * g
        invariant output == old(output) && |view| == j && forall k :: 0 <= k < j ==> view[k] == Clamped(GroupStart(n) + k - g)
      {
        SlotIs(0, thisRowGroup);
        SlotShift(GroupStart(n), thisRowGroup, j - g);
        RowHeld(trueBuffer[..], GroupStart(n) - g, GroupStart(n) + 2 * g, GroupStart(n) + (j - g));
        view := view + [trueBuffer[Pointer(thisRowGroup + j - g)]];
      }
      output := output + [view];
    }

    // The conversion buffer has the next row group and the one below it.
    ghost predicate Full()
      reads this, trueBuffer, fakeBuffer
    {
      var n := |output|;
      && Shape() && rowsToGo == (if stored < height then height - stored else 0)
      && stored == GroupStart(n + 1) + g && Holding(trueBuffer[..], GroupStart(n) - g, stored)
      && nextBufRow == nextBufStop && thisRowGroup == Slot(GroupStart(n)) && nextBufStop == Slot(GroupStart(n + 1)) + g
      && forall k :: 0 <= k < n ==> Right(output[k], k)
    }

    // Downsample a row group, and advance
    method NextGroup()
      requires Full()
      modifies `output, `thisRowGroup, `nextBufRow, `nextBufStop
      ensures Valid() && |output| == |old(output)| + 1 && old(output) <= output
    {
      hide Slot, Holding, Clamped;
      ghost var n := |output|;
      NextStart(n);
      NextStart(n + 1);
      NextSlot(n);
      NextSlot(n + 1);
      Narrower(trueBuffer[..], GroupStart(n) - g, GroupStart(n + 1) - g, stored);
      var view := Downsample();
      thisRowGroup := thisRowGroup + g;
      if thisRowGroup >= 3 * g {
        thisRowGroup := 0;
      }
      if nextBufRow >= 3 * g {
        nextBufRow := 0;
      }
      nextBufStop := nextBufRow + g;
    }

    lemma Narrower(ring: seq<int>, lo: int, lo': int, hi: int)
      requires 0 < g && |ring| == 3 * g && Holding(ring, lo, hi) && lo <= lo'
      ensures Holding(ring, lo', hi)
    {
    }

    // Between calls there is room up to the end of a row group.
    lemma Window()
      requires Valid()
      ensures nextBufRow < nextBufStop <= 3 * g && stored + (nextBufStop - nextBufRow) == GroupStart(|output| + 1) + g
      ensures GroupStart(|output| + 1) == GroupStart(|output|) + g && (|output| == 0 ==> GroupStart(0) == 0)
    {
      hide Holding, Clamped, Right;
      var n := |output|;
      NextStart(n);
      NextSlot(n + 1);
      if n == 0 {
        SlotIs(0, stored);
        SlotIs(0, g);
      } else {
        GroupSlot(n + 1, stored - GroupStart(n + 1));
      }
    }

    // Convert as many rows as there is room for, and pad at the top the first time through.
    method TakeRows(avail: nat) returns (numrows: nat)
      requires Valid() && 0 < avail <= rowsToGo
      modifies trueBuffer, `stored, `nextBufRow, `rowsToGo
      ensures 0 < numrows <= avail && rowsToGo == old(rowsToGo) - numrows
      ensures if nextBufRow < nextBufStop then Valid() else Full()
    {
      hide Slot, Holding, Clamped, Right;
      Window();
      ghost var lo := if stored == 0 then 0 else GroupStart(|output|) - g;
      numrows := nextBufStop - nextBufRow;
      if avail < numrows {
        numrows := avail;
      }
      Empty(trueBuffer[..]);
      InGroup(stored, numrows - 1, nextBufRow);
      ColorConvert(numrows, lo);
      if rowsToGo == height {
        PadTop();
      }
      nextBufRow := nextBufRow + numrows;
      rowsToGo := rowsToGo - numrows;
      if nextBufRow < nextBufStop {
        InGroup(old(stored), numrows, old(nextBufRow));
      }
    }

    lemma Empty(ring: seq<int>)
      requires 0 < g && |ring| == 3 * g
      ensures Holding(ring, 0, 0)
    {
    }

    // pre_process_context: rows of the image as they come, and row groups as far as there is room for them
    method PreProcess(inRowsAvail: nat, outGroupsAvail: nat) returns (inRowCtr: nat, outGroupCtr: nat)
      requires Valid() && inRowsAvail <= rowsToGo
      modifies this, trueBuffer
      ensures Valid() && old(output) <= output && |output| == |old(output)| + outGroupCtr
      ensures inRowCtr <= inRowsAvail && rowsToGo == old(rowsToGo) - inRowCtr && outGroupCtr <= outGroupsAvail
      ensures outGroupCtr < outGroupsAvail ==> inRowCtr == inRowsAvail && rowsToGo != 0
    {
      hide Slot, Holding, Clamped, Right;
      inRowCtr, outGroupCtr := 0, 0;
      while outGroupCtr < outGroupsAvail
        invariant Valid() && inRowCtr <= inRowsAvail && outGroupCtr <= outGroupsAvail
        invariant old(output) <= output && |output| == |old(output)| + outGroupCtr && rowsToGo == old(rowsToGo) - inRowCtr
        decreases outGroupsAvail - outGroupCtr, inRowsAvail - inRowCtr
      {
        Window();
        if inRowCtr < inRowsAvail {
          var numrows := TakeRows(inRowsAvail - inRowCtr);
          inRowCtr := inRowCtr + numrows;
        } else {
          if rowsToGo != 0 {
            break;
          }
          if nextBufRow < nextBufStop {
            PadBottom(GroupStart(|output|) - g);
            nextBufRow := nextBufStop;
          }
        }
        if nextBufRow == nextBufStop {
          NextGroup();
          outGroupCtr := outGroupCtr + 1;
        }
      }
    }

    // Whatever the deliveries of rows and the demands for row groups are, every row group is downsampled
    // with the true rows above and below; and all of the image are, if rows and demands go on.
    method ProcessImage(calls: seq<Call>)
      requires Shape()
      modifies this, trueBuffer
      ensures Valid() && forall n :: 0 <= n < |output| ==> Right(output[n], n)
      ensures height + Groups() <= |calls| && (forall i :: 0 <= i < |calls| ==> 0 < calls[i].rows && 0 < calls[i].groups)
              ==> Groups() <= |output|
    {
      hide Slot, Holding, Clamped, Right;
      StartPass();
      for m := 0 to |calls|
        invariant Valid() && rowsToGo <= height
        invariant (forall i :: 0 <= i < m ==> 0 < calls[i].rows && 0 < calls[i].groups) ==> m <= (height - rowsToGo) + |output|
      {
        var rows := if calls[m].rows < rowsToGo then calls[m].rows else rowsToGo;
        var taken, made := PreProcess(rows, calls[m].groups);
      }
    }

    // The image's row groups, the last of them perhaps with less rows
    function Groups(): nat
      requires 0 < g
    {
      (height + g - 1) / g
    }
  }

  lemma NotNegative(a: nat, b: nat)
    ensures 0 <= a * b
  {
  }

  lemma SameRemainder(m: nat, q: int, z: int)
    requires 0 < m
    ensures (m * q + z) % m == z % m
  {
    Distribute(m, q, z / m);
    assert z == m * (z / m) + z % m;
    DivMod(m, q + z / m, z % m);
    DivMod(m, z / m, z % m);
  }
}
