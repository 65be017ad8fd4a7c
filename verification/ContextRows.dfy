// The decompressor's main buffer controller with context rows (jdmainct.c, jdmainct.h): the
// pointer lists through which each row group is handed on together with its neighbours.
module ContextRows {
  import opened Arithmetic

  datatype ContextState = PrepareForImcu | ProcessImcu | PostponedRow

  // What happens outside in one call: whether an iMCU row could be read, how many row groups the
  // postprocessor had room for before and behind the postponed one, and whether that one filled
  // the output buffer.
  datatype Call = Call(delivered: bool, wanted: nat, exactlyFilled: bool, wantedNext: nat)

  // One component, with g sample rows in a row group, m row groups in an iMCU row and height
  // sample rows in all. Sample rows are known by their numbers; what the decoder delivers beyond
  // the last one is padding.
  class MainController {
    const g: nat
    const m: nat
    const p: nat               // sample rows in an iMCU row
    const height: nat
    const total: nat           // iMCU rows
    const buffer: array<int>   // the workspace: the sample row that each physical row holds
    const xbuffer: array2<int> // the two lists of pointers, which start at index -g
    var whichptr: nat
    var contextState: ContextState
    var rowgroupCtr: nat
    var rowgroupsAvail: nat
    var iMCURowCtr: nat
    var bufferFull: bool

    var output: seq<seq<int>>  // the row groups handed on, with g rows of context on both sides

    ghost predicate Shape() {
      && 0 < g && 2 <= m && p == g * m && 2 * g <= p && 0 < height
      && total > 0 && (total - 1) * p < height <= total * p
      && buffer.Length == p + 2 * g && xbuffer.Length0 == 2 && xbuffer.Length1 == p + 4 * g
    }

    // Sample rows in the last iMCU row
    function RowsLeft(): (n: int)
      requires Shape()
      ensures 0 < n <= p
    {
      Distribute(p, total - 1, 1);
      height - (total - 1) * p
    }

    // Pointer number i of a list
    function Pointer(w: nat, i: int): int
      requires Shape() && w < 2 && 0 - g <= i < p + 3 * g
      reads xbuffer
    {
      xbuffer[w, i + g]
    }

    method SetPointer(w: nat, i: int, row: int)
      requires Shape() && w < 2 && 0 - g <= i < p + 3 * g
      modifies xbuffer
      ensures forall v: nat, j {:trigger Pointer(v, j)} :: v < 2 && 0 - g <= j < p + 3 * g ==>
                Pointer(v, j) == if v == w && j == i then row else old(Pointer(v, j))
    {
      xbuffer[w, i + g] := row;
    }

    // The physical row that pointer number i of a list refers to in the normal state
    function Row(w: nat, i: int): int {
      if w == 0 || i < p - 2 * g then i else if i < p then i + 2 * g else i - 2 * g
    }

    // The pointers to the workspace, in both lists
    ghost predicate Lists()
      reads xbuffer
    {
      Shape() && forall w: nat, i :: w < 2 && 0 <= i < p + 2 * g ==> Pointer(w, i) == Row(w, i)
    }

    // Above the first row group there is the last one, and below the last one the first.
    ghost predicate Wrapped()
      reads xbuffer
    {
      && Shape()
      && (forall w: nat, i :: w < 2 && 0 - g <= i < 0 ==> Pointer(w, i) == Row(w, i + p + 2 * g))
      && forall w: nat, i :: w < 2 && p + 2 * g <= i < p + 3 * g ==> Pointer(w, i) == Row(w, i - (p + 2 * g))
    }

    // At the top of the image the first row is repeated.
    ghost predicate TopRepeated()
      reads xbuffer
    {
      Shape() && forall i :: 0 - g <= i < 0 ==> Pointer(0, i) == Row(0, 0)
    }

    // make_funny_pointers
    method MakeFunnyPointers()
      requires Shape()
      modifies xbuffer
      ensures Lists() && TopRepeated()
    {
      for i := 0 to p + 2 * g
        invariant forall w: nat, j :: w < 2 && 0 <= j < i ==> Pointer(w, j) == j
      {
        SetPointer(0, i, i);
        SetPointer(1, i, i);
      }
      for i := 0 to 2 * g
        invariant forall j :: 0 <= j < p + 2 * g ==> Pointer(0, j) == j
        invariant forall j :: 0 <= j < p + 2 * g ==>
                    Pointer(1, j) == if p - 2 * g <= j < p - 2 * g + i then j + 2 * g
                                     else if p <= j < p + i then j - 2 * g else j
      {
        SetPointer(1, p - 2 * g + i, p + i);
        SetPointer(1, p + i, p - 2 * g + i);
      }
      for i := 0 to g
        invariant Lists() && forall j :: 0 - g <= j < i - g ==> Pointer(0, j) == Row(0, 0)
      {
        SetPointer(0, i - g, Pointer(0, 0));
      }
    }

    // set_wraparound_pointers
    method SetWraparoundPointers()
      requires Shape()
      modifies xbuffer
      ensures old(Lists()) ==> Lists() && Wrapped()
      ensures forall w: nat, j {:trigger Pointer(w, j)} :: w < 2 && 0 <= j < p + 2 * g ==> Pointer(w, j) == old(Pointer(w, j))
    {
      ghost var normal := Lists();
      for i := 0 to g
        invariant forall w: nat, j {:trigger Pointer(w, j)} :: w < 2 && 0 <= j < p + 2 * g ==> Pointer(w, j) == old(Pointer(w, j))
        invariant normal ==> Lists()
        invariant normal ==> forall w: nat, j :: w < 2 && 0 - g <= j < i - g ==> Pointer(w, j) == Row(w, j + p + 2 * g)
        invariant normal ==> forall w: nat, j :: w < 2 && p + 2 * g <= j < p + 2 * g + i ==>
                                              Pointer(w, j) == Row(w, j - (p + 2 * g))
      {
        SetPointer(0, i - g, Pointer(0, p + g + i));
        SetPointer(1, i - g, Pointer(1, p + g + i));
        SetPointer(0, p + 2 * g + i, Pointer(0, i));
        SetPointer(1, p + 2 * g + i, Pointer(1, i));
      }
    }

    lemma RowsLeftModulo()
      requires Shape()
      ensures RowsLeft() == if height % p == 0 then p else height % p
    {
      assert (total - 1) * p == p * (total - 1);
      if RowsLeft() < p {
        DivMod(p, total - 1, RowsLeft());
      } else {
        Distribute(p, total - 1, 1);
        DivMod(p, total, 0);
      }
    }

    // set_bottom_pointers: the last sample row is repeated 2 * g times.
    method SetBottomPointers(w: nat)
      requires Shape() && w < 2
      modifies xbuffer, this`rowgroupsAvail
      ensures rowgroupsAvail == (RowsLeft() - 1) / g + 1
      ensures forall j {:trigger View(w, j)} :: 0 - g <= j < p + 3 * g ==>
                View(w, j) == if RowsLeft() <= j < RowsLeft() + 2 * g then old(View(w, RowsLeft() - 1)) else old(View(w, j))
    {
      RowsLeftModulo();
      var rowsLeft := height % p;
      if rowsLeft == 0 {
        rowsLeft := p;
      }
      rowgroupsAvail := (rowsLeft - 1) / g + 1;
      for i := 0 to 2 * g
        invariant rowgroupsAvail == (rowsLeft - 1) / g + 1
        invariant forall j :: 0 - g <= j < p + 3 * g ==>
                    Pointer(w, j) == if rowsLeft <= j < rowsLeft + i then old(Pointer(w, rowsLeft - 1)) else old(Pointer(w, j))
      {
        SetPointer(w, rowsLeft + i, Pointer(w, rowsLeft - 1));
      }
    }

    // ----- What the workspace holds -----

    // The sample row that pointer number i of a list leads to
    function View(w: nat, i: int): int
      requires Shape() && w < 2 && 0 - g <= i < p + 3 * g
      reads xbuffer, buffer
    {
      if 0 <= Pointer(w, i) < buffer.Length then buffer[Pointer(w, i)] else -1
    }

    // The list that iMCU row t is read into
    function ListOf(t: nat): nat {
      t % 2
    }

    // Before iMCU row t is read, its list has the last two row groups of the one before at its end.
    ghost predicate Saved(t: nat)
      reads xbuffer, buffer
    {
      Lists() && (t > 0 ==> Wrapped() && forall i :: p <= i < p + 2 * g ==> View(ListOf(t), i) == t * p - 2 * g + (i - p))
    }

    // Afterwards it also has the iMCU row.
    ghost predicate Loaded(t: nat)
      reads xbuffer, buffer
    {
      Saved(t) && forall i :: 0 <= i < p ==> View(ListOf(t), i) == t * p + i
    }

    // Different pointers of a list lead to different rows.
    method StoreRow(w: nat, i: nat, row: int)
      requires Lists() && w < 2 && i < p + 2 * g
      modifies buffer
      ensures Lists() && (Wrapped() <==> old(Wrapped()))
      ensures forall j {:trigger View(w, j)} :: 0 <= j < p + 2 * g ==> View(w, j) == if j == i then row else old(View(w, j))
    {
      ghost var at := Pointer(w, i);
      assert at == Row(w, i);
      buffer[Pointer(w, i)] := row;
      forall j | 0 <= j < p + 2 * g
        ensures View(w, j) == if j == i then row else old(View(w, j))
      {
        assert Pointer(w, j) == Row(w, j);
      }
    }

    // decompress_data: read iMCU row t through the pointers of its list.
    method DecompressData(t: nat)
      requires Saved(t)
      modifies buffer
      ensures Loaded(t)
    {
      var w := ListOf(t);
      for i := 0 to p
        invariant Saved(t) && forall j :: 0 <= j < i ==> View(w, j) == t * p + j
      {
        StoreRow(w, i, t * p + i);
      }
    }

    // Turning to the other list saves the last two row groups.
    lemma NextSaved(t: nat)
      requires Loaded(t) && Wrapped()
      ensures Saved(t + 1)
    {
      hide Shape;
      var w, v := ListOf(t), ListOf(t + 1);
      assert v == 1 - w;
      NextFirst(t);
      forall i | p <= i < p + 2 * g
        ensures View(v, i) == (t + 1) * p - 2 * g + (i - p)
      {
        assert Pointer(v, i) == Pointer(w, i - 2 * g);
        assert View(w, i - 2 * g) == t * p + (i - 2 * g);
      }
    }

    lemma NextFirst(t: nat)
      requires Shape()
      ensures 2 * g <= p && (t + 1) * p == t * p + p
    {
    }

    // In the normal state a list shows its iMCU row with the rows before it, and behind them the
    // two row groups before it and its first one.
    lemma Shown(t: nat, i: int)
      requires Loaded(t) && t > 0 && 0 - g <= i < p + 3 * g
      ensures View(ListOf(t), i) == if i < p then t * p + i else t * p + (i - p - 2 * g)
    {
      var w := ListOf(t);
      if i < 0 {
        assert Pointer(w, i) == Pointer(w, i + p + 2 * g);
        assert View(w, i + p + 2 * g) == t * p - 2 * g + (i + p + 2 * g - p);
      } else if i >= p + 2 * g {
        assert Pointer(w, i) == Pointer(w, i - (p + 2 * g));
        assert View(w, i - (p + 2 * g)) == t * p + (i - (p + 2 * g));
      }
    }

    // ----- What is handed on -----

    // The image's row groups
    function Groups(): nat
      requires Shape()
    {
      (height - 1) / g + 1
    }

    // The nearest sample row of the image
    function Clamped(row: int): int {
      if row < 0 then 0 else if row >= height then height - 1 else row
    }

    // Is this row group the one that waits for the last iMCU row?
    predicate WaitsForLast(n: nat) {
      total > 1 && n == (total - 1) * m - 1
    }

    // Row number j of what row group n is handed on with. The row group that waits for the last
    // iMCU row is handed on before the bottom of the image is dealt with.
    function Handed(n: nat, j: nat): int {
      var row := n * g + j - g;
      if WaitsForLast(n) && j >= 2 * g then row else Clamped(row)
    }

    // Row group n can be handed on as number c of the current list.
    ghost predicate Offered(c: nat, n: int)
      reads `whichptr, xbuffer, buffer
    {
      Shape() && whichptr < 2 && 0 <= n && forall j: nat :: j < 3 * g ==> OfferedRow(c, n, j)
    }

    // ... its row number j among them
    ghost predicate OfferedRow(c: nat, n: nat, j: nat)
      requires Shape() && whichptr < 2
      reads `whichptr, xbuffer, buffer
    {
      c * g + j < p + 4 * g && View(whichptr, c * g - g + j) == Handed(n, j)
    }

    // The next row group, with those above and below it
    method HandOn()
      requires Offered(rowgroupCtr, |output|)
      modifies this`output, this`rowgroupCtr
      ensures rowgroupCtr == old(rowgroupCtr) + 1 && |output| == |old(output)| + 1 && old(output) <= output
      ensures |output[|old(output)|]| == 3 * g
      ensures forall j :: 0 <= j < 3 * g ==> output[|old(output)|][j] == Handed(|old(output)|, j)
    {
      hide Handed;
      var w, base := whichptr, rowgroupCtr * g - g;
      assert rowgroupCtr * g >= 0;
      assert OfferedRow(rowgroupCtr, |output|, 3 * g - 1);
      var rows := seq(3 * g, j requires 0 <= j < 3 * g && base + j < p + 3 * g reads xbuffer, buffer => View(w, base + j));
      forall j: nat | j < 3 * g
        ensures rows[j] == Handed(|output|, j)
      {
        assert OfferedRow(rowgroupCtr, |output|, j);
      }
      output := output + [rows];
      rowgroupCtr := rowgroupCtr + 1;
    }

    // Row groups have been handed on in order, each with its neighbours.
    ghost predicate OutputOk()
      reads `output
    {
      forall n :: 0 <= n < |output| ==> |output[n]| == 3 * g && forall j :: 0 <= j < 3 * g ==> output[n][j] == Handed(n, j)
    }

    // What is left of the current list is row groups n0 + rowgroupCtr and so on.
    ghost predicate Offers(n0: int)
      reads this, xbuffer, buffer
    {
      forall c: nat :: rowgroupCtr <= c < rowgroupsAvail ==> Follows(n0, c)
    }

    ghost predicate Follows(n0: int, c: nat)
      reads `whichptr, xbuffer, buffer
    {
      Offered(c, n0 + c)
    }

    // The postprocessor takes as many of the available row groups as it wants.
    method PostProcess(want: nat, ghost n0: int)
      requires OutputOk() && Offers(n0) && rowgroupCtr <= rowgroupsAvail && |output| == n0 + rowgroupCtr
      modifies this`output, this`rowgroupCtr
      ensures OutputOk() && old(output) <= output && |output| == n0 + rowgroupCtr
      ensures rowgroupCtr == if old(rowgroupCtr) + want < rowgroupsAvail then old(rowgroupCtr) + want else rowgroupsAvail
    {
      hide Offered, Handed;
      var left := want;
      while rowgroupCtr < rowgroupsAvail && left > 0
        invariant OutputOk() && old(output) <= output && |output| == n0 + rowgroupCtr && rowgroupCtr <= rowgroupsAvail
        invariant Offers(n0) && old(rowgroupCtr) <= rowgroupCtr && rowgroupCtr + left == old(rowgroupCtr) + want
        decreases left
      {
        assert Follows(n0, rowgroupCtr);
        HandOn();
        left := left - 1;
      }
    }

    // ----- The states of the controller -----

    // iMCU row t can be handed on from its list.
    ghost predicate Full(t: nat)
      reads xbuffer, buffer
    {
      Loaded(t) && (t == 0 ==> TopRepeated())
    }

    // The last iMCU row, with the last sample row repeated
    ghost predicate BottomShown(t: nat)
      reads xbuffer, buffer
    {
      Shape() && forall i :: 0 - g <= i < RowsLeft() + 2 * g ==> View(ListOf(t), i) == Clamped(t * p + i)
    }

    // The row groups of the image that iMCU row t has
    function GroupsLeft(t: nat): nat
      requires Shape()
    {
      if t + 1 < total then m - 1 else (RowsLeft() - 1) / g + 1
    }

    // Nothing is in the buffer but what has been saved of the iMCU row before.
    ghost predicate Empty()
      reads this, xbuffer, buffer
    {
      var c := iMCURowCtr;
      if c == 0 then contextState == PrepareForImcu && whichptr == 0 && Lists() && TopRepeated() && output == []
      else if c < total then
        contextState == PostponedRow && whichptr == ListOf(c) && Saved(c) && rowgroupCtr == m + 1 && rowgroupsAvail == m + 2
        && |output| == c * m - 1
      else Shape() && |output| == Groups()
    }

    ghost predicate Filled()
      reads this, xbuffer, buffer
    {
      iMCURowCtr > 0 && Shape() &&
      var t := iMCURowCtr - 1;
      whichptr == ListOf(t) &&
      match contextState
      case PostponedRow => t > 0 && Loaded(t) && rowgroupCtr == m + 1 && rowgroupsAvail == m + 2 && |output| == t * m - 1
      case PrepareForImcu => Full(t) && |output| == t * m
      case ProcessImcu => Processing(t) && rowgroupCtr < rowgroupsAvail
    }

    // iMCU row t is being handed on.
    ghost predicate Processing(t: nat)
      reads this, xbuffer, buffer
    {
      && Shape() && rowgroupsAvail == GroupsLeft(t) && rowgroupCtr <= rowgroupsAvail && |output| == t * m + rowgroupCtr
      && if t + 1 < total then Full(t) else BottomShown(t)
    }

    ghost predicate Valid()
      reads this, xbuffer, buffer
    {
      Shape() && iMCURowCtr <= total && OutputOk() && if bufferFull then Filled() else Empty()
    }

    // ----- What each state offers -----

    lemma GroupRow(t: int, c: int)
      requires Shape()
      ensures (t * m + c) * g == t * p + c * g
    {
      assert t * (g * m) == (t * m) * g;
    }

    lemma RowOrder(t: int)
      requires Shape() && t < total
      ensures t * p <= (total - 1) * p && (t < total - 1 ==> (t + 1) * p <= (total - 1) * p && t * p + p == (t + 1) * p)
      ensures t * m <= (total - 1) * m && (t < total - 1 ==> t * m + m <= (total - 1) * m)
    {
      Distribute(p, t, total - 1 - t);
      Distribute(m, t, total - 1 - t);
      if t < total - 1 {
        Distribute(p, t + 1, total - 2 - t);
        Distribute(m, t + 1, total - 2 - t);
        Distribute(p, t, 1);
        Distribute(m, t, 1);
      }
    }

    // The row group that was left over from the iMCU row before
    lemma OffersPostponed(t: nat)
      requires Shape() && Loaded(t) && 0 < t < total && whichptr == ListOf(t)
      ensures Offered(m + 1, t * m - 1)
    {
      hide Loaded, Lists, OfferedRow;
      Positive(t);
      var c, n := m + 1, t * m - 1;
      forall j: nat | j < 3 * g
        ensures OfferedRow(c, n, j)
      {
        WaitingRow(t, j);
      }
    }

    lemma Positive(t: nat)
      requires Shape() && 0 < t
      ensures t * m >= m && t * p >= p
    {
      Distribute(m, t - 1, 1);
      Distribute(p, t - 1, 1);
    }

    lemma WaitingRow(t: nat, j: nat)
      requires Shape() && Loaded(t) && 0 < t < total && whichptr == ListOf(t) && j < 3 * g
      ensures OfferedRow(m + 1, t * m - 1, j)
    {
      hide Loaded, View, Shape;
      Shown(t, p + j);
      Waiting(t, j);
    }

    lemma Waiting(t: nat, j: nat)
      requires Shape() && 0 < t < total && j < 3 * g
      ensures t * m > 0 && (m + 1) * g == p + g && Handed(t * m - 1, j) == t * p - 2 * g + j
    {
      Positive(t);
      GroupRow(t, -1);
      RowOrder(t);
      Distribute(g, m, 1);
      hide Clamped;
      var row := t * p - 2 * g + j;
      assert (t * m - 1) * g + j - g == row;
      if t < total - 1 || j < 2 * g {
        InImage(row);
      }
    }

    lemma InImage(row: int)
      requires 0 <= row < height
      ensures Clamped(row) == row
    {
    }

    // Those of an iMCU row that is not the last, but for its own last one
    lemma OffersImcu(t: nat, c: nat)
      requires Shape() && Full(t) && t + 1 < total && c < m - 1 && whichptr == ListOf(t)
      ensures Offered(c, t * m + c)
    {
      hide Full, OfferedRow;
      var n := t * m + c;
      forall j: nat | j < 3 * g
        ensures OfferedRow(c, n, j)
      {
        ImcuRow(t, c, j);
      }
    }

    lemma ImcuRow(t: nat, c: nat, j: nat)
      requires Shape() && Full(t) && t + 1 < total && c < m - 1 && whichptr == ListOf(t) && j < 3 * g
      ensures OfferedRow(c, t * m + c, j)
    {
      hide View, Loaded, TopRepeated, Shape;
      GroupInside(c);
      ImcuHanded(t, c, j);
      if t > 0 {
        Shown(t, c * g - g + j);
      } else {
        FirstShown(c * g - g + j);
      }
    }

    lemma GroupInside(c: nat)
      requires Shape() && c < m - 1
      ensures 0 <= c * g && c * g + 2 * g <= p
    {
      Distribute(g, c, m - 2 - c);
      Distribute(g, m - 2, 2);
    }

    lemma ImcuHanded(t: nat, c: nat, j: nat)
      requires Shape() && t + 1 < total && c < m - 1 && j < 3 * g
      ensures t * p >= 0 && Handed(t * m + c, j) == if t == 0 && c * g - g + j < 0 then 0 else t * p + (c * g - g + j)
    {
      GroupRow(t, c);
      RowOrder(t);
      GroupInside(c);
      if t > 0 {
        Positive(t);
      }
    }

    // The first iMCU row, with the first sample row repeated
    lemma FirstShown(i: int)
      requires Full(0) && 0 - g <= i < p
      ensures View(0, i) == if i < 0 then 0 else i
    {
      assert ListOf(0) == 0;
      var z: nat := 0;
      if i < 0 {
        assert Pointer(0, i) == Row(0, 0) == Pointer(0, 0);
        assert View(ListOf(z), 0) == z * p;
      } else {
        assert View(ListOf(z), i) == z * p + i;
      }
    }

    // Those of the last iMCU row
    lemma OffersBottom(t: nat, c: nat)
      requires Shape() && BottomShown(t) && t + 1 == total && c <= (RowsLeft() - 1) / g && whichptr == ListOf(t)
      ensures Offered(c, t * m + c)
    {
      hide BottomShown, OfferedRow, RowsLeft;
      var n := t * m + c;
      forall j: nat | j < 3 * g
        ensures OfferedRow(c, n, j)
      {
        BottomRow(t, c, j);
      }
    }

    lemma BottomRow(t: nat, c: nat, j: nat)
      requires Shape() && BottomShown(t) && t + 1 == total && c <= (RowsLeft() - 1) / g && whichptr == ListOf(t) && j < 3 * g
      ensures OfferedRow(c, t * m + c, j)
    {
      hide Lists, View, Clamped, RowsLeft;
      GroupRow(t, c);
      BottomInside(c);
      var i := c * g - g + j;
      assert View(ListOf(t), i) == Clamped(t * p + i);
      RowOrder(t);
    }

    lemma BottomInside(c: nat)
      requires Shape() && c <= (RowsLeft() - 1) / g
      ensures 0 <= c * g < RowsLeft()
    {
      hide RowsLeft;
      var r := RowsLeft() - 1;
      assert r == g * (r / g) + r % g;
      Distribute(g, c, r / g - c);
    }

    lemma OffersAll(t: nat)
      requires Processing(t) && t < total && whichptr == ListOf(t)
      ensures Offers(t * m)
    {
      hide Full, BottomShown, Offered, RowsLeft;
      forall c: nat | rowgroupCtr <= c < rowgroupsAvail
        ensures Follows(t * m, c)
      {
        if t + 1 < total {
          OffersImcu(t, c);
        } else {
          OffersBottom(t, c);
        }
      }
    }

    lemma GroupCount()
      requires Shape()
      ensures Groups() == (total - 1) * m + GroupsLeft(total - 1) && 0 < GroupsLeft(total - 1) <= m
    {
      hide Shape;
      GroupRow(total - 1, 0);
      var r, q := RowsLeft() - 1, (total - 1) * m;
      LastRows();
      Quotient(r, q);
    }

    lemma LastRows()
      requires Shape()
      ensures 0 < g && height - 1 == g * ((total - 1) * m) + (RowsLeft() - 1) && 0 < RowsLeft() <= p == g * m && 2 <= m
    {
      GroupRow(total - 1, 0);
    }

    lemma Quotient(r: nat, q: int)
      requires 0 < g && r < g * m
      ensures (g * q + r) / g == q + r / g && 0 <= r / g < m
    {
      assert r == g * (r / g) + r % g;
      Distribute(g, q, r / g);
      DivMod(g, q + r / g, r % g);
      if r / g >= m {
        Distribute(g, m, r / g - m);
      }
    }

    // No more than the image's row groups are ever handed on.
    lemma OutputBounded()
      requires Valid()
      ensures |output| <= Groups() && (|output| == Groups() ==> !bufferFull && iMCURowCtr == total)
      ensures !bufferFull && iMCURowCtr == total ==> |output| == Groups()
    {
      hide OutputOk, Full, BottomShown, Loaded, Saved, RowsLeft, Groups, Lists, TopRepeated, Shape, GroupsLeft;
      GroupCount();
      if iMCURowCtr > 0 {
        SomeLeft(iMCURowCtr - 1);
        MostGroups(iMCURowCtr - 1);
      }
      if 0 < iMCURowCtr < total {
        MostGroups(iMCURowCtr);
      }
    }

    lemma MostGroups(t: nat)
      requires Shape() && t < total
      ensures m > 1 && t * m <= (total - 1) * m && (t < total - 1 ==> t * m + m <= (total - 1) * m)
    {
      RowOrder(t);
    }

    // ----- Processing -----

    constructor (g: nat, m: nat, height: nat, total: nat)
      requires 0 < g && 2 <= m && 0 < height && 0 < total && (total - 1) * (g * m) < height <= total * (g * m)
      ensures Valid() && this.g == g && this.m == m && this.height == height && this.total == total
      ensures output == [] && fresh(buffer) && fresh(xbuffer)
    {
      this.g, this.m, this.height, this.total := g, m, height, total;
      p := g * m;
      Distribute(g, 2, m - 2);
      buffer := new int[g * m + 2 * g];
      xbuffer := new int[2, g * m + 4 * g];
      whichptr, contextState, iMCURowCtr, bufferFull := 0, PrepareForImcu, 0, false;
      rowgroupCtr, rowgroupsAvail, output := 0, 0, [];
      new;
      MakeFunnyPointers();
    }

    // Read the next iMCU row.
    method Load()
      requires Valid() && !bufferFull && iMCURowCtr < total
      modifies this`bufferFull, this`iMCURowCtr, buffer
      ensures Valid() && bufferFull
    {
      DecompressData(iMCURowCtr);
      bufferFull := true;
      iMCURowCtr := iMCURowCtr + 1;
    }

    // The postponed row group, once the iMCU row below it is there
    method ProcessPostponed(want: nat)
      requires Valid() && bufferFull && contextState == PostponedRow
      modifies this`output, this`rowgroupCtr, this`contextState
      ensures Valid() && old(output) <= output
      ensures want > 0 ==> contextState == PrepareForImcu && |output| == |old(output)| + 1
      ensures want == 0 ==> contextState == PostponedRow && output == old(output)
    {
      hide Offered, Handed;
      ghost var t := iMCURowCtr - 1;
      OffersPostponed(t);
      ghost var n0 := t * m - 1 - (m + 1);
      assert Follows(n0, m + 1);
      PostProcess(want, n0);
      if rowgroupCtr < rowgroupsAvail {
        return;
      }
      contextState := PrepareForImcu;
    }

    // What the list shows before its bottom is changed
    lemma FullShown(t: nat, i: int)
      requires Full(t) && 0 - g <= i < p
      ensures View(ListOf(t), i) == if t == 0 && i < 0 then 0 else t * p + i
    {
      hide View;
      if t > 0 {
        Shown(t, i);
      } else {
        FirstShown(i);
      }
    }

    // Prepare to process the current iMCU row.
    method Prepare()
      requires Valid() && bufferFull && contextState == PrepareForImcu
      modifies this`rowgroupCtr, this`rowgroupsAvail, this`contextState, xbuffer
      ensures Valid() && contextState == ProcessImcu
    {
      hide OutputOk, Full, BottomShown, RowsLeft, Shape, GroupsLeft, Empty;
      ghost var t := iMCURowCtr - 1;
      SomeLeft(t);
      rowgroupCtr := 0;
      rowgroupsAvail := m - 1;
      if iMCURowCtr == total {
        ShowBottom(t);
      }
      contextState := ProcessImcu;
    }

    lemma SomeLeft(t: nat)
      requires Shape() && t < total
      ensures m >= 1 && 0 < GroupsLeft(t) == if t + 1 < total then m - 1 else (RowsLeft() - 1) / g + 1
    {
      GroupCount();
    }

    method ShowBottom(ghost t: nat)
      requires Shape() && Full(t) && t + 1 == total && whichptr == ListOf(t)
      modifies this`rowgroupsAvail, xbuffer
      ensures BottomShown(t) && rowgroupsAvail == (RowsLeft() - 1) / g + 1
    {
      hide View, Full, RowsLeft, Clamped;
      ghost var left := RowsLeft();
      forall i | 0 - g <= i < left
        ensures View(ListOf(t), i) == Clamped(t * p + i)
      {
        FullShown(t, i);
        ClampedTo(t, i);
      }
      FullShown(t, left - 1);
      ghost var last := View(ListOf(t), left - 1);
      SetBottomPointers(whichptr);
      forall i | 0 - g <= i < left + 2 * g
        ensures View(ListOf(t), i) == Clamped(t * p + i)
      {
        ClampedTo(t, i);
        assert i >= left ==> View(ListOf(t), i) == last;
      }
    }

    // Above and below the rows of the last iMCU row
    lemma ClampedTo(t: nat, i: int)
      requires Shape() && t + 1 == total && 0 - g <= i
      ensures Clamped(t * p + i) == if t == 0 && i < 0 then 0 else if i < RowsLeft() then t * p + i else t * p + RowsLeft() - 1
    {
      if t > 0 {
        Positive(t);
      }
    }

    // The current iMCU row has been handed on, but for its last row group: turn to the other list.
    method NextList()
      requires Shape() && OutputOk() && bufferFull && contextState == ProcessImcu && 0 < iMCURowCtr <= total
      requires Processing(iMCURowCtr - 1) && rowgroupCtr == rowgroupsAvail && whichptr == ListOf(iMCURowCtr - 1)
      modifies this`whichptr, this`bufferFull, this`rowgroupCtr, this`rowgroupsAvail, this`contextState, xbuffer
      ensures Valid() && !bufferFull
    {
      hide OutputOk, Shape, TopRepeated, BottomShown, Groups, GroupsLeft;
      ghost var t := iMCURowCtr - 1;
      SomeLeft(t);
      GroupCount();
      NextRow(t);
      if iMCURowCtr == 1 {
        SetWraparound(t);
      }
      if iMCURowCtr < total {
        NextSaved(t);
      }
      whichptr := 1 - whichptr;
      bufferFull := false;
      rowgroupCtr := m + 1;
      rowgroupsAvail := m + 2;
      contextState := PostponedRow;
    }

    lemma NextRow(t: nat)
      requires Shape()
      ensures t * m + m == (t + 1) * m
    {
    }

    // After the first iMCU row
    method SetWraparound(ghost t: nat)
      requires Shape() && t == 0 && (total > 1 ==> Loaded(t))
      modifies xbuffer
      ensures total > 1 ==> Loaded(t) && Wrapped()
    {
      SetWraparoundPointers();
      forall i | 0 <= i < p && total > 1
        ensures View(ListOf(t), i) == t * p + i
      {
        assert Pointer(ListOf(t), i) == old(Pointer(ListOf(t), i));
        assert old(View(ListOf(t), i)) == t * p + i;
      }
    }

    // Hand on what is wanted of the current iMCU row.
    method ProcessImcuRow(want: nat)
      requires Valid() && bufferFull && contextState == ProcessImcu
      modifies this`output, this`whichptr, this`bufferFull, this`rowgroupCtr, this`rowgroupsAvail, this`contextState, xbuffer
      ensures Valid() && old(output) <= output && (want > 0 ==> |output| > |old(output)|)
    {
      hide Offers, Full, BottomShown, Offered, GroupsLeft, OutputOk;
      ghost var t := iMCURowCtr - 1;
      OffersAll(t);
      PostProcess(want, t * m);
      if rowgroupCtr < rowgroupsAvail {
        return;
      }
      NextList();
    }

    // process_data_context_main: the coefficient controller may deliver no iMCU row, and the
    // postprocessor takes what its output buffer has room for.
    method ProcessData(call: Call)
      requires Valid() && |output| < Groups()
      modifies this`output, this`whichptr, this`bufferFull, this`rowgroupCtr, this`rowgroupsAvail, this`contextState,
               this`iMCURowCtr, buffer, xbuffer
      ensures Valid() && old(output) <= output
      ensures call.delivered && call.wanted > 0 && call.wantedNext > 0 ==> |output| > |old(output)|
    {
      hide Full, Offered, OutputOk, Processing, Saved, Loaded, Groups;
      OutputBounded();
      if !bufferFull {
        if !call.delivered {
          return;
        }
        Load();
      }
      if contextState == PostponedRow {
        ProcessPostponed(call.wanted);
        if contextState == PostponedRow || call.exactlyFilled {
          return;
        }
      }
      if contextState == PrepareForImcu {
        Prepare();
      }
      ProcessImcuRow(call.wantedNext);
    }

    // Whatever the deliveries and the rate of consumption are, all row groups of the image are
    // handed on once, in order, and none besides.
    method ProcessImage(calls: seq<Call>)
      requires Shape() && Valid() && output == []
      modifies this`output, this`whichptr, this`bufferFull, this`rowgroupCtr, this`rowgroupsAvail, this`contextState,
               this`iMCURowCtr, buffer, xbuffer
      ensures Valid() && |output| <= Groups()
      ensures |calls| >= Groups()
              && (forall i :: 0 <= i < |calls| ==> (calls[i].delivered && calls[i].wanted > 0 && calls[i].wantedNext > 0))
              ==> |output| == Groups()
      ensures forall n :: 0 <= n < |output| ==> |output[n]| == 3 * g && forall j :: 0 <= j < 3 * g ==> output[n][j] == Handed(n, j)
    {
      hide Valid, Groups;
      ghost var steady := forall i :: 0 <= i < |calls| ==> calls[i].delivered && calls[i].wanted > 0 && calls[i].wantedNext > 0;
      var i := 0;
      OutputBounded();
      while i < |calls| && |output| < Groups()
        invariant Valid() && |output| <= Groups() && i <= |calls| && (steady ==> i <= |output|)
      {
        ProcessData(calls[i]);
        OutputBounded();
        i := i + 1;
      }
      ValidOutput();
    }

    lemma ValidOutput()
      requires Valid()
      ensures OutputOk()
    {
    }

    // ----- When the context is right -----

    // The row groups have their true neighbours, with the first and the last sample row repeated,
    // unless the last iMCU row has less than a row group: then the row group above it is handed
    // on with padding below.
    lemma ContextIsRight()
      requires Shape()
      ensures (forall n: nat, j: nat :: n < Groups() && j < 3 * g ==> RightRow(n, j)) <==> total == 1 || RowsLeft() >= g
    {
      hide Handed, Clamped;
      if total > 1 && RowsLeft() < g {
        GroupCount();
        Positive(total - 1);
        var n: nat := (total - 1) * m - 1;
        WrongRow(3 * g - 1);
        assert !RightRow(n, 3 * g - 1);
      } else {
        forall n: nat, j: nat | n < Groups() && j < 3 * g
          ensures RightRow(n, j)
        {
          if WaitsForLast(n) {
            WrongRow(j);
          } else {
            assert RightRow(n, j) by {
              UsualRow(n, j);
            }
          }
        }
      }
    }

    predicate RightRow(n: nat, j: nat) {
      Handed(n, j) == Clamped(n * g + j - g)
    }

    lemma UsualRow(n: nat, j: nat)
      requires !WaitsForLast(n)
      ensures RightRow(n, j)
    {
    }

    // Only rows below the next sample row can be wrong.
    lemma WrongRow(j: nat)
      requires Shape() && total > 1 && j < 3 * g
      ensures var n := (total - 1) * m - 1; 0 <= n && (RightRow(n, j) <==> j < 2 * g + RowsLeft())
    {
      Positive(total - 1);
      GroupRow(total - 1, -1);
    }

    // For example, 17 sample rows in row groups of 2: the eighth shows padding below.
    lemma PaddingHandedOn()
      requires Shape() && g == 2 && m == 8 && height == 17
      ensures total == 2 && Handed(7, 5) == 17 && !RightRow(7, 5) && Clamped(17) == 16
    {
      assert p == 16;
      if total != 2 {
        Distribute(p, 2, total - 3);
      }
    }
  }
}
