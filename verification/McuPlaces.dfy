// Where the blocks of an MCU are in the component planes, and what stands in for blocks beyond
// the edges of the image.
module McuPlaces {
  import opened Arithmetic
  import opened PointTransform
  import opened Geometry

  datatype Place = Place(c: nat, y: nat, x: nat)

  // The virtual arrays are padded to whole interleaved MCUs.
  function PaddedWidth(img: Image, c: nat): nat
    requires ImageOk(img) && c < |img.comps|
  {
    ImcuColumns(img) * img.comps[c].h
  }

  function PaddedHeight(img: Image, c: nat): nat
    requires ImageOk(img) && c < |img.comps|
  {
    ImcuRows(img) * img.comps[c].v
  }

  predicate InPlane(img: Image, p: Place)
    requires ImageOk(img)
  {
    p.c < |img.comps| && p.y < PaddedHeight(img, p.c) && p.x < PaddedWidth(img, p.c)
  }

  // A block of the image, not one that pads it
  predicate Real(img: Image, p: Place)
    requires ImageOk(img)
  {
    p.c < |img.comps| && p.y < HeightInBlocks(img, p.c) && p.x < WidthInBlocks(img, p.c)
  }

  lemma RealInPlane(img: Image, p: Place)
    requires ImageOk(img) && Real(img, p)
    ensures InPlane(img, p)
  {
    BlocksOfComponent(img, p.c);
  }

  // ----- All planes in one array, row by row -----

  function Base(img: Image, c: nat): nat
    requires ImageOk(img) && c <= |img.comps|
  {
    if c == 0 then 0 else Base(img, c - 1) + PaddedHeight(img, c - 1) * PaddedWidth(img, c - 1)
  }

  function Total(img: Image): nat
    requires ImageOk(img)
  {
    Base(img, |img.comps|)
  }

  function RowOf(img: Image, p: Place): nat
    requires ImageOk(img) && InPlane(img, p)
  {
    Base(img, p.c) + (PaddedWidth(img, p.c) * p.y + p.x)
  }

  lemma {:induction false} BaseGrows(img: Image, c: nat, d: nat)
    requires ImageOk(img) && c <= d <= |img.comps|
    ensures Base(img, c) <= Base(img, d)
  {
    hide ImageOk, PaddedWidth, PaddedHeight;
    if c < d {
      BaseGrows(img, c, d - 1);
      ProductMonotonic(0, PaddedHeight(img, d - 1), PaddedWidth(img, d - 1));
    }
  }

  lemma RowInside(img: Image, p: Place)
    requires ImageOk(img) && InPlane(img, p)
    ensures Base(img, p.c) <= RowOf(img, p) < Base(img, p.c + 1) <= Total(img)
  {
    hide ImageOk, PaddedWidth, PaddedHeight;
    var w, h := PaddedWidth(img, p.c), PaddedHeight(img, p.c);
    ProductMonotonic(p.y + 1, h, w);
    Distribute(w, p.y, 1);
    assert Base(img, p.c + 1) == Base(img, p.c) + h * w;
    hide Base;
    BaseGrows(img, p.c + 1, |img.comps|);
  }

  // No two places share a row.
  lemma RowsDiffer(img: Image, p: Place, q: Place)
    requires ImageOk(img) && InPlane(img, p) && InPlane(img, q) && RowOf(img, p) == RowOf(img, q)
    ensures p == q
  {
    RowInside(img, p);
    RowInside(img, q);
    if p.c < q.c {
      BaseGrows(img, p.c + 1, q.c);
    } else if q.c < p.c {
      BaseGrows(img, q.c + 1, p.c);
    } else {
      SameQuotient(PaddedWidth(img, p.c), p.y, p.x, q.y, q.x);
    }
  }

  // Every row has a place.
  lemma {:induction false} PlaceAt(img: Image, r: nat, n: nat) returns (p: Place)
    requires ImageOk(img) && n <= |img.comps| && r < Base(img, n)
    ensures InPlane(img, p) && RowOf(img, p) == r
  {
    hide ImageOk, PaddedWidth, PaddedHeight;
    if r < Base(img, n - 1) {
      p := PlaceAt(img, r, n - 1);
    } else {
      var d, w, h := r - Base(img, n - 1), PaddedWidth(img, n - 1), PaddedHeight(img, n - 1);
      Unit(h, w, d);
      assert d == w * (d / w) + d % w;
      p := Place(n - 1, d / w, d % w);
    }
  }

  // ----- The places of an MCU -----

  function RowPlaces(c: nat, y: nat, x: nat, n: nat): seq<Place> {
    seq(n, i requires 0 <= i < n => Place(c, y, x + i))
  }

  // The first of n units
  function FirstOf(n: nat, unit: nat): (s: nat)
    ensures s == n * unit
  {
    ProductMonotonic(0, n, unit);
    n * unit
  }

  // The first n block rows of component i in the MCU of this row and column
  function PartPlaces(img: Image, comps: seq<nat>, i: nat, row: nat, col: nat, n: nat): seq<Place>
    requires ImageOk(img) && ScanComps(img, comps) && i < |comps|
  {
    if n == 0 then []
    else
      PartPlaces(img, comps, i, row, col, n - 1)
      + RowPlaces(comps[i], FirstOf(row, McuHeight(img, comps, i)) + (n - 1), FirstOf(col, McuWidth(img, comps, i)),
                  McuWidth(img, comps, i))
  }

  // The blocks of its first n components
  function Places(img: Image, comps: seq<nat>, row: nat, col: nat, n: nat): seq<Place>
    requires ImageOk(img) && ScanComps(img, comps) && n <= |comps|
  {
    if n == 0 then []
    else Places(img, comps, row, col, n - 1) + PartPlaces(img, comps, n - 1, row, col, McuHeight(img, comps, n - 1))
  }

  // Block k of the MCU is component Membership[k]'s.
  lemma {:induction false} PlacesMatch(img: Image, comps: seq<nat>, row: nat, col: nat, n: nat)
    requires ImageOk(img) && ScanComps(img, comps) && n <= |comps|
    ensures |Places(img, comps, row, col, n)| == |Membership(img, comps, n)|
    ensures forall k :: 0 <= k < |Membership(img, comps, n)| ==>
              Membership(img, comps, n)[k] < n && Places(img, comps, row, col, n)[k].c == comps[Membership(img, comps, n)[k]]
  {
    hide ImageOk;
    if n > 0 {
      PlacesMatch(img, comps, row, col, n - 1);
      PartOfComponent(img, comps, n - 1, row, col, McuHeight(img, comps, n - 1));
    }
  }

  lemma {:induction false} PartOfComponent(img: Image, comps: seq<nat>, i: nat, row: nat, col: nat, n: nat)
    requires ImageOk(img) && ScanComps(img, comps) && i < |comps|
    ensures |PartPlaces(img, comps, i, row, col, n)| == McuWidth(img, comps, i) * n
    ensures forall k :: 0 <= k < |PartPlaces(img, comps, i, row, col, n)| ==> PartPlaces(img, comps, i, row, col, n)[k].c == comps[i]
  {
    hide ImageOk;
    if n > 0 {
      PartOfComponent(img, comps, i, row, col, n - 1);
      Distribute(McuWidth(img, comps, i), n - 1, 1);
    }
  }

  // The blocks of component i that belong to the MCU
  predicate InPart(img: Image, comps: seq<nat>, i: nat, row: nat, col: nat, n: nat, p: Place)
    requires ImageOk(img) && ScanComps(img, comps) && i < |comps|
  {
    && p.c == comps[i]
    && row * McuHeight(img, comps, i) <= p.y < row * McuHeight(img, comps, i) + n
    && col * McuWidth(img, comps, i) <= p.x < col * McuWidth(img, comps, i) + McuWidth(img, comps, i)
  }

  predicate Distinct<T(==)>(s: seq<T>) {
    forall i, j :: 0 <= i < j < |s| ==> s[i] != s[j]
  }

  lemma {:induction false} PartContents(img: Image, comps: seq<nat>, i: nat, row: nat, col: nat, n: nat)
    requires ImageOk(img) && ScanComps(img, comps) && i < |comps|
    ensures Distinct(PartPlaces(img, comps, i, row, col, n))
    ensures forall p :: p in PartPlaces(img, comps, i, row, col, n) <==> InPart(img, comps, i, row, col, n, p)
  {
    hide ImageOk, ScanComps, McuHeight, McuWidth;
    if n > 0 {
      PartContents(img, comps, i, row, col, n - 1);
      var y, x := FirstOf(row, McuHeight(img, comps, i)) + (n - 1), FirstOf(col, McuWidth(img, comps, i));
      RowContents(comps[i], y, x, McuWidth(img, comps, i));
      var last := RowPlaces(comps[i], y, x, McuWidth(img, comps, i));
      DistinctConcat(PartPlaces(img, comps, i, row, col, n - 1), last);
    }
  }

  lemma RowContents(c: nat, y: nat, x: nat, n: nat)
    ensures Distinct(RowPlaces(c, y, x, n))
    ensures forall p :: p in RowPlaces(c, y, x, n) <==> p.c == c && p.y == y && x <= p.x < x + n
  {
    forall p: Place | p.c == c && p.y == y && x <= p.x < x + n
      ensures p in RowPlaces(c, y, x, n)
    {
      assert RowPlaces(c, y, x, n)[p.x - x] == p;
    }
  }

  lemma DistinctConcat<T>(a: seq<T>, b: seq<T>)
    requires Distinct(a) && Distinct(b) && forall x :: x in a ==> x !in b
    ensures Distinct(a + b)
  {
    var s := a + b;
    forall i, j | 0 <= i < j < |s|
      ensures s[i] != s[j]
    {
      if i < |a| <= j {
        assert s[i] in a && s[j] == b[j - |a|];
      }
    }
  }

  // The MCU has each block of its parts once.
  lemma {:induction false} PlacesContents(img: Image, comps: seq<nat>, row: nat, col: nat, n: nat)
    requires ImageOk(img) && ScanComps(img, comps) && n <= |comps|
    ensures Distinct(Places(img, comps, row, col, n))
    ensures forall p :: p in Places(img, comps, row, col, n) <==>
              exists i :: 0 <= i < n && InPart(img, comps, i, row, col, McuHeight(img, comps, i), p)
  {
    hide ImageOk, McuHeight, McuWidth, PartPlaces;
    if n > 0 {
      PlacesContents(img, comps, row, col, n - 1);
      PartContents(img, comps, n - 1, row, col, McuHeight(img, comps, n - 1));
      DistinctConcat(Places(img, comps, row, col, n - 1), PartPlaces(img, comps, n - 1, row, col, McuHeight(img, comps, n - 1)));
    }
  }

  // ----- The MCUs of a scan -----

  function McuCount(img: Image, comps: seq<nat>): nat
    requires ImageOk(img) && ScanComps(img, comps)
  {
    McuRowsInScan(img, comps) * McusPerRow(img, comps)
  }

  lemma SomeMcus(img: Image, comps: seq<nat>)
    requires ImageOk(img) && ScanComps(img, comps)
    ensures 0 < McusPerRow(img, comps) && 0 < McuRowsInScan(img, comps)
  {
    hide ImageOk, WidthInBlocks, HeightInBlocks, ImcuColumns, ImcuRows;
    BlocksOfComponent(img, comps[0]);
  }

  // The blocks of MCU k of the scan, in the order of coding
  function PlacesOf(img: Image, comps: seq<nat>, k: nat): seq<Place>
    requires ImageOk(img) && ScanComps(img, comps)
  {
    SomeMcus(img, comps);
    Places(img, comps, k / McusPerRow(img, comps), k % McusPerRow(img, comps), |comps|)
  }

  // A block that the scan sends: an interleaved one includes padding, another does not.
  predicate InScan(img: Image, comps: seq<nat>, p: Place)
    requires ImageOk(img) && ScanComps(img, comps)
  {
    p.c in comps && if |comps| == 1 then Real(img, p) else InPlane(img, p)
  }

  // All planes reach just as far as the MCUs do.
  lemma Extent(img: Image, comps: seq<nat>, i: nat, p: Place)
    requires ImageOk(img) && ScanComps(img, comps) && i < |comps| && p.c == comps[i]
    ensures InScan(img, comps, p) <==>
              p.y < McuRowsInScan(img, comps) * McuHeight(img, comps, i) && p.x < McusPerRow(img, comps) * McuWidth(img, comps, i)
  {
  }

  lemma Within(a: nat, n: nat, w: nat, x: nat)
    requires a < n && a * w <= x < a * w + w
    ensures x < n * w && x / w == a
  {
    ProductMonotonic(a + 1, n, w);
    Distribute(w, a, 1);
    DivMod(w, a, x - a * w);
  }

  lemma Unit(n: nat, w: nat, x: nat)
    requires x < n * w
    ensures 0 < w && x / w < n && x / w * w <= x < x / w * w + w
  {
    assert 0 < w;
    assert x == w * (x / w) + x % w;
    CancelLess(x / w, n, w);
  }

  // MCU k of a scan, by row and column
  lemma McuPosition(img: Image, comps: seq<nat>, k: nat)
    requires ImageOk(img) && ScanComps(img, comps) && k < McuCount(img, comps)
    ensures 0 < McusPerRow(img, comps) && k / McusPerRow(img, comps) < McuRowsInScan(img, comps)
    ensures k % McusPerRow(img, comps) < McusPerRow(img, comps)
  {
    SomeMcus(img, comps);
    Unit(McuRowsInScan(img, comps), McusPerRow(img, comps), k);
  }

  lemma McuIndex(img: Image, comps: seq<nat>, row: nat, col: nat)
    requires ImageOk(img) && ScanComps(img, comps) && row < McuRowsInScan(img, comps) && col < McusPerRow(img, comps)
    ensures var k := row * McusPerRow(img, comps) + col;
            k < McuCount(img, comps) && k / McusPerRow(img, comps) == row && k % McusPerRow(img, comps) == col
  {
    var w := McusPerRow(img, comps);
    Within(row, McuRowsInScan(img, comps), w, row * w + col);
    DivMod(w, row, col);
  }

  // What an MCU has is in the scan, and determines the MCU ...
  lemma PlaceDetermines(img: Image, comps: seq<nat>, k: nat, p: Place) returns (i: nat)
    requires ImageOk(img) && ScanComps(img, comps) && k < McuCount(img, comps) && p in PlacesOf(img, comps, k)
    ensures i < |comps| && p.c == comps[i] && InScan(img, comps, p) && 0 < McusPerRow(img, comps)
    ensures k / McusPerRow(img, comps) == p.y / McuHeight(img, comps, i)
    ensures k % McusPerRow(img, comps) == p.x / McuWidth(img, comps, i)
  {
    hide ImageOk, McuHeight, McuWidth, Places, InScan, McusPerRow, McuRowsInScan;
    McuPosition(img, comps, k);
    var row, col := k / McusPerRow(img, comps), k % McusPerRow(img, comps);
    PlacesContents(img, comps, row, col, |comps|);
    i :| 0 <= i < |comps| && InPart(img, comps, i, row, col, McuHeight(img, comps, i), p);
    Within(row, McuRowsInScan(img, comps), McuHeight(img, comps, i), p.y);
    Within(col, McusPerRow(img, comps), McuWidth(img, comps, i), p.x);
    Extent(img, comps, i, p);
  }

  // ... and everything in the scan is in some MCU.
  lemma McuWith(img: Image, comps: seq<nat>, p: Place) returns (k: nat)
    requires ImageOk(img) && ScanComps(img, comps) && InScan(img, comps, p)
    ensures k < McuCount(img, comps) && p in PlacesOf(img, comps, k)
  {
    hide ImageOk, McuHeight, McuWidth, Places, McusPerRow, McuRowsInScan, Real, InPlane, ScanComps;
    var i :| 0 <= i < |comps| && comps[i] == p.c;
    Extent(img, comps, i, p);
    Unit(McuRowsInScan(img, comps), McuHeight(img, comps, i), p.y);
    Unit(McusPerRow(img, comps), McuWidth(img, comps, i), p.x);
    var row, col := p.y / McuHeight(img, comps, i), p.x / McuWidth(img, comps, i);
    k := row * McusPerRow(img, comps) + col;
    McuIndex(img, comps, row, col);
    PlacesContents(img, comps, row, col, |comps|);
    assert InPart(img, comps, i, row, col, McuHeight(img, comps, i), p);
  }

  // ----- The layout of a scan in the array of all planes -----

  lemma PlacesInPlane(img: Image, comps: seq<nat>, k: nat)
    requires ImageOk(img) && ScanComps(img, comps) && k < McuCount(img, comps)
    ensures forall p :: p in PlacesOf(img, comps, k) ==> InPlane(img, p)
  {
    hide PlacesOf, McuCount, ImageOk, Real;
    forall p | p in PlacesOf(img, comps, k)
      ensures InPlane(img, p)
    {
      var i := PlaceDetermines(img, comps, k, p);
      if |comps| == 1 {
        RealInPlane(img, p);
      }
    }
  }

  function McuRows(img: Image, comps: seq<nat>, k: nat): (rows: seq<nat>)
    requires ImageOk(img) && ScanComps(img, comps) && k < McuCount(img, comps)
    ensures |rows| == |PlacesOf(img, comps, k)|
  {
    PlacesInPlane(img, comps, k);
    var places := PlacesOf(img, comps, k);
    seq(|places|, n requires 0 <= n < |places| => RowOf(img, places[n]))
  }

  function Layout(img: Image, comps: seq<nat>): seq<seq<nat>>
    requires ImageOk(img) && ScanComps(img, comps)
  {
    seq(McuCount(img, comps), k requires 0 <= k < McuCount(img, comps) => McuRows(img, comps, k))
  }

  lemma RowsWithin(img: Image, comps: seq<nat>, k: nat)
    requires ImageOk(img) && ScanComps(img, comps) && k < McuCount(img, comps)
    ensures RowsOk(McuRows(img, comps, k), Total(img)) && |McuRows(img, comps, k)| == |Membership(img, comps, |comps|)|
  {
    hide McuCount, ImageOk, InPlane, RowOf;
    PlacesInPlane(img, comps, k);
    McuPosition(img, comps, k);
    PlacesMatch(img, comps, k / McusPerRow(img, comps), k % McusPerRow(img, comps), |comps|);
    var rows := McuRows(img, comps, k);
    forall n | 0 <= n < |rows|
      ensures rows[n] < Total(img)
    {
      RowInside(img, PlacesOf(img, comps, k)[n]);
    }
  }

  // An MCU's rows differ, and those of different MCUs do.
  lemma RowDetermines(img: Image, comps: seq<nat>, k: nat, n: nat, k': nat, n': nat)
    requires ImageOk(img) && ScanComps(img, comps) && k < McuCount(img, comps) && k' < McuCount(img, comps)
    requires n < |McuRows(img, comps, k)| && n' < |McuRows(img, comps, k')|
    requires McuRows(img, comps, k)[n] == McuRows(img, comps, k')[n']
    ensures k == k' && n == n'
  {
    hide McuCount, ImageOk, InPlane, RowOf, Real, InScan, McuHeight, McuWidth, Places, McusPerRow, McuRowsInScan, ScanComps;
    PlacesInPlane(img, comps, k);
    PlacesInPlane(img, comps, k');
    var p := PlacesOf(img, comps, k)[n];
    RowsDiffer(img, p, PlacesOf(img, comps, k')[n']);
    var i := PlaceDetermines(img, comps, k, p);
    var i' := PlaceDetermines(img, comps, k', p);
    assert i == i' by {
      OneIndex(img, comps, i, i');
    }
    var w := McusPerRow(img, comps);
    assert k == w * (k / w) + k % w && k' == w * (k' / w) + k' % w;
    PlacesContents(img, comps, k / w, k % w, |comps|);
  }

  lemma OneIndex(img: Image, comps: seq<nat>, i: nat, j: nat)
    requires ScanComps(img, comps) && i < |comps| && j < |comps| && comps[i] == comps[j]
    ensures i == j
  {
  }

  // The scan sends each of its blocks once, and nothing else.
  lemma LayoutSound(img: Image, comps: seq<nat>)
    requires ImageOk(img) && ScanComps(img, comps)
    ensures DistinctLayout(Layout(img, comps))
    ensures forall k :: 0 <= k < |Layout(img, comps)| ==>
              |Layout(img, comps)[k]| == |Membership(img, comps, |comps|)| && RowsOk(Layout(img, comps)[k], Total(img))
  {
    hide ImageOk, ScanComps, McuRows, Total, Membership;
    var layout := Layout(img, comps);
    forall k | 0 <= k < |layout|
      ensures DistinctRows(layout[k]) && |layout[k]| == |Membership(img, comps, |comps|)| && RowsOk(layout[k], Total(img))
    {
      RowsWithin(img, comps, k);
      forall x, y | 0 <= x < y < |layout[k]|
        ensures layout[k][x] != layout[k][y]
      {
        if layout[k][x] == layout[k][y] {
          RowDetermines(img, comps, k, x, k, y);
        }
      }
    }
    forall i, j, x, y | 0 <= i < j < |layout| && 0 <= x < |layout[i]| && 0 <= y < |layout[j]|
      ensures layout[i][x] != layout[j][y]
    {
      if layout[i][x] == layout[j][y] {
        RowDetermines(img, comps, i, x, j, y);
      }
    }
  }

  lemma LayoutComplete(img: Image, comps: seq<nat>, p: Place)
    requires ImageOk(img) && ScanComps(img, comps) && InPlane(img, p)
    ensures InMcus(Layout(img, comps), |Layout(img, comps)|, RowOf(img, p)) <==> InScan(img, comps, p)
  {
    hide ImageOk, ScanComps, RowOf, PlacesOf, InPlane, InScan, McuCount;
    var layout, r := Layout(img, comps), RowOf(img, p);
    if InScan(img, comps, p) {
      var k := McuWith(img, comps, p);
      var n :| 0 <= n < |PlacesOf(img, comps, k)| && PlacesOf(img, comps, k)[n] == p;
      assert layout[k][n] == r;
    }
    if k :| 0 <= k < |layout| && r in layout[k] {
      PlacesInPlane(img, comps, k);
      var n :| 0 <= n < |layout[k]| && layout[k][n] == r;
      var q := PlacesOf(img, comps, k)[n];
      RowsDiffer(img, p, q);
      var i := PlaceDetermines(img, comps, k, q);
    }
  }
}
