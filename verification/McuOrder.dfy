// The order in which a scan has its blocks (section A.2 of ITU-T T.81): MCUs from left to right and from
// top to bottom, and in each the components in the order of the scan, their blocks again from left to
// right and from top to bottom.
module McuOrder {
  import opened Arithmetic
  import opened Geometry
  import opened McuPlaces

  // p comes first: its component does or, in the same component, its row, or its column in the same row.
  predicate Before(p: Place, q: Place) {
    p.c < q.c || (p.c == q.c && (p.y < q.y || (p.y == q.y && p.x < q.x)))
  }

  predicate Ascending(s: seq<Place>) {
    forall i, j :: 0 <= i < j < |s| ==> Before(s[i], s[j])
  }

  lemma AscendingConcat(a: seq<Place>, b: seq<Place>)
    requires Ascending(a) && Ascending(b) && forall p, q :: p in a && q in b ==> Before(p, q)
    ensures Ascending(a + b)
  {
    var s := a + b;
    forall i, j | 0 <= i < j < |s|
      ensures Before(s[i], s[j])
    {
      if i < |a| <= j {
        assert s[i] in a && s[j] in b;
      }
    }
  }

  lemma {:induction false} PartAscends(img: Image, comps: seq<nat>, i: nat, row: nat, col: nat, n: nat)
    requires ImageOk(img) && ScanComps(img, comps) && i < |comps|
    ensures Ascending(PartPlaces(img, comps, i, row, col, n))
    ensures forall p :: p in PartPlaces(img, comps, i, row, col, n) ==>
              p.c == comps[i] && p.y < FirstOf(row, McuHeight(img, comps, i)) + n
  {
    hide ImageOk, McuWidth, McuHeight, FirstOf;
    if n > 0 {
      PartAscends(img, comps, i, row, col, n - 1);
      AscendingConcat(PartPlaces(img, comps, i, row, col, n - 1),
        RowPlaces(comps[i], FirstOf(row, McuHeight(img, comps, i)) + (n - 1), FirstOf(col, McuWidth(img, comps, i)),
                  McuWidth(img, comps, i)));
    }
  }

  lemma {:induction false} PlacesAscend(img: Image, comps: seq<nat>, row: nat, col: nat, n: nat)
    requires ImageOk(img) && ScanComps(img, comps) && n <= |comps|
    ensures Ascending(Places(img, comps, row, col, n))
    ensures forall p :: p in Places(img, comps, row, col, n) ==> exists i :: 0 <= i < n && p.c == comps[i]
  {
    hide ImageOk, McuWidth, McuHeight, FirstOf, PartPlaces;
    if n > 0 {
      PlacesAscend(img, comps, row, col, n - 1);
      PartAscends(img, comps, n - 1, row, col, McuHeight(img, comps, n - 1));
      AscendingConcat(Places(img, comps, row, col, n - 1), PartPlaces(img, comps, n - 1, row, col, McuHeight(img, comps, n - 1)));
    }
  }

  // The blocks of an MCU are in order.
  lemma McuInOrder(img: Image, comps: seq<nat>, k: nat)
    requires ImageOk(img) && ScanComps(img, comps)
    ensures Ascending(PlacesOf(img, comps, k))
  {
    hide ImageOk, Places, Ascending, McusPerRow;
    SomeMcus(img, comps);
    PlacesAscend(img, comps, k / McusPerRow(img, comps), k % McusPerRow(img, comps), |comps|);
  }

  // Row and column of the MCU that a block of component i belongs to
  function McuOf(img: Image, comps: seq<nat>, i: nat, p: Place): (nat, nat)
    requires ImageOk(img) && ScanComps(img, comps) && i < |comps|
  {
    (p.y / McuHeight(img, comps, i), p.x / McuWidth(img, comps, i))
  }

  // MCUs are in order, so that earlier ones have blocks further up or, in the same row, to the left.
  lemma ScanInOrder(img: Image, comps: seq<nat>, j: nat, p: Place, k: nat, q: Place) returns (a: nat, b: nat)
    requires ImageOk(img) && ScanComps(img, comps) && j < k < McuCount(img, comps)
    requires p in PlacesOf(img, comps, j) && q in PlacesOf(img, comps, k)
    ensures a < |comps| && p.c == comps[a] && b < |comps| && q.c == comps[b]
    ensures var m, n := McuOf(img, comps, a, p), McuOf(img, comps, b, q); m.0 < n.0 || (m.0 == n.0 && m.1 < n.1)
  {
    hide ImageOk, McuHeight, McuWidth, Places, InScan, McusPerRow, McuRowsInScan, PlacesOf;
    a := PlaceDetermines(img, comps, j, p);
    b := PlaceDetermines(img, comps, k, q);
    InRows(j, k, McusPerRow(img, comps));
  }

  lemma InRows(j: nat, k: nat, w: nat)
    requires j < k && 0 < w
    ensures j / w < k / w || (j / w == k / w && j % w < k % w)
  {
    assert j == w * (j / w) + j % w && k == w * (k / w) + k % w;
    if j / w > k / w {
      MulGap(w, k / w, j / w);
    }
  }
}
