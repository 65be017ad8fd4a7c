// Scans of a whole image: what each one leaves in the coefficient arrays of the decoder,
// and what a legal sequence of scans adds up to.
module ArithImage {
  import opened ArithInterval
  import opened ByteSource
  import opened ArithScan
  import opened PointTransform
  import opened ArithSegments
  import opened ArithMcuEncoder
  import opened ArithScanDecoder

  // ----- One MCU -----

  lemma {:induction false} McuUntouched(s: Scan, mcu: seq<Block>, rows: seq<nat>, was: seq<Block>, n: nat, r: nat)
    requires ScanOk(s) && |mcu| == |rows| && n <= |rows| && RowsOk(rows, |was|) && r < |was|
    requires forall x :: 0 <= x < n ==> rows[x] != r
    ensures McuResult(s, mcu, rows, was, n)[r] == was[r]
  {
    hide BlockResult, ScanOk;
    if n > 0 {
      McuUntouched(s, mcu, rows, was, n - 1, r);
    }
  }

  lemma {:induction false} McuStored(s: Scan, mcu: seq<Block>, rows: seq<nat>, was: seq<Block>, n: nat, x: nat)
    requires ScanOk(s) && |mcu| == |rows| && x < n <= |rows| && RowsOk(rows, |was|) && DistinctRows(rows)
    ensures McuResult(s, mcu, rows, was, n)[rows[x]] == BlockResult(s, mcu[x], was[rows[x]])
  {
    hide BlockResult, ScanOk;
    if x < n - 1 {
      McuStored(s, mcu, rows, was, n - 1, x);
    } else {
      McuUntouched(s, mcu, rows, was, n - 1, rows[x]);
    }
  }

  // ----- One scan -----

  function McuOf(orig: seq<Block>, rows: seq<nat>): seq<Block>
    requires RowsOk(rows, |orig|)
  {
    seq(|rows|, x requires 0 <= x < |rows| => orig[rows[x]])
  }

  function McusOf(s: Scan, orig: seq<Block>, layout: seq<seq<nat>>): (mcus: seq<seq<Block>>)
    requires LayoutOk(s, layout, |orig|)
    ensures |mcus| == |layout| && McusOk(s, mcus)
  {
    seq(|layout|, i requires 0 <= i < |layout| => McuOf(orig, layout[i]))
  }

  // The first n MCUs of a scan update the rows of their blocks and nothing else.
  lemma {:induction false} ScanStored(s: Scan, orig: seq<Block>, layout: seq<seq<nat>>, was: seq<Block>, n: nat, r: nat)
    requires ScanOk(s) && LayoutOk(s, layout, |was|) && |orig| == |was| && DistinctLayout(layout)
    requires n <= |layout| && r < |was|
    ensures ScanResult(s, McusOf(s, orig, layout), layout, was, n)[r]
         == if InMcus(layout, n, r) then BlockResult(s, orig[r], was[r]) else was[r]
  {
    hide BlockResult, ScanOk, McuResult, DistinctRows;
    if n > 0 {
      ScanStored(s, orig, layout, was, n - 1, r);
      var before, rows := ScanResult(s, McusOf(s, orig, layout), layout, was, n - 1), layout[n - 1];
      if r in rows {
        var x :| 0 <= x < |rows| && rows[x] == r;
        McuStored(s, McusOf(s, orig, layout)[n - 1], rows, before, |rows|, x);
      } else {
        McuUntouched(s, McusOf(s, orig, layout)[n - 1], rows, before, |rows|, r);
      }
    }
  }

  // Blocks that are at the level a scan starts from stay so until the scan reaches them.
  lemma KnownFromBlocks(s: Scan, orig: seq<Block>, layout: seq<seq<nat>>, was: seq<Block>)
    requires ScanOk(s) && LayoutOk(s, layout, |was|) && |orig| == |was| && DistinctLayout(layout)
    requires forall r :: 0 <= r < |was| && InMcus(layout, |layout|, r) ==> BandKnown(s, orig[r], was[r])
    ensures ScanKnown(s, McusOf(s, orig, layout), layout, was)
  {
    hide BandKnown, ScanOk, McuResult, ScanResult;
    var mcus := McusOf(s, orig, layout);
    forall i | 0 <= i < |mcus|
      ensures McuKnown(s, mcus[i], layout[i], ScanResult(s, mcus, layout, was, i))
    {
      var before, rows := ScanResult(s, mcus, layout, was, i), layout[i];
      forall x | 0 <= x < |rows|
        ensures BandKnown(s, mcus[i][x], McuResult(s, mcus[i], rows, before, x)[rows[x]])
      {
        ReachedBlock(s, orig, layout, was, i, x);
      }
    }
  }

  lemma ReachedBlock(s: Scan, orig: seq<Block>, layout: seq<seq<nat>>, was: seq<Block>, i: nat, x: nat)
    requires ScanOk(s) && LayoutOk(s, layout, |was|) && |orig| == |was| && DistinctLayout(layout)
    requires i < |layout| && x < |layout[i]|
    ensures var mcus := McusOf(s, orig, layout);
            var r := layout[i][x];
            && McuResult(s, mcus[i], layout[i], ScanResult(s, mcus, layout, was, i), x)[r] == was[r]
            && mcus[i][x] == orig[r] && InMcus(layout, |layout|, r)
  {
    hide BandKnown, ScanOk, McuResult, ScanResult;
    var mcus, r := McusOf(s, orig, layout), layout[i][x];
    ScanStored(s, orig, layout, was, i, r);
    McuUntouched(s, mcus[i], layout[i], ScanResult(s, mcus, layout, was, i), x, r);
  }

  // Coding a scan and decoding it from the bytes in front of any marker: each block of the
  // scan is brought to the scan's level, no other block changes, the statistics end up the
  // same on both sides, and the decoder finds the marker without having to skip any data.
  // There is a warning instead just if a DC difference is one that the decoder cannot represent.
  method ScanRoundTrip(s: Scan, mcus: seq<seq<Block>>, layout: seq<seq<nat>>, planes: array<Block>, previous: Statistics,
                       marker: Byte, follow: seq<Byte>, ghost orig: seq<Block>)
    returns (coded: Statistics, decoded: Statistics, clean: bool)
    requires ScanOk(s) && LayoutOk(s, layout, |orig|) && DistinctLayout(layout) && |orig| == planes.Length
    requires mcus == McusOf(s, orig, layout)
    requires marker != 0 && marker != 0xFF
    requires forall r :: 0 <= r < |orig| && InMcus(layout, |layout|, r) ==> BandKnown(s, orig[r], planes[r])
    modifies planes
    ensures clean <==> ScanInRange(s, mcus)
    ensures clean ==> decoded == coded
    ensures clean ==> forall r :: 0 <= r < |orig| ==>
              planes[r] == if InMcus(layout, |layout|, r) then BlockResult(s, orig[r], old(planes[r])) else old(planes[r])
  {
    hide OrderOk, TablesOk, ProgressionOk, ScanInRange, ScanCoded, BandKnown, BlockResult, ScanKnown, ScanResult, ScanBytes,
      Restarted, Remaining, LayoutOk, DistinctLayout, McusOk;
    var out;
    ghost var segments;
    out, coded, segments := EncodeScan(s, mcus, previous, []);
    ghost var was := planes[..];
    KnownFromBlocks(s, orig, layout, was);
    ghost var x := Sent(mcus, previous, segments, coded, marker, follow, layout, was);
    var trailer := [0xFF, marker] + follow;
    WholeStream(segments, trailer);
    var marker', rest;
    decoded, marker', rest, clean := DecodeScan(s, layout, planes, previous, out + trailer, x);
    forall r | 0 <= r < |orig| && clean
      ensures planes[..][r] == if InMcus(layout, |layout|, r) then BlockResult(s, orig[r], was[r]) else was[r]
    {
      ScanStored(s, orig, layout, was, |layout|, r);
    }
  }
}
