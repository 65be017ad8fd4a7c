// Marker segments as a reader sees them that knows only of markers and of lengths, and what it finds in
// them: sections B.1.1.4 and B.2 of ITU-T T.81.
module MarkerWalk {
  import opened ArithInterval
  import opened ArithScan
  import opened HuffmanLimit
  import opened HuffmanGen
  import opened MarkerSegments

  // A marker, and the parameters behind its length
  datatype Parcel = Parcel(marker: Byte, payload: seq<Byte>)

  datatype Walked = Walked(parcel: Parcel, rest: seq<Byte>)

  // A number of two bytes, the more significant one first
  function Number(high: Byte, low: Byte): nat {
    0x100 * high + low
  }

  // A segment has 0xFF, its marker, and a length, which counts its own two bytes.
  predicate CanWalk(bytes: seq<Byte>) {
    |bytes| >= 4 && bytes[0] == 0xFF && Number(bytes[2], bytes[3]) >= 2 && |bytes| >= 2 + Number(bytes[2], bytes[3])
  }

  function Walk(bytes: seq<Byte>): Walked
    requires CanWalk(bytes)
  {
    var end := 2 + Number(bytes[2], bytes[3]);
    Walked(Parcel(bytes[1], bytes[4..end]), bytes[end..])
  }

  // ----- What is in a segment -----

  // Entries in zigzag order, of 8 bits, or of 16 bits if one needs them
  predicate QuantPayload(order: seq<nat>, index: nat, table: seq<UInt16>, p: seq<Byte>)
    requires OrderFits(order) && |table| == DCTSIZE2
  {
    if forall k :: 0 <= k < DCTSIZE2 ==> table[k] <= 255 then
      |p| == 65 && p[0] == index && forall k :: 0 <= k < DCTSIZE2 ==> p[1 + k] == table[order[k]]
    else
      && |p| == 129 && p[0] == 0x10 + index
      && forall k :: 0 <= k < DCTSIZE2 ==> Number(p[1 + 2 * k], p[1 + 2 * k + 1]) == table[order[k]]
  }

  // The class and number of the table, the numbers of code words by length, and their symbols
  ghost predicate HuffPayload(isAc: bool, index: nat, h: HuffTable, p: seq<Byte>)
    requires HuffFits(h)
  {
    && |p| == 17 + Words(h.bits, 17) && p[0] == (if isAc then 0x10 + index else index)
    && (forall l :: 1 <= l <= 16 ==> p[l] == h.bits[l]) && forall i :: 0 <= i < Words(h.bits, 17) ==> p[17 + i] == h.huffval[i]
  }

  predicate ArithPayload(entries: seq<ArithEntry>, p: seq<Byte>) {
    && |p| == 2 * |entries|
    && forall i :: 0 <= i < |entries| ==> p[2 * i] == entries[i].index && p[2 * i + 1] == entries[i].val
  }

  // Precision, height and width, and each component with its factors and its quantization table
  predicate FramePayload(f: FrameInfo, p: seq<Byte>) {
    && |p| == 6 + 3 * |f.comps| && p[0] == f.precision && Number(p[1], p[2]) == f.height && Number(p[3], p[4]) == f.width
    && p[5] == |f.comps|
    && forall c :: 0 <= c < |f.comps| ==>
         p[6 + 3 * c] == f.comps[c].id && p[6 + 3 * c + 1] == 0x10 * f.comps[c].h + f.comps[c].v && p[6 + 3 * c + 2] == f.comps[c].quantTbl
  }

  // Each component by its identifier, with its tables, the band, and the bits
  predicate ScanPayload(f: FrameInfo, h: ScanHeader, p: seq<Byte>)
    requires |h.dcTbl| == |h.acTbl| == |h.comps| && forall i :: 0 <= i < |h.comps| ==> h.comps[i] < |f.comps|
  {
    var n := |h.comps|;
    && |p| == 2 * n + 4 && p[0] == n && p[2 * n + 1] == h.Ss && p[2 * n + 2] == h.Se && p[2 * n + 3] == 0x10 * h.Ah + h.Al
    && forall i :: 0 <= i < n ==> p[1 + 2 * i] == f.comps[h.comps[i]].id && p[1 + 2 * i + 1] == 0x10 * h.dcTbl[i] + h.acTbl[i]
  }

  // Table B.1: the markers of these segments, and their parameters
  ghost predicate Spells(order: seq<nat>, s: MarkerSegment, x: Parcel)
    requires OrderFits(order) && SegmentFits(s)
  {
    match s
    case DefineQuant(index, table) => x.marker == 0xDB && QuantPayload(order, index, table, x.payload)
    case DefineHuff(isAc, index, huff) => x.marker == 0xC4 && HuffPayload(isAc, index, huff, x.payload)
    case DefineArith(entries) => x.marker == 0xCC && ArithPayload(entries, x.payload)
    case DefineRestart(interval) => x.marker == 0xDD && |x.payload| == 2 && Number(x.payload[0], x.payload[1]) == interval
    case DefineFrame(code, f) =>
      && FramePayload(f, x.payload)
      && (if f.arith then x.marker == (if f.progressive then 0xCA else 0xC9)
          else if f.progressive then x.marker == 0xC2 else x.marker == 0xC0 || x.marker == 0xC1)
    case Application(marker, data) => 0xE0 <= x.marker == marker <= 0xEF && x.payload == data
  }

  // ----- Lists in segments -----

  lemma {:induction false} ShortEntries(order: seq<nat>, table: seq<UInt16>, i: nat)
    requires OrderFits(order) && |table| == DCTSIZE2 && i <= DCTSIZE2 && Precision(table) == 0
    ensures var q := QuantFrom(order, 0, table, i);
            |q| == DCTSIZE2 - i && forall k :: i <= k < DCTSIZE2 ==> q[k - i] == table[order[k]]
    decreases DCTSIZE2 - i
  {
    hide Precision;
    if i < DCTSIZE2 {
      ShortEntries(order, table, i + 1);
      NextEntry(order, 0, table, i, []);
      assert QuantEntry(0, table[order[i]]) == [table[order[i]]];
    }
  }

  lemma {:induction false} LongEntries(order: seq<nat>, table: seq<UInt16>, i: nat)
    requires OrderFits(order) && |table| == DCTSIZE2 && i <= DCTSIZE2 && Precision(table) <= 1
    ensures var q := QuantFrom(order, 1, table, i);
            && |q| == 2 * (DCTSIZE2 - i)
            && forall k :: i <= k < DCTSIZE2 ==> Number(q[2 * (k - i)], q[2 * (k - i) + 1]) == table[order[k]]
    decreases DCTSIZE2 - i
  {
    hide Precision;
    if i < DCTSIZE2 {
      LongEntries(order, table, i + 1);
      var v, q := table[order[i]], QuantFrom(order, 1, table, i + 1);
      assert QuantFrom(order, 1, table, i) == [v / 0x100, v % 0x100] + q;
      assert Number(v / 0x100, v % 0x100) == v;
      hide Number, QuantFrom;
      var both := [v / 0x100, v % 0x100] + q;
      assert forall j :: 2 <= j < |both| ==> both[j] == q[j - 2];
    }
  }

  lemma {:induction false} CompsAre(comps: seq<CompInfo>, i: nat)
    requires i <= |comps| && forall c :: 0 <= c < |comps| ==> comps[c].h < 16 && comps[c].v < 16
    ensures var q := CompBytesFrom(comps, i);
            && |q| == 3 * (|comps| - i)
            && forall c :: i <= c < |comps| ==>
                 && q[3 * (c - i)] == comps[c].id && q[3 * (c - i) + 1] == 0x10 * comps[c].h + comps[c].v
                 && q[3 * (c - i) + 2] == comps[c].quantTbl
    decreases |comps| - i
  {
    if i < |comps| {
      CompsAre(comps, i + 1);
    }
  }

  lemma {:induction false} ArithsAre(entries: seq<ArithEntry>, i: nat)
    requires i <= |entries| && forall k :: 0 <= k < |entries| ==> entries[k].index < 2 * NUM_ARITH_TBLS
    ensures var q := ArithBytesFrom(entries, i);
            && |q| == 2 * (|entries| - i)
            && forall k :: i <= k < |entries| ==> q[2 * (k - i)] == entries[k].index && q[2 * (k - i) + 1] == entries[k].val
    decreases |entries| - i
  {
    if i < |entries| {
      ArithsAre(entries, i + 1);
    }
  }

  lemma {:induction false} SelectorsAre(f: FrameInfo, h: ScanHeader, i: nat)
    requires HeaderFits(f, h) && i <= |h.comps|
    ensures var q := SelectorsFrom(f, h, i);
            && |q| == 2 * (|h.comps| - i)
            && forall k :: i <= k < |h.comps| ==>
                 q[2 * (k - i)] == f.comps[h.comps[k]].id && q[2 * (k - i) + 1] == 0x10 * h.dcTbl[k] + h.acTbl[k]
    decreases |h.comps| - i
  {
    if i < |h.comps| {
      SelectorsAre(f, h, i + 1);
    }
  }

  // ----- Walking -----

  // Two bytes of length and the parameters behind them
  lemma WalkBody(marker: Byte, n: UInt16, payload: seq<Byte>, tail: seq<Byte>)
    requires n == |payload| + 2
    ensures var bytes := [0xFF, marker] + (Two(n) + payload) + tail;
            CanWalk(bytes) && Walk(bytes) == Walked(Parcel(marker, payload), tail)
  {
    var bytes := [0xFF, marker] + (Two(n) + payload) + tail;
    assert bytes[2] == n / 0x100 && bytes[3] == n % 0x100 && Number(bytes[2], bytes[3]) == n;
    assert bytes == [0xFF, marker, bytes[2], bytes[3]] + payload + tail;
  }

  lemma QuantSpelled(order: seq<nat>, index: nat, table: seq<UInt16>) returns (p: seq<Byte>)
    requires OrderFits(order) && index < NUM_QUANT_TBLS && |table| == DCTSIZE2
    ensures |p| <= 129 && QuantBody(order, index, table) == Two(|p| + 2) + p && QuantPayload(order, index, table, p)
  {
    hide QuantFrom, Two, Number;
    p := [index + 16 * Precision(table)] + QuantFrom(order, Precision(table), table, 0);
    if Precision(table) == 0 {
      ShortEntries(order, table, 0);
    } else {
      LongEntries(order, table, 0);
    }
  }

  lemma HuffSpelled(isAc: bool, index: nat, h: HuffTable) returns (p: seq<Byte>)
    requires index < NUM_HUFF_TBLS && HuffFits(h)
    ensures |p| <= 17 + SYMBOLS && HuffBody(isAc, index, h) == Two(|p| + 2) + p && HuffPayload(isAc, index, h, p)
  {
    hide Two, Words;
    p := [if isAc then index + 0x10 else index] + (h.bits[1..] + h.huffval[..Words(h.bits, 17)]);
  }

  lemma FrameSpelled(code: Byte, f: FrameInfo) returns (p: seq<Byte>)
    requires FrameFits(code, f)
    ensures |p| <= 6 + 3 * MAX_COMPONENTS && FrameBody(code, f) == Two(|p| + 2) + p && FramePayload(f, p)
  {
    hide CompBytesFrom;
    CompsAre(f.comps, 0);
    p := [f.precision] + Two(f.height) + Two(f.width) + [|f.comps|] + CompBytesFrom(f.comps, 0);
  }

  // A segment is walked in one step, and says what it is to say.
  lemma SegmentWalks(order: seq<nat>, s: MarkerSegment, tail: seq<Byte>)
    requires OrderFits(order) && SegmentFits(s)
    ensures var bytes := BytesOf(order, s) + tail;
            CanWalk(bytes) && Walk(bytes).rest == tail && Spells(order, s, Walk(bytes).parcel)
  {
    hide CanWalk, Walk, QuantBody, QuantPayload, HuffBody, HuffPayload, HuffFits, FrameBody, FramePayload, OrderFits, Two, ArithBytesFrom;
    var p: seq<Byte>;
    match s {
      case DefineQuant(index, table) => p := QuantSpelled(order, index, table);
      case DefineHuff(isAc, index, huff) => p := HuffSpelled(isAc, index, huff);
      case DefineArith(entries) =>
        ArithsAre(entries, 0);
        p := ArithBytesFrom(entries, 0);
      case DefineRestart(interval) =>
        p := Two(interval);
        TwoNumber(interval);
      case DefineFrame(code, f) => p := FrameSpelled(code, f);
      case Application(marker, data) => p := data;
    }
    WalkBody(MarkerOf(s), |p| + 2, p, tail);
  }

  lemma TwoNumber(v: UInt16)
    ensures |Two(v)| == 2 && Number(Two(v)[0], Two(v)[1]) == v
  {
  }

  // Walking over several segments
  function WalkMany(bytes: seq<Byte>, n: nat): (r: (seq<Parcel>, seq<Byte>))
    ensures |r.0| <= n
  {
    if n == 0 || !CanWalk(bytes) then ([], bytes)
    else var w := Walk(bytes); var r := WalkMany(w.rest, n - 1); ([w.parcel] + r.0, r.1)
  }

  // All segments are found, one behind the other, and what follows them.
  lemma {:induction false} AllWalk(order: seq<nat>, segments: seq<MarkerSegment>, tail: seq<Byte>)
    requires OrderFits(order) && AllFit(segments)
    ensures var r := WalkMany(AllBytes(order, segments) + tail, |segments|);
            |r.0| == |segments| && r.1 == tail && forall i :: 0 <= i < |segments| ==> Spells(order, segments[i], r.0[i])
    decreases |segments|
  {
    hide OrderFits, SegmentFits, BytesOf, Spells, CanWalk, Walk;
    if segments == [] {
      assert AllBytes(order, segments) + tail == tail;
    } else {
      AllWalk(order, segments[1..], tail);
      SegmentWalks(order, segments[0], AllBytes(order, segments[1..]) + tail);
      assert BytesOf(order, segments[0]) + (AllBytes(order, segments[1..]) + tail) == AllBytes(order, segments) + tail;
    }
  }

  // So is a scan header.
  lemma HeaderWalks(f: FrameInfo, h: ScanHeader, tail: seq<Byte>)
    requires HeaderFits(f, h)
    ensures var bytes := [0xFF, SOS] + HeaderBody(f, h) + tail;
            && CanWalk(bytes) && Walk(bytes).rest == tail && Walk(bytes).parcel.marker == 0xDA
            && ScanPayload(f, h, Walk(bytes).parcel.payload)
  {
    hide CanWalk, Walk, SelectorsFrom, Two;
    SelectorsAre(f, h, 0);
    var n, q := |h.comps|, SelectorsFrom(f, h, 0);
    var p := [n] + q + [h.Ss, h.Se, 16 * h.Ah + h.Al];
    assert HeaderBody(f, h) == Two(|p| + 2) + p;
    WalkBody(SOS, |p| + 2, p, tail);
  }

  // A start-of-image marker sets the defaults of T.81: lower and upper bounds 0 and 1, threshold 5, and no
  // restarts; the tables stay.
  lemma ImageStarts(p: Params)
    ensures var q := Reset(p);
            && q == p.(dcL := q.dcL, dcU := q.dcU, acK := q.acK, restartInterval := 0)
            && |q.dcL| == |q.dcU| == |q.acK| == 16 && forall n :: 0 <= n < 16 ==> q.dcL[n] == 0 && q.dcU[n] == 1 && q.acK[n] == 5
  {
  }
}
