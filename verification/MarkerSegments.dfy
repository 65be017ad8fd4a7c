// The marker segments that precede the scans of a file: their bytes (annex B of ITU-T T.81), and what
// they change in the decoder.
module MarkerSegments {
  import opened ArithInterval
  import opened ArithScan
  import opened HuffmanLimit
  import opened HuffmanGen

  const NUM_QUANT_TBLS := 4
  const NUM_HUFF_TBLS := 4

  const SOF0: Byte := 0xC0
  const SOF1: Byte := 0xC1
  const SOF2: Byte := 0xC2
  const SOF9: Byte := 0xC9
  const SOF10: Byte := 0xCA
  const DHT: Byte := 0xC4
  const DAC: Byte := 0xCC
  const SOI: Byte := 0xD8
  const SOS: Byte := 0xDA
  const DQT: Byte := 0xDB
  const DRI: Byte := 0xDD
  const DNL: Byte := 0xDC
  const APP0: Byte := 0xE0
  const COM: Byte := 0xFE
  const TEM: Byte := 0x01

  type UInt16 = x: nat | x < 0x1_0000

  datatype Option<T> = None | Some(value: T)

  // A component, and a frame header
  datatype CompInfo = CompInfo(id: Byte, h: nat, v: nat, quantTbl: Byte)

  datatype FrameInfo = FrameInfo(progressive: bool, arith: bool, precision: Byte, height: UInt16, width: UInt16, comps: seq<CompInfo>)

  // A scan header: components by index, and the tables given for them
  datatype ScanHeader = ScanHeader(comps: seq<nat>, dcTbl: seq<nat>, acTbl: seq<nat>, Ss: Byte, Se: Byte, Ah: nat, Al: nat)

  datatype ArithEntry = ArithEntry(index: nat, val: Byte)

  // What comes before a scan header
  datatype MarkerSegment =
    | DefineQuant(index: nat, table: seq<UInt16>)
    | DefineHuff(isAc: bool, index: nat, huff: HuffTable)
    | DefineArith(entries: seq<ArithEntry>)
    | DefineRestart(interval: UInt16)
    | DefineFrame(code: Byte, frame: FrameInfo)
    | Application(marker: Byte, data: seq<Byte>)

  // ----- Bytes -----

  function Two(v: UInt16): seq<Byte> {
    [v / 0x100, v % 0x100]
  }

  // 16-bit entries are used if an entry needs them.
  function Precision(table: seq<UInt16>): (prec: nat)
    ensures prec <= 1 && (prec == 0 <==> forall i :: 0 <= i < |table| ==> table[i] <= 255)
  {
    if exists i :: 0 <= i < |table| && table[i] > 255 then 1 else 0
  }

  function QuantEntry(prec: nat, v: UInt16): seq<Byte>
    requires prec == 0 ==> v <= 255
  {
    if prec == 0 then [v] else Two(v)
  }

  // Entries from zigzag position i on
  function QuantFrom(order: seq<nat>, prec: nat, table: seq<UInt16>, i: nat): seq<Byte>
    requires OrderFits(order) && |table| == DCTSIZE2 && i <= DCTSIZE2 && Precision(table) <= prec
    decreases DCTSIZE2 - i
  {
    if i == DCTSIZE2 then [] else QuantEntry(prec, table[order[i]]) + QuantFrom(order, prec, table, i + 1)
  }

  lemma NextEntry(order: seq<nat>, prec: nat, table: seq<UInt16>, i: nat, tail: seq<Byte>)
    requires OrderFits(order) && |table| == DCTSIZE2 && i < DCTSIZE2 && Precision(table) <= prec
    ensures order[i] < DCTSIZE2 && (prec == 0 ==> table[order[i]] <= 255)
    ensures QuantFrom(order, prec, table, i) + tail == QuantEntry(prec, table[order[i]]) + (QuantFrom(order, prec, table, i + 1) + tail)
  {
  }

  lemma LastEntry(order: seq<nat>, prec: nat, table: seq<UInt16>, tail: seq<Byte>)
    requires OrderFits(order) && |table| == DCTSIZE2 && Precision(table) <= prec
    ensures QuantFrom(order, prec, table, DCTSIZE2) + tail == tail
  {
  }

  function ArithBytesFrom(entries: seq<ArithEntry>, i: nat): seq<Byte>
    requires i <= |entries| && forall k :: 0 <= k < |entries| ==> entries[k].index < 2 * NUM_ARITH_TBLS
    decreases |entries| - i
  {
    if i == |entries| then [] else [entries[i].index, entries[i].val] + ArithBytesFrom(entries, i + 1)
  }

  function CompBytesFrom(comps: seq<CompInfo>, i: nat): seq<Byte>
    requires i <= |comps| && forall c :: 0 <= c < |comps| ==> comps[c].h < 16 && comps[c].v < 16
    decreases |comps| - i
  {
    if i == |comps| then []
    else [comps[i].id, 16 * comps[i].h + comps[i].v, comps[i].quantTbl] + CompBytesFrom(comps, i + 1)
  }

  lemma NextComponent(comps: seq<CompInfo>, ci: nat, tail: seq<Byte>)
    requires ci < |comps| && forall c :: 0 <= c < |comps| ==> comps[c].h < 16 && comps[c].v < 16
    ensures var x := comps[ci];
            CompBytesFrom(comps, ci) + tail == [x.id] + ([16 * x.h + x.v] + ([x.quantTbl] + (CompBytesFrom(comps, ci + 1) + tail)))
  {
  }

  lemma LastComponent(comps: seq<CompInfo>, tail: seq<Byte>)
    requires forall c :: 0 <= c < |comps| ==> comps[c].h < 16 && comps[c].v < 16
    ensures CompBytesFrom(comps, |comps|) + tail == tail
  {
  }

  lemma NextArith(entries: seq<ArithEntry>, k: nat, tail: seq<Byte>)
    requires EntriesFit(entries) && k < |entries|
    ensures ArithBytesFrom(entries, k) + tail
         == [entries[k].index] + ([entries[k].val] + (ArithBytesFrom(entries, k + 1) + tail))
  {
  }

  lemma LastArith(entries: seq<ArithEntry>, tail: seq<Byte>)
    requires EntriesFit(entries)
    ensures ArithBytesFrom(entries, |entries|) + tail == tail
  {
  }

  predicate OrderFits(order: seq<nat>) {
    |order| == DCTSIZE2 && forall k :: 0 <= k < DCTSIZE2 ==> order[k] < DCTSIZE2
  }

  // Segments that can be written
  ghost predicate SegmentFits(s: MarkerSegment) {
    match s
    case DefineQuant(index, table) => index < NUM_QUANT_TBLS && |table| == DCTSIZE2
    case DefineHuff(isAc, index, huff) => index < NUM_HUFF_TBLS && HuffFits(huff)
    case DefineArith(entries) => EntriesFit(entries)
    case DefineRestart(interval) => true
    case DefineFrame(code, frame) => FrameFits(code, frame)
    case Application(marker, data) => APP0 <= marker < APP0 + 16 && |data| <= 65533
  }

  ghost predicate HuffFits(h: HuffTable) {
    |h.bits| == 17 && |h.huffval| == SYMBOLS && Words(h.bits, 17) <= SYMBOLS
  }

  ghost predicate EntriesFit(entries: seq<ArithEntry>) {
    |entries| <= 2 * NUM_ARITH_TBLS && forall k :: 0 <= k < |entries| ==> EntryFits(entries[k])
  }

  // Lower and upper bounds, or a threshold
  predicate EntryFits(e: ArithEntry) {
    e.index < 2 * NUM_ARITH_TBLS && (e.index < NUM_ARITH_TBLS ==> e.val % 16 <= e.val / 16)
  }

  function FrameCode(progressive: bool, arith: bool, baseline: bool): Byte {
    if arith then (if progressive then SOF10 else SOF9)
    else if progressive then SOF2
    else if baseline then SOF0
    else SOF1
  }

  ghost predicate FrameFits(code: Byte, frame: FrameInfo) {
    && (code == FrameCode(frame.progressive, frame.arith, true) || code == FrameCode(frame.progressive, frame.arith, false))
    && 0 < frame.height && 0 < frame.width && 0 < |frame.comps| <= MAX_COMPONENTS
    && forall c :: 0 <= c < |frame.comps| ==> frame.comps[c].h < 16 && frame.comps[c].v < 16
  }

  // The segment's marker, and what follows it
  function MarkerOf(s: MarkerSegment): Byte {
    match s
    case DefineQuant(_, _) => DQT
    case DefineHuff(_, _, _) => DHT
    case DefineArith(_) => DAC
    case DefineRestart(_) => DRI
    case DefineFrame(code, _) => code
    case Application(marker, _) => marker
  }

  // The segments' lengths and parameters
  function QuantBody(order: seq<nat>, index: nat, table: seq<UInt16>): seq<Byte>
    requires OrderFits(order) && index < NUM_QUANT_TBLS && |table| == DCTSIZE2
  {
    var prec := Precision(table);
    Two(if prec == 1 then DCTSIZE2 * 2 + 1 + 2 else DCTSIZE2 + 1 + 2) + ([index + 16 * prec] + QuantFrom(order, prec, table, 0))
  }

  ghost function HuffBody(isAc: bool, index: nat, h: HuffTable): seq<Byte>
    requires index < NUM_HUFF_TBLS && HuffFits(h)
  {
    var n := Words(h.bits, 17);
    Two(n + 2 + 1 + 16) + ([if isAc then index + 0x10 else index] + (h.bits[1..] + h.huffval[..n]))
  }

  ghost function ArithBody(entries: seq<ArithEntry>): seq<Byte>
    requires EntriesFit(entries)
  {
    Two(2 * |entries| + 2) + ArithBytesFrom(entries, 0)
  }

  ghost function FrameBody(code: Byte, frame: FrameInfo): seq<Byte>
    requires FrameFits(code, frame)
  {
    Two(3 * |frame.comps| + 2 + 5 + 1)
    + ([frame.precision] + Two(frame.height) + Two(frame.width) + [|frame.comps|] + CompBytesFrom(frame.comps, 0))
  }

  ghost function BodyOf(order: seq<nat>, s: MarkerSegment): seq<Byte>
    requires OrderFits(order) && SegmentFits(s)
  {
    match s
    case DefineQuant(index, table) => QuantBody(order, index, table)
    case DefineHuff(isAc, index, huff) => HuffBody(isAc, index, huff)
    case DefineArith(entries) => ArithBody(entries)
    case DefineRestart(interval) => Two(4) + Two(interval)
    case DefineFrame(code, frame) => FrameBody(code, frame)
    case Application(marker, data) => Two(|data| + 2) + data
  }

  ghost function BytesOf(order: seq<nat>, s: MarkerSegment): seq<Byte>
    requires OrderFits(order) && SegmentFits(s)
  {
    [0xFF, MarkerOf(s)] + BodyOf(order, s)
  }

  ghost predicate AllFit(segments: seq<MarkerSegment>) {
    forall i :: 0 <= i < |segments| ==> SegmentFits(segments[i])
  }

  ghost function AllBytes(order: seq<nat>, segments: seq<MarkerSegment>): seq<Byte>
    requires OrderFits(order) && AllFit(segments)
  {
    if segments == [] then [] else BytesOf(order, segments[0]) + AllBytes(order, segments[1..])
  }

  lemma {:induction false} AllBytesConcat(order: seq<nat>, a: seq<MarkerSegment>, b: seq<MarkerSegment>)
    requires OrderFits(order) && AllFit(a) && AllFit(b)
    ensures AllFit(a + b) && AllBytes(order, a + b) == AllBytes(order, a) + AllBytes(order, b)
  {
    hide SegmentFits, BytesOf;
    if a == [] {
      assert a + b == b;
    } else {
      AllBytesConcat(order, a[1..], b);
      assert (a + b)[1..] == a[1..] + b;
    }
  }

  // ----- What the decoder makes of them -----

  // The decoder's tables and parameters
  datatype Params = Params(
    quant: seq<Option<seq<UInt16>>>, dcHuff: seq<Option<HuffTable>>, acHuff: seq<Option<HuffTable>>,
    dcL: seq<nat>, dcU: seq<nat>, acK: seq<nat>, restartInterval: UInt16, frame: Option<FrameInfo>)

  ghost predicate ParamsShape(p: Params) {
    && |p.quant| == NUM_QUANT_TBLS && |p.dcHuff| == |p.acHuff| == NUM_HUFF_TBLS
    && |p.dcL| == |p.dcU| == |p.acK| == NUM_ARITH_TBLS
    && forall n :: 0 <= n < NUM_QUANT_TBLS && p.quant[n].Some? ==> |p.quant[n].value| == DCTSIZE2
  }

  // As a start-of-image marker leaves them
  function Reset(p: Params): (q: Params)
    ensures ParamsShape(p) ==> ParamsShape(q)
  {
    p.(dcL := seq(NUM_ARITH_TBLS, _ => 0), dcU := seq(NUM_ARITH_TBLS, _ => 1), acK := seq(NUM_ARITH_TBLS, _ => 5),
       restartInterval := 0)
  }

  // The symbols that the counts do not speak of are zero.
  function Received(h: HuffTable): HuffTable
    requires |h.bits| == 17 && |h.huffval| == SYMBOLS && Words(h.bits, 17) <= SYMBOLS
  {
    var n := Words(h.bits, 17);
    HuffTable([0] + h.bits[1..], h.huffval[..n] + seq(SYMBOLS - n, _ => 0))
  }

  function ApplyEntry(p: Params, e: ArithEntry): Params
    requires |p.dcL| == |p.dcU| == |p.acK| == NUM_ARITH_TBLS && e.index < 2 * NUM_ARITH_TBLS
  {
    if e.index < NUM_ARITH_TBLS then p.(dcL := p.dcL[e.index := e.val % 16], dcU := p.dcU[e.index := e.val / 16])
    else p.(acK := p.acK[e.index - NUM_ARITH_TBLS := e.val])
  }

  function ApplyEntries(p: Params, entries: seq<ArithEntry>, n: nat): (q: Params)
    requires |p.dcL| == |p.dcU| == |p.acK| == NUM_ARITH_TBLS && n <= |entries|
    requires forall k :: 0 <= k < |entries| ==> entries[k].index < 2 * NUM_ARITH_TBLS
    ensures |q.dcL| == |q.dcU| == |q.acK| == NUM_ARITH_TBLS
    ensures q.quant == p.quant && q.dcHuff == p.dcHuff && q.acHuff == p.acHuff && q.restartInterval == p.restartInterval
    ensures q.frame == p.frame
  {
    if n == 0 then p else ApplyEntry(ApplyEntries(p, entries, n - 1), entries[n - 1])
  }

  ghost function Apply(p: Params, s: MarkerSegment): (q: Params)
    requires ParamsShape(p) && SegmentFits(s)
    ensures ParamsShape(q)
  {
    match s
    case DefineQuant(index, table) => p.(quant := p.quant[index := Some(table)])
    case DefineHuff(isAc, index, huff) =>
      if isAc then p.(acHuff := p.acHuff[index := Some(Received(huff))])
      else p.(dcHuff := p.dcHuff[index := Some(Received(huff))])
    case DefineArith(entries) => ApplyEntries(p, entries, |entries|)
    case DefineRestart(interval) => p.(restartInterval := interval)
    case DefineFrame(code, frame) => p.(frame := Some(frame))
    case Application(marker, data) => p
  }

  ghost function ApplyAll(p: Params, segments: seq<MarkerSegment>): (q: Params)
    requires ParamsShape(p) && AllFit(segments)
    ensures ParamsShape(q)
    decreases |segments|
  {
    if segments == [] then p else ApplyAll(Apply(p, segments[0]), segments[1..])
  }

  lemma {:induction false} ApplyConcat(p: Params, a: seq<MarkerSegment>, b: seq<MarkerSegment>)
    requires ParamsShape(p) && AllFit(a) && AllFit(b)
    ensures AllFit(a + b) && ApplyAll(p, a + b) == ApplyAll(ApplyAll(p, a), b)
    decreases |a|
  {
    hide SegmentFits, Apply, ParamsShape;
    if a == [] {
      assert a + b == b;
    } else {
      ApplyConcat(Apply(p, a[0]), a[1..], b);
      assert (a + b)[1..] == a[1..] + b;
    }
  }

  // There is one frame header.
  ghost predicate FrameOnce(p: Params, segments: seq<MarkerSegment>)
    requires ParamsShape(p) && AllFit(segments)
    decreases |segments|
  {
    segments == [] || ((segments[0].DefineFrame? ==> p.frame.None?) && FrameOnce(Apply(p, segments[0]), segments[1..]))
  }

  ghost predicate NoFrames(segments: seq<MarkerSegment>) {
    forall i :: 0 <= i < |segments| ==> !segments[i].DefineFrame?
  }

  ghost predicate NoQuants(segments: seq<MarkerSegment>) {
    forall i :: 0 <= i < |segments| ==> !segments[i].DefineQuant?
  }

  lemma {:induction false} FrameKept(p: Params, segments: seq<MarkerSegment>)
    requires ParamsShape(p) && AllFit(segments) && NoFrames(segments)
    ensures ApplyAll(p, segments).frame == p.frame && FrameOnce(p, segments)
    decreases |segments|
  {
    hide SegmentFits, ParamsShape;
    if segments != [] {
      FrameKept(Apply(p, segments[0]), segments[1..]);
    }
  }

  lemma {:induction false} QuantsKept(p: Params, segments: seq<MarkerSegment>)
    requires ParamsShape(p) && AllFit(segments) && NoQuants(segments)
    ensures ApplyAll(p, segments).quant == p.quant
    decreases |segments|
  {
    hide SegmentFits, ParamsShape;
    if segments != [] {
      QuantsKept(Apply(p, segments[0]), segments[1..]);
    }
  }

  // The frame header comes after segments of other kinds.
  lemma {:induction false} FrameLast(p: Params, segments: seq<MarkerSegment>, s: MarkerSegment)
    requires ParamsShape(p) && AllFit(segments) && NoFrames(segments) && SegmentFits(s) && s.DefineFrame? && p.frame.None?
    ensures AllFit(segments + [s]) && FrameOnce(p, segments + [s])
    ensures ApplyAll(p, segments + [s]) == ApplyAll(p, segments).(frame := Some(s.frame))
    decreases |segments|
  {
    hide SegmentFits, ParamsShape;
    if segments == [] {
      assert [] + [s] == [s] && [s][1..] == [];
    } else {
      FrameLast(Apply(p, segments[0]), segments[1..], s);
      assert (segments + [s])[1..] == segments[1..] + [s];
    }
  }

  // ----- Scan headers -----

  ghost predicate HeaderFits(frame: FrameInfo, h: ScanHeader) {
    && 0 < |h.comps| <= MAX_COMPS_IN_SCAN && |h.dcTbl| == |h.acTbl| == |h.comps| && h.Ah < 16 && h.Al < 16
    && forall i :: 0 <= i < |h.comps| ==> h.comps[i] < |frame.comps| && h.dcTbl[i] < 16 && h.acTbl[i] < 16
  }

  function SelectorsFrom(frame: FrameInfo, h: ScanHeader, i: nat): seq<Byte>
    requires |h.dcTbl| == |h.acTbl| == |h.comps| && i <= |h.comps|
    requires forall i :: 0 <= i < |h.comps| ==> h.comps[i] < |frame.comps| && h.dcTbl[i] < 16 && h.acTbl[i] < 16
    decreases |h.comps| - i
  {
    if i == |h.comps| then [] else [frame.comps[h.comps[i]].id, 16 * h.dcTbl[i] + h.acTbl[i]] + SelectorsFrom(frame, h, i + 1)
  }

  lemma NextSelector(frame: FrameInfo, h: ScanHeader, i: nat, tail: seq<Byte>)
    requires HeaderFits(frame, h) && i < |h.comps|
    ensures SelectorsFrom(frame, h, i) + tail
         == [frame.comps[h.comps[i]].id] + ([16 * h.dcTbl[i] + h.acTbl[i]] + (SelectorsFrom(frame, h, i + 1) + tail))
  {
  }

  lemma LastSelector(frame: FrameInfo, h: ScanHeader, tail: seq<Byte>)
    requires HeaderFits(frame, h)
    ensures SelectorsFrom(frame, h, |h.comps|) + tail == tail
  {
  }

  ghost function HeaderBody(frame: FrameInfo, h: ScanHeader): seq<Byte>
    requires HeaderFits(frame, h)
  {
    Two(2 * |h.comps| + 2 + 1 + 3) + [|h.comps|] + SelectorsFrom(frame, h, 0) + [h.Ss, h.Se, 16 * h.Ah + h.Al]
  }
}
