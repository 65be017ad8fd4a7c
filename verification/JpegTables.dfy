// The Huffman tables of a file: what the compressor makes for a scan, what of it the markers carry, and
// what the decoder derives from that.
module JpegTables {
  import opened ArithInterval
  import opened ArithScan
  import opened Geometry
  import opened McuPlaces
  import opened McuPadding
  import opened HuffmanLimit
  import opened HuffmanGen
  import opened HuffmanCode
  import opened HuffmanTables
  import opened HuffmanDecode
  import opened HuffmanSymbol
  import HuffmanBlock
  import opened HuffmanSegments
  import HuffmanMcu
  import HuffmanOptimize
  import opened HuffmanImage
  import opened MarkerSegments
  import opened MarkerWriter
  import opened HeaderRoundTrip

  // ----- A table that has been sent -----

  // The counts mean the same without the entry that is not used.
  lemma {:induction false} SameCounts(a: seq<nat>, b: seq<nat>, m: nat, n: nat)
    requires |a| == |b| && n <= |a| && forall l :: 1 <= l < |a| ==> a[l] == b[l]
    ensures Words(a, n) == Words(b, n) && Space(a, m, n) == Space(b, m, n) && Sizes(a, n) == Sizes(b, n)
  {
    if n > 1 {
      SameCounts(a, b, m, n - 1);
    }
  }

  lemma ReceivedBits(h: HuffTable)
    requires HuffFits(h)
    ensures var r := Received(h);
            && HuffFits(r) && Words(r.bits, 17) == Words(h.bits, 17)
            && r.huffval[..Words(h.bits, 17)] == h.huffval[..Words(h.bits, 17)]
            && (Legal(r.bits) <==> Legal(h.bits))
            && forall p :: 0 <= p < Words(h.bits, 17) ==>
                 SizeOf(r.bits, p) == SizeOf(h.bits, p) && CodeOf(r.bits, p) == CodeOf(h.bits, p)
  {
    hide Words, Space, Sizes;
    var r := Received(h);
    SameCounts(r.bits, h.bits, 0, 17);
    forall l, m | 1 <= l <= 16 && m == l + 1
      ensures Space(r.bits, l, m) == Space(h.bits, l, m)
    {
      SameCounts(r.bits, h.bits, l, m);
    }
    forall p | 0 <= p < Words(h.bits, 17)
      ensures SizeOf(r.bits, p) == SizeOf(h.bits, p) && CodeOf(r.bits, p) == CodeOf(h.bits, p)
    {
      var l := SizeOf(h.bits, p);
      SameCounts(r.bits, h.bits, l, l);
    }
  }

  // So a table that has been sent assigns the same code words.
  lemma ReceivedEncodes(h: HuffTable, e: EncoderTable)
    requires Encodes(h, e)
    ensures HuffFits(h) && Encodes(Received(h), e) && (SymbolsUpTo(h, 15) ==> SymbolsUpTo(Received(h), 15))
  {
    hide Words, Space, Sizes, SizeOf, CodeOf, Legal, Received;
    FitsOf(h, e);
    ReceivedBits(h);
    var r, n := Received(h), Words(h.bits, 17);
    forall p | 0 <= p < n
      ensures r.huffval[p] == h.huffval[p]
    {
      assert r.huffval[..n][p] == h.huffval[..n][p];
    }
  }

  lemma FitsOf(h: HuffTable, e: EncoderTable)
    requires Encodes(h, e)
    ensures HuffFits(h)
  {
  }

  // ----- The decoder's tables -----

  predicate HasTable(tables: seq<Option<HuffTable>>, n: nat) {
    n < |tables| && tables[n].Some?
  }

  ghost predicate Derivable(tables: seq<Option<HuffTable>>, n: nat, isDC: bool) {
    && HasTable(tables, n) && TableShape(tables[n].value) && Legal(tables[n].value.bits)
    && (isDC ==> SymbolsUpTo(tables[n].value, 15))
  }

  // The decoder's table number n: an error if there is none, or it is not legal
  method DeriveTable(tables: seq<Option<HuffTable>>, n: nat, isDC: bool) returns (ok: bool, d: DecoderTable)
    requires HasTable(tables, n) ==> TableShape(tables[n].value)
    ensures ok <==> Derivable(tables, n, isDC)
    ensures ok ==> Decodes(tables[n].value, d)
  {
    hide Words, Legal, Decodes;
    if n >= |tables| || tables[n].None? {
      return false, DecoderTable([], [], [], []);
    }
    LegalFits(tables[n].value);
    ok, d := MakeDecoderTable(tables[n].value, isDC);
  }

  lemma LegalFits(h: HuffTable)
    requires TableShape(h)
    ensures Legal(h.bits) ==> Words(h.bits, 17) <= SYMBOLS
  {
  }

  // The tables of component i of a scan can be derived.
  ghost predicate BothDerivable(p: Params, h: ScanHeader, i: nat)
    requires i < |h.dcTbl| == |h.acTbl|
  {
    Derivable(p.dcHuff, h.dcTbl[i], true) && Derivable(p.acHuff, h.acTbl[i], false)
  }

  // The tables of component i have the size of such tables, if there are any.
  ghost predicate BothShaped(p: Params, h: ScanHeader, i: nat)
    requires i < |h.dcTbl| == |h.acTbl|
  {
    && (HasTable(p.dcHuff, h.dcTbl[i]) ==> TableShape(p.dcHuff[h.dcTbl[i]].value))
    && (HasTable(p.acHuff, h.acTbl[i]) ==> TableShape(p.acHuff[h.acTbl[i]].value))
  }

  ghost predicate Derived(p: Params, h: ScanHeader, i: nat, d: HuffmanBlock.Decoders)
    requires i < |h.dcTbl| == |h.acTbl|
  {
    && HasTable(p.dcHuff, h.dcTbl[i]) && Decodes(p.dcHuff[h.dcTbl[i]].value, d.dc)
    && HasTable(p.acHuff, h.acTbl[i]) && Decodes(p.acHuff[h.acTbl[i]].value, d.ac)
  }

  // start_pass_huff_decoder: the tables of all components of a scan
  method DeriveTables(p: Params, h: ScanHeader) returns (ok: bool, decoders: seq<HuffmanBlock.Decoders>)
    requires |h.dcTbl| == |h.acTbl| == |h.comps|
    requires forall i :: 0 <= i < |h.comps| ==> BothShaped(p, h, i)
    ensures ok <==> forall i :: 0 <= i < |h.comps| ==> BothDerivable(p, h, i)
    ensures ok ==> |decoders| == |h.comps| && forall i :: 0 <= i < |h.comps| ==> Derived(p, h, i, decoders[i])
  {
    hide Decodes, Derivable, TableShape;
    decoders := [];
    for i := 0 to |h.comps|
      invariant |decoders| == i && forall j :: 0 <= j < i ==> BothDerivable(p, h, j) && Derived(p, h, j, decoders[j])
    {
      var dc, ac;
      assert BothShaped(p, h, i);
      DerivableHas(p.dcHuff, h.dcTbl[i], true);
      DerivableHas(p.acHuff, h.acTbl[i], false);
      ok, dc := DeriveTable(p.dcHuff, h.dcTbl[i], true);
      if !ok {
        assert !BothDerivable(p, h, i);
        return;
      }
      ok, ac := DeriveTable(p.acHuff, h.acTbl[i], false);
      if !ok {
        assert !BothDerivable(p, h, i);
        return;
      }
      decoders := decoders + [HuffmanBlock.Decoders(dc, ac)];
    }
    ok := true;
  }

  lemma DerivableHas(tables: seq<Option<HuffTable>>, n: nat, isDC: bool)
    ensures Derivable(tables, n, isDC) ==> HasTable(tables, n)
  {
  }

  // The decoder has the tables of component i as they have been sent.
  ghost predicate Holds(p: Params, h: ScanHeader, i: nat, t: HuffmanBlock.Tables)
    requires i < |h.dcTbl| == |h.acTbl|
  {
    && HuffmanBlock.TablesMatch(t) && BothFit(t)
    && HasTable(p.dcHuff, h.dcTbl[i]) && p.dcHuff[h.dcTbl[i]].value == Received(t.dcTable)
    && HasTable(p.acHuff, h.acTbl[i]) && p.acHuff[h.acTbl[i]].value == Received(t.acTable)
  }

  ghost predicate AllHeld(p: Params, h: ScanHeader, tables: seq<HuffmanBlock.Tables>) {
    && |h.dcTbl| == |h.acTbl| == |h.comps| == |tables|
    && forall i :: 0 <= i < |tables| ==> Holds(p, h, i, tables[i])
  }

  ghost predicate BothFit(t: HuffmanBlock.Tables) {
    HuffFits(t.dcTable) && HuffFits(t.acTable)
  }

  // The encoder's code words with what the decoder has made of the tables
  ghost function Rejoined(t: HuffmanBlock.Tables, d: HuffmanBlock.Decoders): HuffmanBlock.Tables
    requires BothFit(t)
  {
    HuffmanBlock.Tables(Received(t.dcTable), t.dcEncoder, d.dc, Received(t.acTable), t.acEncoder, d.ac)
  }

  ghost function Rebuilt(tables: seq<HuffmanBlock.Tables>, decoders: seq<HuffmanBlock.Decoders>): (u: seq<HuffmanBlock.Tables>)
    requires |decoders| == |tables| && forall c :: 0 <= c < |tables| ==> BothFit(tables[c])
    ensures |u| == |tables|
  {
    seq(|tables|, c requires 0 <= c < |tables| => Rejoined(tables[c], decoders[c]))
  }

  lemma HeldDerivable(p: Params, h: ScanHeader, i: nat, t: HuffmanBlock.Tables)
    requires i < |h.dcTbl| == |h.acTbl| && Holds(p, h, i, t)
    ensures BothDerivable(p, h, i) && BothShaped(p, h, i)
    ensures Encodes(Received(t.dcTable), t.dcEncoder) && Encodes(Received(t.acTable), t.acEncoder)
    ensures SymbolsUpTo(Received(t.dcTable), 15)
  {
    hide Received, Decodes, HuffFits, SymbolsUpTo, Legal, Words;
    ReceivedEncodes(t.dcTable, t.dcEncoder);
    ReceivedEncodes(t.acTable, t.acEncoder);
  }

  lemma AllDerivable(p: Params, h: ScanHeader, tables: seq<HuffmanBlock.Tables>)
    requires AllHeld(p, h, tables)
    ensures |h.dcTbl| == |h.acTbl| == |h.comps| == |tables|
    ensures forall i :: 0 <= i < |h.comps| ==> BothDerivable(p, h, i) && BothShaped(p, h, i)
  {
    hide BothDerivable, BothShaped, Holds;
    forall i | 0 <= i < |h.comps|
      ensures BothDerivable(p, h, i) && BothShaped(p, h, i)
    {
      HeldDerivable(p, h, i, tables[i]);
    }
  }

  // What is derived from the tables that have been sent belongs to the encoder's code words.
  lemma RebuiltMatch(p: Params, h: ScanHeader, tables: seq<HuffmanBlock.Tables>, decoders: seq<HuffmanBlock.Decoders>)
    requires AllHeld(p, h, tables) && |decoders| == |tables|
    requires forall i :: 0 <= i < |tables| ==> Derived(p, h, i, decoders[i])
    ensures forall c :: 0 <= c < |tables| ==> BothFit(tables[c])
    ensures var u := Rebuilt(tables, decoders);
            && HuffmanMcu.DecodersFor(u) == decoders && SameEncoders(tables, u)
            && forall c :: 0 <= c < |u| ==> HuffmanBlock.TablesMatch(u[c])
  {
    hide Received, Decodes, Encodes, HuffFits, BothDerivable;
    assert forall c :: 0 <= c < |tables| ==> Holds(p, h, c, tables[c]);
    var u := Rebuilt(tables, decoders);
    forall c | 0 <= c < |u|
      ensures HuffmanBlock.TablesMatch(u[c]) && HuffmanMcu.DecodersFor(u)[c] == decoders[c]
    {
      HeldDerivable(p, h, c, tables[c]);
      assert Derived(p, h, c, decoders[c]);
    }
  }

  // ----- What the scan emits -----

  ghost predicate SameEncoders(a: seq<HuffmanBlock.Tables>, b: seq<HuffmanBlock.Tables>) {
    |a| == |b| && forall c :: 0 <= c < |a| ==> a[c].dcEncoder == b[c].dcEncoder && a[c].acEncoder == b[c].acEncoder
  }

  // It depends on the encoder's code words only.
  lemma {:induction false} SameBits(s: Scan, a: seq<HuffmanBlock.Tables>, b: seq<HuffmanBlock.Tables>, comps: seq<nat>,
                                    blocks: seq<Block>, i: nat, d: DcState)
    requires SameEncoders(a, b) && Coded(s, a, comps, blocks, i, d)
    ensures Coded(s, b, comps, blocks, i, d) && ScanBits(s, a, comps, blocks, i, d) == ScanBits(s, b, comps, blocks, i, d)
    decreases |blocks| - i
  {
    hide HuffmanBlock.BlockCoded, HuffmanBlock.BlockBits;
    if i < |blocks| {
      SameBits(s, a, b, comps, blocks, i + 1, Following(s, d, comps[i], blocks[i]));
    }
  }

  lemma SentAlike(img: Image, s: Scan, comps: seq<nat>, dct: seq<Block>, a: seq<HuffmanBlock.Tables>, b: seq<HuffmanBlock.Tables>,
                  segments: seq<seq<Byte>>)
    requires ImageOk(img) && HuffmanScanOk(img, s, comps) && |dct| == Total(img) && ScanSent(img, s, comps, dct, a, segments)
    requires SameEncoders(a, b) && forall c :: 0 <= c < |b| ==> HuffmanBlock.TablesMatch(b[c])
    ensures ScanSent(img, s, comps, dct, b, segments)
  {
    hide ImageOk, HuffmanScanOk, Total, Coded, ScanBits, Flatten, BlockComps, Mcus, McuCount, HuffmanBlock.TablesMatch, ScanOk,
      HuffmanMcu.Sent;
    ScanCompsOk(img, s, comps);
    var blockComps, blocks := BlockComps(s.membership, McuCount(img, comps)), Flatten<Block>(Mcus(img, comps, dct));
    SameBits(s, a, b, blockComps, blocks, 0, StartState(s, |a|));
  }

  // ----- The compressor's tables -----

  // The tables made for a scan, under the numbers of its components
  function NewTables(comps: seq<Comp>, list: seq<nat>, tables: seq<HuffmanBlock.Tables>): (made: seq<NewTable>)
    requires |tables| == |list| && forall i :: 0 <= i < |list| ==> list[i] < |comps|
    ensures |made| == 2 * |list|
  {
    seq(2 * |list|, k requires 0 <= k < 2 * |list| =>
      if k < |list| then NewTable(false, comps[list[k]].dcTbl, tables[k].dcTable)
      else NewTable(true, comps[list[k - |list|]].acTbl, tables[k - |list|].acTable))
  }

  // Tables of the same kind and number are the same.
  ghost predicate Agreeing(made: seq<NewTable>) {
    forall j, k :: 0 <= j < |made| && 0 <= k < |made| && made[j].isAc == made[k].isAc && made[j].index == made[k].index ==>
      made[j].table == made[k].table
  }

  lemma {:induction false} Installed(t: Tables, made: seq<NewTable>, n: nat)
    requires |t.dcHuff| == |t.acHuff| == MarkerSegments.NUM_HUFF_TBLS && n <= |made| && Agreeing(made)
    requires forall k :: 0 <= k < |made| ==> made[k].index < MarkerSegments.NUM_HUFF_TBLS
    ensures var u := Install(t, made, n);
            forall k :: 0 <= k < n ==>
              (if made[k].isAc then u.acHuff else u.dcHuff)[made[k].index] == MarkerSegments.Some(Slot(made[k].table, false))
    ensures Install(t, made, n).quant == t.quant && Install(t, made, n).restartInterval == t.restartInterval
  {
    if n > 0 {
      Installed(t, made, n - 1);
    }
  }

  ghost predicate NumberedBy(comps: seq<Comp>, list: seq<nat>, s: Scan) {
    && |s.comps| == |list| && (forall j :: 0 <= j < |list| ==> list[j] < |comps|)
    && forall j :: 0 <= j < |list| ==> s.comps[j] == Component(comps[list[j]].dcTbl, comps[list[j]].acTbl)
  }

  lemma Agrees(comps: seq<Comp>, list: seq<nat>, s: Scan, tables: seq<HuffmanBlock.Tables>)
    requires HuffNumbers(comps) && |tables| == |list| && NumberedBy(comps, list, s) && HuffmanOptimize.Shared(s, tables)
    ensures var made := NewTables(comps, list, tables);
            Agreeing(made) && forall k :: 0 <= k < |made| ==> made[k].index < MarkerSegments.NUM_HUFF_TBLS
  {
  }

  // Every component of the scan finds its own tables.
  lemma OwnTables(t: Tables, comps: seq<Comp>, list: seq<nat>, s: Scan, tables: seq<HuffmanBlock.Tables>, i: nat)
    requires |t.dcHuff| == |t.acHuff| == MarkerSegments.NUM_HUFF_TBLS && HuffNumbers(comps) && i < |list| == |tables|
    requires NumberedBy(comps, list, s) && HuffmanOptimize.Shared(s, tables)
    ensures var made := NewTables(comps, list, tables);
            && (forall k :: 0 <= k < |made| ==> made[k].index < MarkerSegments.NUM_HUFF_TBLS)
            && var u := Install(t, made, |made|);
               && u.dcHuff[comps[list[i]].dcTbl] == MarkerSegments.Some(Slot(tables[i].dcTable, false))
               && u.acHuff[comps[list[i]].acTbl] == MarkerSegments.Some(Slot(tables[i].acTable, false))
  {
    hide Install, Agreeing;
    var made := NewTables(comps, list, tables);
    Agrees(comps, list, s, tables);
    Installed(t, made, |made|);
    assert made[i] == NewTable(false, comps[list[i]].dcTbl, tables[i].dcTable);
    assert made[|list| + i] == NewTable(true, comps[list[i]].acTbl, tables[i].acTable);
  }
}
