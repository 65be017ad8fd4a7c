// Writing marker segments (jcmarker.c).
module MarkerWriter {
  import opened ArithInterval
  import opened ArithScan
  import opened HuffmanLimit
  import opened HuffmanGen
  import opened MarkerSegments

  // A table, and whether it need not be written any more
  datatype Slot<T> = Slot(table: T, sentTable: bool)

  datatype Comp = Comp(id: Byte, h: nat, v: nat, quantTbl: nat, dcTbl: nat, acTbl: nat)

  // Parameters of a scan: components by index, band and successive approximation
  datatype ScanSpec = ScanSpec(comps: seq<nat>, Ss: Byte, Se: Byte, Ah: nat, Al: nat)

  // The compressor's tables
  datatype Tables = Tables(
    quant: seq<Option<Slot<seq<UInt16>>>>, dcHuff: seq<Option<Slot<HuffTable>>>, acHuff: seq<Option<Slot<HuffTable>>>,
    dcL: seq<nat>, dcU: seq<nat>, acK: seq<nat>, restartInterval: UInt16)

  ghost predicate TablesShape(t: Tables) {
    && |t.quant| == NUM_QUANT_TBLS && |t.dcHuff| == |t.acHuff| == NUM_HUFF_TBLS
    && |t.dcL| == |t.dcU| == |t.acK| == NUM_ARITH_TBLS
    && (forall n :: 0 <= n < NUM_QUANT_TBLS && t.quant[n].Some? ==> |t.quant[n].value.table| == DCTSIZE2)
    && (forall n :: 0 <= n < NUM_HUFF_TBLS && t.dcHuff[n].Some? ==> HuffFits(t.dcHuff[n].value.table))
    && (forall n :: 0 <= n < NUM_HUFF_TBLS && t.acHuff[n].Some? ==> HuffFits(t.acHuff[n].value.table))
    && forall n :: 0 <= n < NUM_ARITH_TBLS ==> t.dcL[n] <= t.dcU[n] < 16 && t.acK[n] < 256
  }

  // What has been sent is what the decoder has.
  ghost predicate InStep(t: Tables, lastRestartInterval: UInt16, p: Params)
    requires TablesShape(t) && ParamsShape(p)
  {
    && p.restartInterval == lastRestartInterval
    && (forall n :: 0 <= n < NUM_QUANT_TBLS ==> QuantInStep(t.quant[n], p.quant[n]))
    && (forall n :: 0 <= n < NUM_HUFF_TBLS ==> HuffInStep(t.dcHuff[n], p.dcHuff[n]))
    && forall n :: 0 <= n < NUM_HUFF_TBLS ==> HuffInStep(t.acHuff[n], p.acHuff[n])
  }

  ghost predicate QuantInStep(slot: Option<Slot<seq<UInt16>>>, have: Option<seq<UInt16>>) {
    slot.Some? && slot.value.sentTable ==> have == Some(slot.value.table)
  }

  ghost predicate HuffInStep(slot: Option<Slot<HuffTable>>, have: Option<HuffTable>) {
    slot.Some? && slot.value.sentTable && HuffFits(slot.value.table) ==> have == Some(Received(slot.value.table))
  }

  class MarkerWriter {
    const order: seq<nat>
    const comps: seq<Comp>
    const height: nat
    const width: nat
    const precision: Byte
    const progressive: bool
    const arithCode: bool
    var out: seq<Byte>
    var tables: Tables
    var lastRestartInterval: UInt16

    ghost predicate Valid()
      reads this
    {
      OrderOk(order) && OrderFits(order) && TablesShape(tables) && CompsFit(comps, arithCode) && 0 < height && 0 < width
    }

    method EmitByte(b: Byte)
      modifies `out
      ensures out == old(out) + [b]
    {
      out := out + [b];
    }

    method EmitMarker(m: Byte)
      modifies `out
      ensures out == old(out) + [0xFF, m]
    {
      EmitByte(0xFF);
      EmitByte(m);
    }

    method Emit2Bytes(v: UInt16)
      modifies `out
      ensures out == old(out) + Two(v)
    {
      EmitByte(v / 0x100);
      EmitByte(v % 0x100);
    }

    // emit_dqt: an error if there is no table; prec tells whether it has 16-bit entries.
    method EmitDqt(index: nat) returns (ok: bool, prec: nat, ghost sent: seq<MarkerSegment>)
      requires Valid() && index < NUM_QUANT_TBLS
      modifies `out, `tables
      ensures Valid() && (ok <==> old(tables).quant[index].Some?) && AllFit(sent) && out == old(out) + AllBytes(order, sent)
      ensures !ok ==> tables == old(tables)
      ensures ok ==> var slot := old(tables).quant[index].value;
                     && prec == Precision(slot.table)
                     && tables == old(tables).(quant := old(tables).quant[index := Some(Slot(slot.table, true))])
                     && sent == if slot.sentTable then [] else [DefineQuant(index, slot.table)]
    {
      hide OrderOk, OrderFits, Precision, QuantFrom, CompsFit, AllBytes, BytesOf;
      NoSegments(order);
      sent, prec := [], 0;
      if tables.quant[index].None? {
        ok := false;
        return;
      }
      var slot := tables.quant[index].value;
      prec := FindPrecision(slot.table);
      if !slot.sentTable {
        WriteQuant(index, slot.table, prec);
        sent := [DefineQuant(index, slot.table)];
        OneSegment(order, sent[0]);
      }
      tables := tables.(quant := tables.quant[index := Some(slot.(sentTable := true))]);
      ok := true;
    }

    method WriteQuant(index: nat, table: seq<UInt16>, prec: nat)
      requires OrderFits(order) && index < NUM_QUANT_TBLS && |table| == DCTSIZE2 && prec == Precision(table)
      modifies `out
      ensures out == old(out) + BytesOf(order, DefineQuant(index, table))
    {
      hide OrderFits, Precision, QuantFrom, Two;
      ghost var size := if prec == 1 then DCTSIZE2 * 2 + 1 + 2 else DCTSIZE2 + 1 + 2;
      EmitMarker(DQT);
      Emit2Bytes(if prec == 1 then DCTSIZE2 * 2 + 1 + 2 else DCTSIZE2 + 1 + 2);
      EmitByte(index + 16 * prec);
      EmitEntries(table, prec);
      assert out == old(out) + ([0xFF, DQT] + (Two(size) + ([index + 16 * prec] + QuantFrom(order, prec, table, 0))));
    }

    method EmitEntries(table: seq<UInt16>, prec: nat)
      requires OrderFits(order) && |table| == DCTSIZE2 && prec == Precision(table)
      modifies `out
      ensures out == old(out) + QuantFrom(order, prec, table, 0)
    {
      hide Precision, QuantFrom, QuantEntry;
      assert old(out) + QuantFrom(order, prec, table, 0) == out + QuantFrom(order, prec, table, 0);
      for i := 0 to DCTSIZE2
        invariant out + QuantFrom(order, prec, table, i) == old(out) + QuantFrom(order, prec, table, 0)
      {
        ghost var rest := QuantFrom(order, prec, table, i + 1);
        NextEntry(order, prec, table, i, []);
        ghost var before := out;
        EmitEntry(table[order[i]], prec);
        assert QuantFrom(order, prec, table, i) == QuantFrom(order, prec, table, i) + [];
        assert before + (QuantEntry(prec, table[order[i]]) + (rest + [])) == before + QuantEntry(prec, table[order[i]]) + rest;
      }
      LastEntry(order, prec, table, []);
      assert QuantFrom(order, prec, table, DCTSIZE2) == QuantFrom(order, prec, table, DCTSIZE2) + [];
    }

    method EmitEntry(qval: UInt16, prec: nat)
      requires prec == 0 ==> qval <= 255
      modifies `out
      ensures out == old(out) + QuantEntry(prec, qval)
    {
      if prec != 0 {
        EmitByte(qval / 0x100);
      }
      EmitByte(qval % 0x100);
    }

    // emit_dht: an error if there is no table
    method EmitDht(index: nat, isAc: bool) returns (ok: bool, ghost sent: seq<MarkerSegment>)
      requires Valid() && index < NUM_HUFF_TBLS
      modifies `out, `tables
      ensures Valid() && AllFit(sent) && out == old(out) + AllBytes(order, sent)
      ensures ok <==> (if isAc then old(tables).acHuff else old(tables).dcHuff)[index].Some?
      ensures !ok ==> tables == old(tables) && sent == []
      ensures ok ==> var slot := (if isAc then old(tables).acHuff else old(tables).dcHuff)[index].value;
                     && tables == Marked(old(tables), isAc, index) && HuffFits(slot.table)
                     && sent == if slot.sentTable then [] else [DefineHuff(isAc, index, slot.table)]
    {
      hide OrderOk, OrderFits, CompsFit, AllBytes, BytesOf;
      NoSegments(order);
      sent := [];
      var slots := if isAc then tables.acHuff else tables.dcHuff;
      if slots[index].None? {
        ok := false;
        return;
      }
      var slot := slots[index].value;
      if !slot.sentTable {
        WriteHuff(index, isAc, slot.table);
        sent := [DefineHuff(isAc, index, slot.table)];
        OneSegment(order, sent[0]);
      }
      tables := Marked(tables, isAc, index);
      ok := true;
    }

    method WriteHuff(index0: nat, isAc: bool, h: HuffTable)
      requires OrderFits(order) && index0 < NUM_HUFF_TBLS && HuffFits(h)
      modifies `out
      ensures out == old(out) + BytesOf(order, DefineHuff(isAc, index0, h))
    {
      hide OrderFits, Two;
      var index := index0;
      if isAc {
        index := index + 0x10;
      }
      EmitMarker(DHT);
      var length: nat := 0;
      for i := 1 to 17
        invariant length == Words(h.bits, i)
      {
        length := length + h.bits[i];
      }
      Emit2Bytes(length + 2 + 1 + 16);
      EmitByte(index);
      EmitBytes(h.bits[1..]);
      EmitBytes(h.huffval[..length]);
      assert out == old(out) + ([0xFF, DHT] + (Two(length + 2 + 1 + 16) + ([index] + (h.bits[1..] + h.huffval[..length]))));
    }

    method EmitBytes(bytes: seq<UInt8>)
      modifies `out
      ensures out == old(out) + bytes
    {
      for i := 0 to |bytes|
        invariant out == old(out) + bytes[..i]
      {
        EmitByte(bytes[i]);
      }
    }

    // write_marker_header and write_marker_byte, for an application segment
    method WriteApplication(marker: Byte, data: seq<Byte>) returns (ghost sent: seq<MarkerSegment>)
      requires Valid() && APP0 <= marker < APP0 + 16 && |data| <= 65533
      modifies `out
      ensures Valid() && AllFit(sent) && out == old(out) + AllBytes(order, sent) && sent == [Application(marker, data)]
    {
      hide OrderOk, OrderFits, CompsFit, AllBytes, Two, TablesShape;
      EmitMarker(marker);
      Emit2Bytes(|data| + 2);
      EmitBytes(data);
      sent := [Application(marker, data)];
      OneSegment(order, sent[0]);
      assert out == old(out) + ([0xFF, marker] + (Two(|data| + 2) + data));
    }

    // emit_dri
    method EmitDri() returns (ghost sent: seq<MarkerSegment>)
      requires Valid()
      modifies `out
      ensures Valid() && AllFit(sent) && out == old(out) + AllBytes(order, sent) && sent == [DefineRestart(tables.restartInterval)]
    {
      hide OrderOk, OrderFits, CompsFit, AllBytes, Two, TablesShape;
      EmitMarker(DRI);
      Emit2Bytes(4);
      Emit2Bytes(tables.restartInterval);
      sent := [DefineRestart(tables.restartInterval)];
      OneSegment(order, sent[0]);
      assert out == old(out) + ([0xFF, DRI] + (Two(4) + Two(tables.restartInterval)));
    }

    // emit_sof: an error if the image is too large
    method EmitSof(code: Byte) returns (ok: bool, ghost sent: seq<MarkerSegment>)
      requires Valid() && (code == FrameCode(progressive, arithCode, true) || code == FrameCode(progressive, arithCode, false))
      modifies `out
      ensures Valid() && AllFit(sent) && (ok <==> height <= 65535 && width <= 65535)
      ensures ok ==> out == old(out) + AllBytes(order, sent) && sent == [DefineFrame(code, Frame())]
    {
      hide OrderOk, OrderFits, AllBytes, Two, TablesShape, CompBytesFrom;
      sent := [];
      EmitMarker(code);
      Emit2Bytes(3 * |comps| + 2 + 5 + 1);
      if height > 65535 || width > 65535 {
        ok := false;
        return;
      }
      EmitByte(precision);
      Emit2Bytes(height);
      Emit2Bytes(width);
      EmitByte(|comps|);
      EmitComponents();
      assert out == old(out) + ([0xFF, code] + (Two(3 * |comps| + 2 + 5 + 1)
                    + ([precision] + Two(height) + Two(width) + [|comps|] + CompBytesFrom(Infos(), 0))));
      sent := [DefineFrame(code, Frame())];
      OneSegment(order, sent[0]);
      ok := true;
    }

    method EmitComponents()
      requires CompsFit(comps, arithCode)
      modifies `out
      ensures out == old(out) + CompBytesFrom(Infos(), 0)
    {
      hide CompBytesFrom;
      ghost var infos := Infos();
      assert out + CompBytesFrom(infos, 0) == old(out) + CompBytesFrom(infos, 0);
      for ci := 0 to |comps|
        invariant out + CompBytesFrom(infos, ci) == old(out) + CompBytesFrom(infos, 0)
      {
        ghost var before, x, rest := out, infos[ci], CompBytesFrom(infos, ci + 1);
        NextComponent(infos, ci, []);
        EmitByte(comps[ci].id);
        EmitByte(16 * comps[ci].h + comps[ci].v);
        EmitByte(comps[ci].quantTbl);
        assert CompBytesFrom(infos, ci) + [] == CompBytesFrom(infos, ci);
        assert before + ([x.id] + ([16 * x.h + x.v] + ([x.quantTbl] + (rest + [])))) == out + rest;
      }
      LastComponent(infos, []);
      assert out + CompBytesFrom(infos, |infos|) == out + (CompBytesFrom(infos, |infos|) + []);
    }

    // What the decoder is to know about the frame
    ghost function Infos(): (infos: seq<CompInfo>)
      requires CompsFit(comps, arithCode)
      ensures |infos| == |comps| && forall c :: 0 <= c < |infos| ==> infos[c].h < 16 && infos[c].v < 16
    {
      seq(|comps|, c requires 0 <= c < |comps| => CompInfo(comps[c].id, comps[c].h, comps[c].v, comps[c].quantTbl))
    }

    ghost function Frame(): FrameInfo
      requires CompsFit(comps, arithCode) && height <= 65535 && width <= 65535
    {
      FrameInfo(progressive, arithCode, precision, height, width, Infos())
    }

    // emit_dac: the conditioning of the tables in use
    method EmitDac(scan: ScanSpec) returns (ghost sent: seq<MarkerSegment>)
      requires Valid() && SpecFits(comps, scan)
      modifies `out
      ensures Valid() && AllFit(sent) && out == old(out) + AllBytes(order, sent)
      ensures var entries := DacEntries(tables, InUse(comps, scan, false, |scan.comps|), InUse(comps, scan, true, |scan.comps|), 0);
              sent == if entries == [] then [] else [DefineArith(entries)]
    {
      hide OrderOk, OrderFits, CompsFit, AllBytes, BytesOf, TablesShape, DacEntries;
      NoSegments(order);
      sent := [];
      assert out == old(out) + AllBytes(order, sent);
      var dcInUse, acInUse := seq(NUM_ARITH_TBLS, _ => false), seq(NUM_ARITH_TBLS, _ => false);
      for i := 0 to |scan.comps|
        invariant dcInUse == InUse(comps, scan, false, i) && acInUse == InUse(comps, scan, true, i) && out == old(out)
      {
        var compptr := comps[scan.comps[i]];
        CompKnown(comps, arithCode, scan.comps[i]);
        if scan.Ss == 0 && scan.Ah == 0 {
          dcInUse := dcInUse[compptr.dcTbl := true];
        }
        if scan.Se != 0 {
          acInUse := acInUse[compptr.acTbl := true];
        }
      }
      var length := CountTables(dcInUse, acInUse);
      if length > 0 {
        WriteArith(dcInUse, acInUse, length);
        sent := [DefineArith(DacEntries(tables, dcInUse, acInUse, 0))];
        OneSegment(order, sent[0]);
      }
    }

    method CountTables(dcInUse: seq<bool>, acInUse: seq<bool>) returns (length: nat)
      requires |dcInUse| == |acInUse| == NUM_ARITH_TBLS && Valid()
      ensures length == |DacEntries(tables, dcInUse, acInUse, 0)|
    {
      hide OrderOk, OrderFits, CompsFit, TablesShape, DacEntries;
      length := 0;
      NoTable(tables, dcInUse, acInUse);
      for i := 0 to NUM_ARITH_TBLS
        invariant length + |DacEntries(tables, dcInUse, acInUse, i)| == |DacEntries(tables, dcInUse, acInUse, 0)|
      {
        NextTable(tables, dcInUse, acInUse, i);
        length := length + (if dcInUse[i] then 1 else 0) + (if acInUse[i] then 1 else 0);
      }
    }

    method WriteArith(dcInUse: seq<bool>, acInUse: seq<bool>, length: nat)
      requires |dcInUse| == |acInUse| == NUM_ARITH_TBLS && Valid() && length == |DacEntries(tables, dcInUse, acInUse, 0)|
      modifies `out
      ensures EntriesFit(DacEntries(tables, dcInUse, acInUse, 0))
      ensures out == old(out) + BytesOf(order, DefineArith(DacEntries(tables, dcInUse, acInUse, 0)))
    {
      hide OrderOk, OrderFits, CompsFit, Two, ArithBytesFrom, EntryFits, TablesShape, DacEntries;
      ghost var entries := DacEntries(tables, dcInUse, acInUse, 0);
      EntriesAreFit(tables, dcInUse, acInUse, 0);
      EmitMarker(DAC);
      Emit2Bytes(length * 2 + 2);
      ghost var before := out;
      for i := 0 to NUM_ARITH_TBLS
        invariant EntriesKnown(DacEntries(tables, dcInUse, acInUse, i)) && EntriesKnown(entries) && Valid()
        invariant out + ArithBytesFrom(DacEntries(tables, dcInUse, acInUse, i), 0) == before + ArithBytesFrom(entries, 0)
      {
        ghost var now, rest := out, DacEntries(tables, dcInUse, acInUse, i + 1);
        EntriesAreFit(tables, dcInUse, acInUse, i + 1);
        EmitTable(dcInUse, acInUse, i);
        ArithConcat(TableEntries(tables, dcInUse, acInUse, i), rest);
        NextTable(tables, dcInUse, acInUse, i);
      }
      NoTable(tables, dcInUse, acInUse);
      assert out + ArithBytesFrom([], 0) == out == before + ArithBytesFrom(entries, 0);
      assert before == old(out) + [0xFF, DAC] + Two(2 * |entries| + 2);
      assert out == old(out) + ([0xFF, DAC] + (Two(2 * |entries| + 2) + ArithBytesFrom(entries, 0)));
    }

    method EmitTable(dcInUse: seq<bool>, acInUse: seq<bool>, i: nat)
      requires |dcInUse| == |acInUse| == NUM_ARITH_TBLS && Valid() && i < NUM_ARITH_TBLS
      modifies `out
      ensures EntriesKnown(TableEntries(tables, dcInUse, acInUse, i))
      ensures out == old(out) + ArithBytesFrom(TableEntries(tables, dcInUse, acInUse, i), 0)
    {
      hide OrderOk, OrderFits, CompsFit, ArithBytesFrom;
      ghost var first := if dcInUse[i] then [ArithEntry(i, tables.dcL[i] + 16 * tables.dcU[i])] else [];
      ghost var second := if acInUse[i] then [ArithEntry(i + NUM_ARITH_TBLS, tables.acK[i])] else [];
      FewEntries(first);
      FewEntries(second);
      ArithConcat(first, second);
      if dcInUse[i] {
        EmitByte(i);
        EmitByte(tables.dcL[i] + 16 * tables.dcU[i]);
      }
      assert out == old(out) + ArithBytesFrom(first, 0);
      if acInUse[i] {
        EmitByte(i + 0x10);
        EmitByte(tables.acK[i]);
      }
    }

    // emit_sos; fields that are not used are zero.
    method EmitSos(scan: ScanSpec)
      requires Valid() && SpecFits(comps, scan) && height <= 65535 && width <= 65535
      modifies `out
      ensures HeaderFits(Frame(), Header(comps, scan))
      ensures out == old(out) + ([0xFF, SOS] + HeaderBody(Frame(), Header(comps, scan)))
    {
      hide OrderOk, OrderFits, TablesShape, CompsFit, SelectorsFrom, Two, HeaderFits, Header, SpecFits;
      ghost var frame, h := Frame(), Header(comps, scan);
      HeaderOk(comps, scan, arithCode, frame);
      SpecKnown(comps, scan);
      EmitMarker(SOS);
      Emit2Bytes(2 * |scan.comps| + 2 + 1 + 3);
      EmitByte(|scan.comps|);
      EmitSelectors(scan);
      EmitByte(scan.Ss);
      EmitByte(scan.Se);
      EmitByte(16 * scan.Ah + scan.Al);
      assert out == old(out) + ([0xFF, SOS] + (Two(2 * |h.comps| + 2 + 1 + 3) + [|h.comps|] + SelectorsFrom(frame, h, 0)
                                               + [h.Ss, h.Se, 16 * h.Ah + h.Al]));
    }

    method EmitSelectors(scan: ScanSpec)
      requires Valid() && SpecFits(comps, scan) && height <= 65535 && width <= 65535
      modifies `out
      ensures HeaderFits(Frame(), Header(comps, scan))
      ensures out == old(out) + SelectorsFrom(Frame(), Header(comps, scan), 0)
    {
      hide OrderOk, OrderFits, TablesShape, CompsFit, SelectorsFrom, HeaderFits;
      ghost var frame, h := Frame(), Header(comps, scan);
      HeaderOk(comps, scan, arithCode, frame);
      for i := 0 to |scan.comps|
        invariant out + SelectorsFrom(frame, h, i) == old(out) + SelectorsFrom(frame, h, 0)
      {
        ghost var now, rest := out, SelectorsFrom(frame, h, i + 1);
        NextSelector(frame, h, i, []);
        CompKnown(comps, arithCode, scan.comps[i]);
        var compptr := comps[scan.comps[i]];
        EmitByte(compptr.id);
        var td := if scan.Ss == 0 && scan.Ah == 0 then compptr.dcTbl else 0;
        var ta := if scan.Se != 0 then compptr.acTbl else 0;
        EmitByte(16 * td + ta);
        assert SelectorsFrom(frame, h, i) + [] == SelectorsFrom(frame, h, i) && rest + [] == rest;
        assert now + ([compptr.id] + ([16 * td + ta] + rest)) == out + rest;
      }
      LastSelector(frame, h, []);
      assert out + SelectorsFrom(frame, h, |h.comps|) == out + (SelectorsFrom(frame, h, |h.comps|) + []) == out;
    }

    // write_frame_header: the quantization tables, and the frame; p is what the decoder has.
    method WriteFrameHeader(ghost p: Params) returns (ok: bool, ghost sent: seq<MarkerSegment>)
      requires Valid() && ParamsShape(p) && InStep(tables, lastRestartInterval, p) && p.frame.None?
      modifies `out, `tables
      ensures Valid() && AllFit(sent) && SameTables(old(tables), tables)
      ensures ok <==> QuantsDefined(old(tables), comps, |comps|) && height <= 65535 && width <= 65535
      ensures ok ==> out == old(out) + AllBytes(order, sent) && FrameOnce(p, sent)
      ensures ok ==> sent != [] && sent[|sent| - 1] == DefineFrame(FrameCode(progressive, arithCode, Baseline(old(tables))), Frame())
      ensures ok ==> var q := ApplyAll(p, sent);
                     && InStep(tables, lastRestartInterval, q) && q.frame == Some(Frame())
                     && QuantsReady(tables, comps, |comps|, q)
    {
      hide OrderOk, OrderFits, AllBytes, ApplyAll, TablesShape, SegmentFits, FrameOnce, SameTables, QuantsDefined, AllEightBit;
      var prec;
      ok, prec, sent := EmitQuants(p);
      if !ok {
        return;
      }
      var isBaseline := !arithCode && !progressive && precision == 8;
      if isBaseline {
        for ci := 0 to |comps|
          invariant isBaseline <==> forall c :: 0 <= c < ci ==> comps[c].dcTbl <= 1 && comps[c].acTbl <= 1
        {
          if comps[ci].dcTbl > 1 || comps[ci].acTbl > 1 {
            isBaseline := false;
          }
        }
        if prec != 0 && isBaseline {
          isBaseline := false;
        }
      }
      ghost var last;
      ok, last := EmitSof(FrameCode(progressive, arithCode, isBaseline));
      if ok {
        FrameKept(p, sent);
        FrameLast(p, sent, last[0]);
        AllBytesConcat(order, sent, last);
        StillInStep(tables, lastRestartInterval, comps, ApplyAll(p, sent), Some(Frame()));
        sent := sent + last;
      }
    }

    // What baseline coding allows: 8-bit samples and quantizer steps, and two tables of each kind
    ghost predicate Baseline(t: Tables) {
      && !arithCode && !progressive && precision == 8
      && (forall c :: 0 <= c < |comps| ==> comps[c].dcTbl <= 1 && comps[c].acTbl <= 1)
      && AllEightBit(t, comps, |comps|)
    }

    // The quantization tables of all components
    method EmitQuants(ghost p: Params) returns (ok: bool, prec: nat, ghost sent: seq<MarkerSegment>)
      requires Valid() && ParamsShape(p) && InStep(tables, lastRestartInterval, p)
      modifies `out, `tables
      ensures Valid() && AllFit(sent) && NoFrames(sent) && SameTables(old(tables), tables)
      ensures ok <==> QuantsDefined(old(tables), comps, |comps|)
      ensures ok ==> out == old(out) + AllBytes(order, sent)
      ensures ok ==> InStep(tables, lastRestartInterval, ApplyAll(p, sent)) && QuantsReady(tables, comps, |comps|, ApplyAll(p, sent))
      ensures ok ==> (prec == 0 <==> AllEightBit(old(tables), comps, |comps|))
    {
      hide OrderOk, OrderFits, AllBytes, ApplyAll, TablesShape, SegmentFits, InStep, QuantReady, Precision, AllEightBit;
      NoneSixteenBit(tables, comps);
      NoSegments(order);
      NothingApplied(p);
      NothingChanged(tables);
      sent, prec := [], 0;
      ok := true;
      for ci := 0 to |comps|
        invariant Valid() && AllFit(sent) && NoFrames(sent) && SameTables(old(tables), tables)
        invariant QuantsDefined(old(tables), comps, ci) && out == old(out) + AllBytes(order, sent)
        invariant InStep(tables, lastRestartInterval, ApplyAll(p, sent)) && QuantsReady(tables, comps, ci, ApplyAll(p, sent))
        invariant prec == 0 <==> AllEightBit(old(tables), comps, ci)
      {
        NextEightBit(old(tables), tables, comps, ci);
        ghost var was, q, n := tables, ApplyAll(p, sent), comps[ci].quantTbl;
        var more;
        ghost var next;
        ok, more, next := EmitDqt(comps[ci].quantTbl);
        if !ok {
          return;
        }
        prec := prec + more;
        QuantStep(was, lastRestartInterval, q, n);
        StillReady(was, tables, comps, ci, q, ApplyAll(q, next), n);
        AllBytesConcat(order, sent, next);
        ApplyConcat(p, sent, next);
        sent := sent + next;
      }
    }

    // write_scan_header: tables that have not been sent yet, the restart interval if it has changed, and the
    // scan; p is what the decoder has.
    method WriteScanHeader(scan: ScanSpec, ghost p: Params) returns (ok: bool, ghost sent: seq<MarkerSegment>)
      requires Valid() && SpecFits(comps, scan) && ParamsShape(p) && InStep(tables, lastRestartInterval, p)
      requires height <= 65535 && width <= 65535
      modifies `out, `tables, `lastRestartInterval
      ensures Valid() && AllFit(sent) && NoFrames(sent) && NoQuants(sent) && SameTables(old(tables), tables)
      ensures tables.quant == old(tables).quant
      ensures ok <==> arithCode || HuffsDefined(old(tables), comps, scan, |scan.comps|)
      ensures HeaderFits(Frame(), Header(comps, scan))
      ensures ok ==> out == old(out) + AllBytes(order, sent) + ([0xFF, SOS] + HeaderBody(Frame(), Header(comps, scan)))
      ensures ok ==> var q := ApplyAll(p, sent);
                     && InStep(tables, lastRestartInterval, q) && q.restartInterval == tables.restartInterval
                     && EntropyReady(tables, comps, scan, arithCode, q)
    {
      hide OrderOk, OrderFits, AllBytes, ApplyAll, TablesShape, SegmentFits, SameTables, HuffsDefined, InStep, EntropyReady, SpecFits,
        CompsFit, HeaderBody, Header, HeaderFits;
      HeaderOk(comps, scan, arithCode, Frame());
      ok, sent := EmitTables(scan, p);
      if !ok {
        return;
      }
      if tables.restartInterval != lastRestartInterval {
        ghost var dri := EmitDri();
        lastRestartInterval := tables.restartInterval;
        RestartStep(tables, comps, scan, arithCode, old(lastRestartInterval), ApplyAll(p, sent));
        ApplyConcat(p, sent, dri);
        AllBytesConcat(order, sent, dri);
        sent := sent + dri;
      } else {
        InStepRestart(tables, lastRestartInterval, ApplyAll(p, sent));
      }
      EmitSos(scan);
    }

    // The entropy coder's tables
    method EmitTables(scan: ScanSpec, ghost p: Params) returns (ok: bool, ghost sent: seq<MarkerSegment>)
      requires Valid() && SpecFits(comps, scan) && ParamsShape(p) && InStep(tables, lastRestartInterval, p)
      modifies `out, `tables
      ensures Valid() && AllFit(sent) && NoFrames(sent) && NoQuants(sent) && SameTables(old(tables), tables)
      ensures tables.quant == old(tables).quant
      ensures ok <==> arithCode || HuffsDefined(old(tables), comps, scan, |scan.comps|)
      ensures ok ==> out == old(out) + AllBytes(order, sent) && InStep(tables, lastRestartInterval, ApplyAll(p, sent))
      ensures ok ==> EntropyReady(tables, comps, scan, arithCode, ApplyAll(p, sent))
    {
      hide OrderOk, OrderFits, AllBytes, ApplyAll, TablesShape, SegmentFits, SameTables, HuffsDefined, InStep, HuffsReady, ArithReady;
      if arithCode {
        sent := EmitDac(scan);
        ok := true;
        NothingChanged(tables);
        ArithStep(tables, comps, scan, lastRestartInterval, p);
      } else {
        ok, sent := EmitHuffs(scan, p);
      }
    }

    // The Huffman tables that the scan needs
    method EmitHuffs(scan: ScanSpec, ghost p: Params) returns (ok: bool, ghost sent: seq<MarkerSegment>)
      requires Valid() && SpecFits(comps, scan) && ParamsShape(p) && InStep(tables, lastRestartInterval, p) && !arithCode
      modifies `out, `tables
      ensures Valid() && AllFit(sent) && NoFrames(sent) && NoQuants(sent) && SameTables(old(tables), tables)
      ensures tables.quant == old(tables).quant
      ensures ok <==> HuffsDefined(old(tables), comps, scan, |scan.comps|)
      ensures ok ==> out == old(out) + AllBytes(order, sent)
      ensures ok ==> var q := ApplyAll(p, sent);
                     InStep(tables, lastRestartInterval, q) && HuffsReady(tables, comps, scan, |scan.comps|, q)
    {
      hide OrderOk, OrderFits, AllBytes, ApplyAll, SegmentFits, InStep, SameTables, HuffsDefined, HuffsReady, CompsFit, SpecFits, Ready,
        HuffFits;
      NoSegments(order);
      NothingApplied(p);
      NothingChanged(tables);
      sent := [];
      ok := true;
      HuffTables(comps, arithCode);
      NoneNeeded(tables, comps, scan, p);
      for i := 0 to |scan.comps|
        invariant Valid() && AllFit(sent) && NoFrames(sent) && NoQuants(sent) && SameTables(old(tables), tables)
        invariant tables.quant == old(tables).quant
        invariant HuffsDefined(old(tables), comps, scan, i) && out == old(out) + AllBytes(order, sent)
        invariant InStep(tables, lastRestartInterval, ApplyAll(p, sent)) && HuffsReady(tables, comps, scan, i, ApplyAll(p, sent))
      {
        ghost var was := tables;
        ghost var more;
        ok, more := EmitBoth(scan, i, ApplyAll(p, sent));
        SameDefined(old(tables), was, tables);
        NextNeeded(old(tables), was, comps, scan, i);
        if !ok {
          return;
        }
        ApplyConcat(p, sent, more);
        AllBytesConcat(order, sent, more);
        sent := sent + more;
      }
    }

    // The tables of component i
    method EmitBoth(scan: ScanSpec, i: nat, ghost p: Params) returns (ok: bool, ghost sent: seq<MarkerSegment>)
      requires Valid() && SpecFits(comps, scan) && ParamsShape(p) && InStep(tables, lastRestartInterval, p) && HuffNumbers(comps)
      requires i < |scan.comps| && HuffsReady(tables, comps, scan, i, p)
      modifies `out, `tables
      ensures Valid() && AllFit(sent) && NoFrames(sent) && NoQuants(sent) && SameTables(old(tables), tables)
      ensures tables.quant == old(tables).quant
      ensures ok <==>
                && (NeedsTable(scan, false) ==> Defined(old(tables), false, comps[scan.comps[i]].dcTbl))
                && (NeedsTable(scan, true) ==> Defined(old(tables), true, comps[scan.comps[i]].acTbl))
      ensures ok ==> out == old(out) + AllBytes(order, sent) && InStep(tables, lastRestartInterval, ApplyAll(p, sent))
                     && HuffsReady(tables, comps, scan, i + 1, ApplyAll(p, sent))
    {
      hide OrderOk, OrderFits, AllBytes, ApplyAll, SegmentFits, InStep, SameTables, HuffsReady, CompsFit, Ready, HuffFits;
      ok, sent := EmitNeeded(scan, false, comps[scan.comps[i]].dcTbl, p);
      ghost var was, between, q := old(tables), tables, ApplyAll(p, sent);
      NothingChanged(between);
      SameDefined(was, between, between);
      if !ok {
        return;
      }
      ghost var ac;
      ok, ac := EmitNeeded(scan, true, comps[scan.comps[i]].acTbl, q);
      SameDefined(was, between, tables);
      if !ok {
        return;
      }
      ApplyConcat(p, sent, ac);
      AllBytesConcat(order, sent, ac);
      sent := sent + ac;
      MoreReady(was, tables, comps, scan, i, p, ApplyAll(p, sent));
    }

    // A table, if the scan needs one of its kind
    method EmitNeeded(scan: ScanSpec, isAc: bool, n: nat, ghost p: Params) returns (ok: bool, ghost sent: seq<MarkerSegment>)
      requires Valid() && n < NUM_HUFF_TBLS && ParamsShape(p) && InStep(tables, lastRestartInterval, p)
      modifies `out, `tables
      ensures Valid() && AllFit(sent) && NoFrames(sent) && NoQuants(sent) && SameTables(old(tables), tables)
      ensures tables.quant == old(tables).quant
      ensures ok <==> NeedsTable(scan, isAc) ==> Defined(old(tables), isAc, n)
      ensures out == old(out) + AllBytes(order, sent) && InStep(tables, lastRestartInterval, ApplyAll(p, sent))
      ensures ok && NeedsTable(scan, isAc) ==> Ready(tables, ApplyAll(p, sent), isAc, n)
      ensures forall k, m: nat :: m < NUM_HUFF_TBLS && Ready(old(tables), p, k, m) ==> Ready(tables, ApplyAll(p, sent), k, m)
    {
      hide OrderOk, OrderFits, AllBytes, ApplyAll, SegmentFits, InStep, CompsFit, Ready, Received, HuffFits;
      NoSegments(order);
      NothingApplied(p);
      sent := [];
      ok := true;
      if NeedsTable(scan, isAc) {
        ghost var was := tables;
        ok, sent := EmitDht(n, isAc);
        if ok {
          HuffStep(was, lastRestartInterval, p, isAc, n);
        }
      }
    }
  }

  // Component i's tables are defined, too.
  lemma NextNeeded(t: Tables, u: Tables, comps: seq<Comp>, scan: ScanSpec, i: nat)
    requires SpecFits(comps, scan) && HuffNumbers(comps) && i < |scan.comps| && SameTables(t, u)
    requires HuffsDefined(t, comps, scan, i)
    ensures HuffsDefined(t, comps, scan, i + 1) <==>
              && (NeedsTable(scan, false) ==> Defined(u, false, comps[scan.comps[i]].dcTbl))
              && (NeedsTable(scan, true) ==> Defined(u, true, comps[scan.comps[i]].acTbl))
    ensures HuffsDefined(t, comps, scan, |scan.comps|) ==> HuffsDefined(t, comps, scan, i + 1)
  {
    NothingDiffers(t, u);
    hide SameTables;
    var c := comps[scan.comps[i]];
    assert TableOf(c, false) == c.dcTbl && TableOf(c, true) == c.acTbl;
  }

  lemma NothingDiffers(t: Tables, u: Tables)
    requires SameTables(t, u)
    ensures forall isAc, n: nat :: n < NUM_HUFF_TBLS ==> (Defined(t, isAc, n) <==> Defined(u, isAc, n))
  {
  }

  lemma SameDefined(t: Tables, u: Tables, v: Tables)
    requires SameTables(t, u) && SameTables(u, v)
    ensures SameTables(t, v) && forall isAc, n: nat :: n < NUM_HUFF_TBLS ==> (Defined(t, isAc, n) <==> Defined(u, isAc, n))
  {
  }

  lemma MoreReady(t: Tables, u: Tables, comps: seq<Comp>, scan: ScanSpec, i: nat, p: Params, q: Params)
    requires SpecFits(comps, scan) && HuffNumbers(comps) && i < |scan.comps|
    requires |t.dcHuff| == |t.acHuff| == |p.dcHuff| == |p.acHuff| == |u.dcHuff| == |u.acHuff| == |q.dcHuff| == |q.acHuff| == NUM_HUFF_TBLS
    requires HuffsReady(t, comps, scan, i, p)
    requires forall k, m: nat :: m < NUM_HUFF_TBLS && Ready(t, p, k, m) ==> Ready(u, q, k, m)
    requires NeedsTable(scan, false) ==> Ready(u, q, false, comps[scan.comps[i]].dcTbl)
    requires NeedsTable(scan, true) ==> Ready(u, q, true, comps[scan.comps[i]].acTbl)
    ensures HuffsReady(u, comps, scan, i + 1, q)
  {
    hide Ready;
    forall isAc, k | 0 <= k < i + 1 && NeedsTable(scan, isAc)
      ensures Ready(u, q, isAc, TableOf(comps[scan.comps[k]], isAc))
    {
      if k < i {
        assert Ready(t, p, isAc, TableOf(comps[scan.comps[k]], isAc));
      }
    }
  }

  predicate Defined(t: Tables, isAc: bool, n: nat)
    requires |t.dcHuff| == |t.acHuff| == NUM_HUFF_TBLS && n < NUM_HUFF_TBLS
  {
    (if isAc then t.acHuff else t.dcHuff)[n].Some?
  }

  // The decoder has this table.
  ghost predicate Ready(t: Tables, p: Params, isAc: bool, n: nat)
    requires |t.dcHuff| == |t.acHuff| == |p.dcHuff| == |p.acHuff| == NUM_HUFF_TBLS && n < NUM_HUFF_TBLS
  {
    if isAc then HuffReady(t.acHuff[n], p.acHuff[n]) else HuffReady(t.dcHuff[n], p.dcHuff[n])
  }

  ghost predicate HuffReady(slot: Option<Slot<HuffTable>>, have: Option<HuffTable>) {
    slot.Some? && slot.value.sentTable && HuffFits(slot.value.table) && have == Some(Received(slot.value.table))
  }

  predicate HuffNumbers(comps: seq<Comp>) {
    forall c :: 0 <= c < |comps| ==> comps[c].dcTbl < NUM_HUFF_TBLS && comps[c].acTbl < NUM_HUFF_TBLS
  }

  // The Huffman tables that the first n components need are defined.
  ghost predicate HuffsDefined(t: Tables, comps: seq<Comp>, scan: ScanSpec, n: nat)
    requires SpecFits(comps, scan) && |t.dcHuff| == |t.acHuff| == NUM_HUFF_TBLS && n <= |scan.comps| && HuffNumbers(comps)
  {
    forall isAc, i :: 0 <= i < n && NeedsTable(scan, isAc) ==> Defined(t, isAc, TableOf(comps[scan.comps[i]], isAc))
  }

  // The decoder has them, too.
  ghost predicate HuffsReady(t: Tables, comps: seq<Comp>, scan: ScanSpec, n: nat, p: Params)
    requires SpecFits(comps, scan) && n <= |scan.comps| && HuffNumbers(comps)
    requires |t.dcHuff| == |t.acHuff| == |p.dcHuff| == |p.acHuff| == NUM_HUFF_TBLS
  {
    forall isAc, i :: 0 <= i < n && NeedsTable(scan, isAc) ==> Ready(t, p, isAc, TableOf(comps[scan.comps[i]], isAc))
  }

  // Sending a table keeps both sides in step, and what has been sent stays with the decoder.
  lemma HuffStep(t: Tables, last: UInt16, p: Params, isAc: bool, n: nat)
    requires TablesShape(t) && ParamsShape(p) && InStep(t, last, p) && n < NUM_HUFF_TBLS && Defined(t, isAc, n)
    ensures var slot := (if isAc then t.acHuff else t.dcHuff)[n].value;
            var next := if slot.sentTable then [] else [DefineHuff(isAc, n, slot.table)];
            && AllFit(next) && NoFrames(next) && NoQuants(next)
            && var u, q := Marked(t, isAc, n), ApplyAll(p, next);
               && TablesShape(u) && InStep(u, last, q) && Ready(u, q, isAc, n)
               && (forall k, m: nat :: m < NUM_HUFF_TBLS && Ready(t, p, k, m) ==> Ready(u, q, k, m))
  {
    hide HuffFits, Received, QuantInStep;
    var slot := (if isAc then t.acHuff else t.dcHuff)[n].value;
    if !slot.sentTable {
      OneApplied(p, DefineHuff(isAc, n, slot.table));
    }
  }

  // So are the conditioning parameters of the tables that the components use.
  ghost predicate ArithReady(t: Tables, comps: seq<Comp>, scan: ScanSpec, n: nat, p: Params)
    requires SpecFits(comps, scan) && n <= |scan.comps| && TablesShape(t) && ParamsShape(p)
    requires forall c :: 0 <= c < |comps| ==> comps[c].dcTbl < 16 && comps[c].acTbl < 16
  {
    && (NeedsTable(scan, false) ==>
          forall i :: 0 <= i < n ==> var k := comps[scan.comps[i]].dcTbl; p.dcL[k] == t.dcL[k] && p.dcU[k] == t.dcU[k])
    && (NeedsTable(scan, true) ==>
          forall i :: 0 <= i < n ==> var k := comps[scan.comps[i]].acTbl; p.acK[k] == t.acK[k])
  }

  lemma HuffTables(comps: seq<Comp>, arithCode: bool)
    requires CompsFit(comps, arithCode) && !arithCode
    ensures HuffNumbers(comps)
  {
  }

  // The decoder has what the entropy coder of the scan uses.
  ghost predicate EntropyReady(t: Tables, comps: seq<Comp>, scan: ScanSpec, arithCode: bool, p: Params)
    requires SpecFits(comps, scan) && CompsFit(comps, arithCode) && TablesShape(t) && ParamsShape(p)
  {
    if arithCode then ArithReady(t, comps, scan, |scan.comps|, p)
    else
      HuffTables(comps, arithCode);
      HuffsReady(t, comps, scan, |scan.comps|, p)
  }

  // A new restart interval
  lemma RestartStep(t: Tables, comps: seq<Comp>, scan: ScanSpec, arithCode: bool, last: UInt16, p: Params)
    requires SpecFits(comps, scan) && CompsFit(comps, arithCode) && TablesShape(t) && ParamsShape(p) && InStep(t, last, p)
    requires EntropyReady(t, comps, scan, arithCode, p)
    ensures var next := [DefineRestart(t.restartInterval)];
            && AllFit(next) && NoFrames(next) && NoQuants(next)
            && var q := ApplyAll(p, next);
               && InStep(t, t.restartInterval, q) && q.restartInterval == t.restartInterval && EntropyReady(t, comps, scan, arithCode, q)
  {
    OneApplied(p, DefineRestart(t.restartInterval));
  }

  // Entry e is what these tables say.
  predicate FromTables(t: Tables, e: ArithEntry)
    requires |t.dcL| == |t.dcU| == |t.acK| == NUM_ARITH_TBLS
  {
    && e.index < 2 * NUM_ARITH_TBLS
    && e.val == if e.index < NUM_ARITH_TBLS then t.dcL[e.index] + 16 * t.dcU[e.index] else t.acK[e.index - NUM_ARITH_TBLS]
  }

  // The decoder's entry k is that of the tables.
  predicate SameEntry(t: Tables, p: Params, k: nat)
    requires |t.dcL| == |t.dcU| == |t.acK| == |p.dcL| == |p.dcU| == |p.acK| == NUM_ARITH_TBLS && k < 2 * NUM_ARITH_TBLS
  {
    if k < NUM_ARITH_TBLS then p.dcL[k] == t.dcL[k] && p.dcU[k] == t.dcU[k] else p.acK[k - NUM_ARITH_TBLS] == t.acK[k - NUM_ARITH_TBLS]
  }

  lemma {:induction false} EntriesApplied(t: Tables, p: Params, entries: seq<ArithEntry>, n: nat)
    requires TablesShape(t) && ParamsShape(p) && n <= |entries| && EntriesKnown(entries)
    requires forall j :: 0 <= j < |entries| ==> FromTables(t, entries[j])
    ensures forall j :: 0 <= j < n ==> SameEntry(t, ApplyEntries(p, entries, n), entries[j].index)
  {
    hide SameEntry, FromTables, HuffFits, ApplyEntry;
    if n > 0 {
      EntriesApplied(t, p, entries, n - 1);
      EntryApplied(t, ApplyEntries(p, entries, n - 1), entries[n - 1]);
    }
  }

  lemma EntryApplied(t: Tables, p: Params, e: ArithEntry)
    requires TablesShape(t) && |p.dcL| == |p.dcU| == |p.acK| == NUM_ARITH_TBLS && FromTables(t, e)
    ensures SameEntry(t, ApplyEntry(p, e), e.index)
    ensures forall k :: 0 <= k < 2 * NUM_ARITH_TBLS && SameEntry(t, p, k) ==> SameEntry(t, ApplyEntry(p, e), k)
  {
    hide HuffFits;
  }

  lemma {:induction false} EntriesFrom(t: Tables, dcInUse: seq<bool>, acInUse: seq<bool>, i: nat)
    requires TablesShape(t) && |dcInUse| == |acInUse| == NUM_ARITH_TBLS && i <= NUM_ARITH_TBLS
    ensures forall e :: e in DacEntries(t, dcInUse, acInUse, i) ==> FromTables(t, e)
    decreases NUM_ARITH_TBLS - i
  {
    hide FromTables, TableEntries, TablesShape;
    if i < NUM_ARITH_TBLS {
      EntriesFrom(t, dcInUse, acInUse, i + 1);
      TablesEntries(t, dcInUse, acInUse, i);
    }
  }

  // The entries list all tables in use from i on.
  ghost predicate AllListed(entries: seq<ArithEntry>, dcInUse: seq<bool>, acInUse: seq<bool>, i: nat) {
    && |dcInUse| == |acInUse| == NUM_ARITH_TBLS
    && forall k :: i <= k < NUM_ARITH_TBLS ==>
         (dcInUse[k] ==> Lists(entries, k)) && (acInUse[k] ==> Lists(entries, NUM_ARITH_TBLS + k))
  }

  lemma {:induction false} EntriesListed(t: Tables, dcInUse: seq<bool>, acInUse: seq<bool>, i: nat)
    requires TablesShape(t) && |dcInUse| == |acInUse| == NUM_ARITH_TBLS && i <= NUM_ARITH_TBLS
    ensures AllListed(DacEntries(t, dcInUse, acInUse, i), dcInUse, acInUse, i)
    decreases NUM_ARITH_TBLS - i
  {
    hide TablesShape, TableEntries, Lists;
    if i < NUM_ARITH_TBLS {
      EntriesListed(t, dcInUse, acInUse, i + 1);
      TableListed(t, dcInUse, acInUse, i);
      ListsConcat(TableEntries(t, dcInUse, acInUse, i), DacEntries(t, dcInUse, acInUse, i + 1));
    }
  }

  lemma TableListed(t: Tables, dcInUse: seq<bool>, acInUse: seq<bool>, i: nat)
    requires TablesShape(t) && |dcInUse| == |acInUse| == NUM_ARITH_TBLS && i < NUM_ARITH_TBLS
    ensures dcInUse[i] ==> Lists(TableEntries(t, dcInUse, acInUse, i), i)
    ensures acInUse[i] ==> Lists(TableEntries(t, dcInUse, acInUse, i), NUM_ARITH_TBLS + i)
  {
    hide TablesShape;
    var here := TableEntries(t, dcInUse, acInUse, i);
    if acInUse[i] {
      assert here[|here| - 1].index == NUM_ARITH_TBLS + i;
    }
    if dcInUse[i] {
      assert here[0].index == i;
    }
  }

  lemma TablesEntries(t: Tables, dcInUse: seq<bool>, acInUse: seq<bool>, i: nat)
    requires TablesShape(t) && |dcInUse| == |acInUse| == NUM_ARITH_TBLS && i < NUM_ARITH_TBLS
    ensures forall e :: e in TableEntries(t, dcInUse, acInUse, i) ==> FromTables(t, e)
  {
  }

  ghost predicate Lists(entries: seq<ArithEntry>, k: nat) {
    exists j :: 0 <= j < |entries| && entries[j].index == k
  }

  lemma ListsConcat(a: seq<ArithEntry>, b: seq<ArithEntry>)
    ensures forall k :: Lists(a, k) || Lists(b, k) ==> Lists(a + b, k)
  {
    forall k | Lists(a, k) || Lists(b, k)
      ensures Lists(a + b, k)
    {
      if Lists(a, k) {
        var j :| 0 <= j < |a| && a[j].index == k;
        assert (a + b)[j].index == k;
      } else {
        var j :| 0 <= j < |b| && b[j].index == k;
        assert (a + b)[|a| + j].index == k;
      }
    }
  }

  lemma {:induction false} UsedTables(comps: seq<Comp>, scan: ScanSpec, isAc: bool, n: nat)
    requires SpecFits(comps, scan) && n <= |scan.comps| && NeedsTable(scan, isAc)
    requires forall c :: 0 <= c < |comps| ==> comps[c].dcTbl < 16 && comps[c].acTbl < 16
    ensures forall i :: 0 <= i < n ==> InUse(comps, scan, isAc, n)[TableOf(comps[scan.comps[i]], isAc)]
  {
    if n > 0 {
      UsedTables(comps, scan, isAc, n - 1);
    }
  }

  // Sending the conditioning parameters
  lemma ArithStep(t: Tables, comps: seq<Comp>, scan: ScanSpec, last: UInt16, p: Params)
    requires SpecFits(comps, scan) && CompsFit(comps, true) && TablesShape(t) && ParamsShape(p) && InStep(t, last, p)
    ensures var entries := DacEntries(t, InUse(comps, scan, false, |scan.comps|), InUse(comps, scan, true, |scan.comps|), 0);
            var next := if entries == [] then [] else [DefineArith(entries)];
            && AllFit(next) && NoFrames(next) && NoQuants(next)
            && var q := ApplyAll(p, next); InStep(t, last, q) && EntropyReady(t, comps, scan, true, q)
  {
    hide DacEntries, InUse, FromTables, SameEntry, EntryFits;
    var dcInUse, acInUse := InUse(comps, scan, false, |scan.comps|), InUse(comps, scan, true, |scan.comps|);
    var entries := DacEntries(t, dcInUse, acInUse, 0);
    EntriesAreFit(t, dcInUse, acInUse, 0);
    EntriesListed(t, dcInUse, acInUse, 0);
    EntriesFrom(t, dcInUse, acInUse, 0);
    EntriesApplied(t, p, entries, |entries|);
    if entries == [] {
      NothingApplied(p);
    } else {
      OneApplied(p, DefineArith(entries));
    }
    AllReady(t, comps, scan, p, entries);
  }

  lemma AllReady(t: Tables, comps: seq<Comp>, scan: ScanSpec, p: Params, entries: seq<ArithEntry>)
    requires SpecFits(comps, scan) && CompsFit(comps, true) && TablesShape(t) && ParamsShape(p) && EntriesKnown(entries)
    requires AllListed(entries, InUse(comps, scan, false, |scan.comps|), InUse(comps, scan, true, |scan.comps|), 0)
    requires forall j :: 0 <= j < |entries| ==> SameEntry(t, ApplyEntries(p, entries, |entries|), entries[j].index)
    ensures ParamsShape(ApplyEntries(p, entries, |entries|))
    ensures ArithReady(t, comps, scan, |scan.comps|, ApplyEntries(p, entries, |entries|))
  {
    hide ApplyEntries;
    if NeedsTable(scan, false) {
      UsedTables(comps, scan, false, |scan.comps|);
    }
    if NeedsTable(scan, true) {
      UsedTables(comps, scan, true, |scan.comps|);
    }
    forall i | 0 <= i < |scan.comps| && NeedsTable(scan, false)
      ensures Lists(entries, comps[scan.comps[i]].dcTbl)
    {
      var k := comps[scan.comps[i]].dcTbl;
      assert k == TableOf(comps[scan.comps[i]], false) && InUse(comps, scan, false, |scan.comps|)[k];
    }
    forall i | 0 <= i < |scan.comps| && NeedsTable(scan, true)
      ensures Lists(entries, NUM_ARITH_TBLS + comps[scan.comps[i]].acTbl)
    {
      var k := comps[scan.comps[i]].acTbl;
      assert k == TableOf(comps[scan.comps[i]], true) && InUse(comps, scan, true, |scan.comps|)[k];
    }
  }

  lemma InStepRestart(t: Tables, last: UInt16, p: Params)
    requires TablesShape(t) && ParamsShape(p) && InStep(t, last, p)
    ensures p.restartInterval == last
  {
  }

  lemma NoneNeeded(t: Tables, comps: seq<Comp>, scan: ScanSpec, p: Params)
    requires SpecFits(comps, scan) && TablesShape(t) && ParamsShape(p) && HuffNumbers(comps)
    ensures HuffsDefined(t, comps, scan, 0) && HuffsReady(t, comps, scan, 0, p)
  {
  }

  lemma NothingChanged(t: Tables)
    requires TablesShape(t)
    ensures SameTables(t, t)
  {
  }

  lemma NothingApplied(p: Params)
    requires ParamsShape(p)
    ensures AllFit([]) && ApplyAll(p, []) == p
  {
  }

  // Sending a table keeps both sides in step.
  lemma QuantStep(t: Tables, last: UInt16, p: Params, n: nat)
    requires TablesShape(t) && ParamsShape(p) && InStep(t, last, p) && n < NUM_QUANT_TBLS && t.quant[n].Some?
    ensures var slot := t.quant[n].value;
            var next := if slot.sentTable then [] else [DefineQuant(n, slot.table)];
            && AllFit(next) && NoFrames(next)
            && var u, q := t.(quant := t.quant[n := Some(Slot(slot.table, true))]), ApplyAll(p, next);
               && TablesShape(u) && InStep(u, last, q) && QuantReady(u.quant[n], q.quant[n])
               && (forall m :: 0 <= m < NUM_QUANT_TBLS && m != n ==> q.quant[m] == p.quant[m])
  {
    hide HuffFits, HuffInStep;
    var slot := t.quant[n].value;
    if !slot.sentTable {
      OneApplied(p, DefineQuant(n, slot.table));
    }
  }

  lemma OneApplied(p: Params, s: MarkerSegment)
    requires ParamsShape(p) && SegmentFits(s)
    ensures AllFit([s]) && ApplyAll(p, [s]) == Apply(p, s)
  {
    hide ParamsShape, SegmentFits;
    assert [s][1..] == [];
  }

  lemma StillReady(t: Tables, u: Tables, comps: seq<Comp>, ci: nat, p: Params, q: Params, n: nat)
    requires |t.quant| == |u.quant| == |p.quant| == |q.quant| == NUM_QUANT_TBLS && ci < |comps| && comps[ci].quantTbl == n
    requires forall c :: 0 <= c < |comps| ==> comps[c].quantTbl < NUM_QUANT_TBLS
    requires QuantsReady(t, comps, ci, p) && QuantReady(u.quant[n], q.quant[n])
    requires forall m :: 0 <= m < NUM_QUANT_TBLS && m != n ==> q.quant[m] == p.quant[m] && u.quant[m] == t.quant[m]
    ensures QuantsReady(u, comps, ci + 1, q)
  {
    hide QuantReady;
    forall c | 0 <= c < ci + 1
      ensures QuantReady(u.quant[comps[c].quantTbl], q.quant[comps[c].quantTbl])
    {
      if comps[c].quantTbl != n {
        assert QuantReady(t.quant[comps[c].quantTbl], p.quant[comps[c].quantTbl]);
      }
    }
  }

  lemma StillInStep(t: Tables, last: UInt16, comps: seq<Comp>, p: Params, frame: Option<FrameInfo>)
    requires TablesShape(t) && ParamsShape(p) && InStep(t, last, p)
    requires forall c :: 0 <= c < |comps| ==> comps[c].quantTbl < NUM_QUANT_TBLS
    ensures InStep(t, last, p.(frame := frame))
    ensures QuantsReady(t, comps, |comps|, p) ==> QuantsReady(t, comps, |comps|, p.(frame := frame))
  {
  }

  // The same tables, whether they have been sent or not
  ghost predicate SameTables(t: Tables, u: Tables) {
    && |t.quant| == |u.quant| == NUM_QUANT_TBLS && |t.dcHuff| == |u.dcHuff| == |t.acHuff| == |u.acHuff| == NUM_HUFF_TBLS
    && t.dcL == u.dcL && t.dcU == u.dcU && t.acK == u.acK && t.restartInterval == u.restartInterval
    && (forall n :: 0 <= n < NUM_QUANT_TBLS ==> SameSlot(t.quant[n], u.quant[n]))
    && (forall n :: 0 <= n < NUM_HUFF_TBLS ==> SameSlot(t.dcHuff[n], u.dcHuff[n]))
    && forall n :: 0 <= n < NUM_HUFF_TBLS ==> SameSlot(t.acHuff[n], u.acHuff[n])
  }

  predicate SameSlot<T(==)>(a: Option<Slot<T>>, b: Option<Slot<T>>) {
    (a.Some? <==> b.Some?) && (a.Some? ==> a.value.table == b.value.table)
  }

  // No quantizer step of the first n components has more than 8 bits.
  ghost predicate AllEightBit(t: Tables, comps: seq<Comp>, n: nat) {
    && n <= |comps|
    && forall c :: 0 <= c < n ==>
         && comps[c].quantTbl < |t.quant| && t.quant[comps[c].quantTbl].Some?
         && forall i :: 0 <= i < |t.quant[comps[c].quantTbl].value.table| ==> t.quant[comps[c].quantTbl].value.table[i] <= 255
  }

  lemma NoneSixteenBit(t: Tables, comps: seq<Comp>)
    ensures AllEightBit(t, comps, 0)
  {
  }

  lemma NextEightBit(t: Tables, u: Tables, comps: seq<Comp>, n: nat)
    requires SameTables(t, u) && n < |comps| && comps[n].quantTbl < NUM_QUANT_TBLS
    ensures u.quant[comps[n].quantTbl].Some? ==>
              (AllEightBit(t, comps, n + 1) <==> AllEightBit(t, comps, n) && Precision(u.quant[comps[n].quantTbl].value.table) == 0)
  {
  }

  // The first n components have quantization tables.
  ghost predicate QuantsDefined(t: Tables, comps: seq<Comp>, n: nat)
    requires |t.quant| == NUM_QUANT_TBLS && n <= |comps|
    requires forall c :: 0 <= c < |comps| ==> comps[c].quantTbl < NUM_QUANT_TBLS
  {
    forall c :: 0 <= c < n ==> t.quant[comps[c].quantTbl].Some?
  }

  // The decoder has them, too.
  ghost predicate QuantsReady(t: Tables, comps: seq<Comp>, n: nat, p: Params)
    requires |t.quant| == |p.quant| == NUM_QUANT_TBLS && n <= |comps|
    requires forall c :: 0 <= c < |comps| ==> comps[c].quantTbl < NUM_QUANT_TBLS
  {
    forall c :: 0 <= c < n ==> QuantReady(t.quant[comps[c].quantTbl], p.quant[comps[c].quantTbl])
  }

  predicate QuantReady(slot: Option<Slot<seq<UInt16>>>, have: Option<seq<UInt16>>) {
    slot.Some? && slot.value.sentTable && have == Some(slot.value.table)
  }

  lemma SpecKnown(comps: seq<Comp>, scan: ScanSpec)
    requires SpecFits(comps, scan)
    ensures |scan.comps| <= MAX_COMPS_IN_SCAN && scan.Ah < 16 && scan.Al < 16
    ensures var h := Header(comps, scan);
            h.comps == scan.comps && h.Ss == scan.Ss && h.Se == scan.Se && h.Ah == scan.Ah && h.Al == scan.Al
  {
  }

  lemma HeaderOk(comps: seq<Comp>, scan: ScanSpec, arithCode: bool, frame: FrameInfo)
    requires CompsFit(comps, arithCode) && SpecFits(comps, scan) && |frame.comps| == |comps|
    requires forall c :: 0 <= c < |comps| ==> frame.comps[c].id == comps[c].id
    ensures HeaderFits(frame, Header(comps, scan))
    ensures forall i :: 0 <= i < |scan.comps| ==> frame.comps[scan.comps[i]].id == comps[scan.comps[i]].id
  {
    forall i | 0 <= i < |scan.comps|
      ensures scan.comps[i] < |comps| && Header(comps, scan).dcTbl[i] < 16 && Header(comps, scan).acTbl[i] < 16
    {
      CompKnown(comps, arithCode, scan.comps[i]);
    }
  }

  // What the scan header says
  ghost function Header(comps: seq<Comp>, scan: ScanSpec): ScanHeader
    requires SpecFits(comps, scan)
  {
    var n := |scan.comps|;
    ScanHeader(scan.comps,
      seq(n, i requires 0 <= i < n => if NeedsTable(scan, false) then comps[scan.comps[i]].dcTbl else 0),
      seq(n, i requires 0 <= i < n => if NeedsTable(scan, true) then comps[scan.comps[i]].acTbl else 0),
      scan.Ss, scan.Se, scan.Ah, scan.Al)
  }

  // The scan names components of the frame.
  ghost predicate SpecFits(comps: seq<Comp>, scan: ScanSpec) {
    && 0 < |scan.comps| <= MAX_COMPS_IN_SCAN && scan.Ah < 16 && scan.Al < 16
    && (forall i :: 0 <= i < |scan.comps| ==> scan.comps[i] < |comps|)
    && forall i, j :: 0 <= i < j < |scan.comps| ==> scan.comps[i] < scan.comps[j]
  }

  // DC needs no table for a refinement scan, and AC none when not present.
  predicate NeedsTable(scan: ScanSpec, isAc: bool) {
    if isAc then scan.Se != 0 else scan.Ss == 0 && scan.Ah == 0
  }

  function TableOf(c: Comp, isAc: bool): nat {
    if isAc then c.acTbl else c.dcTbl
  }

  // The conditioning tables that the first n components use
  ghost function InUse(comps: seq<Comp>, scan: ScanSpec, isAc: bool, n: nat): (use: seq<bool>)
    requires SpecFits(comps, scan) && n <= |scan.comps|
    ensures |use| == NUM_ARITH_TBLS
  {
    if n == 0 then seq(NUM_ARITH_TBLS, _ => false)
    else
      var use, k := InUse(comps, scan, isAc, n - 1), TableOf(comps[scan.comps[n - 1]], isAc);
      if NeedsTable(scan, isAc) && k < NUM_ARITH_TBLS then use[k := true] else use
  }

  ghost function TableEntries(t: Tables, dcInUse: seq<bool>, acInUse: seq<bool>, i: nat): seq<ArithEntry>
    requires TablesShape(t) && |dcInUse| == |acInUse| == NUM_ARITH_TBLS && i < NUM_ARITH_TBLS
  {
    (if dcInUse[i] then [ArithEntry(i, t.dcL[i] + 16 * t.dcU[i])] else [])
    + if acInUse[i] then [ArithEntry(i + NUM_ARITH_TBLS, t.acK[i])] else []
  }

  ghost function DacEntries(t: Tables, dcInUse: seq<bool>, acInUse: seq<bool>, i: nat): seq<ArithEntry>
    requires TablesShape(t) && |dcInUse| == |acInUse| == NUM_ARITH_TBLS && i <= NUM_ARITH_TBLS
    decreases NUM_ARITH_TBLS - i
  {
    if i == NUM_ARITH_TBLS then []
    else TableEntries(t, dcInUse, acInUse, i) + DacEntries(t, dcInUse, acInUse, i + 1)
  }

  lemma {:induction false} EntriesAreFit(t: Tables, dcInUse: seq<bool>, acInUse: seq<bool>, i: nat)
    requires TablesShape(t) && |dcInUse| == |acInUse| == NUM_ARITH_TBLS && i <= NUM_ARITH_TBLS
    ensures |DacEntries(t, dcInUse, acInUse, i)| <= 2 * (NUM_ARITH_TBLS - i) && EntriesKnown(DacEntries(t, dcInUse, acInUse, i))
    ensures forall k :: 0 <= k < |DacEntries(t, dcInUse, acInUse, i)| ==> EntryFits(DacEntries(t, dcInUse, acInUse, i)[k])
    decreases NUM_ARITH_TBLS - i
  {
    hide TablesShape, TableEntries;
    if i < NUM_ARITH_TBLS {
      EntriesAreFit(t, dcInUse, acInUse, i + 1);
      TableIsFit(t, dcInUse, acInUse, i);
    }
  }

  lemma TableIsFit(t: Tables, dcInUse: seq<bool>, acInUse: seq<bool>, i: nat)
    requires TablesShape(t) && |dcInUse| == |acInUse| == NUM_ARITH_TBLS && i < NUM_ARITH_TBLS
    ensures |TableEntries(t, dcInUse, acInUse, i)| <= 2 && EntriesKnown(TableEntries(t, dcInUse, acInUse, i))
    ensures forall k :: 0 <= k < |TableEntries(t, dcInUse, acInUse, i)| ==> EntryFits(TableEntries(t, dcInUse, acInUse, i)[k])
  {
    hide HuffFits;
    assert EntryFits(ArithEntry(i, t.dcL[i] + 16 * t.dcU[i]));
  }

  predicate EntriesKnown(entries: seq<ArithEntry>) {
    forall k :: 0 <= k < |entries| ==> entries[k].index < 2 * NUM_ARITH_TBLS
  }

  lemma FewEntries(entries: seq<ArithEntry>)
    requires |entries| <= 1 && EntriesKnown(entries)
    ensures ArithBytesFrom(entries, 0) == if entries == [] then [] else [entries[0].index, entries[0].val]
  {
  }

  lemma ArithConcat(a: seq<ArithEntry>, b: seq<ArithEntry>)
    requires EntriesKnown(a) && EntriesKnown(b)
    ensures EntriesKnown(a + b) && ArithBytesFrom(a + b, 0) == ArithBytesFrom(a, 0) + ArithBytesFrom(b, 0)
  {
    ArithShift(a, b, 0);
    ArithSkip(a, b, 0);
  }

  lemma {:induction false} ArithShift(a: seq<ArithEntry>, b: seq<ArithEntry>, i: nat)
    requires EntriesKnown(a) && EntriesKnown(b) && i <= |a|
    ensures EntriesKnown(a + b) && ArithBytesFrom(a + b, i) == ArithBytesFrom(a, i) + ArithBytesFrom(a + b, |a|)
    decreases |a| - i
  {
    if i < |a| {
      ArithShift(a, b, i + 1);
    }
  }

  lemma {:induction false} ArithSkip(a: seq<ArithEntry>, b: seq<ArithEntry>, i: nat)
    requires EntriesKnown(a) && EntriesKnown(b) && i <= |b|
    ensures EntriesKnown(a + b) && ArithBytesFrom(a + b, |a| + i) == ArithBytesFrom(b, i)
    decreases |b| - i
  {
    if i < |b| {
      ArithSkip(a, b, i + 1);
    }
  }

  lemma NextTable(t: Tables, dcInUse: seq<bool>, acInUse: seq<bool>, i: nat)
    requires TablesShape(t) && |dcInUse| == |acInUse| == NUM_ARITH_TBLS && i < NUM_ARITH_TBLS
    ensures DacEntries(t, dcInUse, acInUse, i) == TableEntries(t, dcInUse, acInUse, i) + DacEntries(t, dcInUse, acInUse, i + 1)
  {
  }

  lemma NoTable(t: Tables, dcInUse: seq<bool>, acInUse: seq<bool>)
    requires TablesShape(t) && |dcInUse| == |acInUse| == NUM_ARITH_TBLS
    ensures DacEntries(t, dcInUse, acInUse, NUM_ARITH_TBLS) == [] && ArithBytesFrom([], 0) == []
  {
  }

  lemma CompKnown(comps: seq<Comp>, arithCode: bool, c: nat)
    requires CompsFit(comps, arithCode) && c < |comps|
    ensures comps[c].dcTbl < 16 && comps[c].acTbl < 16
    ensures !arithCode ==> comps[c].dcTbl < NUM_HUFF_TBLS && comps[c].acTbl < NUM_HUFF_TBLS
  {
  }

  function Marked(t: Tables, isAc: bool, index: nat): Tables
    requires index < |t.dcHuff| && index < |t.acHuff| && (if isAc then t.acHuff else t.dcHuff)[index].Some?
  {
    if isAc then t.(acHuff := t.acHuff[index := Some(t.acHuff[index].value.(sentTable := true))])
    else t.(dcHuff := t.dcHuff[index := Some(t.dcHuff[index].value.(sentTable := true))])
  }

  lemma NoSegments(order: seq<nat>)
    requires OrderFits(order)
    ensures AllFit([]) && AllBytes(order, []) == [] && forall b: seq<Byte> :: b + AllBytes(order, []) == b
  {
  }

  ghost predicate CompsFit(comps: seq<Comp>, arithCode: bool) {
    && 0 < |comps| <= MAX_COMPONENTS
    && (forall c :: 0 <= c < |comps| ==> comps[c].h < 16 && comps[c].v < 16 && comps[c].quantTbl < NUM_QUANT_TBLS)
    && (forall c :: 0 <= c < |comps| ==> comps[c].dcTbl < 16 && comps[c].acTbl < 16)
    && (!arithCode ==> HuffNumbers(comps))
    && forall c, d :: 0 <= c < d < |comps| ==> comps[c].id != comps[d].id
  }

  method FindPrecision(table: seq<UInt16>) returns (prec: nat)
    ensures prec == Precision(table)
  {
    prec := 0;
    for i := 0 to |table|
      invariant prec <= 1 && (prec == 0 <==> forall k :: 0 <= k < i ==> table[k] <= 255)
    {
      if table[i] > 255 {
        prec := 1;
      }
    }
  }

  lemma OneSegment(order: seq<nat>, s: MarkerSegment)
    requires OrderFits(order) && SegmentFits(s)
    ensures AllFit([s]) && AllBytes(order, [s]) == BytesOf(order, s)
  {
    hide SegmentFits, BytesOf;
    assert AllBytes(order, [s][1..]) == [];
  }
}
