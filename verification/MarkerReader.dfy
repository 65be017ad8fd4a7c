// Reading marker segments (jdmarker.c).
module MarkerReader {
  import opened ArithInterval
  import opened ArithScan
  import opened PointTransform
  import opened ByteSource
  import opened HuffmanLimit
  import opened HuffmanGen
  import opened MarkerSegments

  datatype ReadResult = ReachedSos(header: ScanHeader) | ReachedEoi | Failed

  class MarkerReader {
    const order: seq<nat>
    var rest: seq<Byte>
    // A marker that has been found but not processed
    var unreadMarker: Byte
    var discardedBytes: nat
    var sawSOI: bool
    var cinfo: Params

    ghost predicate Valid()
      reads this
    {
      OrderOk(order) && ParamsShape(cinfo) && unreadMarker != 0xFF
    }

    // Reading never leads back, but there is always another byte.
    twostate predicate Forward()
      reads `rest
    {
      |rest| <= |old(rest)| || |rest| <= 1
    }

    method InputByte() returns (b: Byte)
      modifies `rest
      ensures Forward() && (old(rest) != [] ==> b == old(rest)[0] && rest == old(rest)[1..])
      ensures old(rest) == [] ==> b == 0xFF && rest == [EOI]
    {
      b, rest := TakeByte(rest);
    }

    method Input2Bytes() returns (v: UInt16)
      modifies `rest
      ensures Forward()
      ensures |old(rest)| >= 2 ==> Two(v) == old(rest)[..2] && rest == old(rest)[2..]
    {
      var high: nat := InputByte();
      var low: nat := InputByte();
      v := 0x100 * high + low;
    }

    // Two bytes that hold a number
    method InputTwo(ghost n: UInt16, ghost tail: seq<Byte>) returns (v: UInt16)
      modifies `rest
      ensures Forward()
      ensures old(rest) == Two(n) + tail ==> v == n && rest == tail
    {
      v := Input2Bytes();
      assert (Two(n) + tail)[2..] == tail && (Two(n) + tail)[..2] == Two(n);
      assert Two(v) == Two(n) ==> v == n by {
        SameTwo(v, n);
      }
    }

    // One byte ahead of others
    method InputOne(ghost b: Byte, ghost tail: seq<Byte>) returns (c: Byte)
      modifies `rest
      ensures Forward()
      ensures old(rest) == [b] + tail ==> c == b && rest == tail
    {
      c := InputByte();
    }

    // get_dri
    method GetDri(ghost interval: UInt16, ghost tail: seq<Byte>) returns (ok: bool)
      requires Valid()
      modifies `rest, `cinfo
      ensures Valid() && Forward()
      ensures old(rest) == Two(4) + Two(interval) + tail ==>
                ok && rest == tail && cinfo == old(cinfo).(restartInterval := interval)
    {
      assert Two(4) + Two(interval) + tail == Two(4) + (Two(interval) + tail);
      var length := InputTwo(4, Two(interval) + tail);
      if length != 4 {
        return false;
      }
      var tmp := InputTwo(interval, tail);
      cinfo := cinfo.(restartInterval := tmp);
      return true;
    }

    // get_dqt, which takes any number of tables
    method GetDqt(ghost index: nat, ghost table: seq<UInt16>, ghost tail: seq<Byte>) returns (ok: bool)
      requires Valid() && index < NUM_QUANT_TBLS && |table| == DCTSIZE2
      modifies `rest, `cinfo
      ensures Valid() && Forward()
      ensures old(rest) == QuantBody(order, index, table) + tail ==>
                ok && rest == tail && cinfo == old(cinfo).(quant := old(cinfo).quant[index := Some(table)])
    {
      hide OrderOk, Two, Precision, QuantFrom;
      OrderFitsOf(order);
      ghost var prec := Precision(table);
      ghost var params := [index + 16 * prec] + QuantFrom(order, prec, table, 0);
      ghost var good := rest == QuantBody(order, index, table) + tail;
      ghost var size := if prec == 1 then DCTSIZE2 * 2 + 1 + 2 else DCTSIZE2 + 1 + 2;
      assert Two(size) + params + tail == Two(size) + (params + tail);
      var length: int := InputTwo(size, params + tail);
      length := length - 2;
      ghost var first := true;
      while length > 0
        invariant Valid() && Forward()
        invariant good && first ==> length == size - 2 && cinfo == old(cinfo) && rest == params + tail
        invariant good && !first ==> length == 0 && rest == tail
                                     && cinfo == old(cinfo).(quant := old(cinfo).quant[index := Some(table)])
      {
        var used;
        ok, used := GetTable(index, table, tail);
        if !ok {
          return;
        }
        length := length - used;
        first := false;
      }
      ok := length == 0;
    }

    // One table, and the number of bytes it takes
    method GetTable(ghost index: nat, ghost table: seq<UInt16>, ghost tail: seq<Byte>) returns (ok: bool, used: nat)
      requires Valid() && index < NUM_QUANT_TBLS && |table| == DCTSIZE2
      modifies `rest, `cinfo
      ensures Valid() && Forward() && DCTSIZE2 < used
      ensures old(rest) == [index + 16 * Precision(table)] + QuantFrom(order, Precision(table), table, 0) + tail ==>
                && ok && used == 1 + DCTSIZE2 * (1 + Precision(table)) && rest == tail
                && cinfo == old(cinfo).(quant := old(cinfo).quant[index := Some(table)])
    {
      hide OrderOk, Precision, QuantFrom;
      OrderFitsOf(order);
      ghost var prec := Precision(table);
      assert [index + 16 * prec] + QuantFrom(order, prec, table, 0) + tail
          == [index + 16 * prec] + (QuantFrom(order, prec, table, 0) + tail);
      var n := InputOne(index + 16 * prec, QuantFrom(order, prec, table, 0) + tail);
      var p := n / 16;
      n := n % 16;
      used := DCTSIZE2 + 1;
      if p != 0 {
        used := used + DCTSIZE2;
      }
      if n >= NUM_QUANT_TBLS {
        return false, used;
      }
      GetEntries(n, p, prec, table, tail);
      return true, used;
    }

    // The entries of table n, in zigzag order
    method GetEntries(n: nat, p: nat, ghost prec: nat, ghost table: seq<UInt16>, ghost tail: seq<Byte>)
      requires Valid() && n < NUM_QUANT_TBLS && |table| == DCTSIZE2 && Precision(table) <= prec <= 1
      modifies `rest, `cinfo
      ensures Valid() && Forward()
      ensures old(rest) == QuantFrom(order, prec, table, 0) + tail && p == prec ==>
                rest == tail && cinfo == old(cinfo).(quant := old(cinfo).quant[n := Some(table)])
    {
      hide OrderOk, Precision, QuantFrom, QuantEntry;
      OrderFitsOf(order);
      ghost var good := rest == QuantFrom(order, prec, table, 0) + tail && p == prec;
      var quantval := if cinfo.quant[n].Some? then cinfo.quant[n].value else seq(DCTSIZE2, _ => 0);
      for i := 0 to DCTSIZE2
        invariant Valid() && Forward() && |quantval| == DCTSIZE2 && cinfo == old(cinfo)
        invariant good ==> rest == QuantFrom(order, prec, table, i) + tail
        invariant good ==> forall k :: 0 <= k < i ==> quantval[order[k]] == table[order[k]]
      {
        NextEntry(order, prec, table, i, tail);
        var tmp := GetEntry(p, prec, table[order[i]], QuantFrom(order, prec, table, i + 1) + tail);
        quantval := quantval[order[i] := tmp];
      }
      cinfo := cinfo.(quant := cinfo.quant[n := Some(quantval)]);
      if good {
        LastEntry(order, prec, table, tail);
        AllEntries(order, quantval, table);
      }
    }

    method GetEntry(p: nat, ghost prec: nat, ghost v: UInt16, ghost tail: seq<Byte>) returns (tmp: UInt16)
      requires prec == 0 ==> v <= 255
      modifies `rest
      ensures Forward()
      ensures old(rest) == QuantEntry(prec, v) + tail && p == prec ==> tmp == v && rest == tail
    {
      if p != 0 {
        tmp := InputTwo(v, tail);
      } else {
        tmp := InputOne(if prec == 0 then v else 0, tail);
      }
    }

    // get_dht, which takes any number of tables
    method GetDht(ghost isAc: bool, ghost index: nat, ghost h: HuffTable, ghost tail: seq<Byte>) returns (ok: bool)
      requires Valid() && index < NUM_HUFF_TBLS && HuffFits(h)
      modifies `rest, `cinfo
      ensures Valid() && Forward()
      ensures old(rest) == HuffBody(isAc, index, h) + tail ==>
                ok && rest == tail && cinfo == Apply(old(cinfo), DefineHuff(isAc, index, h))
    {
      hide OrderOk, Two, Words, Received;
      ghost var n, ix := Words(h.bits, 17), if isAc then index + 0x10 else index;
      ghost var params := [ix] + (h.bits[1..] + h.huffval[..n]);
      ghost var good := rest == HuffBody(isAc, index, h) + tail;
      assert Two(n + 2 + 1 + 16) + params + tail == Two(n + 2 + 1 + 16) + (params + tail);
      var length: int := InputTwo(n + 2 + 1 + 16, params + tail);
      length := length - 2;
      ghost var first := true;
      while length > 16
        invariant Valid() && Forward()
        invariant good && first ==> length == n + 17 && cinfo == old(cinfo) && rest == params + tail
        invariant good && !first ==> length == 0 && rest == tail && cinfo == Apply(old(cinfo), DefineHuff(isAc, index, h))
      {
        var used;
        ok, used := GetHuffTable(length, isAc, index, h, tail);
        if !ok {
          return;
        }
        length := length - used;
        first := false;
      }
      ok := length == 0;
    }

    // One table, and the number of bytes it takes
    method GetHuffTable(length: int, ghost isAc: bool, ghost index: nat, ghost h: HuffTable, ghost tail: seq<Byte>)
      returns (ok: bool, used: nat)
      requires Valid() && index < NUM_HUFF_TBLS && HuffFits(h)
      modifies `rest, `cinfo
      ensures Valid() && Forward() && 16 < used
      ensures old(rest) == [if isAc then index + 0x10 else index] + (h.bits[1..] + h.huffval[..Words(h.bits, 17)]) + tail
              && length == Words(h.bits, 17) + 17 ==>
                && ok && used == Words(h.bits, 17) + 17 && rest == tail
                && cinfo == Apply(old(cinfo), DefineHuff(isAc, index, h))
    {
      hide OrderOk, Words;
      ghost var n, ix := Words(h.bits, 17), if isAc then index + 0x10 else index;
      assert [ix] + (h.bits[1..] + h.huffval[..n]) + tail == [ix] + (h.bits[1..] + (h.huffval[..n] + tail));
      var index' := InputOne(ix, h.bits[1..] + (h.huffval[..n] + tail));
      var bits, count := GetCounts(h, h.huffval[..n] + tail);
      used := 1 + 16;
      if count > SYMBOLS || count > length - 17 {
        return false, used;
      }
      var huffval := GetSymbols(count, h, tail);
      used := used + count;
      var table := HuffTable(bits, huffval);
      if index' / 0x10 % 2 == 1 {
        index' := index' - 0x10;
        if index' >= NUM_HUFF_TBLS {
          return false, used;
        }
        cinfo := cinfo.(acHuff := cinfo.acHuff[index' := Some(table)]);
      } else {
        if index' >= NUM_HUFF_TBLS {
          return false, used;
        }
        cinfo := cinfo.(dcHuff := cinfo.dcHuff[index' := Some(table)]);
      }
      return true, used;
    }

    method GetCounts(ghost h: HuffTable, ghost tail: seq<Byte>) returns (bits: seq<UInt8>, count: nat)
      requires HuffFits(h)
      modifies `rest
      ensures Forward() && |bits| == 17
      ensures old(rest) == h.bits[1..] + tail ==> bits == [0] + h.bits[1..] && count == Words(h.bits, 17) && rest == tail
    {
      ghost var good := rest == h.bits[1..] + tail;
      bits, count := [0], 0;
      for i := 1 to 17
        invariant Forward() && |bits| == i
        invariant good ==> rest == h.bits[i..] + tail && bits == [0] + h.bits[1..i] && count == Words(h.bits, i)
      {
        assert h.bits[i..] + tail == [h.bits[i]] + (h.bits[i + 1..] + tail);
        var b := InputOne(h.bits[i], h.bits[i + 1..] + tail);
        bits := bits + [b];
        count := count + b;
      }
      assert h.bits[17..] + tail == tail;
    }

    method GetSymbols(count: nat, ghost h: HuffTable, ghost tail: seq<Byte>) returns (huffval: seq<UInt8>)
      requires HuffFits(h) && count <= SYMBOLS
      modifies `rest
      ensures Forward() && |huffval| == SYMBOLS
      ensures old(rest) == h.huffval[..Words(h.bits, 17)] + tail && count == Words(h.bits, 17) ==>
                huffval == Received(h).huffval && rest == tail
    {
      hide Words;
      ghost var n := Words(h.bits, 17);
      ghost var all := rest;
      ghost var good := all == h.huffval[..n] + tail && count == n;
      huffval := [];
      for i := 0 to count
        invariant Forward() && |huffval| == i
        invariant good ==> i <= |all| && rest == all[i..] && huffval == all[..i]
      {
        var b := InputByte();
        huffval := huffval + [b];
      }
      assert good ==> all[..n] == h.huffval[..n] && all[n..] == tail;
      huffval := huffval + seq(SYMBOLS - count, _ => 0);
    }

    // get_dac
    method GetDac(ghost entries: seq<ArithEntry>, ghost tail: seq<Byte>) returns (ok: bool)
      requires Valid() && EntriesFit(entries)
      modifies `rest, `cinfo
      ensures Valid() && Forward()
      ensures old(rest) == ArithBody(entries) + tail ==>
                ok && rest == tail && cinfo == ApplyEntries(old(cinfo), entries, |entries|)
    {
      hide OrderOk, Two, ArithBytesFrom;
      ghost var good := rest == ArithBody(entries) + tail;
      ghost var size := 2 * |entries| + 2;
      assert Two(size) + ArithBytesFrom(entries, 0) + tail == Two(size) + (ArithBytesFrom(entries, 0) + tail);
      var length: int := InputTwo(size, ArithBytesFrom(entries, 0) + tail);
      length := length - 2;
      ghost var k := 0;
      while length > 0
        invariant Valid() && Forward() && k <= |entries|
        invariant good ==> length == 2 * (|entries| - k) && cinfo == ApplyEntries(old(cinfo), entries, k)
                           && rest == ArithBytesFrom(entries, k) + tail
      {
        ghost var e := if k < |entries| then entries[k] else ArithEntry(0, 0);
        if k < |entries| {
          NextArith(entries, k, tail);
        }
        ghost var more := if k < |entries| then ArithBytesFrom(entries, k + 1) + tail else [];
        var index := InputOne(e.index, [e.val] + more);
        var val := InputOne(e.val, more);
        length := length - 2;
        ok := DefineEntry(index, val);
        if !ok {
          return;
        }
        k := if k < |entries| then k + 1 else k;
      }
      ok := length == 0;
      LastArith(entries, tail);
    }

    method DefineEntry(index: Byte, val: Byte) returns (ok: bool)
      requires Valid()
      modifies `cinfo
      ensures Valid() && (ok <==> EntryFits(ArithEntry(index, val)))
      ensures ok ==> cinfo == ApplyEntry(old(cinfo), ArithEntry(index, val))
    {
      hide OrderOk;
      if index >= 2 * NUM_ARITH_TBLS {
        return false;
      }
      if index >= NUM_ARITH_TBLS {
        cinfo := cinfo.(acK := cinfo.acK[index - NUM_ARITH_TBLS := val]);
      } else {
        cinfo := cinfo.(dcL := cinfo.dcL[index := val % 16], dcU := cinfo.dcU[index := val / 16]);
        if cinfo.dcL[index] > cinfo.dcU[index] {
          return false;
        }
      }
      return true;
    }

    // get_sof; there is to be only one frame header.
    method GetSof(isProg: bool, isArith: bool, ghost code: Byte, ghost frame: FrameInfo, ghost tail: seq<Byte>) returns (ok: bool)
      requires Valid() && FrameFits(code, frame)
      modifies `rest, `cinfo
      ensures Valid() && Forward()
      ensures old(rest) == FrameBody(code, frame) + tail && isProg == frame.progressive && isArith == frame.arith
              && old(cinfo).frame.None? ==>
                ok && rest == tail && cinfo == old(cinfo).(frame := Some(frame))
    {
      hide OrderOk, Two, CompBytesFrom;
      ghost var good := rest == FrameBody(code, frame) + tail && isProg == frame.progressive && isArith == frame.arith
                        && cinfo.frame.None?;
      ghost var comps := CompBytesFrom(frame.comps, 0) + tail;
      ghost var size := 3 * |frame.comps| + 2 + 5 + 1;
      assert FrameBody(code, frame) + tail
          == Two(size) + ([frame.precision] + (Two(frame.height) + (Two(frame.width) + ([|frame.comps|] + comps))));
      var length: int := InputTwo(size, [frame.precision] + (Two(frame.height) + (Two(frame.width) + ([|frame.comps|] + comps))));
      var precision := InputOne(frame.precision, Two(frame.height) + (Two(frame.width) + ([|frame.comps|] + comps)));
      var height := InputTwo(frame.height, Two(frame.width) + ([|frame.comps|] + comps));
      var width := InputTwo(frame.width, [|frame.comps|] + comps);
      var num: nat := InputOne(|frame.comps|, comps);
      length := length - 8;
      if cinfo.frame.Some? || height <= 0 || width <= 0 || num <= 0 || length != num * 3 {
        return false;
      }
      var infos := GetComponents(num, frame.comps, tail);
      cinfo := cinfo.(frame := Some(FrameInfo(isProg, isArith, precision, height, width, infos)));
      return true;
    }

    method GetComponents(num: nat, ghost comps: seq<CompInfo>, ghost tail: seq<Byte>) returns (infos: seq<CompInfo>)
      requires |comps| <= 0xFF && forall c :: 0 <= c < |comps| ==> comps[c].h < 16 && comps[c].v < 16
      modifies `rest
      ensures Forward()
      ensures old(rest) == CompBytesFrom(comps, 0) + tail && num == |comps| ==> infos == comps && rest == tail
    {
      hide CompBytesFrom;
      ghost var good := rest == CompBytesFrom(comps, 0) + tail && num == |comps|;
      infos := [];
      for ci := 0 to num
        invariant Forward() && |infos| == ci
        invariant good ==> rest == CompBytesFrom(comps, ci) + tail && infos == comps[..ci]
      {
        ghost var x := if ci < |comps| then comps[ci] else CompInfo(0, 0, 0, 0);
        ghost var more := if ci < |comps| then CompBytesFrom(comps, ci + 1) + tail else [];
        if ci < |comps| {
          NextComponent(comps, ci, tail);
        }
        var id := InputOne(x.id, [16 * x.h + x.v] + ([x.quantTbl] + more));
        var c := InputOne(16 * x.h + x.v, [x.quantTbl] + more);
        var q := InputOne(x.quantTbl, more);
        infos := infos + [CompInfo(id, c / 16, c % 16, q)];
      }
      LastComponent(comps, tail);
    }

    // skip_variable, for application segments
    method SkipVariable(ghost data: seq<Byte>, ghost tail: seq<Byte>) returns (ok: bool)
      requires Valid() && |data| <= 65533
      modifies `rest
      ensures Valid() && Forward() && ok
      ensures old(rest) == Two(|data| + 2) + data + tail ==> rest == tail
    {
      hide OrderOk, Two;
      ghost var good := rest == Two(|data| + 2) + data + tail;
      assert Two(|data| + 2) + data + tail == Two(|data| + 2) + (data + tail);
      var length: int := InputTwo(|data| + 2, data + tail);
      length := length - 2;
      ghost var k := 0;
      while length > 0
        invariant Forward() && Valid()
        invariant good ==> k <= |data| && length == |data| - k && rest == data[k..] + tail
      {
        assert good ==> data[k..] + tail == [data[k]] + (data[k + 1..] + tail);
        var b := InputByte();
        length := length - 1;
        k := k + 1;
      }
      assert good ==> data[|data|..] + tail == tail;
      ok := true;
    }

    // get_sos. A component is only looked for among the first four, and the test that it has not been
    // used yet looks at the scan's entry with the component's own index.
    method GetSos(ghost f: FrameInfo, ghost h: ScanHeader, ghost tail: seq<Byte>) returns (result: ReadResult)
      requires Valid() && HeaderFits(f, h) && DistinctIds(f)
      modifies `rest
      ensures Valid() && Forward() && result != ReachedEoi
      ensures old(cinfo.frame == Some(f) && rest == HeaderBody(f, h) + tail) ==>
                if ComponentsFound(h.comps) then result == ReachedSos(h) && rest == tail else result == Failed
    {
      hide OrderOk, Two, SelectorsFrom;
      if cinfo.frame.None? {
        return Failed;
      }
      var frame := cinfo.frame.value;
      ghost var size, last := 2 * |h.comps| + 2 + 1 + 3, [h.Ss] + ([h.Se] + ([16 * h.Ah + h.Al] + tail));
      assert HeaderBody(f, h) + tail == Two(size) + ([|h.comps|] + (SelectorsFrom(f, h, 0) + last));
      var length: int := InputTwo(size, [|h.comps|] + (SelectorsFrom(f, h, 0) + last));
      var n: nat := InputOne(|h.comps|, SelectorsFrom(f, h, 0) + last);
      if length != n * 2 + 6 || n < 1 || n > MAX_COMPS_IN_SCAN {
        return Failed;
      }
      var ok, comps, dcTbl, acTbl := GetSelectors(frame, n, f, h, last);
      if !ok {
        return Failed;
      }
      var Ss := InputOne(h.Ss, [h.Se] + ([16 * h.Ah + h.Al] + tail));
      var Se := InputOne(h.Se, [16 * h.Ah + h.Al] + tail);
      var c := InputOne(16 * h.Ah + h.Al, tail);
      return ReachedSos(ScanHeader(comps, dcTbl, acTbl, Ss, Se, c / 16, c % 16));
    }

    method GetSelectors(frame: FrameInfo, n: nat, ghost f: FrameInfo, ghost h: ScanHeader, ghost tail: seq<Byte>)
      returns (ok: bool, comps: seq<nat>, dcTbl: seq<nat>, acTbl: seq<nat>)
      requires HeaderFits(f, h) && DistinctIds(f) && n <= MAX_COMPS_IN_SCAN
      modifies `rest
      ensures Forward()
      ensures frame == f && old(rest) == SelectorsFrom(f, h, 0) + tail && n == |h.comps| ==>
                && (ok <==> ComponentsFound(h.comps))
                && (ok ==> comps == h.comps && dcTbl == h.dcTbl && acTbl == h.acTbl && rest == tail)
    {
      hide SelectorsFrom, DistinctIds, ComponentsFound;
      NoneFound(h.comps);
      ghost var good := frame == f && rest == SelectorsFrom(f, h, 0) + tail && n == |h.comps|;
      var curCompInfo: seq<Option<nat>> := seq(MAX_COMPS_IN_SCAN, _ => None);
      comps, dcTbl, acTbl := [], [], [];
      for i := 0 to n
        invariant Forward() && |curCompInfo| == MAX_COMPS_IN_SCAN && |comps| == |dcTbl| == |acTbl| == i
        invariant forall k :: 0 <= k < MAX_COMPS_IN_SCAN ==> curCompInfo[k] == if k < i then Some(comps[k]) else None
        invariant good ==> rest == SelectorsFrom(f, h, i) + tail && ComponentsFound(h.comps[..i])
        invariant good ==> comps == h.comps[..i] && dcTbl == h.dcTbl[..i] && acTbl == h.acTbl[..i]
      {
        var ci, td, ta;
        ok, ci, td, ta := GetSelector(frame, i, curCompInfo, f, h, tail);
        if good {
          NextFound(h.comps, i, curCompInfo);
        }
        if !ok {
          return;
        }
        curCompInfo := curCompInfo[i := Some(ci)];
        comps, dcTbl, acTbl := comps + [ci], dcTbl + [td], acTbl + [ta];
      }
      ok := true;
      LastSelector(f, h, tail);
      assert h.comps[..|h.comps|] == h.comps;
    }

    method GetSelector(frame: FrameInfo, i: nat, curCompInfo: seq<Option<nat>>, ghost f: FrameInfo, ghost h: ScanHeader,
                       ghost tail: seq<Byte>)
      returns (ok: bool, ci: nat, td: nat, ta: nat)
      requires HeaderFits(f, h) && DistinctIds(f) && i < |curCompInfo| == MAX_COMPS_IN_SCAN
      modifies `rest
      ensures Forward() && (ok ==> ci < |frame.comps|)
      ensures frame == f && i < |h.comps| && old(rest) == SelectorsFrom(f, h, i) + tail ==>
                && (ok <==> h.comps[i] < MAX_COMPS_IN_SCAN && curCompInfo[h.comps[i]].None? && Some(h.comps[i]) !in curCompInfo[..i])
                && (ok ==> ci == h.comps[i] && td == h.dcTbl[i] && ta == h.acTbl[i] && rest == SelectorsFrom(f, h, i + 1) + tail)
    {
      hide SelectorsFrom, DistinctIds;
      ghost var known := i < |h.comps|;
      ghost var more := if known then SelectorsFrom(f, h, i + 1) + tail else [];
      ghost var idx := if known then h.comps[i] else h.comps[0];
      ghost var tables := if known then 16 * h.dcTbl[i] + h.acTbl[i] else 0;
      if known {
        NextSelector(f, h, i, tail);
      }
      var cc := InputOne(f.comps[idx].id, [tables] + more);
      var c := InputOne(tables, more);
      ok, ci := FindComponent(frame, cc, curCompInfo, i, f, idx);
      td, ta := c / 16, c % 16;
    }

    // The component with this identifier that is not used yet, as the test goes
    method FindComponent(frame: FrameInfo, cc: Byte, curCompInfo: seq<Option<nat>>, i: nat, ghost f: FrameInfo, ghost idx: nat)
      returns (ok: bool, ci: nat)
      requires |curCompInfo| == MAX_COMPS_IN_SCAN && i <= MAX_COMPS_IN_SCAN && idx < |f.comps| && DistinctIds(f)
      ensures ok ==> ci < |frame.comps|
      ensures frame == f && cc == f.comps[idx].id ==>
                && (ok <==> idx < MAX_COMPS_IN_SCAN && curCompInfo[idx].None? && Some(idx) !in curCompInfo[..i])
                && (ok ==> ci == idx)
    {
      ci := 0;
      while ci < |frame.comps| && ci < MAX_COMPS_IN_SCAN && !(cc == frame.comps[ci].id && curCompInfo[ci].None?)
        invariant ci <= |frame.comps| && ci <= MAX_COMPS_IN_SCAN
        invariant forall k :: 0 <= k < ci ==> !(cc == frame.comps[k].id && curCompInfo[k].None?)
      {
        ci := ci + 1;
      }
      if ci == |frame.comps| || ci == MAX_COMPS_IN_SCAN {
        return false, 0;
      }
      for pi := 0 to i
        invariant Some(ci) !in curCompInfo[..pi]
      {
        if curCompInfo[pi] == Some(ci) {
          return false, ci;
        }
      }
      ok := true;
    }

    // What the reader has before it: a marker that it has found stands for its two bytes.
    ghost function Ahead(): seq<Byte>
      reads `rest, `unreadMarker
    {
      Unread(unreadMarker, rest)
    }

    // first_marker and next_marker
    method FindMarker() returns (ok: bool)
      requires Valid() && unreadMarker == 0
      modifies `rest, `unreadMarker, `discardedBytes
      ensures Valid() && (ok ==> unreadMarker != 0)
      ensures ok ==> |rest| < |old(rest)| || unreadMarker == EOI
      ensures ok ==> |old(rest)| <= 1 ==> unreadMarker == EOI
      ensures forall m, more :: old(rest) == [0xFF, m] + more && m != 0 && m != 0xFF && (old(sawSOI) || m == SOI) ==>
                ok && unreadMarker == m && rest == more && discardedBytes == (if old(sawSOI) then 0 else old(discardedBytes))
    {
      hide OrderOk;
      ghost var was := rest;
      if !sawSOI {
        var c := InputByte();
        var c2 := InputByte();
        if c != 0xFF || c2 != SOI {
          return false;
        }
        unreadMarker := c2;
        assert |was| >= 2;
        return true;
      }
      var extraneous;
      AfterShorter(rest);
      ShortEnds(rest);
      unreadMarker, rest, extraneous := NextMarker(rest, discardedBytes);
      discardedBytes := 0;
      forall m, more | was == [0xFF, m] + more && m != 0 && m != 0xFF
        ensures unreadMarker == m && rest == more
      {
        ReadMarker(m, more);
      }
      return true;
    }

    // The parameters of a marker that has been found, other than of a scan
    method ProcessMarker(ghost s: MarkerSegment, ghost tail: seq<Byte>) returns (ok: bool)
      requires Valid() && unreadMarker != 0 && SegmentFits(s)
      modifies `rest, `cinfo, `sawSOI
      ensures Valid() && Forward()
      ensures old(unreadMarker) == MarkerOf(s) && OrderFits(order) && old(rest) == BodyOf(order, s) + tail
              && (s.DefineFrame? ==> old(cinfo).frame.None?) ==>
                ok && rest == tail && cinfo == Apply(old(cinfo), s) && sawSOI == old(sawSOI)
      ensures old(unreadMarker) == SOI && !old(sawSOI) ==> ok && rest == old(rest) && cinfo == Reset(old(cinfo)) && sawSOI
    {
      hide OrderOk, QuantBody, HuffBody, ArithBody, FrameBody, FrameFits, HuffFits, Received, ApplyEntries, Two;
      ghost var frame := if s.DefineFrame? then s.frame else SampleFrame();
      ghost var code := if s.DefineFrame? then s.code else SOF0;
      SampleFits();
      if s.DefineFrame? {
        FrameCodes(s.code, s.frame);
      }
      if unreadMarker == SOI {
        if sawSOI {
          return false;
        }
        cinfo := Reset(cinfo);
        sawSOI := true;
        ok := true;
      } else if unreadMarker == SOF0 || unreadMarker == SOF1 {
        ok := GetSof(false, false, code, frame, tail);
      } else if unreadMarker == SOF2 {
        ok := GetSof(true, false, code, frame, tail);
      } else if unreadMarker == SOF9 {
        ok := GetSof(false, true, code, frame, tail);
      } else if unreadMarker == SOF10 {
        ok := GetSof(true, true, code, frame, tail);
      } else if unreadMarker == DAC {
        ok := GetDac(if s.DefineArith? then s.entries else [], tail);
      } else if unreadMarker == DHT {
        ok := GetAnyHuff(s, tail);
      } else if unreadMarker == DQT {
        ok := GetAnyQuant(s, tail);
      } else if unreadMarker == DRI {
        ok := GetDri(if s.DefineRestart? then s.interval else 0, tail);
      } else if APP0 <= unreadMarker < APP0 + 16 {
        ok := SkipVariable(if s.Application? then s.data else [], tail);
      } else if unreadMarker == COM || unreadMarker == DNL {
        ok := SkipVariable([], tail);
      } else if RST0 <= unreadMarker < RST0 + 8 || unreadMarker == TEM {
        ok := true;
      } else {
        ok := false;
      }
    }

    method GetAnyQuant(ghost s: MarkerSegment, ghost tail: seq<Byte>) returns (ok: bool)
      requires Valid() && SegmentFits(s)
      modifies `rest, `cinfo
      ensures Valid() && Forward()
      ensures s.DefineQuant? && OrderFits(order) && old(rest) == BodyOf(order, s) + tail ==>
                ok && rest == tail && cinfo == Apply(old(cinfo), s)
    {
      hide OrderOk, QuantBody;
      ok := GetDqt(if s.DefineQuant? then s.index else 0, if s.DefineQuant? then s.table else seq(DCTSIZE2, _ => 0), tail);
    }

    method GetAnyHuff(ghost s: MarkerSegment, ghost tail: seq<Byte>) returns (ok: bool)
      requires Valid() && SegmentFits(s)
      modifies `rest, `cinfo
      ensures Valid() && Forward()
      ensures s.DefineHuff? && OrderFits(order) && old(rest) == BodyOf(order, s) + tail ==>
                ok && rest == tail && cinfo == Apply(old(cinfo), s)
    {
      hide OrderOk, HuffBody, Received, Words;
      ghost var none := HuffTable(seq(17, _ => 0), seq(SYMBOLS, _ => 0));
      NoSymbols(17);
      ok := GetDht(if s.DefineHuff? then s.isAc else false, if s.DefineHuff? then s.index else 0,
                   if s.DefineHuff? then s.huff else none, tail);
    }

    // read_markers: the segments up to a scan header, and the scan header
    method ReadMarkers(ghost segments: seq<MarkerSegment>, ghost frame: FrameInfo, ghost h: ScanHeader, ghost tail: seq<Byte>)
      returns (result: ReadResult)
      requires Valid() && AllFit(segments) && HeaderFits(frame, h) && DistinctIds(frame) && OrderFits(order)
      modifies this
      ensures Valid()
      ensures old(Expects(segments, frame, h, tail)) ==>
                if ComponentsFound(h.comps) then
                  && result == ReachedSos(h) && rest == tail && unreadMarker == 0 && sawSOI && discardedBytes == 0
                  && cinfo == ApplyAll(old(Base()), segments)
                else result == Failed
      ensures old(AtEoi()) ==> result == ReachedEoi && cinfo == old(cinfo)
    {
      ghost var was := cinfo;
      hide OrderOk, SegmentFits, BodyOf, Apply, HeaderBody, HeaderFits, DistinctIds, ComponentsFound, ParamsShape;
      ghost var good, left, end := Expects(segments, frame, h, tail), segments, AtEoi();
      while true
        invariant Valid() && AllFit(left) && (end ==> AtEoi() && cinfo == was)
        invariant good ==> Expects(left, frame, h, tail) && ApplyAll(Base(), left) == ApplyAll(old(Base()), segments)
        decreases if |rest| <= 1 then 0 else |rest|, if unreadMarker != 0 then 1 else 0
      {
        var found := FindNext(left, frame, h, tail);
        if !found {
          return Failed;
        }
        if good {
          NextAhead(left, frame, h, tail);
        }
        if unreadMarker == SOS {
          result := GetSos(frame, h, tail);
          if result != Failed {
            unreadMarker := 0;
          }
          return;
        }
        if unreadMarker == EOI {
          unreadMarker := 0;
          return ReachedEoi;
        }
        var ok;
        ok, left := ReadNext(left, frame, h, tail);
        if !ok {
          return Failed;
        }
      }
    }

    // The next marker, unless one has been found already
    method FindNext(ghost left: seq<MarkerSegment>, ghost frame: FrameInfo, ghost h: ScanHeader, ghost tail: seq<Byte>)
      returns (ok: bool)
      requires Valid() && AllFit(left) && HeaderFits(frame, h) && OrderFits(order)
      modifies `rest, `unreadMarker, `discardedBytes
      ensures Valid() && (ok ==> unreadMarker != 0)
      ensures ok && old(unreadMarker) != 0 ==> unreadMarker == old(unreadMarker) && rest == old(rest)
      ensures ok && old(unreadMarker) == 0 ==> (|rest| < |old(rest)| || unreadMarker == EOI) && (|old(rest)| <= 1 ==> unreadMarker == EOI)
      ensures old(Expects(left, frame, h, tail)) ==> ok && Expects(left, frame, h, tail)
      ensures old(AtEoi()) ==> ok && unreadMarker == EOI
    {
      hide OrderOk, SegmentFits, BodyOf, Apply, HeaderBody, HeaderFits, ParamsShape, AllBytes;
      ok := true;
      if unreadMarker == 0 {
        if Expects(left, frame, h, tail) {
          MarkerAhead(left, frame, h, tail);
        }
        ghost var none: seq<Byte> := [];
        assert AtEoi() ==> rest == [0xFF, EOI] + none;
        ok := FindMarker();
      } else if AtEoi() {
        EoiFound();
      }
    }

    // One of the segments before the scan header
    method ReadNext(ghost left: seq<MarkerSegment>, ghost frame: FrameInfo, ghost h: ScanHeader, ghost tail: seq<Byte>)
      returns (ok: bool, ghost left': seq<MarkerSegment>)
      requires Valid() && AllFit(left) && HeaderFits(frame, h) && OrderFits(order)
      requires unreadMarker != 0 && unreadMarker != SOS && unreadMarker != EOI
      modifies this
      ensures Valid() && Forward() && AllFit(left') && (ok ==> unreadMarker == 0)
      ensures old(Expects(left, frame, h, tail)) ==>
                ok && Expects(left', frame, h, tail) && ApplyAll(Base(), left') == ApplyAll(old(Base()), left)
    {
      hide OrderOk, SegmentFits, BodyOf, Apply, HeaderBody, HeaderFits, ParamsShape, AllBytes;
      ghost var good := Expects(left, frame, h, tail);
      if good {
        NextAhead(left, frame, h, tail);
      }
      ghost var known := sawSOI && left != [];
      NoSegment();
      ok := ProcessMarker(if known then left[0] else DefineRestart(0),
                          if known then AllBytes(order, left[1..]) + ([0xFF, SOS] + HeaderBody(frame, h) + tail) else []);
      unreadMarker := 0;
      left' := if known then left[1..] else left;
    }

    // There is a marker to be found.
    lemma MarkerAhead(left: seq<MarkerSegment>, frame: FrameInfo, h: ScanHeader, tail: seq<Byte>)
      requires Valid() && AllFit(left) && HeaderFits(frame, h) && OrderFits(order) && Expects(left, frame, h, tail) && unreadMarker == 0
      ensures |rest| >= 2 && rest[0] == 0xFF && rest[1] != 0 && rest[1] != 0xFF && (!sawSOI ==> rest[1] == SOI)
      ensures rest == [0xFF, rest[1]] + rest[2..]
    {
      hide OrderOk, SegmentFits, BodyOf, Apply, HeaderBody, HeaderFits, ParamsShape;
      if left != [] {
        MarkerKinds(left[0]);
      }
    }

    // The next marker, when one has been found
    lemma NextAhead(left: seq<MarkerSegment>, frame: FrameInfo, h: ScanHeader, tail: seq<Byte>)
      requires Valid() && AllFit(left) && HeaderFits(frame, h) && OrderFits(order) && Expects(left, frame, h, tail) && unreadMarker != 0
      ensures var last := [0xFF, SOS] + HeaderBody(frame, h) + tail;
              if !sawSOI then unreadMarker == SOI && rest == AllBytes(order, left) + last
              else if left == [] then unreadMarker == SOS && rest == HeaderBody(frame, h) + tail && cinfo.frame == Some(frame)
              else
                && unreadMarker == MarkerOf(left[0]) && rest == BodyOf(order, left[0]) + (AllBytes(order, left[1..]) + last)
                && SegmentFits(left[0]) && unreadMarker != SOS && unreadMarker != EOI && unreadMarker != SOI
    {
      hide OrderOk, SegmentFits, BodyOf, Apply, HeaderBody, HeaderFits, ParamsShape;
      var last := [0xFF, SOS] + HeaderBody(frame, h) + tail;
      assert Ahead()[1] == unreadMarker && Ahead()[2..] == rest;
      if !sawSOI {
        assert ([0xFF, SOI] + (AllBytes(order, left) + last))[2..] == AllBytes(order, left) + last;
      } else if left == [] {
        assert last[2..] == HeaderBody(frame, h) + tail && [] + (AllBytes(order, left) + last) == last;
      } else {
        MarkerKinds(left[0]);
        assert [] + (AllBytes(order, left) + last)
            == [0xFF, MarkerOf(left[0])] + (BodyOf(order, left[0]) + (AllBytes(order, left[1..]) + last));
      }
    }

    // The parameters to which segments will be applied
    ghost function Base(): Params
      reads `cinfo, `sawSOI
    {
      if sawSOI then cinfo else Reset(cinfo)
    }

    lemma EoiFound()
      requires AtEoi() && unreadMarker != 0
      ensures unreadMarker == EOI
    {
      assert Ahead()[1] == unreadMarker;
    }

    // The end-of-image marker is next.
    ghost predicate AtEoi()
      reads this
    {
      sawSOI && discardedBytes == 0 && Ahead() == [0xFF, EOI]
    }

    ghost predicate Expects(segments: seq<MarkerSegment>, frame: FrameInfo, h: ScanHeader, tail: seq<Byte>)
      requires Valid() && AllFit(segments) && HeaderFits(frame, h) && OrderFits(order)
      reads this
    {
      && discardedBytes == 0
      && Ahead() == (if sawSOI then [] else [0xFF, SOI]) + (AllBytes(order, segments) + ([0xFF, SOS] + HeaderBody(frame, h) + tail))
      && FrameOnce(Base(), segments) && ApplyAll(Base(), segments).frame == Some(frame)
    }
  }

  lemma ShortEnds(rest: seq<Byte>)
    ensures |rest| <= 1 ==> ReadSegment(rest).marker == EOI
  {
    if |rest| == 1 {
      assert rest[1..] == [];
    }
  }

  lemma {:induction false} NoSymbols(n: nat)
    requires n <= 17
    ensures Words(seq(17, _ => 0), n) == 0
  {
    if n > 1 {
      NoSymbols(n - 1);
    }
  }

  ghost function SampleFrame(): FrameInfo {
    FrameInfo(false, false, 8, 1, 1, [CompInfo(1, 1, 1, 0)])
  }

  lemma NoSegment()
    ensures SegmentFits(DefineRestart(0))
  {
  }

  lemma MarkerKinds(s: MarkerSegment)
    requires SegmentFits(s)
    ensures var m := MarkerOf(s); m != 0 && m != 0xFF && m != SOI && m != SOS && m != EOI
  {
  }

  lemma SampleFits()
    ensures FrameFits(SOF0, SampleFrame())
  {
  }

  lemma FrameCodes(code: Byte, frame: FrameInfo)
    requires FrameFits(code, frame)
    ensures code == SOF0 || code == SOF1 || code == SOF2 || code == SOF9 || code == SOF10
    ensures frame.progressive <==> code == SOF2 || code == SOF10
    ensures frame.arith <==> code == SOF9 || code == SOF10
  {
  }

  lemma NoneFound(comps: seq<nat>)
    ensures ComponentsFound(comps[..0])
  {
  }

  lemma NextFound(comps: seq<nat>, i: nat, curCompInfo: seq<Option<nat>>)
    requires i < |comps| <= |curCompInfo| == MAX_COMPS_IN_SCAN && ComponentsFound(comps[..i])
    requires forall k :: 0 <= k < MAX_COMPS_IN_SCAN ==> curCompInfo[k] == if k < i then Some(comps[k]) else None
    ensures ComponentsFound(comps[..i + 1]) <==>
              comps[i] < MAX_COMPS_IN_SCAN && curCompInfo[comps[i]].None? && Some(comps[i]) !in curCompInfo[..i]
    ensures ComponentsFound(comps) ==> ComponentsFound(comps[..i + 1])
  {
    var n := comps[i];
    assert comps[..i + 1] == comps[..i] + [n];
    assert Some(n) in curCompInfo[..i] <==> n in comps[..i] by {
      if n in comps[..i] {
        var k :| 0 <= k < i && comps[k] == n;
        assert curCompInfo[..i][k] == Some(n);
      }
    }
  }

  ghost predicate DistinctIds(frame: FrameInfo) {
    forall c, d :: 0 <= c < d < |frame.comps| ==> frame.comps[c].id != frame.comps[d].id
  }

  // What the decoder accepts: each of the scan's components is among the first four, not before its own
  // place in the scan, and used once.
  predicate ComponentsFound(comps: seq<nat>) {
    && (forall i :: 0 <= i < |comps| ==> i <= comps[i] < MAX_COMPS_IN_SCAN)
    && forall i, j :: 0 <= i < j < |comps| ==> comps[i] != comps[j]
  }

  lemma SameTwo(v: UInt16, n: UInt16)
    ensures Two(v) == Two(n) ==> v == n
  {
    if Two(v) == Two(n) {
      assert Two(v)[0] == Two(n)[0] && Two(v)[1] == Two(n)[1];
    }
  }

  lemma OrderFitsOf(order: seq<nat>)
    requires OrderOk(order)
    ensures OrderFits(order)
  {
  }

  // The zigzag order reaches every entry.
  lemma AllEntries(order: seq<nat>, a: seq<UInt16>, b: seq<UInt16>)
    requires OrderOk(order) && |a| == |b| == DCTSIZE2 && OrderFits(order)
    requires forall k :: 0 <= k < DCTSIZE2 ==> a[order[k]] == b[order[k]]
    ensures a == b
  {
    hide OrderOk;
    forall i | 0 <= i < DCTSIZE2
      ensures a[i] == b[i]
    {
      var k := ZigzagPosition(order, i);
    }
  }
}
