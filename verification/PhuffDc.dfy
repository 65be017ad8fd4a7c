// Progressive Huffman coding of DC coefficients (jcphuff.c): what the scans emit, and the encoder,
// when it codes and when it gathers statistics.
module PhuffDc {
  import opened Arithmetic
  import opened BitFields
  import opened BitStrings
  import opened ArithInterval
  import opened ArithBytes
  import opened ByteSource
  import opened ArithScan
  import opened HuffmanLimit
  import opened HuffmanGen
  import opened HuffmanTables
  import opened HuffmanWriter
  import opened HuffmanBlock
  import opened HuffmanSegments
  import opened HuffmanStatistics
  import opened PhuffWriter

  type TableNumber = t: nat | t < NUM_HUFF_TBLS

  // A symbol coded with one of several tables, or a bit that is not part of a code word
  datatype Item = Code(tbl: TableNumber, sym: UInt8) | Plain(b: bool)

  function PlainItems(bits: Bits): (items: seq<Item>)
    ensures |items| == |bits|
  {
    seq(|bits|, i requires 0 <= i < |bits| => Plain(bits[i]))
  }

  ghost predicate EncodersOk(tables: seq<EncoderTable>) {
    |tables| == NUM_HUFF_TBLS && forall t :: 0 <= t < NUM_HUFF_TBLS ==> SizesOk(tables[t])
  }

  // The bits that stand for the items before a tail
  ghost function ItemBits(tables: seq<EncoderTable>, items: seq<Item>, tail: Bits): Bits
    requires EncodersOk(tables)
  {
    if items == [] then tail
    else
      match items[0]
      case Code(t, x) => Symbol(tables[t], x, ItemBits(tables, items[1..], tail))
      case Plain(b) => [b] + ItemBits(tables, items[1..], tail)
  }

  lemma {:induction false} ItemBitsConcat(tables: seq<EncoderTable>, a: seq<Item>, b: seq<Item>, tail: Bits)
    requires EncodersOk(tables)
    ensures ItemBits(tables, a + b, tail) == ItemBits(tables, a, ItemBits(tables, b, tail))
  {
    hide Symbol, EncodersOk;
    if a == [] {
      assert a + b == b;
    } else {
      ItemBitsConcat(tables, a[1..], b, tail);
      assert (a + b)[1..] == a[1..] + b;
    }
  }

  lemma {:induction false} ItemTail(tables: seq<EncoderTable>, items: seq<Item>, tail: Bits)
    requires EncodersOk(tables)
    ensures ItemBits(tables, items, tail) == ItemBits(tables, items, []) + tail
  {
    hide BitsOf;
    if items == [] {
      assert [] + tail == tail;
    } else {
      ItemTail(tables, items[1..], tail);
    }
  }

  lemma {:induction false} PlainBits(tables: seq<EncoderTable>, bits: Bits, tail: Bits)
    requires EncodersOk(tables)
    ensures ItemBits(tables, PlainItems(bits), tail) == bits + tail
  {
    hide EncodersOk;
    if bits == [] {
      assert bits + tail == tail;
    } else {
      PlainBits(tables, bits[1..], tail);
      assert PlainItems(bits)[1..] == PlainItems(bits[1..]);
      assert bits == [bits[0]] + bits[1..];
    }
  }

  // The symbols that table number t codes
  function SymbolsOf(items: seq<Item>, t: nat): seq<UInt8> {
    if items == [] then [] else SymbolIn(items[0], t) + SymbolsOf(items[1..], t)
  }

  function SymbolIn(item: Item, t: nat): seq<UInt8> {
    if item.Code? && item.tbl == t then [item.sym] else []
  }

  lemma {:induction false} SymbolsConcat(a: seq<Item>, b: seq<Item>, t: nat)
    ensures SymbolsOf(a + b, t) == SymbolsOf(a, t) + SymbolsOf(b, t)
  {
    hide SymbolIn;
    if a == [] {
      assert a + b == b;
    } else {
      SymbolsConcat(a[1..], b, t);
      assert (a + b)[1..] == a[1..] + b;
    }
  }

  lemma {:induction false} NoSymbols(bits: Bits, t: nat)
    ensures SymbolsOf(PlainItems(bits), t) == []
  {
    if bits != [] {
      NoSymbols(bits[1..], t);
      assert PlainItems(bits)[1..] == PlainItems(bits[1..]);
    }
  }

  lemma OneSymbol(tables: seq<EncoderTable>, tbl: TableNumber, sym: UInt8, t: nat)
    requires EncodersOk(tables)
    ensures SymbolsOf([Code(tbl, sym)], t) == if t == tbl then [sym] else []
    ensures ItemBits(tables, [Code(tbl, sym)], []) == BitsOf(tables[tbl].ehufco[sym], tables[tbl].ehufsi[sym])
  {
    assert [Code(tbl, sym)][1..] == [];
  }

  // All symbols have code words.
  ghost predicate ItemsCoded(tables: seq<EncoderTable>, items: seq<Item>)
    requires EncodersOk(tables)
  {
    forall i :: 0 <= i < |items| && items[i].Code? ==> tables[items[i].tbl].ehufsi[items[i].sym] > 0
  }

  lemma CodedConcat(tables: seq<EncoderTable>, a: seq<Item>, b: seq<Item>)
    requires EncodersOk(tables)
    ensures ItemsCoded(tables, a + b) <==> ItemsCoded(tables, a) && ItemsCoded(tables, b)
  {
    if ItemsCoded(tables, a + b) {
      forall i | 0 <= i < |a| && a[i].Code?
        ensures tables[a[i].tbl].ehufsi[a[i].sym] > 0
      {
        assert (a + b)[i] == a[i];
      }
      forall i | 0 <= i < |b| && b[i].Code?
        ensures tables[b[i].tbl].ehufsi[b[i].sym] > 0
      {
        assert (a + b)[|a| + i] == b[i];
      }
    }
  }

  // ----- The scan -----

  // A scan of DC coefficients, and its blocks with their components
  ghost predicate BlocksFit(s: Scan, comps: seq<nat>, blocks: seq<Block>) {
    && ScanOk(s) && s.progressive && s.Ss == 0 && |comps| == |blocks|
    && (forall i :: 0 <= i < |comps| ==> comps[i] < |s.comps|)
    && forall c :: 0 <= c < |s.comps| ==> s.comps[c].dcTbl < NUM_HUFF_TBLS
  }

  // The block with its DC coefficient after the point transform
  function Leveled(s: Scan, block: Block): Block {
    block[0 := DcLevel(s, block)]
  }

  // A first scan codes differences of up to 11 bits.
  predicate DcAccepted(s: Scan, block: Block, last: Coef) {
    s.Ah == 0 ==> NBits(Abs(DcLevel(s, block) - last)) <= MAX_COEF_BITS + 1
  }

  lemma DifferenceBits(v: int)
    requires Abs(v) <= 0xFFFF
    ensures NBits(Abs(v)) <= 16
  {
    ScaleValues(1);
    assert Scale(1, 16) == 32 * Scale(1, 11);
    NBitsBound(Abs(v), 16);
  }

  // What a block emits: a difference coded like that of a sequential scan, or one more bit
  function BlockItems(s: Scan, tbl: TableNumber, block: Block, last: Coef): seq<Item> {
    if s.Ah == 0 then
      var d := DcLevel(s, block) - last;
      DifferenceBits(d);
      [Code(tbl, NBits(Abs(d)))] + PlainItems(BitsOf(Extra(d), NBits(Abs(d))))
    else [Plain(Shr(block[0], s.Al) % 2 == 1)]
  }

  ghost predicate AllAccepted(s: Scan, comps: seq<nat>, blocks: seq<Block>, i: nat, d: DcState)
    requires BlocksFit(s, comps, blocks) && |d.last| == |s.comps| && i <= |blocks|
    decreases |blocks| - i
  {
    i < |blocks| ==>
      && DcAccepted(s, blocks[i], Current(s, d).last[comps[i]])
      && AllAccepted(s, comps, blocks, i + 1, Following(s, d, comps[i], Leveled(s, blocks[i])))
  }

  // What the blocks from i on add to the current segment, and the segments behind it
  ghost function Parts(s: Scan, comps: seq<nat>, blocks: seq<Block>, i: nat, d: DcState): (parts: seq<seq<Item>>)
    requires BlocksFit(s, comps, blocks) && |d.last| == |s.comps| && i <= |blocks|
    ensures |parts| > 0
    decreases |blocks| - i
  {
    if i == |blocks| then [[]]
    else
      var c := comps[i];
      var rest := Parts(s, comps, blocks, i + 1, Following(s, d, c, Leveled(s, blocks[i])));
      (if Due(s, d) then [[]] else []) + [BlockItems(s, s.comps[c].dcTbl, blocks[i], Current(s, d).last[c]) + rest[0]] + rest[1..]
  }

  // A restart starts a segment.
  lemma RestartParts(s: Scan, comps: seq<nat>, blocks: seq<Block>, i: nat, d: DcState)
    requires BlocksFit(s, comps, blocks) && |d.last| == |s.comps| && i < |blocks| && Due(s, d) && |s.membership| > 0
    ensures var f := StartState(s, |d.last|);
            && !Due(s, f) && (AllAccepted(s, comps, blocks, i, d) <==> AllAccepted(s, comps, blocks, i, f))
            && Parts(s, comps, blocks, i, d) == [[]] + Parts(s, comps, blocks, i, f)
  {
    hide BlockItems, DcAccepted, ScanOk, Leveled;
    var f := StartState(s, |d.last|);
    assert !Due(s, f) && Current(s, d) == f == Current(s, f);
    hide Due, Current;
    assert Following(s, d, comps[i], Leveled(s, blocks[i])) == Following(s, f, comps[i], Leveled(s, blocks[i]));
    hide Following;
  }

  // ----- Several segments -----

  function Flat(parts: seq<seq<Item>>): seq<Item> {
    if parts == [] then [] else Flat(parts[..|parts| - 1]) + parts[|parts| - 1]
  }

  lemma FlatSnoc(parts: seq<seq<Item>>, last: seq<Item>)
    ensures Flat(parts + [last]) == Flat(parts) + last
  {
    assert (parts + [last])[..|parts|] == parts;
  }

  // The items of the finished segments, and their bytes if they have been written
  datatype Past = Past(segments: seq<seq<Item>>, bytes: seq<seq<Byte>>)

  // The bytes are those of the items, when all symbols have code words.
  ghost predicate PastOk(p: Past, tables: seq<EncoderTable>)
    requires EncodersOk(tables)
  {
    && |p.bytes| == |p.segments|
    && (ItemsCoded(tables, Flat(p.segments)) ==>
          forall j :: 0 <= j < |p.bytes| ==> Holds(p.bytes[j], ItemBits(tables, p.segments[j], [])))
  }

  // The counts are those of the symbols among the items, table by table.
  ghost predicate Tallied(counts: seq<seq<nat>>, items: seq<Item>) {
    |counts| == NUM_HUFF_TBLS && forall t :: 0 <= t < NUM_HUFF_TBLS ==> counts[t] == Tally(NoCounts(), SymbolsOf(items, t))
  }

  // One more symbol
  lemma CountedSymbol(counts: seq<seq<nat>>, items: seq<Item>, tbl: TableNumber, sym: UInt8)
    requires Tallied(counts, items)
    ensures |counts| == NUM_HUFF_TBLS && |counts[tbl]| == SYMBOLS + 1
    ensures Tallied(counts[tbl := counts[tbl][sym := counts[tbl][sym] + 1]], items + [Code(tbl, sym)])
  {
    assert |NoCounts()| == SYMBOLS + 1;
    hide Tally, NoCounts, SymbolsOf;
    var item := [Code(tbl, sym)];
    forall t: nat | t < NUM_HUFF_TBLS
      ensures counts[tbl := counts[tbl][sym := counts[tbl][sym] + 1]][t] == Tally(NoCounts(), SymbolsOf(items + item, t))
    {
      SymbolsConcat(items, item, t);
      OneOf(tbl, sym, t);
      if t == tbl {
        TallySnoc(SymbolsOf(items, t), sym);
      } else {
        assert SymbolsOf(items, t) + [] == SymbolsOf(items, t);
      }
    }
  }

  lemma OneOf(tbl: TableNumber, sym: UInt8, t: nat)
    ensures SymbolsOf([Code(tbl, sym)], t) == if t == tbl then [sym] else []
  {
    assert [Code(tbl, sym)][1..] == [];
  }

  lemma TallySnoc(list: seq<UInt8>, sym: UInt8)
    ensures |NoCounts()| == SYMBOLS + 1
    ensures Tally(NoCounts(), list + [sym]) == var c := Tally(NoCounts(), list); c[sym := c[sym] + 1]
  {
    TallyConcat(NoCounts(), list, [sym]);
    TallyOne(Tally(NoCounts(), list), sym, []);
  }

  lemma CountedBits(counts: seq<seq<nat>>, items: seq<Item>, bits: Bits)
    ensures Tallied(counts, items + PlainItems(bits)) <==> Tallied(counts, items)
  {
    hide Tally, NoCounts, SymbolsOf;
    forall t: nat | t < NUM_HUFF_TBLS
      ensures SymbolsOf(items + PlainItems(bits), t) == SymbolsOf(items, t)
    {
      SymbolsConcat(items, PlainItems(bits), t);
      NoSymbols(bits, t);
      assert SymbolsOf(items, t) + [] == SymbolsOf(items, t);
    }
  }

  // One more symbol among the bits
  lemma CodedSymbol(tables: seq<EncoderTable>, was: seq<Item>, items: seq<Item>, tbl: TableNumber, sym: UInt8)
    requires EncodersOk(tables)
    ensures ItemsCoded(tables, was + (items + [Code(tbl, sym)])) <==> ItemsCoded(tables, was + items) && tables[tbl].ehufsi[sym] > 0
    ensures ItemBits(tables, items + [Code(tbl, sym)], [])
         == ItemBits(tables, items, []) + BitsOf(tables[tbl].ehufco[sym], tables[tbl].ehufsi[sym])
  {
    hide ItemBits, BitsOf, EncodersOk;
    var item := [Code(tbl, sym)];
    assert was + (items + item) == was + items + item;
    CodedConcat(tables, was + items, item);
    CodedOne(tables, tbl, sym);
    hide ItemsCoded;
    ItemBitsConcat(tables, items, item, []);
    OneSymbol(tables, tbl, sym, 0);
    ItemTail(tables, items, ItemBits(tables, item, []));
  }

  lemma CodedOne(tables: seq<EncoderTable>, tbl: TableNumber, sym: UInt8)
    requires EncodersOk(tables)
    ensures ItemsCoded(tables, [Code(tbl, sym)]) <==> tables[tbl].ehufsi[sym] > 0
  {
    var item := [Code(tbl, sym)];
    assert item[0] == Code(tbl, sym);
  }

  // Bits that are not coded
  lemma CodedBits(tables: seq<EncoderTable>, was: seq<Item>, items: seq<Item>, bits: Bits)
    requires EncodersOk(tables)
    ensures ItemsCoded(tables, was + (items + PlainItems(bits))) <==> ItemsCoded(tables, was + items)
    ensures ItemBits(tables, items + PlainItems(bits), []) == ItemBits(tables, items, []) + bits
  {
    hide ItemBits, EncodersOk;
    var more := PlainItems(bits);
    assert was + (items + more) == was + items + more;
    CodedConcat(tables, was + items, more);
    ItemBitsConcat(tables, items, more, []);
    PlainBits(tables, bits, []);
    assert bits + [] == bits;
    ItemTail(tables, items, bits);
  }

  // ----- The encoder -----

  class DcEncoder {
    const gather: bool         // count symbols instead of coding
    const tables: seq<EncoderTable>
    const writer: PhuffBits
    var counts: seq<seq<nat>>
    var ok: bool               // no symbol without a code word has been met

    ghost const start: seq<Byte> // output before the scan
    ghost var past: Past
    ghost var items: seq<Item>   // of the current segment

    // All items so far
    ghost function All(): seq<Item>
      reads `past, `items
    {
      Flat(past.segments) + items
    }

    ghost predicate Valid()
      reads `counts, `ok, `past, `items, writer
    {
      && EncodersOk(tables) && writer.Valid()
      && if gather then ok && Tallied(counts, All())
         else
           && (ok <==> ItemsCoded(tables, All())) && (ok ==> writer.stream == ItemBits(tables, items, []))
           && PastOk(past, tables) && writer.before == start + Restarted(past.bytes)
    }

    constructor (gather: bool, tables: seq<EncoderTable>, wide: bool, written: seq<Byte>)
      requires EncodersOk(tables)
      ensures Valid() && items == [] && past == Past([], []) && ok && fresh(writer)
      ensures this.gather == gather && this.tables == tables && start == written
    {
      this.gather, this.tables, start := gather, tables, written;
      counts, ok := seq(NUM_HUFF_TBLS, _ => NoCounts()), true;
      writer := new PhuffBits(wide, written);
      past, items := Past([], []), [];
    }

    // Code or count a symbol.
    method EmitSymbol(tbl: TableNumber, sym: UInt8)
      requires Valid()
      modifies this`counts, writer, this`ok, this`items
      ensures Valid() && items == old(items) + [Code(tbl, sym)]
    {
      hide ItemBits, ItemsCoded, Tallied, PastOk, PhuffBits.Valid, Restarted, Flat;
      assert Flat(past.segments) + (items + [Code(tbl, sym)]) == All() + [Code(tbl, sym)];
      if gather {
        CountedSymbol(counts, All(), tbl, sym);
        counts := counts[tbl := counts[tbl][sym := counts[tbl][sym] + 1]];
      } else {
        CodedSymbol(tables, Flat(past.segments), items, tbl, sym);
        if tables[tbl].ehufsi[sym] == 0 {
          ok := false;
        } else {
          writer.EmitBits(tables[tbl].ehufco[sym], tables[tbl].ehufsi[sym]);
        }
      }
      items := items + [Code(tbl, sym)];
    }

    // Put some bits, unless only statistics are gathered.
    method EmitBits(code: nat, size: nat)
      requires Valid() && 0 < size <= 16
      modifies writer, this`items
      ensures Valid() && items == old(items) + PlainItems(BitsOf(code, size))
    {
      hide ItemBits, ItemsCoded, Tallied, PastOk, PhuffBits.Valid, Restarted, Flat, BitsOf, PlainItems, EncodersOk;
      ghost var bits := BitsOf(code, size);
      assert Flat(past.segments) + (items + PlainItems(bits)) == All() + PlainItems(bits);
      CountedBits(counts, All(), bits);
      CodedBits(tables, Flat(past.segments), items, bits);
      if !gather {
        writer.EmitBits(code, size);
      }
      items := items + PlainItems(bits);
    }

    // emit_restart; the DC predictions are the caller's.
    method EmitRestart(num: nat)
      requires Valid() && num == |past.segments| % 8
      modifies writer, this`items, this`past
      ensures Valid() && items == [] && past.segments == old(past.segments) + [old(items)]
    {
      hide ItemBits, ItemsCoded, Tallied, PastOk, PhuffBits.Valid, Restarted, Flat, EncodersOk, Holds;
      FlatSnoc(past.segments, items);
      assert Flat(past.segments + [items]) + [] == All();
      ghost var data := [];
      if !gather {
        SameLengths();
        data := writer.FlushBits();
        Closed(tables, past, items, data);
        RestartedSnoc(past.bytes, data);
        writer.EmitMarker(RST0 + num);
        assert start + Restarted(past.bytes) + Stuff(data) + [0xFF, RST0 + num]
            == start + (Restarted(past.bytes) + Stuff(data) + [0xFF, RST0 + num]);
        NoItems(tables);
      }
      past := Past(past.segments + [items], past.bytes + if gather then [] else [data]);
      items := [];
    }

    lemma SameLengths()
      requires Valid() && !gather
      ensures |past.bytes| == |past.segments|
    {
    }

    // All symbols have been counted, or the segments have been written if their symbols have code words.
    ghost predicate Finished()
      reads `past, `counts, `ok, writer
    {
      && EncodersOk(tables) && past.segments != []
      && if gather then Tallied(counts, Flat(past.segments))
         else
           && (ok <==> ItemsCoded(tables, Flat(past.segments))) && |past.bytes| == |past.segments|
           && (ok ==> PastOk(past, tables) && writer.out == start + ScanBytes(past.bytes))
    }

    // finish_pass_phuff, or the first part of finish_pass_gather_phuff
    method Finish()
      requires Valid()
      modifies writer, this`items, this`past
      ensures past.segments == old(past.segments) + [old(items)] && Finished()
    {
      hide ItemBits, ItemsCoded, Tallied, PastOk, PhuffBits.Valid, Restarted, Flat, EncodersOk, Holds;
      FlatSnoc(past.segments, items);
      ghost var data := [];
      if !gather {
        SameLengths();
        data := writer.FlushBits();
        Closed(tables, past, items, data);
        assert (past.bytes + [data])[..|past.bytes|] == past.bytes;
        assert start + Restarted(past.bytes) + Stuff(data) == start + (Restarted(past.bytes) + Stuff(data));
      }
      past := Past(past.segments + [items], past.bytes + if gather then [] else [data]);
    }

    // One block; an error if the difference has too many bits.
    method EncodeBlock(s: Scan, tbl: TableNumber, block: Block, last: Coef) returns (accepted: bool, last': Coef)
      requires Valid()
      modifies this`counts, writer, this`ok, this`items
      ensures accepted <==> DcAccepted(s, block, last)
      ensures accepted ==> Valid() && items == old(items) + BlockItems(s, tbl, block, last)
      ensures last' == if s.Ah == 0 then DcLevel(s, block) else last
    {
      hide Valid, NBits, Extra, BitsOf, Shr;
      last' := last;
      if s.Ah == 0 {
        last' := DcLevel(s, block);
        var temp := last' - last;
        DifferenceBits(temp);
        var nbits := CountBits(Abs(temp), 0);
        if nbits > MAX_COEF_BITS + 1 {
          return false, last';
        }
        EmitSymbol(tbl, nbits);
        ghost var sent := items;
        if nbits > 0 {
          EmitBits(Extra(temp), nbits);
        } else {
          NoPlain(Extra(temp));
          assert sent + [] == sent;
        }
        assert items == sent + PlainItems(BitsOf(Extra(temp), nbits));
        assert items == old(items) + ([Code(tbl, nbits)] + PlainItems(BitsOf(Extra(temp), nbits)));
      } else {
        var bit := Shr(block[0], s.Al) % 2;
        LowBit(bit);
        EmitBits(bit, 1);
      }
      accepted := true;
    }
  }

  lemma NoPlain(x: nat)
    ensures PlainItems(BitsOf(x, 0)) == []
  {
  }

  lemma LowBit(bit: nat)
    requires bit < 2
    ensures PlainItems(BitsOf(bit, 1)) == [Plain(bit == 1)]
  {
    assert BitsOf(bit / 2, 0) == [];
  }

  lemma NoItems(tables: seq<EncoderTable>)
    requires EncodersOk(tables)
    ensures ItemBits(tables, [], []) == []
  {
  }

  lemma Closed(tables: seq<EncoderTable>, p: Past, items: seq<Item>, data: seq<Byte>)
    requires EncodersOk(tables) && PastOk(p, tables)
    requires ItemsCoded(tables, Flat(p.segments) + items) ==> Holds(data, ItemBits(tables, items, []))
    ensures PastOk(Past(p.segments + [items], p.bytes + [data]), tables)
  {
    hide ItemBits, Holds, EncodersOk, Flat;
    FlatSnoc(p.segments, items);
    CodedConcat(tables, Flat(p.segments), items);
  }

  // ----- Coding a scan -----

  // What is left of the scan, and what has been emitted of it
  ghost predicate Encoding(s: Scan, comps: seq<nat>, blocks: seq<Block>, i: nat, d: DcState, past: seq<seq<Item>>, items: seq<Item>) {
    && BlocksFit(s, comps, blocks) && |d.last| == |s.comps| && i <= |blocks|
    && var rest := Parts(s, comps, blocks, i, d);
       past + [items + rest[0]] + rest[1..] == Parts(s, comps, blocks, 0, StartState(s, |s.comps|))
  }

  lemma EncodingStart(s: Scan, comps: seq<nat>, blocks: seq<Block>)
    requires BlocksFit(s, comps, blocks)
    ensures Encoding(s, comps, blocks, 0, StartState(s, |s.comps|), [], [])
  {
    hide Parts, ScanOk;
    var rest := Parts(s, comps, blocks, 0, StartState(s, |s.comps|));
    assert [] + rest[0] == rest[0];
    assert [] + [rest[0]] + rest[1..] == rest;
  }

  lemma EncodingBlock(s: Scan, comps: seq<nat>, blocks: seq<Block>, i: nat, d: DcState, past: seq<seq<Item>>, items: seq<Item>)
    requires Encoding(s, comps, blocks, i, d, past, items) && i < |blocks| && !Due(s, d)
    ensures Encoding(s, comps, blocks, i + 1, Following(s, d, comps[i], Leveled(s, blocks[i])), past,
              items + BlockItems(s, s.comps[comps[i]].dcTbl, blocks[i], d.last[comps[i]]))
  {
    hide BlockItems, ScanOk, Leveled;
    var here := BlockItems(s, s.comps[comps[i]].dcTbl, blocks[i], d.last[comps[i]]);
    var rest := Parts(s, comps, blocks, i + 1, Following(s, d, comps[i], Leveled(s, blocks[i])));
    assert Parts(s, comps, blocks, i, d) == [here + rest[0]] + rest[1..];
    hide Parts, Following;
    assert (items + here) + rest[0] == items + (here + rest[0]);
  }

  lemma EncodingRestart(s: Scan, comps: seq<nat>, blocks: seq<Block>, i: nat, d: DcState, past: seq<seq<Item>>, items: seq<Item>)
    requires Encoding(s, comps, blocks, i, d, past, items) && i < |blocks| && Due(s, d) && |s.membership| > 0
    ensures Encoding(s, comps, blocks, i, StartState(s, |s.comps|), past + [items], [])
    ensures AllAccepted(s, comps, blocks, i, d) <==> AllAccepted(s, comps, blocks, i, StartState(s, |s.comps|))
  {
    hide ScanOk;
    RestartParts(s, comps, blocks, i, d);
    hide Parts, AllAccepted;
    var rest := Parts(s, comps, blocks, i, StartState(s, |s.comps|));
    assert items + [] == items && [] + rest[0] == rest[0];
    assert ([[]] + rest)[1..] == rest;
    assert past + [items] + rest == past + [items] + [rest[0]] + rest[1..];
  }

  lemma EncodingEnd(s: Scan, comps: seq<nat>, blocks: seq<Block>, d: DcState, past: seq<seq<Item>>, items: seq<Item>)
    requires Encoding(s, comps, blocks, |blocks|, d, past, items)
    ensures past + [items] == Parts(s, comps, blocks, 0, StartState(s, |s.comps|))
  {
    var rest := Parts(s, comps, blocks, |blocks|, d);
    assert rest == [[]];
    assert items + [] == items && past + [items] + [] == past + [items];
  }

  // The predictions that a first scan keeps; a refinement scan needs none.
  ghost predicate Predicts(s: Scan, last: seq<Coef>, d: DcState) {
    |last| == |d.last| == |s.comps| && (s.Ah == 0 ==> last == d.last)
  }

  // encode_mcu_DC_first or encode_mcu_DC_refine, behind a restart that is due
  method EncodeMcu(enc: DcEncoder, s: Scan, comps: seq<nat>, blocks: seq<Block>, i: nat, n: nat, last: seq<Coef>, ghost d: DcState)
    returns (accepted: bool, last': seq<Coef>, ghost d': DcState)
    requires enc.Valid() && Encoding(s, comps, blocks, i, d, enc.past.segments, enc.items) && i + n <= |blocks|
    requires Predicts(s, last, d) && (s.restartInterval != 0 ==> n <= d.togo)
    modifies enc`counts, enc.writer, enc`ok, enc`items
    ensures |d'.last| == |s.comps| && Predicts(s, last', d')
    ensures accepted ==> enc.Valid() && Encoding(s, comps, blocks, i + n, d', enc.past.segments, enc.items)
    ensures accepted ==> (AllAccepted(s, comps, blocks, i, d) <==> AllAccepted(s, comps, blocks, i + n, d'))
    ensures accepted && s.restartInterval != 0 ==> d'.togo == d.togo - n
    ensures !accepted ==> !AllAccepted(s, comps, blocks, i, d)
  {
    hide DcEncoder.Valid, Encoding, AllAccepted, ScanOk, BlockItems, DcAccepted;
    last', d' := last, d;
    EncodingShape(s, comps, blocks, i, d, enc.past.segments, enc.items);
    for b := 0 to n
      invariant enc.Valid() && Predicts(s, last', d') && Encoding(s, comps, blocks, i + b, d', enc.past.segments, enc.items)
      invariant AllAccepted(s, comps, blocks, i, d) <==> AllAccepted(s, comps, blocks, i + b, d')
      invariant s.restartInterval != 0 ==> d'.togo == d.togo - b
    {
      EncodingShape(s, comps, blocks, i + b, d', enc.past.segments, enc.items);
      var c := comps[i + b];
      EncodingBlock(s, comps, blocks, i + b, d', enc.past.segments, enc.items);
      AcceptedBlock(s, comps, blocks, i + b, d');
      SameItems(s, s.comps[c].dcTbl, blocks[i + b], last'[c], d'.last[c]);
      var dc;
      accepted, dc := enc.EncodeBlock(s, s.comps[c].dcTbl, blocks[i + b], last'[c]);
      last' := last'[c := dc];
      d' := Following(s, d', c, Leveled(s, blocks[i + b]));
      if !accepted {
        return;
      }
    }
    accepted := true;
  }

  // A refinement does not look at predictions.
  lemma SameItems(s: Scan, tbl: TableNumber, block: Block, x: Coef, y: Coef)
    requires s.Ah == 0 ==> x == y
    ensures BlockItems(s, tbl, block, x) == BlockItems(s, tbl, block, y) && DcAccepted(s, block, x) == DcAccepted(s, block, y)
  {
  }

  lemma EncodingShape(s: Scan, comps: seq<nat>, blocks: seq<Block>, i: nat, d: DcState, past: seq<seq<Item>>, items: seq<Item>)
    requires Encoding(s, comps, blocks, i, d, past, items)
    ensures BlocksFit(s, comps, blocks) && |d.last| == |s.comps| && i <= |blocks|
  {
  }

  lemma AcceptedBlock(s: Scan, comps: seq<nat>, blocks: seq<Block>, i: nat, d: DcState)
    requires BlocksFit(s, comps, blocks) && |d.last| == |s.comps| && i < |blocks| && !Due(s, d)
    ensures AllAccepted(s, comps, blocks, i, d) <==>
              && DcAccepted(s, blocks[i], d.last[comps[i]])
              && AllAccepted(s, comps, blocks, i + 1, Following(s, d, comps[i], Leveled(s, blocks[i])))
  {
  }

  // Code all MCUs, or gather their statistics, with a restart behind every restart interval; an
  // error if a difference has too many bits.
  method EncodeScan(enc: DcEncoder, s: Scan, comps: seq<nat>, blocks: seq<Block>, mcus: nat) returns (accepted: bool)
    requires enc.Valid() && enc.items == [] && enc.past == Past([], []) && BlocksFit(s, comps, blocks)
    requires |s.membership| > 0 && |blocks| == BlocksIn(|s.membership|, mcus)
    modifies enc, enc.writer
    ensures accepted <==> AllAccepted(s, comps, blocks, 0, StartState(s, |s.comps|))
    ensures accepted ==> enc.past.segments == Parts(s, comps, blocks, 0, StartState(s, |s.comps|)) && enc.Finished()
  {
    hide DcEncoder.Valid, DcEncoder.Finished, Encoding, AllAccepted, BlocksFit, BlocksIn, Parts;
    var n := |s.membership|;
    var last := NoDc(|s.comps|);
    ghost var d := StartState(s, |s.comps|);
    EncodingStart(s, comps, blocks);
    var restartsToGo, nextRestartNum := s.restartInterval, 0;
    var i := 0;
    NoBlocks(n);
    for m := 0 to mcus
      invariant enc.Valid() && Predicts(s, last, d) && i == BlocksIn(n, m) && nextRestartNum == |enc.past.segments| % 8
      invariant Encoding(s, comps, blocks, i, d, enc.past.segments, enc.items)
      invariant i <= |blocks| && (AllAccepted(s, comps, blocks, 0, StartState(s, |s.comps|)) <==> AllAccepted(s, comps, blocks, i, d))
      invariant s.restartInterval != 0 ==> d.togo == BlocksIn(n, restartsToGo)
    {
      OneMoreMcu(n, m, mcus);
      if s.restartInterval != 0 && restartsToGo == 0 {
        NoBlocks(n);
        EncodingRestart(s, comps, blocks, i, d, enc.past.segments, enc.items);
        enc.EmitRestart(nextRestartNum);
        last, d := NoDc(|s.comps|), StartState(s, |s.comps|);
      }
      OneMcu(n, if restartsToGo == 0 then s.restartInterval else restartsToGo);
      accepted, last, d := EncodeMcu(enc, s, comps, blocks, i, n, last, d);
      if !accepted {
        return;
      }
      i := i + n;
      if s.restartInterval != 0 {
        if restartsToGo == 0 {
          restartsToGo := s.restartInterval;
          nextRestartNum := (nextRestartNum + 1) % 8;
        }
        restartsToGo := restartsToGo - 1;
      }
    }
    accepted := true;
    EncodingEnd(s, comps, blocks, d, enc.past.segments, enc.items);
    NothingLeft(s, comps, blocks, d);
    enc.Finish();
  }

  lemma NothingLeft(s: Scan, comps: seq<nat>, blocks: seq<Block>, d: DcState)
    requires BlocksFit(s, comps, blocks) && |d.last| == |s.comps|
    ensures AllAccepted(s, comps, blocks, |blocks|, d)
  {
  }
}
