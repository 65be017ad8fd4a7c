// A scan for which flush_bits (jchuff.c) loses bits when words have 64 bits: one block, with
// tables that the encoder accepts.
module HuffmanFlush {
  import opened Arithmetic
  import opened BitFields
  import opened BitStrings
  import opened ArithInterval
  import opened ByteSource
  import opened ArithScan
  import opened PointTransform
  import opened HuffmanLimit
  import opened HuffmanGen
  import opened HuffmanCode
  import opened HuffmanTables
  import opened HuffmanDecode
  import opened HuffmanWriter
  import opened HuffmanBlock
  import opened HuffmanSegments
  import opened HuffmanMcu
  import opened HuffmanRoundTrip

  // Code words of these lengths: 1 for a DC difference of zero and for a coefficient of one bit, which
  // are zeros, 15 for one with a zero before it, and 16 for the end of the block
  ghost predicate LosingSizes(t: Tables) {
    && EncoderShape(t.dcEncoder) && EncoderShape(t.acEncoder) && t.dcEncoder.ehufsi[0] == 1
    && t.dcEncoder.ehufco[0] == t.acEncoder.ehufco[0x01] == 0 && t.acEncoder.ehufsi[0x01] == 1
    && t.acEncoder.ehufsi[0x11] == 15 && t.acEncoder.ehufsi[0] == 16
  }

  // Coefficients 1 to 15 and 17 are one, and all others are zero.
  predicate LosingBlock(s: Scan, block: Block)
    requires |s.order| == DCTSIZE2
  {
    block[0] == 0 && forall k :: 1 <= k < DCTSIZE2 ==> AtZigzag(s, block, k) == if k <= 15 || k == 17 then 1 else 0
  }

  lemma ValueBits()
    ensures NBits(0) == 0 && NBits(1) == 1 && Extra(1) == 1 && InRange(0) && InRange(1) && Abs(1) == 1 && Abs(0) == 0
    ensures RunSize(0, 1) == 0x01 && RunSize(1, 1) == 0x11
  {
    assert NBits(1) == 1 + NBits(0);
  }

  lemma LosingInRange(s: Scan, block: Block)
    requires |s.order| == DCTSIZE2 && LosingBlock(s, block)
    ensures AcInRange(s, block)
  {
    hide AtZigzag;
  }

  // The end of the block: its last coefficient and the zeros behind it
  lemma LosingEnd(s: Scan, t: Tables, block: Block)
    requires |s.order| == DCTSIZE2 && LosingBlock(s, block) && LosingSizes(t) && AcInRange(s, block)
    ensures AcCoded(s, t.acEncoder, block, 16, 0) && |AcBits(s, t.acEncoder, block, 16, 0, [])| == 32
    ensures AcPending(true, s, t.acEncoder, block, 16, 0, 31) == 63
  {
    hide AtZigzag, NBits, Extra, BitsOf, RunSize;
    ValueBits();
    var e := t.acEncoder;
    AcZeros(s, e, block, 18, DCTSIZE2, 0, []);
    PendingZeros(s, t, block, 18, 0, 47);
    assert AcBits(s, e, block, 18, 0, []) == Symbol(e, 0, []);
    assert AcBits(s, e, block, 17, 1, []) == Symbol(e, 0x11, BitsOf(1, 1) + AcBits(s, e, block, 18, 0, []));
    assert AcBits(s, e, block, 16, 0, []) == AcBits(s, e, block, 17, 1, []);
    assert AcPending(true, s, e, block, 17, 1, 31) == AcPending(true, s, e, block, 18, 0, 47);
    assert AcPending(true, s, e, block, 16, 0, 31) == AcPending(true, s, e, block, 17, 1, 31);
  }

  lemma {:induction false} PendingZeros(s: Scan, t: Tables, block: Block, k: nat, r: nat, p: nat)
    requires |s.order| == DCTSIZE2 && LosingBlock(s, block) && LosingSizes(t) && AcInRange(s, block)
    requires 18 <= k <= DCTSIZE2 && (k == DCTSIZE2 ==> r > 0)
    ensures AcPending(true, s, t.acEncoder, block, k, r, p) == AfterBits(true, p, 16)
    decreases DCTSIZE2 - k
  {
    hide AtZigzag, NBits, RunSize;
    if k < DCTSIZE2 {
      PendingZeros(s, t, block, k + 1, r + 1, p);
    }
  }

  // The coefficients of value one in front of it take two bits each.
  lemma {:induction false} LosingOnes(s: Scan, t: Tables, block: Block, k: nat)
    requires |s.order| == DCTSIZE2 && LosingBlock(s, block) && LosingSizes(t) && AcInRange(s, block) && 1 <= k <= 16
    ensures AcCoded(s, t.acEncoder, block, k, 0) && |AcBits(s, t.acEncoder, block, k, 0, [])| == 2 * (16 - k) + 32
    ensures AcPending(true, s, t.acEncoder, block, k, 0, 2 * k - 1) == 63
    ensures k < 16 ==> AcBits(s, t.acEncoder, block, k, 0, [])[1]
    decreases 16 - k
  {
    hide AtZigzag, NBits, Extra, RunSize;
    if k == 16 {
      LosingEnd(s, t, block);
    } else {
      ValueBits();
      LosingOnes(s, t, block, k + 1);
      var e := t.acEncoder;
      var rest := AcBits(s, e, block, k + 1, 0, []);
      assert AcBits(s, e, block, k, 0, []) == Symbol(e, 0x01, BitsOf(1, 1) + rest);
      assert BitsOf(1, 1) == [true];
      assert AcPending(true, s, e, block, k, 0, 2 * k - 1) == AcPending(true, s, e, block, k + 1, 0, 2 * k + 1);
    }
  }

  // A DC difference of zero is one code word.
  lemma NoDifference(t: EncoderTable, diff: int, tail: Bits, p: nat)
    requires EncoderShape(t) && diff == 0 && t.ehufsi[0] == 1 && p < 47
    ensures InRange(diff) && HasDcCode(t, diff) && DcPending(true, t, diff, p) == p + 1
    ensures DcBits(t, diff, tail) == BitsOf(t.ehufco[0], 1) + tail
  {
    hide BitsOf, Extra, NBits, Scale;
    ZeroBits(diff);
    NoDigits(Extra(diff), tail);
  }

  lemma ZeroBits(diff: int)
    requires diff == 0
    ensures NBits(Abs(diff)) == 0
  {
  }

  lemma NoDigits(x: nat, tail: Bits)
    ensures BitsOf(x, 0) + tail == tail
  {
  }

  // A scan of one block
  lemma SingleBlock(s: Scan, t: Tables, block: Block, d: DcState, p: nat)
    requires |d.last| == 1 && !Due(s, d) && BlockCoded(s, t.dcEncoder, t.acEncoder, block, d.last[0])
    ensures Coded(s, [t], [0], [block], 0, d)
    ensures ScanBits(s, [t], [0], [block], 0, d) == [BlockBits(s, t.dcEncoder, t.acEncoder, block, d.last[0], [])]
    ensures Pendings(true, s, [t], [0], [block], 0, d, p) == [BlockPending(true, s, t.dcEncoder, t.acEncoder, block, d.last[0], p)]
  {
    hide BlockCoded, BlockBits, BlockPending;
    var f := Following(s, d, 0, block);
    assert Coded(s, [t], [0], [block], 1, f);
    assert ScanBits(s, [t], [0], [block], 1, f) == [[]];
  }

  lemma LosingStart(s: Scan, t: Tables, block: Block, last: Coef)
    requires ScanOk(s) && LosingBlock(s, block) && LosingSizes(t) && last == 0
    ensures BlockCoded(s, t.dcEncoder, t.acEncoder, block, last)
    ensures BlockPending(true, s, t.dcEncoder, t.acEncoder, block, last, 0) == 63
    ensures var bits := BlockBits(s, t.dcEncoder, t.acEncoder, block, last, []); |bits| == 63 && bits[2]
  {
    hide AtZigzag, AcBits, AcCoded, AcPending, DcPending, DcBits, AcInRange, InRange, HasDcCode;
    LosingInRange(s, block);
    LosingOnes(s, t, block, 1);
    NoDifference(t.dcEncoder, block[0] - last, AcBits(s, t.acEncoder, block, 1, 0, []), 0);
  }

  // At the end of the block 63 bits are pending, of which the first six do not fit behind the
  // padding; one of them is a one.
  lemma BitsLost(s: Scan, t: Tables, block: Block)
    requires ScanOk(s) && |s.membership| > 0 && LosingBlock(s, block) && LosingSizes(t)
    ensures Coded(s, [t], [0], [block], 0, StartState(s, 1))
    ensures Pendings(true, s, [t], [0], [block], 0, StartState(s, 1), 0) == [63]
    ensures !FlushesOk(true, s, [t], [0], [block])
  {
    hide ScanOk, BlockCoded, BlockBits, BlockPending, LosingBlock, LosingSizes, Coded, ScanBits, Pendings;
    var d := StartState(s, 1);
    LosingStart(s, t, block, d.last[0]);
    SingleBlock(s, t, block, d, 0);
    var bits := BlockBits(s, t.dcEncoder, t.acEncoder, block, d.last[0], []);
    assert ScanBits(s, [t], [0], [block], 0, d)[0] == bits;
    assert !FlushOk(bits, 63, 64);
  }

  // ----- Tables that do -----

  function Padding(some: seq<UInt8>): (values: seq<UInt8>)
    requires |some| <= SYMBOLS
    ensures |values| == SYMBOLS && values[..|some|] == some
  {
    some + seq(SYMBOLS - |some|, i => 0)
  }

  // One code word of one bit
  function ShortTable(): HuffTable {
    HuffTable([0, 1, 0, 0, 0, 0, 0, 0, 0, 0, 0, 0, 0, 0, 0, 0, 0], Padding([0]))
  }

  // One code word of 1 bit, one of 15 and one of 16
  function LongTable(): HuffTable {
    HuffTable([0, 1, 0, 0, 0, 0, 0, 0, 0, 0, 0, 0, 0, 0, 0, 1, 1], Padding([0x01, 0x11, 0x00]))
  }

  // The code space that is used up doubles with each length, and new words are added.
  lemma NextSpace(bits: seq<nat>, l: nat)
    requires |bits| == 17 && 1 <= l < 16
    ensures Space(bits, l + 1, l + 2) == 2 * Space(bits, l, l + 1) + bits[l + 1]
    ensures Words(bits, l + 2) == Words(bits, l + 1) + bits[l + 1]
  {
    SpaceHalf(bits, l + 1, l + 1);
    SpaceEnd(bits, l + 1);
  }

  // Lengths without words of their own
  lemma {:induction false} SparseSpace(bits: seq<nat>, l: nat)
    requires |bits| == 17 && bits[1] == 1 && (forall k :: 2 <= k <= 14 ==> bits[k] == 0) && 1 <= l <= 14
    ensures Space(bits, l, l + 1) == Scale(1, l - 1) && Words(bits, l + 1) == 1
  {
    if l > 1 {
      SparseSpace(bits, l - 1);
      NextSpace(bits, l - 1);
    } else {
      SpaceEnd(bits, 1);
    }
  }

  lemma SparseLegal(bits: seq<nat>)
    requires |bits| == 17 && bits[1] == 1 && (forall k :: 2 <= k <= 14 ==> bits[k] == 0) && bits[15] <= 1 && bits[16] <= 1
    ensures Legal(bits) && Words(bits, 2) == Words(bits, 15) == 1
    ensures Words(bits, 16) == 1 + bits[15] && Words(bits, 17) == 1 + bits[15] + bits[16]
  {
    SparseSpace(bits, 1);
    SparseSpace(bits, 14);
    NextSpace(bits, 14);
    NextSpace(bits, 15);
    ScaleValues(1);
    assert Scale(1, 13) == 4 * Scale(1, 11) && Scale(1, 15) == 16 * Scale(1, 11);
    forall l | 1 <= l <= 16
      ensures Space(bits, l, l + 1) < Scale(1, l)
    {
      if l <= 14 {
        SparseSpace(bits, l);
      }
    }
  }

  method LosingTables() returns (t: Tables)
    ensures TablesMatch(t) && LosingSizes(t)
  {
    hide Legal, Words, Space, Sizes, CodeOf, Decodes, LosingSizes;
    var h, g := ShortTable(), LongTable();
    SparseLegal(h.bits);
    SparseLegal(g.bits);
    var ok, dcEncoder, dcDecoder, acEncoder, acDecoder;
    ok, dcEncoder := MakeEncoderTable(h, true);
    ok, dcDecoder := MakeDecoderTable(h, true);
    ok, acEncoder := MakeEncoderTable(g, false);
    ok, acDecoder := MakeDecoderTable(g, false);
    t := Tables(h, dcEncoder, dcDecoder, g, acEncoder, acDecoder);
    SizesLose(t);
  }

  lemma SizesLose(t: Tables)
    requires Encodes(ShortTable(), t.dcEncoder) && Encodes(LongTable(), t.acEncoder)
    ensures LosingSizes(t)
  {
    hide Legal, Space, CodeOf, Sizes;
    var h, g := ShortTable(), LongTable();
    SparseLegal(h.bits);
    SparseLegal(g.bits);
    SizeAt(h.bits, 0, 1, 17);
    SizeAt(g.bits, 0, 1, 17);
    SizeAt(g.bits, 1, 15, 17);
    SizeAt(g.bits, 2, 16, 17);
    assert h.huffval[0] == 0 && g.huffval[0] == 0x01 && g.huffval[1] == 0x11 && g.huffval[2] == 0;
    FirstCode(h.bits);
    FirstCode(g.bits);
  }

  function SampleBlock(s: Scan): Block
    requires |s.order| == DCTSIZE2
  {
    seq(DCTSIZE2, i => if exists k :: 1 <= k <= 17 && k != 16 && s.order[k] == i then 1 else 0)
  }

  lemma SampleLoses(s: Scan)
    requires OrderOk(s.order)
    ensures LosingBlock(s, SampleBlock(s))
  {
    var block := SampleBlock(s);
    forall k | 1 <= k < DCTSIZE2
      ensures AtZigzag(s, block, k) == if k <= 15 || k == 17 then 1 else 0
    {
      assert block[s.order[k]] == if k <= 15 || k == 17 then 1 else 0;
    }
  }

  lemma SampleOk(s: Scan, t: Tables, block: Block)
    requires ScanOk(s) && ModeOf(s) == Sequential && |s.membership| == 1 && TablesMatch(t)
    ensures SegmentOk(s, [t], [0], [block]) && BlocksIn(|s.membership|, 1) == 1
  {
    hide ScanOk, TablesMatch;
    assert BlocksIn(1, 0) == 0;
  }

  lemma FirstCode(bits: seq<nat>)
    requires |bits| == 17 && 0 < Words(bits, 17) && SizeOf(bits, 0) == 1
    ensures CodeOf(bits, 0) == 0
  {
    hide Words, SizeOf;
    assert Words(bits, 1) == 0 by {
      NoWords(bits);
    }
  }

  lemma NoWords(bits: seq<nat>)
    requires |bits| == 17
    ensures Words(bits, 1) == 0
  {
  }

  // ----- What a decoder makes of it -----

  // Coefficients 1 and 2 with the other sign
  ghost predicate Flipped(s: Scan, block: Block, other: Block)
    requires |s.order| == DCTSIZE2
  {
    && other[0] == block[0]
    && forall k :: 1 <= k < DCTSIZE2 ==> AtZigzag(s, other, k) == if k <= 2 then -1 else AtZigzag(s, block, k)
  }

  lemma {:induction false} SameBits(s: Scan, t: EncoderTable, block: Block, other: Block, k: nat, r: nat)
    requires |s.order| == DCTSIZE2 && EncoderShape(t) && AcInRange(s, block) && AcInRange(s, other) && 3 <= k <= DCTSIZE2
    requires forall i :: k <= i < DCTSIZE2 ==> AtZigzag(s, other, i) == AtZigzag(s, block, i)
    ensures AcBits(s, t, other, k, r, []) == AcBits(s, t, block, k, r, [])
    ensures AcCoded(s, t, other, k, r) <==> AcCoded(s, t, block, k, r)
    decreases DCTSIZE2 - k, r
  {
    hide AtZigzag, NBits, Extra, RunSize, Symbol, AcInRange;
    if k < DCTSIZE2 {
      var v := AtZigzag(s, block, k);
      if v == 0 {
        SameBits(s, t, block, other, k + 1, r + 1);
      } else if r > 15 {
        SameBits(s, t, block, other, k, r - 16);
      } else {
        SameBits(s, t, block, other, k + 1, 0);
      }
    }
  }

  // A coefficient that is not zero, behind one that is not
  lemma NextCoefficient(s: Scan, e: EncoderTable, block: Block, k: nat)
    requires |s.order| == DCTSIZE2 && EncoderShape(e) && AcInRange(s, block) && 1 <= k < DCTSIZE2 && AtZigzag(s, block, k) != 0
    ensures InRange(AtZigzag(s, block, k))
    ensures var v := AtZigzag(s, block, k);
            && AcBits(s, e, block, k, 0, [])
               == Symbol(e, RunSize(0, v), BitsOf(Extra(v), NBits(Abs(v))) + AcBits(s, e, block, k + 1, 0, []))
            && (AcCoded(s, e, block, k, 0) <==> e.ehufsi[RunSize(0, v)] > 0 && AcCoded(s, e, block, k + 1, 0))
  {
    hide AtZigzag, NBits, Extra, RunSize, Symbol, BitsOf;
  }

  lemma SignBits(v: int)
    requires v == 1 || v == -1
    ensures InRange(v) && RunSize(0, v) == 0x01 && NBits(Abs(v)) == 1 && BitsOf(Extra(v), 1) == [v == 1]
  {
    hide RunSize, NBits, BitsOf;
    ValueBits();
    assert Abs(v) == 1 && Scale(1, 1) == 2;
    assert Extra(v) == if v == 1 then 1 else 0;
    assert RunSize(0, v) / 16 == 0 && RunSize(0, v) % 16 == 1;
    TrueBit();
    FirstBit();
  }

  lemma TrueBit()
    ensures BitsOf(1, 1) == [true]
  {
  }

  // A coefficient of one bit is a zero for the code word, and its sign.
  lemma OneCoefficient(s: Scan, t: Tables, block: Block, k: nat)
    requires |s.order| == DCTSIZE2 && LosingSizes(t) && AcInRange(s, block) && 1 <= k < DCTSIZE2
    requires AtZigzag(s, block, k) == 1 || AtZigzag(s, block, k) == -1
    ensures AcBits(s, t.acEncoder, block, k, 0, [])
         == [false, AtZigzag(s, block, k) == 1] + AcBits(s, t.acEncoder, block, k + 1, 0, [])
    ensures AcCoded(s, t.acEncoder, block, k, 0) <==> AcCoded(s, t.acEncoder, block, k + 1, 0)
  {
    hide AtZigzag, AcInRange, AcBits, AcCoded, RunSize, NBits, Extra, BitsOf;
    var v := AtZigzag(s, block, k);
    SignBits(v);
    FirstBit();
    NextCoefficient(s, t.acEncoder, block, k);
  }

  // What is left of the block's bits are those of the other block.
  lemma DamagedBits(s: Scan, t: Tables, block: Block, other: Block, last: Coef)
    requires ScanOk(s) && LosingBlock(s, block) && Flipped(s, block, other) && LosingSizes(t) && last == 0
    requires BlockCoded(s, t.dcEncoder, t.acEncoder, block, last)
    ensures BlockCoded(s, t.dcEncoder, t.acEncoder, other, last)
    ensures var bits := BlockBits(s, t.dcEncoder, t.acEncoder, block, last, []);
            |bits| == 63 && BlockBits(s, t.dcEncoder, t.acEncoder, other, last, []) == Copies(6, false) + bits[6..]
  {
    hide AtZigzag, AcBits, AcCoded, DcBits, InRange, HasDcCode, ScanOk, AcPending, DcPending, Symbol;
    LosingStart(s, t, block, last);
    FlippedInRange(s, block, other);
    var e, rest := t.acEncoder, AcBits(s, t.acEncoder, block, 4, 0, []);
    forall k | 1 <= k <= 3
      ensures AtZigzag(s, block, k) == 1
    {
    }
    OneCoefficient(s, t, block, 1);
    OneCoefficient(s, t, block, 2);
    OneCoefficient(s, t, block, 3);
    OneCoefficient(s, t, other, 1);
    OneCoefficient(s, t, other, 2);
    OneCoefficient(s, t, other, 3);
    SameBits(s, e, block, other, 4, 0);
    NoDifference(t.dcEncoder, block[0] - last, AcBits(s, e, block, 1, 0, []), 0);
    NoDifference(t.dcEncoder, other[0] - last, AcBits(s, e, other, 1, 0, []), 0);
    FirstBit();
    var bits, found := BlockBits(s, t.dcEncoder, e, block, last, []), BlockBits(s, t.dcEncoder, e, other, last, []);
    assert bits == [false, false, true, false, true, false, true] + rest;
    assert found == [false, false, false, false, false, false, true] + rest;
    assert bits[6..] == [true] + rest;
    assert Copies(6, false) == [false, false, false, false, false, false];
  }

  lemma FirstBit()
    ensures BitsOf(0, 1) == [false]
  {
  }

  lemma FlippedInRange(s: Scan, block: Block, other: Block)
    requires |s.order| == DCTSIZE2 && LosingBlock(s, block) && Flipped(s, block, other)
    ensures AcInRange(s, block) && AcInRange(s, other)
  {
    hide AtZigzag;
  }

  // So the segment that the encoder writes holds the other block's bits.
  lemma DamagedSegment(s: Scan, t: Tables, block: Block, other: Block, data: seq<Byte>)
    requires ScanOk(s) && |s.membership| > 0 && LosingBlock(s, block) && Flipped(s, block, other) && LosingSizes(t)
    requires BlockCoded(s, t.dcEncoder, t.acEncoder, block, 0)
    requires Flushed(data, BlockBits(s, t.dcEncoder, t.acEncoder, block, 0, []), 63, 64)
    ensures Coded(s, [t], [0], [other], 0, StartState(s, 1))
    ensures Sent(ScanBits(s, [t], [0], [other], 0, StartState(s, 1)), [data])
  {
    hide ScanOk, BlockCoded, BlockBits, BlockPending, LosingBlock, Flipped, LosingSizes, Coded, ScanBits, DataBits;
    DamagedBits(s, t, block, other, 0);
    SingleBlock(s, t, other, StartState(s, 1), 0);
    var bits, found := BlockBits(s, t.dcEncoder, t.acEncoder, block, 0, []), BlockBits(s, t.dcEncoder, t.acEncoder, other, 0, []);
    assert Padded(bits, 63, 64) == found + Copies(7, true);
  }

  function FlippedBlock(s: Scan, block: Block): Block
    requires OrderOk(s.order)
  {
    block[s.order[1] := -1][s.order[2] := -1]
  }

  lemma SampleFlipped(s: Scan)
    requires OrderOk(s.order)
    ensures Flipped(s, SampleBlock(s), FlippedBlock(s, SampleBlock(s)))
    ensures FlippedBlock(s, SampleBlock(s)) != SampleBlock(s)
  {
    hide SampleBlock;
    SampleLoses(s);
    var block := SampleBlock(s);
    assert AtZigzag(s, block, 1) == 1;
  }

  // The two encoders write different files for this block, whatever the zigzag order is. The one with
  // words of 64 bits writes a file in which the decoder finds nothing wrong, but another block.
  method LosingFile(s: Scan, wideDecoder: bool, marker: Byte, follow: seq<Byte>, planes: array<Block>)
    returns (block: Block, wideOut: seq<Byte>, out: seq<Byte>, warnings: nat)
    requires ScanOk(s) && ModeOf(s) == Sequential && |s.membership| == 1 && marker != 0 && marker != 0xFF
    requires planes.Length == 1 && forall i :: 1 <= i < DCTSIZE2 ==> planes[0][i] == 0
    modifies planes
    ensures wideOut != out && warnings == 0 && planes[0] != block
  {
    hide OrderOk, TablesOk, SampleBlock, FlippedBlock, LosingBlock, Flipped, TablesMatch, Coded, FlushesOk, LosingSizes, SegmentOk,
      BlocksIn, ScanBits, Pendings, Sent, ScanBytes, RowsCleared, BlockCoded, BlockBits, Finished, Flushed, StartState, BlockPending;
    SampleLoses(s);
    SampleFlipped(s);
    OrderLength(s.order);
    block := SampleBlock(s);
    ghost var other := FlippedBlock(s, block);
    RowFits(s, other, planes[0]);
    assert planes[..] == [planes[0]];
    var t := LosingTables();
    SampleOk(s, t, block);
    BitsLost(s, t, block);
    ghost var wideSegments, segments;
    wideOut, out, wideSegments, segments := EncodeBoth(s, [t], [0], [block], 1);
    LosingStart(s, t, block, 0);
    OneSegment(s, t, block, wideSegments);
    DamagedSegment(s, t, block, other, wideSegments[0]);
    warnings := DecodeDamaged(s, t, wideOut, wideDecoder, marker, follow, planes, other, wideSegments);
  }

  method DecodeDamaged(s: Scan, t: Tables, out: seq<Byte>, wideDecoder: bool, marker: Byte, follow: seq<Byte>, planes: array<Block>,
                       ghost other: Block, ghost segments: seq<seq<Byte>>)
    returns (warnings: nat)
    requires ScanOk(s) && ModeOf(s) == Sequential && |s.membership| == 1 && TablesMatch(t) && marker != 0 && marker != 0xFF
    requires Coded(s, [t], [0], [other], 0, StartState(s, 1)) && RowsCleared(s, [other], [0], 0, 1, planes[..])
    requires |segments| == 1 && Sent(ScanBits(s, [t], [0], [other], 0, StartState(s, 1)), [segments[0]]) && out == ScanBytes(segments)
    modifies planes
    ensures warnings == 0 && planes.Length > 0 && planes[0] == other
  {
    hide ScanOk, TablesMatch, Coded, SegmentOk, BlocksIn, ScanBits, Sent, ScanBytes, RowsCleared, Remaining, Decoded;
    SampleOk(s, t, other);
    assert segments == [segments[0]];
    var trailer := [0xFF, marker] + follow;
    WholeStream(segments, trailer);
    ghost var was := planes[..];
    var unread, rest;
    warnings, unread, rest :=
      DecodeScan(wideDecoder, out + trailer, [0], s, DecodersFor([t]), [0], [0], planes, [t], [other], segments, marker, follow);
    OneDecoded(other, was, planes[..]);
  }

  lemma OneDecoded(block: Block, was: seq<Block>, now: seq<Block>)
    requires Decoded([block], [0], 0, 1, was, now)
    ensures |now| > 0 && now[0] == block
  {
    assert [0][0] == 0;
  }

  lemma OneSegment(s: Scan, t: Tables, block: Block, segments: seq<seq<Byte>>)
    requires BlockCoded(s, t.dcEncoder, t.acEncoder, block, 0) && Coded(s, [t], [0], [block], 0, StartState(s, 1)) && |s.membership| > 0
    requires Pendings(true, s, [t], [0], [block], 0, StartState(s, 1), 0) == [63]
    requires Finished(true, ScanBits(s, [t], [0], [block], 0, StartState(s, 1)), [63], segments)
    requires |segments| == |ScanBits(s, [t], [0], [block], 0, StartState(s, 1))|
    ensures |segments| == 1 && Flushed(segments[0], BlockBits(s, t.dcEncoder, t.acEncoder, block, 0, []), 63, 64)
  {
    hide BlockCoded, BlockBits, BlockPending, Coded, ScanBits, Pendings, Flushed;
    SingleBlock(s, t, block, StartState(s, 1), 0);
  }

  lemma RowFits(s: Scan, block: Block, was: Block)
    requires ScanOk(s) && forall i :: 1 <= i < DCTSIZE2 ==> was[i] == 0
    ensures RowsCleared(s, [block], [0], 0, 1, [was])
  {
    hide TablesOk, AtZigzag;
    forall k | 1 <= k < DCTSIZE2
      ensures was[s.order[k]] == 0
    {
      assert s.order[k] != s.order[0];
    }
  }
}
