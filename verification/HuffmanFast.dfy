// The fast path of the Huffman decoder (decode_mcu_fast in jdhuff.c, HUFF_DECODE_FAST in
// jdhuff.h), which reads the source's buffer directly and gives up when it meets a marker.
module HuffmanFast {
  import opened Arithmetic
  import opened BitFields
  import opened BitStrings
  import opened ArithInterval
  import opened ArithBytes
  import opened ByteSource
  import opened ArithScan
  import opened PointTransform
  import opened HuffmanLimit
  import opened HuffmanGen
  import opened HuffmanCode
  import opened HuffmanTables
  import opened HuffmanDecode
  import opened HuffmanReader
  import opened HuffmanSymbol
  import opened HuffmanBlock

  // Source bytes that must be in the buffer for each block
  const BUFSIZE := DCTSIZE2 * 8

  // A block has at most 64 symbols of at most 16 bits, each with at most 15 bits behind it.
  const BLOCK_BITS := 1984

  // x & ~0xFF
  function ClearLowByte(x: nat): nat {
    x - x % 0x100
  }

  class FastReader {
    const wide: bool
    const buf: seq<Byte>   // what is in the source's buffer, and nothing else is read
    var getBuffer: nat
    var bitsLeft: nat
    var buffer: nat        // position in buf
    var unreadMarker: Byte

    ghost const source: seq<Byte>
    ghost const segment: Segment
    ghost const first: nat // data bytes consumed before
    ghost const blocks: nat
    ghost const length: nat // bits ahead at the start
    ghost var k: nat       // data bytes consumed
    ghost var unused: Bits   // the bits not yet used, without zeros supplied behind a marker

    ghost function Ahead(): Bits
      reads this
    {
      BitsOf(getBuffer, bitsLeft) + DataBits(if k <= |segment.data| then segment.data[k..] else [])
    }

    ghost predicate Valid()
      reads this
    {
      && segment.marker != 0 && segment.marker != 0xFF && bitsLeft <= WordBits(wide)
      && first <= k <= |segment.data| && buffer <= |source| && source[buffer..] == CleanRest(segment, k)
      && (unreadMarker == 0 || (unreadMarker == segment.marker && k == |segment.data|))
      && unused <= Ahead() && (unreadMarker == 0 ==> unused == Ahead())
      && buf <= source && 0 < blocks && BUFSIZE * blocks <= |buf|
      && |unused| <= length && buffer <= 2 * (k - first) && 8 * (k - first) <= length - |unused| + bitsLeft
    }

    // No more bits have been used than the blocks can have.
    ghost predicate InBudget()
      reads this
    {
      length <= |unused| + BLOCK_BITS * blocks
    }

    // Start where the ordinary reader is.
    constructor (r: BitReader, bytesInBuffer: nat, n: nat)
      requires r.Valid() && r.clean && r.unreadMarker == 0 && 0 < n && BUFSIZE * n <= bytesInBuffer <= |r.rest|
      ensures Valid() && unused == r.Ahead() && length == |unused| && wide == r.wide && unreadMarker == 0
      ensures segment == r.segment && source == r.rest && blocks == n
    {
      wide, buf := r.wide, r.rest[..bytesInBuffer];
      getBuffer, bitsLeft, buffer, unreadMarker := r.getBuffer, r.bitsLeft, 0, 0;
      source, segment, first, blocks, length := r.rest, r.segment, r.k, n, |r.Ahead()|;
      k, unused := r.k, r.Ahead();
    }

    // GET_BYTE: load a byte, or eight zeros at the marker, which is not passed.
    method GetByte()
      requires Valid() && InBudget() && bitsLeft + 8 <= WordBits(wide)
      modifies `getBuffer, `bitsLeft, `buffer, `unreadMarker, `k
      ensures Valid() && bitsLeft == old(bitsLeft) + 8
    {
      hide BitsOf, Low, Scale, DataBits, CleanRest;
      NextBytes();
      var c0, c1 := buf[buffer], buf[buffer + 1];
      if k < |segment.data| {
        LoadedByte(getBuffer, bitsLeft, WordBits(wide), c0, segment.data, k);
      }
      if c0 == 0xFF {
        LoadedZeros();
      }
      buffer := buffer + 1;
      getBuffer := Low(Scale(getBuffer, 8) + c0, WordBits(wide));
      bitsLeft := bitsLeft + 8;
      if c0 == 0xFF {
        buffer := buffer + 1;
        if c1 != 0 {
          unreadMarker := c1;
          buffer := buffer - 2;
          getBuffer := ClearLowByte(getBuffer);
          return;
        }
      }
      k := k + 1;
    }

    // What is in the buffer: the next data byte with any stuffing, or the marker
    lemma NextBytes()
      requires Valid() && InBudget() && bitsLeft + 8 <= WordBits(wide)
      ensures buffer + 1 < |buf|
      ensures buf[buffer] == if k < |segment.data| then segment.data[k] else 0xFF
      ensures buf[buffer] == 0xFF ==> buf[buffer + 1] == if k < |segment.data| then 0 else segment.marker
      ensures k < |segment.data| ==> buffer + (if buf[buffer] == 0xFF then 2 else 1) <= |source|
      ensures k < |segment.data| ==> source[buffer + (if buf[buffer] == 0xFF then 2 else 1)..] == CleanRest(segment, k + 1)
    {
      hide BitsOf, DataBits, StuffByte, CleanRest;
      CleanStart(segment, k);
      RestLength(segment, k);
      var rest := source[buffer..];
      assert buf[buffer] == rest[0] && buf[buffer + 1] == rest[1];
      assert source[buffer + 1..] == rest[1..];
      assert 2 <= |rest| && source[buffer + 2..] == rest[1..][1..];
    }

    lemma LoadedZeros()
      requires Valid() && bitsLeft + 8 <= WordBits(wide)
      ensures k == |segment.data| ==>
                var x := Low(Scale(getBuffer, 8) + 0xFF, WordBits(wide));
                BitsOf(getBuffer, bitsLeft) <= BitsOf(ClearLowByte(x), bitsLeft + 8) && Ahead() == BitsOf(getBuffer, bitsLeft)
    {
      hide BitsOf, Low, Scale, DataBits, CleanRest;
      if k == |segment.data| {
        LowByteCleared(getBuffer, WordBits(wide));
        BitsAppend(getBuffer, bitsLeft, 0, 8);
        LowBits(Scale(getBuffer, 8), WordBits(wide), bitsLeft + 8);
        assert segment.data[k..] == [];
        NoData();
      }
    }

    // FILL_BIT_BUFFER_FAST
    method Fill()
      requires Valid() && InBudget()
      modifies `getBuffer, `bitsLeft, `buffer, `unreadMarker, `k
      ensures Valid() && 16 <= bitsLeft
    {
      hide Valid;
      if bitsLeft <= 16 {
        for i := 0 to if wide then 6 else 2
          invariant Valid() && InBudget() && bitsLeft == old(bitsLeft) + 8 * i
        {
          GetByte();
        }
      }
    }

    // PEEK_BITS
    function PeekBits(nbits: nat): nat
      requires nbits <= bitsLeft
      reads `getBuffer, `bitsLeft
    {
      Low(Shr(getBuffer, bitsLeft - nbits), nbits)
    }

    lemma Peeked(nbits: nat)
      requires Valid() && nbits <= bitsLeft
      ensures nbits <= |Ahead()| && PeekBits(nbits) == Num(Ahead()[..nbits])
      ensures BitsOf(getBuffer, bitsLeft - nbits) + DataBits(segment.data[k..]) == Ahead()[nbits..]
      ensures unused <= Ahead() && (nbits <= |unused| ==> unused[..nbits] == Ahead()[..nbits])
    {
      hide Num, DataBits, CleanRest, Shr;
      BitsPrefix(getBuffer, nbits, bitsLeft - nbits);
      var s := BitsOf(getBuffer, bitsLeft);
      assert Ahead()[..nbits] == s[..nbits];
      assert Ahead()[nbits..] == s[nbits..] + DataBits(segment.data[k..]);
    }

    // DROP_BITS
    method DropBits(nbits: nat)
      requires Valid() && nbits <= bitsLeft && nbits <= |unused|
      modifies `bitsLeft, `unused
      ensures Valid() && unused == old(unused)[nbits..] && bitsLeft == old(bitsLeft) - nbits
    {
      hide DataBits, CleanRest, PeekBits;
      Peeked(nbits);
      bitsLeft := bitsLeft - nbits;
      unused := unused[nbits..];
    }

    // GET_BITS
    method GetBits(nbits: nat) returns (v: nat)
      requires Valid() && nbits <= bitsLeft && nbits <= |unused|
      modifies `bitsLeft, `unused
      ensures Valid() && unused == old(unused)[nbits..] && bitsLeft == old(bitsLeft) - nbits
      ensures v == Num(old(unused)[..nbits])
    {
      hide Valid;
      Peeked(nbits);
      v := PeekBits(nbits);
      DropBits(nbits);
    }
  }

  lemma RestLength(s: Segment, k: nat)
    requires k <= |s.data|
    ensures |CleanRest(s, k)| >= 2
  {
  }

  // Clearing the byte that was loaded leaves what loading zeros would have.
  lemma LowByteCleared(g: nat, w: nat)
    requires w == 64 || w == 32
    ensures ClearLowByte(Low(Scale(g, 8) + 0xFF, w)) == Low(Scale(g, 8), w)
  {
    hide BitsOf, Num, Scale;
    LowByte(g, w, 0xFF);
    LowByte(g, w, 0);
  }

  lemma LowByte(g: nat, w: nat, c: Byte)
    requires w == 64 || w == 32
    ensures Low(Scale(g, 8) + c, w) == 0x100 * Low(g, w - 8) + c
  {
    hide BitsOf, Num, Scale;
    EightBits(c);
    BitsAppend(g, w - 8, c, 8);
    NumAppend(BitsOf(g, w - 8), BitsOf(c, 8));
    NumOf(c, 8);
    ScaleValues(Num(BitsOf(g, w - 8)));
  }

  // ----- Symbols -----

  // Code word p has the number that the table computes from its value.
  lemma OffsetOf(h: HuffTable, t: DecoderTable, p: nat)
    requires Decodes(h, t) && p < Words(h.bits, 17)
    ensures p < SYMBOLS && CodeOf(h.bits, p) + t.valoffset[SizeOf(h.bits, p)] == p
  {
    hide Words, Sizes, Looked, Space, CodeOf, SizeOf;
    WordsBeforeAt(h.bits, p);
    WordsFit(h.bits);
  }

  // Supplied zeros behind a code word do not matter.
  lemma StartsFurther(h: HuffTable, p: nat, s: Bits, more: Bits)
    requires TableShape(h) && Starts(h, p, s) && s <= more
    ensures Starts(h, p, more)
  {
    var l := SizeOf(h.bits, p);
    assert s == more[..|s|] && more[..|s|][..l] == more[..l];
  }

  // The lookahead table's entry for the next eight bits, some of which may be supplied zeros
  method LookFast(f: FastReader, t: DecoderTable, ghost h: HuffTable, ghost p: nat) returns (s: nat)
    requires f.Valid() && 16 <= f.bitsLeft && Decodes(h, t) && TableShape(h) && Starts(h, p, f.unused)
    ensures p < SYMBOLS
    ensures if SizeOf(h.bits, p) <= HUFF_LOOKAHEAD then s / LOOKUP_SIZE == SizeOf(h.bits, p) && s % LOOKUP_SIZE == h.huffval[p]
            else s / LOOKUP_SIZE == 9
  {
    hide Decodes, Space, Words, SizeOf, CodeOf, FastReader.Valid, FastReader.Ahead, Num, Starts;
    f.Peeked(HUFF_LOOKAHEAD);
    StartsFurther(h, p, f.unused, f.Ahead());
    LookedUp(h, t, p, f.Ahead());
    TableSizes(h, t);
    LookupSize(h, t);
    EntryParts(h, p);
    s := t.lookup[f.PeekBits(HUFF_LOOKAHEAD)];
  }

  lemma LookupSize(h: HuffTable, t: DecoderTable)
    requires Decodes(h, t)
    ensures |t.lookup| == LOOKUP_SIZE
  {
  }

  // HUFF_DECODE_FAST on data that starts with code word p
  method DecodeFast(f: FastReader, t: DecoderTable, ghost h: HuffTable, ghost p: nat) returns (s: nat)
    requires f.Valid() && f.InBudget() && Decodes(h, t) && TableShape(h) && Starts(h, p, f.unused)
    modifies f
    ensures f.Valid() && p < SYMBOLS && s == h.huffval[p]
    ensures SizeOf(h.bits, p) <= |old(f.unused)| && f.unused == old(f.unused)[SizeOf(h.bits, p)..]
  {
    hide Decodes, Space, Words, SizeOf, CodeOf, FastReader.Valid, FastReader.Ahead, Num, Starts, Low, Shr;
    TableSizes(h, t);
    ghost var u := f.unused;
    StartsLength(h, p, u);
    CodeValue(h, p, u);
    f.Fill();
    s := LookFast(f, t, h, p);
    f.Peeked(s / LOOKUP_SIZE);
    var nb := s / LOOKUP_SIZE;
    f.DropBits(nb);
    s := s % LOOKUP_SIZE;
    if nb > HUFF_LOOKAHEAD {
      s := DecodeLong(f, t, nb, h, p, u);
    }
  }

  // The rest of a code word of which the first nb0 bits have been dropped
  method DecodeLong(f: FastReader, t: DecoderTable, nb0: nat, ghost h: HuffTable, ghost p: nat, ghost u: Bits)
    returns (s: nat)
    requires f.Valid() && Decodes(h, t) && TableShape(h) && Starts(h, p, u)
    requires 1 <= nb0 <= SizeOf(h.bits, p) && f.unused == u[nb0..] && 16 <= f.bitsLeft + nb0
    requires Low(Shr(f.getBuffer, f.bitsLeft), nb0) == Num(u[..nb0])
    modifies f
    ensures f.Valid() && p < SYMBOLS && s == h.huffval[p] && f.unused == u[SizeOf(h.bits, p)..]
  {
    hide Decodes, Space, Words, SizeOf, CodeOf, FastReader.Valid, FastReader.Ahead, Num, Starts, Low, Shr;
    TableSizes(h, t);
    StartsLength(h, p, u);
    CodeValue(h, p, u);
    var nb := nb0;
    s := Low(Shr(f.getBuffer, f.bitsLeft), nb);
    ghost var size := SizeOf(h.bits, p);
    LongerExceeds(h, t, p, u, nb);
    while s > t.maxcode[nb]
      invariant f.Valid() && 1 <= nb <= size && s == Num(u[..nb])
      invariant f.unused == u[nb..] && 16 <= f.bitsLeft + nb
      invariant s > t.maxcode[nb] <==> nb < size
      decreases size - nb
    {
      NextNum(u, nb);
      var bit := f.GetBits(1);
      s := 2 * s + bit;
      nb := nb + 1;
      LongerExceeds(h, t, p, u, nb);
    }
    OffsetOf(h, t, p);
    s := t.huffval[(s + t.valoffset[nb]) % 0x100];
  }

  lemma NextNum(s: Bits, n: nat)
    requires n < |s|
    ensures Num(s[..n + 1]) == 2 * Num(s[..n]) + Num(s[n..][..1]) && s[n..][1..] == s[n + 1..]
  {
    assert s[..n + 1] == s[..n] + s[n..][..1];
    NumAppend(s[..n], s[n..][..1]);
    DoubleScale(Num(s[..n]));
  }

  lemma CodeValue(h: HuffTable, p: nat, s: Bits)
    requires TableShape(h) && Starts(h, p, s)
    ensures p < Words(h.bits, 17) && Num(s[..SizeOf(h.bits, p)]) == CodeOf(h.bits, p)
  {
  }

  // A symbol that comes next
  method TakeSymbolFast(f: FastReader, t: DecoderTable, ghost h: HuffTable, ghost e: EncoderTable, ghost sym: nat, ghost tail: Bits)
    returns (sym': nat)
    requires f.Valid() && f.InBudget() && Decodes(h, t) && Encodes(h, e) && EncoderShape(e) && sym < SYMBOLS
    requires e.ehufsi[sym] > 0 && f.unused == Symbol(e, sym, tail)
    modifies f
    ensures f.Valid() && sym' == sym && f.unused == tail
  {
    hide Decodes, Encodes, Symbol, FastReader.Valid, FastReader.InBudget, Starts, SizeOf;
    ghost var p := SymbolStarts(h, e, sym, tail);
    sym' := DecodeFast(f, t, h, p);
  }

  // The bits of a value and its sign extension
  method TakeValueFast(f: FastReader, n: nat, ghost v: int, ghost tail: Bits) returns (v': int)
    requires f.Valid() && f.InBudget() && n <= 16 && v != 0 && n == NBits(Abs(v)) && f.unused == BitsOf(Extra(v), n) + tail
    modifies f
    ensures f.Valid() && v' == v && f.unused == tail
  {
    hide FastReader.Valid, BitsOf, NBits, Num;
    assert f.unused[..n] == BitsOf(Extra(v), n) && f.unused[n..] == tail;
    NumOf(Extra(v), n);
    ExtendExtra(v);
    f.Fill();
    var x := f.GetBits(n);
    v' := Extend(x, n);
  }

  // ----- Blocks -----

  // There is room for the bits before the tail.
  predicate Room(length: nat, blocks: nat, tail: Bits) {
    length <= |tail| + BLOCK_BITS * blocks
  }

  lemma RoomBefore(f: FastReader, x: Bits, tail: Bits)
    requires Room(f.length, f.blocks, tail) && |f.unused| >= |tail|
    ensures f.InBudget()
  {
  }

  // The coefficients below k have been stored.
  ghost predicate FastAt(f: FastReader, s: Scan, e: EncoderTable, block: Block, was: Block, row: Block, k: nat, tail: Bits)
    reads f
  {
    && ScanOk(s) && ModeOf(s) == Sequential && EncoderShape(e) && AcInRange(s, block) && ZerosKnown(s, block, was)
    && 1 <= k <= DCTSIZE2 && row == Updated(s, block, was, k)
    && AcCoded(s, e, block, k, 0) && f.unused == AcBits(s, e, block, k, 0, tail)
  }

  lemma FastBudget(f: FastReader, s: Scan, e: EncoderTable, block: Block, was: Block, row: Block, k: nat, tail: Bits)
    requires FastAt(f, s, e, block, was, row, k, tail) && Room(f.length, f.blocks, tail)
    ensures f.InBudget()
  {
    hide AcBits, AcCoded, ZerosKnown, Updated, AcInRange;
    AcTail(s, e, block, k, 0, tail);
  }

  // One symbol of the AC coefficients and the value behind it
  method DecodeAcAtFast(f: FastReader, s: Scan, t: DecoderTable, planes: array<Block>, b: nat, k: nat, ghost h: HuffTable,
                        ghost e: EncoderTable, ghost block: Block, ghost was: Block, ghost tail: Bits)
    returns (done: bool, k': nat)
    requires f.Valid() && Decodes(h, t) && Encodes(h, e) && b < planes.Length && 1 <= k < DCTSIZE2
    requires FastAt(f, s, e, block, was, planes[b], k, tail) && Room(f.length, f.blocks, tail)
    modifies f, planes
    ensures f.Valid() && planes[..] == old(planes[..])[b := planes[b]] && k < k'
    ensures if done then f.unused == tail && planes[b] == Updated(s, block, was, DCTSIZE2)
            else FastAt(f, s, e, block, was, planes[b], k', tail)
  {
    hide FastReader.Valid, FastReader.InBudget, Decodes, Encodes, Symbol, TablesOk, ZerosKnown, AcBits, AcCoded, AtZigzag, NBits,
      Extra, Updated, Level, AcInRange, Room;
    ghost var n := NextNonzero(s, block, k);
    NextBits(s, e, block, k, tail);
    ZerosStored(s, block, was, k, n);
    FastBudget(f, s, e, block, was, planes[b], k, tail);
    var sym := TakeSymbolFast(f, t, h, e, NextSymbol(s, block, k), BitsBehind(s, e, block, k, tail));
    var run, size := sym / 16, sym % 16;
    if size != 0 {
      k' := k + run;
      ghost var v := AtZigzag(s, block, n);
      ghost var rest := AcBits(s, e, block, n + 1, 0, tail);
      AcTail(s, e, block, n + 1, 0, tail);
      RoomBefore(f, [], tail);
      var v' := TakeValueFast(f, size, v, rest);
      planes[b] := planes[b][NaturalOrder(s, k') := Wrap16(v')];
      ValueStored(s, block, was, k, n);
      k', done := k' + 1, false;
    } else {
      if n < DCTSIZE2 {
        ZerosStored(s, block, was, k, k + 16);
      }
      k', done := k + 16, run != 15;
    }
  }

  method DecodeAcFast(f: FastReader, s: Scan, t: DecoderTable, planes: array<Block>, b: nat, ghost h: HuffTable,
                      ghost e: EncoderTable, ghost block: Block, ghost was: Block, ghost tail: Bits)
    requires f.Valid() && Decodes(h, t) && Encodes(h, e) && b < planes.Length && ScanOk(s) && ModeOf(s) == Sequential
    requires FastAt(f, s, e, block, was, planes[b], 1, tail) && Room(f.length, f.blocks, tail)
    modifies f, planes
    ensures f.Valid() && planes[..] == old(planes[..])[b := planes[b]]
    ensures f.unused == tail && planes[b] == Updated(s, block, was, DCTSIZE2)
  {
    hide FastReader.Valid, Decodes, Encodes, FastAt, Updated, Room;
    var k, done := 1, false;
    while k < DCTSIZE2 && !done
      invariant f.Valid() && planes[..] == old(planes[..])[b := planes[b]] && 1 <= k
      invariant !done ==> FastAt(f, s, e, block, was, planes[b], k, tail)
      invariant done ==> f.unused == tail && planes[b] == Updated(s, block, was, DCTSIZE2)
      decreases !done, DCTSIZE2 - k
    {
      done, k := DecodeAcAtFast(f, s, t, planes, b, k, h, e, block, was, tail);
    }
    if !done {
      FastAtEnd(f, s, e, block, was, planes[b], k, tail);
    }
  }

  lemma FastAtEnd(f: FastReader, s: Scan, e: EncoderTable, block: Block, was: Block, row: Block, k: nat, tail: Bits)
    requires FastAt(f, s, e, block, was, row, k, tail) && DCTSIZE2 <= k
    ensures f.unused == tail && row == Updated(s, block, was, DCTSIZE2)
  {
    hide Updated;
  }

  method DecodeDcFast(f: FastReader, t: DecoderTable, ghost h: HuffTable, ghost e: EncoderTable, ghost diff: int, ghost tail: Bits)
    returns (diff': int)
    requires f.Valid() && Decodes(h, t) && Encodes(h, e) && EncoderShape(e) && InRange(diff) && HasDcCode(e, diff)
    requires f.unused == DcBits(e, diff, tail) && Room(f.length, f.blocks, tail)
    modifies f
    ensures f.Valid() && diff' == diff && f.unused == tail
  {
    hide FastReader.Valid, FastReader.InBudget, Decodes, Encodes, Symbol, BitsOf, NBits, Extra, Room;
    RangeBits(diff);
    ghost var behind := BitsOf(Extra(diff), NBits(Abs(diff))) + tail;
    SymbolLength(e, NBits(Abs(diff)), behind);
    RoomBefore(f, [], tail);
    diff' := TakeSymbolFast(f, t, h, e, NBits(Abs(diff)), behind);
    NoBits(diff, tail);
    if diff' != 0 {
      RoomBefore(f, [], tail);
      diff' := TakeValueFast(f, diff', diff, tail);
    }
  }

  lemma SymbolLength(e: EncoderTable, sym: nat, tail: Bits)
    requires EncoderShape(e) && sym < SYMBOLS
    ensures |Symbol(e, sym, tail)| >= |tail|
  {
  }

  // One block into row b
  method DecodeBlockFast(f: FastReader, s: Scan, d: Decoders, planes: array<Block>, b: nat, lastDc: int,
                         ghost t: Tables, ghost block: Block, ghost last: Coef, ghost tail: Bits)
    returns (lastDc': int)
    requires f.Valid() && TablesMatch(t) && d == DecodersOf(t) && ScanOk(s) && ModeOf(s) == Sequential && b < planes.Length
    requires BlockCoded(s, t.dcEncoder, t.acEncoder, block, last) && lastDc == last && ZerosKnown(s, block, planes[b])
    requires f.unused == BlockBits(s, t.dcEncoder, t.acEncoder, block, last, tail) && Room(f.length, f.blocks, tail)
    modifies f, planes
    ensures f.Valid() && planes[..] == old(planes[..])[b := planes[b]]
    ensures lastDc' == block[0] && f.unused == tail && planes[b] == BlockResult(s, block, old(planes[b]))
  {
    hide FastReader.Valid, Decodes, AcBits, AcCoded, AtZigzag, Updated, AcInRange, ZerosKnown, OrderOk, TablesOk, DcBits, HasDcCode,
      WithDc, Room, SymbolsUpTo;
    ghost var was := planes[b];
    ghost var ac := AcBits(s, t.acEncoder, block, 1, 0, tail);
    AcTail(s, t.acEncoder, block, 1, 0, tail);
    RoomMore(f.length, f.blocks, ac, tail);
    var diff := DecodeDcFast(f, d.dc, t.dcTable, t.dcEncoder, block[0] - last, ac);
    lastDc' := lastDc + diff;
    planes[b] := planes[b][0 := Wrap16(lastDc')];
    ghost var withDc := WithDc(s, block, was);
    ZerosWithDc(s, block, was);
    FirstRow(s, block, was);
    DecodeAcFast(f, s, d.ac, planes, b, t.acTable, t.acEncoder, block, withDc, tail);
  }

  lemma RoomMore(length: nat, blocks: nat, more: Bits, tail: Bits)
    requires Room(length, blocks, tail) && |more| >= |tail|
    ensures Room(length, blocks, more)
  {
  }

  // Hand the state back to the ordinary reader.
  method SaveState(f: FastReader, r: BitReader)
    requires f.Valid() && r.Valid() && f.unreadMarker == 0 && r.unreadMarker == 0 && r.clean
    requires f.segment == r.segment && f.source == r.rest && f.wide == r.wide
    modifies r`rest, r`getBuffer, r`bitsLeft, r`k
    ensures r.Valid() && r.Ahead() == f.unused
  {
    hide DataBits, BitsOf, Stuff, ReadSegment;
    r.rest := r.rest[f.buffer..];
    r.getBuffer, r.bitsLeft, r.k := f.getBuffer, f.bitsLeft, f.k;
    ReadStuffed(f.segment.data[f.k..], [0xFF, f.segment.marker] + f.segment.after);
    ReadMarker(f.segment.marker, f.segment.after);
    assert f.segment.data[f.k..] + [] == f.segment.data[f.k..];
  }
}
