// Sequential Huffman coding of blocks (sections F.1.2 and F.2.2 of ITU-T T.81): the bits that
// encode_one_block (jchuff.c) puts are those that decode_mcu_slow (jdhuff.c) takes.
module HuffmanBlock {
  import opened Arithmetic
  import opened BitFields
  import opened BitStrings
  import opened ArithScan
  import opened PointTransform
  import opened HuffmanLimit
  import opened HuffmanGen
  import opened HuffmanCode
  import opened HuffmanTables
  import opened HuffmanDecode
  import opened HuffmanWriter
  import opened HuffmanReader
  import opened HuffmanSymbol

  // ----- Magnitudes -----

  // Number of bits of a magnitude
  function NBits(a: nat): (n: nat)
    ensures a < Scale(1, n) && (a > 0 ==> n > 0 && Scale(1, n - 1) <= a)
  {
    if a == 0 then 0 else 1 + NBits(a / 2)
  }

  lemma {:induction false} NBitsBound(a: nat, n: nat)
    requires a < Scale(1, n)
    ensures NBits(a) <= n
    decreases n
  {
    if a > 0 && n > 0 {
      NBitsBound(a / 2, n - 1);
    }
  }

  // The bits behind the symbol: v, or the complement of its magnitude if it is negative
  function Extra(v: int): (x: nat)
    ensures x < Scale(1, NBits(Abs(v)))
  {
    if v >= 0 then v else Scale(1, NBits(-v)) - 1 + v
  }

  // HUFF_EXTEND (figure F.12)
  function Extend(x: nat, s: nat): int
    requires s > 0
  {
    if x < Scale(1, s - 1) then x + 1 - Scale(1, s) else x
  }

  lemma ExtendExtra(v: int)
    requires v != 0
    ensures NBits(Abs(v)) > 0 && Extend(Extra(v), NBits(Abs(v))) == v
  {
    var n := NBits(Abs(v));
    assert Scale(1, n) == 2 * Scale(1, n - 1);
  }

  // ----- The bits of a block -----

  predicate EncoderShape(t: EncoderTable) {
    |t.ehufco| == |t.ehufsi| == SYMBOLS
  }

  // No code word has more than 16 bits.
  predicate SizesOk(t: EncoderTable) {
    EncoderShape(t) && forall sym :: 0 <= sym < SYMBOLS ==> t.ehufsi[sym] <= 16
  }

  lemma EncodesSizes(h: HuffTable, t: EncoderTable)
    requires Encodes(h, t)
    ensures SizesOk(t)
  {
    forall sym | 0 <= sym < SYMBOLS
      ensures t.ehufsi[sym] <= 16
    {
      if t.ehufsi[sym] > 0 {
        var p := SymbolCode(h, t, sym);
      }
    }
  }

  function Symbol(t: EncoderTable, sym: nat, tail: Bits): Bits
    requires EncoderShape(t) && sym < SYMBOLS
  {
    BitsOf(t.ehufco[sym], t.ehufsi[sym]) + tail
  }

  // Values whose magnitude has at most 15 bits
  predicate InRange(v: int) {
    -0x8000 < v < 0x8000
  }

  lemma RangeBits(v: int)
    requires InRange(v)
    ensures NBits(Abs(v)) <= 15
  {
    ScaleValues(1);
    assert Scale(1, 15) == 16 * Scale(1, 11);
    NBitsBound(Abs(v), 15);
  }

  predicate AcInRange(s: Scan, block: Block)
    requires |s.order| == DCTSIZE2
  {
    forall k :: 1 <= k < DCTSIZE2 ==> InRange(AtZigzag(s, block, k))
  }

  function DcBits(t: EncoderTable, diff: int, tail: Bits): Bits
    requires EncoderShape(t) && InRange(diff)
  {
    RangeBits(diff);
    Symbol(t, NBits(Abs(diff)), BitsOf(Extra(diff), NBits(Abs(diff))) + tail)
  }

  function RunSize(r: nat, v: int): (sym: nat)
    requires r <= 15 && InRange(v)
    ensures sym < SYMBOLS && sym / 16 == r && sym % 16 == NBits(Abs(v))
  {
    RangeBits(v);
    16 * r + NBits(Abs(v))
  }

  // The AC coefficients from position k on, after r zeros
  function AcBits(s: Scan, t: EncoderTable, block: Block, k: nat, r: nat, tail: Bits): Bits
    requires EncoderShape(t) && |s.order| == DCTSIZE2 && AcInRange(s, block) && 1 <= k <= DCTSIZE2
    decreases DCTSIZE2 - k, r
  {
    if k == DCTSIZE2 then (if r > 0 then Symbol(t, 0, tail) else tail)
    else
      var v := AtZigzag(s, block, k);
      if v == 0 then AcBits(s, t, block, k + 1, r + 1, tail)
      else if r > 15 then Symbol(t, 0xF0, AcBits(s, t, block, k, r - 16, tail))
      else
        Symbol(t, RunSize(r, v), BitsOf(Extra(v), NBits(Abs(v))) + AcBits(s, t, block, k + 1, 0, tail))
  }

  // All symbols that these coefficients need have code words.
  predicate AcCoded(s: Scan, t: EncoderTable, block: Block, k: nat, r: nat)
    requires EncoderShape(t) && |s.order| == DCTSIZE2 && AcInRange(s, block) && 1 <= k <= DCTSIZE2
    decreases DCTSIZE2 - k, r
  {
    if k == DCTSIZE2 then r > 0 ==> t.ehufsi[0] > 0
    else
      var v := AtZigzag(s, block, k);
      if v == 0 then AcCoded(s, t, block, k + 1, r + 1)
      else if r > 15 then t.ehufsi[0xF0] > 0 && AcCoded(s, t, block, k, r - 16)
      else t.ehufsi[RunSize(r, v)] > 0 && AcCoded(s, t, block, k + 1, 0)
  }

  lemma {:induction false} AcTail(s: Scan, t: EncoderTable, block: Block, k: nat, r: nat, tail: Bits)
    requires EncoderShape(t) && |s.order| == DCTSIZE2 && AcInRange(s, block) && 1 <= k <= DCTSIZE2
    ensures AcBits(s, t, block, k, r, tail) == AcBits(s, t, block, k, r, []) + tail
    decreases DCTSIZE2 - k, r
  {
    hide BitsOf, AtZigzag, Extra, NBits, AcInRange;
    if k < DCTSIZE2 {
      var v := AtZigzag(s, block, k);
      if v == 0 {
        AcTail(s, t, block, k + 1, r + 1, tail);
      } else if r > 15 {
        AcTail(s, t, block, k, r - 16, tail);
      } else {
        AcTail(s, t, block, k + 1, 0, tail);
      }
    }
  }

  // Zeros only add to the run.
  lemma {:induction false} AcZeros(s: Scan, t: EncoderTable, block: Block, k: nat, k': nat, r: nat, tail: Bits)
    requires EncoderShape(t) && |s.order| == DCTSIZE2 && AcInRange(s, block) && 1 <= k <= k' <= DCTSIZE2
    requires forall i :: k <= i < k' ==> AtZigzag(s, block, i) == 0
    ensures AcBits(s, t, block, k, r, tail) == AcBits(s, t, block, k', r + (k' - k), tail)
    ensures AcCoded(s, t, block, k, r) == AcCoded(s, t, block, k', r + (k' - k))
    decreases k' - k
  {
    hide AtZigzag, AcInRange;
    if k < k' {
      AcZeros(s, t, block, k + 1, k', r + 1, tail);
    }
  }

  // ----- Pending bits -----

  // The number of bits that are pending after a DC difference
  function DcPending(wide: bool, t: EncoderTable, diff: int, p: nat): nat
    requires EncoderShape(t) && InRange(diff)
  {
    RangeBits(diff);
    AfterBits(wide, AfterBits(wide, p, t.ehufsi[NBits(Abs(diff))]), NBits(Abs(diff)))
  }

  // ... and after the AC coefficients from position k on, after r zeros
  function AcPending(wide: bool, s: Scan, t: EncoderTable, block: Block, k: nat, r: nat, p: nat): nat
    requires EncoderShape(t) && |s.order| == DCTSIZE2 && AcInRange(s, block) && 1 <= k <= DCTSIZE2
    decreases DCTSIZE2 - k, r
  {
    if k == DCTSIZE2 then (if r > 0 then AfterBits(wide, p, t.ehufsi[0]) else p)
    else
      var v := AtZigzag(s, block, k);
      if v == 0 then AcPending(wide, s, t, block, k + 1, r + 1, p)
      else if r > 15 then AcPending(wide, s, t, block, k, r - 16, AfterBits(wide, p, t.ehufsi[0xF0]))
      else AcPending(wide, s, t, block, k + 1, 0, AfterCode(wide, p, t.ehufsi[RunSize(r, v)], NBits(Abs(v))))
  }

  function BlockPending(wide: bool, s: Scan, dc: EncoderTable, ac: EncoderTable, block: Block, lastDc: Coef, p: nat): nat
    requires BlockCoded(s, dc, ac, block, lastDc)
  {
    AcPending(wide, s, ac, block, 1, 0, DcPending(wide, dc, block[0] - lastDc, p))
  }

  // Values of at most 10 bits and an end-of-block code of at most 10 bits
  predicate Modest(s: Scan, t: EncoderTable, block: Block)
    requires EncoderShape(t) && |s.order| == DCTSIZE2
  {
    t.ehufsi[0] <= 10 && forall k :: 1 <= k < DCTSIZE2 ==> NBits(Abs(AtZigzag(s, block, k))) <= 10
  }

  // ... leave few enough bits pending for the flush of a word of 64 bits.
  lemma {:induction false} ModestPending(s: Scan, t: EncoderTable, block: Block, k: nat, r: nat, p: nat)
    requires SizesOk(t) && |s.order| == DCTSIZE2 && AcInRange(s, block) && 1 <= k <= DCTSIZE2 && Modest(s, t, block)
    requires p <= 63 && (k == DCTSIZE2 && r == 0 ==> p <= 57)
    ensures AcPending(true, s, t, block, k, r, p) <= 57
    decreases DCTSIZE2 - k, r
  {
    hide AtZigzag, NBits, RunSize;
    if k < DCTSIZE2 {
      var v := AtZigzag(s, block, k);
      if v == 0 {
        ModestPending(s, t, block, k + 1, r + 1, p);
      } else if r > 15 {
        ModestPending(s, t, block, k, r - 16, AfterBits(true, p, t.ehufsi[0xF0]));
      } else {
        AcValueBits(s, block, k);
        hide AcInRange;
        ModestPending(s, t, block, k + 1, 0, AfterCode(true, p, t.ehufsi[RunSize(r, v)], NBits(Abs(v))));
      }
    }
  }

  lemma NarrowBits(p: nat, size: nat, nbits: nat)
    requires p <= 15 && size <= 16 && nbits <= 16
    ensures AfterBits(false, p, size) <= 15 && AfterCode(false, p, size, nbits) <= 15
  {
  }

  // A word of 32 bits is emptied further.
  lemma {:induction false} NarrowPending(s: Scan, t: EncoderTable, block: Block, k: nat, r: nat, p: nat)
    requires SizesOk(t) && |s.order| == DCTSIZE2 && AcInRange(s, block) && 1 <= k <= DCTSIZE2 && p <= 15
    ensures AcPending(false, s, t, block, k, r, p) <= 15
    decreases DCTSIZE2 - k, r
  {
    hide AtZigzag, NBits, RunSize, AfterBits, AfterCode;
    NarrowBits(p, t.ehufsi[0], 0);
    if k < DCTSIZE2 {
      var v := AtZigzag(s, block, k);
      if v == 0 {
        NarrowPending(s, t, block, k + 1, r + 1, p);
      } else if r > 15 {
        NarrowBits(p, t.ehufsi[0xF0], 0);
        NarrowPending(s, t, block, k, r - 16, AfterBits(false, p, t.ehufsi[0xF0]));
      } else {
        AcValueBits(s, block, k);
        NarrowBits(p, t.ehufsi[RunSize(r, v)], NBits(Abs(v)));
        hide AcInRange;
        NarrowPending(s, t, block, k + 1, 0, AfterCode(false, p, t.ehufsi[RunSize(r, v)], NBits(Abs(v))));
      }
    }
  }

  lemma AcValueBits(s: Scan, block: Block, k: nat)
    requires |s.order| == DCTSIZE2 && AcInRange(s, block) && 1 <= k < DCTSIZE2
    ensures InRange(AtZigzag(s, block, k)) && NBits(Abs(AtZigzag(s, block, k))) <= 15
  {
    RangeBits(AtZigzag(s, block, k));
  }

  lemma DcNarrowPending(t: EncoderTable, diff: int, p: nat)
    requires SizesOk(t) && InRange(diff) && p <= 15
    ensures DcPending(false, t, diff, p) <= 15
  {
    RangeBits(diff);
  }

  lemma DcWidePending(t: EncoderTable, diff: int, p: nat)
    requires SizesOk(t) && InRange(diff) && p <= 63
    ensures DcPending(true, t, diff, p) <= 63
  {
    RangeBits(diff);
  }

  // ----- Encoding -----

  lemma SymbolCode(h: HuffTable, t: EncoderTable, sym: nat) returns (p: nat)
    requires Encodes(h, t) && sym < SYMBOLS && t.ehufsi[sym] > 0
    ensures p < Words(h.bits, 17) && h.huffval[p] == sym
    ensures t.ehufsi[sym] == SizeOf(h.bits, p) <= 16 && t.ehufco[sym] == CodeOf(h.bits, p) < Scale(1, t.ehufsi[sym])
  {
    hide Words, Sizes, CodeOf, Space;
    assert sym in h.huffval[..Words(h.bits, 17)];
    p :| p < Words(h.bits, 17) && h.huffval[p] == sym;
    CodeFits(h.bits, p);
  }

  // Put the code word of a symbol.
  method EmitSymbol(w: BitWriter, t: EncoderTable, sym: nat, ghost h: HuffTable, ghost tail: Bits)
    requires w.Ready() && Encodes(h, t) && EncoderShape(t) && sym < SYMBOLS && t.ehufsi[sym] > 0
    modifies w
    ensures w.Ready() && w.before == old(w.before) && w.stream + tail == old(w.stream) + Symbol(t, sym, tail)
    ensures w.putBits == AfterBits(w.wide, old(w.putBits), t.ehufsi[sym])
  {
    hide BitWriter.Ready, Encodes, BitsOf, Scale;
    ghost var p := SymbolCode(h, t, sym);
    w.EmitBits(t.ehufco[sym], t.ehufsi[sym]);
    Associative(old(w.stream), BitsOf(t.ehufco[sym], t.ehufsi[sym]), tail);
  }

  // Put the code word of a symbol and the bits of a value of nbits bits.
  method EmitValue(w: BitWriter, t: EncoderTable, sym: nat, v: int, ghost h: HuffTable, ghost tail: Bits)
    requires w.Ready() && Encodes(h, t) && EncoderShape(t) && sym < SYMBOLS && t.ehufsi[sym] > 0 && InRange(v)
    modifies w
    ensures w.Ready() && w.before == old(w.before)
    ensures w.stream + tail == old(w.stream) + Symbol(t, sym, BitsOf(Extra(v), NBits(Abs(v))) + tail)
    ensures w.putBits == AfterCode(w.wide, old(w.putBits), t.ehufsi[sym], NBits(Abs(v)))
  {
    hide BitWriter.Ready, Encodes, BitsOf, Scale, NBits, Extra;
    RangeBits(v);
    ghost var p := SymbolCode(h, t, sym);
    var nbits := NBits(Abs(v));
    w.EmitCode(t.ehufco[sym], t.ehufsi[sym], Extra(v), nbits);
    var code := BitsOf(t.ehufco[sym], t.ehufsi[sym]);
    Associative(old(w.stream) + code, BitsOf(Extra(v), nbits), tail);
    Associative(old(w.stream), code, BitsOf(Extra(v), nbits) + tail);
  }

  // Put a DC difference.
  method EmitDc(w: BitWriter, t: EncoderTable, diff: int, ghost h: HuffTable, ghost tail: Bits)
    requires w.Ready() && Encodes(h, t) && EncoderShape(t) && InRange(diff) && HasDcCode(t, diff)
    modifies w
    ensures w.Ready() && w.before == old(w.before) && w.stream + tail == old(w.stream) + DcBits(t, diff, tail)
    ensures w.putBits == DcPending(w.wide, t, diff, old(w.putBits))
  {
    hide BitWriter.Ready, Encodes, BitsOf, Scale, NBits, Extra;
    RangeBits(diff);
    var nbits := NBits(Abs(diff));
    ghost var p := SymbolCode(h, t, nbits);
    w.EmitBits(t.ehufco[nbits], t.ehufsi[nbits]);
    w.EmitBits(Extra(diff), nbits);
    var code := BitsOf(t.ehufco[nbits], t.ehufsi[nbits]);
    Associative(old(w.stream) + code, BitsOf(Extra(diff), nbits), tail);
    Associative(old(w.stream), code, BitsOf(Extra(diff), nbits) + tail);
  }

  // Run lengths of more than 15 zeros
  method EmitLongRun(w: BitWriter, s: Scan, t: EncoderTable, block: Block, k: nat, r0: nat, ghost h: HuffTable,
                     ghost tail: Bits)
    returns (r: nat)
    requires w.Ready() && Encodes(h, t) && EncoderShape(t) && |s.order| == DCTSIZE2 && AcInRange(s, block)
    requires 1 <= k < DCTSIZE2 && AtZigzag(s, block, k) != 0 && AcCoded(s, t, block, k, r0)
    modifies w
    ensures w.Ready() && w.before == old(w.before) && r <= 15 && AcCoded(s, t, block, k, r)
    ensures w.stream + AcBits(s, t, block, k, r, tail) == old(w.stream) + AcBits(s, t, block, k, r0, tail)
    ensures AcPending(w.wide, s, t, block, k, r, w.putBits) == AcPending(w.wide, s, t, block, k, r0, old(w.putBits))
  {
    hide BitWriter.Ready, Encodes, Symbol, AtZigzag, AcInRange, NBits, Extra, RunSize, AfterBits, AfterCode;
    r := r0;
    while r > 15
      invariant w.Ready() && w.before == old(w.before) && AcCoded(s, t, block, k, r)
      invariant AcPending(w.wide, s, t, block, k, r, w.putBits) == AcPending(w.wide, s, t, block, k, r0, old(w.putBits))
      invariant w.stream + AcBits(s, t, block, k, r, tail) == old(w.stream) + AcBits(s, t, block, k, r0, tail)
    {
      EmitSymbol(w, t, 0xF0, h, AcBits(s, t, block, k, r - 16, tail));
      r := r - 16;
    }
  }

  // One position: a zero, or a coefficient with the zeros before it
  method EncodeAcAt(w: BitWriter, s: Scan, t: EncoderTable, block: Block, k: nat, r0: nat, ghost h: HuffTable,
                    ghost tail: Bits)
    returns (r: nat)
    requires w.Ready() && Encodes(h, t) && EncoderShape(t) && |s.order| == DCTSIZE2 && AcInRange(s, block)
    requires 1 <= k < DCTSIZE2 && AcCoded(s, t, block, k, r0)
    modifies w
    ensures w.Ready() && w.before == old(w.before) && AcCoded(s, t, block, k + 1, r)
    ensures w.stream + AcBits(s, t, block, k + 1, r, tail) == old(w.stream) + AcBits(s, t, block, k, r0, tail)
    ensures AcPending(w.wide, s, t, block, k + 1, r, w.putBits) == AcPending(w.wide, s, t, block, k, r0, old(w.putBits))
  {
    hide BitWriter.Ready, Encodes, Symbol, AtZigzag, NBits, Extra, AfterBits, AfterCode;
    var v := AtZigzag(s, block, k);
    if v == 0 {
      r := r0 + 1;
    } else {
      r := EmitLongRun(w, s, t, block, k, r0, h, tail);
      EmitValue(w, t, RunSize(r, v), v, h, AcBits(s, t, block, k + 1, 0, tail));
      r := 0;
    }
  }

  method EncodeAc(w: BitWriter, s: Scan, t: EncoderTable, block: Block, ghost h: HuffTable, ghost tail: Bits)
    requires w.Ready() && Encodes(h, t) && EncoderShape(t) && |s.order| == DCTSIZE2 && AcInRange(s, block)
    requires AcCoded(s, t, block, 1, 0)
    modifies w
    ensures w.Ready() && w.before == old(w.before)
    ensures w.stream + tail == old(w.stream) + AcBits(s, t, block, 1, 0, tail)
    ensures w.putBits == AcPending(w.wide, s, t, block, 1, 0, old(w.putBits))
  {
    hide BitWriter.Ready, Encodes, Symbol, AtZigzag, NBits, Extra, AcInRange, RunSize, AfterBits, AfterCode;
    var r := 0;
    for k := 1 to DCTSIZE2
      invariant w.Ready() && w.before == old(w.before) && AcCoded(s, t, block, k, r)
      invariant w.stream + AcBits(s, t, block, k, r, tail) == old(w.stream) + AcBits(s, t, block, 1, 0, tail)
      invariant AcPending(w.wide, s, t, block, k, r, w.putBits) == AcPending(w.wide, s, t, block, 1, 0, old(w.putBits))
    {
      r := EncodeAcAt(w, s, t, block, k, r, h, tail);
    }
    if r > 0 {
      EmitSymbol(w, t, 0, h, tail);
    }
  }

  // encode_one_block
  method EncodeOneBlock(w: BitWriter, s: Scan, dc: EncoderTable, ac: EncoderTable, block: Block, lastDc: Coef,
                        ghost hdc: HuffTable, ghost hac: HuffTable, ghost tail: Bits)
    requires w.Ready() && Encodes(hdc, dc) && Encodes(hac, ac) && BlockCoded(s, dc, ac, block, lastDc)
    modifies w
    ensures w.Ready() && w.before == old(w.before)
    ensures w.stream + tail == old(w.stream) + BlockBits(s, dc, ac, block, lastDc, tail)
    ensures w.putBits == BlockPending(w.wide, s, dc, ac, block, lastDc, old(w.putBits))
  {
    hide BitWriter.Ready, Encodes, Symbol, AtZigzag, NBits, Extra, AcInRange, AcBits, AcCoded, AcPending, DcPending;
    var diff := block[0] - lastDc;
    RangeBits(diff);
    EmitDc(w, dc, diff, hdc, AcBits(s, ac, block, 1, 0, tail));
    EncodeAc(w, s, ac, block, hac, tail);
  }

  predicate HasDcCode(t: EncoderTable, diff: int)
    requires EncoderShape(t) && InRange(diff)
  {
    RangeBits(diff);
    t.ehufsi[NBits(Abs(diff))] > 0
  }

  // The block is in range and all its symbols have code words.
  predicate BlockCoded(s: Scan, dc: EncoderTable, ac: EncoderTable, block: Block, lastDc: Coef) {
    && EncoderShape(dc) && EncoderShape(ac) && |s.order| == DCTSIZE2
    && AcInRange(s, block) && InRange(block[0] - lastDc)
    && HasDcCode(dc, block[0] - lastDc) && AcCoded(s, ac, block, 1, 0)
  }

  function BlockBits(s: Scan, dc: EncoderTable, ac: EncoderTable, block: Block, lastDc: Coef, tail: Bits): Bits
    requires BlockCoded(s, dc, ac, block, lastDc)
  {
    DcBits(dc, block[0] - lastDc, AcBits(s, ac, block, 1, 0, tail))
  }

  // ----- Decoding -----

  // The first nonzero position from k on, or 64
  function NextNonzero(s: Scan, block: Block, k: nat): (n: nat)
    requires |s.order| == DCTSIZE2 && k <= DCTSIZE2
    ensures k <= n <= DCTSIZE2 && (n < DCTSIZE2 ==> AtZigzag(s, block, n) != 0)
    ensures forall i :: k <= i < n ==> AtZigzag(s, block, i) == 0
    decreases DCTSIZE2 - k
  {
    if k == DCTSIZE2 || AtZigzag(s, block, k) != 0 then k else NextNonzero(s, block, k + 1)
  }

  // The symbol that comes next at position k, and the bits behind its code word
  function NextSymbol(s: Scan, block: Block, k: nat): (sym: nat)
    requires |s.order| == DCTSIZE2 && AcInRange(s, block) && 1 <= k < DCTSIZE2
    ensures sym < SYMBOLS
  {
    var n := NextNonzero(s, block, k);
    if n == DCTSIZE2 then 0 else if n - k > 15 then 0xF0 else RunSize(n - k, AtZigzag(s, block, n))
  }

  function BitsBehind(s: Scan, t: EncoderTable, block: Block, k: nat, tail: Bits): Bits
    requires EncoderShape(t) && |s.order| == DCTSIZE2 && AcInRange(s, block) && 1 <= k < DCTSIZE2
  {
    var n := NextNonzero(s, block, k);
    if n == DCTSIZE2 then tail
    else if n - k > 15 then AcBits(s, t, block, k + 16, 0, tail)
    else
      var v := AtZigzag(s, block, n);
      BitsOf(Extra(v), NBits(Abs(v))) + AcBits(s, t, block, n + 1, 0, tail)
  }

  lemma NextBits(s: Scan, t: EncoderTable, block: Block, k: nat, tail: Bits)
    requires EncoderShape(t) && |s.order| == DCTSIZE2 && AcInRange(s, block) && 1 <= k < DCTSIZE2
    requires AcCoded(s, t, block, k, 0)
    ensures AcBits(s, t, block, k, 0, tail) == Symbol(t, NextSymbol(s, block, k), BitsBehind(s, t, block, k, tail))
    ensures t.ehufsi[NextSymbol(s, block, k)] > 0
    ensures var n := NextNonzero(s, block, k);
            if n == DCTSIZE2 then true else if n - k > 15 then AcCoded(s, t, block, k + 16, 0) else AcCoded(s, t, block, n + 1, 0)
  {
    hide AtZigzag, AcInRange, Symbol, Extra, NBits;
    var n := NextNonzero(s, block, k);
    AcZeros(s, t, block, k, n, 0, tail);
    if n < DCTSIZE2 && n - k > 15 {
      AcZeros(s, t, block, k + 16, n, 0, tail);
    }
  }

  // The code word of a symbol starts the bits, and what follows it remains.
  lemma SymbolStarts(h: HuffTable, t: EncoderTable, sym: nat, tail: Bits) returns (p: nat)
    requires Encodes(h, t) && EncoderShape(t) && sym < SYMBOLS && t.ehufsi[sym] > 0
    ensures TableShape(h) && Starts(h, p, Symbol(t, sym, tail)) && h.huffval[p] == sym
    ensures Symbol(t, sym, tail)[SizeOf(h.bits, p)..] == tail
  {
    hide Words, SizeOf, CodeOf, BitsOf;
    p := SymbolCode(h, t, sym);
    var code := BitsOf(t.ehufco[sym], t.ehufsi[sym]);
    NumOf(t.ehufco[sym], t.ehufsi[sym]);
    assert (code + tail)[..t.ehufsi[sym]] == code;
  }

  // Take a symbol that is known to come next.
  method TakeSymbol(r: BitReader, t: DecoderTable, ghost h: HuffTable, ghost e: EncoderTable, ghost sym: nat, ghost tail: Bits)
    returns (sym': nat)
    requires r.Valid() && Decodes(h, t) && Encodes(h, e) && EncoderShape(e) && sym < SYMBOLS
    modifies r
    ensures r.Valid() && sym' < SYMBOLS && (TableShape(h) && SymbolsUpTo(h, 15) ==> sym' <= 15)
    ensures e.ehufsi[sym] > 0 && old(r.Ahead()) == Symbol(e, sym, tail) ==>
              sym' == sym && r.Ahead() == tail && Calm(r, old(r.warnings), old(r.insufficientData))
  {
    hide Decodes, Encodes, Symbol, BitReader.Ahead, BitReader.Valid, Starts, SizeOf;
    ghost var p := 0;
    if e.ehufsi[sym] > 0 {
      p := SymbolStarts(h, e, sym, tail);
    }
    sym' := HuffDecode(r, t, h, p);
  }

  // Nothing has gone wrong.
  ghost predicate Calm(r: BitReader, warnings: nat, insufficient: bool)
    reads r
  {
    r.warnings == warnings && r.insufficientData == insufficient
  }

  // The bits of a value and its sign extension
  method TakeValue(r: BitReader, n: nat, ghost v: int, ghost tail: Bits) returns (v': int)
    requires r.Valid() && 0 < n <= 16
    modifies r
    ensures r.Valid()
    ensures v != 0 && n == NBits(Abs(v)) && old(r.Ahead()) == BitsOf(Extra(v), n) + tail ==>
              v' == v && r.Ahead() == tail && Calm(r, old(r.warnings), old(r.insufficientData))
  {
    hide BitReader.Ahead, BitReader.Valid, BitsOf, NBits, Num;
    ghost var ahead := r.Ahead();
    var x, bits := TakeBits(r, n);
    v' := Extend(x, n);
    if v != 0 && n == NBits(Abs(v)) && ahead == BitsOf(Extra(v), n) + tail {
      assert ahead[..n] == BitsOf(Extra(v), n) && ahead[n..] == tail;
      NumOf(Extra(v), n);
      ExtendExtra(v);
    }
  }

  // The zigzag order with the extra entries that catch runs past the end of a block
  function NaturalOrder(s: Scan, k: nat): (i: nat)
    requires OrderOk(s.order)
    ensures i < DCTSIZE2
  {
    if k < DCTSIZE2 then s.order[k] else 63
  }

  // Where the block has zeros, so has the row that it is decoded into.
  ghost predicate ZerosKnown(s: Scan, block: Block, was: Block)
    requires ScanOk(s)
  {
    forall k :: 1 <= k < DCTSIZE2 && AtZigzag(s, block, k) == 0 ==> was[s.order[k]] == 0
  }

  lemma ZerosWithDc(s: Scan, block: Block, was: Block)
    requires ScanOk(s) && ZerosKnown(s, block, was)
    ensures ZerosKnown(s, block, WithDc(s, block, was))
  {
    hide AtZigzag;
  }

  // The decoder has stored the coefficients below k in row b and is to go on with the others.
  ghost predicate AtPosition(r: BitReader, s: Scan, e: EncoderTable, block: Block, was: Block, row: Block, k: nat,
                             tail: Bits, warnings: nat, insufficient: bool)
    reads r
  {
    && ScanOk(s) && ModeOf(s) == Sequential && EncoderShape(e) && AcInRange(s, block) && ZerosKnown(s, block, was)
    && 1 <= k <= DCTSIZE2 && row == Updated(s, block, was, k)
    && AcCoded(s, e, block, k, 0) && r.Ahead() == AcBits(s, e, block, k, 0, tail) && Calm(r, warnings, insufficient)
  }

  // Zeros need not be stored.
  lemma {:induction false} ZerosStored(s: Scan, block: Block, was: Block, k: nat, n: nat)
    requires ScanOk(s) && ModeOf(s) == Sequential && ZerosKnown(s, block, was) && 1 <= k <= n <= DCTSIZE2
    requires forall i :: k <= i < n ==> AtZigzag(s, block, i) == 0
    ensures Updated(s, block, was, n) == Updated(s, block, was, k)
    decreases n
  {
    hide Level, AtZigzag;
    if k < n {
      ZerosStored(s, block, was, k, n - 1);
      UpdatedBeyond(s, block, was, n - 1, n - 1);
      FullLevel(s, block, n - 1);
    }
  }

  lemma ValueStored(s: Scan, block: Block, was: Block, k: nat, n: nat)
    requires ScanOk(s) && ModeOf(s) == Sequential && ZerosKnown(s, block, was) && 1 <= k <= n < DCTSIZE2
    requires forall i :: k <= i < n ==> AtZigzag(s, block, i) == 0
    ensures Updated(s, block, was, n + 1) == Updated(s, block, was, k)[s.order[n] := AtZigzag(s, block, n)]
  {
    hide ZerosKnown, AcLevel, Level;
    ZerosStored(s, block, was, k, n);
    FullLevel(s, block, n);
  }

  // Figure F.13: one symbol of the AC coefficients; done at the end of the block
  method DecodeAcAt(r: BitReader, s: Scan, t: DecoderTable, planes: array<Block>, b: nat, k: nat, ghost h: HuffTable,
                    ghost e: EncoderTable, ghost block: Block, ghost was: Block, ghost tail: Bits)
    returns (done: bool, k': nat)
    requires r.Valid() && Decodes(h, t) && Encodes(h, e) && EncoderShape(e) && ScanOk(s) && b < planes.Length
    requires 1 <= k < DCTSIZE2
    modifies r, planes
    ensures r.Valid() && planes[..] == old(planes[..])[b := planes[b]] && k < k'
    ensures old(AtPosition(r, s, e, block, was, planes[b], k, tail, r.warnings, r.insufficientData)) ==>
              if done then
                && r.Ahead() == tail && Calm(r, old(r.warnings), old(r.insufficientData))
                && planes[b] == Updated(s, block, was, DCTSIZE2)
              else AtPosition(r, s, e, block, was, planes[b], k', tail, r.warnings, r.insufficientData)
                   && Calm(r, old(r.warnings), old(r.insufficientData))
  {
    hide BitReader.Valid, BitReader.Ahead, Decodes, Encodes, Symbol, TablesOk, ZerosKnown, AcBits, AcCoded, AtZigzag, NBits,
      Extra, Updated, Level, AcInRange;
    ghost var good := AtPosition(r, s, e, block, was, planes[b], k, tail, r.warnings, r.insufficientData);
    ghost var n := NextNonzero(s, block, k);
    if good {
      NextBits(s, e, block, k, tail);
      ZerosStored(s, block, was, k, n);
    }
    var sym := TakeSymbol(r, t, h, e, if good then NextSymbol(s, block, k) else 0,
      if good then BitsBehind(s, e, block, k, tail) else []);
    var run, size := sym / 16, sym % 16;
    if size != 0 {
      k' := k + run;
      var v := TakeValue(r, size, if good && n < DCTSIZE2 then AtZigzag(s, block, n) else 0,
        if good && n < DCTSIZE2 then AcBits(s, e, block, n + 1, 0, tail) else []);
      planes[b] := planes[b][NaturalOrder(s, k') := Wrap16(v)];
      if good {
        ValueStored(s, block, was, k, n);
      }
      k', done := k' + 1, false;
    } else {
      if good && n < DCTSIZE2 && n - k > 15 {
        ZerosStored(s, block, was, k, k + 16);
      }
      k', done := k + 16, run != 15;
    }
  }

  // The AC coefficients, into row b
  method DecodeAc(r: BitReader, s: Scan, t: DecoderTable, planes: array<Block>, b: nat, ghost h: HuffTable,
                  ghost e: EncoderTable, ghost block: Block, ghost was: Block, ghost tail: Bits)
    requires r.Valid() && Decodes(h, t) && Encodes(h, e) && EncoderShape(e) && ScanOk(s) && b < planes.Length
    requires ModeOf(s) == Sequential
    modifies r, planes
    ensures r.Valid() && planes[..] == old(planes[..])[b := planes[b]]
    ensures old(AtPosition(r, s, e, block, was, planes[b], 1, tail, r.warnings, r.insufficientData)) ==>
              && r.Ahead() == tail && Calm(r, old(r.warnings), old(r.insufficientData))
              && planes[b] == Updated(s, block, was, DCTSIZE2)
  {
    hide BitReader.Valid, BitReader.Ahead, Decodes, Encodes, TablesOk, OrderOk, ZerosKnown, AcCoded, AtZigzag, Updated, AcInRange,
      AtPosition;
    ghost var w, x := r.warnings, r.insufficientData;
    ghost var good := AtPosition(r, s, e, block, was, planes[b], 1, tail, w, x);
    var k, done := 1, false;
    while k < DCTSIZE2 && !done
      invariant r.Valid() && planes[..] == old(planes[..])[b := planes[b]] && 1 <= k
      invariant good ==> Calm(r, w, x)
      invariant good && !done ==> AtPosition(r, s, e, block, was, planes[b], k, tail, r.warnings, r.insufficientData)
      invariant good && done ==> r.Ahead() == tail && planes[b] == Updated(s, block, was, DCTSIZE2)
      decreases !done, DCTSIZE2 - k
    {
      done, k := DecodeAcAt(r, s, t, planes, b, k, h, e, block, was, tail);
    }
    if good && !done {
      AtEndOfBlock(r, s, e, block, was, planes[b], k, tail, r.warnings, r.insufficientData);
    }
  }

  lemma AtEndOfBlock(r: BitReader, s: Scan, e: EncoderTable, block: Block, was: Block, row: Block, k: nat,
                     tail: Bits, warnings: nat, insufficient: bool)
    requires AtPosition(r, s, e, block, was, row, k, tail, warnings, insufficient) && DCTSIZE2 <= k
    ensures r.Ahead() == tail && Calm(r, warnings, insufficient) && row == Updated(s, block, was, DCTSIZE2)
  {
    hide BitReader.Ahead, Updated;
  }

  // The tables of a component, on both sides
  datatype Tables = Tables(
    dcTable: HuffTable, dcEncoder: EncoderTable, dcDecoder: DecoderTable,
    acTable: HuffTable, acEncoder: EncoderTable, acDecoder: DecoderTable)

  // What the decoder uses of them
  datatype Decoders = Decoders(dc: DecoderTable, ac: DecoderTable)

  function DecodersOf(t: Tables): Decoders {
    Decoders(t.dcDecoder, t.acDecoder)
  }

  ghost predicate TablesMatch(t: Tables) {
    && Encodes(t.dcTable, t.dcEncoder) && Decodes(t.dcTable, t.dcDecoder) && SymbolsUpTo(t.dcTable, 15)
    && Encodes(t.acTable, t.acEncoder) && Decodes(t.acTable, t.acDecoder)
  }

  // The DC difference
  method DecodeDcDifference(r: BitReader, t: DecoderTable, ghost h: HuffTable, ghost e: EncoderTable, ghost diff: int,
                            ghost tail: Bits)
    returns (diff': int)
    requires r.Valid() && Decodes(h, t) && Encodes(h, e) && EncoderShape(e) && TableShape(h) && SymbolsUpTo(h, 15) && InRange(diff)
    modifies r
    ensures r.Valid()
    ensures HasDcCode(e, diff) && old(r.Ahead()) == DcBits(e, diff, tail) ==>
              diff' == diff && r.Ahead() == tail && Calm(r, old(r.warnings), old(r.insufficientData))
  {
    hide BitReader.Valid, BitReader.Ahead, Decodes, Encodes, Symbol, BitsOf, NBits, Extra;
    RangeBits(diff);
    var size := TakeSymbol(r, t, h, e, NBits(Abs(diff)), BitsOf(Extra(diff), NBits(Abs(diff))) + tail);
    diff' := 0;
    NoBits(diff, tail);
    if size != 0 {
      diff' := TakeValue(r, size, diff, tail);
    }
  }

  lemma NoBits(diff: int, tail: Bits)
    ensures NBits(Abs(diff)) == 0 <==> diff == 0
    ensures diff == 0 ==> BitsOf(Extra(diff), NBits(Abs(diff))) + tail == tail
  {
  }

  // One block, into row b
  method DecodeOneBlock(r: BitReader, s: Scan, d: Decoders, planes: array<Block>, b: nat, lastDc: int,
                        ghost t: Tables, ghost block: Block, ghost last: Coef, ghost tail: Bits)
    returns (lastDc': int)
    requires r.Valid() && TablesMatch(t) && d == DecodersOf(t) && ScanOk(s) && ModeOf(s) == Sequential && b < planes.Length
    requires BlockCoded(s, t.dcEncoder, t.acEncoder, block, last)
    modifies r, planes
    ensures r.Valid() && planes[..] == old(planes[..])[b := planes[b]]
    ensures old(r.Ahead()) == BlockBits(s, t.dcEncoder, t.acEncoder, block, last, tail) && lastDc == last
            && ZerosKnown(s, block, old(planes[b])) ==>
              && lastDc' == block[0] && r.Ahead() == tail && Calm(r, old(r.warnings), old(r.insufficientData))
              && planes[b] == BlockResult(s, block, old(planes[b]))
  {
    hide BitReader.Valid, BitReader.Ahead, Decodes, AcBits, AcCoded, AtZigzag, Updated, AcInRange, ZerosKnown,
      OrderOk, TablesOk, DcBits, HasDcCode, WithDc, SymbolsUpTo;
    ghost var was := planes[b];
    var diff := DecodeDcDifference(r, d.dc, t.dcTable, t.dcEncoder, block[0] - last,
      AcBits(s, t.acEncoder, block, 1, 0, tail));
    lastDc' := lastDc + diff;
    planes[b] := planes[b][0 := Wrap16(lastDc')];
    ghost var withDc := WithDc(s, block, was);
    if ZerosKnown(s, block, was) {
      ZerosWithDc(s, block, was);
      FirstRow(s, block, was);
    }
    DecodeAc(r, s, d.ac, planes, b, t.acTable, t.acEncoder, block, withDc, tail);
  }

  lemma FirstRow(s: Scan, block: Block, was: Block)
    requires ScanOk(s) && ModeOf(s) == Sequential
    ensures WithDc(s, block, was) == was[0 := Wrap16(block[0])] && FirstAc(s) == 1
    ensures Updated(s, block, WithDc(s, block, was), 1) == WithDc(s, block, was)
  {
    UpdatedNone(s, block, WithDc(s, block, was));
  }
}
