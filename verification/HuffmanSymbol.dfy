// Decoding one Huffman symbol (HUFF_DECODE and jpeg_huff_decode in jdhuff.h and jdhuff.c).
module HuffmanSymbol {
  import opened Arithmetic
  import opened BitStrings
  import opened HuffmanLimit
  import opened HuffmanGen
  import opened HuffmanCode
  import opened HuffmanDecode
  import opened HuffmanReader

  // The bit string s starts with code word p.
  ghost predicate Starts(h: HuffTable, p: nat, s: Bits)
    requires TableShape(h)
  {
    p < Words(h.bits, 17) && SizeOf(h.bits, p) <= |s| && Num(s[..SizeOf(h.bits, p)]) == CodeOf(h.bits, p)
  }

  // No code word of fewer than l bits starts s: it is beyond all of them.
  ghost predicate Beyond(bits: seq<nat>, s: Bits, l: nat)
    requires |bits| == 17
  {
    l <= 17 && l <= |s| + 1 && forall k :: 1 <= k < l ==> Space(bits, k, k + 1) <= Num(s[..k])
  }

  lemma WordsBeforeAt(bits: seq<nat>, p: nat)
    requires |bits| == 17 && p < Words(bits, 17)
    ensures var l := SizeOf(bits, p);
            && Words(bits, l) <= p < Words(bits, l + 1) == Words(bits, l) + bits[l]
            && CodeOf(bits, p) == Space(bits, l, l) + (p - Words(bits, l))
  {
    WordsBefore(bits, p, 17);
    SpaceEnd(bits, SizeOf(bits, p));
  }

  // The beginnings of a code word are beyond all shorter words.
  lemma LongBeyond(h: HuffTable, p: nat, s: Bits, l: nat)
    requires TableShape(h) && Starts(h, p, s) && 1 <= l < SizeOf(h.bits, p)
    ensures Space(h.bits, l, l + 1) <= Num(s[..l])
  {
    hide Sizes, Words, Space, Num;
    var m := SizeOf(h.bits, p);
    WordsBeforeAt(h.bits, p);
    SpaceScaled(h.bits, l, m);
    NumPrefix(s, l, m);
    if Num(s[..l]) < Space(h.bits, l, l + 1) {
      ScaleMonotonic(Num(s[..l]) + 1, Space(h.bits, l, l + 1), m - l);
    }
  }

  // While the code word is longer, its beginnings exceed the greatest code of their length.
  lemma LongerExceeds(h: HuffTable, t: DecoderTable, p: nat, s: Bits, l: nat)
    requires Decodes(h, t) && Starts(h, p, s) && 1 <= l <= SizeOf(h.bits, p)
    ensures Num(s[..l]) > t.maxcode[l] <==> l < SizeOf(h.bits, p)
  {
    hide Words, Sizes, Looked, Space, Num, CodeOf;
    WordsBeforeAt(h.bits, p);
    if l < SizeOf(h.bits, p) {
      LongBeyond(h, p, s, l);
    } else {
      CodeFits(h.bits, p);
    }
  }

  // One more bit
  lemma BeyondNext(h: HuffTable, t: DecoderTable, s: Bits, l: nat)
    requires Decodes(h, t) && 1 <= l <= 16 && l <= |s| && Beyond(h.bits, s, l) && Num(s[..l]) > t.maxcode[l]
    ensures Beyond(h.bits, s, l + 1)
  {
    hide Words, Looked;
    SpaceEnd(h.bits, l);
    if h.bits[l] == 0 {
      SpaceHalf(h.bits, l, l);
      if l > 1 {
        NumPrefix(s, l - 1, l);
        assert Scale(Num(s[..l - 1]), 1) == 2 * Num(s[..l - 1]);
      } else {
        assert Space(h.bits, 1, 1) == 0;
      }
    }
  }

  // A bit string that does not exceed the greatest code of its length, but all shorter
  // ones, is the code word that the table gives.
  lemma Found(h: HuffTable, t: DecoderTable, s: Bits, l: nat)
    requires Decodes(h, t) && 1 <= l <= 16 && l <= |s| && Beyond(h.bits, s, l) && Num(s[..l]) <= t.maxcode[l]
    ensures var i := Num(s[..l]) + t.valoffset[l];
            && 0 <= i < Words(h.bits, 17) <= SYMBOLS && Starts(h, i, s) && SizeOf(h.bits, i) == l
  {
    hide Sizes, Looked, Words, Space;
    SpaceEnd(h.bits, l);
    SpaceHalf(h.bits, l, l);
    StartSpace(h.bits);
    if l > 1 {
      NumPrefix(s, l - 1, l);
      assert Scale(Num(s[..l - 1]), 1) == 2 * Num(s[..l - 1]);
    }
    var i := Num(s[..l]) + t.valoffset[l];
    WordsGrow(h.bits, l + 1, 17);
    WordsFit(h.bits);
    CodeAt(h.bits, i, l);
  }

  lemma StartSpace(bits: seq<nat>)
    requires |bits| == 17
    ensures Space(bits, 1, 1) == 0
  {
  }

  // At most one code word starts a bit string.
  lemma OneStarts(h: HuffTable, p: nat, q: nat, s: Bits)
    requires TableShape(h) && Starts(h, p, s) && Starts(h, q, s)
    ensures p == q
  {
    hide CodeOf, SizeOf, Words;
    if p < q {
      CodeOrder(h.bits, p, q);
      NumPrefix(s, SizeOf(h.bits, p), SizeOf(h.bits, q));
    } else if q < p {
      CodeOrder(h.bits, q, p);
      NumPrefix(s, SizeOf(h.bits, q), SizeOf(h.bits, p));
    }
  }

  // ----- The lookahead -----

  lemma LookedUp(h: HuffTable, t: DecoderTable, p: nat, s: Bits)
    requires Decodes(h, t) && Starts(h, p, s) && 8 <= |s|
    ensures p < Words(h.bits, 17) <= SYMBOLS
    ensures var x := Num(s[..8]);
            && x < LOOKUP_SIZE
            && if SizeOf(h.bits, p) <= HUFF_LOOKAHEAD then t.lookup[x] == Entry(h, p) else t.lookup[x] == TOO_LONG
  {
    hide Sequential, Sizes, Words;
    var x, l := Num(s[..8]), SizeOf(h.bits, p);
    NumBound(s[..8]);
    ScaleValues(1);
    WordsFit(h.bits);
    if l <= HUFF_LOOKAHEAD {
      NumPrefix(s, l, 8);
      ShortIndex(h.bits, p);
      assert Begins(h.bits, p, x);
    } else {
      LongBeyond(h, p, s, HUFF_LOOKAHEAD);
    }
  }

  lemma ShortIndex(bits: seq<nat>, p: nat)
    requires |bits| == 17 && p < Words(bits, 17) && SizeOf(bits, p) <= HUFF_LOOKAHEAD
    ensures p < Words(bits, 9)
  {
    WordsBeforeAt(bits, p);
    WordsGrow(bits, SizeOf(bits, p) + 1, 9);
  }

  // Anything the lookahead table does not know is beyond all short code words.
  ghost predicate NotShort(h: HuffTable, s: Bits)
    requires TableShape(h)
  {
    8 <= |s| && Space(h.bits, 8, 9) <= Num(s[..8])
  }

  lemma TooLongBeyond(h: HuffTable, s: Bits)
    requires TableShape(h) && NotShort(h, s)
    ensures Beyond(h.bits, s, 9)
  {
    hide Words, Space, Num;
    forall k | 1 <= k < 9
      ensures Space(h.bits, k, k + 1) <= Num(s[..k])
    {
      if k < 8 {
        SpaceScaled(h.bits, k, 9);
        NumPrefix(s, k, 8);
        if Num(s[..k]) < Space(h.bits, k, k + 1) {
          ScaleMonotonic(Num(s[..k]) + 1, Space(h.bits, k, k + 1), 8 - k);
        }
      }
    }
  }

  // ----- Decoding -----

  lemma StartsLength(h: HuffTable, p: nat, s: Bits)
    requires TableShape(h) && Starts(h, p, s)
    ensures 1 <= SizeOf(h.bits, p) <= |s| && SizeOf(h.bits, p) <= 16
  {
  }

  lemma FirstBeyond(h: HuffTable, ahead: Bits, s: Bits, l: nat)
    requires TableShape(h) && |s| == l && (l == 1 || (l == 9 && NotShort(h, ahead)))
    requires forall i :: 0 <= i < l && i < |ahead| ==> s[i] == ahead[i]
    ensures Beyond(h.bits, s, l)
  {
    hide Space, Num;
    if l == 9 {
      TooLongBeyond(h, ahead);
      forall k | 1 <= k < 9
        ensures s[..k] == ahead[..k]
      {
      }
    }
  }

  lemma TableSizes(h: HuffTable, t: DecoderTable)
    requires Decodes(h, t)
    ensures TableShape(h) && |t.maxcode| == |t.valoffset| == 18 && t.huffval == h.huffval
  {
  }

  // At 17 bits the sentinel ends the search.
  lemma SentinelStops(h: HuffTable, t: DecoderTable, s: Bits)
    requires Decodes(h, t) && |s| <= 17 && |t.maxcode| == 18
    ensures |s| == 17 ==> Num(s) <= t.maxcode[17]
  {
    NumBound(s);
    ScaleValues(1);
    assert Scale(1, 17) == 2 * Scale(1, 16);
  }

  lemma BeyondExtends(bits: seq<nat>, s: Bits, b: Bits, l: nat)
    requires |bits| == 17 && Beyond(bits, s, l)
    ensures Beyond(bits, s + b, l)
  {
    hide Space, Num;
    forall k | 1 <= k < l
      ensures (s + b)[..k] == s[..k]
    {
    }
  }

  lemma FoundIsStart(h: HuffTable, p: nat, ahead: Bits, i: nat, l: nat)
    requires TableShape(h) && Starts(h, p, ahead) && l <= |ahead| && Starts(h, i, ahead[..l]) && SizeOf(h.bits, i) == l
    ensures i == p
  {
    hide CodeOf, SizeOf, Words;
    assert ahead[..l][..l] == ahead[..l];
    OneStarts(h, p, i, ahead);
  }

  // The next bit of a code word that is not complete
  method NextBit(r: BitReader, ghost h: HuffTable, ghost t: DecoderTable, code: nat, ghost s: Bits)
    returns (code': nat, ghost s': Bits)
    requires r.Valid() && Decodes(h, t) && TableShape(h) && |t.maxcode| == 18
    requires 1 <= |s| <= 16 && code == Num(s) && Beyond(h.bits, s, |s|) && code > t.maxcode[|s|]
    modifies r
    ensures r.Valid() && |s'| == |s| + 1 && code' == Num(s') && Beyond(h.bits, s', |s'|) && s' == s + s'[|s|..]
    ensures |old(r.Ahead())| >= 1 ==>
              && s' == s + old(r.Ahead())[..1] && r.Ahead() == old(r.Ahead())[1..]
              && r.warnings == old(r.warnings) && r.insufficientData == old(r.insufficientData)
  {
    hide Decodes, Space, Beyond, BitReader.Ahead, BitReader.Valid, Num;
    assert s[..|s|] == s;
    BeyondNext(h, t, s, |s|);
    var bit, b := TakeBits(r, 1);
    BeyondExtends(h.bits, s, b, |s| + 1);
    NumAppend(s, b);
    DoubleScale(Num(s));
    code', s' := 2 * code + bit, s + b;
  }

  lemma DoubleScale(x: nat)
    ensures Scale(x, 1) == 2 * x
  {
  }

  // The reader is where decoding code word p, of which it has taken l bits, should be.
  ghost predicate Within(r: BitReader, ahead: Bits, s: Bits, warnings: nat, insufficient: bool)
    reads r
  {
    |s| <= |ahead| && s == ahead[..|s|] && r.Ahead() == ahead[|s|..] && r.warnings == warnings && r.insufficientData == insufficient
  }

  // No symbol of the table exceeds m.
  ghost predicate SymbolsUpTo(h: HuffTable, m: nat)
    requires TableShape(h)
  {
    forall p :: 0 <= p < Words(h.bits, 17) && p < SYMBOLS ==> h.huffval[p] <= m
  }

  // jpeg_huff_decode: decode a code word of at least minBits bits.  Data that starts with no
  // code word gives 0.
  method DecodeSlow(r: BitReader, t: DecoderTable, minBits: nat, ghost h: HuffTable, ghost p: nat) returns (sym: nat)
    requires r.Valid() && Decodes(h, t) && (minBits == 1 || (minBits == 9 && NotShort(h, r.Ahead())))
    modifies r
    ensures r.Valid() && sym < SYMBOLS && (SymbolsUpTo(h, 15) ==> sym <= 15)
    ensures Starts(h, p, old(r.Ahead())) && minBits <= SizeOf(h.bits, p) ==>
              && sym == h.huffval[p] && r.Ahead() == old(r.Ahead())[SizeOf(h.bits, p)..]
              && r.warnings == old(r.warnings) && r.insufficientData == old(r.insufficientData)
  {
    hide Decodes, Space, Words, SizeOf, CodeOf, Beyond, BitReader.Ahead, BitReader.Valid, Num, NotShort;
    TableSizes(h, t);
    ghost var ahead, w, x := r.Ahead(), r.warnings, r.insufficientData;
    ghost var good := Starts(h, p, ahead) && minBits <= SizeOf(h.bits, p);
    if good {
      StartsLength(h, p, ahead);
    }
    var l := minBits;
    var code, s := TakeBits(r, l);
    FirstBeyond(h, ahead, s, l);
    SentinelStops(h, t, s);
    while code > t.maxcode[l]
      invariant r.Valid() && 1 <= l <= 17 && |s| == l && code == Num(s) && Beyond(h.bits, s, l)
      invariant l == 17 ==> code <= t.maxcode[17]
      invariant good ==> l <= SizeOf(h.bits, p) && Within(r, ahead, s, w, x)
      decreases 17 - l
    {
      if good {
        LongerExceeds(h, t, p, ahead, l);
      }
      ghost var s0 := s;
      code, s := NextBit(r, h, t, code, s);
      l := l + 1;
      SentinelStops(h, t, s);
      if good {
        assert s0 + ahead[l - 1..][..1] == ahead[..l] && ahead[l - 1..][1..] == ahead[l..];
      }
    }
    if good {
      LongerExceeds(h, t, p, ahead, l);
    }
    if l > 16 {
      r.Warn();
      return 0;
    }
    assert s[..l] == s;
    Found(h, t, s, l);
    sym := t.huffval[code + t.valoffset[l]];
    if good {
      FoundIsStart(h, p, ahead, code + t.valoffset[l], l);
    }
  }

  // HUFF_DECODE: look the code word up, or decode it the slow way if it is longer than the
  // lookahead or the data nearly ends.
  method HuffDecode(r: BitReader, t: DecoderTable, ghost h: HuffTable, ghost p: nat) returns (sym: nat)
    requires r.Valid() && Decodes(h, t)
    modifies r
    ensures r.Valid() && sym < SYMBOLS && (SymbolsUpTo(h, 15) ==> sym <= 15)
    ensures Starts(h, p, old(r.Ahead())) ==>
              && sym == h.huffval[p] && r.Ahead() == old(r.Ahead())[SizeOf(h.bits, p)..]
              && r.warnings == old(r.warnings) && r.insufficientData == old(r.insufficientData)
  {
    hide Decodes, Space, Words, SizeOf, CodeOf, Beyond, BitReader.Ahead, BitReader.Valid, Num, Entry;
    TableSizes(h, t);
    ghost var ahead := r.Ahead();
    if Starts(h, p, ahead) {
      StartsLength(h, p, ahead);
    }
    if r.bitsLeft < HUFF_LOOKAHEAD {
      r.FillBitBuffer(0);
      if r.bitsLeft < HUFF_LOOKAHEAD {
        sym := DecodeSlow(r, t, 1, h, p);
        return;
      }
    }
    var look, nb := Look(r, t, h, p);
    if nb <= HUFF_LOOKAHEAD {
      r.DropBits(nb);
      sym := t.lookup[look] % LOOKUP_SIZE;
    } else {
      sym := DecodeSlow(r, t, 9, h, p);
    }
  }

  // The next eight bits and what the table knows about them
  method Look(r: BitReader, t: DecoderTable, ghost h: HuffTable, ghost p: nat) returns (look: nat, nb: nat)
    requires r.Valid() && Decodes(h, t) && HUFF_LOOKAHEAD <= r.bitsLeft && TableShape(h)
    ensures look < |t.lookup| && nb == t.lookup[look] / LOOKUP_SIZE
    ensures nb <= HUFF_LOOKAHEAD && SymbolsUpTo(h, 15) ==> t.lookup[look] % LOOKUP_SIZE <= 15
    ensures nb <= HUFF_LOOKAHEAD || (nb == 9 && NotShort(h, r.Ahead()))
    ensures Starts(h, p, r.Ahead()) ==>
              if nb <= HUFF_LOOKAHEAD then nb == SizeOf(h.bits, p) && t.lookup[look] % LOOKUP_SIZE == h.huffval[p]
              else 9 <= SizeOf(h.bits, p)
  {
    hide Sequential, Space, Words, SizeOf, CodeOf, Starts, Num, BitReader.Ahead, BitReader.Valid;
    r.Peeked(HUFF_LOOKAHEAD);
    look := r.PeekBits(HUFF_LOOKAHEAD);
    LookBound(r.Ahead());
    nb := t.lookup[look] / LOOKUP_SIZE;
    if Starts(h, p, r.Ahead()) {
      LookedUp(h, t, p, r.Ahead());
      EntryParts(h, p);
    }
    AllLooked(h, t, r.Ahead());
  }

  lemma LookBound(s: Bits)
    requires 8 <= |s|
    ensures Num(s[..8]) < LOOKUP_SIZE
  {
    NumBound(s[..8]);
    ScaleValues(1);
  }

  lemma EntryParts(h: HuffTable, p: nat)
    requires TableShape(h) && p < Words(h.bits, 17) <= SYMBOLS
    ensures Entry(h, p) / LOOKUP_SIZE == SizeOf(h.bits, p) && Entry(h, p) % LOOKUP_SIZE == h.huffval[p]
  {
  }

  // The code words of up to eight bits cover all bit strings below the longer ones.
  lemma AllLooked(h: HuffTable, t: DecoderTable, s: Bits)
    requires Decodes(h, t) && 8 <= |s|
    ensures var x := Num(s[..8]);
            && x < LOOKUP_SIZE
            && if t.lookup[x] / LOOKUP_SIZE <= HUFF_LOOKAHEAD then SymbolsUpTo(h, 15) ==> t.lookup[x] % LOOKUP_SIZE <= 15
               else t.lookup[x] == TOO_LONG && NotShort(h, s)
  {
    hide Sequential, Space, Words, SizeOf, CodeOf, Starts, Num, Sizes;
    var x := Num(s[..8]);
    LookBound(s);
    WordsFit(h.bits);
    if x < Space(h.bits, 8, 9) {
      var p := Covering(h.bits, x, 8);
      EntryParts(h, p);
      assert t.lookup[x] == Entry(h, p);
    }
  }

  // A bit string below the code words longer than l begins with one of the others.
  lemma {:induction false} Covering(bits: seq<nat>, x: nat, l: nat) returns (p: nat)
    requires Legal(bits) && 1 <= l <= 8 && x < Scale(Space(bits, l, l + 1), 8 - l)
    ensures p < Words(bits, l + 1) <= Words(bits, 9) <= Words(bits, 17) && Begins(bits, p, x)
  {
    hide Sizes, Words, Space;
    WordsGrow(bits, l + 1, 9);
    WordsGrow(bits, 9, 17);
    SpaceEnd(bits, l);
    SpaceHalf(bits, l, l);
    StartSpace(bits);
    if x < Scale(Space(bits, l, l), 8 - l) {
      ScaleDouble(Space(bits, l - 1, l), 8 - l);
      p := Covering(bits, x, l - 1);
    } else {
      p := CoveringAt(bits, x, l, bits[l]);
    }
  }

  lemma {:induction false} CoveringAt(bits: seq<nat>, x: nat, l: nat, i: nat) returns (p: nat)
    requires Legal(bits) && 1 <= l <= 8 && i <= bits[l] && Words(bits, l + 1) <= Words(bits, 17)
    requires Scale(Space(bits, l, l), 8 - l) <= x < Scale(Space(bits, l, l) + i, 8 - l)
    ensures p < Words(bits, l + 1) && Begins(bits, p, x)
    decreases i
  {
    hide Sizes, Words, Space, Scale, CodeOf, SizeOf;
    SpaceEnd(bits, l);
    if i > 0 && Scale(Space(bits, l, l) + (i - 1), 8 - l) <= x {
      p := Words(bits, l) + (i - 1);
      CodeAt(bits, p, l);
    } else {
      p := CoveringAt(bits, x, l, i - 1);
    }
  }
}
