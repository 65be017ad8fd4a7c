// The decoder's derived table (jpeg_make_d_derived_tbl in jdhuff.c) and how it finds the
// symbol whose code word begins a bit string.
module HuffmanDecode {
  import opened Arithmetic
  import opened HuffmanLimit
  import opened HuffmanGen
  import opened HuffmanCode
  import opened HuffmanTables

  const HUFF_LOOKAHEAD := 8
  const LOOKUP_SIZE := 256
  const TOO_LONG := 0x900 // the code is longer than HUFF_LOOKAHEAD bits
  const SENTINEL := 0xFFFFF

  datatype DecoderTable = DecoderTable(maxcode: seq<int>, valoffset: seq<int>, lookup: seq<nat>, huffval: seq<UInt8>)

  // ----- Tables for bit-sequential decoding (figure F.15) -----

  // Greatest code of each length and the distance from its codes to their symbols
  ghost predicate Sequential(bits: seq<nat>, maxcode: seq<int>, valoffset: seq<int>, n: nat) {
    && |bits| == 17 && |maxcode| == |valoffset| == 18 && n <= 17
    && forall l :: 1 <= l < n ==>
         if bits[l] > 0 then
           maxcode[l] == Space(bits, l, l + 1) - 1 && valoffset[l] == Words(bits, l) - Space(bits, l, l)
         else maxcode[l] == -1
  }

  lemma CodesOfLength(bits: seq<nat>, l: nat)
    requires |bits| == 17 && 1 <= l <= 16
    ensures Words(bits, l + 1) == Words(bits, l) + bits[l] <= Words(bits, 17)
    ensures bits[l] > 0 ==>
              && CodeOf(bits, Words(bits, l)) == Space(bits, l, l)
              && CodeOf(bits, Words(bits, l + 1) - 1) == Space(bits, l, l + 1) - 1
  {
    hide Sizes, Space, Words;
    SpaceEnd(bits, l);
    WordsGrow(bits, l + 1, 17);
    if bits[l] > 0 {
      CodeAt(bits, Words(bits, l), l);
      CodeAt(bits, Words(bits, l + 1) - 1, l);
    }
  }

  lemma CodeAt(bits: seq<nat>, p: nat, l: nat)
    requires |bits| == 17 && 1 <= l <= 16 && Words(bits, l) <= p < Words(bits, l + 1) <= Words(bits, 17)
    ensures SizeOf(bits, p) == l && CodeOf(bits, p) == Space(bits, l, l) + (p - Words(bits, l))
  {
    SizeAt(bits, p, l, 17);
  }

  lemma SequentialStep(bits: seq<nat>, maxcode: seq<int>, valoffset: seq<int>, l: nat, max: int, offset: int)
    requires Sequential(bits, maxcode, valoffset, l) && 1 <= l <= 16
    requires if bits[l] > 0 then max == Space(bits, l, l + 1) - 1 && offset == Words(bits, l) - Space(bits, l, l)
             else max == -1 && offset == valoffset[l]
    ensures Sequential(bits, maxcode[l := max], valoffset[l := offset], l + 1)
  {
    hide Space, Words;
  }

  method MakeSequential(bits: seq<UInt8>, huffcode: array<nat>) returns (maxcode: array<int>, valoffset: array<int>)
    requires |bits| == 17 && Words(bits, 17) <= SYMBOLS && huffcode.Length == SYMBOLS + 1
    requires Assigned(bits, huffcode[..], Words(bits, 17))
    ensures fresh(maxcode) && fresh(valoffset) && Sequential(bits, maxcode[..], valoffset[..], 17)
    ensures maxcode.Length == valoffset.Length == 18 && maxcode[17] == SENTINEL && valoffset[17] == 0
  {
    hide Words, Space, CodeOf, Sequential;
    maxcode, valoffset := new int[18](l => 0), new int[18](l => 0);
    var p := 0;
    NothingSequential(bits, maxcode[..], valoffset[..]);
    for l := 1 to 17
      invariant p == Words(bits, l) && p <= Words(bits, 17) && Sequential(bits, maxcode[..], valoffset[..], l)
    {
      CodesOfLength(bits, l);
      ghost var m, v := maxcode[..], valoffset[..];
      if bits[l] != 0 {
        valoffset[l] := p - huffcode[p];
        p := p + bits[l];
        maxcode[l] := huffcode[p - 1];
      } else {
        maxcode[l] := -1;
      }
      SequentialStep(bits, m, v, l, maxcode[l], valoffset[l]);
      assert maxcode[..] == m[l := maxcode[l]] && valoffset[..] == v[l := valoffset[l]];
    }
    SequentialSame(bits, maxcode[..], valoffset[..], SENTINEL);
    valoffset[17] := 0;
    maxcode[17] := SENTINEL;
  }

  // The sentinel does not matter to the lengths in use.
  lemma SequentialSame(bits: seq<nat>, maxcode: seq<int>, valoffset: seq<int>, sentinel: int)
    requires Sequential(bits, maxcode, valoffset, 17)
    ensures forall m, v :: |m| == |v| == 18 && m[..17] == maxcode[..17] && v[..17] == valoffset[..17] ==>
              Sequential(bits, m, v, 17)
  {
  }

  lemma NothingSequential(bits: seq<nat>, maxcode: seq<int>, valoffset: seq<int>)
    requires |bits| == 17 && |maxcode| == |valoffset| == 18
    ensures Sequential(bits, maxcode, valoffset, 1) && Words(bits, 1) == 0
  {
  }

  // ----- The lookahead table -----

  // The code word p begins the eight bits x.
  ghost predicate Begins(bits: seq<nat>, p: nat, x: nat)
    requires |bits| == 17 && p < Words(bits, 17)
  {
    var l := SizeOf(bits, p);
    l <= HUFF_LOOKAHEAD && Scale(CodeOf(bits, p), HUFF_LOOKAHEAD - l) <= x < Scale(CodeOf(bits, p) + 1, HUFF_LOOKAHEAD - l)
  }

  function Entry(h: HuffTable, p: nat): nat
    requires TableShape(h) && p < Words(h.bits, 17) <= SYMBOLS
  {
    LOOKUP_SIZE * SizeOf(h.bits, p) + h.huffval[p]
  }

  // Entries have been made for the first n code words, which cover the bit strings below end.
  ghost predicate Looked(h: HuffTable, lookup: seq<nat>, n: nat, end: nat) {
    && TableShape(h) && |lookup| == LOOKUP_SIZE && n <= Words(h.bits, 17) <= SYMBOLS
    && (forall p, x :: 0 <= p < n && 0 <= x < LOOKUP_SIZE && Begins(h.bits, p, x) ==> lookup[x] == Entry(h, p))
    && forall x :: end <= x < LOOKUP_SIZE ==> lookup[x] == TOO_LONG
  }

  // Where the entries of the code words of length l begin
  function LookupStart(bits: seq<nat>, l: nat, i: nat): nat
    requires |bits| == 17 && 1 <= l <= HUFF_LOOKAHEAD
  {
    Scale(Space(bits, l, l) + i, HUFF_LOOKAHEAD - l)
  }

  lemma LookupNext(bits: seq<nat>, l: nat)
    requires |bits| == 17 && 1 <= l < HUFF_LOOKAHEAD
    ensures LookupStart(bits, l, bits[l]) == LookupStart(bits, l + 1, 0)
  {
    SpaceEnd(bits, l);
    SpaceHalf(bits, l + 1, l + 1);
    ScaleDouble(Space(bits, l, l + 1), HUFF_LOOKAHEAD - l - 1);
  }

  // Code words fit the table, one after the other.
  lemma LookupFits(bits: seq<nat>, l: nat, i: nat)
    requires Legal(bits) && 1 <= l <= HUFF_LOOKAHEAD && i < bits[l]
    ensures LookupStart(bits, l, i) + Scale(1, HUFF_LOOKAHEAD - l) == LookupStart(bits, l, i + 1) <= LOOKUP_SIZE
  {
    hide Words;
    SpaceEnd(bits, l);
    ScaleAdd(Space(bits, l, l) + i, 1, HUFF_LOOKAHEAD - l);
    ScaleMonotonic(Space(bits, l, l) + i + 1, Scale(1, l), HUFF_LOOKAHEAD - l);
    ScaleSum(1, l, HUFF_LOOKAHEAD - l, HUFF_LOOKAHEAD);
    ScaleValues(1);
  }

  // Code words entered earlier begin smaller bit strings.
  lemma EarlierBegins(bits: seq<nat>, p: nat, q: nat, x: nat)
    requires |bits| == 17 && p < q < Words(bits, 17) && Begins(bits, p, x) && SizeOf(bits, q) <= HUFF_LOOKAHEAD
    ensures x < Scale(CodeOf(bits, q), HUFF_LOOKAHEAD - SizeOf(bits, q))
  {
    hide CodeOf, SizeOf;
    CodeOrder(bits, p, q);
    var l, m := SizeOf(bits, p), SizeOf(bits, q);
    ScaleMonotonic(Scale(CodeOf(bits, p) + 1, m - l), CodeOf(bits, q), HUFF_LOOKAHEAD - m);
    ScaleSum(CodeOf(bits, p) + 1, m - l, HUFF_LOOKAHEAD - m, HUFF_LOOKAHEAD - l);
  }

  // Make the entries for code word p.
  method FillEntries(ghost h: HuffTable, lookup: array<nat>, ghost p: nat, start: nat, count: nat, entry: nat)
    requires Looked(h, lookup[..], p, start) && Legal(h.bits) && p < Words(h.bits, 17)
    requires SizeOf(h.bits, p) <= HUFF_LOOKAHEAD && entry == Entry(h, p)
    requires start == Scale(CodeOf(h.bits, p), HUFF_LOOKAHEAD - SizeOf(h.bits, p))
    requires start + count == Scale(CodeOf(h.bits, p) + 1, HUFF_LOOKAHEAD - SizeOf(h.bits, p)) <= LOOKUP_SIZE
    modifies lookup
    ensures Looked(h, lookup[..], p + 1, start + count)
  {
    hide CodeOf, SizeOf, Words, Legal, Scale;
    var lookbits, ctr := start, count;
    while ctr > 0
      invariant lookbits + ctr == start + count && start <= lookbits
      invariant lookup[..start] == old(lookup[..start]) && lookup[start + count..] == old(lookup[start + count..])
      invariant forall x :: start <= x < lookbits ==> lookup[x] == entry
      decreases ctr
    {
      lookup[lookbits] := entry;
      lookbits := lookbits + 1;
      ctr := ctr - 1;
    }
    ghost var table, was := lookup[..], old(lookup[..]);
    forall q, x | 0 <= q <= p && 0 <= x < LOOKUP_SIZE && Begins(h.bits, q, x)
      ensures table[x] == Entry(h, q)
    {
      if q < p {
        EarlierBegins(h.bits, q, p, x);
        assert table[x] == lookup[..start][x] == was[..start][x] == was[x];
      }
    }
    forall x | start + count <= x < LOOKUP_SIZE
      ensures table[x] == TOO_LONG
    {
      assert table[x] == lookup[start + count..][x - start - count] == was[start + count..][x - start - count] == was[x];
    }
  }

  // Where the entries for lengths from l on begin
  function LookupFrom(bits: seq<nat>, l: nat): nat
    requires |bits| == 17 && 1 <= l <= HUFF_LOOKAHEAD + 1
  {
    if l <= HUFF_LOOKAHEAD then LookupStart(bits, l, 0) else Space(bits, HUFF_LOOKAHEAD, HUFF_LOOKAHEAD + 1)
  }

  lemma LookupFromNext(bits: seq<nat>, l: nat)
    requires |bits| == 17 && 1 <= l <= HUFF_LOOKAHEAD
    ensures LookupStart(bits, l, bits[l]) == LookupFrom(bits, l + 1)
  {
    if l < HUFF_LOOKAHEAD {
      LookupNext(bits, l);
    } else {
      SpaceEnd(bits, l);
    }
  }

  // The code words of length l
  method FillLength(h: HuffTable, huffcode: array<nat>, lookup: array<nat>, l: nat, p0: nat) returns (p: nat)
    requires TableShape(h) && Legal(h.bits) && huffcode.Length == SYMBOLS + 1 && huffcode != lookup
    requires Assigned(h.bits, huffcode[..], Words(h.bits, 17)) && 1 <= l <= HUFF_LOOKAHEAD && p0 == Words(h.bits, l)
    requires Looked(h, lookup[..], p0, LookupFrom(h.bits, l))
    modifies lookup
    ensures p == Words(h.bits, l + 1) && Looked(h, lookup[..], p, LookupFrom(h.bits, l + 1))
  {
    hide Words, Space, CodeOf, SizeOf, Looked, Legal, Scale;
    p := p0;
    CodesOfLength(h.bits, l);
    LookupFromNext(h.bits, l);
    for i := 0 to h.bits[l]
      invariant p == Words(h.bits, l) + i && Looked(h, lookup[..], p, LookupStart(h.bits, l, i))
    {
      CodeAt(h.bits, p, l);
      LookupFits(h.bits, l, i);
      WordsFit(h.bits);
      var lookbits := Scale(huffcode[p], HUFF_LOOKAHEAD - l);
      FillEntries(h, lookup, p, lookbits, Scale(1, HUFF_LOOKAHEAD - l), LOOKUP_SIZE * l + h.huffval[p]);
      p := p + 1;
    }
  }

  lemma WordsFit(bits: seq<nat>)
    requires Legal(bits)
    ensures Words(bits, 17) <= SYMBOLS
  {
  }

  method MakeLookup(h: HuffTable, huffcode: array<nat>) returns (lookup: array<nat>)
    requires TableShape(h) && Legal(h.bits) && huffcode.Length == SYMBOLS + 1
    requires Assigned(h.bits, huffcode[..], Words(h.bits, 17))
    ensures fresh(lookup)
    ensures Looked(h, lookup[..], Words(h.bits, 9), Space(h.bits, HUFF_LOOKAHEAD, HUFF_LOOKAHEAD + 1))
  {
    hide Words, Space, Looked, Legal, CodeOf, Scale;
    lookup := new nat[LOOKUP_SIZE](x => TOO_LONG);
    var p := 0;
    NothingLooked(h, lookup[..]);
    for l := 1 to HUFF_LOOKAHEAD + 1
      invariant p == Words(h.bits, l) && Looked(h, lookup[..], p, LookupFrom(h.bits, l))
    {
      p := FillLength(h, huffcode, lookup, l, p);
    }
  }

  lemma NothingLooked(h: HuffTable, lookup: seq<nat>)
    requires TableShape(h) && Legal(h.bits) && |lookup| == LOOKUP_SIZE && forall x :: 0 <= x < LOOKUP_SIZE ==> lookup[x] == TOO_LONG
    ensures Words(h.bits, 1) == 0 && Looked(h, lookup, 0, LookupFrom(h.bits, 1))
  {
  }

  // What the decoder's table says about the code words
  ghost predicate Decodes(h: HuffTable, t: DecoderTable) {
    && TableShape(h) && Legal(h.bits) && t.huffval == h.huffval
    && Sequential(h.bits, t.maxcode, t.valoffset, 17) && t.maxcode[17] == SENTINEL
    && Looked(h, t.lookup, Words(h.bits, 9), Space(h.bits, HUFF_LOOKAHEAD, HUFF_LOOKAHEAD + 1))
  }

  // Compute the decoder's table; none if the table is not legal.  Unlike the encoder, the
  // decoder accepts a symbol with several code words.
  method MakeDecoderTable(h: HuffTable, isDC: bool) returns (ok: bool, t: DecoderTable)
    requires TableShape(h)
    ensures ok <==> Legal(h.bits) && (isDC ==> forall p :: 0 <= p < Words(h.bits, 17) ==> h.huffval[p] <= 15)
    ensures ok ==> Decodes(h, t)
  {
    hide Words, Space, Sizes, CodeOf, Looked, Sequential, Legal, Assigned;
    var huffsize, numsymbols, huffcode;
    t := DecoderTable([], [], [], []);
    ok, huffsize, numsymbols := MakeSizes(h.bits);
    LegalWords(h.bits);
    if !ok {
      return;
    }
    SizesPositive(h.bits, huffsize[..], numsymbols);
    ok, huffcode := MakeCodes(h.bits, huffsize, numsymbols);
    if !ok {
      return;
    }
    var maxcode, valoffset := MakeSequential(h.bits, huffcode);
    var lookup := MakeLookup(h, huffcode);
    t := DecoderTable(maxcode[..], valoffset[..], lookup[..], h.huffval);
    if isDC {
      for i := 0 to numsymbols
        invariant forall p :: 0 <= p < i ==> h.huffval[p] <= 15
      {
        if h.huffval[i] > 15 {
          ok := false;
          return;
        }
      }
    }
  }

  lemma LegalWords(bits: seq<nat>)
    requires |bits| == 17
    ensures Legal(bits) ==> Words(bits, 17) <= SYMBOLS
  {
  }
}
