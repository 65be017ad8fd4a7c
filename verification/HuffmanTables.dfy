// The derived tables of encoder and decoder: jpeg_make_c_derived_tbl (jchuff.c) and
// jpeg_make_d_derived_tbl (jdhuff.c).
module HuffmanTables {
  import opened Arithmetic
  import opened HuffmanMerge
  import opened HuffmanForest
  import opened HuffmanDepth
  import opened HuffmanLengths
  import opened HuffmanLimit
  import opened HuffmanGen
  import opened HuffmanCode

  // ----- Figures C.1 and C.2 -----

  // Code length for each symbol, in the order of the table, ended by a zero
  method MakeSizes(bits: seq<UInt8>) returns (ok: bool, huffsize: array<nat>, lastp: nat)
    requires |bits| == 17
    ensures ok <==> Words(bits, 17) <= SYMBOLS
    ensures fresh(huffsize) && huffsize.Length == SYMBOLS + 1 && lastp <= SYMBOLS
    ensures ok ==> huffsize[..lastp] == Sizes(bits, 17) && huffsize[lastp] == 0
  {
    hide Words, Sizes;
    huffsize := new nat[SYMBOLS + 1](p => 0);
    lastp := 0;
    SizesStart(bits);
    for l := 1 to 17
      invariant lastp <= SYMBOLS && huffsize[..lastp] == Sizes(bits, l)
    {
      var i: nat := bits[l];
      SizesStep(bits, l);
      WordsGrow(bits, l + 1, 17);
      if lastp + i > SYMBOLS {
        return false, huffsize, lastp;
      }
      ghost var start := lastp;
      while i > 0
        invariant lastp + i == start + bits[l] && start <= lastp <= SYMBOLS && huffsize[..start] == Sizes(bits, l)
        invariant forall p :: start <= p < lastp ==> huffsize[p] == l
        decreases i
      {
        huffsize[lastp] := l;
        lastp := lastp + 1;
        i := i - 1;
      }
      assert huffsize[..lastp] == Sizes(bits, l) + seq(bits[l], k => l);
    }
    huffsize[lastp] := 0;
    ok := true;
  }

  lemma SizesStart(bits: seq<nat>)
    requires |bits| == 17
    ensures Sizes(bits, 1) == []
  {
  }

  lemma SizesStep(bits: seq<nat>, l: nat)
    requires 1 <= l < |bits|
    ensures Sizes(bits, l + 1) == Sizes(bits, l) + seq(bits[l], k => l)
    ensures Words(bits, l + 1) == Words(bits, l) + bits[l]
  {
  }

  // Codes have been assigned up to length si, and all of these fit.
  ghost predicate CodesBelow(bits: seq<nat>, si: nat) {
    |bits| == 17 && forall l :: 1 <= l < si && l <= 16 ==> Space(bits, l, l + 1) < Scale(1, l)
  }

  ghost predicate Assigned(bits: seq<nat>, huffcode: seq<nat>, p: nat) {
    && |bits| == 17 && p <= |huffcode|
    && forall q :: 0 <= q < p ==> q < Words(bits, 17) && huffcode[q] == CodeOf(bits, q)
  }

  // Generate the codes and check that they fit their lengths.
  method MakeCodes(ghost bits: seq<UInt8>, huffsize: array<nat>, ghost lastp: nat)
    returns (ok: bool, huffcode: array<nat>)
    requires |bits| == 17 && huffsize.Length == SYMBOLS + 1 && lastp <= SYMBOLS
    requires huffsize[..lastp] == Sizes(bits, 17) && huffsize[lastp] == 0
    ensures fresh(huffcode) && huffcode.Length == SYMBOLS + 1
    ensures ok <==> Legal(bits)
    ensures ok ==> Assigned(bits, huffcode[..], lastp)
  {
    hide Sizes, Words, Space, Scale, CodeOf;
    huffcode := new nat[SYMBOLS + 1](p => 0);
    var p, code, si := 0, 0, huffsize[0];
    FirstSize(bits);
    while huffsize[p] != 0
      invariant p <= lastp && Assigned(bits, huffcode[..], p) && CodesBelow(bits, si)
      invariant if lastp == 0 then si == 0 else 1 <= si <= 17 && p == Words(bits, si) && code == Space(bits, si, si)
      decreases lastp - p, 17 - si
    {
      LengthInRange(bits, p, si);
      ghost var start := p;
      while huffsize[p] == si
        invariant start <= p <= Words(bits, si + 1) && p <= lastp && Assigned(bits, huffcode[..], p)
        invariant code == Space(bits, si, si) + (p - start)
        decreases lastp - p
      {
        SameLength(bits, p, si);
        huffcode[p] := code;
        p := p + 1;
        code := code + 1;
      }
      AllOfLength(bits, p, si);
      SpaceEnd(bits, si);
      if code >= Scale(1, si) {
        return false, huffcode;
      }
      SpaceHalf(bits, si + 1, si + 1);
      code := 2 * code;
      si := si + 1;
    }
    AllFit(bits, si);
    ok := true;
  }

  lemma {:induction false} NoWordsNoSpace(bits: seq<nat>, m: nat, n: nat)
    requires n <= |bits| && Words(bits, n) == 0
    ensures Space(bits, m, n) == 0
  {
    if n > 1 {
      NoWordsNoSpace(bits, m, n - 1);
      assert Scale(0, if n - 1 <= m then m - (n - 1) else 0) == 0;
    }
  }

  // Before the first code word there is nothing.
  lemma FirstSize(bits: seq<nat>)
    requires |bits| == 17
    ensures Words(bits, 17) == |Sizes(bits, 17)| && Words(bits, 17) >= 0
    ensures Words(bits, 17) > 0 ==> var si := Sizes(bits, 17)[0];
                                    && 1 <= si <= 16 && Words(bits, si) == 0 && Space(bits, si, si) == 0 && CodesBelow(bits, si)
  {
    hide Space;
    if Words(bits, 17) > 0 {
      WordsBefore(bits, 0, 17);
      var si := Sizes(bits, 17)[0];
      NoWordsNoSpace(bits, si, si);
      forall l | 1 <= l < si
        ensures Space(bits, l, l + 1) < Scale(1, l)
      {
        WordsGrow(bits, l + 1, si);
        NoWordsNoSpace(bits, l, l + 1);
      }
    }
  }

  lemma LengthInRange(bits: seq<nat>, p: nat, si: nat)
    requires |bits| == 17 && 1 <= si <= 17 && p == Words(bits, si) && p < |Sizes(bits, 17)|
    ensures si <= 16 && Words(bits, si) <= Words(bits, si + 1)
    ensures si <= Sizes(bits, 17)[p]
  {
    WordsGrow(bits, si, 17);
    WordsBefore(bits, p, 17);
    if Sizes(bits, 17)[p] < si {
      WordsGrow(bits, Sizes(bits, 17)[p] + 1, si);
    }
  }

  lemma SameLength(bits: seq<nat>, p: nat, si: nat)
    requires |bits| == 17 && p < |Sizes(bits, 17)| && Sizes(bits, 17)[p] == si
    ensures 1 <= si <= 16 && Words(bits, si) <= p < Words(bits, si + 1)
    ensures CodeOf(bits, p) == Space(bits, si, si) + (p - Words(bits, si))
  {
    WordsBefore(bits, p, 17);
  }

  lemma AllOfLength(bits: seq<nat>, p: nat, si: nat)
    requires |bits| == 17 && 1 <= si <= 16 && Words(bits, si) <= p <= Words(bits, si + 1)
    requires p < Words(bits, 17) ==> Sizes(bits, 17)[p] != si
    ensures p == Words(bits, si + 1)
  {
    WordsGrow(bits, si + 1, 17);
    if p < Words(bits, si + 1) {
      SizeAt(bits, p, si, 17);
    }
  }

  // With no words left, all greater lengths fit, too.
  lemma AllFit(bits: seq<nat>, si: nat)
    requires |bits| == 17 && si <= 17 && CodesBelow(bits, si)
    requires if si == 0 then Words(bits, 17) == 0 else Words(bits, si) == Words(bits, 17)
    requires Words(bits, 17) <= SYMBOLS
    ensures Legal(bits)
  {
    forall l | 1 <= l <= 16
      ensures Space(bits, l, l + 1) < Scale(1, l)
    {
      FitsAt(bits, si, l);
    }
  }

  lemma {:induction false} FitsAt(bits: seq<nat>, si: nat, l: nat)
    requires |bits| == 17 && si <= 17 && CodesBelow(bits, si) && 1 <= l <= 16
    requires if si == 0 then Words(bits, 17) == 0 else Words(bits, si) == Words(bits, 17)
    ensures Space(bits, l, l + 1) < Scale(1, l)
    decreases l
  {
    hide Words;
    WordsGrow(bits, l + 1, 17);
    if si <= l {
      if si == 0 || l == 1 {
        SpaceEnd(bits, l);
        if si == 0 {
          NoWordsNoSpace(bits, l, l + 1);
        }
      } else {
        WordsGrow(bits, si, l);
        FitsAt(bits, si, l - 1);
        SpaceHalf(bits, l, l);
        SpaceEnd(bits, l);
      }
    }
  }

  // ----- The encoder's table -----

  // The code word of each symbol and its length, 0 if it has none
  datatype EncoderTable = EncoderTable(ehufco: seq<nat>, ehufsi: seq<nat>)

  // Symbol huffval[p] has the code word p, for all p, and no other symbol has one.
  ghost predicate Encodes(h: HuffTable, t: EncoderTable) {
    && TableShape(h) && Legal(h.bits) && |t.ehufco| == |t.ehufsi| == SYMBOLS
    && (forall p :: 0 <= p < Words(h.bits, 17) ==>
          t.ehufsi[h.huffval[p]] == SizeOf(h.bits, p) && t.ehufco[h.huffval[p]] == CodeOf(h.bits, p))
    && forall s :: 0 <= s < SYMBOLS && t.ehufsi[s] != 0 ==> s in h.huffval[..Words(h.bits, 17)]
  }

  ghost predicate DistinctSymbols(h: HuffTable, n: nat, maxsymbol: nat)
    requires n <= |h.huffval|
  {
    && (forall p :: 0 <= p < n ==> h.huffval[p] <= maxsymbol)
    && forall p, q :: 0 <= p < q < n ==> h.huffval[p] != h.huffval[q]
  }

  function MaxSymbol(isDC: bool): nat {
    if isDC then 15 else 255
  }

  // The first n symbols have been given their code words.
  ghost predicate Filled(h: HuffTable, huffsize: seq<nat>, huffcode: seq<nat>, ehufco: seq<nat>, ehufsi: seq<nat>, n: nat) {
    && |h.huffval| == SYMBOLS && n <= SYMBOLS && n <= |huffsize| && n <= |huffcode|
    && |ehufco| == |ehufsi| == SYMBOLS
    && (forall p :: 0 <= p < n ==> ehufsi[h.huffval[p]] == huffsize[p] && ehufco[h.huffval[p]] == huffcode[p])
    && forall s :: 0 <= s < SYMBOLS ==> (ehufsi[s] != 0 <==> s in h.huffval[..n])
  }

  lemma FilledStep(h: HuffTable, huffsize: seq<nat>, huffcode: seq<nat>, ehufco: seq<nat>, ehufsi: seq<nat>, n: nat)
    requires Filled(h, huffsize, huffcode, ehufco, ehufsi, n) && n < SYMBOLS && n < |huffsize| && n < |huffcode|
    requires huffsize[n] > 0 && ehufsi[h.huffval[n]] == 0
    ensures Filled(h, huffsize, huffcode, ehufco[h.huffval[n] := huffcode[n]], ehufsi[h.huffval[n] := huffsize[n]], n + 1)
    ensures h.huffval[n] !in h.huffval[..n]
  {
    forall p | 0 <= p < n
      ensures h.huffval[p] != h.huffval[n]
    {
      assert h.huffval[p] in h.huffval[..n];
    }
    assert h.huffval[..n + 1] == h.huffval[..n] + [h.huffval[n]];
  }

  lemma DistinctSnoc(h: HuffTable, n: nat, maxsymbol: nat)
    requires n < |h.huffval| && DistinctSymbols(h, n, maxsymbol)
    ensures DistinctSymbols(h, n + 1, maxsymbol) <==> h.huffval[n] <= maxsymbol && h.huffval[n] !in h.huffval[..n]
  {
    if h.huffval[n] in h.huffval[..n] {
      var p :| 0 <= p < n && h.huffval[p] == h.huffval[n];
      assert !DistinctSymbols(h, n + 1, maxsymbol);
    }
    forall p | 0 <= p < n
      ensures h.huffval[p] in h.huffval[..n]
    {
      assert h.huffval[..n][p] == h.huffval[p];
    }
  }

  // Enter the code words by symbol, refusing duplicates and symbols out of range.
  method FillCodes(h: HuffTable, isDC: bool, huffsize: array<nat>, huffcode: array<nat>, lastp: nat)
    returns (ok: bool, t: EncoderTable)
    requires |h.huffval| == SYMBOLS && lastp <= SYMBOLS && huffsize.Length == huffcode.Length == SYMBOLS + 1
    requires forall p :: 0 <= p < lastp ==> huffsize[p] > 0
    ensures ok <==> DistinctSymbols(h, lastp, MaxSymbol(isDC))
    ensures ok ==> Filled(h, huffsize[..], huffcode[..], t.ehufco, t.ehufsi, lastp)
  {
    hide Filled, DistinctSymbols;
    var ehufco := new nat[SYMBOLS](s => 0);
    var ehufsi := new nat[SYMBOLS](s => 0);
    t := EncoderTable([], []);
    NothingFilled(h, huffsize[..], huffcode[..], ehufco[..], ehufsi[..], MaxSymbol(isDC));
    for p := 0 to lastp
      invariant Filled(h, huffsize[..], huffcode[..], ehufco[..], ehufsi[..], p)
      invariant DistinctSymbols(h, p, MaxSymbol(isDC))
    {
      var i := h.huffval[p];
      FilledAt(h, huffsize[..], huffcode[..], ehufco[..], ehufsi[..], p);
      DistinctSnoc(h, p, MaxSymbol(isDC));
      if i > MaxSymbol(isDC) || ehufsi[i] != 0 {
        DistinctShrinks(h, p + 1, lastp, MaxSymbol(isDC));
        return false, t;
      }
      FilledStep(h, huffsize[..], huffcode[..], ehufco[..], ehufsi[..], p);
      ghost var co, si := ehufco[..], ehufsi[..];
      ehufco[i] := huffcode[p];
      ehufsi[i] := huffsize[p];
      assert ehufco[..] == co[i := huffcode[p]] && ehufsi[..] == si[i := huffsize[p]];
    }
    ok, t := true, EncoderTable(ehufco[..], ehufsi[..]);
  }

  lemma NothingFilled(h: HuffTable, huffsize: seq<nat>, huffcode: seq<nat>, ehufco: seq<nat>, ehufsi: seq<nat>, maxsymbol: nat)
    requires |h.huffval| == SYMBOLS && |ehufco| == |ehufsi| == SYMBOLS && forall s :: 0 <= s < SYMBOLS ==> ehufsi[s] == 0
    ensures Filled(h, huffsize, huffcode, ehufco, ehufsi, 0) && DistinctSymbols(h, 0, maxsymbol)
  {
  }

  lemma FilledAt(h: HuffTable, huffsize: seq<nat>, huffcode: seq<nat>, ehufco: seq<nat>, ehufsi: seq<nat>, n: nat)
    requires Filled(h, huffsize, huffcode, ehufco, ehufsi, n) && n < SYMBOLS
    ensures |ehufsi| == SYMBOLS && (ehufsi[h.huffval[n]] != 0 <==> h.huffval[n] in h.huffval[..n])
  {
  }

  lemma DistinctShrinks(h: HuffTable, n: nat, n': nat, maxsymbol: nat)
    requires n <= n' <= |h.huffval|
    ensures DistinctSymbols(h, n', maxsymbol) ==> DistinctSymbols(h, n, maxsymbol)
  {
  }

  // Compute the encoder's table; none if the table is not legal.
  method MakeEncoderTable(h: HuffTable, isDC: bool) returns (ok: bool, t: EncoderTable)
    requires TableShape(h)
    ensures ok <==> Legal(h.bits) && DistinctSymbols(h, Words(h.bits, 17), if isDC then 15 else 255)
    ensures ok ==> Encodes(h, t)
  {
    hide Words, Space, Sizes, CodeOf, DistinctSymbols, Filled;
    var huffsize, lastp, huffcode;
    t := EncoderTable([], []);
    ok, huffsize, lastp := MakeSizes(h.bits);
    if ok {
      ok, huffcode := MakeCodes(h.bits, huffsize, lastp);
      if ok {
        SizesPositive(h.bits, huffsize[..], lastp);
        ok, t := FillCodes(h, isDC, huffsize, huffcode, lastp);
        if ok {
          FilledEncodes(h, t, huffsize[..], huffcode[..], lastp);
        }
      }
    }
  }

  lemma SizesPositive(bits: seq<nat>, huffsize: seq<nat>, lastp: nat)
    requires |bits| == 17 && lastp <= |huffsize| && huffsize[..lastp] == Sizes(bits, 17)
    ensures lastp == Words(bits, 17) && forall p :: 0 <= p < lastp ==> huffsize[p] > 0
  {
    forall p | 0 <= p < lastp
      ensures huffsize[p] > 0
    {
      assert huffsize[p] == Sizes(bits, 17)[p];
    }
  }

  lemma FilledEncodes(h: HuffTable, t: EncoderTable, huffsize: seq<nat>, huffcode: seq<nat>, lastp: nat)
    requires TableShape(h) && Legal(h.bits) && lastp == Words(h.bits, 17) <= |huffsize|
    requires huffsize[..lastp] == Sizes(h.bits, 17) && Assigned(h.bits, huffcode, lastp)
    requires Filled(h, huffsize, huffcode, t.ehufco, t.ehufsi, lastp)
    ensures Encodes(h, t)
  {
    hide Sizes, CodeOf, Space, Words;
    forall p | 0 <= p < lastp
      ensures t.ehufsi[h.huffval[p]] == SizeOf(h.bits, p) && t.ehufco[h.huffval[p]] == CodeOf(h.bits, p)
    {
      assert huffsize[..lastp][p] == huffsize[p];
    }
  }

  // ----- Generated tables are accepted -----

  // A generated table is accepted, every symbol that occurs gets a code word, and if none had
  // to be shortened, each has the length of the optimal code.
  method MakeGeneratedTable(freq: array<nat>, isDC: bool)
    returns (ok: bool, h: HuffTable, t: EncoderTable, ghost len: seq<nat>)
    requires freq.Length == SYMBOLS + 1 && Total(freq[..], SYMBOLS) <= SEARCH_LIMIT
    requires 1 <= Live(freq[..], SYMBOLS) <= 254
    requires forall s :: MaxSymbol(isDC) < s < SYMBOLS ==> freq[s] == 0
    modifies freq
    ensures Total(old(freq[..]), SYMBOLS) < 9227464 ==> ok
    ensures ok ==> Encodes(h, t) && forall p :: 0 <= p < Words(h.bits, 17) ==> h.huffval[p] <= MaxSymbol(isDC)
    ensures ok ==> |t.ehufsi| == SYMBOLS && |len| == SYMBOLS + 1 && CodeSizes(WithPseudo(old(freq[..])), len)
    ensures ok ==> forall s :: 0 <= s < SYMBOLS ==> (t.ehufsi[s] > 0 <==> old(freq[s]) > 0)
    ensures ok && (forall s :: 0 <= s <= SYMBOLS ==> len[s] <= 16) ==>
              forall s :: 0 <= s < SYMBOLS ==> t.ehufsi[s] == len[s]
  {
    hide Words, Space, Listed, Live, Total, CodeSizes, DistinctSymbols, Usable, Encodes, LengthCount, Legal;
    ghost var was := freq[..];
    t := EncoderTable([], []);
    ok, h, len := GenOptimalTable(freq);
    if ok {
      ghost var p := Live(was, SYMBOLS);
      GeneratedLegal(WithPseudo(was), len, h, p, isDC);
      ok, t := MakeEncoderTable(h, isDC);
      GeneratedCodes(WithPseudo(was), len, h, p, t);
    }
  }

  lemma GeneratedLegal(counts: seq<nat>, len: seq<nat>, h: HuffTable, p: nat, isDC: bool)
    requires MadeFrom(counts, len, h, p) && forall s :: MaxSymbol(isDC) < s < SYMBOLS ==> counts[s] == 0
    ensures TableShape(h) && Legal(h.bits) && Words(h.bits, 17) == p && DistinctSymbols(h, p, MaxSymbol(isDC))
    ensures forall q :: 0 <= q < p ==> h.huffval[q] <= MaxSymbol(isDC)
  {
    hide Space, Words, Listed, CodeSizes, Live, LengthCount;
    var i :| Usable(h.bits, i);
    MadeIsLegal(h, i);
    ListedSymbols(len, MAX_CLEN + 1);
    forall a, b | 0 <= a < b < p
      ensures h.huffval[a] != h.huffval[b]
    {
      assert h.huffval[a] == h.huffval[..p][a] && h.huffval[b] == h.huffval[..p][b];
    }
    forall q | 0 <= q < p
      ensures h.huffval[q] <= MaxSymbol(isDC)
    {
      assert h.huffval[..p][q] == h.huffval[q];
      UsedSymbol(counts, len, h.huffval[q]);
    }
  }

  lemma UsedSymbol(counts: seq<nat>, len: seq<nat>, s: nat)
    requires CodeSizes(counts, len) && s < |len|
    ensures |counts| == |len| && (len[s] > 0 <==> counts[s] > 0)
  {
  }

  lemma GeneratedCodes(counts: seq<nat>, len: seq<nat>, h: HuffTable, p: nat, t: EncoderTable)
    requires MadeFrom(counts, len, h, p) && Encodes(h, t)
    ensures CodeSizes(counts, len) && |len| == SYMBOLS + 1 && |t.ehufsi| == SYMBOLS
    ensures forall s :: 0 <= s < SYMBOLS ==> (t.ehufsi[s] > 0 <==> counts[s] > 0)
    ensures (forall s :: 0 <= s <= SYMBOLS ==> len[s] <= 16) ==>
              forall s :: 0 <= s < SYMBOLS ==> t.ehufsi[s] == len[s]
  {
    forall s | 0 <= s < SYMBOLS
      ensures t.ehufsi[s] > 0 <==> counts[s] > 0
      ensures (forall s :: 0 <= s <= SYMBOLS ==> len[s] <= 16) ==> t.ehufsi[s] == len[s]
    {
      GeneratedCode(counts, len, h, p, t, s);
    }
  }

  lemma GeneratedCode(counts: seq<nat>, len: seq<nat>, h: HuffTable, p: nat, t: EncoderTable, s: nat)
    requires MadeFrom(counts, len, h, p) && Encodes(h, t) && s < SYMBOLS
    ensures t.ehufsi[s] > 0 <==> counts[s] > 0
    ensures (forall s :: 0 <= s <= SYMBOLS ==> len[s] <= 16) ==> t.ehufsi[s] == len[s]
  {
    hide Space, Words, Listed, Live, LengthCount, Legal, Optimal, Fib, Total, Sizes, Usable;
    ListedSymbols(len, MAX_CLEN + 1);
    if t.ehufsi[s] > 0 {
      assert s in h.huffval[..p];
    }
    if len[s] > 0 {
      assert s in h.huffval[..p];
      var q :| 0 <= q < p && h.huffval[q] == s;
      if forall s :: 0 <= s <= SYMBOLS ==> len[s] <= 16 {
        ListedSize(len, h, p, q);
      }
    }
  }

  // Without adjustment, the listed symbol number q has its own length.
  lemma ListedSize(len: seq<nat>, h: HuffTable, p: nat, q: nat)
    requires |len| == SYMBOLS + 1 && TableShape(h) && p == Words(h.bits, 17) <= SYMBOLS && q < p
    requires h.huffval[..p] == Listed(len, MAX_CLEN + 1) && forall s :: 0 <= s <= SYMBOLS ==> len[s] <= 16
    requires forall l :: 1 <= l <= 16 ==> h.bits[l] == LengthCount(len, l, SYMBOLS)
    ensures SizeOf(h.bits, q) == len[h.huffval[q]]
  {
    hide Space, Words, Listed, LengthCount, Sizes;
    SizesMatch(h.bits, len, 17);
    NothingListed(len, MAX_CLEN + 1);
    assert h.huffval[..p][q] == h.huffval[q];
  }

  lemma {:induction false} NothingListed(len: seq<nat>, l: nat)
    requires |len| == SYMBOLS + 1 && 17 <= l && forall s :: 0 <= s <= SYMBOLS ==> len[s] <= 16
    ensures Listed(len, l) == Listed(len, 17)
  {
    hide LengthCount;
    if l > 17 {
      NothingListed(len, l - 1);
      NoneLonger(len, l - 1, SYMBOLS);
    }
  }
}
