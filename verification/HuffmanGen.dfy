// jpeg_gen_optimal_table (jchuff.c): from symbol counts to a table of code lengths.
module HuffmanGen {
  import opened Arithmetic
  import opened HuffmanMerge
  import opened HuffmanForest
  import opened HuffmanDepth
  import opened HuffmanLengths
  import opened HuffmanLimit

  const SYMBOLS := 256 // real symbols; the pseudo-symbol comes after them

  // ----- Counting the lengths -----

  function LengthCount(len: seq<nat>, l: nat, n: nat): (c: nat)
    requires n <= |len|
    ensures c <= n
  {
    if n == 0 then 0 else LengthCount(len, l, n - 1) + if len[n - 1] == l then 1 else 0
  }

  // bits holds the number of the first n symbols with each length.
  ghost predicate Counted(bits: seq<nat>, len: seq<nat>, n: nat) {
    && |bits| == MAX_CLEN + 1 && n <= |len| && bits[0] == 0
    && (forall l :: 1 <= l <= MAX_CLEN ==> bits[l] == LengthCount(len, l, n))
    && Words(bits, |bits|) == Live(len, n)
    && Space(bits, MAX_CLEN, |bits|) == Kraft(len, len, MAX_CLEN, n)
  }

  lemma CountedStep(bits: seq<nat>, len: seq<nat>, n: nat)
    requires Counted(bits, len, n) && n < |len| && len[n] <= MAX_CLEN
    ensures len[n] == 0 ==> Counted(bits, len, n + 1)
    ensures len[n] > 0 ==> Counted(bits[len[n] := bits[len[n]] + 1], len, n + 1)
    ensures len[n] > 0 ==> bits[len[n]] <= Live(len, n)
  {
    hide Words, Space;
    var l := len[n];
    if l > 0 {
      WordsUpdate(bits, l, bits[l] + 1, |bits|);
      SpaceUpdate(bits, l, bits[l] + 1, MAX_CLEN, |bits|);
      ScaleAdd(bits[l], 1, MAX_CLEN - l);
      WordsAtLeast(bits, l, |bits|);
    }
  }

  lemma {:induction false} LiveGrows(len: seq<nat>, n: nat, n': nat)
    requires n <= n' <= |len|
    ensures Live(len, n) <= Live(len, n')
  {
    if n < n' {
      LiveGrows(len, n, n' - 1);
    }
  }

  lemma NothingCounted(bits: seq<nat>, len: seq<nat>)
    requires |bits| == MAX_CLEN + 1 && forall l :: 0 <= l <= MAX_CLEN ==> bits[l] == 0
    ensures Counted(bits, len, 0)
  {
    NoSpace(bits, MAX_CLEN, |bits|);
    NoWords(bits, |bits|);
  }

  lemma {:induction false} NoWords(bits: seq<nat>, n: nat)
    requires n <= |bits| && forall l :: 1 <= l < n ==> bits[l] == 0
    ensures Words(bits, n) == 0
  {
    if n > 1 {
      NoWords(bits, n - 1);
    }
  }

  // Count the symbols of each length; a length over MAX_CLEN is an error.
  method CountLengths(codesize: array<nat>) returns (ok: bool, bits: array<UInt8>)
    requires Live(codesize[..], codesize.Length) <= 255
    ensures fresh(bits) && bits.Length == MAX_CLEN + 1
    ensures ok <==> forall s :: 0 <= s < codesize.Length ==> codesize[s] <= MAX_CLEN
    ensures ok ==> Counted(bits[..], codesize[..], codesize.Length)
  {
    hide Counted, Live;
    bits := new UInt8[MAX_CLEN + 1](l => 0);
    NothingCounted(bits[..], codesize[..]);
    for i := 0 to codesize.Length
      invariant Counted(bits[..], codesize[..], i)
      invariant forall s :: 0 <= s < i ==> codesize[s] <= MAX_CLEN
    {
      if codesize[i] != 0 {
        if codesize[i] > MAX_CLEN {
          return false, bits;
        }
        ghost var was := bits[..];
        CountedStep(was, codesize[..], i);
        RoomForOne(codesize[..], i, codesize.Length);
        bits[codesize[i]] := bits[codesize[i]] + 1;
        assert bits[..] == was[codesize[i] := was[codesize[i]] + 1];
      } else {
        CountedStep(bits[..], codesize[..], i);
      }
    }
    ok := true;
  }

  lemma RoomForOne(len: seq<nat>, i: nat, n: nat)
    requires i < n <= |len| && len[i] > 0
    ensures Live(len, i) < Live(len, n)
  {
    LiveGrows(len, i + 1, n);
  }

  // ----- The code sizes fill the code space -----

  lemma {:induction false} SameUse(counts: seq<nat>, len: seq<nat>, m: nat, n: nat)
    requires n <= |counts| == |len| && forall s :: 0 <= s < |counts| ==> (len[s] > 0 <==> counts[s] > 0)
    ensures Kraft(len, len, m, n) == Kraft(counts, len, m, n) && Live(len, n) == Live(counts, n)
  {
    hide Share;
    if n > 0 {
      SameUse(counts, len, m, n - 1);
    }
  }

  lemma {:induction false} KraftDown(len: seq<nat>, m: nat)
    requires MAX_CLEN <= m && Kraft(len, len, m, |len|) == Scale(1, m)
    requires forall s :: 0 <= s < |len| ==> len[s] <= MAX_CLEN
    ensures Kraft(len, len, MAX_CLEN, |len|) == Scale(1, MAX_CLEN)
    decreases m
  {
    hide Kraft, Share;
    if m > MAX_CLEN {
      KraftLower(len, len, m, |len|);
      assert Scale(1, m) == 2 * Scale(1, m - 1);
      KraftDown(len, m - 1);
    }
  }

  lemma CountedFull(counts: seq<nat>, len: seq<nat>, bits: seq<nat>)
    requires CodeSizes(counts, len) && Counted(bits, len, |len|) && |counts| >= MAX_CLEN
    requires Live(counts, |counts|) <= 255 && forall s :: 0 <= s < |len| ==> len[s] <= MAX_CLEN
    ensures Full(bits, MAX_CLEN) && Words(bits, |bits|) == Live(counts, |counts|)
  {
    hide Kraft, Share, Live, Space, Words, Cost, Fib, Total;
    SameUse(counts, len, |counts|, |counts|);
    KraftDown(len, |counts|);
  }

  // ----- The symbols in order of code length -----

  // The real symbols of length l among the first n
  function WithLength(len: seq<nat>, l: nat, n: nat): (symbols: seq<nat>)
    requires n <= |len|
    ensures |symbols| == LengthCount(len, l, n)
    ensures forall p :: 0 <= p < |symbols| ==> symbols[p] < n && len[symbols[p]] == l
    ensures forall p, q :: 0 <= p < q < |symbols| ==> symbols[p] < symbols[q]
    ensures forall s :: 0 <= s < n && len[s] == l ==> s in symbols
  {
    if n == 0 then [] else WithLength(len, l, n - 1) + if len[n - 1] == l then [n - 1] else []
  }

  // The real symbols with lengths below l, shorter lengths first
  function Listed(len: seq<nat>, l: nat): (symbols: seq<nat>)
    requires SYMBOLS <= |len|
  {
    if l <= 1 then [] else Listed(len, l - 1) + WithLength(len, l - 1, SYMBOLS)
  }

  // Each symbol with a code is listed once.
  lemma {:induction false} ListedSymbols(len: seq<nat>, l: nat)
    requires SYMBOLS <= |len|
    ensures forall p :: 0 <= p < |Listed(len, l)| ==>
              Listed(len, l)[p] < SYMBOLS && 1 <= len[Listed(len, l)[p]] < l
    ensures forall s :: 0 <= s < SYMBOLS && 1 <= len[s] < l ==> s in Listed(len, l)
    ensures forall p, q :: 0 <= p < q < |Listed(len, l)| ==> Listed(len, l)[p] != Listed(len, l)[q]
  {
    hide WithLength;
    if l > 1 {
      ListedSymbols(len, l - 1);
    }
  }

  // Shorter lengths come first, and with the same length smaller symbols.
  lemma {:induction false} ListedInOrder(len: seq<nat>, l: nat)
    requires SYMBOLS <= |len|
    ensures forall p, q :: 0 <= p < q < |Listed(len, l)| ==>
              var a, b := Listed(len, l)[p], Listed(len, l)[q];
              a < SYMBOLS && b < SYMBOLS && (len[a] < len[b] || (len[a] == len[b] && a < b))
  {
    hide WithLength;
    if l > 1 {
      ListedSymbols(len, l - 1);
      ListedInOrder(len, l - 1);
    }
  }

  // Lengths below l, each as often as bits says
  function Sizes(bits: seq<nat>, l: nat): (sizes: seq<nat>)
    requires l <= |bits|
    ensures |sizes| == Words(bits, l)
    ensures forall p :: 0 <= p < |sizes| ==> 1 <= sizes[p] < l
  {
    if l <= 1 then [] else Sizes(bits, l - 1) + seq(bits[l - 1], i => l - 1)
  }

  // If the counts are those of the real symbols, every listed symbol gets its own length.
  lemma {:induction false} SizesMatch(bits: seq<nat>, len: seq<nat>, l: nat)
    requires SYMBOLS <= |len| && l <= |bits|
    requires forall k :: 1 <= k < l ==> bits[k] == LengthCount(len, k, SYMBOLS)
    ensures |Sizes(bits, l)| == |Listed(len, l)|
    ensures forall p :: 0 <= p < |Sizes(bits, l)| ==>
              Listed(len, l)[p] < SYMBOLS && Sizes(bits, l)[p] == len[Listed(len, l)[p]]
  {
    hide WithLength, LengthCount;
    if l > 1 {
      SizesMatch(bits, len, l - 1);
      ListedSymbols(len, l - 1);
      ListedSymbols(len, l);
    }
  }

  function CountsOf(len: seq<nat>, n: nat): seq<nat>
    requires n <= |len|
  {
    seq(MAX_CLEN + 1, l requires 0 <= l => if l == 0 then 0 else LengthCount(len, l, n))
  }

  lemma {:induction false} CountsOfCounted(len: seq<nat>, n: nat)
    requires n <= |len| && forall s :: 0 <= s < |len| ==> len[s] <= MAX_CLEN
    ensures Counted(CountsOf(len, n), len, n)
  {
    if n == 0 {
      NothingCounted(CountsOf(len, 0), len);
    } else {
      CountsOfCounted(len, n - 1);
      CountedStep(CountsOf(len, n - 1), len, n - 1);
      var l := len[n - 1];
      if l == 0 {
        assert CountsOf(len, n) == CountsOf(len, n - 1);
      } else {
        assert CountsOf(len, n) == CountsOf(len, n - 1)[l := CountsOf(len, n - 1)[l] + 1];
      }
    }
  }

  // As many symbols are listed as real symbols have a code.
  lemma ListedCount(len: seq<nat>)
    requires SYMBOLS <= |len| && forall s :: 0 <= s < |len| ==> len[s] <= MAX_CLEN
    ensures |Listed(len, MAX_CLEN + 1)| == Live(len, SYMBOLS)
  {
    hide WithLength, LengthCount, Words, Live, Listed, Sizes;
    CountsOfCounted(len, SYMBOLS);
    SizesMatch(CountsOf(len, SYMBOLS), len, MAX_CLEN + 1);
  }

  // The real symbols of length l
  method ListLength(codesize: array<nat>, huffval: array<UInt8>, l: nat, p0: nat) returns (p: nat)
    requires codesize.Length == SYMBOLS + 1 && huffval.Length == SYMBOLS && huffval as object != codesize
    requires 1 <= l && p0 <= SYMBOLS && huffval[..p0] == Listed(codesize[..], l)
    modifies huffval
    ensures p0 <= p <= SYMBOLS && huffval[..p] == Listed(codesize[..], l) + WithLength(codesize[..], l, SYMBOLS)
  {
    hide LengthCount, Live, Listed;
    ghost var len, listed := codesize[..], huffval[..p0];
    p := p0;
    for j := 0 to SYMBOLS
      invariant p0 <= p <= SYMBOLS && huffval[..p] == listed + WithLength(len, l, j)
    {
      if codesize[j] == l {
        ListRoom(len, l, j);
        huffval[p] := j;
        p := p + 1;
      }
    }
  }

  // Put the real symbols in order of code length.
  method ListSymbols(codesize: array<nat>, huffval: array<UInt8>) returns (p: nat)
    requires codesize.Length == SYMBOLS + 1 && huffval.Length == SYMBOLS && huffval as object != codesize
    requires forall s :: 0 <= s < codesize.Length ==> codesize[s] <= MAX_CLEN
    modifies huffval
    ensures p <= SYMBOLS && huffval[..p] == Listed(codesize[..], MAX_CLEN + 1)
  {
    hide LengthCount, Live, WithLength;
    p := 0;
    for i := 1 to MAX_CLEN + 1
      invariant p <= SYMBOLS && huffval[..p] == Listed(codesize[..], i)
    {
      p := ListLength(codesize, huffval, i, p);
    }
  }

  // There is room for another symbol: fewer have been listed than there are.
  lemma ListRoom(len: seq<nat>, i: nat, j: nat)
    requires SYMBOLS <= |len| && j < SYMBOLS && len[j] == i && 1 <= i
    ensures |Listed(len, i)| + |WithLength(len, i, j)| < SYMBOLS
  {
    hide WithLength, LengthCount;
    var symbols := Listed(len, i) + WithLength(len, i, j) + [j];
    ListedSymbols(len, i);
    DistinctFew(symbols, SYMBOLS);
  }

  // Distinct numbers below n are at most n.
  lemma {:induction false} DistinctFew(symbols: seq<nat>, n: nat)
    requires forall p :: 0 <= p < |symbols| ==> symbols[p] < n
    requires forall p, q :: 0 <= p < q < |symbols| ==> symbols[p] != symbols[q]
    ensures |symbols| <= n
    decreases n
  {
    if symbols != [] {
      assert symbols[0] < n;
      if n - 1 in symbols {
        var p :| 0 <= p < |symbols| && symbols[p] == n - 1;
        DistinctFew(symbols[..p] + symbols[p + 1..], n - 1);
      } else {
        DistinctFew(symbols, n - 1);
      }
    }
  }

  // ----- The table -----

  // Counts of code words with lengths 1 to 16, and the symbols in order of length
  datatype HuffTable = HuffTable(bits: seq<UInt8>, huffval: seq<UInt8>)

  // What the table says about the counts it was made from.
  ghost predicate MadeFrom(counts: seq<nat>, len: seq<nat>, h: HuffTable, p: nat) {
    && |counts| == |len| == SYMBOLS + 1 && CodeSizes(counts, len) && (forall s :: 0 <= s <= SYMBOLS ==> len[s] <= MAX_CLEN)
    && |h.bits| == 17 && |h.huffval| == SYMBOLS
    && p <= SYMBOLS && h.huffval[..p] == Listed(len, MAX_CLEN + 1)
    && Words(h.bits, 17) == p == Live(counts, SYMBOLS)
    && (exists i :: Usable(h.bits, i))
    && ((forall s :: 0 <= s <= SYMBOLS ==> len[s] <= 16) ==>
          forall l :: 1 <= l <= 16 ==> h.bits[l] == LengthCount(len, l, SYMBOLS))
  }

  // The code space is used up but for the place of one word of the greatest length i, the
  // one of all ones.
  ghost predicate Usable(bits: seq<nat>, i: nat) {
    && |bits| == 17 && 1 <= i <= 16
    && (forall l :: i < l <= 16 ==> bits[l] == 0)
    && Space(bits, i, i + 1) + 1 == Scale(1, i)
  }

  lemma {:induction false} SamePrefix(a: seq<nat>, b: seq<nat>, m: nat, n: nat)
    requires n <= |a| && n <= |b| && forall l :: 0 <= l < n ==> a[l] == b[l]
    ensures Space(a, m, n) == Space(b, m, n) && Words(a, n) == Words(b, n)
  {
    if n > 1 {
      SamePrefix(a, b, m, n - 1);
    }
  }

  lemma {:induction false} WordsUpTo(bits: seq<nat>, n: nat, n': nat)
    requires n <= n' <= |bits| && forall l :: n <= l < n' ==> bits[l] == 0
    ensures Words(bits, n) == Words(bits, n')
  {
    if n < n' {
      WordsUpTo(bits, n, n' - 1);
    }
  }

  lemma TrimmedUsable(bits: seq<nat>, i: nat)
    requires Trimmed(bits, i)
    ensures Usable(bits[..17], i) && Words(bits[..17], 17) == Words(bits, |bits|)
  {
    SamePrefix(bits, bits[..17], i, i + 1);
    SamePrefix(bits, bits[..17], i, 17);
    WordsUpTo(bits, 17, |bits|);
  }

  lemma {:induction false} FullDown(bits: seq<nat>, i: nat)
    requires Full(bits, i) && 16 <= i && forall l :: 16 < l <= MAX_CLEN ==> bits[l] == 0
    ensures Full(bits, 16)
    decreases i
  {
    if i > 16 {
      FullShorter(bits, i);
      FullDown(bits, i - 1);
    }
  }

  lemma {:induction false} NoneLonger(len: seq<nat>, l: nat, n: nat)
    requires n <= |len|
    ensures LengthCount(len, l, n) > 0 <==> exists s :: 0 <= s < n && len[s] == l
  {
    if n > 0 {
      NoneLonger(len, l, n - 1);
    }
  }

  lemma ShortEnough(bits: seq<nat>, len: seq<nat>)
    requires Counted(bits, len, |len|) && Full(bits, MAX_CLEN)
    requires forall s :: 0 <= s < |len| ==> len[s] <= 16
    ensures Full(bits, 16)
  {
    hide Full, Space, Words, LengthCount;
    forall l | 16 < l <= MAX_CLEN
      ensures bits[l] == 0
    {
      NoneLonger(len, l, |len|);
    }
    FullDown(bits, MAX_CLEN);
  }

  // Taking the pseudo-symbol's word away leaves the real symbols' lengths.
  lemma PseudoRemoved(bits: seq<nat>, bits': seq<nat>, len: seq<nat>, i: nat, l: nat)
    requires |len| == SYMBOLS + 1 && Counted(bits, len, |len|) && 1 <= i <= 16 && 1 <= l <= 16
    requires forall s :: 0 <= s < |len| ==> len[s] <= len[SYMBOLS] <= 16
    requires len[SYMBOLS] > 0
    requires bits[i] > 0 && (forall k :: i < k <= MAX_CLEN ==> bits[k] == 0)
    requires bits' == bits[i := bits[i] - 1]
    ensures bits'[l] == LengthCount(len, l, SYMBOLS)
  {
    hide Words, Space, Kraft, Live;
    NoneLonger(len, i, |len|);
    NoneLonger(len, len[SYMBOLS], |len|);
    assert i == len[SYMBOLS];
    LastCounted(len, l);
  }

  lemma LastCounted(len: seq<nat>, l: nat)
    requires |len| == SYMBOLS + 1
    ensures LengthCount(len, l, |len|) == LengthCount(len, l, SYMBOLS) + if len[SYMBOLS] == l then 1 else 0
  {
  }

  lemma PseudoLongest(counts: seq<nat>, len: seq<nat>)
    requires CodeSizes(counts, len) && |counts| == SYMBOLS + 1 && counts[SYMBOLS] > 0
    ensures len[SYMBOLS] > 0 && forall s :: 0 <= s < |len| ==> len[s] <= len[SYMBOLS]
  {
  }

  // Bring the lengths down to 16 and remove the pseudo-symbol.
  method FinishBits(bits: array<UInt8>, ghost counts: seq<nat>, ghost len: seq<nat>)
    returns (result: seq<UInt8>)
    requires bits.Length == MAX_CLEN + 1 && |counts| == |len| == SYMBOLS + 1 && CodeSizes(counts, len)
    requires counts[SYMBOLS] > 0 && Live(counts, |counts|) <= 255
    requires Counted(bits[..], len, |len|) && forall s :: 0 <= s < |len| ==> len[s] <= MAX_CLEN
    modifies bits
    ensures |result| == 17 && (exists i :: Usable(result, i)) && Words(result, 17) + 1 == Live(counts, |counts|)
    ensures (forall s :: 0 <= s <= SYMBOLS ==> len[s] <= 16) ==>
              forall l :: 1 <= l <= 16 ==> result[l] == LengthCount(len, l, SYMBOLS)
  {
    hide Counted, Full, Live, Words, LengthCount, Optimal, Fib, Total, Trimmed, Usable;
    CountedFull(counts, len, bits[..]);
    PseudoLongest(counts, len);
    ghost var was := bits[..];
    if forall s :: 0 <= s <= SYMBOLS ==> len[s] <= 16 {
      ShortEnough(was, len);
    }
    ghost var trace := LimitLengths(bits);
    ghost var limited := bits[..];
    var i := RemovePseudo(bits);
    TrimmedUsable(bits[..], i);
    result := bits[..17];
    if forall s :: 0 <= s <= SYMBOLS ==> len[s] <= 16 {
      forall l | 1 <= l <= 16
        ensures result[l] == LengthCount(len, l, SYMBOLS)
      {
        assert limited == was;
        assert bits[..] == was[i := was[i] - 1];
        assert forall k :: i < k <= MAX_CLEN ==> was[k] == bits[..][k];
        PseudoRemoved(was, bits[..], len, i, l);
      }
    }
  }

  // The counts with the pseudo-symbol's
  function WithPseudo(freq: seq<nat>): seq<nat>
    requires |freq| == SYMBOLS + 1
  {
    freq[SYMBOLS := 1]
  }

  lemma PseudoCounts(freq: seq<nat>)
    requires |freq| == SYMBOLS + 1
    ensures Total(WithPseudo(freq), |freq|) == Total(freq, SYMBOLS) + 1
    ensures Live(WithPseudo(freq), |freq|) == Live(freq, SYMBOLS) + 1
    ensures Live(WithPseudo(freq), SYMBOLS) == Live(freq, SYMBOLS)
  {
    TotalUpdate(freq, SYMBOLS, 1, |freq|);
    LiveUpdate(freq, SYMBOLS, 1, |freq|);
    LiveUpdate(freq, SYMBOLS, 1, SYMBOLS);
  }

  // Generate the best table for the counts, which it clobbers.
  method GenOptimalTable(freq: array<nat>) returns (ok: bool, h: HuffTable, ghost len: seq<nat>)
    requires freq.Length == SYMBOLS + 1 && Total(freq[..], SYMBOLS) <= SEARCH_LIMIT
    requires 1 <= Live(freq[..], SYMBOLS) <= 254
    modifies freq
    ensures ok ==> MadeFrom(WithPseudo(old(freq[..])), len, h, Live(old(freq[..]), SYMBOLS))
    ensures Total(old(freq[..]), SYMBOLS) < 9227464 ==> ok
  {
    hide CodeSizes, Live, Total, Counted, Usable, Words, Listed, LengthCount;
    ghost var was := freq[..];
    PseudoCounts(was);
    freq[SYMBOLS] := 1;
    ghost var counts := freq[..];
    assert counts == WithPseudo(was);
    var codesize := AssignCodeSizes(freq);
    len := codesize[..];
    SizesLive(counts, len);
    var bits;
    ok, bits := CountLengths(codesize);
    LengthsLimited(counts, len);
    h := HuffTable([], []);
    if ok {
      var counted := FinishBits(bits, counts, len);
      var huffval := new UInt8[SYMBOLS](j => 0);
      var p := ListSymbols(codesize, huffval);
      ListedCount(len);
      h := HuffTable(counted, huffval[..]);
      assert h.huffval[..p] == huffval[..p];
    }
  }

  lemma SizesLive(counts: seq<nat>, len: seq<nat>)
    requires CodeSizes(counts, len)
    ensures Live(len, |len|) == Live(counts, |counts|) && |len| == |counts|
    ensures |len| == SYMBOLS + 1 ==> Live(len, SYMBOLS) == Live(counts, SYMBOLS)
  {
    SameUse(counts, len, 0, |counts|);
    if |len| == SYMBOLS + 1 {
      SameUse(counts, len, 0, SYMBOLS);
    }
  }

  // Counts that add up to less than the 35th Fibonacci number give no code of over 32 bits.
  lemma LengthsLimited(counts: seq<nat>, len: seq<nat>)
    requires CodeSizes(counts, len)
    ensures Total(counts, |counts|) < 9227465 ==> forall s :: 0 <= s < |len| ==> len[s] <= MAX_CLEN
  {
    hide Fib, Total, Kraft, Cost;
    forall s | 0 <= s < |len| && Total(counts, |counts|) < 9227465
      ensures len[s] <= MAX_CLEN
    {
      if len[s] > MAX_CLEN {
        FibBound(len[s]);
      }
    }
  }

  lemma FibBound(l: nat)
    requires l > MAX_CLEN
    ensures 9227465 <= Fib(l + 2)
  {
    hide Fib;
    var n: nat := 35;
    FibGrows(n, l + 2);
    FibValue(n);
  }

  lemma FibValue(n: nat)
    requires n == 35
    ensures Fib(n) == 9227465
  {
    assert Fib(10) == 55 && Fib(11) == 89;
    assert Fib(20) == 6765 && Fib(21) == 10946;
    assert Fib(30) == 832040 && Fib(31) == 1346269;
  }
}
