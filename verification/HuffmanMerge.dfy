// Huffman's algorithm on a vector of counts, as jpeg_gen_optimal_table runs it: the two
// smallest counts are merged until one is left.  No code whose lengths satisfy the Kraft
// inequality costs less than the sum of the merged counts.
module HuffmanMerge {
  import opened Arithmetic

  // Counts above this are not found by the search for the smallest ones.
  const SEARCH_LIMIT := 1_000_000_000

  // ----- Sums over the counts -----

  function Total(freq: seq<nat>, n: nat): nat
    requires n <= |freq|
  {
    if n == 0 then 0 else Total(freq, n - 1) + freq[n - 1]
  }

  function Live(freq: seq<nat>, n: nat): (count: nat)
    requires n <= |freq|
    ensures count <= n
  {
    if n == 0 then 0 else Live(freq, n - 1) + if freq[n - 1] > 0 then 1 else 0
  }

  // Total length of a message with these symbol counts and code lengths
  function Cost(freq: seq<nat>, len: seq<nat>, n: nat): nat
    requires n <= |freq| == |len|
  {
    if n == 0 then 0 else Cost(freq, len, n - 1) + freq[n - 1] * len[n - 1]
  }

  // The share of the code space that a code word of length l takes, in units of 2^-m
  function Share(m: nat, l: nat): nat {
    if l <= m then Scale(1, m - l) else 0
  }

  function Kraft(freq: seq<nat>, len: seq<nat>, m: nat, n: nat): nat
    requires n <= |freq| == |len|
  {
    if n == 0 then 0 else Kraft(freq, len, m, n - 1) + if freq[n - 1] > 0 then Share(m, len[n - 1]) else 0
  }

  // The lengths are those of some code, and none exceeds m.
  predicate Code(freq: seq<nat>, len: seq<nat>, m: nat) {
    && |freq| == |len|
    && (forall i :: 0 <= i < |freq| && freq[i] > 0 ==> len[i] <= m)
    && Kraft(freq, len, m, |freq|) <= Scale(1, m)
  }

  // ----- Choosing the two smallest counts -----

  // The smallest nonzero count among the first n but for position except; the last one of
  // equal counts
  function Pick(freq: seq<nat>, except: int, n: nat): (c: int)
    requires n <= |freq|
    ensures -1 <= c < n && (c >= 0 ==> c != except && 0 < freq[c] <= SEARCH_LIMIT)
    ensures forall i :: 0 <= i < n && i != except && i != c && 0 < freq[i] <= SEARCH_LIMIT ==>
              c >= 0 && (freq[c] < freq[i] || (freq[c] == freq[i] && i < c))
  {
    if n == 0 then -1
    else
      var c := Pick(freq, except, n - 1);
      var i := n - 1;
      if freq[i] > 0 && freq[i] <= (if c < 0 then SEARCH_LIMIT else freq[c]) && i != except then i else c
  }

  function First(freq: seq<nat>): int {
    Pick(freq, -1, |freq|)
  }

  function Second(freq: seq<nat>): int {
    Pick(freq, First(freq), |freq|)
  }

  function Merged(freq: seq<nat>, a: nat, b: nat): (freq': seq<nat>)
    requires a < |freq| && b < |freq|
    ensures |freq'| == |freq|
  {
    freq[a := freq[a] + freq[b]][b := 0]
  }

  // ----- How the sums change -----

  lemma {:induction false} LiveUpdate(freq: seq<nat>, i: nat, v: nat, n: nat)
    requires n <= |freq| && i < |freq|
    ensures Live(freq[i := v], n)
         == Live(freq, n) - (if i < n && freq[i] > 0 then 1 else 0) + if i < n && v > 0 then 1 else 0
  {
    if n > 0 {
      LiveUpdate(freq, i, v, n - 1);
    }
  }

  lemma {:induction false} TotalUpdate(freq: seq<nat>, i: nat, v: nat, n: nat)
    requires n <= |freq| && i < |freq|
    ensures Total(freq[i := v], n) == Total(freq, n) + if i < n then v - freq[i] else 0
  {
    if n > 0 {
      TotalUpdate(freq, i, v, n - 1);
    }
  }

  lemma {:induction false} CostUpdate(freq: seq<nat>, len: seq<nat>, i: nat, v: nat, l: nat, n: nat)
    requires n <= |freq| == |len| && i < |freq|
    ensures Cost(freq[i := v], len[i := l], n) == Cost(freq, len, n) + if i < n then v * l - freq[i] * len[i] else 0
  {
    if n > 0 {
      CostUpdate(freq, len, i, v, l, n - 1);
    }
  }

  lemma {:induction false} KraftUpdate(freq: seq<nat>, len: seq<nat>, m: nat, i: nat, v: nat, l: nat, n: nat)
    requires n <= |freq| == |len| && i < |freq|
    ensures Kraft(freq[i := v], len[i := l], m, n) + (if i < n && freq[i] > 0 then Share(m, len[i]) else 0)
         == Kraft(freq, len, m, n) + if i < n && v > 0 then Share(m, l) else 0
  {
    hide Share;
    if n > 0 {
      KraftUpdate(freq, len, m, i, v, l, n - 1);
    }
  }

  lemma MergedIs(freq: seq<nat>, a: nat, b: nat, sum: nat)
    requires a < |freq| && b < |freq| && sum == freq[a] + freq[b]
    ensures Merged(freq, a, b) == freq[a := sum][b := 0]
  {
  }

  lemma MergedLive(freq: seq<nat>, a: nat, b: nat)
    requires a < |freq| && b < |freq| && a != b && freq[a] > 0 && freq[b] > 0
    ensures Live(Merged(freq, a, b), |freq|) == Live(freq, |freq|) - 1
  {
    hide Live, Merged;
    var sum, n := freq[a] + freq[b], |freq|;
    MergedIs(freq, a, b, sum);
    LiveUpdate(freq, a, sum, n);
    LiveUpdate(freq[a := sum], b, 0, n);
  }

  lemma MergedTotal(freq: seq<nat>, a: nat, b: nat)
    requires a < |freq| && b < |freq| && a != b
    ensures Total(Merged(freq, a, b), |freq|) == Total(freq, |freq|)
  {
    hide Total, Merged;
    var sum, n := freq[a] + freq[b], |freq|;
    MergedIs(freq, a, b, sum);
    TotalUpdate(freq, a, sum, n);
    TotalUpdate(freq[a := sum], b, 0, n);
  }

  // ----- The search finds two counts as long as two are left -----

  lemma {:induction false} CountBound(freq: seq<nat>, i: nat, n: nat)
    requires i < n <= |freq|
    ensures freq[i] <= Total(freq, n)
    ensures Live(freq, n) >= 2 && freq[i] > 0 ==> freq[i] < Total(freq, n)
  {
    if i == n - 1 {
      TotalPositive(freq, n - 1);
    } else {
      CountBound(freq, i, n - 1);
      TotalPositive(freq, n - 1);
      if freq[i] > 0 {
        OtherCounts(freq, i, n - 1);
      }
    }
  }

  lemma {:induction false} TotalPositive(freq: seq<nat>, n: nat)
    requires n <= |freq|
    ensures Live(freq, n) <= Total(freq, n)
  {
    if n > 0 {
      TotalPositive(freq, n - 1);
    }
  }

  lemma {:induction false} OtherCounts(freq: seq<nat>, i: nat, n: nat)
    requires i < n <= |freq| && freq[i] > 0
    ensures Live(freq, n) >= 1
  {
    if i < n - 1 {
      OtherCounts(freq, i, n - 1);
    }
  }

  lemma {:induction false} SomeLive(freq: seq<nat>, except: int, n: nat) returns (i: nat)
    requires n <= |freq| && Live(freq, n) > (if 0 <= except < n && freq[except] > 0 then 1 else 0)
    ensures i < n && i != except && freq[i] > 0
  {
    if n - 1 != except && freq[n - 1] > 0 {
      i := n - 1;
    } else {
      i := SomeLive(freq, except, n - 1);
    }
  }

  // Counts whose sum does not exceed the search limit, and the pseudo-symbol's 1
  predicate Searchable(freq: seq<nat>) {
    Total(freq, |freq|) <= SEARCH_LIMIT + 1
  }

  lemma TwoFound(freq: seq<nat>)
    requires Searchable(freq)
    ensures Second(freq) >= 0 <==> Live(freq, |freq|) >= 2
    ensures Second(freq) >= 0 ==> First(freq) >= 0
  {
    var n := |freq|;
    if Live(freq, n) >= 2 {
      var i := SomeLive(freq, -1, n);
      CountBound(freq, i, n);
      var j := SomeLive(freq, First(freq), n);
      CountBound(freq, j, n);
    } else if Second(freq) >= 0 {
      TwoLive(freq, First(freq), Second(freq), n);
    }
  }

  lemma {:induction false} TwoLive(freq: seq<nat>, a: int, b: nat, n: nat)
    requires b < n <= |freq| && a != b && freq[b] > 0
    ensures 0 <= a < n && freq[a] > 0 ==> Live(freq, n) >= 2
    ensures Live(freq, n) >= 1
  {
    OtherCounts(freq, b, n);
    if 0 <= a < n && freq[a] > 0 {
      if b == n - 1 {
        OtherCounts(freq, a, n - 1);
      } else if a == n - 1 {
        OtherCounts(freq, b, n - 1);
      } else {
        TwoLive(freq, a, b, n - 1);
      }
    }
  }

  // The sum of all counts that are still going to be merged
  function MergeCost(freq: seq<nat>): nat
    decreases Live(freq, |freq|)
  {
    if First(freq) >= 0 && Second(freq) >= 0 then
      FirstLessMerged(freq);
      freq[First(freq)] + freq[Second(freq)] + MergeCost(Merged(freq, First(freq), Second(freq)))
    else 0
  }

  lemma FirstLessMerged(freq: seq<nat>)
    requires First(freq) >= 0 && Second(freq) >= 0
    ensures Live(Merged(freq, First(freq), Second(freq)), |freq|) < Live(freq, |freq|)
  {
    MergedLive(freq, First(freq), Second(freq));
  }

  // ----- The lower bound -----

  // Positions of the longest code words
  predicate Longest(freq: seq<nat>, len: seq<nat>, m: nat, i: nat) {
    i < |freq| == |len| && freq[i] > 0 && len[i] == m
  }

  // Without a code word of length m the limit can be lowered.
  lemma {:induction false} KraftLower(freq: seq<nat>, len: seq<nat>, m: nat, n: nat)
    requires n <= |freq| == |len| && 0 < m
    requires forall i :: 0 <= i < |freq| && freq[i] > 0 ==> len[i] <= m - 1
    ensures Kraft(freq, len, m, n) == 2 * Kraft(freq, len, m - 1, n)
  {
    if n > 0 {
      KraftLower(freq, len, m, n - 1);
    }
  }

  lemma CodeLower(freq: seq<nat>, len: seq<nat>, m: nat)
    requires Code(freq, len, m) && 0 < m && !exists i :: Longest(freq, len, m, i)
    ensures Code(freq, len, m - 1)
  {
    forall i | 0 <= i < |freq| && freq[i] > 0
      ensures len[i] <= m - 1
    {
      assert !Longest(freq, len, m, i);
    }
    KraftLower(freq, len, m, |freq|);
  }

  // If only one code word has the length m, the Kraft sum is odd and leaves it room to
  // become shorter.
  lemma {:induction false} KraftParity(freq: seq<nat>, len: seq<nat>, m: nat, x: nat, n: nat)
    requires n <= |freq| == |len| && 0 < m && Longest(freq, len, m, x)
    requires forall i :: 0 <= i < |freq| && i != x && freq[i] > 0 ==> len[i] < m
    ensures Kraft(freq, len, m, n) % 2 == if x < n then 1 else 0
  {
    if n > 0 {
      KraftParity(freq, len, m, x, n - 1);
      if n - 1 != x && freq[n - 1] > 0 {
        assert Share(m, len[n - 1]) == 2 * Scale(1, m - len[n - 1] - 1);
      }
    }
  }

  lemma SingleLongest(freq: seq<nat>, len: seq<nat>, m: nat, x: nat)
    requires Code(freq, len, m) && 0 < m && Longest(freq, len, m, x)
    requires forall i :: 0 <= i < |freq| && i != x && freq[i] > 0 ==> len[i] < m
    ensures Code(freq, len[x := m - 1], m - 1)
    ensures Cost(freq, len[x := m - 1], |freq|) <= Cost(freq, len, |freq|)
  {
    KraftParity(freq, len, m, x, |freq|);
    assert Scale(1, m) == 2 * Scale(1, m - 1);
    assert freq[x := freq[x]] == freq;
    KraftUpdate(freq, len, m, x, freq[x], m - 1, |freq|);
    CostUpdate(freq, len, x, freq[x], m - 1, |freq|);
    assert freq[x] * (m - 1) <= freq[x] * m by {
      Distribute(freq[x], m - 1, 1);
    }
    assert Share(m, m) == 1 && Share(m, m - 1) == 2 by {
      ShortShares(m);
    }
    KraftLower(freq, len[x := m - 1], m, |freq|);
  }

  lemma ShortShares(m: nat)
    requires 0 < m
    ensures Share(m, m) == 1 && Share(m, m - 1) == 2
  {
    assert m - m == 0 && m - (m - 1) == 1;
  }

  lemma Rearrange(fa: nat, fx: nat, la: nat, m: nat)
    requires fa <= fx && la <= m
    ensures fa * m + fx * la <= fa * la + fx * m
  {
    var df, dl := fx - fa, m - la;
    Distribute(fa, la, dl);
    Distribute(la, fa, df);
    Distribute(m, fa, df);
    Distribute(df, la, dl);
    assert df * dl >= 0;
  }

  // Giving the longer of two code words to the rarer symbol does not increase the cost.
  lemma Exchange(freq: seq<nat>, len: seq<nat>, m: nat, a: nat, x: nat)
    requires Code(freq, len, m) && Longest(freq, len, m, x) && a < |freq| && a != x
    requires 0 < freq[a] <= freq[x]
    ensures Code(freq, len[a := m][x := len[a]], m)
    ensures Cost(freq, len[a := m][x := len[a]], |freq|) <= Cost(freq, len, |freq|)
  {
    hide Cost, Kraft, Share;
    var n := |freq|;
    assert freq[a := freq[a]] == freq && freq[x := freq[x]] == freq;
    KraftUpdate(freq, len, m, a, freq[a], m, n);
    KraftUpdate(freq, len[a := m], m, x, freq[x], len[a], n);
    CostUpdate(freq, len, a, freq[a], m, n);
    CostUpdate(freq, len[a := m], x, freq[x], len[a], n);
    Rearrange(freq[a], freq[x], len[a], m);
  }

  // A code as good in which the two smallest counts have the longest code words
  lemma Deepen(freq: seq<nat>, len: seq<nat>, m: nat, a: nat, x: nat) returns (len': seq<nat>)
    requires Code(freq, len, m) && Longest(freq, len, m, x) && a < |freq| && 0 < freq[a] <= freq[x]
    ensures Code(freq, len', m) && Longest(freq, len', m, a)
    ensures Cost(freq, len', |freq|) <= Cost(freq, len, |freq|)
    ensures forall y :: 0 <= y < |freq| && y != a && y != x ==> len'[y] == len[y]
    ensures len[a] == m ==> len' == len
  {
    if len[a] == m {
      len' := len;
    } else {
      Exchange(freq, len, m, a, x);
      len' := len[a := m][x := len[a]];
    }
  }

  // Two siblings of the greatest length make way for their parent.
  lemma Contract(freq: seq<nat>, len: seq<nat>, m: nat, a: nat, b: nat)
    requires Code(freq, len, m) && 0 < m && a != b && Longest(freq, len, m, a) && Longest(freq, len, m, b)
    ensures Code(Merged(freq, a, b), len[a := m - 1], m)
    ensures Cost(freq, len, |freq|) == freq[a] + freq[b] + Cost(Merged(freq, a, b), len[a := m - 1], |freq|)
  {
    hide Cost, Kraft, Share, Merged;
    var n, sum := |freq|, freq[a] + freq[b];
    MergedIs(freq, a, b, sum);
    var f, l := freq[a := sum], len[a := m - 1];
    assert l[b := l[b]] == l;
    ShortShares(m);
    KraftUpdate(freq, len, m, a, sum, m - 1, n);
    KraftUpdate(f, l, m, b, 0, l[b], n);
    CostUpdate(freq, len, a, sum, m - 1, n);
    CostUpdate(f, l, b, 0, l[b], n);
    ContractCost(freq[a], freq[b], m);
    assert Code(f[b := 0], l, m);
  }

  lemma ContractCost(fa: nat, fb: nat, m: nat)
    requires 0 < m
    ensures (fa + fb) * (m - 1) + fa + fb == fa * m + fb * m
  {
  }

  lemma {:induction false} KraftZero(freq: seq<nat>, len: seq<nat>, n: nat)
    requires n <= |freq| == |len| && forall i :: 0 <= i < |freq| && freq[i] > 0 ==> len[i] == 0
    ensures Kraft(freq, len, 0, n) == Live(freq, n)
  {
    if n > 0 {
      KraftZero(freq, len, n - 1);
    }
  }

  lemma NoLength(freq: seq<nat>, len: seq<nat>)
    requires Code(freq, len, 0)
    ensures Live(freq, |freq|) <= 1
  {
    KraftZero(freq, len, |freq|);
  }

  // Any code is at least as expensive as Huffman's.
  lemma {:induction false} LowerBound(freq: seq<nat>, len: seq<nat>, m: nat)
    requires Searchable(freq) && Code(freq, len, m)
    ensures MergeCost(freq) <= Cost(freq, len, |freq|)
    decreases Live(freq, |freq|), m
  {
    hide Cost, Kraft, Share, Pick, Live, Total;
    if First(freq) >= 0 && Second(freq) >= 0 {
      TwoFound(freq);
      if m == 0 {
        NoLength(freq, len);
      } else if x: nat :| Longest(freq, len, m, x) {
        if y: nat :| y != x && Longest(freq, len, m, y) {
          LowerBoundMerge(freq, len, m, x, y);
        } else {
          OthersShorter(freq, len, m, x);
          SingleLongest(freq, len, m, x);
          LowerBound(freq, len[x := m - 1], m - 1);
        }
      } else {
        CodeLower(freq, len, m);
        LowerBound(freq, len, m - 1);
      }
    }
  }

  lemma OthersShorter(freq: seq<nat>, len: seq<nat>, m: nat, x: nat)
    requires Code(freq, len, m) && !exists y :: y != x && Longest(freq, len, m, y)
    ensures forall i :: 0 <= i < |freq| && i != x && freq[i] > 0 ==> len[i] < m
  {
    forall i | 0 <= i < |freq| && i != x && freq[i] > 0
      ensures len[i] < m
    {
      assert !Longest(freq, len, m, i);
    }
  }

  lemma {:induction false} LowerBoundMerge(freq: seq<nat>, len: seq<nat>, m: nat, x: nat, y: nat)
    requires Searchable(freq) && Code(freq, len, m) && 0 < m
    requires First(freq) >= 0 && Second(freq) >= 0
    requires x != y && Longest(freq, len, m, x) && Longest(freq, len, m, y)
    ensures MergeCost(freq) <= Cost(freq, len, |freq|)
    decreases Live(freq, |freq|), 0
  {
    hide Cost, Kraft, Share, Pick, Live, Total, Merged, Code;
    var a, b := First(freq), Second(freq);
    PicksSmallest(freq, x);
    PicksSmallest(freq, y);
    var len1 := Deepen(freq, len, m, a, if x == a then y else x);
    var z := if x == a then y else if y == a then x else y;
    var len2 := Deepen(freq, len1, m, b, z);
    Contract(freq, len2, m, a, b);
    MergedTotal(freq, a, b);
    MergedLive(freq, a, b);
    LowerBound(Merged(freq, a, b), len2[a := m - 1], m);
  }

  lemma PicksSmallest(freq: seq<nat>, x: nat)
    requires Searchable(freq) && First(freq) >= 0 && Second(freq) >= 0 && x < |freq| && freq[x] > 0
    ensures freq[First(freq)] <= freq[Second(freq)] && freq[First(freq)] <= freq[x]
    ensures x != First(freq) ==> freq[Second(freq)] <= freq[x]
  {
    TwoFound(freq);
    CountBound(freq, x, |freq|);
  }
}
