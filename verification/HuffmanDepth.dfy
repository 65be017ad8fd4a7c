// How deep Huffman's trees get: counts below a Fibonacci number cannot give code words of
// more than 32 bits, and the pseudo-symbol, the last one with the smallest count, is always
// among the deepest.
module HuffmanDepth {
  import opened HuffmanMerge
  import opened HuffmanForest

  function Fib(n: nat): nat {
    if n < 2 then n else Fib(n - 1) + Fib(n - 2)
  }

  lemma {:induction false} FibGrows(i: nat, j: nat)
    requires 1 <= i <= j
    ensures 1 <= Fib(i) <= Fib(j)
    decreases j
  {
    if i < j {
      FibGrows(i, j - 1);
      if j > 2 {
        FibGrows(1, j - 2);
      }
    } else if i > 2 {
      FibGrows(1, i - 1);
      FibGrows(1, i - 2);
    }
  }

  // height[c] is the height of the tree that c stands for, last the larger count of the last
  // merge, and pseudo the larger count of the last merge of the pseudo-symbol's tree.
  datatype Growth = Growth(height: seq<nat>, last: nat, pseudo: nat)

  function StartGrowth(n: nat): Growth {
    Growth(seq(n, c => 0), 0, 0)
  }

  function Max(x: nat, y: nat): nat {
    if x < y then y else x
  }

  function NextGrowth(t: Forest, g: Growth, a: nat, b: nat): Growth
    requires WellFormed(t) && |g.height| == |t.freq| && a < |t.freq| && b < |t.freq|
  {
    var p := |t.freq| - 1;
    Growth(g.height[a := 1 + Max(g.height[a], g.height[b])],
           t.freq[b],
           if t.root[p] == a || t.root[p] == b then t.freq[b] else g.pseudo)
  }

  // ----- Heights -----

  predicate Live?(t: Forest, c: nat) {
    c < |t.freq| && t.freq[c] > 0
  }

  ghost predicate Heights(t: Forest, g: Growth) {
    && WellFormed(t) && |g.height| == |t.freq|
    && (forall s :: 0 <= s < |t.size| ==> t.size[s] <= g.height[t.root[s]])
    && forall c: nat {:trigger Live?(t, c)} :: Live?(t, c) ==>
         && Fib(g.height[c] + 2) <= t.freq[c] && g.last <= t.freq[c]
         && (0 < g.height[c] ==> Fib(g.height[c] + 1) <= g.last)
  }

  lemma HeightsStart(counts: seq<nat>)
    ensures Heights(Start(counts), StartGrowth(|counts|))
  {
    assert Fib(2) == 1;
  }

  // The two smallest counts
  ghost predicate Picked(t: Forest, a: nat, b: nat) {
    && a != b && Live?(t, a) && Live?(t, b)
    && (t.freq[a] < t.freq[b] || (t.freq[a] == t.freq[b] && b < a))
    && forall c: nat {:trigger Live?(t, c)} :: Live?(t, c) && c != a && c != b ==>
         && (t.freq[b] < t.freq[c] || (t.freq[b] == t.freq[c] && c < b))
         && (t.freq[a] < t.freq[c] || (t.freq[a] == t.freq[c] && c < a))
  }

  lemma PicksArePicked(t: Forest)
    requires WellFormed(t) && Searchable(t.freq) && First(t.freq) >= 0 && Second(t.freq) >= 0
    ensures Picked(t, First(t.freq), Second(t.freq))
  {
    TwoFound(t.freq);
    forall c: nat | Live?(t, c)
      ensures t.freq[c] <= SEARCH_LIMIT
    {
      CountBound(t.freq, c, |t.freq|);
    }
  }

  lemma HigherCount(ha: nat, hb: nat, fa: nat, fb: nat, last: nat)
    requires Fib(ha + 2) <= fa && Fib(hb + 2) <= fb && last <= fa <= fb
    requires (0 < ha ==> Fib(ha + 1) <= last) && (0 < hb ==> Fib(hb + 1) <= last)
    ensures Fib(Max(ha, hb) + 3) <= fa + fb && Fib(Max(ha, hb) + 2) <= fb
  {
    var h := Max(ha, hb);
    assert Fib(h + 3) == Fib(h + 2) + Fib(h + 1);
    assert Fib(1) == 1 && Fib(2) == 1;
  }

  lemma HeightsStep(t: Forest, g: Growth, a: nat, b: nat)
    requires Heights(t, g) && Picked(t, a, b)
    ensures Heights(MergeTrees(t, a, b), NextGrowth(t, g, a, b))
  {
    hide Fib, Merged;
    MergedIs(t.freq, a, b, t.freq[a] + t.freq[b]);
    HigherCount(g.height[a], g.height[b], t.freq[a], t.freq[b], g.last);
    var t', g' := MergeTrees(t, a, b), NextGrowth(t, g, a, b);
    forall c: nat | Live?(t', c)
      ensures Fib(g'.height[c] + 2) <= t'.freq[c] && g'.last <= t'.freq[c]
      ensures 0 < g'.height[c] ==> Fib(g'.height[c] + 1) <= g'.last
    {
      assert c != a ==> Live?(t, c);
    }
  }

  // ----- The pseudo-symbol -----

  // Tree c is chosen after the pseudo-symbol's tree r, whose count is smaller or wins the tie.
  predicate After(fc: nat, fr: nat, r: nat, p: nat) {
    fr < fc || (fr == fc && r == p)
  }

  ghost predicate PseudoDeepest(t: Forest, g: Growth) {
    && WellFormed(t) && |g.height| == |t.freq| > 0
    && var p := |t.freq| - 1; var r := t.root[p]; var k := t.size[p];
    && Live?(t, r) && g.height[r] == k
    && (k == 0 ==> r == p && t.freq[p] == 1)
    && (0 < k ==> 0 < g.pseudo && t.freq[r] <= 2 * g.pseudo)
    && forall c: nat {:trigger Live?(t, c)} :: Live?(t, c) && c != r ==>
         && g.height[c] <= k && (g.height[c] == k ==> After(t.freq[c], t.freq[r], r, p))
         && (0 < k ==> g.pseudo <= t.freq[c])
         && (g.height[c] + 1 == k ==> After(t.freq[c] + g.pseudo, t.freq[r], r, p))
  }

  lemma PseudoStart(counts: seq<nat>)
    requires |counts| > 0 && counts[|counts| - 1] == 1
    ensures PseudoDeepest(Start(counts), StartGrowth(|counts|))
  {
  }

  // The pseudo-symbol's tree is merged.
  lemma PseudoMerges(t: Forest, g: Growth, a: nat, b: nat)
    requires PseudoDeepest(t, g) && Picked(t, a, b)
    requires t.root[|t.freq| - 1] == a || t.root[|t.freq| - 1] == b
    ensures PseudoDeepest(MergeTrees(t, a, b), NextGrowth(t, g, a, b))
  {
    hide Merged;
    MergedIs(t.freq, a, b, t.freq[a] + t.freq[b]);
    var t', g' := MergeTrees(t, a, b), NextGrowth(t, g, a, b);
    var p := |t.freq| - 1;
    assert t'.root[p] == a && t'.size[p] == t.size[p] + 1;
    forall c: nat | Live?(t', c) && c != a
      ensures g'.height[c] < t'.size[p] && g'.pseudo <= t'.freq[c]
      ensures g'.height[c] + 1 == t'.size[p] ==> After(t'.freq[c] + g'.pseudo, t'.freq[a], a, p)
    {
      assert Live?(t, c);
    }
  }

  // Other trees are merged: both are lower than the pseudo-symbol's.
  lemma OthersMerge(t: Forest, g: Growth, a: nat, b: nat)
    requires PseudoDeepest(t, g) && Picked(t, a, b)
    requires t.root[|t.freq| - 1] != a && t.root[|t.freq| - 1] != b
    ensures PseudoDeepest(MergeTrees(t, a, b), NextGrowth(t, g, a, b))
  {
    hide Merged;
    MergedIs(t.freq, a, b, t.freq[a] + t.freq[b]);
    var t', g' := MergeTrees(t, a, b), NextGrowth(t, g, a, b);
    var p := |t.freq| - 1;
    var r, k := t.root[p], t.size[p];
    assert g.height[a] < k && g.height[b] < k;
    assert t'.root[p] == r && t'.size[p] == k;
    forall c: nat | Live?(t', c) && c != r
      ensures g'.height[c] <= k && (g'.height[c] == k ==> After(t'.freq[c], t'.freq[r], r, p))
      ensures g'.pseudo <= t'.freq[c]
      ensures g'.height[c] + 1 == k ==> After(t'.freq[c] + g'.pseudo, t'.freq[r], r, p)
    {
      assert c != a ==> Live?(t, c);
    }
  }

  // ----- When one tree is left -----

  // No code word is longer than the pseudo-symbol's, and the counts must add up to a
  // Fibonacci number for it to be long.
  lemma DepthsEnd(counts: seq<nat>, t: Forest, g: Growth, s: nat)
    requires Grown(counts, t) && Heights(t, g) && PseudoDeepest(t, g) && Live(t.freq, |counts|) <= 1
    requires s < |counts| && counts[s] > 0
    ensures t.size[s] <= t.size[|counts| - 1]
    ensures Fib(t.size[s] + 2) <= Total(t.freq, |counts|)
  {
    hide Live, Total, TreeTotal, TreeKraft, Cost, Fib, Optimal;
    var r := t.root[|counts| - 1];
    SingleTree(counts, t, r, s);
    CountBound(t.freq, r, |counts|);
    FibGrows(t.size[s] + 2, g.height[r] + 2);
  }
}
