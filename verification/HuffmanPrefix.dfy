// The Kraft inequality for prefix codes: Huffman's lengths are optimal among the lengths of
// all prefix codes.
module HuffmanPrefix {
  import opened Arithmetic
  import opened HuffmanMerge
  import opened HuffmanForest

  type Word = seq<bool>

  // No word of a symbol in use is the beginning of another one.
  predicate PrefixFree(freq: seq<nat>, words: seq<Word>) {
    && |freq| == |words|
    && forall i, j :: 0 <= i < |freq| && 0 <= j < |freq| && i != j && freq[i] > 0 && freq[j] > 0 ==>
         !(words[i] <= words[j])
  }

  function Lengths(words: seq<Word>): (len: seq<nat>)
    ensures |len| == |words|
  {
    seq(|words|, i requires 0 <= i < |words| => |words[i]|)
  }

  // The symbols in use whose words begin with bit b, and the words after their first bits
  function Starting(freq: seq<nat>, words: seq<Word>, b: bool): (freq': seq<nat>)
    requires |freq| == |words|
    ensures |freq'| == |freq|
  {
    seq(|freq|, i requires 0 <= i < |freq| => if freq[i] > 0 && words[i] != [] && words[i][0] == b then 1 else 0)
  }

  function Tails(words: seq<Word>): (tails: seq<Word>)
    ensures |tails| == |words|
  {
    seq(|words|, i requires 0 <= i < |words| => if words[i] == [] then [] else words[i][1..])
  }

  lemma TailsPrefixFree(freq: seq<nat>, words: seq<Word>, b: bool)
    requires PrefixFree(freq, words)
    ensures PrefixFree(Starting(freq, words, b), Tails(words))
  {
    var f, t := Starting(freq, words, b), Tails(words);
    forall i, j | 0 <= i < |f| && 0 <= j < |f| && i != j && f[i] > 0 && f[j] > 0
      ensures !(t[i] <= t[j])
    {
      assert words[i] == [b] + t[i] && words[j] == [b] + t[j];
      assert !(words[i] <= words[j]);
    }
  }

  lemma {:induction false} KraftSplit(freq: seq<nat>, words: seq<Word>, m: nat, n: nat)
    requires n <= |freq| == |words| && 0 < m
    requires forall i :: 0 <= i < |freq| && freq[i] > 0 ==> words[i] != []
    ensures Kraft(freq, Lengths(words), m, n)
         == Kraft(Starting(freq, words, false), Lengths(Tails(words)), m - 1, n)
            + Kraft(Starting(freq, words, true), Lengths(Tails(words)), m - 1, n)
  {
    if n > 0 {
      KraftSplit(freq, words, m, n - 1);
    }
  }

  lemma {:induction false} KraftOnly(freq: seq<nat>, len: seq<nat>, m: nat, x: nat, n: nat)
    requires n <= |freq| == |len| && x < |freq| && len[x] == 0
    requires forall i :: 0 <= i < |freq| && i != x ==> freq[i] == 0
    ensures Kraft(freq, len, m, n) <= Scale(1, m)
    ensures n <= x ==> Kraft(freq, len, m, n) == 0
  {
    if n > 0 {
      KraftOnly(freq, len, m, x, n - 1);
    }
  }

  lemma {:induction false} KraftUnused(freq: seq<nat>, len: seq<nat>, m: nat, n: nat)
    requires n <= |freq| == |len| && forall i :: 0 <= i < |freq| ==> freq[i] == 0
    ensures Kraft(freq, len, m, n) == 0
  {
    if n > 0 {
      KraftUnused(freq, len, m, n - 1);
    }
  }

  lemma {:induction false} PrefixKraft(freq: seq<nat>, words: seq<Word>, m: nat)
    requires PrefixFree(freq, words) && forall i :: 0 <= i < |freq| && freq[i] > 0 ==> |words[i]| <= m
    ensures Kraft(freq, Lengths(words), m, |freq|) <= Scale(1, m)
    decreases m
  {
    hide Kraft;
    if x :| 0 <= x < |freq| && freq[x] > 0 && words[x] == [] {
      forall i | 0 <= i < |freq| && i != x
        ensures freq[i] == 0
      {
        assert words[x] <= words[i];
      }
      KraftOnly(freq, Lengths(words), m, x, |freq|);
    } else if m == 0 {
      KraftUnused(freq, Lengths(words), m, |freq|);
    } else {
      KraftSplit(freq, words, m, |freq|);
      TailsPrefixFree(freq, words, false);
      TailsPrefixFree(freq, words, true);
      PrefixKraft(Starting(freq, words, false), Tails(words), m - 1);
      PrefixKraft(Starting(freq, words, true), Tails(words), m - 1);
    }
  }

  // No prefix code for the symbols in use gives a shorter message.
  lemma OptimalPrefixCode(counts: seq<nat>, len: seq<nat>, words: seq<Word>, m: nat)
    requires Optimal(counts, len) && PrefixFree(counts, words)
    requires forall i :: 0 <= i < |counts| && counts[i] > 0 ==> |words[i]| <= m
    ensures Cost(counts, len, |counts|) <= Cost(counts, Lengths(words), |counts|)
  {
    PrefixKraft(counts, words, m);
    assert Code(counts, Lengths(words), m);
  }
}
