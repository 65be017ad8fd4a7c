// The merging loop of jpeg_gen_optimal_table (jchuff.c) on its arrays: counts, code sizes and
// chains of symbols.
module HuffmanLengths {
  import opened HuffmanMerge
  import opened HuffmanForest
  import opened HuffmanDepth

  // others links the symbols of the chain.
  predicate Linked(others: seq<int>, chain: seq<nat>) {
    && chain != [] && (forall i :: 0 <= i < |chain| ==> chain[i] < |others|)
    && (forall i, j :: 0 <= i < j < |chain| ==> chain[i] != chain[j])
    && (forall i :: 0 <= i < |chain| - 1 ==> others[chain[i]] == chain[i + 1])
    && others[chain[|chain| - 1]] == -1
  }

  // Every symbol is on the chain of the symbol that stands for its tree, which comes first.
  ghost predicate Chained(others: seq<int>, root: seq<nat>, chains: seq<seq<nat>>) {
    && |others| == |root| == |chains|
    && (forall s :: 0 <= s < |root| ==> root[s] < |root|)
    && (forall c :: 0 <= c < |chains| && chains[c] != [] ==> Linked(others, chains[c]) && chains[c][0] == c)
    && forall c, s :: 0 <= c < |chains| && 0 <= s < |root| ==> (s in chains[c] <==> root[s] == c)
  }

  // The smallest nonzero count; in case of ties, the larger symbol number
  method FindSmallest(freq: array<nat>, except: int) returns (c: int)
    ensures c == Pick(freq[..], except, freq.Length)
  {
    c := -1;
    var v := SEARCH_LIMIT;
    for i := 0 to freq.Length
      invariant c == Pick(freq[..], except, i) && v == if c < 0 then SEARCH_LIMIT else freq[c]
    {
      if freq[i] != 0 && freq[i] <= v && i != except {
        v := freq[i];
        c := i;
      }
    }
  }

  function Longer(size: seq<nat>, chain: seq<nat>): seq<nat> {
    seq(|size|, s requires 0 <= s < |size| => size[s] + if s in chain then 1 else 0)
  }

  lemma AtEnd(others: seq<int>, chain: seq<nat>, i: nat)
    requires Linked(others, chain) && i < |chain|
    ensures others[chain[i]] >= 0 <==> i < |chain| - 1
  {
    if i < |chain| - 1 {
      assert others[chain[i]] == chain[i + 1];
    }
  }

  // Increment the code size of everything in the branch of c0.
  method LengthenBranch(codesize: array<nat>, others: array<int>, c0: nat, ghost chain: seq<nat>) returns (c: nat)
    requires Linked(others[..], chain) && chain[0] == c0 && codesize.Length == others.Length
    modifies codesize
    ensures codesize[..] == Longer(old(codesize[..]), chain) && c == chain[|chain| - 1]
  {
    c := c0;
    codesize[c] := codesize[c] + 1;
    ghost var i, links := 0, others[..];
    while others[c] >= 0
      invariant 0 <= i < |chain| && c == chain[i]
      invariant forall s :: 0 <= s < codesize.Length ==>
                  codesize[s] == old(codesize[s]) + if s in chain[..i + 1] then 1 else 0
      decreases |chain| - i
    {
      assert links[chain[i]] >= 0 && links[chain[i]] == chain[i + 1];
      c := others[c];
      codesize[c] := codesize[c] + 1;
      i := i + 1;
      assert chain[..i + 1] == chain[..i] + [chain[i]];
    }
    AtEnd(links, chain, i);
    assert chain[..i + 1] == chain;
  }

  lemma JoinedLink(others: seq<int>, first: seq<nat>, second: seq<nat>)
    requires Linked(others, first) && Linked(others, second)
    requires forall x :: x in first ==> x !in second
    ensures Linked(others[first[|first| - 1] := second[0]], first + second)
  {
    var chain := first + second;
    var others' := others[first[|first| - 1] := second[0]];
    forall i | 0 <= i < |chain| - 1
      ensures others'[chain[i]] == chain[i + 1]
    {
      if i < |first| {
        assert chain[i] == first[i];
      } else {
        assert chain[i] == second[i - |first|] && chain[i] in second;
      }
    }
    assert chain[|chain| - 1] == second[|second| - 1] && second[|second| - 1] in second;
    forall i, j | 0 <= i < j < |chain|
      ensures chain[i] != chain[j]
    {
      if i < |first| <= j {
        assert chain[i] in first && chain[j] in second;
      }
    }
  }

  // The chains after a merge
  function Joined(chains: seq<seq<nat>>, a: nat, b: nat): seq<seq<nat>>
    requires a < |chains| && b < |chains|
  {
    chains[a := chains[a] + chains[b]][b := []]
  }

  lemma ChainedStep(others: seq<int>, t: Forest, chains: seq<seq<nat>>, a: nat, b: nat)
    requires WellFormed(t) && Chained(others, t.root, chains) && a < |others| && b < |others| && a != b
    requires chains[a] != [] && chains[b] != []
    ensures Chained(others[chains[a][|chains[a]| - 1] := b], MergeTrees(t, a, b).root, Joined(chains, a, b))
  {
    hide Merged, Linked;
    var last := chains[a][|chains[a]| - 1];
    assert Linked(others, chains[a]) && Linked(others, chains[b]);
    assert last in chains[a];
    InRange(others, chains[a], last);
    assert t.root[last] == a;
    var others', chains' := others[last := b], Joined(chains, a, b);
    forall x | x in chains[a]
      ensures x !in chains[b]
    {
      InRange(others, chains[a], x);
      assert t.root[x] == a;
    }
    JoinedLink(others, chains[a], chains[b]);
    forall c | 0 <= c < |chains'| && chains'[c] != []
      ensures Linked(others', chains'[c]) && chains'[c][0] == c
    {
      if c == a {
        FirstOfJoined(chains[a], chains[b]);
      } else {
        assert last !in chains[c];
        OtherLink(others, chains[c], last, b);
      }
    }
  }

  lemma FirstOfJoined(first: seq<nat>, second: seq<nat>)
    requires first != []
    ensures (first + second)[0] == first[0]
  {
  }

  lemma InRange(others: seq<int>, chain: seq<nat>, x: nat)
    requires Linked(others, chain) && x in chain
    ensures x < |others|
  {
  }

  lemma OtherLink(others: seq<int>, chain: seq<nat>, x: nat, v: int)
    requires Linked(others, chain) && x < |others| && x !in chain
    ensures Linked(others[x := v], chain)
  {
    forall i | 0 <= i < |chain|
      ensures others[x := v][chain[i]] == others[chain[i]]
    {
      assert chain[i] in chain;
    }
  }

  // What a merge does to the code sizes
  lemma LongerTwice(others: seq<int>, t: Forest, chains: seq<seq<nat>>, a: nat, b: nat)
    requires WellFormed(t) && Chained(others, t.root, chains) && a < |others| && b < |others| && a != b
    ensures Longer(Longer(t.size, chains[a]), chains[b]) == MergeTrees(t, a, b).size
  {
    hide Merged, Linked;
    var x, y := Longer(Longer(t.size, chains[a]), chains[b]), MergeTrees(t, a, b).size;
    forall s: nat | s < |x|
      ensures x[s] == y[s]
    {
      assert s in chains[a] <==> t.root[s] == a;
      assert s in chains[b] <==> t.root[s] == b;
    }
  }

  // ----- The merging loop -----

  // Where the loop stands: its arrays hold the forest t, and chains its links.
  ghost predicate Merging(counts: seq<nat>, t: Forest, g: Growth, chains: seq<seq<nat>>, freq: seq<nat>,
                          codesize: seq<nat>, others: seq<int>) {
    && WellFormed(t) && freq == t.freq && codesize == t.size
    && Chained(others, t.root, chains) && |others| == |t.freq|
    && (forall c: nat {:trigger Live?(t, c)} :: Live?(t, c) ==> chains[c] != [])
    && Grown(counts, t) && Untouched(counts, t) && Heights(t, g) && PseudoDeepest(t, g)
  }

  function SingletonChains(n: nat): seq<seq<nat>> {
    seq(n, c requires 0 <= c => [c])
  }

  lemma MergingStart(counts: seq<nat>, others: seq<int>)
    requires Searchable(counts) && |others| == |counts| > 0 && counts[|counts| - 1] == 1
    requires forall i :: 0 <= i < |others| ==> others[i] == -1
    ensures Merging(counts, Start(counts), StartGrowth(|counts|), SingletonChains(|counts|), counts,
                    seq(|counts|, s => 0), others)
  {
    hide Grown, Heights, PseudoDeepest;
    GrownStart(counts);
    HeightsStart(counts);
    PseudoStart(counts);
  }

  lemma MergingStep(counts: seq<nat>, t: Forest, g: Growth, chains: seq<seq<nat>>, freq: seq<nat>,
                    codesize: seq<nat>, others: seq<int>, a: nat, b: nat)
    requires Merging(counts, t, g, chains, freq, codesize, others)
    requires a == First(freq) && b == Second(freq)
    ensures a != b && a < |others| == |chains| && b < |others|
    ensures chains[a] != [] && chains[b] != [] && Linked(others, chains[a]) && Linked(others, chains[b])
    ensures chains[a][0] == a && chains[b][0] == b && chains[a][|chains[a]| - 1] < |others|
    ensures Linked(others[chains[a][|chains[a]| - 1] := b], chains[b])
    ensures Merging(counts, MergeTrees(t, a, b), NextGrowth(t, g, a, b), Joined(chains, a, b),
                    Merged(freq, a, b), Longer(Longer(codesize, chains[a]), chains[b]),
                    others[chains[a][|chains[a]| - 1] := b])
  {
    hide Grown, Heights, PseudoDeepest, Chained, Linked, Merged, Untouched, Longer, Pick, MergeTrees, NextGrowth;
    BranchesLinked(counts, t, g, chains, freq, codesize, others, a, b);
    MergedForest(counts, t, g, a, b);
    ChainedStep(others, t, chains, a, b);
    LongerTwice(others, t, chains, a, b);
    LiveChains(t, chains, a, b);
  }

  lemma BranchesLinked(counts: seq<nat>, t: Forest, g: Growth, chains: seq<seq<nat>>, freq: seq<nat>,
                       codesize: seq<nat>, others: seq<int>, a: nat, b: nat)
    requires Merging(counts, t, g, chains, freq, codesize, others)
    requires a == First(freq) && b == Second(freq)
    ensures a != b && a < |others| == |chains| && b < |others|
    ensures chains[a] != [] && chains[b] != [] && Linked(others, chains[a]) && Linked(others, chains[b])
    ensures chains[a][0] == a && chains[b][0] == b && chains[a][|chains[a]| - 1] < |others|
    ensures Linked(others[chains[a][|chains[a]| - 1] := b], chains[b])
  {
    hide Grown, Heights, PseudoDeepest, Linked, Merged, Untouched;
    assert Live?(t, a) && Live?(t, b);
    var last := chains[a][|chains[a]| - 1];
    assert last in chains[a];
    InRange(others, chains[a], last);
    assert t.root[last] == a && last !in chains[b];
    OtherLink(others, chains[b], last, b);
  }

  lemma MergedForest(counts: seq<nat>, t: Forest, g: Growth, a: nat, b: nat)
    requires Grown(counts, t) && Untouched(counts, t) && Heights(t, g) && PseudoDeepest(t, g)
    requires a == First(t.freq) && b == Second(t.freq)
    ensures var t', g' := MergeTrees(t, a, b), NextGrowth(t, g, a, b);
            && Grown(counts, t') && Untouched(counts, t') && Heights(t', g') && PseudoDeepest(t', g')
            && t'.freq == Merged(t.freq, a, b)
  {
    hide Heights, PseudoDeepest, Untouched, Merged, Picked, TreeTotal, TreeKraft, Cost;
    PicksArePicked(t);
    GrownStep(counts, t);
    UntouchedStep(counts, t, a, b);
    HeightsStep(t, g, a, b);
    if t.root[|t.freq| - 1] == a || t.root[|t.freq| - 1] == b {
      PseudoMerges(t, g, a, b);
    } else {
      OthersMerge(t, g, a, b);
    }
  }

  lemma LiveChains(t: Forest, chains: seq<seq<nat>>, a: nat, b: nat)
    requires WellFormed(t) && |chains| == |t.freq| && a < |t.freq| && b < |t.freq| && a != b
    requires forall c: nat {:trigger Live?(t, c)} :: Live?(t, c) ==> chains[c] != []
    requires chains[a] != []
    ensures forall c: nat {:trigger Live?(MergeTrees(t, a, b), c)} :: Live?(MergeTrees(t, a, b), c) ==> Joined(chains, a, b)[c] != []
  {
    forall c: nat | Live?(MergeTrees(t, a, b), c)
      ensures Joined(chains, a, b)[c] != []
    {
      if c != a {
        assert Live?(t, c);
      }
    }
  }

  // Merge the two smallest counts and their trees.
  method MergeSmallest(freq: array<nat>, codesize: array<nat>, others: array<int>, c1: nat, c2: nat,
                       ghost counts: seq<nat>, ghost t: Forest, ghost g: Growth, ghost chains: seq<seq<nat>>)
    requires freq != codesize && freq.Length == codesize.Length == others.Length
    requires Merging(counts, t, g, chains, freq[..], codesize[..], others[..])
    requires c1 == First(freq[..]) && c2 == Second(freq[..])
    modifies freq, codesize, others
    ensures Merging(counts, MergeTrees(t, c1, c2), NextGrowth(t, g, c1, c2), Joined(chains, c1, c2),
                    freq[..], codesize[..], others[..])
  {
    hide Merging, Linked, Longer, Pick, MergeTrees, NextGrowth, Joined;
    MergingStep(counts, t, g, chains, freq[..], codesize[..], others[..], c1, c2);
    MergedIs(freq[..], c1, c2, freq[c1] + freq[c2]);
    ghost var links := others[..];
    freq[c1] := freq[c1] + freq[c2];
    freq[c2] := 0;
    var last1 := LengthenBranch(codesize, others, c1, chains[c1]);
    others[last1] := c2;
    var last2 := LengthenBranch(codesize, others, c2, chains[c2]);
  }

  // What the code sizes amount to: they are optimal, just the symbols that occur get one,
  // no symbol's is greater than the pseudo-symbol's, and the counts must add up to a
  // Fibonacci number for one to be great.
  ghost predicate CodeSizes(counts: seq<nat>, codesize: seq<nat>) {
    && Optimal(counts, codesize)
    && forall s :: 0 <= s < |counts| ==>
         && (codesize[s] > 0 <==> counts[s] > 0)
         && codesize[s] <= codesize[|counts| - 1]
         && (counts[s] > 0 ==> Fib(codesize[s] + 2) <= Total(counts, |counts|))
  }

  lemma MergingEnd(counts: seq<nat>, t: Forest, g: Growth, chains: seq<seq<nat>>, freq: seq<nat>,
                   codesize: seq<nat>, others: seq<int>)
    requires Merging(counts, t, g, chains, freq, codesize, others)
    requires Second(freq) < 0 && Live(counts, |counts|) >= 2
    ensures CodeSizes(counts, codesize)
  {
    hide Heights, PseudoDeepest, Chained, Linked, Merged, Pick, Fib, Live, Total, TreeTotal, TreeKraft, Cost, Optimal;
    TwoFound(t.freq);
    GrownEnd(counts, t);
    forall s | 0 <= s < |counts|
      ensures codesize[s] > 0 <==> counts[s] > 0
      ensures codesize[s] <= codesize[|counts| - 1]
      ensures counts[s] > 0 ==> Fib(codesize[s] + 2) <= Total(counts, |counts|)
    {
      UsedLengths(counts, t, s);
      if counts[s] > 0 {
        DepthsEnd(counts, t, g, s);
      }
    }
  }

  // Find the smallest counts and merge them until only one is left.
  method AssignCodeSizes(freq: array<nat>) returns (codesize: array<nat>)
    requires freq.Length > 0 && freq[freq.Length - 1] == 1
    requires Searchable(freq[..]) && Live(freq[..], freq.Length) >= 2
    modifies freq
    ensures fresh(codesize) && codesize.Length == freq.Length && CodeSizes(old(freq[..]), codesize[..])
  {
    hide Merging, Longer, Pick, MergeTrees, NextGrowth, Joined, CodeSizes, Live, Total;
    ghost var counts := freq[..];
    codesize := new nat[freq.Length](i => 0);
    var others := new int[freq.Length](i => -1);
    assert codesize[..] == seq(freq.Length, s => 0);
    ghost var t, g, chains := Start(counts), StartGrowth(|counts|), SingletonChains(|counts|);
    MergingStart(counts, others[..]);
    var c1 := FindSmallest(freq, -1);
    var c2 := FindSmallest(freq, c1);
    while c2 >= 0
      invariant Merging(counts, t, g, chains, freq[..], codesize[..], others[..])
      invariant c1 == First(freq[..]) && c2 == Second(freq[..])
      decreases Live(freq[..], freq.Length)
    {
      Progress(counts, t, g, chains, freq[..], codesize[..], others[..]);
      MergeSmallest(freq, codesize, others, c1, c2, counts, t, g, chains);
      t, g, chains := MergeTrees(t, c1, c2), NextGrowth(t, g, c1, c2), Joined(chains, c1, c2);
      Holds(counts, t, g, chains, freq[..], codesize[..], others[..]);
      c1 := FindSmallest(freq, -1);
      c2 := FindSmallest(freq, c1);
    }
    MergingEnd(counts, t, g, chains, freq[..], codesize[..], others[..]);
  }

  lemma Holds(counts: seq<nat>, t: Forest, g: Growth, chains: seq<seq<nat>>, freq: seq<nat>,
              codesize: seq<nat>, others: seq<int>)
    requires Merging(counts, t, g, chains, freq, codesize, others)
    ensures freq == t.freq
  {
  }

  lemma Progress(counts: seq<nat>, t: Forest, g: Growth, chains: seq<seq<nat>>, freq: seq<nat>,
                 codesize: seq<nat>, others: seq<int>)
    requires Merging(counts, t, g, chains, freq, codesize, others) && Second(freq) >= 0
    ensures First(freq) >= 0 && WellFormed(t) && |g.height| == |t.freq| == |chains| == |freq| == |counts| && freq == t.freq
    ensures Live(MergeTrees(t, First(freq), Second(freq)).freq, |freq|) < Live(freq, |freq|)
  {
    hide Grown, PseudoDeepest, Linked, Merged, Pick, Fib, Live, Total;
    GrownSearchable(counts, t);
    TwoFound(freq);
    MergedLive(freq, First(freq), Second(freq));
  }

  lemma GrownSearchable(counts: seq<nat>, t: Forest)
    requires Grown(counts, t)
    ensures Searchable(t.freq)
  {
  }
}
