// The trees that Huffman's algorithm grows: which root each symbol hangs under and how
// deep, and what every merge keeps.
module HuffmanForest {
  import opened Arithmetic
  import opened HuffmanMerge

  // root[s] is the symbol that stands for the tree of s, freq[c] the count of the tree that
  // c stands for, and size[s] the depth of s in its tree.
  datatype Forest = Forest(freq: seq<nat>, root: seq<nat>, size: seq<nat>)

  predicate WellFormed(t: Forest) {
    && |t.freq| == |t.root| == |t.size|
    && forall s :: 0 <= s < |t.root| ==> t.root[s] < |t.root|
  }

  function Start(counts: seq<nat>): (t: Forest)
    ensures WellFormed(t)
  {
    Forest(counts, seq(|counts|, s requires 0 <= s => s), seq(|counts|, s => 0))
  }

  // The trees of a and b become one, which a stands for.
  function MergeTrees(t: Forest, a: nat, b: nat): (t': Forest)
    requires WellFormed(t) && a < |t.freq| && b < |t.freq|
    ensures WellFormed(t') && |t'.freq| == |t.freq|
  {
    Forest(
      Merged(t.freq, a, b),
      seq(|t.root|, s requires 0 <= s < |t.root| => if t.root[s] == b then a else t.root[s]),
      seq(|t.size|, s requires 0 <= s < |t.size| =>
        if t.root[s] == a || t.root[s] == b then t.size[s] + 1 else t.size[s]))
  }

  // ----- Sums over one tree -----

  function TreeTotal(counts: seq<nat>, root: seq<nat>, c: nat, n: nat): nat
    requires n <= |counts| == |root|
  {
    if n == 0 then 0
    else TreeTotal(counts, root, c, n - 1) + if root[n - 1] == c then counts[n - 1] else 0
  }

  function TreeKraft(counts: seq<nat>, t: Forest, c: nat, m: nat, n: nat): nat
    requires WellFormed(t) && n <= |counts| == |t.root|
  {
    if n == 0 then 0
    else
      TreeKraft(counts, t, c, m, n - 1) +
      if t.root[n - 1] == c && counts[n - 1] > 0 then Share(m, t.size[n - 1]) else 0
  }

  lemma {:induction false} TotalAfterMerge(counts: seq<nat>, t: Forest, a: nat, b: nat, c: nat, n: nat)
    requires WellFormed(t) && n <= |counts| == |t.root| && a < |t.root| && b < |t.root| && a != b
    ensures TreeTotal(counts, MergeTrees(t, a, b).root, c, n)
         == if c == a then TreeTotal(counts, t.root, a, n) + TreeTotal(counts, t.root, b, n)
            else if c == b then 0 else TreeTotal(counts, t.root, c, n)
  {
    hide Merged;
    if n > 0 {
      TotalAfterMerge(counts, t, a, b, c, n - 1);
    }
  }

  lemma {:induction false} KraftAfterMerge(counts: seq<nat>, t: Forest, a: nat, b: nat, m: nat, n: nat)
    requires WellFormed(t) && n <= |counts| == |t.root| && a < |t.root| && b < |t.root| && a != b
    requires forall s :: 0 <= s < |t.size| ==> t.size[s] < m
    ensures 2 * TreeKraft(counts, MergeTrees(t, a, b), a, m, n)
         == TreeKraft(counts, t, a, m, n) + TreeKraft(counts, t, b, m, n)
  {
    hide Merged;
    if n > 0 {
      KraftAfterMerge(counts, t, a, b, m, n - 1);
      assert Share(m, t.size[n - 1]) == 2 * Share(m, t.size[n - 1] + 1);
    }
  }

  lemma {:induction false} KraftElsewhere(counts: seq<nat>, t: Forest, a: nat, b: nat, c: nat, m: nat, n: nat)
    requires WellFormed(t) && n <= |counts| == |t.root| && a < |t.root| && b < |t.root|
    requires c != a && c != b
    ensures TreeKraft(counts, MergeTrees(t, a, b), c, m, n) == TreeKraft(counts, t, c, m, n)
  {
    hide Merged, Share;
    if n > 0 {
      KraftElsewhere(counts, t, a, b, c, m, n - 1);
    }
  }

  // Every symbol of the two trees becomes one bit longer.
  lemma {:induction false} CostAfterMerge(counts: seq<nat>, t: Forest, a: nat, b: nat, n: nat)
    requires WellFormed(t) && n <= |counts| == |t.root| && a < |t.root| && b < |t.root| && a != b
    ensures Cost(counts, MergeTrees(t, a, b).size, n)
         == Cost(counts, t.size, n) + TreeTotal(counts, t.root, a, n) + TreeTotal(counts, t.root, b, n)
  {
    hide Merged;
    if n > 0 {
      CostAfterMerge(counts, t, a, b, n - 1);
      Distribute(counts[n - 1], t.size[n - 1], 1);
    }
  }

  // ----- The invariant of the merging loop -----

  ghost predicate Grown(counts: seq<nat>, t: Forest) {
    && WellFormed(t) && |counts| == |t.freq| && Searchable(t.freq) && Searchable(counts)
    && (forall c :: 0 <= c < |counts| ==> t.freq[c] == TreeTotal(counts, t.root, c, |counts|))
    && (forall c :: 0 <= c < |counts| && t.freq[c] > 0 ==>
          TreeKraft(counts, t, c, |counts|, |counts|) == Scale(1, |counts|))
    && (forall s :: 0 <= s < |counts| ==> t.size[s] + Live(t.freq, |counts|) <= |counts|)
    && Cost(counts, t.size, |counts|) + MergeCost(t.freq) == MergeCost(counts)
    && Total(t.freq, |counts|) == Total(counts, |counts|)
  }

  // Symbols that do not occur stay out of the trees.
  ghost predicate Untouched(counts: seq<nat>, t: Forest) {
    && WellFormed(t) && |counts| == |t.freq|
    && forall s :: 0 <= s < |counts| && counts[s] == 0 ==> t.root[s] == s && t.freq[s] == t.size[s] == 0
  }

  lemma UntouchedStep(counts: seq<nat>, t: Forest, a: nat, b: nat)
    requires Untouched(counts, t) && a < |counts| && b < |counts| && t.freq[a] > 0 && t.freq[b] > 0
    ensures Untouched(counts, MergeTrees(t, a, b))
  {
  }

  lemma GrownStep(counts: seq<nat>, t: Forest)
    requires Grown(counts, t) && First(t.freq) >= 0 && Second(t.freq) >= 0
    ensures Grown(counts, MergeTrees(t, First(t.freq), Second(t.freq)))
    ensures Live(MergeTrees(t, First(t.freq), Second(t.freq)).freq, |counts|) == Live(t.freq, |counts|) - 1
  {
    hide Merged, Pick, TreeTotal, TreeKraft, Cost, Share, Live, Total;
    var a, b, n := First(t.freq), Second(t.freq), |counts|;
    var t' := MergeTrees(t, a, b);
    MergedIs(t.freq, a, b, t.freq[a] + t.freq[b]);
    MergedLive(t.freq, a, b);
    MergedTotal(t.freq, a, b);
    TwoFound(t.freq);
    CostAfterMerge(counts, t, a, b, n);
    forall c | 0 <= c < n
      ensures t'.freq[c] == TreeTotal(counts, t'.root, c, n)
    {
      TotalAfterMerge(counts, t, a, b, c, n);
    }
    KraftAfterMerge(counts, t, a, b, n, n);
    forall c | 0 <= c < n && t'.freq[c] > 0
      ensures TreeKraft(counts, t', c, n, n) == Scale(1, n)
    {
      if c != a && c != b {
        KraftElsewhere(counts, t, a, b, c, n, n);
      }
    }
  }

  lemma {:induction false} StartSums(counts: seq<nat>, c: nat, m: nat, n: nat)
    requires n <= |counts|
    ensures TreeTotal(counts, Start(counts).root, c, n) == if c < n then counts[c] else 0
    ensures TreeKraft(counts, Start(counts), c, m, n) == if c < n && counts[c] > 0 then Scale(1, m) else 0
    ensures Cost(counts, Start(counts).size, n) == 0
  {
    if n > 0 {
      StartSums(counts, c, m, n - 1);
    }
  }

  lemma GrownStart(counts: seq<nat>)
    requires Searchable(counts)
    ensures Grown(counts, Start(counts))
  {
    hide TreeTotal, TreeKraft, Cost;
    StartSums(counts, 0, |counts|, |counts|);
    forall c | 0 <= c < |counts|
      ensures TreeTotal(counts, Start(counts).root, c, |counts|) == counts[c]
      ensures counts[c] > 0 ==> TreeKraft(counts, Start(counts), c, |counts|, |counts|) == Scale(1, |counts|)
    {
      StartSums(counts, c, |counts|, |counts|);
    }
  }

  // ----- When one tree is left -----

  lemma {:induction false} InTree(counts: seq<nat>, root: seq<nat>, s: nat, n: nat)
    requires s < n <= |counts| == |root|
    ensures counts[s] <= TreeTotal(counts, root, root[s], n)
  {
    if s < n - 1 {
      InTree(counts, root, s, n - 1);
    }
  }

  lemma {:induction false} WholeKraft(counts: seq<nat>, t: Forest, c: nat, m: nat, n: nat)
    requires WellFormed(t) && n <= |counts| == |t.root|
    requires forall s :: 0 <= s < |counts| && counts[s] > 0 ==> t.root[s] == c
    ensures Kraft(counts, t.size, m, n) == TreeKraft(counts, t, c, m, n)
  {
    hide Share;
    if n > 0 {
      WholeKraft(counts, t, c, m, n - 1);
    }
  }

  // The code word lengths fill the code space, and no code is cheaper.
  ghost predicate Optimal(counts: seq<nat>, len: seq<nat>) {
    && |counts| == |len|
    && (forall s :: 0 <= s < |counts| ==> len[s] <= |counts|)
    && Kraft(counts, len, |counts|, |counts|) == Scale(1, |counts|)
    && forall other, m :: Code(counts, other, m) ==> Cost(counts, len, |counts|) <= Cost(counts, other, |counts|)
  }

  lemma SingleTree(counts: seq<nat>, t: Forest, c: nat, s: nat)
    requires Grown(counts, t) && Live(t.freq, |counts|) <= 1 && c < |counts| && t.freq[c] > 0
    requires s < |counts| && counts[s] > 0
    ensures t.root[s] == c
  {
    hide TreeTotal, TreeKraft, Cost;
    InTree(counts, t.root, s, |counts|);
    if t.root[s] != c {
      TwoLive(t.freq, c, t.root[s], |counts|);
    }
  }

  lemma GrownEnd(counts: seq<nat>, t: Forest)
    requires Grown(counts, t) && Second(t.freq) < 0 && Live(counts, |counts|) >= 1
    ensures Optimal(counts, t.size)
  {
    hide TreeTotal, TreeKraft, Cost, Live, Total, Pick, Kraft;
    var n := |counts|;
    TwoFound(t.freq);
    var u := SomeLive(counts, -1, n);
    InTree(counts, t.root, u, n);
    var c := t.root[u];
    forall s | 0 <= s < n && counts[s] > 0
      ensures t.root[s] == c
    {
      SingleTree(counts, t, c, s);
    }
    WholeKraft(counts, t, c, n, n);
    OnlyRest(t.freq);
    forall other, m | Code(counts, other, m)
      ensures Cost(counts, t.size, n) <= Cost(counts, other, n)
    {
      LowerBound(counts, other, m);
    }
  }

  lemma OnlyRest(freq: seq<nat>)
    requires Second(freq) < 0
    ensures MergeCost(freq) == 0
  {
  }

  // Unused symbols get no code word, and used ones get one if there are at least two.
  lemma UsedLengths(counts: seq<nat>, t: Forest, s: nat)
    requires Untouched(counts, t) && Optimal(counts, t.size) && Live(counts, |counts|) >= 2 && s < |counts|
    ensures t.size[s] > 0 <==> counts[s] > 0
  {
    hide TreeTotal, TreeKraft, Cost, Live, Total, Pick;
    if counts[s] > 0 && t.size[s] == 0 {
      var u := SomeLive(counts, s, |counts|);
      KraftTwo(counts, t.size, |counts|, s, u, |counts|);
    }
  }

  lemma {:induction false} KraftTwo(counts: seq<nat>, len: seq<nat>, m: nat, s: nat, u: nat, n: nat)
    requires n <= |counts| == |len| && s != u && s < |counts| && u < |counts| && counts[s] > 0 && counts[u] > 0
    requires len[u] <= m
    ensures s < n ==> Share(m, len[s]) <= Kraft(counts, len, m, n)
    ensures u < n ==> 0 < Kraft(counts, len, m, n)
    ensures s < n && u < n ==> Share(m, len[s]) < Kraft(counts, len, m, n)
  {
    if n > 0 {
      KraftTwo(counts, len, m, s, u, n - 1);
    }
  }
}
