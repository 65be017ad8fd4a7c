// The codes that a table of code lengths stands for (annex C of ITU-T T.81), and the tables
// that encoder and decoder derive from it.
module HuffmanCode {
  import opened Arithmetic
  import opened HuffmanLimit
  import opened HuffmanGen

  ghost predicate TableShape(h: HuffTable) {
    |h.bits| == 17 && |h.huffval| == SYMBOLS
  }

  // The counts fit the table and leave an unused code word at every length, so that no code
  // consists of ones only.
  ghost predicate Legal(bits: seq<nat>) {
    && |bits| == 17 && Words(bits, 17) <= SYMBOLS
    && forall l :: 1 <= l <= 16 ==> Space(bits, l, l + 1) < Scale(1, l)
  }

  // Length and value of the code word number p
  function SizeOf(bits: seq<nat>, p: nat): (l: nat)
    requires |bits| == 17 && p < Words(bits, 17)
    ensures 1 <= l <= 16
  {
    Sizes(bits, 17)[p]
  }

  function CodeOf(bits: seq<nat>, p: nat): nat
    requires |bits| == 17 && p < Words(bits, 17)
  {
    var l := SizeOf(bits, p);
    WordsBefore(bits, p, 17);
    Space(bits, l, l) + (p - Words(bits, l))
  }

  // Code word p comes after those that are shorter and before those that are longer.
  lemma {:induction false} WordsBefore(bits: seq<nat>, p: nat, n: nat)
    requires n <= |bits| && p < Words(bits, n)
    ensures var l := Sizes(bits, n)[p]; 1 <= l < n && Words(bits, l) <= p < Words(bits, l + 1)
  {
    if p < Words(bits, n - 1) {
      WordsBefore(bits, p, n - 1);
    }
  }

  lemma {:induction false} SizeAt(bits: seq<nat>, p: nat, l: nat, n: nat)
    requires 1 <= l < n <= |bits| && Words(bits, l) <= p < Words(bits, l + 1) <= Words(bits, n)
    ensures Sizes(bits, n)[p] == l
  {
    if l < n - 1 {
      WordsGrow(bits, l + 1, n - 1);
      SizeAt(bits, p, l, n - 1);
    }
  }

  lemma {:induction false} WordsGrow(bits: seq<nat>, l: nat, n: nat)
    requires l <= n <= |bits|
    ensures Words(bits, l) <= Words(bits, n)
  {
    if l < n {
      WordsGrow(bits, l, n - 1);
    }
  }

  // The space that shorter words take, in the units of longer ones
  lemma {:induction false} SpaceScaled(bits: seq<nat>, l: nat, n: nat)
    requires 1 <= l < n <= |bits|
    ensures Scale(Space(bits, l, l + 1), n - 1 - l) <= Space(bits, n - 1, n)
    ensures Scale(Space(bits, l, l + 1), n - l) <= Space(bits, n, n)
  {
    if l < n - 1 {
      SpaceScaled(bits, l, n - 1);
    }
    SpaceHalf(bits, n, n);
  }

  // A code word is greater than the beginnings of all longer ones: none is a prefix of
  // another.
  lemma CodeOrder(bits: seq<nat>, p: nat, q: nat)
    requires |bits| == 17 && p < q < Words(bits, 17)
    ensures SizeOf(bits, p) <= SizeOf(bits, q)
    ensures Scale(CodeOf(bits, p) + 1, SizeOf(bits, q) - SizeOf(bits, p)) <= CodeOf(bits, q)
  {
    hide Sizes, Space, Words, Scale;
    WordsBefore(bits, p, 17);
    WordsBefore(bits, q, 17);
    var l, m := SizeOf(bits, p), SizeOf(bits, q);
    if m < l {
      WordsGrow(bits, m + 1, l);
    } else if l < m {
      SpaceScaled(bits, l, m);
      SpaceEnd(bits, l);
      ScaleMonotonic(CodeOf(bits, p) + 1, Space(bits, l, l + 1), m - l);
    } else {
      Unscaled(CodeOf(bits, p) + 1);
    }
  }

  lemma Unscaled(x: nat)
    ensures Scale(x, 0) == x
  {
  }

  lemma SpaceEnd(bits: seq<nat>, l: nat)
    requires 1 <= l < |bits|
    ensures Space(bits, l, l + 1) == Space(bits, l, l) + bits[l] && Words(bits, l + 1) == Words(bits, l) + bits[l]
  {
    assert Scale(bits[l], 0) == bits[l];
  }

  // No code word consists of ones only.
  lemma CodeFits(bits: seq<nat>, p: nat)
    requires Legal(bits) && p < Words(bits, 17)
    ensures CodeOf(bits, p) + 1 < Scale(1, SizeOf(bits, p))
    ensures CodeOf(bits, p) < Space(bits, SizeOf(bits, p), SizeOf(bits, p) + 1)
  {
    hide Sizes;
    WordsBefore(bits, p, 17);
    SpaceEnd(bits, SizeOf(bits, p));
  }

  // ----- Generated tables are legal -----

  lemma UsableLegal(bits: seq<nat>, i: nat, l: nat)
    requires Usable(bits, i) && 1 <= l <= 16
    ensures Space(bits, l, l + 1) < Scale(1, l)
  {
    hide Space;
    if l < i {
      SpaceScaled(bits, l, i + 1);
      if Scale(1, l) <= Space(bits, l, l + 1) {
        ScaleMonotonic(Scale(1, l), Space(bits, l, l + 1), i - l);
        ScaleSum(1, l, i - l, i);
      }
    } else {
      SpaceBeyond(bits, i, l);
    }
  }

  lemma {:induction false} SpaceBeyond(bits: seq<nat>, i: nat, l: nat)
    requires Usable(bits, i) && i <= l <= 16
    ensures Space(bits, l, l + 1) < Scale(1, l)
  {
    if i < l {
      SpaceBeyond(bits, i, l - 1);
      SpaceHalf(bits, l, l);
      SpaceEnd(bits, l);
    }
  }

  lemma MadeIsLegal(h: HuffTable, i: nat)
    requires Usable(h.bits, i) && Words(h.bits, 17) <= SYMBOLS
    ensures Legal(h.bits)
  {
    forall l | 1 <= l <= 16
      ensures Space(h.bits, l, l + 1) < Scale(1, l)
    {
      UsableLegal(h.bits, i, l);
    }
  }
}
