// Counts of code words by length, and the adjustment that brings all lengths down to 16
// (section K.2 of ITU-T T.81).
module HuffmanLimit {
  import opened Arithmetic

  type UInt8 = x: nat | x < 256

  const MAX_CLEN := 32 // assumed maximum initial code length

  // Code space taken by the words shorter than n, in units of 2^-m
  function Space(bits: seq<nat>, m: nat, n: nat): nat
    requires n <= |bits|
  {
    if n <= 1 then 0
    else Space(bits, m, n - 1) + if n - 1 <= m then Scale(bits[n - 1], m - (n - 1)) else 0
  }

  // Number of code words shorter than n
  function Words(bits: seq<nat>, n: nat): nat
    requires n <= |bits|
  {
    if n <= 1 then 0 else Words(bits, n - 1) + bits[n - 1]
  }

  lemma {:induction false} SpaceUpdate(bits: seq<nat>, i: nat, v: nat, m: nat, n: nat)
    requires n <= |bits| && 1 <= i < |bits| && i <= m
    ensures Space(bits[i := v], m, n) + (if i < n then Scale(bits[i], m - i) else 0)
         == Space(bits, m, n) + if i < n then Scale(v, m - i) else 0
  {
    if n > 1 {
      SpaceUpdate(bits, i, v, m, n - 1);
    }
  }

  lemma {:induction false} WordsUpdate(bits: seq<nat>, i: nat, v: nat, n: nat)
    requires n <= |bits| && 1 <= i < |bits|
    ensures Words(bits[i := v], n) == Words(bits, n) + if i < n then v - bits[i] else 0
  {
    if n > 1 {
      WordsUpdate(bits, i, v, n - 1);
    }
  }

  // Shorter words take an even number of the smaller units.
  lemma {:induction false} SpaceHalf(bits: seq<nat>, m: nat, n: nat)
    requires n <= |bits| && n <= m && 0 < m
    ensures Space(bits, m, n) == 2 * Space(bits, m - 1, n)
  {
    if n > 1 {
      SpaceHalf(bits, m, n - 1);
    }
  }

  lemma {:induction false} NoSpace(bits: seq<nat>, m: nat, n: nat)
    requires n <= |bits| && forall l :: 1 <= l < n ==> bits[l] == 0
    ensures Space(bits, m, n) == 0
  {
    if n > 1 {
      assert Scale(0, if n - 1 <= m then m - (n - 1) else 0) == 0;
      NoSpace(bits, m, n - 1);
    }
  }

  lemma {:induction false} WordsAtLeast(bits: seq<nat>, l: nat, n: nat)
    requires 1 <= l < n <= |bits|
    ensures bits[l] <= Words(bits, n)
    ensures forall k :: 1 <= k < n && k != l ==> bits[k] + bits[l] <= Words(bits, n)
  {
    if n > 1 {
      if l < n - 1 {
        WordsAtLeast(bits, l, n - 1);
      } else {
        forall k | 1 <= k < n && k != l
          ensures bits[k] + bits[l] <= Words(bits, n)
        {
          WordsAtLeast(bits, k, n - 1);
        }
      }
    }
  }

  // The words of length up to i fill the code space, and there are no longer ones.
  ghost predicate Full(bits: seq<nat>, i: nat) {
    && |bits| == MAX_CLEN + 1 && 1 <= i <= MAX_CLEN
    && (forall l :: i < l <= MAX_CLEN ==> bits[l] == 0)
    && Space(bits, i, i + 1) == Scale(1, i)
    && Words(bits, |bits|) <= 255
  }

  lemma LongestEven(bits: seq<nat>, i: nat)
    requires Full(bits, i)
    ensures bits[i] % 2 == 0
  {
    SpaceHalf(bits, i, i);
    assert Scale(bits[i], 0) == bits[i];
    assert Scale(1, i) == 2 * Scale(1, i - 1);
  }

  lemma FullShorter(bits: seq<nat>, i: nat)
    requires Full(bits, i) && 1 < i && bits[i] == 0
    ensures Full(bits, i - 1)
  {
    SpaceHalf(bits, i, i);
    assert Scale(0, 0) == 0;
    assert Scale(1, i) == 2 * Scale(1, i - 1);
  }

  lemma {:induction false} ManyUnits(i: nat)
    requires 17 <= i
    ensures Scale(1, i) >= 0x1_0000
  {
    if i > 17 {
      ManyUnits(i - 1);
    } else {
      ScaleValues(1);
      assert Scale(1, 17) == 2 * Scale(1, 16);
    }
  }

  lemma SpaceLeft(bits: seq<nat>, i: nat)
    requires Full(bits, i) && 17 <= i && bits[i] > 0
    ensures Space(bits, i, i - 1) > 0
  {
    ManyUnits(i);
    WordsAtLeast(bits, i, |bits|);
    assert Space(bits, i, i + 1) == Space(bits, i, i - 1) + Scale(bits[i - 1], 1) + Scale(bits[i], 0);
    assert Scale(bits[i - 1], 1) == 2 * bits[i - 1] && Scale(bits[i], 0) == bits[i];
  }

  // A word of more than 16 bits leaves room for a word at least two bits shorter: 255 words
  // of the two greatest lengths cannot fill the code space.
  lemma ShorterWord(bits: seq<nat>, i: nat)
    requires Full(bits, i) && 17 <= i && bits[i] > 0
    ensures exists j :: 1 <= j <= i - 2 && bits[j] > 0
  {
    hide Space, Words;
    SpaceLeft(bits, i);
    if forall j :: 1 <= j <= i - 2 ==> bits[j] == 0 {
      NoSpace(bits, i, i - 1);
    }
  }

  // Two words of length i go: one becomes the prefix of both, and the other moves below a
  // word of length j, which becomes a prefix.
  function Moved(bits: seq<nat>, i: nat, j: nat): seq<nat>
    requires 1 <= j < i - 1 < i < |bits| && bits[i] >= 2 && bits[j] > 0
  {
    var b1 := bits[i := bits[i] - 2];
    var b2 := b1[i - 1 := b1[i - 1] + 1];
    var b3 := b2[j + 1 := b2[j + 1] + 2];
    b3[j := b3[j] - 1]
  }

  lemma MovedWords(bits: seq<nat>, i: nat, j: nat, n: nat)
    requires 1 <= j < i - 1 < i < n <= |bits| && bits[i] >= 2 && bits[j] > 0
    ensures Words(Moved(bits, i, j), n) == Words(bits, n)
  {
    hide Words;
    var b1 := bits[i := bits[i] - 2];
    var b2 := b1[i - 1 := b1[i - 1] + 1];
    var b3 := b2[j + 1 := b2[j + 1] + 2];
    WordsUpdate(bits, i, bits[i] - 2, n);
    WordsUpdate(b1, i - 1, b1[i - 1] + 1, n);
    WordsUpdate(b2, j + 1, b2[j + 1] + 2, n);
    WordsUpdate(b3, j, b3[j] - 1, n);
  }

  lemma MovedKeepsSpace(bits: seq<nat>, i: nat, j: nat)
    requires 1 <= j < i - 1 < i < |bits| && bits[i] >= 2 && bits[j] > 0
    ensures Space(Moved(bits, i, j), i, i + 1) == Space(bits, i, i + 1)
  {
    hide Space, Scale;
    var b1 := bits[i := bits[i] - 2];
    var b2 := b1[i - 1 := b1[i - 1] + 1];
    var b3 := b2[j + 1 := b2[j + 1] + 2];
    var x, y, z, w := bits[i], b1[i - 1], b2[j + 1], b3[j];
    SpaceChange(bits, i, x - 2, i);
    SpaceChange(b1, i - 1, y + 1, i);
    SpaceChange(b2, j + 1, z + 2, i);
    SpaceChange(b3, j, w - 1, i);
    MovedSpace(x, y, z, w, i, j);
  }

  lemma SpaceChange(bits: seq<nat>, l: nat, v: nat, i: nat)
    requires 1 <= l <= i < |bits|
    ensures Space(bits[l := v], i, i + 1) + Scale(bits[l], i - l) == Space(bits, i, i + 1) + Scale(v, i - l)
  {
    hide Space, Scale;
    SpaceUpdate(bits, l, v, i, i + 1);
  }

  lemma MovedFull(bits: seq<nat>, i: nat, j: nat)
    requires Full(bits, i) && 1 <= j < i - 1 && bits[i] >= 2 && bits[j] > 0
    ensures Full(Moved(bits, i, j), i) && Words(Moved(bits, i, j), |bits|) == Words(bits, |bits|)
  {
    hide Space, Words;
    MovedWords(bits, i, j, |bits|);
    MovedKeepsSpace(bits, i, j);
  }

  lemma MovedSpace(x: nat, y: nat, z: nat, w: nat, i: nat, j: nat)
    requires 1 <= j < i - 1 && x >= 2 && w > 0
    ensures Scale(x - 2, 0) + Scale(y + 1, 1) + Scale(z + 2, i - j - 1) + Scale(w - 1, i - j)
         == Scale(x, 0) + Scale(y, 1) + Scale(z, i - j - 1) + Scale(w, i - j)
  {
    ScaleAdd(z, 2, i - j - 1);
    ScaleAdd(w - 1, 1, i - j);
    ScaleDouble(1, i - j - 1);
    ScaleAdd(y, 1, 1);
    assert Scale(1, 1) == 2 && Scale(x, 0) == x && Scale(x - 2, 0) == x - 2;
    assert Scale(1, i - j) == 2 * Scale(1, i - j - 1);
  }

  // ----- The adjustment -----

  // Length of the word that becomes a prefix: the greatest in use that is less than i - 1
  method FindPrefix(bits: array<UInt8>, i: nat) returns (j: nat)
    requires bits.Length == MAX_CLEN + 1 && 17 <= i <= MAX_CLEN && Full(bits[..], i) && bits[i] > 0
    ensures 1 <= j < i - 1 && bits[j] > 0 && forall l :: j < l < i - 1 ==> bits[l] == 0
  {
    hide Full;
    ShorterWord(bits[..], i);
    j := i - 2;
    while bits[j] == 0
      invariant 1 <= j < i - 1 && forall l :: j < l < i - 1 ==> bits[l] == 0
      invariant exists l :: 1 <= l <= j && bits[l] > 0
      decreases j
    {
      j := j - 1;
    }
  }

  // Figure K.3: with no word longer than i, two words of that length go. The place of their prefix is for
  // one of them, and the next shorter word in use, below that length, becomes a prefix of two.
  predicate Adjusts(a: seq<nat>, b: seq<nat>, i: nat, j: nat) {
    && |a| == |b| && 16 < i < |a| && 1 <= j < i - 1 && a[i] > 0 && (forall l :: i < l < |a| ==> a[l] == 0)
    && a[j] > 0 && (forall l :: j < l < i - 1 ==> a[l] == 0)
    && forall l :: 0 <= l < |a| ==>
         b[l] as int - a[l] == (if l == i then -2 else if l == i - 1 then 1 else 0) + (if l == j + 1 then 2 else if l == j then -1 else 0)
  }

  ghost predicate Adjusted(a: seq<nat>, b: seq<nat>) {
    exists i, j :: Adjusts(a, b, i, j)
  }

  // The lengths on the way
  ghost predicate Adjustments(trace: seq<seq<nat>>) {
    forall m, n :: 0 <= m < |trace| - 1 && n == m + 1 ==> Adjusted(trace[m], trace[n])
  }

  lemma OneAdjustment(trace: seq<seq<nat>>, b: seq<nat>, i: nat, j: nat)
    requires trace != [] && Adjustments(trace) && Adjusts(trace[|trace| - 1], b, i, j)
    ensures Adjustments(trace + [b])
  {
    hide Adjusts;
    assert Adjusted(trace[|trace| - 1], b);
  }

  // Replace two words of length i by shorter ones.
  method MovePair(bits: array<UInt8>, i: nat) returns (ghost j: nat)
    requires bits.Length == MAX_CLEN + 1 && 17 <= i <= MAX_CLEN && Full(bits[..], i) && bits[i] > 0
    modifies bits
    ensures Adjusts(old(bits[..]), bits[..], i, j)
    ensures Full(bits[..], i) && bits[i] as nat + 2 == old(bits[i])
    ensures Words(bits[..], bits.Length) == old(Words(bits[..], bits.Length))
  {
    hide Full, Words;
    ghost var was := bits[..];
    LongestEven(was, i);
    var k := FindPrefix(bits, i);
    j := k;
    MovedFull(was, i, k);
    MovedFits(was, i, k);
    NoneAbove(was, i);
    bits[i] := bits[i] - 2;
    bits[i - 1] := bits[i - 1] + 1;
    bits[k + 1] := bits[k + 1] + 2;
    bits[k] := bits[k] - 1;
    assert bits[..] == Moved(was, i, k);
  }

  lemma NoneAbove(bits: seq<nat>, i: nat)
    requires Full(bits, i)
    ensures forall l :: i < l < |bits| ==> bits[l] == 0
  {
  }

  // No count of 8 bits overflows on the way.
  lemma MovedFits(bits: seq<nat>, i: nat, j: nat)
    requires Full(bits, i) && 1 <= j < i - 1 && bits[i] >= 2 && bits[j] > 0
    ensures bits[i - 1] + 1 <= 255 && bits[j + 1] + 2 + (if j + 1 == i - 1 then 1 else 0) <= 255
  {
    hide Words, Space;
    MovedFull(bits, i, j);
    WordsAtLeast(Moved(bits, i, j), i - 1, |bits|);
    WordsAtLeast(Moved(bits, i, j), j + 1, |bits|);
  }

  lemma NoAdjustment(bits: seq<nat>)
    ensures Adjustments([bits])
  {
  }

  // Bring all lengths down to 16, by such steps only.
  method LimitLengths(bits: array<UInt8>) returns (ghost trace: seq<seq<nat>>)
    requires bits.Length == MAX_CLEN + 1 && Full(bits[..], MAX_CLEN)
    modifies bits
    ensures trace != [] && trace[0] == old(bits[..]) && trace[|trace| - 1] == bits[..] && Adjustments(trace)
    ensures Full(bits[..], 16)
    ensures Words(bits[..], bits.Length) == old(Words(bits[..], bits.Length))
    ensures old(Full(bits[..], 16)) ==> bits[..] == old(bits[..])
  {
    hide Words, Adjustments, Adjusts;
    var i := MAX_CLEN;
    trace := [bits[..]];
    NoAdjustment(bits[..]);
    while i > 16
      invariant trace != [] && trace[0] == old(bits[..]) && trace[|trace| - 1] == bits[..] && Adjustments(trace)
      invariant 16 <= i <= MAX_CLEN && Full(bits[..], i)
      invariant Words(bits[..], bits.Length) == old(Words(bits[..], bits.Length))
      invariant old(Full(bits[..], 16)) ==> bits[..] == old(bits[..])
    {
      while bits[i] > 0
        invariant trace != [] && trace[0] == old(bits[..]) && trace[|trace| - 1] == bits[..] && Adjustments(trace)
        invariant Full(bits[..], i)
        invariant Words(bits[..], bits.Length) == old(Words(bits[..], bits.Length))
        invariant old(Full(bits[..], 16)) ==> bits[..] == old(bits[..])
        decreases bits[i]
      {
        ghost var j := MovePair(bits, i);
        OneAdjustment(trace, bits[..], i, j);
        trace := trace + [bits[..]];
      }
      FullShorter(bits[..], i);
      i := i - 1;
    }
  }

  // What remains when the pseudo-symbol's word, one of the longest, has been taken away
  ghost predicate Trimmed(bits: seq<nat>, i: nat) {
    && |bits| == MAX_CLEN + 1 && 1 <= i <= 16
    && (forall l :: i < l <= MAX_CLEN ==> bits[l] == 0)
    && Space(bits, i, i + 1) + 1 == Scale(1, i)
  }

  // Remove the pseudo-symbol from the greatest length still in use.
  method RemovePseudo(bits: array<UInt8>) returns (i: nat)
    requires bits.Length == MAX_CLEN + 1 && Full(bits[..], 16)
    modifies bits
    ensures 1 <= i <= 16 && Trimmed(bits[..], i) && Words(bits[..], bits.Length) + 1 == old(Words(bits[..], bits.Length))
    ensures old(bits[i]) > 0 && bits[..] == old(bits[..])[i := old(bits[i]) - 1]
    ensures forall l :: i < l <= MAX_CLEN ==> bits[l] == 0
  {
    hide Words, Space;
    i := 16;
    while bits[i] == 0
      invariant 1 <= i <= 16 && Full(bits[..], i) && bits[..] == old(bits[..])
      decreases i
    {
      NotEmpty(bits[..], i);
      FullShorter(bits[..], i);
      i := i - 1;
    }
    SpaceUpdate(bits[..], i, bits[i] - 1, i, i + 1);
    assert Scale(bits[i], 0) == bits[i] && Scale(bits[i] - 1, 0) == bits[i] - 1;
    WordsUpdate(bits[..], i, bits[i] - 1, bits.Length);
    bits[i] := bits[i] - 1;
  }

  lemma NotEmpty(bits: seq<nat>, i: nat)
    requires Full(bits, i)
    ensures i == 1 ==> bits[1] == 2
  {
    if i == 1 {
      assert Space(bits, 1, 2) == Scale(bits[1], 0) == bits[1] && Scale(1, 1) == 2;
    }
  }
}
