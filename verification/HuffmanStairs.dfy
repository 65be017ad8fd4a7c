// Counts each of which exceeds the sum of the later ones have but one optimal code: the lengths go up by
// one from symbol to symbol.
module HuffmanStairs {
  import opened Arithmetic
  import opened HuffmanMerge
  import opened HuffmanForest
  import opened HuffmanLimit
  import opened HuffmanGen

  // The counts of symbol 0, of those behind symbol x, and of the pseudo-symbol, among the first n
  function Lighter(freq: seq<nat>, x: nat, n: nat): nat
    requires n <= |freq|
  {
    if n == 0 then 0 else Lighter(freq, x, n - 1) + if n == 1 || n > x + 1 then freq[n - 1] else 0
  }

  // Only symbols 0 to k occur, and each from 1 on outweighs all that are lighter.
  predicate Stairs(freq: seq<nat>, k: nat) {
    && |freq| == SYMBOLS + 1 && k < SYMBOLS && freq[0] > 0 && freq[SYMBOLS] > 0
    && (forall x :: k < x < SYMBOLS ==> freq[x] == 0)
    && forall x :: 1 <= x <= k ==> freq[x] > Lighter(freq, x, SYMBOLS + 1)
  }

  // The lengths of symbols 1 to x - 1 are their numbers.
  predicate Known(len: seq<nat>, x: nat) {
    |len| == SYMBOLS + 1 && x <= SYMBOLS && forall i :: 1 <= i < x ==> len[i] == i
  }

  // The code space that they take
  function Top(x: nat, n: nat): nat
    requires x <= SYMBOLS
  {
    if n <= 1 then 0 else Top(x, n - 1) + if n - 1 < x then Scale(1, SYMBOLS + 1 - (n - 1)) else 0
  }

  lemma {:induction false} TopIs(x: nat, n: nat)
    requires 1 <= x <= SYMBOLS
    ensures n <= x ==> Top(x, n) + Scale(1, SYMBOLS + 1 - (if n == 0 then 0 else n - 1)) == Scale(1, SYMBOLS + 1)
    ensures x <= n ==> Top(x, n) + Scale(1, SYMBOLS + 1 - (x - 1)) == Scale(1, SYMBOLS + 1)
  {
    if n > 1 {
      TopIs(x, n - 1);
      if n <= x {
        assert Scale(1, SYMBOLS + 1 - (n - 2)) == 2 * Scale(1, SYMBOLS + 1 - (n - 1)) by {
          Twice(SYMBOLS + 1 - (n - 1));
        }
      }
    }
  }

  lemma Twice(n: nat)
    ensures Scale(1, n + 1) == 2 * Scale(1, n)
  {
  }

  lemma {:induction false} Positive(n: nat)
    ensures Scale(1, n) > 0
  {
    if n > 0 {
      Positive(n - 1);
    }
  }

  // What symbols 0, x and the pseudo-symbol take is left by the top.
  lemma {:induction false} SpaceLeft(freq: seq<nat>, len: seq<nat>, k: nat, x: nat, n: nat)
    requires Stairs(freq, k) && Known(len, x) && 1 <= x <= k + 1 && n <= SYMBOLS + 1
    ensures Kraft(freq, len, SYMBOLS + 1, n)
            >= Top(x, n) + (if n > 0 then Share(SYMBOLS + 1, len[0]) else 0)
               + (if x < n && x <= k then Share(SYMBOLS + 1, len[x]) else 0)
               + (if n == SYMBOLS + 1 then Share(SYMBOLS + 1, len[SYMBOLS]) else 0)
  {
    hide Scale;
    if n > 0 {
      SpaceLeft(freq, len, k, x, n - 1);
      if 1 < n <= x {
        assert freq[n - 1] > 0;
      }
    }
  }

  // The others are longer than the top.
  lemma AtLeast(freq: seq<nat>, len: seq<nat>, k: nat, x: nat)
    requires Stairs(freq, k) && Known(len, x) && 1 <= x <= k + 1 && Optimal(freq, len)
    ensures len[0] >= x && len[SYMBOLS] >= x && (x <= k ==> len[x] >= x)
  {
    hide Kraft, Top, Scale, Cost;
    SpaceLeft(freq, len, k, x, SYMBOLS + 1);
    TopIs(x, SYMBOLS + 1);
    ShareOf(len[0], x);
    ShareOf(len[SYMBOLS], x);
    if x <= k {
      ShareOf(len[x], x);
    }
  }

  lemma ShareOf(l: nat, x: nat)
    requires l <= SYMBOLS + 1 && 1 <= x <= SYMBOLS
    ensures Share(SYMBOLS + 1, l) > 0 && (l < x ==> Share(SYMBOLS + 1, l) >= Scale(1, SYMBOLS + 1 - (x - 1)))
  {
    hide Scale;
    Positive(SYMBOLS + 1 - l);
    if l < x {
      Longer(SYMBOLS + 1 - (x - 1), SYMBOLS + 1 - l);
    }
  }

  lemma {:induction false} Longer(m: nat, n: nat)
    requires m <= n
    ensures Scale(1, m) <= Scale(1, n)
    decreases n
  {
    Positive(n);
    if m < n {
      Longer(m, n - 1);
      Twice(n - 1);
    }
  }

  // ----- The next length -----

  // Symbol x gets length x, and all that are lighter become longer by one.
  function Lifted(len: seq<nat>, x: nat): (lifted: seq<nat>)
    ensures |lifted| == |len|
  {
    seq(|len|, i requires 0 <= i < |len| => if i == x then x else if 1 <= i < x then len[i] else len[i] + 1)
  }

  lemma {:induction false} LiftedCost(freq: seq<nat>, len: seq<nat>, x: nat, n: nat)
    requires |freq| == |len| && 1 <= x < |len| && len[x] >= x && n <= |freq|
    ensures Cost(freq, Lifted(len, x), n) + (if x < n then freq[x] * (len[x] - x) else 0) == Cost(freq, len, n) + Lighter(freq, x, n)
  {
    if n > 0 {
      LiftedCost(freq, len, x, n - 1);
      var i := n - 1;
      if i == x {
        Distribute(freq[x], x, len[x] - x);
      } else if !(1 <= i < x) {
        Distribute(freq[i], len[i], 1);
      }
    }
  }

  lemma {:induction false} LiftedSpace(freq: seq<nat>, len: seq<nat>, k: nat, x: nat, n: nat)
    requires Stairs(freq, k) && Known(len, x) && 1 <= x <= k && n <= SYMBOLS + 1
    requires forall i :: 0 <= i <= SYMBOLS ==> len[i] <= SYMBOLS + 1
    ensures Kraft(freq, Lifted(len, x), SYMBOLS + 2, n) + (if x < n then Share(SYMBOLS + 1, len[x]) else 0)
            == Kraft(freq, len, SYMBOLS + 1, n) + Top(x, n) + if x < n then Scale(1, SYMBOLS + 2 - x) else 0
  {
    hide Scale;
    if n > 0 {
      LiftedSpace(freq, len, k, x, n - 1);
      var i := n - 1;
      if 1 <= i < x {
        assert freq[i] > 0;
        Twice(SYMBOLS + 1 - i);
      } else if i == x {
        assert freq[i] > 0;
      }
    }
  }

  // So a length that is not the least possible is not optimal.
  lemma NextLength(freq: seq<nat>, len: seq<nat>, k: nat, x: nat)
    requires Stairs(freq, k) && Known(len, x) && 1 <= x <= k && Optimal(freq, len)
    ensures len[x] == x
  {
    hide Kraft, Top, Scale, Cost, Lighter, Share;
    AtLeast(freq, len, k, x);
    if len[x] > x {
      var lifted := Lifted(len, x);
      LiftedSpace(freq, len, k, x, SYMBOLS + 1);
      TopIs(x, SYMBOLS + 1);
      Twice(SYMBOLS + 1);
      Twice(SYMBOLS + 1 - x);
      assert SYMBOLS + 2 - x == SYMBOLS + 1 - (x - 1);
      assert Code(freq, lifted, SYMBOLS + 2);
      LiftedCost(freq, len, x, SYMBOLS + 1);
      AtLeastOnce(freq[x], len[x] - x);
      assert false;
    }
  }

  lemma AtLeastOnce(a: nat, b: nat)
    requires b > 0
    ensures a * b >= a
  {
    Distribute(a, 1, b - 1);
    assert a * (b - 1) >= 0;
  }

  lemma {:induction false} AllLengths(freq: seq<nat>, len: seq<nat>, k: nat, x: nat)
    requires Stairs(freq, k) && Optimal(freq, len) && 1 <= x <= k + 1
    ensures Known(len, x)
  {
    hide Stairs, Optimal;
    OptimalSize(freq, len, k);
    if x > 1 {
      AllLengths(freq, len, k, x - 1);
      NextLength(freq, len, k, x - 1);
    }
  }

  lemma OptimalSize(freq: seq<nat>, len: seq<nat>, k: nat)
    requires Stairs(freq, k) && Optimal(freq, len)
    ensures |len| == SYMBOLS + 1 && k < SYMBOLS
  {
    hide Kraft, Scale, Cost;
  }

  // ----- The last two -----

  lemma {:induction false} CostUpdate(freq: seq<nat>, len: seq<nat>, i: nat, v: nat, n: nat)
    requires |freq| == |len| && i < |len| && n <= |freq|
    ensures Cost(freq, len[i := v], n) + (if i < n then freq[i] * len[i] else 0) == Cost(freq, len, n) + if i < n then freq[i] * v else 0
  {
    if n > 0 {
      CostUpdate(freq, len, i, v, n - 1);
    }
  }

  lemma {:induction false} StairsSpace(freq: seq<nat>, len: seq<nat>, k: nat, n: nat)
    requires Stairs(freq, k) && Known(len, k + 1) && len[0] == len[SYMBOLS] == k + 1 && n <= SYMBOLS + 1
    ensures Kraft(freq, len, SYMBOLS + 1, n)
            == Top(k + 1, n) + (if n > 0 then Scale(1, SYMBOLS - k) else 0) + if n == SYMBOLS + 1 then Scale(1, SYMBOLS - k) else 0
  {
    hide Scale;
    if n > 0 {
      StairsSpace(freq, len, k, n - 1);
      if 1 < n <= k + 1 {
        assert freq[n - 1] > 0;
      }
    }
  }

  // The optimal lengths
  lemma StairLengths(freq: seq<nat>, len: seq<nat>, k: nat)
    requires Stairs(freq, k) && Optimal(freq, len)
    ensures |len| == SYMBOLS + 1 && len[0] == len[SYMBOLS] == k + 1 && forall x :: 1 <= x <= k ==> len[x] == x
  {
    hide Kraft, Top, Scale, Cost, Lighter, Share;
    AllLengths(freq, len, k, k + 1);
    AtLeast(freq, len, k, k + 1);
    var first := len[0 := k + 1];
    var best := first[SYMBOLS := k + 1];
    StairsSpace(freq, best, k, SYMBOLS + 1);
    TopIs(k + 1, SYMBOLS + 1);
    Twice(SYMBOLS - k);
    assert Code(freq, best, SYMBOLS + 1);
    CostUpdate(freq, len, 0, k + 1, SYMBOLS + 1);
    CostUpdate(freq, first, SYMBOLS, k + 1, SYMBOLS + 1);
    Surplus(freq[0], len[0], k + 1);
    Surplus(freq[SYMBOLS], len[SYMBOLS], k + 1);
  }

  lemma Surplus(a: nat, l: nat, m: nat)
    requires a > 0 && l >= m
    ensures a * l >= a * m && (l > m ==> a * l > a * m)
  {
    Distribute(a, m, l - m);
    if l > m {
      AtLeastOnce(a, l - m);
    }
  }
}
