// Quantization by multiplication with a reciprocal (jcdctmgr.c) equals rounded division.
module Reciprocal {
  import opened Arithmetic
  import opened BitFields
  import opened PointTransform

  const DCTSIZE := 64

  // Words of 16 or 32 bits
  type WordSize = w: nat | w == 16 || w == 32 witness 16

  type UInt16 = x: nat | x < 0x1_0000

  // ----- Powers of two -----

  lemma {:induction false} ScaleTimes(x: nat, n: nat)
    ensures Scale(x, n) == x * Scale(1, n)
  {
    if n > 0 {
      ScaleTimes(x, n - 1);
      DoubleProduct(x, Scale(1, n - 1));
    }
  }

  lemma DoubleProduct(x: nat, y: nat)
    ensures 2 * (x * y) == x * (2 * y)
  {
  }

  lemma {:induction false} ShrOf(x: nat, n: nat, q: nat)
    requires Scale(q, n) <= x < Scale(q + 1, n)
    ensures Shr(x, n) == q
    decreases n
  {
    if n > 0 {
      ShrOf(x / 2, n - 1, q);
    }
  }

  // x lies between two powers of two if it does so after a shift.
  lemma {:induction false} ScaleBetween(x: nat, lo: nat, hi: nat, n: nat)
    requires Scale(lo, n) <= Scale(x, n) < Scale(hi, n)
    ensures lo <= x < hi
  {
    if n > 0 {
      ScaleBetween(x, lo, hi, n - 1);
    }
  }

  // Shift val up by n if its upper n bits are zero.
  method ShiftUp(val: UInt16, bit: nat, n: nat, ghost val0: nat) returns (val': UInt16, bit': nat)
    requires n == 8 || n == 4 || n == 2 || n == 1
    requires bit <= 16 && 2 * n <= bit && val == Scale(val0, 16 - bit)
    ensures bit' <= bit && bit - n <= bit' && val' == Scale(val0, 16 - bit')
    ensures (if n == 8 then 1 else if n == 4 then 0x100 else if n == 2 then 0x1000 else 0x4000) <= val ==>
              (if n == 8 then 0x100 else if n == 4 then 0x1000 else if n == 2 then 0x4000 else 0x8000) <= val'
  {
    hide Scale;
    val', bit' := val, bit;
    var threshold := if n == 8 then 0x100 else if n == 4 then 0x1000 else if n == 2 then 0x4000 else 0x8000;
    if val / threshold == 0 {
      ShiftMore(val0, 16 - bit, n);
      val' := val * if n == 8 then 0x100 else if n == 4 then 0x10 else if n == 2 then 4 else 2;
      bit' := bit - n;
    }
  }

  // The number of significant bits, by binary search
  method Flss(val0: UInt16) returns (bit: nat)
    ensures bit <= 16 && val0 < Scale(1, bit) && (val0 == 0 <==> bit == 0)
    ensures val0 > 0 ==> Scale(1, bit - 1) <= val0
  {
    if val0 == 0 {
      return 0;
    }
    var val := val0;
    val, bit := ShiftUp(val, 16, 8, val0);
    val, bit := ShiftUp(val, bit, 4, val0);
    val, bit := ShiftUp(val, bit, 2, val0);
    val, bit := ShiftUp(val, bit, 1, val0);
    Normalized(val0, bit);
  }

  lemma ShiftMore(x: nat, m: nat, n: nat)
    requires n == 8 || n == 4 || n == 2 || n == 1
    ensures Scale(x, m + n) == Scale(x, m) * if n == 8 then 0x100 else if n == 4 then 0x10 else if n == 2 then 4 else 2
    ensures Scale(x, 0) == x
  {
    var y := Scale(x, m);
    ScaleTwice(x, m, n);
    ScaleValues(y);
    assert Scale(y, 1) == 2 * y && Scale(y, 2) == 4 * y && Scale(y, 3) == 8 * y && Scale(y, 4) == 16 * y;
  }

  lemma Normalized(x: nat, bit: nat)
    requires bit <= 16 && 0x8000 <= Scale(x, 16 - bit) < 0x1_0000
    ensures 1 <= bit && Scale(1, bit - 1) <= x < Scale(1, bit)
  {
    ScaleValues(1);
    assert Scale(1, 16) == 2 * Scale(1, 15);
    if bit > 0 {
      ScaleSum(1, bit - 1, 16 - bit, 15);
    }
    ScaleSum(1, bit, 16 - bit, 16);
    if bit == 0 {
      ScaleBetween(x, 0, 1, 16);
    } else {
      ScaleBetween(x, Scale(1, bit - 1), Scale(1, bit), 16 - bit);
    }
  }

  // ----- Reciprocals -----

  // The values stored for a divisor; shift is relative to the word size.
  datatype Divisor = Divisor(recip: nat, corr: nat, shift: int)

  // x lies within p of a if it does so after multiplication with d.
  lemma Bracket(x: nat, a: nat, p: nat, d: nat, low: nat, up: nat)
    requires x * d + low == a * d + up && low <= up && up < low + d * p
    ensures a <= x < a + p
  {
    Distribute(d, a, p);
    CancelLess(x, a + p, d);
    if x < a {
      Distribute(d, x, 1);
      ProductMonotonic(x + 1, a, d);
    }
  }

  // (q * d + s) * p == q * p * d + s * p
  lemma Expand(q: nat, d: nat, s: nat, p: nat)
    ensures (q * d + s) * p == q * p * d + s * p
  {
    Distribute(p, q * d, s);
    Reorder(q, d, p);
  }

  lemma Reorder(q: nat, d: nat, p: nat)
    ensures (q * d) * p == (q * p) * d
  {
  }

  lemma TimesQuotient(x: nat, f: nat, d: nat, fr: nat, p: nat)
    requires f * d + fr == p
    ensures x * f * d + x * fr == x * p
  {
    Distribute(x, f * d, fr);
    Associate(x, f, d);
  }

  lemma Associate(x: nat, f: nat, d: nat)
    ensures x * f * d == x * (f * d)
  {
  }

  // Rounding the reciprocal down: one more than the dividend makes up for it.
  lemma RoundedDownReciprocal(n: nat, q: nat, s: nat, d: nat, f: nat, fr: nat, p: nat)
    requires n == q * d + s && s < d && f * d + fr == p && 0 < fr && (n + 1) * fr < p
    ensures q * p <= (n + 1) * f < q * p + p
  {
    TimesQuotient(n + 1, f, d, fr, p);
    Expand(q, d, s + 1, p);
    ProductMonotonic(1, s + 1, p);
    ProductMonotonic(s + 1, d, p);
    ProductMonotonic(1, n + 1, fr);
    Bracket((n + 1) * f, q * p, p, d, (n + 1) * fr, (s + 1) * p);
  }

  // Rounding it up: the excess is too small to matter.
  lemma RoundedUpReciprocal(n: nat, q: nat, s: nat, d: nat, f: nat, e: nat, p: nat)
    requires n == q * d + s && s < d && f * d == p + e && n * e < p
    ensures q * p <= n * f < q * p + p
  {
    assert n * f * d == n * p + n * e by {
      Associate(n, f, d);
      Distribute(n, p, e);
    }
    Expand(q, d, s, p);
    assert s * p + p <= d * p by {
      ProductMonotonic(s + 1, d, p);
      Distribute(p, s, 1);
    }
    Bracket(n * f, q * p, p, d, 0, s * p + n * e);
  }

  // ----- The method -----

  // Multiply and shift, as quantize does with the stored values
  function Quotient(v: Divisor, w: WordSize, n: nat): nat
    requires 0 <= v.shift + w
  {
    Shr((n + v.corr) * v.recip, v.shift + w)
  }

  // Division with rounding
  function Rounded(n: nat, d: nat): nat
    requires d > 0
  {
    (n + d / 2) / d
  }

  // No multiple of d is nearer, and of two that are as near the larger is chosen.
  lemma RoundedIsNearest(n: nat, d: nat, q: nat)
    requires d > 0
    ensures 2 * Abs(n - Rounded(n, d) * d) <= d
    ensures q != Rounded(n, d) ==> 2 * Abs(n - q * d) >= d && (2 * Abs(n - q * d) == d ==> q < Rounded(n, d))
  {
    var m := n + d / 2;
    assert (m / d) * d + m % d == m;
    Nearest(n, d, q, Rounded(n, d), m % d);
  }

  lemma Nearest(n: nat, d: nat, q: nat, r: nat, s: nat)
    requires d > 0 && r * d + s == n + d / 2 && s < d
    ensures 2 * Abs(n - r * d) <= d
    ensures q != r ==> 2 * Abs(n - q * d) >= d && (2 * Abs(n - q * d) == d ==> q < r)
  {
    if q < r {
      NextProduct(q, r, d);
    } else if r < q {
      NextProduct(r, q, d);
    }
  }

  lemma NextProduct(x: nat, y: nat, d: nat)
    requires x < y
    ensures x * d + d <= y * d
  {
    ProductMonotonic(x + 1, y, d);
    Distribute(d, x, 1);
  }

  // A dividend whose magnitude fits a signed word
  predicate Dividend(w: WordSize, n: nat) {
    n < Scale(1, w - 1)
  }

  // The stored values fit their words, and so do the sum and the product; the result is the
  // rounded quotient.
  ghost predicate DividesBy(v: Divisor, w: WordSize, d: nat)
    requires d > 0
  {
    && 0 <= v.shift + w && v.recip < Scale(1, w)
    && forall n: nat :: Dividend(w, n) ==>
         && n + v.corr < Scale(1, w) && (n + v.corr) * v.recip < Scale(1, 2 * w)
         && Quotient(v, w, n) == Rounded(n, d)
  }

  lemma {:induction false} OddDivisor(x: nat, y: nat, r: nat)
    requires x * y == Scale(1, r) && x % 2 == 1
    ensures x == 1
    decreases r
  {
    if r == 0 {
      UnitFactor(x, y);
    } else {
      EvenFactor(x, y, Scale(1, r - 1));
      OddDivisor(x, y / 2, r - 1);
    }
  }

  lemma UnitFactor(x: nat, y: nat)
    requires x * y == 1
    ensures x == 1
  {
    if x > 1 {
      if y == 0 {
      } else {
        ProductMonotonic(1, y, x);
      }
    }
  }

  lemma EvenFactor(x: nat, y: nat, z: nat)
    requires x * y == 2 * z && x % 2 == 1
    ensures y % 2 == 0 && x * (y / 2) == z
  {
    var h := x / 2;
    assert x == 2 * h + 1;
    Distribute(y, 2 * h, 1);
    Associate(2, h, y);
    assert y == 2 * (z - h * y);
    Associate(2, x, y / 2);
    Reorder(2, x, y / 2);
  }

  // Products of numbers below powers of two
  lemma ProductBound(x: nat, y: nat, m: nat, n: nat)
    requires x < Scale(1, m) && y < Scale(1, n)
    ensures x * y < Scale(1, m + n)
  {
    ProductMonotonic(x, Scale(1, m), y);
    ProductMonotonic(y, Scale(1, n), Scale(1, m));
    ScaleTimes(Scale(1, m), n);
    ScaleTwice(1, m, n);
    if x * y == Scale(1, m + n) {
      Distribute(Scale(1, m), y, 1);
      ProductMonotonic(y + 1, Scale(1, n), Scale(1, m));
    }
  }

  lemma WordValues(w: WordSize)
    ensures Scale(1, w) == 2 * Scale(1, w - 1) && 0x1_0000 <= Scale(1, w) && 0x8000 <= Scale(1, w - 1)
  {
    ScaleValues(1);
    if w == 32 {
      assert Scale(1, 31) == 16 * Scale(1, 27);
    } else {
      assert Scale(1, 16) == 2 * Scale(1, 15);
    }
  }

  // The bracket on the product determines the quotient.
  lemma ShiftedProduct(x: nat, q: nat, r: nat)
    requires q * Scale(1, r) <= x < q * Scale(1, r) + Scale(1, r)
    ensures Shr(x, r) == q
  {
    ScaleTimes(q, r);
    ScaleAdd(q, 1, r);
    ShrOf(x, r, q);
  }

  // d has b + 1 significant bits, and f and fr are the quotient and remainder of 2^(w + b) by d.
  predicate Divided(w: WordSize, d: nat, b: nat, f: nat, fr: nat) {
    && 2 <= d < 0x1_0000 && Scale(1, b) <= d < Scale(1, b + 1)
    && f * d + fr == Scale(1, w + b) && fr < d
  }

  lemma SumsFit(w: WordSize, d: nat, n: nat)
    requires d < 0x1_0000 && Dividend(w, n)
    ensures n + d / 2 + 1 < Scale(1, w)
  {
    WordValues(w);
  }

  // A quotient of word * p by a divisor no smaller than p does not exceed word ...
  lemma BelowWord(f: nat, d: nat, fr: nat, word: nat, p: nat)
    requires f * d + fr == word * p && 0 < p <= d
    ensures f <= word && (0 < fr ==> f < word)
  {
    ProductMonotonic(p, d, word);
    assert word * d == d * word;
    if 0 < fr {
      CancelLess(f, word, d);
    } else if word < f {
      ProductMonotonic(word + 1, f, d);
      Distribute(d, word, 1);
    }
  }

  // ... and stays below it even when rounded up, unless p divides it.
  lemma NextBelowWord(f: nat, d: nat, fr: nat, word: nat, p: nat)
    requires f * d + fr == word * p && 0 < p <= d < word && 0 < fr < d
    ensures f + 1 < word
  {
    if p == d {
      SameQuotient(d, word, 0, f, fr);
    }
    Distribute(word, p, 1);
    ProductMonotonic(p + 1, d, word);
    Distribute(d, f, 1);
    CancelLess(f + 1, word, d);
  }

  // The reciprocal fits a word unless the divisor is a power of two.
  lemma ReciprocalFits(w: WordSize, d: nat, b: nat, f: nat, fr: nat)
    requires Divided(w, d, b, f, fr)
    ensures 0 < fr ==> f + 1 < Scale(1, w)
    ensures f <= Scale(1, w)
  {
    hide Scale;
    WordValues(w);
    ScaleTwice(1, w, b);
    ScaleTimes(Scale(1, w), b);
    BelowWord(f, d, fr, Scale(1, w), Scale(1, b));
    if 0 < fr {
      NextBelowWord(f, d, fr, Scale(1, w), Scale(1, b));
    }
  }

  lemma EvenReciprocal(w: WordSize, d: nat, b: nat, f: nat)
    requires Divided(w, d, b, f, 0)
    ensures f % 2 == 0 && (f / 2) * d == Scale(1, w + b - 1)
  {
    hide Scale;
    if f % 2 == 1 {
      OddDivisor(f, d, w + b);
      MuchSmaller(w, b);
    } else {
      Associate(2, f / 2, d);
      HalfScale(w + b);
    }
  }

  lemma HalfScale(n: nat)
    requires 0 < n
    ensures Scale(1, n) == 2 * Scale(1, n - 1)
  {
  }

  lemma MuchSmaller(w: WordSize, b: nat)
    ensures Scale(1, b + 1) < Scale(1, w + b)
  {
    WordValues(w);
    hide Scale;
    ScaleSum(1, w - 1, b + 1, w + b);
    ScaleMonotonic(2, Scale(1, w - 1), b + 1);
    ScaleDouble(1, b + 1);
    ScaleAdd(0, 1, b + 1);
  }

  // ----- The three kinds of divisors -----

  // What DividesBy asks of one dividend
  ghost predicate Yields(v: Divisor, w: WordSize, n: nat, d: nat)
    requires d > 0 && 0 <= v.shift + w
  {
    && n + v.corr < Scale(1, w) && (n + v.corr) * v.recip < Scale(1, 2 * w)
    && Quotient(v, w, n) == Rounded(n, d)
  }

  lemma AllYield(v: Divisor, w: WordSize, d: nat)
    requires d > 0 && 0 <= v.shift + w && v.recip < Scale(1, w)
    requires forall n: nat :: Dividend(w, n) ==> Yields(v, w, n, d)
    ensures DividesBy(v, w, d)
  {
    hide Quotient, Rounded, Scale, Dividend;
    forall n: nat | Dividend(w, n)
      ensures n + v.corr < Scale(1, w) && (n + v.corr) * v.recip < Scale(1, 2 * w)
      ensures Quotient(v, w, n) == Rounded(n, d)
    {
      assert Yields(v, w, n, d);
    }
  }

  lemma PowerOfTwoDivisor(w: WordSize, d: nat, b: nat, f: nat)
    requires Divided(w, d, b, f, 0) && 1 <= b
    ensures DividesBy(Divisor(f / 2, d / 2, b - 1), w, d)
  {
    EvenReciprocal(w, d, b, f);
    ReciprocalFits(w, d, b, f, 0);
    WordValues(w);
    hide Yields, Dividend, Scale;
    forall n: nat | Dividend(w, n)
      ensures Yields(Divisor(f / 2, d / 2, b - 1), w, n, d)
    {
      SumsFit(w, d, n);
      PowerOfTwoYields(w, d, b, f / 2, n);
    }
    AllYield(Divisor(f / 2, d / 2, b - 1), w, d);
  }

  lemma PowerOfTwoYields(w: WordSize, d: nat, b: nat, f: nat, n: nat)
    requires d > 0 && 1 <= b && f * d == Scale(1, w + b - 1) && f < Scale(1, w)
    requires n + d / 2 < Scale(1, w)
    ensures Yields(Divisor(f, d / 2, b - 1), w, n, d)
  {
    hide Quotient, Rounded, Scale;
    ProductBound(n + d / 2, f, w, w);
    var m := n + d / 2;
    Split(m, d);
    RoundedUpReciprocal(m, m / d, m % d, d, f, 0, Scale(1, w + b - 1));
    Found(Divisor(f, d / 2, b - 1), w, n, d, Scale(1, w + b - 1));
  }

  lemma SmallFraction(w: WordSize, d: nat, b: nat, f: nat, fr: nat)
    requires Divided(w, d, b, f, fr) && 0 < fr <= d / 2
    ensures DividesBy(Divisor(f, d / 2 + 1, b), w, d)
  {
    ReciprocalFits(w, d, b, f, fr);
    hide Yields, Dividend, Scale;
    forall n: nat | Dividend(w, n)
      ensures Yields(Divisor(f, d / 2 + 1, b), w, n, d)
    {
      SumsFit(w, d, n);
      SmallFractionYields(w, d, b, f, fr, n);
    }
    AllYield(Divisor(f, d / 2 + 1, b), w, d);
  }

  lemma SmallFractionYields(w: WordSize, d: nat, b: nat, f: nat, fr: nat, n: nat)
    requires Divided(w, d, b, f, fr) && 0 < fr <= d / 2 && f < Scale(1, w) && n + d / 2 + 1 < Scale(1, w)
    ensures Yields(Divisor(f, d / 2 + 1, b), w, n, d)
  {
    hide Quotient, Rounded, Scale, Divided;
    ProductBound(n + d / 2 + 1, f, w, w);
    Split(n + d / 2, d);
    SmallFractionQuotient(w, d, b, f, fr, n + d / 2, (n + d / 2) / d, (n + d / 2) % d);
    Found(Divisor(f, d / 2 + 1, b), w, n, d, Scale(1, w + b));
  }

  lemma SmallFractionQuotient(w: WordSize, d: nat, b: nat, f: nat, fr: nat, m: nat, q: nat, s: nat)
    requires Divided(w, d, b, f, fr) && 0 < fr <= d / 2 && m + 1 < Scale(1, w) && m == q * d + s && s < d
    ensures q * Scale(1, w + b) <= (m + 1) * f < q * Scale(1, w + b) + Scale(1, w + b)
  {
    HalfDivisor(d, b);
    hide Scale;
    ProductBound(m + 1, fr, w, b);
    RoundedDownReciprocal(m, q, s, d, f, fr, Scale(1, w + b));
  }

  lemma LargeFraction(w: WordSize, d: nat, b: nat, f: nat, fr: nat)
    requires Divided(w, d, b, f, fr) && d / 2 < fr
    ensures DividesBy(Divisor(f + 1, d / 2, b), w, d)
  {
    ReciprocalFits(w, d, b, f, fr);
    hide Yields, Dividend, Scale;
    forall n: nat | Dividend(w, n)
      ensures Yields(Divisor(f + 1, d / 2, b), w, n, d)
    {
      SumsFit(w, d, n);
      LargeFractionYields(w, d, b, f, fr, n);
    }
    AllYield(Divisor(f + 1, d / 2, b), w, d);
  }

  lemma LargeFractionYields(w: WordSize, d: nat, b: nat, f: nat, fr: nat, n: nat)
    requires d > 0 && Divided(w, d, b, f, fr) && d / 2 < fr && f + 1 < Scale(1, w) && n + d / 2 < Scale(1, w)
    ensures Yields(Divisor(f + 1, d / 2, b), w, n, d)
  {
    hide Quotient, Rounded, Scale, Divided;
    ProductBound(n + d / 2, f + 1, w, w);
    Split(n + d / 2, d);
    LargeFractionQuotient(w, d, b, f, fr, n + d / 2, (n + d / 2) / d, (n + d / 2) % d);
    Found(Divisor(f + 1, d / 2, b), w, n, d, Scale(1, w + b));
  }

  lemma LargeFractionQuotient(w: WordSize, d: nat, b: nat, f: nat, fr: nat, m: nat, q: nat, s: nat)
    requires Divided(w, d, b, f, fr) && d / 2 < fr && m < Scale(1, w) && m == q * d + s && s < d
    ensures q * Scale(1, w + b) <= m * (f + 1) < q * Scale(1, w + b) + Scale(1, w + b)
  {
    HalfDivisor(d, b);
    hide Scale;
    Distribute(d, f, 1);
    ProductBound(m, d - fr, w, b);
    RoundedUpReciprocal(m, q, s, d, f + 1, d - fr, Scale(1, w + b));
  }

  lemma Split(m: nat, d: nat)
    requires d > 0
    ensures m == (m / d) * d + m % d && m % d < d
  {
  }

  lemma HalfDivisor(d: nat, b: nat)
    requires d < Scale(1, b + 1)
    ensures d / 2 < Scale(1, b)
  {
  }

  lemma Found(v: Divisor, w: WordSize, n: nat, d: nat, p: nat)
    requires 0 <= v.shift + w && p == Scale(1, v.shift + w) && d > 0
    requires var q := (n + d / 2) / d; q * p <= (n + v.corr) * v.recip < q * p + p
    ensures Quotient(v, w, n) == Rounded(n, d)
  {
    ShiftedProduct((n + v.corr) * v.recip, (n + d / 2) / d, v.shift + w);
  }

  // ----- Building the table -----

  lemma Unquantized(w: WordSize)
    ensures DividesBy(Divisor(1, 0, 0 - w), w, 1)
  {
    WordValues(w);
    ScaleTwice(1, w, w);
    ScaleMonotonic(1, Scale(1, w), w);
  }

  lemma NarrowShift(w: WordSize, d: nat, b: nat)
    requires 2 <= d && Scale(1, b) <= d < Scale(1, b + 1)
    ensures 1 <= b && (b == 1 ==> d == 2 || d == 3)
  {
  }

  // The values of f and fr are those of 2^(w + b), divided by d.
  method Divide(w: WordSize, d: UInt16, b: nat) returns (fq: nat, fr: nat)
    requires 2 <= d && Scale(1, b) <= d < Scale(1, b + 1)
    ensures Divided(w, d, b, fq, fr)
  {
    hide Scale;
    var p := Scale(1, w + b);
    fq, fr := p / d, p % d;
    assert d * fq == fq * d;
  }

  // The divisor is at least 1, as 0 has no reciprocal. The code is 0 if the shift is too short
  // for routines that return the upper word of the product.
  method ComputeReciprocal(w: WordSize, divisor: UInt16) returns (v: Divisor, code: nat)
    requires 1 <= divisor
    ensures DividesBy(v, w, divisor)
    ensures code == 0 <==> divisor == 1 || (w == 16 && divisor == 2)
  {
    if divisor == 1 {
      Unquantized(w);
      return Divisor(1, 0, 0 - w), 0;
    }
    var bits := Flss(divisor);
    var b := bits - 1;
    NarrowShift(w, divisor, b);
    var r := w + b;
    var fq, fr := Divide(w, divisor, b);
    var c := divisor / 2;
    ghost var f := fq;
    hide Scale, DividesBy;
    if fr == 0 {
      PowerOfTwoDivisor(w, divisor, b, fq);
      fq := fq / 2;
      r := r - 1;
    } else if fr <= divisor / 2 {
      SmallFraction(w, divisor, b, fq, fr);
      c := c + 1;
    } else {
      LargeFraction(w, divisor, b, fq, fr);
      fq := fq + 1;
    }
    v := Divisor(fq, c, r - w);
    code := if r <= 16 then 0 else 1;
    NarrowCode(w, divisor, b, f, fr);
  }

  lemma NarrowCode(w: WordSize, d: nat, b: nat, f: nat, fr: nat)
    requires Divided(w, d, b, f, fr) && 1 <= b
    ensures (w + b - if fr == 0 then 1 else 0) <= 16 <==> w == 16 && d == 2
  {
    ScaleValues(1);
    assert Scale(1, 17) == 2 * Scale(1, 16);
    assert Scale(1, 2) == 4;
    if w == 16 && b == 1 {
      assert Scale(1, w + b) == Scale(1, 17);
    }
    if w == 16 && d == 2 && b > 1 {
      ScaleMonotonic(1, 1, b);
      ScaleSum(1, 2, b - 2, b);
    }
  }

  // The integer method's divisors: quantizer steps times 8, passed as 16-bit values
  function SlowDivisor(step: UInt16): UInt16 {
    8 * step % 0x1_0000
  }

  // Steps from 8192 on do not survive the conversion.
  lemma SlowDivisorExact(step: UInt16)
    ensures SlowDivisor(step) == 8 * step <==> step < 0x2000
    ensures SlowDivisor(step) == 0 <==> step % 0x2000 == 0
  {
  }

  // The divisor table divides by the given steps.
  ghost predicate Divides(divisors: seq<Divisor>, w: WordSize, steps: seq<UInt16>) {
    && |divisors| == |steps|
    && forall i :: 0 <= i < |steps| ==> steps[i] > 0 && DividesBy(divisors[i], w, steps[i])
  }

  method MakeDivisors(w: WordSize, quantval: seq<UInt16>) returns (divisors: seq<Divisor>)
    requires |quantval| == DCTSIZE && forall i :: 0 <= i < DCTSIZE ==> SlowDivisor(quantval[i]) > 0
    ensures Divides(divisors, w, seq(DCTSIZE, i requires 0 <= i < DCTSIZE => SlowDivisor(quantval[i])))
  {
    hide SlowDivisor, DividesBy;
    divisors := [];
    for i := 0 to DCTSIZE
      invariant |divisors| == i
      invariant forall j :: 0 <= j < i ==> DividesBy(divisors[j], w, SlowDivisor(quantval[j]))
    {
      var v, _ := ComputeReciprocal(w, SlowDivisor(quantval[i]));
      divisors := divisors + [v];
    }
  }

  // ----- Quantization -----

  // A sample's quantized value: rounded away from zero at halves, whatever the sign
  function Quantized(x: int, d: nat): int
    requires d > 0
  {
    if x < 0 then 0 - Rounded(-x, d) else Rounded(x, d)
  }

  // One coefficient
  method Reduce(w: WordSize, v: Divisor, temp: int, ghost d: nat) returns (q: int)
    requires d > 0 && DividesBy(v, w, d) && Dividend(w, Abs(temp))
    ensures q == Quantized(temp, d)
  {
    hide Rounded, Scale;
    var a := if temp < 0 then -temp else temp;
    assert Dividend(w, a);
    var product := (a + v.corr) * v.recip;
    var y := Shr(product, v.shift + w);
    q := if temp < 0 then -y else y;
  }

  method Quantize(w: WordSize, coef: array<int>, divisors: seq<Divisor>, workspace: array<int>,
                  ghost steps: seq<UInt16>)
    requires |steps| == DCTSIZE && Divides(divisors, w, steps)
    requires coef.Length == DCTSIZE == workspace.Length
    requires forall i :: 0 <= i < DCTSIZE ==> Dividend(w, Abs(workspace[i]))
    modifies coef
    ensures forall i :: 0 <= i < DCTSIZE ==> coef[i] == Wrap16(Quantized(old(workspace[i]), steps[i]))
  {
    hide Dividend, DividesBy, Quantized, Wrap16;
    for i := 0 to DCTSIZE
      invariant forall j :: 0 <= j < i ==> coef[j] == Wrap16(Quantized(old(workspace[j]), steps[j]))
      invariant forall j :: i <= j < DCTSIZE ==> workspace[j] == old(workspace[j])
    {
      var temp := Reduce(w, divisors[i], workspace[i], steps[i]);
      coef[i] := Wrap16(temp);
    }
  }
}
