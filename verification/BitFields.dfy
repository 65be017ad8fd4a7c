// Shifts and single-bit tests on integers, as the coefficient coders use them.
module BitFields {
  import opened Arithmetic

  // x >> n; an arithmetic shift for negative x
  function Shr(x: int, n: nat): (y: int)
    ensures x >= 0 ==> 0 <= y <= x
    decreases n
  {
    if n == 0 then x else Shr(x / 2, n - 1)
  }

  // x << n, which moves the magnitude of a negative x
  function Shl(x: int, n: nat): int {
    if x < 0 then -(Scale(-x, n) as int) else Scale(x, n) as int
  }

  function Abs(x: int): nat {
    if x < 0 then -x else x
  }

  // x | y
  function Or(x: nat, y: nat): nat {
    if x == 0 && y == 0 then 0 else 2 * Or(x / 2, y / 2) + if x % 2 == 1 || y % 2 == 1 then 1 else 0
  }

  lemma {:induction false} OrZero(x: nat)
    ensures Or(x, 0) == x
  {
    if x > 0 {
      OrZero(x / 2);
    }
  }

  // Fields that do not overlap are added.
  lemma {:induction false} OrApart(x: nat, y: nat, n: nat)
    requires y < Scale(1, n)
    ensures Or(y, Scale(x, n)) == Scale(x, n) + y
    decreases n
  {
    if n == 0 {
      OrSwap(0, x);
      OrZero(x);
    } else {
      OrApart(x, y / 2, n - 1);
    }
  }

  lemma {:induction false} OrSwap(x: nat, y: nat)
    ensures Or(x, y) == Or(y, x)
  {
    if x > 0 || y > 0 {
      OrSwap(x / 2, y / 2);
    }
  }

  predicate PowerOfTwo(m: nat) {
    m == 1 || (m > 1 && m % 2 == 0 && PowerOfTwo(m / 2))
  }

  // (m & v) != 0 for a power of two m
  predicate BitTest(m: nat, v: nat) {
    if m <= 1 then v % 2 == 1 else BitTest(m / 2, v / 2)
  }

  // v | m for a power of two m
  function OrBit(v: nat, m: nat): nat {
    if m <= 1 then (if v % 2 == 1 then v else v + 1) else 2 * OrBit(v / 2, m / 2) + v % 2
  }

  // v with the bits below the power of two m cleared
  function ClearBelow(v: nat, m: nat): nat {
    if m <= 1 then v else 2 * ClearBelow(v / 2, m / 2)
  }

  // v >> log2(m)
  function Above(v: nat, m: nat): nat {
    if m <= 1 then v else Above(v / 2, m / 2)
  }

  // Largest power of two not above v, or 0
  function TopBit(v: nat): nat {
    if v <= 1 then v else 2 * TopBit(v / 2)
  }

  lemma SmallBits(v: nat)
    ensures v <= 1 ==> TopBit(v) == v && ClearBelow(v, v) == v
    ensures Above(v, 1) == v && ClearBelow(v, 0) == v
  {
  }

  lemma {:induction false} AboveHalf(v: nat, m: nat)
    requires PowerOfTwo(m)
    ensures PowerOfTwo(2 * m) && Above(v, 2 * m) == Above(v, m) / 2
  {
    if m > 1 {
      AboveHalf(v / 2, m / 2);
    }
  }

  // When nothing but the lowest bit remains above m, m is the top bit.
  lemma {:induction false} AboveOne(v: nat, m: nat)
    requires PowerOfTwo(m) && Above(v, m) == 1
    ensures m <= v < 2 * m && ClearBelow(v, m) == m && TopBit(v) == m
  {
    if m > 1 {
      AboveOne(v / 2, m / 2);
    }
  }

  // Reading the bits of v from the top down, next the one at h
  lemma {:induction false} NextBit(v: nat, h: nat)
    requires PowerOfTwo(h)
    ensures ClearBelow(v, h) == if BitTest(h, v) then OrBit(ClearBelow(v, 2 * h), h) else ClearBelow(v, 2 * h)
  {
    if h > 1 {
      NextBit(v / 2, h / 2);
    }
  }

  lemma {:induction false} ShrHalf(x: int, n: nat)
    ensures Shr(x, n + 1) == Shr(x, n) / 2
    decreases n
  {
    if n > 0 {
      ShrHalf(x / 2, n - 1);
    }
  }

  // Rounding down to one more bit adds that bit.
  lemma {:induction false} OneMoreBit(x: int, n: nat)
    ensures Shl(Shr(x, n), n) == Shl(Shr(x, n + 1), n + 1) + if Shr(x, n) % 2 == 1 then Scale(1, n) else 0
    decreases n
  {
    assert Shl(Shr(x, n + 1), n + 1) == 2 * Shl(Shr(x / 2, n), n);
    if n > 0 {
      OneMoreBit(x / 2, n - 1);
    }
  }

  lemma {:induction false} LowBitClear(y: int, n: nat)
    ensures Shr(Shl(y, n + 1), n) == 2 * y
    decreases n
  {
    assert Shl(y, n + 1) == 2 * Shl(y, n);
    if n > 0 {
      LowBitClear(y, n - 1);
    }
  }

  // Rounding down towards a multiple of 2^n stays above any lower power of two.
  lemma {:induction false} RoundedDown(x: int, n: nat, m: nat)
    requires n <= m && 0 <= x + Scale(1, m)
    ensures 0 <= Shl(Shr(x, n), n) + Scale(1, m) && Shl(Shr(x, n), n) <= x
    decreases n
  {
    if n > 0 {
      RoundedDown(x / 2, n - 1, m - 1);
    }
  }

  lemma {:induction false} AboveAtLeast(v: nat, m: nat)
    requires PowerOfTwo(m) && Above(v, m) > 0
    ensures m <= v
  {
    if m > 1 {
      AboveAtLeast(v / 2, m / 2);
    }
  }

  // Between a power of two and the next one there is no other.
  lemma {:induction false} PowerGap(m: nat, h: nat)
    requires PowerOfTwo(m) && PowerOfTwo(h) && m < h
    ensures 2 * m <= h
  {
    if m > 1 {
      PowerGap(m / 2, h / 2);
    }
  }

  // The shifts divide, rounding down, and multiply.
  lemma {:induction false} ShrQuotient(x: int, n: nat)
    ensures Shr(x, n) == x / Scale(1, n)
    decreases n
  {
    if n > 0 {
      ShrQuotient(x / 2, n - 1);
      var d := Scale(1, n - 1);
      var q, r := x / 2 / d, x / 2 % d;
      assert x == 2 * (x / 2) + x % 2 && x / 2 == d * q + r;
      assert 2 * d * q == 2 * (d * q);
      DivMod(2 * d, q, 2 * r + x % 2);
    }
  }

  lemma {:induction false} ShlProduct(x: int, n: nat)
    ensures Shl(x, n) == x * Scale(1, n)
  {
    if n > 0 {
      ShlProduct(x, n - 1);
      assert Shl(x, n) == 2 * Shl(x, n - 1);
      assert x * (2 * Scale(1, n - 1)) == 2 * (x * Scale(1, n - 1));
    }
  }
}
