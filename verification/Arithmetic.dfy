// Facts about division and powers of two that the coders' register layouts rest on.
module Arithmetic {

  // The quotient and the remainder are determined by any decomposition.
  lemma DivMod(d: int, q: int, r: int)
    requires 0 <= r < d
    ensures (d * q + r) / d == q && (d * q + r) % d == r
  {
    var x := d * q + r;
    SameQuotient(d, q, r, x / d, x % d);
  }

  lemma SameQuotient(d: int, q: int, r: int, q': int, r': int)
    requires 0 <= r < d && 0 <= r' < d && d * q + r == d * q' + r'
    ensures q == q' && r == r'
  {
    if q < q' {
      MulGap(d, q, q');
    } else if q' < q {
      MulGap(d, q', q);
    }
  }

  lemma MulGap(d: int, q: int, q': int)
    requires d > 0 && q < q'
    ensures d * q + d <= d * q'
  {
    var k := q' - q - 1;
    Distribute(d, q + 1, k);
    Distribute(d, q, 1);
    assert d * k >= 0;
  }

  lemma Distribute(d: int, x: int, y: int)
    ensures d * (x + y) == d * x + d * y
  {
  }

  lemma ProductMonotonic(x: nat, y: nat, d: nat)
    requires x <= y
    ensures x * d <= y * d
  {
    Distribute(d, x, y - x);
    assert d * (y - x) >= 0;
  }

  lemma CancelLess(x: nat, y: nat, d: nat)
    requires x * d < y * d
    ensures x < y
  {
    if y <= x {
      ProductMonotonic(y, x, d);
    }
  }

  // x * 2^n, without multiplication so that reasoning about it stays linear
  function Scale(x: nat, n: nat): (y: nat)
    ensures x <= y && (y == 0 <==> x == 0)
  {
    if n == 0 then x else 2 * Scale(x, n - 1)
  }

  lemma {:induction false} ScaleAdd(x: nat, y: nat, n: nat)
    ensures Scale(x + y, n) == Scale(x, n) + Scale(y, n)
  {
    if n > 0 {
      ScaleAdd(x, y, n - 1);
    }
  }

  lemma {:induction false} ScaleMonotonic(x: nat, y: nat, n: nat)
    requires x <= y
    ensures Scale(x, n) <= Scale(y, n)
  {
    if n > 0 {
      ScaleMonotonic(x, y, n - 1);
    }
  }

  lemma {:induction false} ScaleStrict(x: nat, y: nat, n: nat)
    requires x < y
    ensures Scale(x, n) < Scale(y, n)
  {
    if n > 0 {
      ScaleStrict(x, y, n - 1);
    }
  }

  lemma {:induction false} ScaleTwice(x: nat, m: nat, n: nat)
    ensures Scale(Scale(x, m), n) == Scale(x, m + n)
  {
    if n > 0 {
      ScaleTwice(x, m, n - 1);
    }
  }

  lemma ScaleSum(x: nat, m: nat, n: nat, sum: nat)
    requires m + n == sum
    ensures Scale(Scale(x, m), n) == Scale(x, sum)
  {
    ScaleTwice(x, m, n);
  }

  lemma {:induction false} ScaleDouble(x: nat, n: nat)
    ensures Scale(2 * x, n) == 2 * Scale(x, n)
  {
    if n > 0 {
      ScaleDouble(x, n - 1);
    }
  }

  // Eight places make a byte.
  lemma ScaleByte(x: nat, n: nat)
    ensures Scale(x, n + 8) == 0x100 * Scale(x, n)
  {
    assert Scale(x, n + 8) == 2 * Scale(x, n + 7) == 4 * Scale(x, n + 6) == 8 * Scale(x, n + 5);
    assert Scale(x, n + 5) == 2 * Scale(x, n + 4) == 4 * Scale(x, n + 3) == 8 * Scale(x, n + 2);
    assert Scale(x, n + 2) == 2 * Scale(x, n + 1) == 4 * Scale(x, n);
  }

  lemma ScaleValues(x: nat)
    ensures Scale(x, 0) == x && Scale(x, 8) == 0x100 * x && Scale(x, 11) == 0x800 * x
    ensures Scale(x, 16) == 0x1_0000 * x && Scale(x, 19) == 0x8_0000 * x && Scale(x, 27) == 0x800_0000 * x
  {
    assert Scale(x, 1) == 2 * x && Scale(x, 2) == 4 * x && Scale(x, 3) == 8 * x;
    ScaleByte(x, 0);
    ScaleByte(x, 3);
    ScaleByte(x, 8);
    ScaleByte(x, 11);
    ScaleByte(x, 19);
  }
}
