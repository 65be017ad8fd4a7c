// Bit strings, most significant bit first, and the numbers they spell.
module BitStrings {
  import opened Arithmetic
  import opened BitFields

  type Bits = seq<bool>

  function Num(s: Bits): nat {
    if s == [] then 0 else 2 * Num(s[..|s| - 1]) + if s[|s| - 1] then 1 else 0
  }

  // The low n bits of v
  function BitsOf(v: nat, n: nat): (s: Bits)
    ensures |s| == n
    decreases n
  {
    if n == 0 then [] else BitsOf(v / 2, n - 1) + [v % 2 == 1]
  }

  lemma {:induction false} NumBound(s: Bits)
    ensures Num(s) < Scale(1, |s|)
  {
    if s != [] {
      NumBound(s[..|s| - 1]);
    }
  }

  lemma {:induction false} NumOf(v: nat, n: nat)
    requires v < Scale(1, n)
    ensures Num(BitsOf(v, n)) == v
    decreases n
  {
    if n > 0 {
      NumOf(v / 2, n - 1);
      assert BitsOf(v, n)[..n - 1] == BitsOf(v / 2, n - 1);
    }
  }

  lemma {:induction false} BitsOfNum(s: Bits)
    ensures BitsOf(Num(s), |s|) == s
  {
    if s != [] {
      BitsOfNum(s[..|s| - 1]);
      assert s == s[..|s| - 1] + [s[|s| - 1]];
    }
  }

  // Appending n bits shifts the number.
  lemma {:induction false} BitsAppend(a: nat, m: nat, b: nat, n: nat)
    requires b < Scale(1, n)
    ensures BitsOf(Scale(a, n) + b, m + n) == BitsOf(a, m) + BitsOf(b, n)
    decreases n
  {
    if n == 0 {
      assert BitsOf(a, m) + [] == BitsOf(a, m);
    } else {
      BitsAppend(a, m, b / 2, n - 1);
      var x := Scale(a, n) + b;
      assert x / 2 == Scale(a, n - 1) + b / 2 && x % 2 == b % 2;
      assert BitsOf(x, m + n) == BitsOf(x / 2, m + n - 1) + [b % 2 == 1];
      assert BitsOf(a, m) + (BitsOf(b / 2, n - 1) + [b % 2 == 1]) == (BitsOf(a, m) + BitsOf(b / 2, n - 1)) + [b % 2 == 1];
    }
  }

  // The upper bits of a number are those of the shifted number.
  lemma {:induction false} BitsPrefix(v: nat, m: nat, n: nat)
    ensures BitsOf(v, m + n)[..m] == BitsOf(Shr(v, n), m)
    ensures BitsOf(v, m + n)[m..] == BitsOf(v, n)
    decreases n
  {
    if n > 0 {
      BitsPrefix(v / 2, m, n - 1);
      var s := BitsOf(v / 2, m + n - 1);
      assert BitsOf(v, m + n) == s + [v % 2 == 1];
      assert (s + [v % 2 == 1])[..m] == s[..m];
      assert (s + [v % 2 == 1])[m..] == s[m..] + [v % 2 == 1];
    }
  }

  lemma {:induction false} NumAppend(a: Bits, b: Bits)
    ensures Num(a + b) == Scale(Num(a), |b|) + Num(b)
  {
    if b == [] {
      assert a + b == a;
    } else {
      NumAppend(a, b[..|b| - 1]);
      assert (a + b)[..|a + b| - 1] == a + b[..|b| - 1];
    }
  }

  // The first bits of a string, as a number
  lemma NumPrefix(s: Bits, l: nat, m: nat)
    requires l <= m <= |s|
    ensures Scale(Num(s[..l]), m - l) <= Num(s[..m]) < Scale(Num(s[..l]) + 1, m - l)
  {
    assert s[..m] == s[..l] + s[l..m];
    NumAppend(s[..l], s[l..m]);
    NumBound(s[l..m]);
    ScaleAdd(Num(s[..l]), 1, m - l);
  }

  // The low w bits of a number, as a machine word of that width keeps them
  function Low(x: nat, w: nat): nat {
    Num(BitsOf(x, w))
  }

  lemma LowBits(x: nat, w: nat, n: nat)
    requires n <= w
    ensures BitsOf(Low(x, w), n) == BitsOf(x, n)
  {
    hide BitsOf, Num, Shr;
    BitsOfNum(BitsOf(x, w));
    BitsPrefix(x, w - n, n);
    BitsPrefix(Low(x, w), w - n, n);
  }

  // Machine words of 64 or 32 bits
  function WordBits(wide: bool): (w: nat)
    ensures w == 64 || w == 32
  {
    if wide then 64 else 32
  }

  // Bits of a byte string
  function DataBits(data: seq<nat>): (s: Bits)
    ensures |s| == 8 * |data|
  {
    if data == [] then [] else DataBits(data[..|data| - 1]) + BitsOf(data[|data| - 1], 8)
  }

  lemma DataBitsSnoc(data: seq<nat>, b: nat)
    ensures DataBits(data + [b]) == DataBits(data) + BitsOf(b, 8)
  {
    assert (data + [b])[..|data|] == data;
  }

  lemma Associative(a: Bits, b: Bits, c: Bits)
    ensures (a + b) + c == a + (b + c)
  {
  }

  lemma {:induction false} DataBitsCons(b: nat, data: seq<nat>)
    ensures DataBits([b] + data) == BitsOf(b, 8) + DataBits(data)
  {
    hide DataBits, BitsOf;
    if data == [] {
      assert [b] + data == [] + [b];
      DataBitsSnoc([], b);
      NoData();
    } else {
      var init, x := data[..|data| - 1], data[|data| - 1];
      DataBitsCons(b, init);
      assert [b] + data == ([b] + init) + [x] && data == init + [x];
      DataBitsSnoc([b] + init, x);
      DataBitsSnoc(init, x);
      Associative(BitsOf(b, 8), DataBits(init), BitsOf(x, 8));
    }
  }

  lemma NoData()
    ensures DataBits([]) == []
  {
  }
}
