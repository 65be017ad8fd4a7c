// Byte strings as numbers, byte stuffing, and carries into a string that ends in
// 0xFF bytes: what the encoder's pending-byte counters stand for.
module ArithBytes {
  import opened Arithmetic
  import opened ArithInterval

  // The value of a whole byte string
  function Number(x: seq<Byte>): nat {
    Value(x, |x|)
  }

  function Fill(b: Byte, n: nat): (x: seq<Byte>)
    ensures |x| == n
  {
    seq(n, i => b)
  }

  lemma {:induction false} ValuePrefix(x: seq<Byte>, y: seq<Byte>, j: nat)
    requires j <= |x|
    ensures Value(x + y, j) == Value(x, j)
  {
    if j > 0 {
      ValuePrefix(x, y, j - 1);
    }
  }

  lemma NumberSnoc(x: seq<Byte>, b: Byte)
    ensures Number(x + [b]) == 0x100 * Number(x) + b
  {
    ValuePrefix(x, [b], |x|);
  }

  lemma {:induction false} NumberAppend(x: seq<Byte>, y: seq<Byte>)
    ensures Number(x + y) == Scale(Number(x), 8 * |y|) + Number(y)
  {
    if y == [] {
      assert x + y == x;
    } else {
      var y', b := y[..|y| - 1], y[|y| - 1];
      assert x + y == (x + y') + [b] && y == y' + [b];
      NumberSnoc(x + y', b);
      NumberSnoc(y', b);
      NumberAppend(x, y');
      ScaleByte(Number(x), 8 * |y'|);
    }
  }

  lemma {:induction false} NumberZeros(n: nat)
    ensures Number(Fill(0, n)) == 0
  {
    if n > 0 {
      assert Fill(0, n) == Fill(0, n - 1) + [0];
      NumberSnoc(Fill(0, n - 1), 0);
      NumberZeros(n - 1);
    }
  }

  lemma {:induction false} NumberOnes(n: nat)
    ensures Number(Fill(0xFF, n)) + 1 == Scale(1, 8 * n)
  {
    if n > 0 {
      assert Fill(0xFF, n) == Fill(0xFF, n - 1) + [0xFF];
      NumberSnoc(Fill(0xFF, n - 1), 0xFF);
      NumberOnes(n - 1);
      ScaleByte(1, 8 * (n - 1));
    }
  }

  // A carry runs through the stacked 0xFF bytes, which become zeros, and stops at the
  // byte before them.
  lemma Carry(x: seq<Byte>, b: Byte, n: nat)
    requires b < 0xFF
    ensures Number(x + [b] + Fill(0xFF, n)) + 1 == Number(x + [b + 1] + Fill(0, n))
  {
    NumberAppend(x + [b], Fill(0xFF, n));
    NumberAppend(x + [b + 1], Fill(0, n));
    NumberOnes(n);
    NumberZeros(n);
    NumberSnoc(x, b);
    NumberSnoc(x, b + 1);
    ScaleAdd(Number(x + [b]), 1, 8 * n);
  }

  // Reading past the end supplies zeros.
  lemma {:induction false} ValueBeyond(x: seq<Byte>, n: nat)
    ensures Value(x, |x| + n) == Number(x + Fill(0, n))
  {
    if n == 0 {
      assert x + Fill(0, n) == x;
    } else {
      assert x + Fill(0, n) == (x + Fill(0, n - 1)) + [0];
      NumberSnoc(x + Fill(0, n - 1), 0);
      ValueBeyond(x, n - 1);
    }
  }

  // ----- Byte stuffing -----

  function StuffByte(b: Byte): seq<Byte> {
    if b == 0xFF then [0xFF, 0] else [b]
  }

  function Stuff(x: seq<Byte>): seq<Byte> {
    if x == [] then [] else Stuff(x[..|x| - 1]) + StuffByte(x[|x| - 1])
  }

  // A zero byte goes behind each 0xFF byte, and nothing else changes.
  lemma {:induction false} StuffPlain(x: seq<Byte>)
    ensures 0xFF !in x ==> Stuff(x) == x
    ensures Stuff([0xFF]) == [0xFF, 0x00]
  {
    assert [0xFF][..0] == [] && Stuff([]) == [];
    if x != [] {
      StuffPlain(x[..|x| - 1]);
      assert x == x[..|x| - 1] + [x[|x| - 1]];
    }
  }

  lemma StuffSnoc(x: seq<Byte>, b: Byte)
    ensures Stuff(x + [b]) == Stuff(x) + StuffByte(b)
  {
    assert (x + [b])[..|x|] == x;
  }

  lemma {:induction false} StuffAppend(x: seq<Byte>, y: seq<Byte>)
    ensures Stuff(x + y) == Stuff(x) + Stuff(y)
  {
    if y == [] {
      assert x + y == x;
    } else {
      var y', b := y[..|y| - 1], y[|y| - 1];
      assert x + y == (x + y') + [b] && y == y' + [b];
      StuffSnoc(x + y', b);
      StuffAppend(x, y');
    }
  }
}
