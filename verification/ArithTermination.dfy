// Termination of an arithmetic coded segment (section D.1.8 of ITU-T T.81): which value
// of the final interval is written, and why no shorter byte string would do.
module ArithTermination {
  import opened Arithmetic
  import opened ArithInterval
  import opened ArithBytes

  // q * 2^t is the only multiple of 2^t in [c, c + a).
  predicate OnlyMultiple(c: nat, a: nat, t: nat, q: nat) {
    && c <= Scale(q, t) < c + a
    && Scale(q, t) < c + Scale(1, t) && c + a <= Scale(q + 1, t)
  }

  lemma ScaleOrder(x: nat, y: nat, n: nat)
    ensures Scale(x, n) <= Scale(y, n) <==> x <= y
  {
    if x <= y {
      ScaleMonotonic(x, y, n);
    } else {
      ScaleStrict(y, x, n);
    }
  }

  lemma SameMultiple(c: nat, a: nat, t: nat, q: nat, q': nat)
    requires OnlyMultiple(c, a, t, q) && c <= Scale(q', t) < c + a
    ensures q == q'
  {
    ScaleOrder(q + 1, q', t);
    ScaleAdd(q', 1, t);
    ScaleOrder(q' + 1, q, t);
  }

  // Zeros beyond the end of data shift its value.
  lemma {:induction false} ValuePadded(data: seq<Byte>, j: nat)
    requires |data| <= j
    ensures Value(data, j) == Scale(Number(data), 8 * (j - |data|))
    decreases j
  {
    if |data| < j {
      ValuePadded(data, j - 1);
      ScaleByte(Number(data), 8 * (j - 1 - |data|));
    }
  }

  lemma LastByte(data: seq<Byte>)
    requires data != []
    ensures Number(data) % 0x100 == data[|data| - 1]
  {
    var m := |data| - 1;
    assert Number(data) == 0x100 * Value(data, m) + data[m];
    DivMod(0x100, Value(data, m), data[m]);
  }

  // A string whose value at j bytes is also a multiple of the next byte place ends in zero.
  lemma TrailingZero(data: seq<Byte>, j: nat, y: nat)
    requires data != [] && |data| <= j
    requires Value(data, j) == Scale(y, 8 * (j - |data|) + 8)
    ensures data[|data| - 1] == 0
  {
    var t := 8 * (j - |data|);
    ValuePadded(data, j);
    ScaleTwice(y, 8, t);
    ScaleOrder(Number(data), Scale(y, 8), t);
    ScaleOrder(Scale(y, 8), Number(data), t);
    ScaleByte(y, 0);
    LastByte(data);
    DivMod(0x100, y, 0);
  }

  // The last byte of data lies below the place where its value has only zeros.
  lemma PlaceBound(data: seq<Byte>, j: nat, q: nat, u: nat)
    requires data != [] && |data| <= j && data[|data| - 1] != 0
    requires Value(data, j) == Scale(q, u)
    ensures u < 8 * (j - |data|) + 8
  {
    var place := 8 * (j - |data|) + 8;
    if place <= u {
      ScaleTwice(q, u - place, place);
      TrailingZero(data, j, Scale(q, u - place));
    }
  }

  // A value of the interval with so many trailing zeros is the only multiple of 2^t.
  lemma SameValue(e: Coder, t: nat, q: nat, s: nat, y: nat, place: nat)
    requires OnlyMultiple(e.low, e.a, t, q) && t + s <= place
    requires Scale(e.low, s) <= Scale(y, place) < Scale(e.low + e.a, s)
    ensures Scale(q, t + s) == Scale(y, place)
  {
    var q' := Scale(y, place - t - s);
    ScaleSum(y, place - t - s, t + s, place);
    ScaleSum(q', t, s, t + s);
    ScaleOrder(e.low, Scale(q', t), s);
    ScaleOrder(e.low + e.a, Scale(q', t), s);
    SameMultiple(e.low, e.a, t, q, q');
  }

  lemma ShorterValue(data: seq<Byte>, i: nat, j: nat)
    requires |data| <= i <= j
    ensures Value(data, j) == Scale(Value(data, i), 8 * (j - i))
  {
    ValuePadded(data, i);
    ValuePadded(data, j);
    ScaleTwice(Number(data), 8 * (i - |data|), 8 * (j - i));
  }

  lemma TwoZeroBytes(data: seq<Byte>, i: nat, x: nat)
    requires |data| <= i && Value(data, i) == x
    ensures Value(data, i + 2) == Scale(x, 16)
  {
    ShorterValue(data, i, i + 2);
  }

  lemma NotShorter(e: Coder, data: seq<Byte>, j: nat, t: nat, s: nat, q: nat, other: seq<Byte>)
    requires OnlyMultiple(e.low, e.a, t, q)
    requires |other| < |data| <= j && data[|data| - 1] != 0
    requires Value(data, j) == Scale(q, t + s)
    ensures !(Scale(e.low, s) <= Value(other, j) < Scale(e.low + e.a, s))
  {
    var y, place := Value(other, |data| - 1), 8 * (j - |data|) + 8;
    PlaceBound(data, j, q, t + s);
    ShorterValue(other, |data| - 1, j);
    if Scale(e.low, s) <= Value(other, j) < Scale(e.low + e.a, s) {
      SameValue(e, t, q, s, y, place);
      TrailingZero(data, j, y);
    }
  }

  // No byte string of the interval is shorter than one that ends in a nonzero byte and
  // denotes its only multiple of 2^t.
  lemma Shortest(e: Coder, data: seq<Byte>, j: nat, t: nat, s: nat, q: nat, other: seq<Byte>)
    requires 8 * j == 16 + e.n + s && |data| <= j
    requires OnlyMultiple(e.low, e.a, t, q)
    requires Value(data, j) == Scale(q, t + s)
    requires data != [] ==> data[|data| - 1] != 0
    requires Contains(other, e)
    ensures |data| <= |other|
  {
    if |other| < |data| {
      WithinCover(other, j, e);
      NotShorter(e, data, j, t, s, q, other);
    }
  }

  // ----- From the C register to the final bytes -----

  // Adding a multiple of 2^t to the interval adds it to the only multiple.
  lemma OnlyMultipleOffset(c: nat, a: nat, t: nat, q: nat, b: nat)
    requires OnlyMultiple(c, a, t, q)
    ensures OnlyMultiple(Scale(b, t) + c, a, t, b + q)
  {
    hide Scale;
    ScaleAdd(b, q, t);
    ScaleAdd(b, q + 1, t);
  }

  // The chosen value x = q * 2^t of the C register, shifted by the ct places that are
  // missing in the current byte, has all its bits at or above the final two bytes.
  lemma FinalRegister(q: nat, t: nat, ct: nat)
    requires 15 <= t && 0 < ct
    ensures Scale(Scale(q, t), ct) == 0x800 * Scale(q, t + ct - 11)
  {
    ScaleTwice(q, t, ct);
    ScaleTwice(q, t + ct - 11, 11);
    ScaleValues(Scale(q, t + ct - 11));
  }

  // The carry and the two bytes that the shifted register f yields
  lemma FinalBytes(f: nat, h: nat)
    requires f == 0x800 * h && f < 0x900_0000
    ensures f / 0x800 == h && f / 0x8_0000 == h / 0x100
    ensures h == (if 0x800_0000 <= f then 0x1_0000 else 0)
                 + 0x100 * (f / 0x8_0000 % 0x100) + f / 0x800 % 0x100
  {
    DivMod(0x800, h, 0);
    DivMod(0x8_0000, h / 0x100, 0x800 * (h % 0x100));
    var g := if h < 0x1_0000 then h else h - 0x1_0000;
    DivMod(0x100, g / 0x100, g % 0x100);
  }

  // Two more bytes, written out or understood
  lemma TwoBytes(y: seq<Byte>, high: Byte, low8: Byte)
    ensures Number(y + [high] + [low8]) == 0x1_0000 * Number(y) + 0x100 * high + low8
  {
    NumberSnoc(y, high);
    NumberSnoc(y + [high], low8);
  }

  lemma OneByte(y: seq<Byte>, high: Byte)
    ensures Value(y + [high], |y| + 2) == 0x1_0000 * Number(y) + 0x100 * high
  {
    NumberSnoc(y, high);
  }

  lemma NoBytes(x: seq<Byte>, n: nat)
    ensures Value(x, |x| + n + 2) == 0x1_0000 * Number(x + Fill(0, n))
  {
    ValueBeyond(x, n);
  }

  lemma FinalBound(c: nat, a: nat, ct: nat, x: nat)
    requires x < c + a && Scale(c + a, ct) <= 0x900_0000
    ensures Scale(x, ct) < 0x900_0000
  {
    ScaleStrict(x, c + a, ct);
  }

  // v followed by the two bytes h denotes (b + q) * 2^t at the scale of the interval.
  lemma FinalValue(v: nat, q: nat, t: nat, ct: nat, b: nat, h: nat)
    requires 15 <= t <= 16 && 0 < ct <= 11
    requires Scale(v, 27 - ct) == Scale(b, t) && h == Scale(q, t + ct - 11)
    ensures Scale(0x1_0000 * v + h, 16) == Scale(b + q, t + ct + 5)
  {
    hide Scale;
    var u := t + ct + 5;
    ScaleAdd(b, q, u);
    ScaleSum(b, t, ct + 5, u);
    ScaleSum(v, 27 - ct, ct + 5, 32);
    ScaleSum(q, t + ct - 11, 16, u);
    ScaleAdd(0x1_0000 * v, h, 16);
    ScaleValues(v);
    ScaleSum(v, 16, 16, 32);
  }

  // data lies in the interval, and so does no shorter string.
  ghost predicate ShortestOf(data: seq<Byte>, e: Coder) {
    && Contains(data, e)
    && forall other: seq<Byte> :: Contains(other, e) ==> |data| <= |other|
  }

  // A string of the interval's only multiple of 2^t, ending in a nonzero byte, is a
  // shortest string of the interval.
  lemma Optimal(e: Coder, data: seq<Byte>, j: nat, t: nat, s: nat, q: nat)
    requires 8 * j == 16 + e.n + s && |data| <= j
    requires OnlyMultiple(e.low, e.a, t, q)
    requires Value(data, j) == Scale(q, t + s)
    requires data != [] ==> data[|data| - 1] != 0
    ensures ShortestOf(data, e)
  {
    ScaleTwice(q, t, s);
    ScaleOrder(e.low, Scale(q, t), s);
    ScaleOrder(e.low + e.a, Scale(q, t), s);
    WithinCover(data, j, e);
    forall other: seq<Byte> | Contains(other, e)
      ensures |data| <= |other|
    {
      Shortest(e, data, j, t, s, q, other);
    }
  }
}
