// The probability estimation table shared by the arithmetic encoder and decoder:
// Table D.2 of ITU-T T.81, with the fixed estimate of 0.5 as entry 113.
module Aritab {
  import opened Arithmetic

  const LAST_INDEX := 113

  datatype Row = Row(qe: nat, nextLps: nat, nextMps: nat, switch: nat)

  // Every estimate is below one half of the smallest normalised interval, and every
  // transition leads back into the table.
  predicate Sound(r: Row) {
    && 0 < r.qe < 0x8000
    && r.nextLps <= LAST_INDEX && r.nextMps <= LAST_INDEX && r.switch <= 1
  }

  // A row packed into a word, as both coders read it
  function V(r: Row): nat {
    r.qe * 0x1_0000 + r.nextMps * 0x100 + r.switch * 0x80 + r.nextLps
  }

  // What the coders extract from the packed word with two shifts and two masks: the next
  // index after an LPS together with the switch bit, the next index after an MPS, and Qe.
  lemma Unpack(r: Row)
    requires Sound(r)
    ensures V(r) % 0x100 == r.switch * 0x80 + r.nextLps
    ensures V(r) / 0x100 % 0x100 == r.nextMps
    ensures V(r) / 0x100 / 0x100 == r.qe
  {
    var low := r.switch * 0x80 + r.nextLps;
    DivMod(0x100, r.qe * 0x100 + r.nextMps, low);
    DivMod(0x100, r.qe, r.nextMps);
  }

  function Rows0(i: nat): (r: Row)
    requires i < 19
    ensures Sound(r)
  {
    match i
    case 0 => Row(0x5a1d, 1, 1, 1)
    case 1 => Row(0x2586, 14, 2, 0)
    case 2 => Row(0x1114, 16, 3, 0)
    case 3 => Row(0x080b, 18, 4, 0)
    case 4 => Row(0x03d8, 20, 5, 0)
    case 5 => Row(0x01da, 23, 6, 0)
    case 6 => Row(0x00e5, 25, 7, 0)
    case 7 => Row(0x006f, 28, 8, 0)
    case 8 => Row(0x0036, 30, 9, 0)
    case 9 => Row(0x001a, 33, 10, 0)
    case 10 => Row(0x000d, 35, 11, 0)
    case 11 => Row(0x0006, 9, 12, 0)
    case 12 => Row(0x0003, 10, 13, 0)
    case 13 => Row(0x0001, 12, 13, 0)
    case 14 => Row(0x5a7f, 15, 15, 1)
    case 15 => Row(0x3f25, 36, 16, 0)
    case 16 => Row(0x2cf2, 38, 17, 0)
    case 17 => Row(0x207c, 39, 18, 0)
    case 18 => Row(0x17b9, 40, 19, 0)
  }

  function Rows19(i: nat): (r: Row)
    requires i < 19
    ensures Sound(r)
  {
    match i
    case 0 => Row(0x1182, 42, 20, 0)
    case 1 => Row(0x0cef, 43, 21, 0)
    case 2 => Row(0x09a1, 45, 22, 0)
    case 3 => Row(0x072f, 46, 23, 0)
    case 4 => Row(0x055c, 48, 24, 0)
    case 5 => Row(0x0406, 49, 25, 0)
    case 6 => Row(0x0303, 51, 26, 0)
    case 7 => Row(0x0240, 52, 27, 0)
    case 8 => Row(0x01b1, 54, 28, 0)
    case 9 => Row(0x0144, 56, 29, 0)
    case 10 => Row(0x00f5, 57, 30, 0)
    case 11 => Row(0x00b7, 59, 31, 0)
    case 12 => Row(0x008a, 60, 32, 0)
    case 13 => Row(0x0068, 62, 33, 0)
    case 14 => Row(0x004e, 63, 34, 0)
    case 15 => Row(0x003b, 32, 35, 0)
    case 16 => Row(0x002c, 33, 9, 0)
    case 17 => Row(0x5ae1, 37, 37, 1)
    case 18 => Row(0x484c, 64, 38, 0)
  }

  function Rows38(i: nat): (r: Row)
    requires i < 19
    ensures Sound(r)
  {
    match i
    case 0 => Row(0x3a0d, 65, 39, 0)
    case 1 => Row(0x2ef1, 67, 40, 0)
    case 2 => Row(0x261f, 68, 41, 0)
    case 3 => Row(0x1f33, 69, 42, 0)
    case 4 => Row(0x19a8, 70, 43, 0)
    case 5 => Row(0x1518, 72, 44, 0)
    case 6 => Row(0x1177, 73, 45, 0)
    case 7 => Row(0x0e74, 74, 46, 0)
    case 8 => Row(0x0bfb, 75, 47, 0)
    case 9 => Row(0x09f8, 77, 48, 0)
    case 10 => Row(0x0861, 78, 49, 0)
    case 11 => Row(0x0706, 79, 50, 0)
    case 12 => Row(0x05cd, 48, 51, 0)
    case 13 => Row(0x04de, 50, 52, 0)
    case 14 => Row(0x040f, 50, 53, 0)
    case 15 => Row(0x0363, 51, 54, 0)
    case 16 => Row(0x02d4, 52, 55, 0)
    case 17 => Row(0x025c, 53, 56, 0)
    case 18 => Row(0x01f8, 54, 57, 0)
  }

  function Rows57(i: nat): (r: Row)
    requires i < 19
    ensures Sound(r)
  {
    match i
    case 0 => Row(0x01a4, 55, 58, 0)
    case 1 => Row(0x0160, 56, 59, 0)
    case 2 => Row(0x0125, 57, 60, 0)
    case 3 => Row(0x00f6, 58, 61, 0)
    case 4 => Row(0x00cb, 59, 62, 0)
    case 5 => Row(0x00ab, 61, 63, 0)
    case 6 => Row(0x008f, 61, 32, 0)
    case 7 => Row(0x5b12, 65, 65, 1)
    case 8 => Row(0x4d04, 80, 66, 0)
    case 9 => Row(0x412c, 81, 67, 0)
    case 10 => Row(0x37d8, 82, 68, 0)
    case 11 => Row(0x2fe8, 83, 69, 0)
    case 12 => Row(0x293c, 84, 70, 0)
    case 13 => Row(0x2379, 86, 71, 0)
    case 14 => Row(0x1edf, 87, 72, 0)
    case 15 => Row(0x1aa9, 87, 73, 0)
    case 16 => Row(0x174e, 72, 74, 0)
    case 17 => Row(0x1424, 72, 75, 0)
    case 18 => Row(0x119c, 74, 76, 0)
  }

  function Rows76(i: nat): (r: Row)
    requires i < 19
    ensures Sound(r)
  {
    match i
    case 0 => Row(0x0f6b, 74, 77, 0)
    case 1 => Row(0x0d51, 75, 78, 0)
    case 2 => Row(0x0bb6, 77, 79, 0)
    case 3 => Row(0x0a40, 77, 48, 0)
    case 4 => Row(0x5832, 80, 81, 1)
    case 5 => Row(0x4d1c, 88, 82, 0)
    case 6 => Row(0x438e, 89, 83, 0)
    case 7 => Row(0x3bdd, 90, 84, 0)
    case 8 => Row(0x34ee, 91, 85, 0)
    case 9 => Row(0x2eae, 92, 86, 0)
    case 10 => Row(0x299a, 93, 87, 0)
    case 11 => Row(0x2516, 86, 71, 0)
    case 12 => Row(0x5570, 88, 89, 1)
    case 13 => Row(0x4ca9, 95, 90, 0)
    case 14 => Row(0x44d9, 96, 91, 0)
    case 15 => Row(0x3e22, 97, 92, 0)
    case 16 => Row(0x3824, 99, 93, 0)
    case 17 => Row(0x32b4, 99, 94, 0)
    case 18 => Row(0x2e17, 93, 86, 0)
  }

  function Rows95(i: nat): (r: Row)
    requires i < 19
    ensures Sound(r)
  {
    match i
    case 0 => Row(0x56a8, 95, 96, 1)
    case 1 => Row(0x4f46, 101, 97, 0)
    case 2 => Row(0x47e5, 102, 98, 0)
    case 3 => Row(0x41cf, 103, 99, 0)
    case 4 => Row(0x3c3d, 104, 100, 0)
    case 5 => Row(0x375e, 99, 93, 0)
    case 6 => Row(0x5231, 105, 102, 0)
    case 7 => Row(0x4c0f, 106, 103, 0)
    case 8 => Row(0x4639, 107, 104, 0)
    case 9 => Row(0x415e, 103, 99, 0)
    case 10 => Row(0x5627, 105, 106, 1)
    case 11 => Row(0x50e7, 108, 107, 0)
    case 12 => Row(0x4b85, 109, 103, 0)
    case 13 => Row(0x5597, 110, 109, 0)
    case 14 => Row(0x504f, 111, 107, 0)
    case 15 => Row(0x5a10, 110, 111, 1)
    case 16 => Row(0x5522, 112, 109, 0)
    case 17 => Row(0x59eb, 112, 111, 1)
    case 18 => Row(0x5a1d, 113, 113, 0)
  }

  function Lookup(i: nat): (r: Row)
    requires i <= LAST_INDEX
    ensures Sound(r)
  {
    if i < 19 then Rows0(i)
    else if i < 38 then Rows19(i - 19)
    else if i < 57 then Rows38(i - 38)
    else if i < 76 then Rows57(i - 57)
    else if i < 95 then Rows76(i - 76)
    else Rows95(i - 95)
  }

  // A statistics byte by its bit fields: the sense of the more probable symbol (the high
  // bit) and the index of a table row (the low seven bits).
  datatype StatByte = Stat(mps: nat, index: nat)

  type Stat = s: StatByte | s.mps <= 1 && s.index <= LAST_INDEX witness Stat(0, 0)

  function Encoded(s: Stat): nat {
    s.mps * 0x80 + s.index
  }

  // (sv & 0x80) ^ (nl), where nl holds the switch bit and the next index
  function AfterLps(sv: Stat, r: Row): Stat
    requires Sound(r)
  {
    Stat(if sv.mps == r.switch then 0 else 1, r.nextLps)
  }

  // (sv & 0x80) ^ nm
  function AfterMps(sv: Stat, r: Row): Stat
    requires Sound(r)
  {
    Stat(sv.mps, r.nextMps)
  }

  function RowOf(sv: Stat): (r: Row)
    ensures Sound(r)
  {
    Lookup(sv.index)
  }

  // ----- The statistics byte and the packed row -----

  // x & y
  function And(x: nat, y: nat): nat {
    if x == 0 || y == 0 then 0 else 2 * And(x / 2, y / 2) + if x % 2 == 1 && y % 2 == 1 then 1 else 0
  }

  // x ^ y
  function Xor(x: nat, y: nat): nat {
    if x == 0 && y == 0 then 0 else 2 * Xor(x / 2, y / 2) + (x % 2 + y % 2) % 2
  }

  lemma Halves(a: nat, i: nat, n: nat)
    requires 0 < n
    ensures (Scale(a, n) + i) / 2 == Scale(a, n - 1) + i / 2 && (Scale(a, n) + i) % 2 == i % 2
    ensures (Scale(1, n) - 1) / 2 == Scale(1, n - 1) - 1 && (Scale(1, n) - 1) % 2 == 1
    ensures Scale(a, n) == 2 * Scale(a, n - 1)
  {
  }

  lemma XorStep(x: nat, y: nat)
    ensures Xor(x, y) == 2 * Xor(x / 2, y / 2) + (x % 2 + y % 2) % 2
  {
  }

  lemma {:induction false} LowMask(a: nat, i: nat, n: nat)
    requires i < Scale(1, n)
    ensures And(Scale(a, n) + i, Scale(1, n) - 1) == i
    decreases n
  {
    if n > 0 {
      LowMask(a, i / 2, n - 1);
      Halves(a, i, n);
      hide Scale;
    }
  }

  lemma {:induction false} TopMask(a: nat, i: nat, n: nat)
    requires i < Scale(1, n) && a <= 1
    ensures And(Scale(a, n) + i, Scale(1, n)) == Scale(a, n)
    decreases n
  {
    if n > 0 {
      TopMask(a, i / 2, n - 1);
    } else {
      assert And(1, 1) == 2 * And(0, 0) + 1;
    }
  }

  lemma {:induction false} XorTop(a: nat, b: nat, i: nat, n: nat)
    requires i < Scale(1, n)
    ensures Xor(Scale(a, n), Scale(b, n) + i) == Scale(Xor(a, b), n) + i
    decreases n
  {
    hide Xor;
    if n > 0 {
      hide Scale;
      XorTop(a, b, i / 2, n - 1);
      Halves(a, 0, n);
      Halves(b, i, n);
      Halves(1, 0, n);
      Halves(Xor(a, b), 0, n);
      XorStep(Scale(a, n), Scale(b, n) + i);
    } else {
      assert i == 0;
    }
  }

  lemma OneBitXor(a: nat, b: nat)
    requires a <= 1 && b <= 1
    ensures Xor(a, b) == if a == b then 0 else 1
  {
    assert Xor(a / 2, b / 2) == 0;
  }

  lemma TopBits(x: nat)
    ensures Scale(x, 7) == 0x80 * x
  {
    assert Scale(x, 7) == 2 * Scale(x, 6) == 4 * Scale(x, 5) == 8 * Scale(x, 4);
    assert Scale(x, 4) == 2 * Scale(x, 3) == 4 * Scale(x, 2) == 8 * Scale(x, 1);
    assert Scale(x, 1) == 2 * Scale(x, 0);
  }

  // What the coders compute from the byte and the packed word is what they do to its fields.
  lemma ByteUpdates(sv: Stat)
    ensures var r, byte, word := RowOf(sv), Encoded(sv), V(RowOf(sv));
            var nl, nm := word % 0x100, word / 0x100 % 0x100;
            && And(byte, 0x7F) == sv.index && byte / 0x80 == sv.mps && word / 0x100 / 0x100 == r.qe
            && Encoded(AfterLps(sv, r)) == Xor(And(byte, 0x80), nl)
            && Encoded(AfterMps(sv, r)) == Xor(And(byte, 0x80), nm)
  {
    hide And, Xor, Lookup, Scale;
    var r := RowOf(sv);
    Unpack(r);
    TopBits(1);
    TopBits(sv.mps);
    TopBits(r.switch);
    TopBits(0);
    LowMask(sv.mps, sv.index, 7);
    TopMask(sv.mps, sv.index, 7);
    XorTop(sv.mps, r.switch, r.nextLps, 7);
    XorTop(sv.mps, 0, r.nextMps, 7);
    OneBitXor(sv.mps, r.switch);
    OneBitXor(sv.mps, 0);
    TopBits(Xor(sv.mps, r.switch));
    TopBits(Xor(sv.mps, 0));
  }
}
