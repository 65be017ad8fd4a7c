// The bit accumulator of the progressive Huffman encoder (jcphuff.c): 24 bits, left-justified.
module PhuffWriter {
  import opened Arithmetic
  import opened BitFields
  import opened BitStrings
  import opened ArithInterval
  import opened ArithBytes
  import opened HuffmanWriter

  const ACCUMULATOR := 24

  class PhuffBits {
    const wide: bool       // words of 64 bits, else of 32
    var putBuffer: nat     // of its low 24 bits, the upper putBits have not been written
    var putBits: nat
    var out: seq<Byte>

    ghost var aligned: nat      // the buffer without the unused places below
    ghost var before: seq<Byte> // output that precedes the current segment
    ghost var data: seq<Byte>   // bytes of the segment, without stuffing
    ghost var stream: Bits      // bits of the segment

    // At most 7 bits are retained between calls. What has been shifted out of the low 24 bits
    // is left in the word.
    ghost predicate Valid()
      reads this
    {
      && putBits <= 7 && putBuffer == Scale(aligned, ACCUMULATOR - putBits)
      && out == before + Stuff(data) && stream == DataBits(data) + BitsOf(aligned, putBits)
    }

    constructor (wide: bool, written: seq<Byte>)
      ensures Valid() && stream == [] && before == written && this.wide == wide && out == written
    {
      this.wide := wide;
      putBuffer, putBits, out := 0, 0, written;
      aligned, before, data, stream := 0, written, [], [];
    }

    // Write a byte, and a zero behind 0xFF.
    method EmitByte(c: Byte)
      requires out == before + Stuff(data)
      modifies `out, `data
      ensures out == before + Stuff(data) && data == old(data) + [c]
    {
      hide Stuff;
      StuffSnoc(data, c);
      out := out + [c];
      if c == 0xFF {
        out := out + [0];
      }
      data := data + [c];
    }

    // Put the low bits of code behind the pending ones.
    method EmitBits(code: nat, size: nat)
      requires Valid() && 0 < size <= 16
      modifies this
      ensures Valid() && before == old(before) && stream == old(stream) + BitsOf(code, size)
    {
      hide Stuff, DataBits, BitsOf, Scale, Num, Or, Shr;
      var bits: nat := putBits + size;
      var masked := Low(code, size);
      LowFits(code, size);
      Merged(aligned, putBits, masked, size, WordBits(wide));
      var buffer := Or(Low(Scale(masked, ACCUMULATOR - bits), WordBits(wide)), putBuffer);
      ghost var q: nat := Scale(aligned, size) + masked;
      BitsAppend(aligned, putBits, masked, size);
      LowBits(code, size, size);
      stream := stream + BitsOf(code, size);
      Associative(DataBits(data), BitsOf(aligned, putBits), BitsOf(code, size));
      while bits >= 8
        invariant bits <= 23 && buffer == Scale(q, ACCUMULATOR - bits) && before == old(before)
        invariant out == before + Stuff(data) && stream == old(stream) + BitsOf(code, size) == DataBits(data) + BitsOf(q, bits)
      {
        ByteValue(Shr(buffer, 16));
        TopByte(q, bits, WordBits(wide));
        PendingByte(data, q, bits - 8, Low(Shr(q, bits - 8), 8));
        EmitByte(Low(Shr(buffer, 16), 8));
        buffer := Low(Scale(buffer, 8), WordBits(wide));
        bits := bits - 8;
        q := Low(q, WordBits(wide) - ACCUMULATOR + bits);
      }
      putBuffer, putBits, aligned := buffer, bits, q;
    }

    // flush_bits: fill any partial byte with ones, and start anew.
    method FlushBits() returns (ghost written: seq<Byte>)
      requires Valid()
      modifies this
      ensures Valid() && stream == [] && before == out == old(before) + Stuff(written)
      ensures Holds(written, old(stream))
    {
      hide Stuff, DataBits, BitsOf, Scale;
      EmitBits(0x7F, 7);
      SevenOnes();
      written := data;
      assert (DataBits(data) + BitsOf(aligned, putBits))[..8 * |data|] == DataBits(data);
      putBuffer, putBits := 0, 0;
      aligned, before, data, stream := 0, out, [], [];
      NothingPending(out);
      NoScale(ACCUMULATOR);
    }

    // A marker between segments
    method EmitMarker(marker: Byte)
      requires Valid() && stream == [] && before == out
      modifies this
      ensures Valid() && stream == [] && before == out == old(out) + [0xFF, marker]
    {
      hide Stuff, DataBits, BitsOf, Scale;
      NothingPending(out);
      NoStuff(data, before);
      out := out + [0xFF] + [marker];
      putBuffer, putBits, aligned, before, data := 0, 0, 0, out, [];
      NothingPending(out);
      NoScale(ACCUMULATOR);
    }
  }

  lemma NoStuff(data: seq<Byte>, before: seq<Byte>)
    requires before + Stuff(data) == before
    ensures data == []
  {
  }

  lemma NoScale(n: nat)
    ensures Scale(0, n) == 0
  {
  }

  // Old and new bits do not overlap.
  lemma Merged(x: nat, m: nat, y: nat, size: nat, w: nat)
    requires m + size <= ACCUMULATOR <= w && y < Scale(1, size)
    ensures var rest := ACCUMULATOR - (m + size);
            Or(Low(Scale(y, rest), w), Scale(x, ACCUMULATOR - m)) == Scale(Scale(x, size) + y, rest)
  {
    hide Scale, Or, BitsOf, Num;
    var rest := ACCUMULATOR - (m + size);
    ScaleTwice(x, size, rest);
    ScaleTwice(1, size, rest);
    ScaleStrict(y, Scale(1, size), rest);
    OrApart(x, Scale(y, rest), size + rest);
    ScaleAdd(Scale(x, size), y, rest);
    ScaleGrows(1, size + rest, w);
    NumOf(Scale(y, rest), w);
  }

  lemma {:induction false} ScaleGrows(x: nat, m: nat, n: nat)
    requires m <= n
    ensures Scale(x, m) <= Scale(x, n)
    decreases n
  {
    if m < n {
      ScaleGrows(x, m, n - 1);
    }
  }

  // The byte at the top of the accumulator, and what is left without it
  lemma TopByte(q: nat, bits: nat, w: nat)
    requires 8 <= bits <= ACCUMULATOR && 32 <= w
    ensures Shr(Scale(q, ACCUMULATOR - bits), 16) == Shr(q, bits - 8)
    ensures var q' := Low(q, w - ACCUMULATOR + (bits - 8));
            && Low(Scale(Scale(q, ACCUMULATOR - bits), 8), w) == Scale(q', ACCUMULATOR - (bits - 8))
            && BitsOf(q', bits - 8) == BitsOf(q, bits - 8)
  {
    hide Scale, Shr, BitsOf, Num;
    var n: nat := ACCUMULATOR - bits;
    ShrScale(q, n, 16);
    ScaleTwice(q, n, 8);
    LowScale(q, n + 8, w);
    LowBits(q, w - ACCUMULATOR + (bits - 8), bits - 8);
  }

  lemma {:induction false} ShrScale(x: nat, m: nat, n: nat)
    requires m <= n
    ensures Shr(Scale(x, m), n) == Shr(x, n - m)
    decreases m
  {
    if m > 0 {
      ShrScale(x, m - 1, n - 1);
    }
  }

  // A word of w bits keeps the low bits of what is shifted up.
  lemma LowScale(x: nat, n: nat, w: nat)
    requires n <= w
    ensures Low(Scale(x, n), w) == Scale(Low(x, w - n), n)
  {
    hide Scale, BitsOf, Num;
    PositiveScale(n);
    BitsAppend(x, w - n, 0, n);
    NumAppend(BitsOf(x, w - n), BitsOf(0, n));
    NumOf(0, n);
  }

  lemma PositiveScale(n: nat)
    ensures 0 < Scale(1, n)
  {
  }
}
