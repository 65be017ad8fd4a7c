// The bit accumulator of the Huffman encoder (jchuff.c), with words of 64 or 32 bits.
module HuffmanWriter {
  import opened Arithmetic
  import opened BitFields
  import opened BitStrings
  import opened ArithInterval
  import opened ArithBytes

  // The number of pending bits after some bits have been emitted
  function AfterBits(wide: bool, p: nat, size: nat): nat {
    if wide then (if p > 47 then p - 48 else p) + size else if p + size > 15 then p + size - 16 else p + size
  }

  // ... and after a code word with the bits that go with it
  function AfterCode(wide: bool, p: nat, size: nat, nbits: nat): nat {
    if wide then (if p > 31 then p - 32 else p) + size + nbits
    else AfterBits(false, AfterBits(false, p, size), nbits)
  }

  class BitWriter {
    const wide: bool       // words of 64 bits, else of 32
    var putBuffer: nat     // the low putBits bits have not been written
    var putBits: nat
    var out: seq<Byte>

    ghost var before: seq<Byte> // output that precedes the current segment
    ghost var data: seq<Byte>   // bytes of the segment, without stuffing
    ghost var stream: Bits      // bits of the segment

    ghost predicate Valid()
      reads this
    {
      && out == before + Stuff(data)
      && stream == DataBits(data) + BitsOf(putBuffer, putBits)
    }

    // At the end of each emission few enough bits are pending for the next one.
    ghost predicate Ready()
      reads this
    {
      Valid() && putBits <= if wide then 63 else 15
    }

    constructor (wide: bool, written: seq<Byte>)
      ensures Ready() && stream == [] && before == written && putBits == 0 && this.wide == wide
    {
      this.wide := wide;
      putBuffer, putBits, out := 0, 0, written;
      before, data, stream := written, [], [];
    }

    // Write a byte, and a zero behind 0xFF.
    method StuffedByte(c: Byte)
      requires out == before + Stuff(data)
      modifies `out, `data
      ensures out == before + Stuff(data) && data == old(data) + [c]
    {
      hide Stuff, Number;
      StuffSnoc(data, c);
      out := out + [c];
      if c == 0xFF {
        out := out + [0];
      }
      data := data + [c];
    }

    // Write the upper eight of the pending bits.
    method EmitByte()
      requires Valid() && 8 <= putBits
      modifies `putBits, `out, `data
      ensures Valid() && putBits == old(putBits) - 8
    {
      hide Stuff, Low, Shr, BitsOf, DataBits;
      putBits := putBits - 8;
      var c := Low(Shr(putBuffer, putBits), 8);
      ByteValue(Shr(putBuffer, putBits));
      PendingByte(data, putBuffer, putBits, c);
      StuffedByte(c);
    }

    // Put the low bits of code, behind the pending ones.
    method PutBits(code: nat, size: nat)
      requires Valid() && putBits + size <= WordBits(wide) && code < Scale(1, size)
      modifies `putBuffer, `putBits, `stream
      ensures Valid() && putBits == old(putBits) + size && stream == old(stream) + BitsOf(code, size)
    {
      hide Stuff, Number, DataBits, Scale, BitsOf, Low, Num;
      var shifted := Scale(putBuffer, size) + code;
      BitsAppend(putBuffer, putBits, code, size);
      LowBits(shifted, WordBits(wide), putBits + size);
      putBits := putBits + size;
      putBuffer := Low(shifted, WordBits(wide));
      stream := stream + BitsOf(code, size);
      Associative(DataBits(data), BitsOf(old(putBuffer), old(putBits)), BitsOf(code, size));
    }

    // CHECKBUF15, CHECKBUF31 and CHECKBUF47: write this many bytes if more than limit bits
    // are pending.
    method CheckBuf(limit: nat)
      requires Valid() && (limit == 15 || limit == 31 || limit == 47)
      modifies `putBits, `out, `data
      ensures Valid() && putBits == old(putBits) - if old(putBits) > limit then limit + 1 else 0
    {
      if putBits > limit {
        var bytes: nat := (limit + 1) / 8;
        while bytes > 0
          invariant Valid() && putBits == old(putBits) - (limit + 1) + 8 * bytes
          decreases bytes
        {
          EmitByte();
          bytes := bytes - 1;
        }
      }
    }

    method EmitBits(code: nat, size: nat)
      requires Ready() && size <= 16 && code < Scale(1, size)
      modifies this
      ensures Ready() && stream == old(stream) + BitsOf(code, size) && before == old(before)
      ensures putBits == AfterBits(wide, old(putBits), size)
    {
      hide Scale, Stuff, DataBits;
      if wide {
        CheckBuf(47);
        PutBits(code, size);
      } else {
        PutBits(code, size);
        CheckBuf(15);
      }
    }

    // A code word and the bits that go with it
    method EmitCode(code: nat, size: nat, temp2: nat, nbits: nat)
      requires Ready() && size <= 16 && nbits <= 16 && code < Scale(1, size) && temp2 < Scale(1, nbits)
      modifies this
      ensures Ready() && stream == old(stream) + BitsOf(code, size) + BitsOf(temp2, nbits) && before == old(before)
      ensures putBits == AfterCode(wide, old(putBits), size, nbits)
    {
      hide Scale, Stuff, DataBits;
      if wide {
        CheckBuf(31);
        PutBits(code, size);
        PutBits(temp2, nbits);
      } else {
        PutBits(code, size);
        CheckBuf(15);
        PutBits(temp2, nbits);
        CheckBuf(15);
      }
    }

    // flush_bits: fill any partial byte with ones, write what is pending, and start anew.
    // The bits that do not fit the accumulator are lost.
    method FlushBits() returns (ghost written: seq<Byte>)
      requires Ready()
      modifies this
      ensures out == old(before) + Stuff(written) && before == out && Ready() && stream == [] && putBits == 0
      ensures Flushed(written, old(stream), old(putBits), WordBits(wide))
    {
      hide Scale, Stuff, DataBits, BitsOf, Low, Padded, FlushOk;
      FlushCorrect(stream, putBits, WordBits(wide), (|stream| + 7) / 8);
      FlushedBits(DataBits(data), putBuffer, putBits, WordBits(wide));
      putBits := putBits + 7;
      putBuffer := Low(Scale(putBuffer, 7) + 0x7F, WordBits(wide));
      stream := Padded(stream, old(putBits), WordBits(wide));
      WritePending();
      written := data;
      putBuffer, putBits := 0, 0;
      before, data, stream := out, [], [];
      NothingPending(out);
    }

    // A marker between segments
    method EmitMarker(marker: Byte)
      requires Ready() && stream == [] && before == out
      modifies this
      ensures Ready() && stream == [] && putBits == 0 && before == out == old(out) + [0xFF, marker]
    {
      hide Stuff, DataBits, BitsOf;
      out := out + [0xFF] + [marker];
      putBuffer, putBits, before, data := 0, 0, out, [];
      NothingPending(out);
    }

    method WritePending()
      requires Valid()
      modifies `putBits, `out, `data
      ensures out == before + Stuff(data) && |data| == |stream| / 8
      ensures DataBits(data) == stream[..8 * |data|]
    {
      hide Stuff, DataBits, BitsOf;
      while putBits >= 8
        invariant Valid()
        decreases putBits
      {
        EmitByte();
      }
      assert (DataBits(data) + BitsOf(putBuffer, putBits))[..8 * |data|] == DataBits(data);
    }
  }

  lemma NothingPending(out: seq<Byte>)
    ensures out + Stuff([]) == out && DataBits([]) + BitsOf(0, 0) == []
  {
  }

  // The bits that flushing writes, with ones at the end, when the last n of them are pending
  // in a word of w bits: the first pending ones turn into zeros if the word is too short.
  function Padded(stream: Bits, n: nat, w: nat): (padded: Bits)
    requires n <= |stream| && n <= w && 7 <= w
    ensures |padded| == |stream| + 7
  {
    var lost := if n + 7 <= w then 0 else n + 7 - w;
    stream[..|stream| - n] + Copies(lost, false) + stream[|stream| - n + lost..] + Copies(7, true)
  }

  function Copies(n: nat, b: bool): (s: Bits)
    ensures |s| == n
  {
    seq(n, i => b)
  }

  // These bytes hold the bits, with ones behind them to fill the last byte.
  ghost predicate Holds(data: seq<Byte>, bits: Bits) {
    |data| == (|bits| + 7) / 8 && DataBits(data) == (bits + Copies(7, true))[..8 * |data|]
  }

  lemma HeldBits(data: seq<Byte>, bits: Bits) returns (pad: Bits)
    requires Holds(data, bits)
    ensures DataBits(data) == bits + pad && |pad| <= 7
  {
    hide DataBits;
    pad := Copies(7, true)[..8 * |data| - |bits|];
    assert (bits + Copies(7, true))[..8 * |data|] == bits + pad;
  }

  // These bytes are what is written of the bits when the last n of them are pending at the flush;
  // they hold the bits just if the flush loses none.
  ghost predicate Flushed(data: seq<Byte>, bits: Bits, n: nat, w: nat) {
    && |data| == (|bits| + 7) / 8 && n <= |bits| && n <= w && 7 <= w
    && DataBits(data) == Padded(bits, n, w)[..8 * |data|] && (Holds(data, bits) <==> FlushOk(bits, n, w))
  }

  // No one is among the bits that do not fit when n bits are pending in a word of w bits.
  predicate FlushOk(stream: Bits, n: nat, w: nat) {
    forall i :: 0 <= i < |stream| && |stream| - n <= i < |stream| + 7 - w ==> !stream[i]
  }

  // Flushing is correct just then.
  lemma FlushCorrect(stream: Bits, n: nat, w: nat, bytes: nat)
    requires n <= |stream| && n <= w && 7 <= w && bytes == (|stream| + 7) / 8
    ensures Padded(stream, n, w)[..8 * bytes] == (stream + Copies(7, true))[..8 * bytes] <==> FlushOk(stream, n, w)
  {
    var lost := if n + 7 <= w then 0 else n + 7 - w;
    var start := |stream| - n;
    var padded, right := Padded(stream, n, w), stream + Copies(7, true);
    assert stream == stream[..start] + stream[start..start + lost] + stream[start + lost..];
    if padded[..8 * bytes] == right[..8 * bytes] {
      forall i | 0 <= i < |stream| && start <= i < |stream| + 7 - w
        ensures !stream[i]
      {
        assert padded[i] == padded[..8 * bytes][i] == right[..8 * bytes][i] == right[i];
        assert padded[i] == Copies(lost, false)[i - start];
      }
    }
    if FlushOk(stream, n, w) {
      assert stream[start..start + lost] == Copies(lost, false);
      assert padded == right;
    }
  }

  lemma {:induction false} SomeBits(n: nat)
    ensures BitsOf(0, n) == Copies(n, false)
  {
    if n > 0 {
      SomeBits(n - 1);
    }
  }

  lemma {:induction false} ShiftedOut(x: nat, w: nat)
    requires x < Scale(1, w)
    ensures Shr(x, w) == 0
    decreases w
  {
    if w > 0 {
      ShiftedOut(x / 2, w - 1);
    }
  }

  lemma LowFits(x: nat, w: nat)
    ensures Low(x, w) < Scale(1, w)
  {
    NumBound(BitsOf(x, w));
  }

  // A word read beyond its width gives zeros.
  lemma BeyondWidth(x: nat, w: nat, n: nat)
    requires w <= n
    ensures BitsOf(Low(x, w), n) == Copies(n - w, false) + BitsOf(x, w)
  {
    hide BitsOf, Shr, Num, Scale;
    LowFits(x, w);
    ShiftedOut(Low(x, w), w);
    BitsPrefix(Low(x, w), n - w, w);
    SomeBits(n - w);
    LowBits(x, w, w);
    var s := BitsOf(Low(x, w), n);
    assert s == s[..n - w] + s[n - w..];
  }

  lemma FlushedBits(sent: Bits, buffer: nat, n: nat, w: nat)
    requires n <= w && 7 <= w
    ensures Padded(sent + BitsOf(buffer, n), n, w) == sent + BitsOf(Low(Scale(buffer, 7) + 0x7F, w), n + 7)
  {
    hide BitsOf, Scale, Low;
    var x := Scale(buffer, 7) + 0x7F;
    var pending := BitsOf(buffer, n);
    SevenOnes();
    BitsAppend(buffer, n, 0x7F, 7);
    assert (sent + pending)[..|sent|] == sent;
    if n + 7 <= w {
      LowBits(x, w, n + 7);
      assert (sent + pending)[|sent|..] == pending;
    } else {
      var lost := n + 7 - w;
      BeyondWidth(x, w, n + 7);
      BitsPrefix(x, lost, w);
      assert (pending + Copies(7, true))[lost..] == pending[lost..] + Copies(7, true);
      assert (sent + pending)[|sent| + lost..] == pending[lost..];
    }
  }

  lemma SevenOnes()
    ensures BitsOf(0x7F, 7) == Copies(7, true) && 0x7F < Scale(1, 7)
  {
    assert BitsOf(1, 1) == [true] && BitsOf(3, 2) == [true, true] && BitsOf(7, 3) == [true, true, true];
    assert BitsOf(15, 4) == [true, true, true, true] && BitsOf(31, 5) == [true, true, true, true, true];
    assert BitsOf(63, 6) == [true, true, true, true, true, true];
    assert Scale(1, 4) == 16 && Scale(1, 7) == 128;
  }

  lemma ByteValue(x: nat)
    ensures Low(x, 8) < 0x100
  {
    NumBound(BitsOf(x, 8));
    ScaleValues(1);
  }

  // The bits of the byte move from the accumulator to the data.
  lemma PendingByte(data: seq<Byte>, buffer: nat, n: nat, c: Byte)
    requires c == Low(Shr(buffer, n), 8)
    ensures DataBits(data + [c]) + BitsOf(buffer, n) == DataBits(data) + BitsOf(buffer, 8 + n)
  {
    BitsPrefix(buffer, 8, n);
    LowBits(Shr(buffer, n), 8, 8);
    DataBitsSnoc(data, c);
    var s := BitsOf(buffer, 8 + n);
    assert s == s[..8] + s[8..];
    Associative(DataBits(data), s[..8], s[8..]);
  }
}
