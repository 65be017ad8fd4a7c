// The bit buffer of the Huffman decoder (jdhuff.c, jdhuff.h), with words of 64 or 32 bits, and
// the decoding of one symbol.
module HuffmanReader {
  import opened Arithmetic
  import opened BitFields
  import opened BitStrings
  import opened ArithInterval
  import opened ArithBytes
  import opened ByteSource

  // The source with all data bytes from number k on stuffed, and the marker behind them
  function CleanRest(s: Segment, k: nat): seq<Byte>
    requires k <= |s.data|
  {
    Stuff(s.data[k..]) + ([0xFF, s.marker] + s.after)
  }

  lemma CleanStart(s: Segment, k: nat)
    requires k <= |s.data|
    ensures k < |s.data| ==> CleanRest(s, k) == StuffByte(s.data[k]) + CleanRest(s, k + 1)
    ensures k == |s.data| ==> CleanRest(s, k) == [0xFF, s.marker] + s.after
    ensures CleanRest(s, k) != [] && CleanRest(s, k)[0] == if k < |s.data| then s.data[k] else 0xFF
    ensures k < |s.data| && s.data[k] != 0xFF ==> CleanRest(s, k)[1..] == CleanRest(s, k + 1)
    ensures CleanRest(s, k)[0] == 0xFF ==>
              |CleanRest(s, k)| >= 2 && CleanRest(s, k)[1..][0] == CleanRest(s, k)[1] == if k < |s.data| then 0 else s.marker
    ensures k < |s.data| && s.data[k] == 0xFF ==> CleanRest(s, k)[1..][1..] == CleanRest(s, k + 1)
  {
    if k < |s.data| {
      assert s.data[k..] == [s.data[k]] + s.data[k + 1..];
      assert [s.data[k]][..0] == [];
      hide Stuff;
      StuffAppend([s.data[k]], s.data[k + 1..]);
      StuffOne(s.data[k]);
    }
  }

  lemma StuffOne(b: Byte)
    ensures Stuff([b]) == StuffByte(b)
  {
    assert [b][..0] == [];
  }

  // Shifting a byte in moves it from the data to the buffer.
  lemma LoadedByte(buffer: nat, bits: nat, w: nat, c: Byte, data: seq<Byte>, k: nat)
    requires bits + 8 <= w && k < |data| && c == data[k]
    ensures BitsOf(Low(Scale(buffer, 8) + c, w), bits + 8) + DataBits(data[k + 1..]) == BitsOf(buffer, bits) + DataBits(data[k..])
  {
    hide BitsOf, Low, Scale, DataBits;
    EightBits(c);
    BitsAppend(buffer, bits, c, 8);
    LowBits(Scale(buffer, 8) + c, w, bits + 8);
    DataBitsCons(c, data[k + 1..]);
    assert data[k..] == [c] + data[k + 1..];
    Associative(BitsOf(buffer, bits), BitsOf(c, 8), DataBits(data[k + 1..]));
  }

  class BitReader {
    const wide: bool       // words of 64 bits, else of 32
    var getBuffer: nat     // the low bitsLeft bits have not been used
    var bitsLeft: nat
    var rest: seq<Byte>    // bytes not yet taken from the source
    var unreadMarker: Byte // marker met in the data, 0 if none
    var insufficientData: bool
    var warnings: nat
    const discardedBytes: nat // full bytes left over at earlier restarts, not yet reported

    ghost const segment: Segment
    ghost const clean: bool // nothing but stuffed data precedes the marker
    ghost var k: nat       // data bytes consumed

    // Attempt to have this many bits in the buffer.
    function MinGetBits(): (n: nat)
      ensures n == 57 || n == 25
    {
      WordBits(wide) - 7
    }

    ghost predicate Valid()
      reads this
    {
      && segment.marker != 0 && segment.marker != 0xFF && bitsLeft <= WordBits(wide) && k <= |segment.data|
      && (clean && unreadMarker == 0 ==> rest == CleanRest(segment, k))
      && if unreadMarker == 0 then ReadSegment(rest) == segment.(data := segment.data[k..])
         else k == |segment.data| && unreadMarker == segment.marker && rest == segment.after
    }

    // The bits that have not been used
    ghost function Ahead(): Bits
      reads this
    {
      BitsOf(getBuffer, bitsLeft) + DataBits(if k <= |segment.data| then segment.data[k..] else [])
    }

    constructor (wide: bool, stream: seq<Byte>, ghost clean: bool)
      requires clean ==> stream == CleanRest(ReadSegment(stream), 0)
      ensures Valid() && this.clean == clean && segment == ReadSegment(stream) && Ahead() == DataBits(segment.data)
      ensures !insufficientData && warnings == discardedBytes == 0 && this.wide == wide
    {
      this.wide := wide;
      getBuffer, bitsLeft, discardedBytes := 0, 0, 0;
      rest, unreadMarker, insufficientData, warnings := stream, 0, false, 0;
      segment, this.clean, k := ReadSegment(stream), clean, 0;
      new;
      assert segment.data[0..] == segment.data;
    }

    // Behind a restart marker, or in front of a marker that has been met instead of it
    constructor Restart(before: BitReader, unread: Byte, stream: seq<Byte>, discarded: nat, more: nat, ghost clean: bool)
      requires unread != 0xFF && (clean ==> unread == 0 && stream == CleanRest(ReadSegment(stream), 0))
      ensures Valid() && this.clean == clean && wide == before.wide && segment == Waiting(unread, stream)
      ensures Ahead() == DataBits(segment.data)
      ensures insufficientData == (unread != 0 && before.insufficientData) && warnings == before.warnings + more
      ensures discardedBytes == discarded
    {
      wide := before.wide;
      getBuffer, bitsLeft, discardedBytes := 0, 0, discarded;
      rest, unreadMarker := stream, unread;
      insufficientData, warnings := unread != 0 && before.insufficientData, before.warnings + more;
      segment, this.clean, k := Waiting(unread, stream), clean, 0;
      new;
      assert segment.data[0..] == segment.data;
    }

    // The next data byte, if no marker has been met yet
    method ReadData() returns (more: bool, c: Byte)
      requires Valid() && unreadMarker == 0
      modifies `rest, `unreadMarker, `k
      ensures Valid() && (more <==> old(k) < |segment.data|)
      ensures if more then k == old(k) + 1 && c == segment.data[old(k)] && unreadMarker == 0
              else k == old(k) && unreadMarker != 0
    {
      hide ReadSegment, ReadAfterFF, CleanRest, StuffByte;
      if clean {
        CleanStart(segment, k);
      }
      more := true;
      c, rest := TakeByte(rest);
      if c == 0xFF {
        c, rest := SkipFill(rest);
        if c == 0 {
          c := 0xFF;
        } else {
          unreadMarker := c;
          more := false;
          return;
        }
      }
      FirstOf(segment.data, k, c, ReadSegment(rest).data);
      k := k + 1;
    }

    // jpeg_fill_bit_buffer: load the buffer until it holds the bits to aim at, or the data ends;
    // then add zeros if the nbits bits that are needed are not there.
    method FillBitBuffer(nbits: nat)
      requires Valid() && bitsLeft < MinGetBits() && nbits <= MinGetBits()
      modifies this`getBuffer, this`bitsLeft, `rest, `unreadMarker, `k, `insufficientData, `warnings
      ensures Valid() && nbits <= bitsLeft
      ensures nbits <= |old(Ahead())| ==> Ahead() == old(Ahead()) && unchanged(`insufficientData, `warnings)
      ensures nbits <= |old(Ahead())| && bitsLeft < MinGetBits() ==> |Ahead()| == bitsLeft
      ensures old(Ahead()) <= Ahead() && (nbits > |old(Ahead())| ==> insufficientData)
    {
      hide BitsOf, Low, Scale, DataBits, ReadSegment;
      while unreadMarker == 0 && bitsLeft < MinGetBits()
        invariant Valid() && Ahead() == old(Ahead()) && bitsLeft <= WordBits(wide)
        invariant unchanged(`insufficientData, `warnings)
        decreases unreadMarker == 0, |segment.data| - k
      {
        LoadNext();
      }
      if bitsLeft < MinGetBits() {
        AllRead();
        if nbits > bitsLeft {
          if !insufficientData {
            warnings := warnings + 1;
            insufficientData := true;
          }
          ZerosAppended(getBuffer, bitsLeft, MinGetBits() - bitsLeft);
          getBuffer := Low(Scale(getBuffer, MinGetBits() - bitsLeft), WordBits(wide));
          bitsLeft := MinGetBits();
        }
      }
    }

    lemma AllRead()
      requires Valid() && unreadMarker != 0
      ensures segment.data[k..] == [] && DataBits(segment.data[k..]) == []
      ensures |Ahead()| == bitsLeft && Ahead() == BitsOf(getBuffer, bitsLeft)
    {
      assert segment.data[k..] == [];
    }

    lemma ZerosAppended(buffer: nat, bits: nat, zeros: nat)
      requires bits + zeros <= WordBits(wide)
      ensures BitsOf(buffer, bits) <= BitsOf(Low(Scale(buffer, zeros), WordBits(wide)), bits + zeros)
    {
      hide BitsOf, Low, Scale;
      ScaleAdd(0, 1, zeros);
      BitsAppend(buffer, bits, 0, zeros);
      LowBits(Scale(buffer, zeros), WordBits(wide), bits + zeros);
    }

    // Load one byte, or meet the marker.
    method LoadNext()
      requires Valid() && unreadMarker == 0 && bitsLeft < MinGetBits()
      modifies this`getBuffer, this`bitsLeft, `rest, `unreadMarker, `k
      ensures Valid() && Ahead() == old(Ahead())
      ensures unreadMarker != 0 || |segment.data| - k < |segment.data| - old(k)
    {
      hide BitsOf, Low, Scale, DataBits, ReadSegment;
      var more, c := ReadData();
      if more {
        LoadedByte(getBuffer, bitsLeft, WordBits(wide), c, segment.data, old(k));
        getBuffer := Low(Scale(getBuffer, 8) + c, WordBits(wide));
        bitsLeft := bitsLeft + 8;
      }
    }

    // CHECK_BIT_BUFFER
    method CheckBitBuffer(nbits: nat)
      requires Valid() && nbits <= MinGetBits()
      modifies this`getBuffer, this`bitsLeft, `rest, `unreadMarker, `k, `insufficientData, `warnings
      ensures Valid() && nbits <= bitsLeft && old(Ahead()) <= Ahead()
      ensures nbits <= |old(Ahead())| ==> Ahead() == old(Ahead()) && unchanged(`insufficientData, `warnings)
    {
      if bitsLeft < nbits {
        FillBitBuffer(nbits);
      }
    }

    method Warn()
      requires Valid()
      modifies `warnings
      ensures Valid() && warnings == old(warnings) + 1 && Ahead() == old(Ahead())
    {
      warnings := warnings + 1;
    }

    // PEEK_BITS
    function PeekBits(nbits: nat): nat
      requires nbits <= bitsLeft
      reads `getBuffer, `bitsLeft
    {
      Low(Shr(getBuffer, bitsLeft - nbits), nbits)
    }

    lemma Peeked(nbits: nat)
      requires Valid() && nbits <= bitsLeft
      ensures |Ahead()| >= nbits && PeekBits(nbits) == Num(Ahead()[..nbits])
      ensures BitsOf(getBuffer, bitsLeft - nbits) + DataBits(segment.data[k..]) == Ahead()[nbits..]
    {
      hide Num, DataBits, ReadSegment, Shr;
      BitsPrefix(getBuffer, nbits, bitsLeft - nbits);
      var s := BitsOf(getBuffer, bitsLeft);
      assert Ahead()[..nbits] == s[..nbits];
      assert Ahead()[nbits..] == s[nbits..] + DataBits(segment.data[k..]);
    }

    // DROP_BITS
    method DropBits(nbits: nat)
      requires Valid() && nbits <= bitsLeft
      modifies `bitsLeft
      ensures Valid() && |old(Ahead())| >= nbits && Ahead() == old(Ahead())[nbits..] && bitsLeft == old(bitsLeft) - nbits
    {
      Peeked(nbits);
      bitsLeft := bitsLeft - nbits;
    }

    // GET_BITS
    method GetBits(nbits: nat) returns (v: nat)
      requires Valid() && nbits <= bitsLeft
      modifies `bitsLeft
      ensures Valid() && |old(Ahead())| >= nbits && v == Num(old(Ahead())[..nbits]) && Ahead() == old(Ahead())[nbits..]
      ensures bitsLeft == old(bitsLeft) - nbits
    {
      Peeked(nbits);
      v := PeekBits(nbits);
      DropBits(nbits);
    }
  }

  // process_restart: drop the bits that are left, advance past the restart marker, and start anew.
  method ProcessRestart(r: BitReader, nextRestartNum: nat) returns (r': BitReader, num: nat)
    requires r.Valid() && nextRestartNum < 8
    ensures fresh(r') && r'.Valid() && num == (nextRestartNum + 1) % 8 && r'.warnings >= r.warnings
    ensures r'.warnings == r.warnings <==>
              && r.k == |r.segment.data| && r.segment.marker == RST0 + nextRestartNum
              && (r.unreadMarker != 0 || r.discardedBytes + r.bitsLeft / 8 == 0)
    ensures r'.warnings == r.warnings ==>
              && r'.segment == ReadSegment(r.segment.after) && r'.Ahead() == DataBits(r'.segment.data) && !r'.insufficientData
              && r'.discardedBytes == r.discardedBytes + r.bitsLeft / 8
    ensures r'.warnings == r.warnings && r.segment.after == CleanRest(ReadSegment(r.segment.after), 0) ==> r'.clean
  {
    hide BitReader.Ahead, DataBits, ReadSegment, CleanRest;
    var unread, rest, discarded, more;
    unread, rest, num, discarded, more :=
      ReadRestartMarker(r.unreadMarker, r.rest, nextRestartNum, r.discardedBytes + r.bitsLeft / 8);
    ghost var clean := more == 0 && r.segment.after == CleanRest(ReadSegment(r.segment.after), 0);
    r' := new BitReader.Restart(r, unread, rest, discarded, more, clean);
  }

  // A reader that has less than a byte ahead has consumed its data.
  lemma DataConsumed(r: BitReader)
    requires r.Valid() && |r.Ahead()| <= 7
    ensures r.k == |r.segment.data| && r.bitsLeft / 8 == 0
  {
  }

  // Make sure of n bits and take them.
  method TakeBits(r: BitReader, n: nat) returns (v: nat, ghost bits: Bits)
    requires r.Valid() && n <= 16
    modifies r
    ensures r.Valid() && |bits| == n && v == Num(bits)
    ensures forall i :: 0 <= i < n && i < |old(r.Ahead())| ==> bits[i] == old(r.Ahead())[i]
    ensures n <= |old(r.Ahead())| ==>
              && bits == old(r.Ahead())[..n] && r.Ahead() == old(r.Ahead())[n..]
              && r.warnings == old(r.warnings) && r.insufficientData == old(r.insufficientData)
  {
    hide BitReader.Valid, BitReader.Ahead;
    r.CheckBitBuffer(n);
    bits := Taken(r, n);
    v := r.GetBits(n);
  }

  lemma Taken(r: BitReader, n: nat) returns (bits: Bits)
    requires r.Valid() && n <= r.bitsLeft
    ensures |r.Ahead()| >= n && bits == r.Ahead()[..n]
  {
    r.Peeked(n);
    bits := r.Ahead()[..n];
  }

  lemma EightBits(c: Byte)
    ensures c < Scale(1, 8)
  {
    ScaleValues(1);
  }
}
