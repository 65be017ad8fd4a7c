// The arithmetic encoder's registers (jcarith.c) refine the interval model.
module ArithEncoder {
  import opened Arithmetic
  import opened Aritab
  import opened ArithInterval
  import opened ArithBytes
  import opened ArithTermination

  // v, the number that k decided bytes spell, followed by the C register, is the low
  // end of the interval, which lies within the unit interval; ct shifts are left in
  // the byte, and the spacer bits limit a carry to one.
  predicate Layout(e: Coder, v: nat, k: nat, c: nat, ct: nat) {
    && ct <= 11
    && e.n + ct == 8 * k + 11
    && e.low == Scale(v, 27 - ct) + c
    && Scale(c + e.a, ct) <= 0x900_0000
    && e.low + e.a <= Scale(1, 16 + e.n)
  }

  lemma LayoutShift(e: Coder, v: nat, k: nat, c: nat, ct: nat)
    requires Layout(e, v, k, c, ct) && 0 < ct
    ensures Layout(Shift(e), v, k, 2 * c, ct - 1)
  {
    ScaleDouble(c + e.a, ct - 1);
  }

  // Moving to a part of the interval adds to C what it adds to the low end.
  lemma LayoutNarrow(e: Coder, r: Coder, v: nat, k: nat, c: nat, ct: nat)
    requires Layout(e, v, k, c, ct)
    requires e.low <= r.low && r.low + r.a <= e.low + e.a && r.n == e.n
    ensures Layout(r, v, k, c + r.low - e.low, ct)
  {
    ScaleMonotonic(c + r.low - e.low + r.a, c + e.a, ct);
  }

  // A byte leaves the C register.
  lemma LayoutByte(e: Coder, v: nat, k: nat, c: nat, v': nat)
    requires Layout(e, v, k, c, 0) && e.a <= 0x1_0000 && v' == 0x100 * v + c / 0x8_0000
    ensures Layout(e, v', k + 1, c % 0x8_0000, 8)
    ensures c / 0x8_0000 < 0x1FF
  {
    ScaleValues(v);
    ScaleValues(v');
    ScaleValues(c % 0x8_0000 + e.a);
  }

  lemma StartLayout(e: Coder, v: nat, k: nat, c: nat, ct: nat)
    requires v == k == e.low == e.n == c == 0 && e.a == 0x1_0000 && ct == 11
    ensures Layout(e, v, k, c, ct)
  {
    ScaleValues(c + e.a);
    ScaleValues(1);
  }

  // With nothing but 0xFF bytes decided, a carry would leave the unit interval.
  lemma NoCarryFromOnes(e: Coder, k: nat, c: nat)
    requires Layout(e, Number(Fill(0xFF, k)), k, c, 0) && 0 < e.a
    ensures c < 0x800_0000
  {
    var v := Number(Fill(0xFF, k));
    NumberOnes(k);
    ScaleTwice(1, 8 * k, 27);
    ScaleAdd(v, 1, 27);
    ScaleValues(1);
  }

  // A final carry, too, needs a byte that is not 0xFF.
  lemma NoFinalCarryFromOnes(e: Coder, k: nat, c: nat, ct: nat, x: nat)
    requires Layout(e, Number(Fill(0xFF, k)), k, c, ct) && x < c + e.a
    ensures Scale(x, ct) < 0x800_0000
  {
    var v := Number(Fill(0xFF, k));
    NumberOnes(k);
    LastInUnit(e, v, k, c, ct, x);
    ScaleSum(1, 8 * k, 27, 8 * k + 27);
    ScaleAdd(v, 1, 27);
    ScaleValues(1);
  }

  lemma LastInUnit(e: Coder, v: nat, k: nat, c: nat, ct: nat, x: nat)
    requires Layout(e, v, k, c, ct) && x < c + e.a
    ensures Scale(v, 27) + Scale(x, ct) < Scale(1, 8 * k + 27)
  {
    var w := Scale(v, 27 - ct);
    ScaleSum(1, 16 + e.n, ct, 8 * k + 27);
    ScaleSum(v, 27 - ct, ct, 27);
    ScaleAdd(w, x, ct);
    ScaleStrict(w + x, Scale(1, 16 + e.n), ct);
  }

  // q * 2^t is the roundest value of the interval; w is that value in whole bytes.
  predicate Rounded(e: Coder, v: nat, k: nat, c: nat, ct: nat, q: nat, t: nat, w: nat) {
    && Layout(e, v, k, c, ct) && 0 < ct
    && 15 <= t <= 16 && OnlyMultiple(c, e.a, t, q)
    && w == 0x1_0000 * v + Scale(q, t + ct - 11)
  }

  // What FinishPass writes denotes the chosen value, and nothing shorter would do.
  lemma Terminated(e: Coder, v: nat, k: nat, c: nat, ct: nat, q: nat, t: nat, w: nat, data: seq<Byte>)
    requires Rounded(e, v, k, c, ct, q, t, w)
    requires |data| <= k + 2 && Value(data, k + 2) == w
    requires data != [] ==> data[|data| - 1] != 0
    ensures ShortestOf(data, e)
  {
    InLayout(e, v, k, c, ct, q, t, w);
    OptimalBytes(e, data, k, ct, t, Scale(v, 27 - ct - t) + q, w);
  }

  lemma OptimalBytes(e: Coder, data: seq<Byte>, k: nat, ct: nat, t: nat, q: nat, w: nat)
    requires e.n + ct == 8 * k + 11
    requires OnlyMultiple(e.low, e.a, t, q) && Scale(w, 16) == Scale(q, t + (ct + 5))
    requires |data| <= k + 2 && Value(data, k + 2) == w
    requires data != [] ==> data[|data| - 1] != 0
    ensures ShortestOf(data, e)
  {
    TwoZeroBytes(data, k + 2, w);
    Optimal(e, data, k + 4, t, ct + 5, q);
  }

  lemma InLayout(e: Coder, v: nat, k: nat, c: nat, ct: nat, q: nat, t: nat, w: nat)
    requires Rounded(e, v, k, c, ct, q, t, w)
    ensures OnlyMultiple(e.low, e.a, t, Scale(v, 27 - ct - t) + q)
    ensures Scale(w, 16) == Scale(Scale(v, 27 - ct - t) + q, t + (ct + 5))
  {
    var b := Scale(v, 27 - ct - t);
    ScaleSum(v, 27 - ct - t, t, 27 - ct);
    OnlyMultipleOffset(c, e.a, t, q, b);
    FinalValue(v, q, t, ct, b, Scale(q, t + ct - 11));
  }

  lemma NothingWritten()
    ensures Stuff([]) == [] && Number([]) == 0
  {
  }

  class Encoder {
    var c: nat         // base of the coding interval, with 3 spacer bits below the output byte
    var a: nat         // size of the coding interval
    var sc: nat        // stacked 0xFF bytes, which a carry would turn into zeros
    var zc: nat        // pending zero bytes, discarded if nothing follows them
    var ct: nat        // shifts left before the next byte is complete
    var buffer: int    // most recent byte other than 0xFF, or -1
    var stats: Statistics
    var out: seq<Byte> // bytes handed to the destination

    ghost var before: seq<Byte> // output that precedes the current segment
    ghost var sent: seq<Byte>   // data bytes of the current segment, without stuffing
    ghost var low: nat
    ghost var n: nat
    ghost var v: nat            // the number that the k pending bytes spell
    ghost var k: nat

    ghost function Ideal(): Coder
      reads `stats, `low, `a, `n
    {
      Coder(stats, low, a, n)
    }

    // The bytes decided so far, of which a carry may still change the tail.
    ghost function Pending(): seq<Byte>
      requires -1 <= buffer < 0xFF
      reads `sent, `zc, `buffer, `sc
    {
      sent + Fill(0, zc) + (if buffer < 0 then [] else [buffer]) + Fill(0xFF, sc)
    }

    ghost predicate Flushed()
      reads `out, `before, `sent
    {
      out == before + Stuff(sent)
    }

    ghost predicate BytesValid()
      reads `out, `before, `sent, `zc, `buffer, `sc, `v, `k
    {
      && -1 <= buffer < 0xFF
      && (buffer < 0 ==> sent == [] && zc == 0)
      && Flushed()
      && (sent != [] ==> sent[|sent| - 1] != 0)
      && v == Number(Pending()) && k == |Pending()|
    }

    // The pending bytes followed by c spell the low end of the interval.
    ghost predicate RegistersValid()
      reads this
    {
      && BytesValid()
      && Usable(Ideal())
      && 0 < ct && Layout(Ideal(), v, k, c, ct)
    }

    ghost predicate Valid()
      reads this
    {
      RegistersValid() && Normal(Ideal())
    }

    lemma IsNormal()
      requires Valid()
      ensures Normal(Ideal())
    {
    }

    // start_pass for a destination that already holds some bytes
    constructor (stats: Statistics, written: seq<Byte>)
      ensures Valid() && Ideal() == Start(stats)
      ensures before == out == written
    {
      c, a, sc, zc, ct, buffer := 0, 0x1_0000, 0, 0, 11, -1;
      this.stats, out := stats, written;
      before, sent, low, n, v, k := written, [], 0, 0, 0, 0;
      new;
      assert Pending() == [];
      StartLayout(Ideal(), v, k, c, ct);
    }

    method EmitByte(val: Byte)
      modifies `out
      ensures out == old(out) + [val]
    {
      out := out + [val];
    }

    // Emit the pending zero bytes.
    method EmitZeros()
      requires Flushed()
      modifies `out, `zc, `sent
      ensures Flushed() && zc == 0 && sent == old(sent) + Fill(0, old(zc))
    {
      while zc > 0
        invariant Flushed() && zc <= old(zc) && sent == old(sent) + Fill(0, old(zc) - zc)
      {
        EmitStuffed(0x00);
        zc := zc - 1;
      }
    }

    // Emit a data byte, stuffing a zero after 0xFF.
    method EmitStuffed(val: Byte)
      requires Flushed()
      modifies `out, `sent
      ensures Flushed() && sent == old(sent) + [val]
    {
      EmitByte(val);
      if val == 0xFF {
        EmitByte(0x00);
      }
      StuffSnoc(sent, val);
      sent := sent + [val];
    }

    // Emit the stacked 0xFF bytes.
    method EmitOnes()
      requires Flushed() && zc == 0
      modifies `out, `sc, `sent
      ensures Flushed() && sc == 0 && sent == old(sent) + Fill(0xFF, old(sc))
    {
      while sc > 0
        invariant Flushed() && sc <= old(sc) && sent == old(sent) + Fill(0xFF, old(sc) - sc)
      {
        EmitStuffed(0xFF);
        sc := sc - 1;
      }
    }

    // A carry out of the C register runs into the pending bytes.
    method PropagateCarry()
      requires BytesValid() && 0 <= buffer
      modifies `out, `zc, `sc, `sent
      ensures Flushed() && sc == 0 && sent != [] && sent[|sent| - 1] != 0
      ensures |sent + Fill(0, zc)| == |old(Pending())|
      ensures Number(sent + Fill(0, zc)) == Number(old(Pending())) + 1
    {
      Carry(sent + Fill(0, zc), buffer, sc);
      if zc > 0 {
        EmitZeros();
      }
      assert sent == old(sent + Fill(0, zc));
      EmitStuffed(buffer + 1);
      zc := zc + sc;
      sc := 0;
    }

    // The buffered byte is final: count it as a pending zero or emit it.
    method ReleaseBuffer()
      requires BytesValid()
      modifies `out, `zc, `sent
      ensures Flushed() && (sent != [] ==> sent[|sent| - 1] != 0)
      ensures sent + Fill(0, zc) == old(sent + Fill(0, zc)) + (if buffer < 0 then [] else [buffer])
    {
      if buffer == 0 {
        assert Fill(0, zc + 1) == Fill(0, zc) + [0];
        zc := zc + 1;
      } else if buffer >= 0 {
        if zc > 0 {
          EmitZeros();
        }
        assert sent == old(sent + Fill(0, zc));
        EmitStuffed(buffer);
      }
    }

    // No carry can reach the pending bytes any more.
    method ReleaseStacked()
      requires BytesValid()
      modifies `out, `zc, `sc, `sent
      ensures Flushed() && sc == 0 && sent + Fill(0, zc) == old(Pending())
      ensures sent != [] ==> sent[|sent| - 1] != 0
    {
      ReleaseBuffer();
      if sc > 0 {
        ghost var settled := sent + Fill(0, zc);
        if zc > 0 {
          EmitZeros();
        }
        assert sent == settled;
        EmitOnes();
      }
    }

    // A byte has left the top of the C register.
    method OutputByte(temp: nat)
      requires BytesValid() && temp < 0x1FF && (temp > 0xFF ==> buffer >= 0)
      modifies `out, `zc, `sc, `sent, `buffer, `v, `k
      ensures BytesValid() && v == 0x100 * old(v) + temp && k == old(k) + 1
    {
      hide Stuff, Encoder.Flushed, Value, Scale, Number;
      if temp > 0xFF {
        PropagateCarry();
        NumberSnoc(sent + Fill(0, zc), temp - 0x100);
        buffer := temp - 0x100;
        assert Pending() == sent + Fill(0, zc) + [temp - 0x100];
      } else if temp == 0xFF {
        assert Fill(0xFF, sc + 1) == Fill(0xFF, sc) + [0xFF];
        NumberSnoc(Pending(), 0xFF);
        sc := sc + 1;
        assert Pending() == old(Pending()) + [0xFF];
      } else {
        ReleaseStacked();
        NumberSnoc(old(Pending()), temp);
        buffer := temp;
        assert Pending() == old(Pending()) + [temp];
      }
      v, k := 0x100 * v + temp, k + 1;
    }

    // One round of renormalisation.
    method ShiftOut()
      requires RegistersValid() && a < 0x8000
      modifies `c, `a, `ct, `sc, `zc, `buffer, `out, `sent, `low, `n, `v, `k
      ensures RegistersValid() && Ideal() == Shift(old(Ideal()))
    {
      hide Layout, Stuff, Scale, Number, Encoder.Pending, Encoder.BytesValid;
      LayoutShift(Ideal(), v, k, c, ct);
      a := a * 2;
      c := c * 2;
      low, n := 2 * low, n + 1;
      ct := ct - 1;
      if ct == 0 {
        ByteReady();
      }
    }

    lemma CarryHasBuffer()
      requires BytesValid() && Layout(Ideal(), v, k, c, 0) && 0 < a && 0x800_0000 <= c
      ensures 0 <= buffer
    {
      if buffer < 0 {
        assert Pending() == Fill(0xFF, sc);
        NoCarryFromOnes(Ideal(), sc, c);
      }
    }

    method ByteReady()
      requires BytesValid() && Usable(Ideal())
      requires ct == 0 && Layout(Ideal(), v, k, c, ct)
      modifies `c, `ct, `sc, `zc, `buffer, `out, `sent, `v, `k
      ensures RegistersValid()
    {
      hide Stuff, Number, Encoder.Pending, Encoder.Flushed, Scale;
      var temp := c / 0x8_0000;
      LayoutByte(Ideal(), v, k, c, 0x100 * v + temp);
      if temp > 0xFF {
        CarryHasBuffer();
      }
      OutputByte(temp);
      c := c % 0x8_0000;
      ct := ct + 8;
    }

    method Renormalise()
      requires RegistersValid() && a < 0x8000
      modifies `c, `a, `ct, `sc, `zc, `buffer, `out, `sent, `low, `n, `v, `k
      ensures Valid() && Ideal() == Renorm(old(Ideal()))
    {
      ShiftOut();
      while a < 0x8000
        invariant RegistersValid() && Renorm(Ideal()) == Renorm(old(Ideal()))
        decreases 0x8000 - a
      {
        ShiftOut();
      }
    }

    // Take the part of the interval that belongs to val and adapt the estimate.
    method Subdivide(r: Row, st: Bin, val: Bit) returns (done: bool)
      requires Normal(Ideal()) && Sound(r)
      modifies `c, `a, `low, `stats
      ensures Ideal() == NarrowBy(r, old(Ideal()), st, val)
      ensures c == old(c) + low - old(low)
      ensures done <==> 0x8000 <= a
    {
      var sv := stats[st];
      a := a - r.qe;
      if val != sv.mps {
        // The less probable symbol; it gets the smaller of the two parts.
        if a >= r.qe {
          c, low := c + a, low + a;
          a := r.qe;
        }
        stats := stats[st := AfterLps(sv, r)];
      } else {
        // The more probable symbol: often no renormalisation is needed.
        if a >= 0x8000 {
          return true;
        }
        if a < r.qe {
          c, low := c + a, low + a;
          a := r.qe;
        }
        stats := stats[st := AfterMps(sv, r)];
      }
      done := false;
    }

    // Encode one binary decision with the statistics bin st.
    method ArithEncode(st: Bin, val: Bit)
      requires Valid()
      modifies this
      ensures Valid() && Ideal() == Code(old(Ideal()), st, val)
      ensures before == old(before)
      ensures forall tail :: CodeAll(Ideal(), tail) == CodeAll(old(Ideal()), Decide(st, val, tail))
    {
      hide Stuff, Number, Encoder.Pending, Encoder.BytesValid, Scale, RowOf;
      var r := RowOf(stats[st]);
      LayoutNarrow(Ideal(), Narrow(Ideal(), st, val), v, k, c, ct);
      var done := Subdivide(r, st, val);
      if !done {
        Renormalise();
      }
    }

    // The value of the coding interval with the largest number of trailing zero bits
    method BestValue() returns (x: nat, ghost q: nat, ghost t: nat)
      requires Normal(Ideal())
      ensures 15 <= t <= 16 && x == Scale(q, t) && OnlyMultiple(c, a, t, q)
    {
      var top := a - 1 + c;
      var temp := top - top % 0x1_0000;
      q, t := top / 0x1_0000, 16;
      ScaleValues(q);
      ScaleValues(q + 1);
      ScaleValues(1);
      if temp < c {
        x := temp + 0x8000;
        assert Scale(1, 16) == 2 * Scale(1, 15);
        assert Scale(q, 16) == 2 * Scale(q, 15);
        ScaleDouble(q, 15);
        ScaleAdd(2 * q, 1, 15);
        ScaleAdd(2 * q + 1, 1, 15);
        q, t := 2 * q + 1, 15;
      } else {
        x := temp;
      }
    }

    // All pending bytes are settled but for zeros; only a carry may still be due.
    method Settle(carry: bool)
      requires BytesValid() && (carry ==> 0 <= buffer)
      modifies `out, `zc, `sc, `sent
      ensures Flushed() && (sent != [] ==> sent[|sent| - 1] != 0)
      ensures |sent + Fill(0, zc)| == k
      ensures Number(sent + Fill(0, zc)) == v + if carry then 1 else 0
    {
      if carry {
        PropagateCarry();
      } else {
        ReleaseStacked();
      }
    }

    // Output the last two bytes, leaving out trailing zeros.
    method EmitFinal(high: Byte, low8: Byte, ghost w: nat)
      requires Flushed() && (sent != [] ==> sent[|sent| - 1] != 0)
      requires |sent + Fill(0, zc)| == k
      requires w == 0x1_0000 * Number(sent + Fill(0, zc)) + 0x100 * high + low8
      modifies `zc, `out, `sent
      ensures Flushed() && (sent != [] ==> sent[|sent| - 1] != 0)
      ensures |sent| <= k + 2 && Value(sent, k + 2) == w
    {
      hide Stuff;
      ghost var settled := sent + Fill(0, zc);
      if high != 0 || low8 != 0 {
        if zc > 0 {
          EmitZeros();
        }
        assert sent == settled;
        EmitStuffed(high);
        if low8 != 0 {
          EmitStuffed(low8);
          TwoBytes(settled, high, low8);
        } else {
          OneByte(settled, high);
        }
      } else {
        NoBytes(sent, zc);
      }
    }

    // Replace C by that value, moved up so that its next byte is complete.
    method RoundOff() returns (ghost q: nat, ghost t: nat, ghost w: nat)
      requires Valid()
      modifies `c
      ensures Rounded(Ideal(), v, k, old(c), ct, q, t, w)
      ensures w == 0x1_0000 * (v + if 0x800_0000 <= c then 1 else 0)
                   + 0x100 * (c / 0x8_0000 % 0x100) + c / 0x800 % 0x100
      ensures 0x800_0000 <= c ==> 0 <= buffer
    {
      var x;
      x, q, t := BestValue();
      w := 0x1_0000 * v + Scale(q, t + ct - 11);
      FinalRegister(q, t, ct);
      FinalBound(c, a, ct, x);
      FinalBytes(Scale(x, ct), Scale(q, t + ct - 11));
      if Scale(x, ct) >= 0x800_0000 {
        FinalCarryHasBuffer(c, x);
      }
      c := Scale(x, ct);
    }

    // Terminate the segment with the fewest bytes that denote a value of the interval.
    method FinishPass()
      requires Valid()
      modifies `c, `sc, `zc, `out, `sent
      ensures Flushed() && ShortestOf(sent, Ideal())
      ensures sent != [] ==> sent[|sent| - 1] != 0
    {
      hide Layout, Rounded, ShortestOf, Stuff, Value, Number, Encoder.Pending, Scale, OnlyMultiple;
      ghost var q, t, w := RoundOff();
      EmitSettled(w);
      Terminated(Ideal(), v, k, old(c), ct, q, t, w, sent);
    }

    method EmitSettled(ghost w: nat)
      requires BytesValid() && (0x800_0000 <= c ==> 0 <= buffer)
      requires w == 0x1_0000 * (v + if 0x800_0000 <= c then 1 else 0)
                    + 0x100 * (c / 0x8_0000 % 0x100) + c / 0x800 % 0x100
      modifies `zc, `sc, `out, `sent
      ensures Flushed() && (sent != [] ==> sent[|sent| - 1] != 0)
      ensures |sent| <= k + 2 && Value(sent, k + 2) == w
    {
      Settle(c >= 0x800_0000);
      EmitFinal(c / 0x8_0000 % 0x100, c / 0x800 % 0x100, w);
    }

    lemma FinalCarryHasBuffer(base: nat, x: nat)
      requires BytesValid() && Layout(Ideal(), v, k, base, ct)
      requires x < base + a && 0x800_0000 <= Scale(x, ct)
      ensures 0 <= buffer
    {
      if buffer < 0 {
        assert Pending() == Fill(0xFF, sc);
        NoFinalCarryFromOnes(Ideal(), sc, base, ct, x);
      }
    }

    // Reset the coding variables for a new segment; what has been output stays.
    method Reset(stats: Statistics)
      modifies this
      ensures Valid() && Ideal() == Start(stats)
      ensures before == out == old(out)
    {
      hide BytesValid, Scale;
      ResetBytes();
      c, a, ct := 0, 0x1_0000, 11;
      this.stats, low, n := stats, 0, 0;
      StartLayout(Ideal(), v, k, c, ct);
    }

    method ResetBytes()
      modifies `sc, `zc, `buffer, `before, `sent, `v, `k
      ensures BytesValid() && before == out && v == k == 0
    {
      hide Number, Stuff;
      sc, zc, buffer := 0, 0, -1;
      before, sent, v, k := out, [], 0, 0;
      NothingPending();
    }

    lemma NothingPending()
      requires sc == zc == v == k == 0 && buffer == -1 && sent == [] && before == out
      ensures BytesValid()
    {
      NothingWritten();
      assert Pending() == [];
    }
  }
}
