// The arithmetic decoder's registers (jdarith.c), with its byte source, refine the
// interval model.
module ArithDecoder {
  import opened Arithmetic
  import opened Aritab
  import opened ArithInterval
  import opened ArithBytes
  import opened ArithTermination
  import opened ByteSource

  // The segment being decoded and the coder with which its encoder ended
  datatype Goal = Goal(segment: Segment, final: Coder)

  // The code value v is below the split point of the interval or moves into the upper part.
  lemma SplitCode(v: nat, low: nat, c: nat, ct: nat, temp: nat, qe: nat)
    requires v == Scale(low, ct) + c && c < Scale(temp + qe, ct) && Scale(temp, ct) <= c
    ensures v == Scale(low + temp, ct) + (c - Scale(temp, ct)) && c - Scale(temp, ct) < Scale(qe, ct)
  {
    ScaleAdd(temp, qe, ct);
    ScaleAdd(low, temp, ct);
  }

  // No data at all lies in the interval before the first decision.
  lemma NothingAtStart(stats: Statistics)
    ensures Contains([], Start(stats))
  {
    ScaleValues(0x1_0000);
    assert Cover(0) == 2 && Value([], 2) == 0;
  }

  class Decoder {
    var c: nat             // code base and bit buffer; the cut between them is at bit ct
    var a: nat             // size of the coding interval
    var ct: int            // bits left in the bit buffer part of c; -16 at the start, -1 after an error
    var stats: Statistics
    var rest: seq<Byte>    // bytes not yet taken from the source
    var unreadMarker: Byte // marker met in the data, 0 if none

    ghost var segment: Segment
    ghost var k: nat       // data bytes consumed
    ghost var low: nat
    ghost var n: nat

    ghost function Ideal(): Coder
      reads `stats, `low, `a, `n, `ct
    {
      if ct == -16 then Start(stats) else Coder(stats, low, a, n)
    }

    // The source delivers the data of the segment, then zeros.
    ghost predicate SourceValid()
      reads `rest, `unreadMarker, `segment, `k
    {
      && segment.marker != 0 && segment.marker != 0xFF
      && if unreadMarker == 0 then k <= |segment.data| && ReadSegment(rest) == segment.(data := segment.data[k..])
         else |segment.data| <= k && unreadMarker == segment.marker && rest == segment.after
    }

    ghost predicate RegistersValid()
      reads `c, `a, `ct, `low, `n, `segment, `k
    {
      && 0 <= ct <= 7 && 0 < a <= 0x1_0000
      && 16 + n + ct == 8 * k
      && Value(segment.data, k) == Scale(low, ct) + c
      && c < Scale(a, ct)
    }

    // While the first two bytes are read the interval size stays zero.
    ghost predicate Starting()
      reads `c, `a, `ct, `segment, `k
    {
      && ((ct == -16 && k == 0) || (ct == -8 && k == 1))
      && a == 0 && c == Value(segment.data, k) && c <= 0xFF * k
    }

    ghost predicate Valid()
      reads this
    {
      SourceValid() && if ct == -16 then Starting() else ct == -1 || RegistersValid()
    }

    constructor (stats: Statistics, stream: seq<Byte>)
      ensures Valid() && Ideal() == Start(stats)
      ensures ct == -16 && segment == ReadSegment(stream)
    {
      c, a, ct := 0, 0, -16;
      this.stats, rest, unreadMarker := stats, stream, 0;
      segment, k, low, n := ReadSegment(stream), 0, 0, 0;
    }

    // The registers locate the code value in the interval.
    lemma CodeInInterval()
      requires RegistersValid()
      ensures Contains(segment.data, Coder(stats, low, a, n))
    {
      ScaleAdd(low, a, ct);
      assert k == Cover(n);
    }

    // Next data byte; the first marker met ends the data, and zeros follow it.
    method GetData() returns (data: Byte)
      requires SourceValid()
      modifies `rest, `unreadMarker, `k
      ensures SourceValid() && k == old(k) + 1 && data == ByteAt(segment.data, old(k))
    {
      if unreadMarker != 0 {
        data := 0;
      } else {
        data, rest := TakeByte(rest);
        if data == 0xFF {
          data, rest := SkipFill(rest);
          if data == 0 {
            data := 0xFF;
            FirstOf(segment.data, k, data, ReadSegment(rest).data);
          } else {
            unreadMarker := data;
            data := 0;
          }
        } else {
          FirstOf(segment.data, k, data, ReadSegment(rest).data);
        }
      }
      k := k + 1;
    }

    // Append a data byte to the bit buffer.
    method InsertByte()
      requires SourceValid() && 0 <= c
      modifies `c, `rest, `unreadMarker, `k
      ensures SourceValid() && k == old(k) + 1
      ensures c == 0x100 * old(c) + ByteAt(segment.data, old(k))
    {
      var data := GetData();
      c := c * 0x100 + data;
    }

    // One round of renormalisation with a nonzero interval
    lemma ShiftWithin()
      requires RegistersValid() && 0 < ct && a < 0x8000
      ensures Value(segment.data, k) == Scale(2 * low, ct - 1) + c && c < Scale(2 * a, ct - 1)
    {
      ScaleDouble(low, ct - 1);
      ScaleDouble(a, ct - 1);
    }

    lemma InsertWithin(d: Byte)
      requires RegistersValid() && ct == 0 && a < 0x8000 && d == ByteAt(segment.data, k)
      ensures Value(segment.data, k + 1) == Scale(2 * low, 7) + 0x100 * c + d
      ensures 0x100 * c + d < Scale(2 * a, 7)
    {
      ScaleDouble(low, 7);
      ScaleDouble(a, 7);
      ScaleByte(low, 0);
      ScaleByte(a, 0);
    }

    // The first two bytes fill the code register.
    lemma FirstBytes(c': nat)
      requires c' == Value(segment.data, 2) && c' < 0x1_0000
      ensures Value(segment.data, 2) == Scale(0, 0) + c' && c' < Scale(0x1_0000, 0)
    {
    }

    // --ct, a byte if none is left in the bit buffer, and the adjustments of ct and a
    method Refill()
      requires SourceValid() && (Starting() || (RegistersValid() && a < 0x8000))
      modifies `c, `a, `ct, `rest, `unreadMarker, `k
      ensures SourceValid()
      ensures old(ct) == -16 ==> ct == -8 && k == 1 && a == 0 && c == Value(segment.data, 1) && c <= 0xFF
      ensures old(ct) == -8 ==> ct == 0 && k == 2 && a == 0x8000 && c == Value(segment.data, 2) && c < 0x1_0000
      ensures 0 <= old(ct) ==> 0 <= ct <= 7 && a == old(a) && 17 + n + ct == 8 * k
      ensures 0 <= old(ct) ==> Value(segment.data, k) == Scale(2 * low, ct) + c && c < Scale(2 * a, ct)
    {
      if 0 < ct {
        ShiftWithin();
      } else if ct == 0 {
        InsertWithin(ByteAt(segment.data, k));
      }
      ct := ct - 1;
      if ct < 0 {
        InsertByte();
        ct := ct + 8;
        if ct < 0 {
          ct := ct + 1;
          if ct == 0 {
            a := 0x8000;
          }
        }
      }
    }

    method ShiftIn()
      requires SourceValid() && (Starting() || (RegistersValid() && a < 0x8000))
      modifies `c, `a, `ct, `rest, `unreadMarker, `k, `low, `n
      ensures SourceValid()
      ensures old(ct) == -16 ==> Starting() && ct == -8
      ensures old(ct) == -8 ==> RegistersValid() && a == 0x1_0000 && low == n == 0
      ensures 0 <= old(ct) ==> RegistersValid() && a == 2 * old(a) && low == 2 * old(low) && n == old(n) + 1
    {
      hide Scale, Value, ReadSegment, Decoder.SourceValid;
      Refill();
      if old(ct) < 0 {
        low, n := 0, 0;
        if old(ct) == -8 {
          FirstBytes(c);
        }
      } else {
        low, n := 2 * low, n + 1;
      }
      a := a * 2;
    }

    method Renormalise()
      requires Valid() && ct != -1
      modifies `c, `a, `ct, `rest, `unreadMarker, `k, `low, `n
      ensures SourceValid() && RegistersValid()
      ensures Ideal() == Renorm(old(Ideal()))
    {
      while a < 0x8000
        invariant SourceValid() && (Starting() || RegistersValid())
        invariant Starting() ==> old(ct) == -16
        invariant RegistersValid() ==> Renorm(Ideal()) == Renorm(old(Ideal()))
        decreases if ct == -16 then 0x1_0001 else if ct < 0 then 0x1_0000 else 0x8000 - a
      {
        ShiftIn();
      }
    }

    // Compare the code value with the split point of the interval.
    method Compare(qe: nat) returns (upper: bool)
      requires RegistersValid() && 0 < qe < a
      modifies `c, `a, `low
      ensures a == old(a) - qe && low == old(low) + if upper then a else 0
      ensures Value(segment.data, k) == Scale(low, ct) + c
      ensures c < Scale(if upper then qe else a, ct)
    {
      var temp := a - qe;
      a := temp;
      temp := Scale(temp, ct);
      upper := c >= temp;
      if upper {
        SplitCode(Value(segment.data, k), low, c, ct, a, qe);
        c, low := c - temp, low + a;
      }
    }

    // Choose the part of the interval that holds the code value and adapt the estimate.
    method Select(r: Row, st: Bin) returns (bit: Bit)
      requires RegistersValid() && Normal(Ideal()) && Sound(r)
      modifies `c, `a, `stats, `low
      ensures RegistersValid() && Ideal() == NarrowBy(r, old(Ideal()), st, bit)
    {
      hide Scale, Value, Lookup;
      var sv := stats[st];
      var upper := Compare(r.qe);
      bit := sv.mps;
      if upper {
        if a < r.qe {
          // Conditional exchange: this part belongs to the more probable symbol.
          stats := stats[st := AfterMps(sv, r)];
        } else {
          stats := stats[st := AfterLps(sv, r)];
          bit := 1 - sv.mps;
        }
        a := r.qe;
      } else if a < 0x8000 {
        if a < r.qe {
          stats := stats[st := AfterLps(sv, r)];
          bit := 1 - sv.mps;
        } else {
          stats := stats[st := AfterMps(sv, r)];
        }
      }
    }

    // The source holds the bytes of an encoder that went on to code ds.
    ghost predicate Delivers(ds: Decisions, goal: Goal)
      reads `stats, `low, `a, `n, `ct, `segment
    {
      segment == goal.segment && Usable(Ideal()) && Leads(segment.data, Ideal(), ds, goal.final)
    }

    // The bytes read so far already determine a value of the interval.
    lemma ReadSuffices()
      requires Valid() && ct != -1 && k <= |segment.data|
      ensures Contains(segment.data[..k], Ideal())
    {
      if ct == -16 {
        NothingAtStart(stats);
      } else {
        assert segment.data[..k] + segment.data[k..] == segment.data;
        ValuePrefix(segment.data[..k], segment.data[k..], k);
        CodeInInterval();
        assert k == Cover(n);
      }
    }

    // When all decisions have been made, the shortest data is used up: what the decoder has
    // not read cannot have been needed to tell them.
    lemma Exhausted(goal: Goal)
      requires Valid() && ct != -1 && Delivers(Nil, goal) && ShortestOf(segment.data, goal.final)
      ensures |segment.data| <= k && stats == goal.final.stats
    {
      hide Contains, RegistersValid, SourceValid;
      if k < |segment.data| {
        ReadSuffices();
        RenormContains(segment.data[..k], Ideal());
      }
    }

    // Decode one binary decision with the statistics bin st: the outcome whose interval
    // holds the code value, whatever the bytes are.
    method ArithDecode(st: Bin) returns (bit: Bit)
      requires Valid() && ct != -1
      modifies `c, `a, `ct, `rest, `unreadMarker, `k, `low, `n, `stats
      ensures Valid() && 0 <= ct
      ensures Ideal() == Narrow(Renorm(old(Ideal())), st, bit)
      ensures Contains(segment.data, Ideal())
      ensures forall ds, goal :: old(Delivers(ds, goal)) && ds.Decide? && ds.st == st
                ==> bit == ds.bit && Delivers(ds.tail, goal)
    {
      Renormalise();
      bit := Select(RowOf(stats[st]), st);
      CodeInInterval();
      forall ds, goal | old(Delivers(ds, goal)) && ds.Decide? && ds.st == st
        ensures bit == ds.bit && Delivers(ds.tail, goal)
      {
        LeadsStep(segment.data, old(Ideal()), ds, goal.final, bit);
      }
    }

    // Skip to the next marker; data bytes on the way are extraneous.
    method FindMarker() returns (extraneous: bool)
      requires SourceValid() && unreadMarker == 0
      modifies `rest, `unreadMarker, `k
      ensures SourceValid() && unreadMarker != 0
      ensures extraneous <==> old(k) < |segment.data|
    {
      unreadMarker, rest, extraneous := NextMarker(rest, 0);
      k := |segment.data|;
    }

    // The segment that the source offers from here on: none if a marker is already waiting
    ghost function Ahead(): Segment
      reads `rest, `unreadMarker
    {
      if unreadMarker == 0 then ReadSegment(rest) else Segment([], unreadMarker, rest)
    }

    // Reset the decoding variables for a new segment.
    method Reset(stats: Statistics)
      requires unreadMarker != 0xFF
      modifies this
      ensures Valid() && ct == -16 && Ideal() == Start(stats)
      ensures segment == Ahead() == old(Ahead()) && unreadMarker == old(unreadMarker)
    {
      c, a, ct := 0, 0, -16;
      this.stats := stats;
      segment, k, low, n := Ahead(), 0, 0, 0;
    }
  }
}
