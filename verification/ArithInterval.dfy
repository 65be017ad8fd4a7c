// The interval subdivision that arithmetic coding performs, on unbounded integers
// (sections D.1.1 to D.1.3 of ITU-T T.81).  Neither carries nor bytes appear here;
// the encoder's and the decoder's registers are proved against this model.
module ArithInterval {
  import opened Arithmetic
  import opened Aritab

  // Statistics bins: 16 areas of 64 for DC and 16 of 256 for AC coefficients, and the bin
  // with the fixed estimate.
  const DC_STAT_BINS := 64
  const AC_STAT_BINS := 256
  const NUM_ARITH_TBLS := 16
  const BINS := NUM_ARITH_TBLS * (DC_STAT_BINS + AC_STAT_BINS) + 1

  type Bin = b: nat | b < BINS
  type Bit = b: nat | b <= 1
  type Statistics = s: seq<Stat> | |s| == BINS witness seq(BINS, i => Stat(0, 0))

  // The interval [low, low + a) in units of 2^-(16 + n), with the adaptive statistics.
  datatype Coder = Coder(stats: Statistics, low: nat, a: nat, n: nat)

  // A list of binary decisions, each made with a statistics bin.
  datatype Decisions = Nil | Decide(st: Bin, bit: Bit, tail: Decisions)

  predicate Usable(e: Coder) {
    0 < e.a <= 0x1_0000
  }

  predicate Normal(e: Coder) {
    0x8000 <= e.a <= 0x1_0000
  }

  function Start(stats: Statistics): (e: Coder)
    ensures Normal(e)
  {
    Coder(stats, 0, 0x1_0000, 0)
  }

  // The more probable symbol is given the larger part of the interval, which is the
  // lower one unless Qe exceeds it.
  predicate InUpper(r: Row, sv: Stat, a: nat, bit: Bit)
    requires Sound(r) && 0x8000 <= a
  {
    (bit == sv.mps) == (a - r.qe < r.qe)
  }

  // One decision, before renormalisation, with the estimate r of bin st.  The estimate
  // adapts whenever renormalisation is due.
  function NarrowBy(r: Row, e: Coder, st: Bin, bit: Bit): (e': Coder)
    requires Sound(r) && Normal(e)
    ensures Usable(e') && e'.n == e.n
    ensures e.low <= e'.low && e'.low + e'.a <= e.low + e.a
  {
    var sv := e.stats[st];
    var (low, a) := if InUpper(r, sv, e.a, bit) then (e.low + e.a - r.qe, r.qe)
                    else (e.low, e.a - r.qe);
    var stats := if a >= 0x8000 then e.stats
                 else e.stats[st := if bit == sv.mps then AfterMps(sv, r) else AfterLps(sv, r)];
    Coder(stats, low, a, e.n)
  }

  function Narrow(e: Coder, st: Bin, bit: Bit): (e': Coder)
    requires Normal(e)
    ensures Usable(e') && e'.n == e.n
    ensures e.low <= e'.low && e'.low + e'.a <= e.low + e.a
  {
    NarrowBy(RowOf(e.stats[st]), e, st, bit)
  }

  // Sections D.1.1 to D.1.3: the lower part is left when Qe is taken from the top. The more probable symbol
  // has the part that is not smaller, the lower one if they are equal, and the other symbol has the rest.
  lemma Subdivides(e: Coder, st: Bin)
    requires Normal(e)
    ensures var sv := e.stats[st];
            var qe, more, less := RowOf(sv).qe, Narrow(e, st, sv.mps), Narrow(e, st, 1 - sv.mps);
            && more.a + less.a == e.a && more.a >= less.a && (more.a == qe || less.a == qe)
            && (if qe <= e.a - qe then more.low == e.low && less.low == e.low + more.a
                else less.low == e.low && more.low == e.low + less.a)
  {
  }

  // The estimate moves on just if the interval gets smaller than 0x8000: to the next state for the symbol
  // that came, where the sense is exchanged after a less probable one if the table says so.
  lemma Adapts(e: Coder, st: Bin, bit: Bit)
    requires Normal(e)
    ensures var sv, next := e.stats[st], Narrow(e, st, bit);
            var r := RowOf(sv);
            && (forall b :: 0 <= b < BINS && b != st ==> next.stats[b] == e.stats[b])
            && next.stats[st] == if next.a >= 0x8000 then sv
                                 else if bit == sv.mps then Stat(sv.mps, r.nextMps)
                                 else Stat(if r.switch == 1 then 1 - sv.mps else sv.mps, r.nextLps)
  {
  }

  function Shift(e: Coder): Coder {
    e.(low := 2 * e.low, a := 2 * e.a, n := e.n + 1)
  }

  function Renorm(e: Coder): (r: Coder)
    requires Usable(e)
    ensures Normal(r) && r.stats == e.stats && r.n >= e.n
    decreases 0x8000 - e.a
  {
    if e.a < 0x8000 then Renorm(Shift(e)) else e
  }

  function Code(e: Coder, st: Bin, bit: Bit): (r: Coder)
    requires Normal(e)
    ensures Normal(r)
  {
    Renorm(Narrow(e, st, bit))
  }

  function CodeAll(e: Coder, ds: Decisions): (r: Coder)
    requires Normal(e)
    ensures Normal(r)
    decreases ds
  {
    if ds.Nil? then e else CodeAll(Code(e, ds.st, ds.bit), ds.tail)
  }

  // ----- Code values: a byte string read as a binary fraction -----

  type Byte = b: nat | b < 0x100

  function ByteAt(data: seq<Byte>, i: nat): Byte {
    if i < |data| then data[i] else 0
  }

  // The value of the first j bytes of data followed by zeros
  function Value(data: seq<Byte>, j: nat): nat {
    if j == 0 then 0 else 0x100 * Value(data, j - 1) + ByteAt(data, j - 1)
  }

  // The first j bytes of data, extended by any further bytes, lie in the interval.
  predicate Within(data: seq<Byte>, j: nat, e: Coder) {
    && 16 + e.n <= 8 * j
    && Scale(e.low, 8 * j - 16 - e.n) <= Value(data, j) < Scale(e.low + e.a, 8 * j - 16 - e.n)
  }

  // Number of bytes that cover 16 + n bits
  function Cover(n: nat): (j: nat)
    ensures 16 + n <= 8 * j < 24 + n
  {
    (n + 23) / 8
  }

  predicate Contains(data: seq<Byte>, e: Coder) {
    Within(data, Cover(e.n), e)
  }

  lemma WithinNextByte(data: seq<Byte>, j: nat, e: Coder)
    requires 16 + e.n <= 8 * j
    ensures Within(data, j, e) <==> Within(data, j + 1, e)
  {
    ScaleByte(e.low, 8 * j - 16 - e.n);
    ScaleByte(e.low + e.a, 8 * j - 16 - e.n);
    assert Value(data, j + 1) == 0x100 * Value(data, j) + ByteAt(data, j);
  }

  lemma {:induction false} WithinCover(data: seq<Byte>, j: nat, e: Coder)
    requires 16 + e.n <= 8 * j
    ensures Within(data, j, e) <==> Contains(data, e)
    decreases j
  {
    if Cover(e.n) < j {
      WithinNextByte(data, j - 1, e);
      WithinCover(data, j - 1, e);
    }
  }

  lemma ShiftContains(data: seq<Byte>, e: Coder)
    ensures Contains(data, Shift(e)) <==> Contains(data, e)
  {
    var j := Cover(e.n + 1);
    WithinCover(data, j, e);
    ScaleDouble(e.low, 8 * j - 17 - e.n);
    ScaleDouble(e.low + e.a, 8 * j - 17 - e.n);
  }

  lemma {:induction false} RenormContains(data: seq<Byte>, e: Coder)
    requires Usable(e)
    ensures Contains(data, Renorm(e)) <==> Contains(data, e)
    decreases 0x8000 - e.a
  {
    if e.a < 0x8000 {
      RenormContains(data, Shift(e));
      ShiftContains(data, e);
    }
  }

  lemma NestedContains(data: seq<Byte>, e: Coder, e': Coder)
    requires e.low <= e'.low && e'.low + e'.a <= e.low + e.a && e'.n == e.n
    requires Contains(data, e')
    ensures Contains(data, e)
  {
    var s := 8 * Cover(e.n) - 16 - e.n;
    ScaleMonotonic(e.low, e'.low, s);
    ScaleMonotonic(e'.low + e'.a, e.low + e.a, s);
  }

  // A code value belongs to the interval of exactly one of the two outcomes: the one
  // that its position relative to the split point selects.
  lemma NarrowChoice(data: seq<Byte>, r: Row, e: Coder, st: Bin, bit: Bit)
    requires Sound(r) && Normal(e) && Contains(data, e)
    ensures Contains(data, NarrowBy(r, e, st, bit)) <==>
            (InUpper(r, e.stats[st], e.a, bit) <==>
             Scale(e.low + e.a - r.qe, 8 * Cover(e.n) - 16 - e.n) <= Value(data, Cover(e.n)))
  {
  }

  lemma OneOutcome(data: seq<Byte>, e: Coder, st: Bin)
    requires Normal(e) && Contains(data, e)
    ensures Contains(data, Narrow(e, st, 0)) <==> !Contains(data, Narrow(e, st, 1))
  {
    NarrowChoice(data, RowOf(e.stats[st]), e, st, 0);
    NarrowChoice(data, RowOf(e.stats[st]), e, st, 1);
  }

  // Intervals only shrink: a code value of the final interval lies in every earlier one.
  lemma {:induction false} CodeAllContains(data: seq<Byte>, e: Coder, ds: Decisions)
    requires Normal(e)
    requires Contains(data, CodeAll(e, ds))
    ensures Contains(data, e)
    decreases ds
  {
    if ds.Decide? {
      CodeAllContains(data, Code(e, ds.st, ds.bit), ds.tail);
      RenormContains(data, Narrow(e, ds.st, ds.bit));
      NestedContains(data, e, Narrow(e, ds.st, ds.bit));
    }
  }

  // ----- The decoder's view -----

  // e delivers ds and ends as final when the code value lies in final.
  predicate Leads(data: seq<Byte>, e: Coder, ds: Decisions, final: Coder)
    requires Usable(e)
  {
    CodeAll(Renorm(e), ds) == final && Contains(data, final)
  }

  // Whoever locates the code value among the two outcomes of the first decision finds the
  // encoded bit, and is then led through the remaining decisions.
  lemma LeadsStep(data: seq<Byte>, e: Coder, ds: Decisions, final: Coder, bit: Bit)
    requires Usable(e) && Leads(data, e, ds, final) && ds.Decide?
    requires Contains(data, Narrow(Renorm(e), ds.st, bit))
    ensures bit == ds.bit && Leads(data, Narrow(Renorm(e), ds.st, bit), ds.tail, final)
  {
    var next := Narrow(Renorm(e), ds.st, ds.bit);
    CodeAllContains(data, Renorm(next), ds.tail);
    RenormContains(data, next);
    SameOutcome(data, Renorm(e), ds.st, ds.bit, bit);
  }

  lemma SameOutcome(data: seq<Byte>, e: Coder, st: Bin, b: Bit, b': Bit)
    requires Normal(e)
    requires Contains(data, Narrow(e, st, b)) && Contains(data, Narrow(e, st, b'))
    ensures b == b'
  {
    hide Narrow, Within, Cover;
    NestedContains(data, e, Narrow(e, st, b));
    OneOutcome(data, e, st);
  }
}
