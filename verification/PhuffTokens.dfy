// Progressive Huffman coding of AC scans (jcphuff.c): what the end-of-band runs make of the
// code of the single blocks.
module PhuffTokens {
  import opened Arithmetic
  import opened BitStrings
  import opened ArithScan
  import opened HuffmanLimit
  import opened HuffmanTables
  import opened HuffmanBlock

  const MAX_CORR_BITS := 1000
  const MAX_EOBRUN := 0x7FFF

  // A Huffman symbol, or a bit that is not part of a code word
  datatype Token = Sym(s: UInt8) | Raw(b: bool)

  function RawTokens(bits: Bits): (tokens: seq<Token>)
    ensures |tokens| == |bits|
  {
    seq(|bits|, i requires 0 <= i < |bits| => Raw(bits[i]))
  }

  // The bits that stand for the tokens, with code words from the table, before a tail
  function TokenBits(t: EncoderTable, tokens: seq<Token>, tail: Bits): Bits
    requires EncoderShape(t)
  {
    if tokens == [] then tail
    else
      match tokens[0]
      case Sym(s) => Symbol(t, s, TokenBits(t, tokens[1..], tail))
      case Raw(b) => [b] + TokenBits(t, tokens[1..], tail)
  }

  lemma {:induction false} TokenBitsConcat(t: EncoderTable, a: seq<Token>, b: seq<Token>, tail: Bits)
    requires EncoderShape(t)
    ensures TokenBits(t, a + b, tail) == TokenBits(t, a, TokenBits(t, b, tail))
  {
    hide Symbol;
    if a == [] {
      assert a + b == b;
    } else {
      TokenBitsConcat(t, a[1..], b, tail);
      assert (a + b)[1..] == a[1..] + b;
    }
  }

  lemma {:induction false} TokenTail(t: EncoderTable, tokens: seq<Token>, tail: Bits)
    requires EncoderShape(t)
    ensures TokenBits(t, tokens, tail) == TokenBits(t, tokens, []) + tail
  {
    hide BitsOf;
    if tokens == [] {
      assert [] + tail == tail;
    } else {
      TokenTail(t, tokens[1..], tail);
    }
  }

  lemma {:induction false} RawBits(t: EncoderTable, bits: Bits, tail: Bits)
    requires EncoderShape(t)
    ensures TokenBits(t, RawTokens(bits), tail) == bits + tail
  {
    if bits == [] {
      assert bits + tail == tail;
    } else {
      RawBits(t, bits[1..], tail);
      assert RawTokens(bits)[1..] == RawTokens(bits[1..]);
      assert bits == [bits[0]] + bits[1..];
    }
  }

  lemma RawConcat(a: Bits, b: Bits)
    ensures RawTokens(a + b) == RawTokens(a) + RawTokens(b)
  {
  }

  // ----- Blocks and runs -----

  // The tokens up to the last coefficient that a block codes by itself; whether anything is left
  // for an end-of-band run; and the correction bits of what is left
  datatype BlockCode = BlockCode(head: seq<Token>, hasTail: bool, tail: Bits)

  predicate CodeOk(c: BlockCode) {
    (c.head == [] ==> c.hasTail) && (!c.hasTail ==> c.tail == []) && |c.tail| <= DCTSIZE2 - 1
  }

  predicate CodesOk(codes: seq<BlockCode>) {
    forall i :: 0 <= i < |codes| ==> CodeOk(codes[i])
  }

  // A run of n blocks with their correction bits: its length, given by the symbol and some bits
  function Run(n: nat, bits: Bits): seq<Token>
    requires n <= MAX_EOBRUN
  {
    if n == 0 then []
    else
      RunBits(n);
      [Sym(16 * (NBits(n) - 1))] + RawTokens(BitsOf(n, NBits(n) - 1)) + RawTokens(bits)
  }

  lemma RunBits(n: nat)
    requires 0 < n <= MAX_EOBRUN
    ensures 1 <= NBits(n) <= 15
  {
    hide NBits;
    ScaleValues(1);
    assert Scale(1, 15) == 16 * Scale(1, 11);
    NBitsBound(n, 15);
  }

  // A run is forced out when its length or the buffer for correction bits could overflow.
  predicate RunFull(n: nat, bits: Bits) {
    n == MAX_EOBRUN || |bits| > MAX_CORR_BITS - DCTSIZE2 + 1
  }

  // A run that may be pending between blocks
  predicate Pending(n: nat, bits: Bits) {
    n < MAX_EOBRUN && |bits| <= MAX_CORR_BITS - DCTSIZE2 + 1 && (n == 0 ==> bits == [])
  }

  // What a block emits, and the run that is pending afterwards
  datatype Stepped = Stepped(emitted: seq<Token>, n: nat, bits: Bits)

  function Step(c: BlockCode, n: nat, bits: Bits): (r: Stepped)
    requires Pending(n, bits)
    ensures Pending(r.n, r.bits)
  {
    var pre := if c.head == [] then [] else Run(n, bits) + c.head;
    var n0 := if c.head == [] then n else 0;
    var bits0 := if c.head == [] then bits else [];
    if !c.hasTail then Stepped(pre, n0, bits0)
    else if RunFull(n0 + 1, bits0 + c.tail) then Stepped(pre + Run(n0 + 1, bits0 + c.tail), 0, [])
    else Stepped(pre, n0 + 1, bits0 + c.tail)
  }

  // The tokens of the blocks from i on, while a run is pending
  function Tokens(codes: seq<BlockCode>, i: nat, n: nat, bits: Bits): seq<Token>
    requires i <= |codes| && Pending(n, bits)
    decreases |codes| - i
  {
    if i == |codes| then Run(n, bits)
    else
      var r := Step(codes[i], n, bits);
      r.emitted + Tokens(codes, i + 1, r.n, r.bits)
  }

  // How many more blocks join a pending run
  function Joining(codes: seq<BlockCode>, i: nat, n: nat, bits: Bits): (m: nat)
    requires i <= |codes| && 0 < n && Pending(n, bits)
    ensures i + m <= |codes| && n + m <= MAX_EOBRUN
    decreases |codes| - i
  {
    if i == |codes| || codes[i].head != [] || !codes[i].hasTail then 0
    else if RunFull(n + 1, bits + codes[i].tail) then 1
    else 1 + Joining(codes, i + 1, n + 1, bits + codes[i].tail)
  }

  // The correction bits of blocks i to j
  function Tails(codes: seq<BlockCode>, i: nat, j: nat): Bits
    requires i <= j <= |codes|
    decreases j - i
  {
    if i == j then [] else codes[i].tail + Tails(codes, i + 1, j)
  }

  // A pending run comes out as one, of all the blocks that join it, with their correction bits
  // in order; and coding goes on behind these blocks.
  lemma {:induction false} RunOut(codes: seq<BlockCode>, i: nat, n: nat, bits: Bits)
    requires i <= |codes| && 0 < n && Pending(n, bits) && CodesOk(codes)
    ensures var m := Joining(codes, i, n, bits);
            Tokens(codes, i, n, bits) == Run(n + m, bits + Tails(codes, i, i + m)) + Tokens(codes, i + m, 0, [])
    decreases |codes| - i
  {
    hide Run, Step, RunFull, Tails;
    var m := Joining(codes, i, n, bits);
    if i == |codes| || codes[i].head != [] {
      NotJoining(codes, i, n, bits);
      NoTails(codes, i, bits);
    } else {
      var more := bits + codes[i].tail;
      JoiningStep(codes[i], n, bits);
      if RunFull(n + 1, more) {
        assert Tokens(codes, i, n, bits) == Run(n + 1, more) + Tokens(codes, i + 1, 0, []);
        NoTails(codes, i + 1, more);
        MoreTails(codes, i, i + 1, bits);
      } else {
        assert Tokens(codes, i, n, bits) == [] + Tokens(codes, i + 1, n + 1, more) == Tokens(codes, i + 1, n + 1, more);
        RunOut(codes, i + 1, n + 1, more);
        MoreTails(codes, i, i + m, bits);
      }
    }
  }

  lemma NoTails(codes: seq<BlockCode>, i: nat, bits: Bits)
    requires i <= |codes|
    ensures bits + Tails(codes, i, i) == bits
  {
  }

  lemma MoreTails(codes: seq<BlockCode>, i: nat, j: nat, bits: Bits)
    requires i < j <= |codes|
    ensures bits + Tails(codes, i, j) == bits + codes[i].tail + Tails(codes, i + 1, j)
  {
  }

  // The blocks that join have nothing but correction bits.
  lemma {:induction false} JoiningHeads(codes: seq<BlockCode>, i: nat, n: nat, bits: Bits)
    requires i <= |codes| && 0 < n && Pending(n, bits)
    ensures forall x :: i <= x < i + Joining(codes, i, n, bits) ==> codes[x].head == [] && codes[x].hasTail
    decreases |codes| - i
  {
    if i < |codes| && codes[i].head == [] && codes[i].hasTail && !RunFull(n + 1, bits + codes[i].tail) {
      JoiningHeads(codes, i + 1, n + 1, bits + codes[i].tail);
    }
  }

  // A block with a head, or the end, ends the run.
  lemma NotJoining(codes: seq<BlockCode>, i: nat, n: nat, bits: Bits)
    requires i <= |codes| && Pending(n, bits) && (i == |codes| || codes[i].head != [])
    ensures Tokens(codes, i, n, bits) == Run(n, bits) + Tokens(codes, i, 0, [])
  {
    hide Run;
    NoRun();
    if i < |codes| {
      assert Run(0, []) + codes[i].head == codes[i].head;
    }
  }

  lemma JoiningStep(c: BlockCode, n: nat, bits: Bits)
    requires Pending(n, bits) && c.head == [] && c.hasTail
    ensures Step(c, n, bits) == if RunFull(n + 1, bits + c.tail) then Stepped(Run(n + 1, bits + c.tail), 0, [])
                                else Stepped([], n + 1, bits + c.tail)
  {
    hide Run;
    if RunFull(n + 1, bits + c.tail) {
      assert [] + Run(n + 1, bits + c.tail) == Run(n + 1, bits + c.tail);
    }
  }

  lemma NoRun()
    ensures Run(0, []) == []
  {
  }

  // With no run pending, a block's head comes next, and then the run that it starts, if any.
  lemma FromBlock(codes: seq<BlockCode>, i: nat)
    requires i < |codes| && CodesOk(codes)
    ensures !codes[i].hasTail ==> Tokens(codes, i, 0, []) == codes[i].head + Tokens(codes, i + 1, 0, [])
    ensures codes[i].hasTail ==>
              var m := Joining(codes, i + 1, 1, codes[i].tail);
              && Tokens(codes, i, 0, []) == codes[i].head + (Run(1 + m, Tails(codes, i, i + 1 + m)) + Tokens(codes, i + 1 + m, 0, []))
              && forall x :: i < x < i + 1 + m ==> codes[x].head == [] && codes[x].hasTail
  {
    hide Run;
    NoRun();
    var c := codes[i];
    assert [] + c.head == c.head && [] + c.tail == c.tail;
    if c.hasTail {
      RunOut(codes, i + 1, 1, c.tail);
      JoiningHeads(codes, i + 1, 1, c.tail);
    }
  }
}
