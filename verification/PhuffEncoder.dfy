// The progressive Huffman encoder for scans of AC coefficients (jcphuff.c), when it codes and
// when it gathers statistics.
module PhuffEncoder {
  import opened BitFields
  import opened BitStrings
  import opened ArithInterval
  import opened ArithBytes
  import opened ByteSource
  import opened ArithScan
  import opened HuffmanLimit
  import opened HuffmanGen
  import opened HuffmanTables
  import opened HuffmanWriter
  import opened HuffmanBlock
  import opened HuffmanStatistics
  import opened PhuffTokens
  import opened PhuffBlocks
  import opened PhuffWriter

  // The symbols among the tokens
  function SymbolsOf(tokens: seq<Token>): seq<UInt8> {
    if tokens == [] then []
    else (if tokens[0].Sym? then [tokens[0].s] else []) + SymbolsOf(tokens[1..])
  }

  lemma {:induction false} SymbolsConcat(a: seq<Token>, b: seq<Token>)
    ensures SymbolsOf(a + b) == SymbolsOf(a) + SymbolsOf(b)
  {
    if a == [] {
      assert a + b == b;
    } else {
      SymbolsConcat(a[1..], b);
      assert (a + b)[1..] == a[1..] + b;
    }
  }

  lemma {:induction false} NoSymbols(bits: Bits)
    ensures SymbolsOf(RawTokens(bits)) == []
  {
    if bits != [] {
      NoSymbols(bits[1..]);
      assert RawTokens(bits)[1..] == RawTokens(bits[1..]);
    }
  }

  // The symbols of several segments
  function AllSymbols(segments: seq<seq<Token>>): seq<UInt8> {
    if segments == [] then [] else AllSymbols(segments[..|segments| - 1]) + SymbolsOf(segments[|segments| - 1])
  }

  // The tokens of the finished segments, and their bytes if they have been written
  datatype Past = Past(segments: seq<seq<Token>>, bytes: seq<seq<Byte>>)

  // The bytes are those of the tokens, when all symbols have code words.
  ghost predicate PastOk(p: Past, table: EncoderTable)
    requires EncoderShape(table)
  {
    && |p.bytes| == |p.segments|
    && (AllCoded(table, AllSymbols(p.segments)) ==>
          forall j :: 0 <= j < |p.bytes| ==> Holds(p.bytes[j], TokenBits(table, p.segments[j], [])))
  }

  // What is left of a block of a first scan, behind its first symbol
  ghost predicate Underway(s: Scan, block: Block, k: nat, r: nat, t0: seq<Token>, n: nat, tokens: seq<Token>)
    requires n < MAX_EOBRUN
  {
    && AcScan(s) && Codable(s, block) && s.Ss <= k
    && var head := FirstTokens(s, block, s.Ss, 0);
       head != [] && tokens + FirstTokens(s, block, k, r) == t0 + Run(n, []) + head
  }

  lemma UnderwayZeros(s: Scan, block: Block, k: nat, r: nat, t0: seq<Token>, n: nat, tokens: seq<Token>)
    requires n < MAX_EOBRUN && Underway(s, block, k, r, t0, n, tokens) && k <= s.Se && r > 15 && Shifted(s, block, k) != 0
    ensures Underway(s, block, k, r - 16, t0, n, tokens + [Sym(0xF0)])
  {
    hide NBits, AcLevel, Extra, Run, ScanOk, Codable, Shifted, RawTokens, FirstTokens, RunSize;
    NextTokens(s, block, k, r);
    Associate3(tokens, [Sym(0xF0)], FirstTokens(s, block, k, r - 16));
  }

  lemma UnderwayValue(s: Scan, block: Block, k: nat, r: nat, t0: seq<Token>, n: nat, tokens: seq<Token>)
    requires n < MAX_EOBRUN && Underway(s, block, k, r, t0, n, tokens) && k <= s.Se && r <= 15
    requires Shifted(s, block, k) != 0 && InRange(Shifted(s, block, k))
    ensures var v := Shifted(s, block, k);
            Underway(s, block, k + 1, 0, t0, n, tokens + [Sym(RunSize(r, v))] + RawTokens(BitsOf(Extra(v), NBits(Abs(v)))))
  {
    hide NBits, AcLevel, Extra, Run, ScanOk, Codable, Shifted, RawTokens, FirstTokens, RunSize, BitsOf;
    NextTokens(s, block, k, r);
    var v := Shifted(s, block, k);
    var x, y, rest := [Sym(RunSize(r, v))], RawTokens(BitsOf(Extra(v), NBits(Abs(v)))), FirstTokens(s, block, k + 1, 0);
    assert tokens + (x + y + rest) == tokens + x + y + rest;
  }

  class PhuffEncoder {
    const gather: bool         // count symbols instead of coding
    const table: EncoderTable
    const writer: PhuffBits
    var counts: seq<nat>
    var ok: bool               // no symbol without a code word has been met
    var EOBRUN: nat            // blocks in the pending run
    var BE: nat                // correction bits buffered for it
    const bitBuffer: array<bool>

    ghost const start: seq<Byte> // output before the scan
    ghost var past: Past
    ghost var tokens: seq<Token> // of the current segment

    // The symbols so far
    ghost function Symbols(): seq<UInt8>
      reads `past, `tokens
    {
      AllSymbols(past.segments) + SymbolsOf(tokens)
    }

    ghost predicate Valid()
      reads `counts, `ok, `past, `tokens, writer
    {
      && bitBuffer.Length == MAX_CORR_BITS && |counts| == SYMBOLS + 1 && SizesOk(table) && writer.Valid()
      && if gather then ok && counts == Tally(NoCounts(), Symbols())
         else
           && counts == NoCounts() && (ok <==> AllCoded(table, Symbols())) && (ok ==> writer.stream == TokenBits(table, tokens, []))
           && PastOk(past, table) && writer.before == start + Restarted(past.bytes)
    }

    // The correction bits of the pending run
    function Buffered(): Bits
      requires BE <= bitBuffer.Length
      reads this, bitBuffer
    {
      bitBuffer[..BE]
    }

    ghost predicate RunPending(n: nat, bits: Bits)
      reads this, bitBuffer
    {
      BE <= bitBuffer.Length && EOBRUN == n && Buffered() == bits
    }

    constructor (gather: bool, table: EncoderTable, wide: bool, written: seq<Byte>)
      requires SizesOk(table)
      ensures Valid() && RunPending(0, []) && tokens == [] && past == Past([], []) && ok && fresh(bitBuffer) && fresh(writer)
      ensures this.gather == gather && this.table == table && start == written
    {
      this.gather, this.table, start := gather, table, written;
      counts, ok, EOBRUN, BE := NoCounts(), true, 0, 0;
      bitBuffer := new bool[MAX_CORR_BITS];
      writer := new PhuffBits(wide, written);
      past, tokens := Past([], []), [];
    }

    // Code or count a symbol.
    method EmitSymbol(sym: UInt8)
      requires Valid()
      modifies this`counts, writer, this`ok, this`tokens
      ensures Valid() && tokens == old(tokens) + [Sym(sym)]
    {
      hide Symbol, Tally, NoCounts, TokenBits, SymbolsOf, AllSymbols, PastOk, PhuffBits.Valid, Restarted;
      AddSymbol(table, AllSymbols(past.segments), tokens, sym);
      if gather {
        counts := counts[sym := counts[sym] + 1];
      } else if table.ehufsi[sym] == 0 {
        ok := false;
      } else {
        writer.EmitBits(table.ehufco[sym], table.ehufsi[sym]);
      }
      tokens := tokens + [Sym(sym)];
    }

    // Put some bits, unless only statistics are gathered.
    method EmitBits(code: nat, size: nat)
      requires Valid() && 0 < size <= 16
      modifies writer, this`tokens
      ensures Valid() && tokens == old(tokens) + RawTokens(BitsOf(code, size))
    {
      hide Tally, NoCounts, TokenBits, SymbolsOf, RawTokens, AllSymbols, PastOk, PhuffBits.Valid, Restarted;
      AddBits(table, tokens, BitsOf(code, size));
      if !gather {
        writer.EmitBits(code, size);
      }
      tokens := tokens + RawTokens(BitsOf(code, size));
    }

    // Put buffered bits one by one.
    method EmitBufferedBits(start: nat, nbits: nat)
      requires Valid() && start + nbits <= bitBuffer.Length
      modifies writer, this`tokens
      ensures Valid() && tokens == old(tokens) + RawTokens(bitBuffer[start..start + nbits])
    {
      hide Valid;
      ghost var t0 := tokens;
      assert t0 + RawTokens(bitBuffer[start..start]) == t0;
      for i := 0 to nbits
        invariant Valid() && tokens == t0 + RawTokens(bitBuffer[start..start + i])
      {
        SingleBit(bitBuffer[start + i]);
        EmitBits(if bitBuffer[start + i] then 1 else 0, 1);
        RawConcat(bitBuffer[start..start + i], [bitBuffer[start + i]]);
        assert bitBuffer[start..start + i + 1] == bitBuffer[start..start + i] + [bitBuffer[start + i]];
      }
    }

    // Emit the pending run, if any. A run of more than 0x7FFF blocks cannot occur.
    method EmitEobrun()
      requires Valid() && BE <= bitBuffer.Length && EOBRUN <= MAX_EOBRUN && (EOBRUN == 0 ==> BE == 0)
      modifies this`counts, writer, this`ok, this`tokens, this`EOBRUN, this`BE
      ensures Valid() && RunPending(0, [])
      ensures tokens == old(tokens) + Run(old(EOBRUN), old(Buffered()))
    {
      hide Valid, RawTokens, NBits, BitsOf, Run;
      RunParts(EOBRUN, Buffered());
      if EOBRUN > 0 {
        ghost var t0, bits := tokens, Buffered();
        var nbits := FloorLog(EOBRUN);
        EmitSymbol(16 * nbits);
        ghost var t1 := tokens;
        if nbits > 0 {
          EmitBits(EOBRUN, nbits);
        }
        assert nbits == 0 ==> t1 + RawTokens(BitsOf(EOBRUN, nbits)) == t1;
        EmitBufferedBits(0, BE);
        assert tokens == t0 + [Sym(16 * nbits)] + RawTokens(BitsOf(EOBRUN, nbits)) + RawTokens(bits);
        SetRun(0, 0);
      }
    }

    method SetRun(n: nat, be: nat)
      requires Valid()
      modifies this`EOBRUN, this`BE
      ensures Valid() && EOBRUN == n && BE == be
    {
      EOBRUN, BE := n, be;
    }

    // ----- Segments -----

    // emit_restart
    method EmitRestart(num: nat)
      requires Valid() && BE <= bitBuffer.Length && EOBRUN <= MAX_EOBRUN && (EOBRUN == 0 ==> BE == 0)
      requires num == |past.segments| % 8
      modifies this`counts, writer, this`ok, this`tokens, this`EOBRUN, this`BE, this`past
      ensures Valid() && RunPending(0, []) && tokens == []
      ensures past.segments == old(past.segments) + [old(tokens) + Run(old(EOBRUN), old(Buffered()))]
    {
      hide Run, AllSymbols, SymbolsOf, PastOk, TokenBits, Tally, AllCoded, PhuffBits.Valid, Restarted, Holds;
      EmitEobrun();
      Closing(table, past, tokens);
      ghost var data := [];
      if !gather {
        SameLengths();
        data := writer.FlushBits();
        Closed(table, past, tokens, data);
        RestartedSnoc(past.bytes, data);
        writer.EmitMarker(RST0 + num);
        assert start + Restarted(past.bytes) + Stuff(data) + [0xFF, RST0 + num]
            == start + (Restarted(past.bytes) + Stuff(data) + [0xFF, RST0 + num]);
      }
      past := Past(past.segments + [tokens], past.bytes + if gather then [] else [data]);
      tokens := [];
      SetRun(0, 0);
    }

    // All symbols have been counted, or the segments have been written if their symbols have code words.
    ghost predicate Finished()
      reads `past, `counts, `ok, writer
    {
      && |counts| == SYMBOLS + 1 && SizesOk(table) && past.segments != []
      && if gather then counts == Tally(NoCounts(), AllSymbols(past.segments))
         else
           && (ok <==> AllCoded(table, AllSymbols(past.segments))) && |past.bytes| == |past.segments|
           && (ok ==> PastOk(past, table) && writer.out == start + ScanBytes(past.bytes))
    }

    // finish_pass_phuff, or the first part of finish_pass_gather_phuff
    method Finish()
      requires Valid() && BE <= bitBuffer.Length && EOBRUN <= MAX_EOBRUN && (EOBRUN == 0 ==> BE == 0)
      modifies this`counts, writer, this`ok, this`tokens, this`EOBRUN, this`BE, this`past
      ensures past.segments == old(past.segments) + [old(tokens) + Run(old(EOBRUN), old(Buffered()))]
      ensures Finished()
    {
      hide Run, AllSymbols, SymbolsOf, PastOk, TokenBits, Tally, AllCoded, PhuffBits.Valid, Restarted, Holds;
      EmitEobrun();
      Closing(table, past, tokens);
      ghost var data := [];
      if !gather {
        SameLengths();
        data := writer.FlushBits();
        Closed(table, past, tokens, data);
        assert (past.bytes + [data])[..|past.bytes|] == past.bytes;
        assert start + Restarted(past.bytes) + Stuff(data) == start + (Restarted(past.bytes) + Stuff(data));
      }
      past := Past(past.segments + [tokens], past.bytes + if gather then [] else [data]);
    }

    lemma SameLengths()
      requires Valid() && !gather
      ensures |past.bytes| == |past.segments|
    {
    }

    // ----- First scans -----

    // Within a block of a first scan, before its first symbol: t0 has been emitted, and a run of
    // n blocks is pending.
    ghost predicate FirstPending(s: Scan, block: Block, k: nat, r: nat, t0: seq<Token>, n: nat, good: bool)
      reads this
    {
      && BE == 0 && EOBRUN == n && n < MAX_EOBRUN && tokens == t0
      && (good ==> AcScan(s) && Codable(s, block) && s.Ss <= k
                   && FirstTokens(s, block, s.Ss, 0) == FirstTokens(s, block, k, r))
    }

    // ... and behind it
    ghost predicate FirstSent(s: Scan, block: Block, k: nat, r: nat, t0: seq<Token>, n: nat, good: bool)
      reads this
    {
      BE == 0 && EOBRUN == 0 && n < MAX_EOBRUN && (good ==> Underway(s, block, k, r, t0, n, tokens))
    }

    ghost predicate FirstState(s: Scan, block: Block, k: nat, r: nat, t0: seq<Token>, n: nat, good: bool)
      reads this
    {
      FirstPending(s, block, k, r, t0, n, good) || FirstSent(s, block, k, r, t0, n, good)
    }

    // A run that is pending ends before a block's first symbol.
    method EndRun(s: Scan, block: Block, k: nat, r: nat, ghost t0: seq<Token>, ghost n: nat, ghost good: bool)
      requires Valid() && AcScan(s) && k <= s.Se && FirstState(s, block, k, r, t0, n, good) && AcLevel(s, block, k, s.Al) != 0
      modifies this`counts, writer, this`ok, this`tokens, this`EOBRUN, this`BE
      ensures Valid() && FirstSent(s, block, k, r, t0, n, good)
    {
      hide Valid, AcLevel, Run, FirstTokens, Codable, ScanOk;
      if good {
        NoneLeftNoTokens(s, block, k, r);
      }
      NoRun();
      assert t0 + Run(0, []) == t0;
      if EOBRUN > 0 {
        EmitEobrun();
      }
    }

    // More than 15 zeros before a coefficient
    method EmitZeroRuns(s: Scan, block: Block, k: nat, r0: nat, ghost t0: seq<Token>, ghost n: nat, ghost good: bool)
      returns (r: nat)
      requires Valid() && AcScan(s) && s.Ss <= k <= s.Se && FirstSent(s, block, k, r0, t0, n, good)
      requires Shifted(s, block, k) != 0
      modifies this`counts, writer, this`ok, this`tokens
      ensures Valid() && r <= 15 && FirstSent(s, block, k, r, t0, n, good)
    {
      hide Valid, Underway, AcScan, Shifted;
      r := r0;
      while r > 15
        invariant Valid() && FirstSent(s, block, k, r, t0, n, good)
      {
        if good {
          UnderwayZeros(s, block, k, r, t0, n, tokens);
        }
        EmitSymbol(0xF0);
        r := r - 16;
      }
    }

    // The zeros before a coefficient, and the coefficient, if it does not have too many bits
    method EmitCoefficient(s: Scan, block: Block, k: nat, r0: nat, ghost t0: seq<Token>, ghost n: nat, ghost good: bool)
      returns (accepted: bool)
      requires Valid() && AcScan(s) && s.Ss <= k <= s.Se && FirstSent(s, block, k, r0, t0, n, good)
      requires Shifted(s, block, k) != 0
      modifies this`counts, writer, this`ok, this`tokens
      ensures accepted <==> NBits(Abs(Shifted(s, block, k))) <= MAX_COEF_BITS
      ensures Valid() && (accepted ==> FirstSent(s, block, k + 1, 0, t0, n, good))
    {
      hide Valid, NBits, Extra, Underway, ScanOk, Shifted, RawTokens, RunSize, BitsOf;
      var r := EmitZeroRuns(s, block, k, r0, t0, n, good);
      var v := Shifted(s, block, k);
      var nbits := FloorLog(Abs(v));
      nbits := nbits + 1;
      accepted := nbits <= MAX_COEF_BITS;
      if accepted {
        FewBits(v);
        RunSizeIs(r, v);
        if good {
          UnderwayValue(s, block, k, r, t0, n, tokens);
        }
        EmitSymbol(16 * r + nbits);
        EmitBits(Extra(v), nbits);
      }
    }

    // encode_mcu_AC_first for one block; an error if a coefficient has too many bits
    method EncodeAcFirst(s: Scan, block: Block, ghost n: nat) returns (accepted: bool, ghost next: Stepped)
      requires Valid() && AcScan(s) && RunPending(n, []) && n < MAX_EOBRUN
      modifies this`counts, writer, this`ok, this`tokens, this`EOBRUN, this`BE
      ensures Valid() && (accepted <==> Codable(s, block))
      ensures accepted ==> next == Step(FirstCode(s, block), n, []) && next.bits == [] && RunPending(next.n, [])
      ensures accepted ==> tokens == old(tokens) + next.emitted
    {
      hide Valid, NBits, AcLevel, Run, FirstTokens, ScanOk;
      ghost var good := Codable(s, block);
      ghost var t0 := tokens;
      next := Stepped([], 0, []);
      var r: nat := 0;
      for k := s.Ss to s.Se + 1
        invariant Valid() && FirstState(s, block, k, r, t0, n, good)
        invariant forall i :: s.Ss <= i < k ==> NBits(AcLevel(s, block, i, s.Al)) <= MAX_COEF_BITS
        invariant k > s.Ss ==> (r > 0 <==> AcLevel(s, block, k - 1, s.Al) == 0)
      {
        if Shifted(s, block, k) == 0 {
          ZeroFirst(s, block, k, r);
          r := r + 1;
        } else {
          EndRun(s, block, k, r, t0, n, good);
          accepted := EmitCoefficient(s, block, k, r, t0, n, good);
          if !accepted {
            return;
          }
          r := 0;
        }
      }
      accepted := true;
      next := Step(FirstCode(s, block), n, []);
      FirstDone(s, block, r, t0, n);
      hide FirstState, Step, FirstCode;
      JoinZeroRun(r > 0);
      assert Buffered() == [];
    }

    lemma FirstDone(s: Scan, block: Block, r: nat, t0: seq<Token>, n: nat)
      requires AcScan(s) && FirstState(s, block, s.Se + 1, r, t0, n, true) && Codable(s, block) && n < MAX_EOBRUN
      requires r > 0 <==> AcLevel(s, block, s.Se, s.Al) == 0
      ensures EOBRUN < MAX_EOBRUN && BE == 0 && Step(FirstCode(s, block), n, []).bits == []
      ensures var next := Step(FirstCode(s, block), n, []);
              if r > 0 && EOBRUN + 1 == MAX_EOBRUN then next.n == 0 && t0 + next.emitted == tokens + Run(MAX_EOBRUN, [])
              else next.n == EOBRUN + (if r > 0 then 1 else 0) && t0 + next.emitted == tokens
    {
      hide Run, AcLevel, ScanOk, Step, FirstTokens, Codable;
      FirstStep(s, block, n, r);
      FirstEmitted(s, block, r, t0, n);
    }

    lemma FirstEmitted(s: Scan, block: Block, r: nat, t0: seq<Token>, n: nat)
      requires AcScan(s) && FirstState(s, block, s.Se + 1, r, t0, n, true) && Codable(s, block) && n < MAX_EOBRUN
      ensures var head := FirstTokens(s, block, s.Ss, 0);
              if head == [] then tokens == t0 && EOBRUN == n else tokens == t0 + (Run(n, []) + head) && EOBRUN == 0
    {
      hide Run, AcLevel, ScanOk, Codable;
      assert tokens + [] == tokens;
      Associate3(t0, Run(n, []), FirstTokens(s, block, s.Ss, 0));
    }

    // A block that ends in zeros joins the run.
    method JoinZeroRun(more: bool)
      requires Valid() && EOBRUN < MAX_EOBRUN && BE == 0
      modifies this`counts, writer, this`ok, this`tokens, this`EOBRUN, this`BE
      ensures Valid() && BE == 0
      ensures !more ==> EOBRUN == old(EOBRUN) && tokens == old(tokens)
      ensures more && old(EOBRUN) + 1 < MAX_EOBRUN ==> EOBRUN == old(EOBRUN) + 1 && tokens == old(tokens)
      ensures more && old(EOBRUN) + 1 == MAX_EOBRUN ==> EOBRUN == 0 && tokens == old(tokens) + Run(MAX_EOBRUN, [])
    {
      hide Valid, Run;
      if more {
        SetRun(EOBRUN + 1, BE);
        if EOBRUN == MAX_EOBRUN {
          assert Buffered() == [];
          EmitEobrun();
        }
      }
    }

    // ----- Refinement scans -----

    // Within a block of a refinement scan, before its first symbol: t0 has been emitted, and a
    // run of n blocks is pending with these bits; br are the bits added by this block.
    ghost predicate RefinePending(s: Scan, block: Block, k: nat, r: nat, br0: nat, br: Bits, t0: seq<Token>, n: nat, bits: Bits)
      reads this, bitBuffer
    {
      && AcScan(s) && tokens == t0 && RunPending(n, bits) && Pending(n, bits) && br0 == BE && |br| + s.Ss <= k
      && br0 + |br| <= bitBuffer.Length && bitBuffer[br0..br0 + |br|] == br
      && RefineTokens(s, block, s.Ss, 0, []) == RefineTokens(s, block, k, r, br)
    }

    // ... and behind it
    ghost predicate RefineSent(s: Scan, block: Block, k: nat, r: nat, br0: nat, br: Bits, t0: seq<Token>, n: nat, bits: Bits)
      reads this, bitBuffer
    {
      && AcScan(s) && EOBRUN == 0 && BE == 0 && br0 == 0 && Pending(n, bits) && |br| + s.Ss <= k
      && |br| <= bitBuffer.Length && bitBuffer[..|br|] == br
      && var head := RefineTokens(s, block, s.Ss, 0, []);
         head != [] && tokens + RefineTokens(s, block, k, r, br) == t0 + (Run(n, bits) + head)
    }

    ghost predicate RefineState(s: Scan, block: Block, k: nat, r: nat, br0: nat, br: Bits, t0: seq<Token>, n: nat, bits: Bits)
      reads this, bitBuffer
    {
      RefinePending(s, block, k, r, br0, br, t0, n, bits) || RefineSent(s, block, k, r, br0, br, t0, n, bits)
    }

    // End a pending run, and emit a symbol, its sign and the correction bits that go with it.
    method EmitRefined(sym: UInt8, sign: Bits, br0: nat, br: nat)
      requires Valid() && BE <= bitBuffer.Length && EOBRUN <= MAX_EOBRUN && (EOBRUN == 0 ==> BE == 0)
      requires br0 + br <= bitBuffer.Length && |sign| <= 1
      modifies this`counts, writer, this`ok, this`tokens, this`EOBRUN, this`BE
      ensures Valid() && RunPending(0, [])
      ensures tokens == old(tokens) + (Run(old(EOBRUN), old(Buffered()))
                + ([Sym(sym)] + RawTokens(sign) + RawTokens(bitBuffer[br0..br0 + br])))
    {
      hide Valid, Run, RawTokens;
      ghost var t0, run := tokens, Run(EOBRUN, Buffered());
      EmitEobrun();
      EmitSymbol(sym);
      if |sign| > 0 {
        SingleBit(sign[0]);
        assert [sign[0]] == sign;
        EmitBits(if sign[0] then 1 else 0, 1);
      }
      NoRawBits();
      EmitBufferedBits(br0, br);
      ghost var all := bitBuffer[br0..br0 + br];
      assert sign == [] ==> RawTokens(sign) == [];
      assert t0 + run + [Sym(sym)] + RawTokens(sign) + RawTokens(all)
          == t0 + (run + ([Sym(sym)] + RawTokens(sign) + RawTokens(all)));
    }

    // What is emitted for a symbol of the block, with the correction bits before it, brings the
    // encoder behind it.
    method EmitInBlock(s: Scan, block: Block, k: nat, r: nat, br0: nat, br: nat, sym: UInt8, sign: Bits, ghost k': nat,
                       ghost r': nat, ghost t0: seq<Token>, ghost n: nat, ghost bits: Bits)
      requires Valid() && br0 + br <= bitBuffer.Length && s.Ss <= k' && |sign| <= 1
      requires RefineState(s, block, k, r, br0, bitBuffer[br0..br0 + br], t0, n, bits)
      requires RefineTokens(s, block, k, r, bitBuffer[br0..br0 + br])
               == ([Sym(sym)] + RawTokens(sign) + RawTokens(bitBuffer[br0..br0 + br])) + RefineTokens(s, block, k', r', [])
      modifies this`counts, writer, this`ok, this`tokens, this`EOBRUN, this`BE
      ensures Valid() && RefineState(s, block, k', r', 0, [], t0, n, bits)
    {
      hide Valid, Run, RawTokens, RefineTokens, ScanOk;
      NoRun();
      ghost var head, rest := RefineTokens(s, block, s.Ss, 0, []), RefineTokens(s, block, k', r', []);
      ghost var e := [Sym(sym)] + RawTokens(sign) + RawTokens(bitBuffer[br0..br0 + br]);
      ghost var was, run := tokens, Run(EOBRUN, Buffered());
      ghost var pending := RefinePending(s, block, k, r, br0, bitBuffer[br0..br0 + br], t0, n, bits);
      EmitRefined(sym, sign, br0, br);
      Regrouped(was, run, e, rest);
      assert bitBuffer[..0] == [];
      if !pending {
        assert [] + e == e;
      }
    }

    // More than 15 zeros before a coefficient, if they cannot be left to an end-of-band run
    method LongRuns(s: Scan, block: Block, k: nat, EOB: nat, r0: nat, start: nat, BR0: nat,
                    ghost t0: seq<Token>, ghost n: nat, ghost bits: Bits)
      returns (r: nat, br0: nat, BR: nat)
      requires Valid() && start + BR0 <= bitBuffer.Length && k <= s.Se
      requires RefineState(s, block, k, r0, start, bitBuffer[start..start + BR0], t0, n, bits)
      requires AcLevel(s, block, k, s.Al) != 0 && (k <= EOB <==> !NoneNew(s, block, k))
      modifies this`counts, writer, this`ok, this`tokens, this`EOBRUN, this`BE
      ensures Valid() && br0 + BR <= bitBuffer.Length && (k <= EOB ==> r <= 15)
      ensures RefineState(s, block, k, r, br0, bitBuffer[br0..br0 + BR], t0, n, bits)
      ensures k > EOB ==> r == r0 && br0 == start && BR == BR0
    {
      hide Valid, AcLevel, RawTokens, Run, NoneNew;
      r, br0, BR := r0, start, BR0;
      while r > 15 && k <= EOB
        invariant Valid() && br0 + BR <= bitBuffer.Length
        invariant RefineState(s, block, k, r, br0, bitBuffer[br0..br0 + BR], t0, n, bits)
        invariant k > EOB ==> r == r0 && br0 == start && BR == BR0
        decreases r
      {
        NoRawBits();
        assert [Sym(0xF0)] + RawTokens([]) == [Sym(0xF0)];
        EmitInBlock(s, block, k, r, br0, BR, 0xF0, [], k, r - 16, t0, n, bits);
        r := r - 16;
        br0, BR := 0, 0;
        assert bitBuffer[0..0] == [];
      }
    }

    // One coefficient of a refinement scan
    method RefineAt(s: Scan, block: Block, k: nat, temp: nat, EOB: nat, r0: nat, start: nat, BR0: nat,
                    ghost t0: seq<Token>, ghost n: nat, ghost bits: Bits)
      returns (r: nat, br0: nat, BR: nat)
      requires Valid() && AcScan(s) && start + BR0 <= bitBuffer.Length && s.Ss <= k <= s.Se && temp == AcLevel(s, block, k, s.Al)
      requires RefineState(s, block, k, r0, start, bitBuffer[start..start + BR0], t0, n, bits)
      requires k <= EOB <==> !NoneNew(s, block, k)
      modifies this`counts, writer, this`ok, this`tokens, this`EOBRUN, this`BE, bitBuffer
      ensures Valid() && br0 + BR <= bitBuffer.Length
      ensures RefineState(s, block, k + 1, r, br0, bitBuffer[br0..br0 + BR], t0, n, bits)
      ensures temp == 1 ==> r == 0 && BR == 0
      ensures temp == 0 ==> r == r0 + 1 && br0 == start && BR == BR0 && bitBuffer[..] == old(bitBuffer[..])
      ensures k > EOB && temp > 1 ==> r == r0 && br0 == start && BR == BR0 + 1
      ensures k > EOB && temp > 1 ==> bitBuffer[br0..br0 + BR] == old(bitBuffer[start..start + BR0]) + [temp % 2 == 1]
    {
      hide Valid, AcLevel, RawTokens, Run, AtZigzag, RefineState, RefineTokens, ScanOk;
      RefineStep(s, block, k, r0, bitBuffer[start..start + BR0]);
      if temp == 0 {
        r, br0, BR := r0 + 1, start, BR0;
        SameTokens(s, block, k, r0, r, start, bitBuffer[start..start + BR0], t0, n, bits);
        return;
      }
      r, br0, BR := LongRuns(s, block, k, EOB, r0, start, BR0, t0, n, bits);
      ghost var br := bitBuffer[br0..br0 + BR];
      RefineStep(s, block, k, r, br);
      if temp > 1 {
        StoreBit(s, block, k, r, br0, BR, temp % 2 == 1, t0, n, bits);
        BR := BR + 1;
        return;
      }
      EmitInBlock(s, block, k, r, br0, BR, 16 * r + 1, [Positive(s, block, k)], k + 1, 0, t0, n, bits);
      r, br0, BR := 0, 0, 0;
      assert bitBuffer[0..0] == [];
    }

    lemma SameTokens(s: Scan, block: Block, k: nat, r: nat, r': nat, br0: nat, br: Bits, t0: seq<Token>, n: nat, bits: Bits)
      requires RefineState(s, block, k, r, br0, br, t0, n, bits)
      requires |s.order| == DCTSIZE2 && s.Se < DCTSIZE2
      requires RefineTokens(s, block, k, r, br) == RefineTokens(s, block, k + 1, r', br)
      ensures RefineState(s, block, k + 1, r', br0, br, t0, n, bits)
    {
      hide RefineTokens, Run, ScanOk;
    }

    // Buffer a correction bit; there is room for it.
    method StoreBit(s: Scan, block: Block, k: nat, r: nat, br0: nat, BR: nat, b: bool,
                    ghost t0: seq<Token>, ghost n: nat, ghost bits: Bits)
      requires Valid() && br0 + BR <= bitBuffer.Length && s.Ss <= k <= s.Se
      requires RefineState(s, block, k, r, br0, bitBuffer[br0..br0 + BR], t0, n, bits)
      requires RefineTokens(s, block, k, r, bitBuffer[br0..br0 + BR])
               == RefineTokens(s, block, k + 1, r, bitBuffer[br0..br0 + BR] + [b])
      modifies bitBuffer
      ensures Valid() && br0 + BR < bitBuffer.Length
      ensures bitBuffer[br0..br0 + BR + 1] == old(bitBuffer[br0..br0 + BR]) + [b]
      ensures RefineState(s, block, k + 1, r, br0, bitBuffer[br0..br0 + BR + 1], t0, n, bits)
    {
      hide RefineTokens, Run, RawTokens, TokenBits, Tally, AllCoded, SymbolsOf, ScanOk;
      ghost var br := bitBuffer[br0..br0 + BR];
      bitBuffer[br0 + BR] := b;
      assert bitBuffer[br0..br0 + BR + 1] == br + [b];
    }

    // The levels of the coefficients, and the last one that becomes nonzero
    method Levels(s: Scan, block: Block) returns (absvalues: array<nat>, EOB: nat)
      requires AcScan(s)
      ensures fresh(absvalues) && absvalues.Length == DCTSIZE2
      ensures forall k :: s.Ss <= k <= s.Se ==> absvalues[k] == AcLevel(s, block, k, s.Al)
      ensures var t := TailStart(s, block, s.Se + 1); EOB == if t > s.Ss then t - 1 else 0
    {
      hide ScanOk, AcLevel;
      absvalues := new nat[DCTSIZE2](k => 0);
      EOB := 0;
      for k := s.Ss to s.Se + 1
        invariant forall i :: s.Ss <= i < k ==> absvalues[i] == AcLevel(s, block, i, s.Al)
        invariant var t := TailStart(s, block, k); EOB == if t > s.Ss then t - 1 else 0
      {
        absvalues[k] := AcLevel(s, block, k, s.Al);
        if absvalues[k] == 1 {
          EOB := k;
        }
      }
    }

    // encode_mcu_AC_refine for one block
    method EncodeAcRefine(s: Scan, block: Block, ghost n: nat, ghost bits: Bits) returns (ghost next: Stepped)
      requires Valid() && AcScan(s) && RunPending(n, bits) && Pending(n, bits)
      modifies this`counts, writer, this`ok, this`tokens, this`EOBRUN, this`BE, bitBuffer
      ensures Valid() && next == Step(RefineCode(s, block), n, bits) && RunPending(next.n, next.bits)
      ensures tokens == old(tokens) + next.emitted
    {
      hide Valid, AcLevel, Run, ScanOk, RefineTokens, TailStart, RefineState, Tailing;
      ghost var t0 := tokens;
      ghost var t := TailStart(s, block, s.Se + 1);
      var absvalues, EOB := Levels(s, block);
      var r: nat, BR: nat, br0: nat := 0, 0, BE;
      RefineStart(s, block, t0, n, bits);
      for k := s.Ss to s.Se + 1
        invariant Valid() && br0 + BR <= bitBuffer.Length
        invariant forall i :: s.Ss <= i <= s.Se ==> absvalues[i] == AcLevel(s, block, i, s.Al)
        invariant RefineState(s, block, k, r, br0, bitBuffer[br0..br0 + BR], t0, n, bits)
        invariant Tailing(s, block, k, r, bitBuffer[br0..br0 + BR])
      {
        NewBefore(s, block, k);
        ghost var r', br := r, bitBuffer[br0..br0 + BR];
        r, br0, BR := RefineAt(s, block, k, absvalues[k], EOB, r, br0, BR, t0, n, bits);
        TailingNext(s, block, k, r', br, r, bitBuffer[br0..br0 + BR]);
      }
      next := Step(RefineCode(s, block), n, bits);
      RefineBound(s, block, s.Se + 1, r, br0, bitBuffer[br0..br0 + BR], t0, n, bits);
      RefineDone(s, block, r, br0, bitBuffer[br0..br0 + BR], t0, n, bits);
      hide Step, RefineCode;
      JoinRun(r > 0 || BR > 0, BR);
    }

    // A block that leaves something to a run joins it, with its correction bits.
    method JoinRun(more: bool, BR: nat)
      requires Valid() && EOBRUN < MAX_EOBRUN && BE + BR <= bitBuffer.Length && (BR > 0 ==> more) && (EOBRUN == 0 ==> BE == 0)
      modifies this`counts, writer, this`ok, this`tokens, this`EOBRUN, this`BE
      ensures Valid() && BE <= bitBuffer.Length
      ensures var bits := old(bitBuffer[..BE + BR]);
              if !more then EOBRUN == old(EOBRUN) && Buffered() == old(Buffered()) && tokens == old(tokens)
              else if RunFull(old(EOBRUN) + 1, bits) then
                RunPending(0, []) && tokens == old(tokens) + Run(old(EOBRUN) + 1, bits)
              else RunPending(old(EOBRUN) + 1, bits) && tokens == old(tokens)
    {
      hide Valid, Run;
      if more {
        SetRun(EOBRUN + 1, BE + BR);
        if EOBRUN == MAX_EOBRUN || BE > MAX_CORR_BITS - DCTSIZE2 + 1 {
          EmitEobrun();
        }
      }
    }

    lemma RefineBound(s: Scan, block: Block, k: nat, r: nat, br0: nat, br: Bits, t0: seq<Token>, n: nat, bits: Bits)
      requires RefineState(s, block, k, r, br0, br, t0, n, bits)
      ensures BE <= bitBuffer.Length && (EOBRUN == 0 ==> BE == 0)
    {
    }

    lemma RefineStart(s: Scan, block: Block, t0: seq<Token>, n: nat, bits: Bits)
      requires Valid() && AcScan(s) && RunPending(n, bits) && Pending(n, bits) && tokens == t0
      ensures RefineState(s, block, s.Ss, 0, BE, bitBuffer[BE..BE], t0, n, bits) && Tailing(s, block, s.Ss, 0, bitBuffer[BE..BE])
    {
    }

    lemma RefineEmitted(s: Scan, block: Block, r: nat, br0: nat, br: Bits, t0: seq<Token>, n: nat, bits: Bits)
      requires RefineState(s, block, s.Se + 1, r, br0, br, t0, n, bits) && AcScan(s) && BE <= bitBuffer.Length
      ensures var head := RefineTokens(s, block, s.Ss, 0, []);
              if head == [] then tokens == t0 && EOBRUN == n && Buffered() == bits
              else tokens == t0 + (Run(n, bits) + head) && EOBRUN == 0 && Buffered() == []
      ensures br0 == BE && Pending(n, bits)
    {
      hide Run, AcLevel, ScanOk;
      assert tokens + [] == tokens;
    }

    lemma RefineDone(s: Scan, block: Block, r: nat, br0: nat, br: Bits, t0: seq<Token>, n: nat, bits: Bits)
      requires Valid() && RefineState(s, block, s.Se + 1, r, br0, br, t0, n, bits) && AcScan(s) && BE <= bitBuffer.Length
      requires Tailing(s, block, s.Se + 1, r, br) && br0 + |br| <= bitBuffer.Length && bitBuffer[br0..br0 + |br|] == br
      ensures EOBRUN < MAX_EOBRUN && BE == br0 && bitBuffer[..BE + |br|] == Buffered() + br
      ensures var next := Step(RefineCode(s, block), n, bits);
              var more := bitBuffer[..BE + |br|];
              if r == 0 && br == [] then next.n == EOBRUN && next.bits == Buffered() && t0 + next.emitted == tokens
              else if RunFull(EOBRUN + 1, more) then
                next.n == 0 && next.bits == [] && t0 + next.emitted == tokens + Run(EOBRUN + 1, more)
              else next.n == EOBRUN + 1 && next.bits == more && t0 + next.emitted == tokens
    {
      hide Run, AcLevel, ScanOk, RefineState, RefineTokens, Valid, TailStart, Corrections;
      RefineEmitted(s, block, r, br0, br, t0, n, bits);
      assert bitBuffer[..BE + |br|] == Buffered() + br;
      assert t0 + [] == t0;
    }
  }

  // What is known behind the last coefficient that becomes nonzero
  ghost predicate Tailing(s: Scan, block: Block, k: nat, r: nat, br: Bits)
    requires AcScan(s) && s.Ss <= k <= s.Se + 1
  {
    var t := TailStart(s, block, s.Se + 1);
    t <= k ==> br == Corrections(s, block, t, k) && (t == k ==> r == 0) && (t < k ==> r > 0 || br != [])
  }

  lemma TailingNext(s: Scan, block: Block, k: nat, r0: nat, br0: Bits, r: nat, br: Bits)
    requires AcScan(s) && s.Ss <= k <= s.Se && Tailing(s, block, k, r0, br0)
    requires var a := AcLevel(s, block, k, s.Al);
             && (a == 1 ==> r == 0 && br == []) && (a == 0 ==> r == r0 + 1 && br == br0)
             && (a > 1 && NoneNew(s, block, k) ==> r == r0 && br == br0 + [a % 2 == 1])
    ensures Tailing(s, block, k + 1, r, br)
  {
    hide AcLevel, ScanOk, NoneNew;
    NewBefore(s, block, k);
    hide TailStart;
    assert Corrections(s, block, k + 1, k + 1) == [];
    assert br0 + [] == br0;
  }

  // The symbols of a segment join those before it.
  lemma Closing(t: EncoderTable, p: Past, tokens: seq<Token>)
    requires EncoderShape(t)
    ensures AllSymbols(p.segments + [tokens]) == AllSymbols(p.segments) + SymbolsOf(tokens)
    ensures AllSymbols(p.segments + [tokens]) + SymbolsOf([]) == AllSymbols(p.segments + [tokens])
    ensures TokenBits(t, [], []) == []
    ensures AllCoded(t, AllSymbols(p.segments + [tokens])) ==> AllCoded(t, AllSymbols(p.segments))
  {
    hide SymbolsOf, AllCoded;
    assert (p.segments + [tokens])[..|p.segments|] == p.segments;
    AllCodedConcat(t, AllSymbols(p.segments), SymbolsOf(tokens));
    NoTokens();
  }

  lemma NoTokens()
    ensures SymbolsOf([]) == []
  {
  }

  lemma Closed(t: EncoderTable, p: Past, tokens: seq<Token>, data: seq<Byte>)
    requires EncoderShape(t) && PastOk(p, t)
    requires AllCoded(t, AllSymbols(p.segments) + SymbolsOf(tokens)) ==> Holds(data, TokenBits(t, tokens, []))
    ensures PastOk(Past(p.segments + [tokens], p.bytes + [data]), t)
  {
    hide AllSymbols, SymbolsOf, TokenBits, Holds, AllCoded;
    Closing(t, p, tokens);
  }

  // Whether a position is before the last coefficient that becomes nonzero
  lemma NewBefore(s: Scan, block: Block, k: nat)
    requires AcScan(s) && s.Ss <= k <= s.Se
    ensures var t := TailStart(s, block, s.Se + 1);
            && (k < t <==> !NoneNew(s, block, k)) && (AcLevel(s, block, k, s.Al) == 1 ==> k < t)
            && (k < t ==> k + 1 < t || AcLevel(s, block, k, s.Al) == 1)
  {
    hide AcLevel, ScanOk;
  }

  lemma RunParts(n: nat, bits: Bits)
    requires n <= MAX_EOBRUN
    ensures n == 0 ==> Run(n, bits) == []
    ensures n > 0 ==> 1 <= NBits(n) <= 15
    ensures n > 0 ==> Run(n, bits) == [Sym(16 * (NBits(n) - 1))] + RawTokens(BitsOf(n, NBits(n) - 1)) + RawTokens(bits)
    ensures RawTokens(BitsOf(n, 0)) == []
  {
    hide NBits, RawTokens;
    NoRawBits();
    if n > 0 {
      RunBits(n);
    }
  }

  lemma RunSizeIs(r: nat, v: int)
    requires r <= 15 && InRange(v)
    ensures RunSize(r, v) == 16 * r + NBits(Abs(v))
  {
  }

  lemma SingleBit(b: bool)
    ensures BitsOf(if b then 1 else 0, 1) == [b]
  {
    var v: nat := if b then 1 else 0;
    assert BitsOf(v / 2, 0) == [];
  }

  lemma NextTokens(s: Scan, block: Block, k: nat, r: nat)
    requires |s.order| == DCTSIZE2 && s.Ss <= k <= s.Se < DCTSIZE2 && Shifted(s, block, k) != 0
    ensures Codable(s, block) ==>
              var v := Shifted(s, block, k);
              && InRange(v)
              && FirstTokens(s, block, k, r)
                 == if r > 15 then [Sym(0xF0)] + FirstTokens(s, block, k, r - 16)
                    else [Sym(RunSize(r, v))] + RawTokens(BitsOf(Extra(v), NBits(Abs(v)))) + FirstTokens(s, block, k + 1, 0)
  {
    hide NBits, AcLevel, Extra, RawTokens;
    if Codable(s, block) {
      CodableRange(s, block, k);
    }
  }

  // How the tokens to come change with one coefficient
  lemma RefineStep(s: Scan, block: Block, k: nat, r: nat, br: Bits)
    requires |s.order| == DCTSIZE2 && s.Ss <= k <= s.Se < DCTSIZE2
    ensures var a := AcLevel(s, block, k, s.Al);
            if a == 0 then RefineTokens(s, block, k, r, br) == RefineTokens(s, block, k + 1, r + 1, br)
            else if a > 1 && (r <= 15 || NoneNew(s, block, k)) then
              RefineTokens(s, block, k, r, br) == RefineTokens(s, block, k + 1, r, br + [a % 2 == 1])
            else if a == 1 && r <= 15 then
              RefineTokens(s, block, k, r, br)
              == [Sym(16 * r + 1)] + RawTokens([Positive(s, block, k)]) + RawTokens(br) + RefineTokens(s, block, k + 1, 0, [])
            else true
  {
    hide AcLevel, AtZigzag;
    NoneNewNoTokens(s, block, k, r, br);
    assert RawTokens([Positive(s, block, k)]) == [Raw(Positive(s, block, k))];
    if NoneNew(s, block, k) {
      NoneNewNoTokens(s, block, k + 1, r + 1, br);
      NoneNewNoTokens(s, block, k + 1, r, br + [AcLevel(s, block, k, s.Al) % 2 == 1]);
    }
  }

  lemma Regrouped(was: seq<Token>, run: seq<Token>, e: seq<Token>, rest: seq<Token>)
    ensures (was + (run + e)) + rest == was + (run + (e + rest))
  {
  }

  lemma NoRawBits()
    ensures RawTokens([]) == []
  {
  }

  lemma Associate3(a: seq<Token>, b: seq<Token>, c: seq<Token>)
    ensures (a + b) + c == a + (b + c)
  {
  }

  // The number of bits behind the first one
  method FloorLog(n: nat) returns (nbits: nat)
    requires n > 0
    ensures nbits == NBits(n) - 1
  {
    var temp: nat := n / 2;
    nbits := 0;
    while temp > 0
      invariant nbits + NBits(temp) == NBits(n) - 1
    {
      nbits := nbits + 1;
      temp := temp / 2;
    }
  }

  // One more symbol, behind those of the segments before
  lemma AddSymbol(t: EncoderTable, was: seq<UInt8>, tokens: seq<Token>, sym: UInt8)
    requires EncoderShape(t)
    ensures AllCoded(t, was + SymbolsOf(tokens + [Sym(sym)])) <==> AllCoded(t, was + SymbolsOf(tokens)) && t.ehufsi[sym] > 0
    ensures TokenBits(t, tokens + [Sym(sym)], []) == TokenBits(t, tokens, []) + BitsOf(t.ehufco[sym], t.ehufsi[sym])
    ensures Tally(NoCounts(), was + SymbolsOf(tokens + [Sym(sym)]))
            == var c := Tally(NoCounts(), was + SymbolsOf(tokens)); c[sym := c[sym] + 1]
  {
    SymbolsConcat(tokens, [Sym(sym)]);
    OneToken(t, sym);
    hide SymbolsOf, TokenBits, Tally, BitsOf, NoCounts, AllCoded;
    var before := was + SymbolsOf(tokens);
    assert was + (SymbolsOf(tokens) + [sym]) == before + [sym];
    AllCodedConcat(t, before, [sym]);
    AllCodedOne(t, sym, []);
    AllCodedNone(t);
    assert [sym] + [] == [sym];
    TokenBitsConcat(t, tokens, [Sym(sym)], []);
    TokenTail(t, tokens, TokenBits(t, [Sym(sym)], []));
    TallyConcat(NoCounts(), before, [sym]);
    TallyOne(Tally(NoCounts(), before), sym, []);
  }

  lemma OneToken(t: EncoderTable, sym: UInt8)
    requires EncoderShape(t)
    ensures SymbolsOf([Sym(sym)]) == [sym]
    ensures TokenBits(t, [Sym(sym)], []) == BitsOf(t.ehufco[sym], t.ehufsi[sym])
  {
    assert [Sym(sym)][1..] == [];
  }

  lemma AddBits(t: EncoderTable, tokens: seq<Token>, bits: Bits)
    requires EncoderShape(t)
    ensures SymbolsOf(tokens + RawTokens(bits)) == SymbolsOf(tokens)
    ensures TokenBits(t, tokens + RawTokens(bits), []) == TokenBits(t, tokens, []) + bits
  {
    hide SymbolsOf, TokenBits, RawTokens;
    SymbolsConcat(tokens, RawTokens(bits));
    NoSymbols(bits);
    TokenBitsConcat(t, tokens, RawTokens(bits), []);
    RawBits(t, bits, []);
    TokenTail(t, tokens, bits);
    assert bits + [] == bits;
  }

  lemma ZeroFirst(s: Scan, block: Block, k: nat, r: nat)
    requires |s.order| == DCTSIZE2 && s.Ss <= k <= s.Se < DCTSIZE2 && Shifted(s, block, k) == 0
    ensures NBits(AcLevel(s, block, k, s.Al)) == 0
    ensures Codable(s, block) ==> FirstTokens(s, block, k, r) == FirstTokens(s, block, k + 1, r + 1)
  {
    hide AtZigzag;
  }

  // The end of a block, behind its last coefficient
  lemma FirstStep(s: Scan, block: Block, n: nat, r: nat)
    requires AcScan(s) && Codable(s, block) && n < MAX_EOBRUN
    ensures FirstTokens(s, block, s.Se + 1, r) == []
    ensures var c := FirstCode(s, block);
            var pre := if c.head == [] then [] else Run(n, []) + c.head;
            var n0 := if c.head == [] then n else 0;
            Step(c, n, []) == if !c.hasTail then Stepped(pre, n0, [])
                              else if n0 + 1 == MAX_EOBRUN then Stepped(pre + Run(n0 + 1, []), 0, [])
                              else Stepped(pre, n0 + 1, [])
  {
    hide Run, AcLevel;
    var e: Bits := [];
    assert e + e == e;
  }
}
