// How full the buffer for correction bits gets in refinement scans (MAX_CORR_BITS in jcphuff.c):
// it never overflows, and there are scans that fill it to its last place.
module PhuffBuffer {
  import opened ArithScan
  import opened PhuffTokens
  import opened PhuffBlocks

  // The run that is pending after the first i blocks
  function RunAfter(codes: seq<BlockCode>, i: nat): (r: Stepped)
    requires i <= |codes|
    ensures Pending(r.n, r.bits)
  {
    if i == 0 then Stepped([], 0, [])
    else
      var r := RunAfter(codes, i - 1);
      Step(codes[i - 1], r.n, r.bits)
  }

  // What is buffered, and what a block adds to it, has room.
  lemma {:induction false} BufferSuffices(codes: seq<BlockCode>, i: nat)
    requires CodesOk(codes) && i < |codes|
    ensures |RunAfter(codes, i).bits| + |codes[i].tail| <= MAX_CORR_BITS
  {
    var r := RunAfter(codes, i);
    assert CodeOk(codes[i]);
  }

  // The first m coefficients of the band are nonzero already, and the others stay zero.
  predicate Corrected(s: Scan, block: Block, m: nat)
    requires |s.order| == DCTSIZE2
  {
    forall k :: 1 <= k < DCTSIZE2 ==> if k <= m then AcLevel(s, block, k, s.Al) > 1 else AcLevel(s, block, k, s.Al) == 0
  }

  lemma {:induction false} CorrectedTail(s: Scan, block: Block, m: nat, k: nat)
    requires |s.order| == DCTSIZE2 && s.Ss == 1 && s.Se == 63 && Corrected(s, block, m) && 1 <= k <= DCTSIZE2
    ensures TailStart(s, block, k) == 1
    ensures |Corrections(s, block, 1, k)| == if k - 1 <= m then k - 1 else m
  {
    hide AcLevel;
    if k > 1 {
      CorrectedTail(s, block, m, k - 1);
      assert k - 1 <= m ==> AcLevel(s, block, k - 1, s.Al) > 1;
    }
  }

  // Such a block has nothing but m correction bits.
  lemma CorrectedCode(s: Scan, block: Block, m: nat)
    requires AcScan(s) && s.Ss == 1 && s.Se == 63 && Corrected(s, block, m) && m <= 63
    ensures var c := RefineCode(s, block); c.head == [] && c.hasTail && |c.tail| == m
  {
    hide AcLevel, ScanOk, Corrected;
    CorrectedTail(s, block, m, DCTSIZE2);
    NoneNewNoTokens(s, block, 1, 0, []);
  }

  // Blocks that only have correction bits pile them up.
  lemma {:induction false} PiledUp(codes: seq<BlockCode>, i: nat)
    requires i <= |codes| && forall j :: 0 <= j < i ==> codes[j].head == [] && codes[j].hasTail && |codes[j].tail| == 63
    requires 63 * i <= MAX_CORR_BITS - DCTSIZE2 + 1
    ensures RunAfter(codes, i).n == i && |RunAfter(codes, i).bits| == 63 * i
  {
    hide Run;
    if i > 0 {
      PiledUp(codes, i - 1);
    }
  }

  // 14 blocks with 63 correction bits and one with 55 leave 937 bits pending, and another block
  // with 63 fills the buffer.
  lemma BufferFilled(s: Scan, codes: seq<BlockCode>, blocks: seq<Block>)
    requires AcScan(s) && s.Ss == 1 && s.Se == 63 && |blocks| == |codes| == 16
    requires forall i :: 0 <= i < 16 ==> codes[i] == RefineCode(s, blocks[i])
    requires forall i :: 0 <= i < 16 ==> Corrected(s, blocks[i], if i == 14 then 55 else 63)
    ensures RunAfter(codes, 15).n == 15 && |RunAfter(codes, 15).bits| == 937
    ensures |RunAfter(codes, 15).bits + codes[15].tail| == MAX_CORR_BITS
  {
    hide Corrected, RefineCode, ScanOk, Run;
    forall i | 0 <= i < 16
      ensures codes[i].head == [] && codes[i].hasTail && |codes[i].tail| == if i == 14 then 55 else 63
    {
      CorrectedCode(s, blocks[i], if i == 14 then 55 else 63);
    }
    PiledUp(codes, 14);
    var r := RunAfter(codes, 14);
    assert RunAfter(codes, 15) == Step(codes[14], r.n, r.bits);
  }

  // Such blocks exist.
  lemma SampleBlock(s: Scan, m: nat) returns (block: Block)
    requires AcScan(s) && s.Al == 0 && m <= 63
    ensures Corrected(s, block, m)
  {
    block := seq(DCTSIZE2, i => if exists k :: 1 <= k <= m && s.order[k] == i then 2 else 0);
    forall k | 1 <= k < DCTSIZE2
      ensures if k <= m then AcLevel(s, block, k, s.Al) > 1 else AcLevel(s, block, k, s.Al) == 0
    {
      assert block[s.order[k]] == if k <= m then 2 else 0;
    }
  }
}
