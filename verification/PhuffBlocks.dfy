// The code of single blocks in progressive Huffman scans of AC coefficients: figures G.3 and
// G.7 of ITU-T T.81, as jcphuff.c makes it, and in the order in which jdphuff.c takes it.
module PhuffBlocks {
  import opened Arithmetic
  import opened BitFields
  import opened BitStrings
  import opened ArithScan
  import opened HuffmanBlock
  import opened HuffmanStatistics
  import opened PhuffTokens

  // A scan of an AC band
  ghost predicate AcScan(s: Scan) {
    ScanOk(s) && s.progressive && |s.order| == DCTSIZE2 && 0 < s.Ss <= s.Se < DCTSIZE2
  }

  // ----- First scans -----

  // The coefficient at position k after the point transform
  function Shifted(s: Scan, block: Block, k: nat): (v: int)
    requires |s.order| == DCTSIZE2 && k < DCTSIZE2
    ensures Abs(v) == AcLevel(s, block, k, s.Al)
  {
    if AtZigzag(s, block, k) < 0 then 0 - AcLevel(s, block, k, s.Al) else AcLevel(s, block, k, s.Al)
  }

  // No coefficient of the band has too many bits.
  predicate Codable(s: Scan, block: Block)
    requires |s.order| == DCTSIZE2 && s.Se < DCTSIZE2
  {
    forall k :: s.Ss <= k <= s.Se ==> NBits(AcLevel(s, block, k, s.Al)) <= MAX_COEF_BITS
  }

  // All coefficients from position k on are zero.
  predicate NoneLeft(s: Scan, block: Block, k: nat)
    requires |s.order| == DCTSIZE2 && s.Se < DCTSIZE2
  {
    forall i :: k <= i <= s.Se ==> AcLevel(s, block, i, s.Al) == 0
  }

  lemma CodableRange(s: Scan, block: Block, k: nat)
    requires |s.order| == DCTSIZE2 && s.Ss <= k <= s.Se < DCTSIZE2 && Codable(s, block)
    ensures InRange(Shifted(s, block, k)) && NBits(AcLevel(s, block, k, s.Al)) <= MAX_COEF_BITS
  {
    hide NBits, AcLevel, AtZigzag;
    var n := NBits(AcLevel(s, block, k, s.Al));
    ScaleMonotonic(1, 1, n);
    ScaleTwice(1, n, 11 - n);
    ScaleValues(1);
  }

  // The tokens of the coefficients from position k on, after r zeros
  function FirstTokens(s: Scan, block: Block, k: nat, r: nat): seq<Token>
    requires |s.order| == DCTSIZE2 && s.Ss <= k && s.Se < DCTSIZE2 && Codable(s, block)
    decreases DCTSIZE2 - k, r
  {
    if k > s.Se then []
    else
      var v := Shifted(s, block, k);
      CodableRange(s, block, k);
      if v == 0 then FirstTokens(s, block, k + 1, r + 1)
      else if r > 15 then [Sym(0xF0)] + FirstTokens(s, block, k, r - 16)
      else
        [Sym(RunSize(r, v))] + RawTokens(BitsOf(Extra(v), NBits(Abs(v)))) + FirstTokens(s, block, k + 1, 0)
  }

  function FirstCode(s: Scan, block: Block): BlockCode
    requires |s.order| == DCTSIZE2 && s.Se < DCTSIZE2 && Codable(s, block)
  {
    BlockCode(FirstTokens(s, block, s.Ss, 0), AcLevel(s, block, s.Se, s.Al) == 0, [])
  }

  lemma {:induction false} NoneLeftNoTokens(s: Scan, block: Block, k: nat, r: nat)
    requires |s.order| == DCTSIZE2 && s.Ss <= k && s.Se < DCTSIZE2 && Codable(s, block)
    ensures FirstTokens(s, block, k, r) == [] <==> NoneLeft(s, block, k)
    decreases DCTSIZE2 - k
  {
    hide AcLevel, AtZigzag, NBits, Extra;
    if k <= s.Se && Shifted(s, block, k) == 0 {
      NoneLeftNoTokens(s, block, k + 1, r + 1);
    } else if k <= s.Se {
      assert AcLevel(s, block, k, s.Al) != 0;
    }
  }

  lemma FirstCodeOk(s: Scan, block: Block)
    requires AcScan(s) && Codable(s, block)
    ensures CodeOk(FirstCode(s, block))
  {
    hide AcLevel, AtZigzag, NBits, Extra;
    NoneLeftNoTokens(s, block, s.Ss, 0);
  }

  lemma {:induction false} FirstZeros(s: Scan, block: Block, k: nat, n: nat, r: nat)
    requires |s.order| == DCTSIZE2 && s.Ss <= k <= n <= s.Se + 1 && s.Se < DCTSIZE2 && Codable(s, block)
    requires forall i :: k <= i < n ==> AcLevel(s, block, i, s.Al) == 0
    ensures FirstTokens(s, block, k, r) == FirstTokens(s, block, n, r + (n - k))
    decreases n - k
  {
    hide AcLevel, AtZigzag, NBits, Extra, Codable;
    if k < n {
      assert Shifted(s, block, k) == 0;
      FirstZeros(s, block, k + 1, n, r + 1);
    }
  }

  // The first nonzero position from k on
  function NextLevel(s: Scan, block: Block, k: nat): (n: nat)
    requires |s.order| == DCTSIZE2 && s.Se < DCTSIZE2
    ensures k <= s.Se + 1 ==> k <= n <= s.Se + 1
    ensures n <= s.Se ==> AcLevel(s, block, n, s.Al) != 0
    ensures forall i :: k <= i < n && i <= s.Se ==> AcLevel(s, block, i, s.Al) == 0
    decreases DCTSIZE2 - k
  {
    if k > s.Se || AcLevel(s, block, k, s.Al) != 0 then k else NextLevel(s, block, k + 1)
  }

  // The next symbol, in the order in which it is decoded, and what is behind it
  lemma NextFirst(s: Scan, block: Block, k: nat) returns (n: nat)
    requires |s.order| == DCTSIZE2 && s.Ss <= k <= s.Se < DCTSIZE2 && Codable(s, block)
    ensures n == NextLevel(s, block, k)
    ensures n > s.Se ==> FirstTokens(s, block, k, 0) == []
    ensures n <= s.Se && n - k > 15 ==> FirstTokens(s, block, k, 0) == [Sym(0xF0)] + FirstTokens(s, block, k + 16, 0)
    ensures n <= s.Se && n - k <= 15 ==>
              var v := Shifted(s, block, n);
              InRange(v) && v != 0
              && FirstTokens(s, block, k, 0)
                 == [Sym(RunSize(n - k, v))] + RawTokens(BitsOf(Extra(v), NBits(Abs(v)))) + FirstTokens(s, block, n + 1, 0)
  {
    hide AcLevel, AtZigzag, NBits, Extra, Codable, RawTokens, BitsOf, RunSize;
    n := NextLevel(s, block, k);
    FirstZeros(s, block, k, n, 0);
    if n <= s.Se {
      CodableRange(s, block, n);
      if n - k > 15 {
        FirstZeros(s, block, k + 16, n, 0);
      }
    }
  }

  // ----- Refinement scans -----

  // No coefficient from position k on becomes nonzero.
  predicate NoneNew(s: Scan, block: Block, k: nat)
    requires |s.order| == DCTSIZE2 && s.Se < DCTSIZE2
  {
    forall i :: k <= i <= s.Se ==> AcLevel(s, block, i, s.Al) != 1
  }

  function Positive(s: Scan, block: Block, k: nat): bool
    requires |s.order| == DCTSIZE2 && k < DCTSIZE2
  {
    AtZigzag(s, block, k) >= 0
  }

  // The tokens up to the last coefficient that becomes nonzero, from position k on, after r
  // zeros and with these correction bits to be sent behind the next symbol
  function RefineTokens(s: Scan, block: Block, k: nat, r: nat, br: Bits): seq<Token>
    requires |s.order| == DCTSIZE2 && s.Se < DCTSIZE2
    decreases DCTSIZE2 - k, r
  {
    if k > s.Se || NoneNew(s, block, k) then []
    else
      var a := AcLevel(s, block, k, s.Al);
      if a == 0 then RefineTokens(s, block, k + 1, r + 1, br)
      else if r > 15 then [Sym(0xF0)] + RawTokens(br) + RefineTokens(s, block, k, r - 16, [])
      else if a > 1 then RefineTokens(s, block, k + 1, r, br + [a % 2 == 1])
      else [Sym(16 * r + 1), Raw(Positive(s, block, k))] + RawTokens(br) + RefineTokens(s, block, k + 1, 0, [])
  }

  // Correction bits of the coefficients from position k up to j
  function Corrections(s: Scan, block: Block, k: nat, j: nat): (bits: Bits)
    requires |s.order| == DCTSIZE2 && k <= j <= DCTSIZE2
    ensures |bits| <= j - k
    decreases j
  {
    if k == j then []
    else
      var a := AcLevel(s, block, j - 1, s.Al);
      Corrections(s, block, k, j - 1) + if a > 1 then [a % 2 == 1] else []
  }

  // The position behind the last coefficient before k that becomes nonzero
  function TailStart(s: Scan, block: Block, k: nat): (t: nat)
    requires |s.order| == DCTSIZE2 && s.Ss <= k <= s.Se + 1 <= DCTSIZE2
    ensures s.Ss <= t <= k && (forall i :: t <= i < k ==> AcLevel(s, block, i, s.Al) != 1)
    ensures t > s.Ss ==> AcLevel(s, block, t - 1, s.Al) == 1
    decreases k
  {
    if k == s.Ss || AcLevel(s, block, k - 1, s.Al) == 1 then k else TailStart(s, block, k - 1)
  }

  function RefineCode(s: Scan, block: Block): BlockCode
    requires |s.order| == DCTSIZE2 && s.Ss <= s.Se < DCTSIZE2
  {
    var t := TailStart(s, block, s.Se + 1);
    BlockCode(RefineTokens(s, block, s.Ss, 0, []), t <= s.Se, Corrections(s, block, t, s.Se + 1))
  }

  lemma {:induction false} NoneNewNoTokens(s: Scan, block: Block, k: nat, r: nat, br: Bits)
    requires |s.order| == DCTSIZE2 && s.Se < DCTSIZE2
    ensures RefineTokens(s, block, k, r, br) == [] <==> NoneNew(s, block, k)
    decreases DCTSIZE2 - k
  {
    hide AcLevel, AtZigzag;
    if k <= s.Se && !NoneNew(s, block, k) {
      var a := AcLevel(s, block, k, s.Al);
      if a == 0 {
        NoneNewNoTokens(s, block, k + 1, r + 1, br);
      } else if r <= 15 && a > 1 {
        NoneNewNoTokens(s, block, k + 1, r, br + [a % 2 == 1]);
      }
    }
  }

  lemma RefineCodeOk(s: Scan, block: Block)
    requires AcScan(s)
    ensures CodeOk(RefineCode(s, block))
  {
    hide AcLevel, AtZigzag;
    NoneNewNoTokens(s, block, s.Ss, 0, []);
  }

  // More than 15 zeros: a symbol of its own, wherever the next nonzero coefficient is
  lemma {:induction false} LongRun(s: Scan, block: Block, k: nat, r: nat, br: Bits)
    requires |s.order| == DCTSIZE2 && s.Se < DCTSIZE2 && k <= s.Se && !NoneNew(s, block, k) && r > 15
    ensures RefineTokens(s, block, k, r, br) == [Sym(0xF0)] + RawTokens(br) + RefineTokens(s, block, k, r - 16, [])
    decreases DCTSIZE2 - k
  {
    hide AcLevel, AtZigzag;
    if AcLevel(s, block, k, s.Al) == 0 {
      LongRun(s, block, k + 1, r + 1, br);
    }
  }

  // Where the decoder's advance from position k, which passes r more zeros... stops: at the
  // coefficient that becomes nonzero, or at the sixteenth zero
  function Target(s: Scan, block: Block, k: nat, r: nat): (p: nat)
    requires |s.order| == DCTSIZE2 && s.Se < DCTSIZE2 && k <= s.Se && !NoneNew(s, block, k) && r <= 15
    ensures k <= p <= s.Se && AcLevel(s, block, p, s.Al) <= 1
    decreases DCTSIZE2 - k
  {
    var a := AcLevel(s, block, k, s.Al);
    if a == 1 || (a == 0 && r == 15) then k
    else Target(s, block, k + 1, if a == 0 then r + 1 else r)
  }

  // The zeros passed before the target
  function Passed(s: Scan, block: Block, k: nat, r: nat): (q: nat)
    requires |s.order| == DCTSIZE2 && s.Se < DCTSIZE2 && k <= s.Se && !NoneNew(s, block, k) && r <= 15
    ensures r <= q <= 15
    decreases DCTSIZE2 - k
  {
    var a := AcLevel(s, block, k, s.Al);
    if a == 1 || (a == 0 && r == 15) then r
    else Passed(s, block, k + 1, if a == 0 then r + 1 else r)
  }

  // The symbol for the target, with the sign of a new coefficient
  function TargetTokens(s: Scan, block: Block, p: nat, q: nat): seq<Token>
    requires |s.order| == DCTSIZE2 && p < DCTSIZE2 && q <= 15
  {
    if AcLevel(s, block, p, s.Al) == 1 then [Sym(16 * q + 1), Raw(Positive(s, block, p))] else [Sym(0xF0)]
  }

  lemma CorrectionsFrom(s: Scan, block: Block, k: nat, j: nat)
    requires |s.order| == DCTSIZE2 && k < j <= DCTSIZE2
    ensures var a := AcLevel(s, block, k, s.Al);
            Corrections(s, block, k, j) == (if a > 1 then [a % 2 == 1] else []) + Corrections(s, block, k + 1, j)
    decreases j
  {
    hide AcLevel;
    if k + 1 < j {
      CorrectionsFrom(s, block, k, j - 1);
    }
  }

  // The target itself: a new coefficient or the sixteenth zero
  lemma AtTarget(s: Scan, block: Block, k: nat, r: nat, br: Bits)
    requires |s.order| == DCTSIZE2 && s.Se < DCTSIZE2 && k <= s.Se && !NoneNew(s, block, k) && r <= 15
    requires var a := AcLevel(s, block, k, s.Al); a == 1 || (a == 0 && r == 15)
    ensures Target(s, block, k, r) == k && Passed(s, block, k, r) == r
    ensures RefineTokens(s, block, k, r, br) == TargetTokens(s, block, k, r) + RawTokens(br) + RefineTokens(s, block, k + 1, 0, [])
    ensures AcLevel(s, block, k, s.Al) == 0 ==> !NoneNew(s, block, k + 1)
  {
    hide AcLevel, AtZigzag, RawTokens;
    if AcLevel(s, block, k, s.Al) == 0 {
      LongRun(s, block, k + 1, 16, br);
    }
  }

  // A coefficient on the way to the target: one more zero, or one more correction bit
  lemma BeforeTarget(s: Scan, block: Block, k: nat, r: nat, br: Bits)
    requires |s.order| == DCTSIZE2 && s.Se < DCTSIZE2 && k <= s.Se && !NoneNew(s, block, k) && r <= 15
    requires var a := AcLevel(s, block, k, s.Al); a > 1 || (a == 0 && r < 15)
    ensures var a := AcLevel(s, block, k, s.Al);
            var r', br' := if a == 0 then r + 1 else r, br + if a > 1 then [a % 2 == 1] else [];
            && k < s.Se && !NoneNew(s, block, k + 1)
            && RefineTokens(s, block, k, r, br) == RefineTokens(s, block, k + 1, r', br')
            && Target(s, block, k, r) == Target(s, block, k + 1, r') && Passed(s, block, k, r) == Passed(s, block, k + 1, r')
  {
    hide AcLevel, AtZigzag, RawTokens;
    assert br + [] == br;
  }

  // What is next in the order in which it is decoded: the symbol for the target, and the
  // correction bits of the coefficients that are passed on the way to it
  lemma {:induction false} NextRefine(s: Scan, block: Block, k: nat, r: nat, br: Bits)
    requires |s.order| == DCTSIZE2 && s.Se < DCTSIZE2 && k <= s.Se && !NoneNew(s, block, k) && r <= 15
    ensures var p, q := Target(s, block, k, r), Passed(s, block, k, r);
            RefineTokens(s, block, k, r, br)
            == TargetTokens(s, block, p, q) + RawTokens(br + Corrections(s, block, k, p)) + RefineTokens(s, block, p + 1, 0, [])
    ensures var p := Target(s, block, k, r); AcLevel(s, block, p, s.Al) == 0 ==> Passed(s, block, k, r) == 15 && !NoneNew(s, block, p + 1)
    decreases DCTSIZE2 - k
  {
    hide AcLevel, AtZigzag, RawTokens, RefineTokens, Target, Passed, NoneNew, TargetTokens;
    var a := AcLevel(s, block, k, s.Al);
    if a == 1 || (a == 0 && r == 15) {
      AtTarget(s, block, k, r, br);
      assert br + Corrections(s, block, k, k) == br;
    } else {
      BeforeTarget(s, block, k, r, br);
      var bit := if a > 1 then [a % 2 == 1] else [];
      var p := Target(s, block, k, r);
      NextRefine(s, block, k + 1, if a == 0 then r + 1 else r, br + bit);
      hide Corrections;
      CorrectionsFrom(s, block, k, p);
      Associative(br, bit, Corrections(s, block, k + 1, p));
    }
  }
}
