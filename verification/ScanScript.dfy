// Scan scripts: validation by the compressor (jcmaster.c), the decoder's checks at the start of
// each pass (jdarith.c), and the recommended progressive script (jcparam.c).
module ScanScript {
  import opened ArithScan

  const MAX_AH_AL := 10

  datatype ScanInfo = ScanInfo(comps: seq<int>, Ss: int, Se: int, Ah: int, Al: int)

  // ----- What a script means -----

  predicate Sends(s: ScanInfo, c: int, k: int) {
    c in s.comps && s.Ss <= k <= s.Se
  }

  // The bit down to which coefficient k of component c has been sent by the first n scans, or -1
  function Sent(scans: seq<ScanInfo>, n: nat, c: int, k: int): int
    requires n <= |scans|
  {
    if n == 0 then -1 else if Sends(scans[n - 1], c, k) then scans[n - 1].Al else Sent(scans, n - 1, c, k)
  }

  predicate Follows(s: ScanInfo, bits: int) {
    if bits < 0 then s.Ah == 0 else s.Ah == bits && s.Al == bits - 1
  }

  predicate ComponentsOk(nc: nat, comps: seq<int>) {
    && 1 <= |comps| <= MAX_COMPS_IN_SCAN
    && (forall i :: 0 <= i < |comps| ==> 0 <= comps[i] < nc)
    && forall i, j :: 0 <= i < j < |comps| ==> comps[i] < comps[j]
  }

  predicate SequentialParameters(s: ScanInfo) {
    s.Ss == 0 && s.Se == DCTSIZE2 - 1 && s.Ah == 0 && s.Al == 0
  }

  predicate ProgressiveParameters(s: ScanInfo) {
    && 0 <= s.Ss <= s.Se < DCTSIZE2 && 0 <= s.Ah <= MAX_AH_AL && 0 <= s.Al <= MAX_AH_AL
    && (if s.Ss == 0 then s.Se == 0 else |s.comps| == 1)
  }

  // Every coefficient of scan n continues where the scans before it stopped, and AC comes after DC.
  ghost predicate InOrder(scans: seq<ScanInfo>, n: nat)
    requires n < |scans|
  {
    forall c, k :: Sends(scans[n], c, k) ==>
      Follows(scans[n], Sent(scans, n, c, k)) && (k > 0 ==> Sent(scans, n, c, 0) >= 0)
  }

  ghost predicate Progresses(nc: nat, scans: seq<ScanInfo>, n: nat)
    requires n < |scans|
  {
    ComponentsOk(nc, scans[n].comps) && ProgressiveParameters(scans[n]) && InOrder(scans, n)
  }

  ghost predicate ProgressiveScript(nc: nat, scans: seq<ScanInfo>) {
    && (forall n :: 0 <= n < |scans| ==> Progresses(nc, scans, n))
    && forall c :: 0 <= c < nc ==> Sent(scans, |scans|, c, 0) >= 0
  }

  // Is component c in one of the first n scans?
  predicate InSome(scans: seq<ScanInfo>, n: nat, c: int)
    requires n <= |scans|
  {
    exists m :: 0 <= m < n && c in scans[m].comps
  }

  // Every component is in exactly one scan.
  ghost predicate SequentialScript(nc: nat, scans: seq<ScanInfo>) {
    && (forall n :: 0 <= n < |scans| ==> ComponentsOk(nc, scans[n].comps) && SequentialParameters(scans[n]))
    && (forall c :: 0 <= c < nc ==> InSome(scans, |scans|, c))
    && forall n, c :: 0 <= n < |scans| && c in scans[n].comps ==> !InSome(scans, n, c)
  }

  ghost predicate ValidScript(nc: nat, scans: seq<ScanInfo>) {
    && |scans| > 0
    && if SequentialBand(scans[0]) then SequentialScript(nc, scans) else ProgressiveScript(nc, scans)
  }

  // The first scan decides on the mode.
  predicate SequentialBand(s: ScanInfo) {
    s.Ss == 0 && s.Se == DCTSIZE2 - 1
  }

  // ----- Validation -----

  method CheckComponents(nc: nat, comps: seq<int>) returns (ok: bool)
    ensures ok == ComponentsOk(nc, comps)
  {
    if |comps| <= 0 || |comps| > MAX_COMPS_IN_SCAN {
      return false;
    }
    for ci := 0 to |comps|
      invariant forall i :: 0 <= i < ci ==> 0 <= comps[i] < nc
      invariant forall i, j :: 0 <= i < j < ci ==> comps[i] < comps[j]
    {
      if comps[ci] < 0 || comps[ci] >= nc {
        return false;
      }
      if ci > 0 && comps[ci] <= comps[ci - 1] {
        return false;
      }
    }
    return true;
  }

  // The rows of the table are the components.
  ghost predicate Holds(bits: array2<int>, scans: seq<ScanInfo>, n: nat)
    requires n <= |scans|
    reads bits
  {
    && bits.Length0 == MAX_COMPONENTS && bits.Length1 == DCTSIZE2
    && forall c, k :: 0 <= c < MAX_COMPONENTS && 0 <= k < DCTSIZE2 ==> bits[c, k] == Sent(scans, n, c, k)
  }

  // The requirement on the order of scans, for one component of scan n
  ghost predicate ComponentInOrder(scans: seq<ScanInfo>, n: nat, c: int)
    requires n < |scans|
  {
    && (scans[n].Ss != 0 ==> Sent(scans, n, c, 0) >= 0)
    && forall k :: scans[n].Ss <= k <= scans[n].Se ==> Follows(scans[n], Sent(scans, n, c, k))
  }

  method CheckComponent(bits: array2<int>, s: ScanInfo, c: int) returns (ok: bool)
    requires bits.Length0 == MAX_COMPONENTS && bits.Length1 == DCTSIZE2 && 0 <= c < MAX_COMPONENTS
    requires ProgressiveParameters(s)
    modifies bits
    ensures ok <==> (s.Ss != 0 ==> old(bits[c, 0]) >= 0)
                    && forall k :: s.Ss <= k <= s.Se ==> Follows(s, old(bits[c, k]))
    ensures ok ==> forall c', k :: 0 <= c' < MAX_COMPONENTS && 0 <= k < DCTSIZE2 ==>
                     bits[c', k] == if c' == c && s.Ss <= k <= s.Se then s.Al else old(bits[c', k])
  {
    if s.Ss != 0 && bits[c, 0] < 0 {
      return false;
    }
    for coefi := s.Ss to s.Se + 1
      invariant forall k :: s.Ss <= k < coefi ==> Follows(s, old(bits[c, k]))
      invariant forall c', k :: 0 <= c' < MAX_COMPONENTS && 0 <= k < DCTSIZE2 ==>
                  bits[c', k] == if c' == c && s.Ss <= k < coefi then s.Al else old(bits[c', k])
    {
      if bits[c, coefi] < 0 {
        if s.Ah != 0 {
          return false;
        }
      } else if s.Ah != bits[c, coefi] || s.Al != s.Ah - 1 {
        return false;
      }
      bits[c, coefi] := s.Al;
    }
    return true;
  }

  lemma InOrderByComponent(scans: seq<ScanInfo>, n: nat)
    requires n < |scans| && ProgressiveParameters(scans[n])
    ensures InOrder(scans, n) <==> forall i :: 0 <= i < |scans[n].comps| ==> ComponentInOrder(scans, n, scans[n].comps[i])
  {
    hide Sent;
    var s := scans[n];
    if InOrder(scans, n) {
      forall i | 0 <= i < |s.comps|
        ensures ComponentInOrder(scans, n, s.comps[i])
      {
        assert Sends(s, s.comps[i], s.Ss);
        forall k | s.Ss <= k <= s.Se
          ensures Follows(s, Sent(scans, n, s.comps[i], k))
        {
          assert Sends(s, s.comps[i], k);
        }
      }
    }
  }

  // Scan n of a progressive script
  method CheckOrder(bits: array2<int>, scans: seq<ScanInfo>, n: nat, nc: nat) returns (ok: bool)
    requires n < |scans| && nc <= MAX_COMPONENTS && Holds(bits, scans, n)
    requires ComponentsOk(nc, scans[n].comps) && ProgressiveParameters(scans[n])
    modifies bits
    ensures ok <==> InOrder(scans, n)
    ensures ok ==> Holds(bits, scans, n + 1)
  {
    hide InOrder, Follows;
    InOrderByComponent(scans, n);
    var s := scans[n];
    for ci := 0 to |s.comps|
      invariant forall i :: 0 <= i < ci ==> ComponentInOrder(scans, n, s.comps[i])
      invariant forall c, k :: 0 <= c < MAX_COMPONENTS && 0 <= k < DCTSIZE2 ==>
                  bits[c, k] == if c in s.comps[..ci] && s.Ss <= k <= s.Se then s.Al else Sent(scans, n, c, k)
    {
      assert s.comps[..ci + 1] == s.comps[..ci] + [s.comps[ci]];
      ok := CheckComponent(bits, s, s.comps[ci]);
      if !ok {
        assert !ComponentInOrder(scans, n, s.comps[ci]);
        return;
      }
    }
    assert s.comps[..|s.comps|] == s.comps;
    return true;
  }

  method CheckParameters(s: ScanInfo) returns (ok: bool)
    ensures ok == ProgressiveParameters(s)
  {
    if s.Ss < 0 || s.Ss >= DCTSIZE2 || s.Se < s.Ss || s.Se >= DCTSIZE2 || s.Ah < 0 || s.Ah > MAX_AH_AL
       || s.Al < 0 || s.Al > MAX_AH_AL {
      return false;
    }
    if s.Ss == 0 {
      if s.Se != 0 {
        return false;
      }
    } else {
      if |s.comps| != 1 {
        return false;
      }
    }
    return true;
  }

  // Scan n of a sequential script
  method CheckSequential(sent: array<bool>, scans: seq<ScanInfo>, n: nat, nc: nat) returns (ok: bool)
    requires n < |scans| && nc <= MAX_COMPONENTS == sent.Length && ComponentsOk(nc, scans[n].comps)
    requires forall c :: 0 <= c < MAX_COMPONENTS ==> sent[c] == InSome(scans, n, c)
    modifies sent
    ensures ok <==> SequentialParameters(scans[n]) && forall c :: c in scans[n].comps ==> !InSome(scans, n, c)
    ensures ok ==> forall c :: 0 <= c < MAX_COMPONENTS ==> sent[c] == InSome(scans, n + 1, c)
  {
    var s := scans[n];
    if s.Ss != 0 || s.Se != DCTSIZE2 - 1 || s.Ah != 0 || s.Al != 0 {
      return false;
    }
    NextScan(scans, n);
    hide InSome;
    for ci := 0 to |s.comps|
      invariant forall i :: 0 <= i < ci ==> !InSome(scans, n, s.comps[i])
      invariant forall c :: 0 <= c < MAX_COMPONENTS ==> sent[c] == (c in s.comps[..ci] || InSome(scans, n, c))
    {
      assert s.comps[..ci + 1] == s.comps[..ci] + [s.comps[ci]];
      if sent[s.comps[ci]] {
        return false;
      }
      sent[s.comps[ci]] := true;
    }
    assert s.comps[..|s.comps|] == s.comps;
    return true;
  }

  lemma NextScan(scans: seq<ScanInfo>, n: nat)
    requires n < |scans|
    ensures forall c :: InSome(scans, n + 1, c) <==> c in scans[n].comps || InSome(scans, n, c)
  {
  }

  // A script is accepted if and only if it is valid.
  method ValidateScript(nc: nat, scans: seq<ScanInfo>) returns (accepted: bool, progressive: bool)
    requires 0 < nc <= MAX_COMPONENTS
    ensures accepted <==> ValidScript(nc, scans)
    ensures accepted ==> progressive == !SequentialBand(scans[0])
  {
    progressive := false;
    if |scans| <= 0 {
      return false, progressive;
    }
    if scans[0].Ss != 0 || scans[0].Se != DCTSIZE2 - 1 {
      progressive := true;
      accepted := ValidateProgressive(nc, scans);
    } else {
      accepted := ValidateSequential(nc, scans);
    }
  }

  method ValidateProgressive(nc: nat, scans: seq<ScanInfo>) returns (accepted: bool)
    requires nc <= MAX_COMPONENTS
    ensures accepted <==> ProgressiveScript(nc, scans)
  {
    hide InOrder, ComponentsOk, ProgressiveParameters;
    var lastBitpos := new int[MAX_COMPONENTS, DCTSIZE2]((c, k) => -1);
    for n := 0 to |scans|
      invariant Holds(lastBitpos, scans, n)
      invariant forall m :: 0 <= m < n ==> Progresses(nc, scans, m)
    {
      var ok := CheckComponents(nc, scans[n].comps);
      if ok {
        ok := CheckParameters(scans[n]);
        if ok {
          ok := CheckOrder(lastBitpos, scans, n, nc);
        }
      }
      if !ok {
        assert !Progresses(nc, scans, n);
        return false;
      }
    }
    for ci := 0 to nc
      invariant forall c :: 0 <= c < ci ==> Sent(scans, |scans|, c, 0) >= 0
    {
      if lastBitpos[ci, 0] < 0 {
        return false;
      }
    }
    return true;
  }

  method ValidateSequential(nc: nat, scans: seq<ScanInfo>) returns (accepted: bool)
    requires nc <= MAX_COMPONENTS
    ensures accepted <==> SequentialScript(nc, scans)
  {
    hide ComponentsOk, SequentialParameters;
    var sent := new bool[MAX_COMPONENTS](c => false);
    for n := 0 to |scans|
      invariant forall c :: 0 <= c < MAX_COMPONENTS ==> sent[c] == InSome(scans, n, c)
      invariant forall m :: 0 <= m < n ==> ComponentsOk(nc, scans[m].comps) && SequentialParameters(scans[m])
      invariant forall m, c :: 0 <= m < n && c in scans[m].comps ==> !InSome(scans, m, c)
    {
      var ok := CheckComponents(nc, scans[n].comps);
      if ok {
        ok := CheckSequential(sent, scans, n, nc);
      }
      if !ok {
        return false;
      }
    }
    for ci := 0 to nc
      invariant forall c :: 0 <= c < ci ==> InSome(scans, |scans|, c)
    {
      if !sent[ci] {
        return false;
      }
    }
    return true;
  }

  // ----- The decoder's view -----

  // The start of a progressive pass: an error if the parameters are bad, a warning for every
  // coefficient out of order.
  method StartPass(coefBits: array2<int>, s: ScanInfo) returns (error: bool, warnings: nat)
    requires coefBits.Length0 == MAX_COMPONENTS && coefBits.Length1 == DCTSIZE2
    requires 0 <= s.Ss && 0 <= s.Se && 0 <= s.Ah && 0 <= s.Al && 1 <= |s.comps|
    requires forall i :: 0 <= i < |s.comps| ==> 0 <= s.comps[i] < MAX_COMPONENTS
    requires forall i, j :: 0 <= i < j < |s.comps| ==> s.comps[i] != s.comps[j]
    modifies coefBits
    ensures error <==> !AcceptedByDecoder(s)
    ensures !error ==>
      (warnings == 0 <==> forall i :: 0 <= i < |s.comps| ==>
         (s.Ss > 0 ==> old(coefBits[s.comps[i], 0]) >= 0)
         && forall k :: s.Ss <= k <= s.Se ==> s.Ah == Expected(old(coefBits[s.comps[i], k])))
    ensures !error ==> forall c, k :: 0 <= c < MAX_COMPONENTS && 0 <= k < DCTSIZE2 ==>
                         coefBits[c, k] == if Sends(s, c, k) then s.Al else old(coefBits[c, k])
  {
    warnings := 0;
    error := true;
    if s.Ss == 0 {
      if s.Se != 0 {
        return;
      }
    } else {
      if s.Se < s.Ss || s.Se > DCTSIZE2 - 1 {
        return;
      }
      if |s.comps| != 1 {
        return;
      }
    }
    if s.Ah != 0 && s.Ah - 1 != s.Al {
      return;
    }
    if s.Al > 13 {
      return;
    }
    error := false;
    for ci := 0 to |s.comps|
      invariant warnings == 0 <==> forall i :: 0 <= i < ci ==>
                  (s.Ss > 0 ==> old(coefBits[s.comps[i], 0]) >= 0)
                  && forall k :: s.Ss <= k <= s.Se ==> s.Ah == Expected(old(coefBits[s.comps[i], k]))
      invariant forall c, k :: 0 <= c < MAX_COMPONENTS && 0 <= k < DCTSIZE2 ==>
                  coefBits[c, k] == if c in s.comps[..ci] && s.Ss <= k <= s.Se then s.Al else old(coefBits[c, k])
    {
      assert s.comps[..ci + 1] == s.comps[..ci] + [s.comps[ci]];
      var w := StartComponent(coefBits, s, s.comps[ci]);
      warnings := warnings + w;
    }
    assert s.comps[..|s.comps|] == s.comps;
  }

  predicate AcceptedByDecoder(s: ScanInfo) {
    && (if s.Ss == 0 then s.Se == 0 else s.Ss <= s.Se < DCTSIZE2 && |s.comps| == 1)
    && (s.Ah != 0 ==> s.Ah == s.Al + 1)
    && s.Al <= 13
  }

  function Expected(bits: int): int {
    if bits < 0 then 0 else bits
  }

  method StartComponent(coefBits: array2<int>, s: ScanInfo, c: int) returns (warnings: nat)
    requires coefBits.Length0 == MAX_COMPONENTS && coefBits.Length1 == DCTSIZE2 && 0 <= c < MAX_COMPONENTS
    requires 0 <= s.Ss <= s.Se < DCTSIZE2
    modifies coefBits
    ensures warnings == 0 <==> (s.Ss > 0 ==> old(coefBits[c, 0]) >= 0)
                               && forall k :: s.Ss <= k <= s.Se ==> s.Ah == Expected(old(coefBits[c, k]))
    ensures forall c', k :: 0 <= c' < MAX_COMPONENTS && 0 <= k < DCTSIZE2 ==>
              coefBits[c', k] == if c' == c && s.Ss <= k <= s.Se then s.Al else old(coefBits[c', k])
  {
    warnings := 0;
    if s.Ss != 0 && coefBits[c, 0] < 0 {
      warnings := warnings + 1;
    }
    for coefi := s.Ss to s.Se + 1
      invariant warnings == 0 <==> (s.Ss > 0 ==> old(coefBits[c, 0]) >= 0)
                                   && forall k :: s.Ss <= k < coefi ==> s.Ah == Expected(old(coefBits[c, k]))
      invariant forall c', k :: 0 <= c' < MAX_COMPONENTS && 0 <= k < DCTSIZE2 ==>
                  coefBits[c', k] == if c' == c && s.Ss <= k < coefi then s.Al else old(coefBits[c', k])
    {
      var expected := if coefBits[c, coefi] < 0 then 0 else coefBits[c, coefi];
      if s.Ah != expected {
        warnings := warnings + 1;
      }
      coefBits[c, coefi] := s.Al;
    }
  }

  // A decoder that reads the scans of a valid progressive script finds no error and nothing to
  // warn about, and knows at any time what the compressor has sent.
  method DecodeScript(nc: nat, scans: seq<ScanInfo>, coefBits: array2<int>) returns (error: bool, warnings: nat)
    requires nc <= MAX_COMPONENTS && ProgressiveScript(nc, scans) && Holds(coefBits, scans, 0)
    modifies coefBits
    ensures !error && warnings == 0 && Holds(coefBits, scans, |scans|)
  {
    error, warnings := false, 0;
    for n := 0 to |scans|
      invariant !error && warnings == 0 && Holds(coefBits, scans, n)
    {
      assert Progresses(nc, scans, n);
      var s := scans[n];
      Accepted(nc, scans, n);
      var e, w := StartPass(coefBits, s);
      error := error || e;
      warnings := warnings + w;
    }
  }

  lemma Accepted(nc: nat, scans: seq<ScanInfo>, n: nat)
    requires n < |scans| && nc <= MAX_COMPONENTS && Progresses(nc, scans, n)
    ensures AcceptedByDecoder(scans[n])
    ensures forall i :: 0 <= i < |scans[n].comps| ==> ComponentInOrder(scans, n, scans[n].comps[i])
  {
    hide Sent;
    InOrderByComponent(scans, n);
    var s := scans[n];
    assert ComponentInOrder(scans, n, s.comps[0]);
    assert Follows(s, Sent(scans, n, s.comps[0], s.Ss));
  }
}
