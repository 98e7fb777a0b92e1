/**
 * Multi-scan scripts: the check of jcmaster.c (validate_script) and the recommended progressive
 * script of jcparam.c (jpeg_simple_progression).
 */
module ScanScript {
  import opened JpegLimits

  datatype ScanInfo = ScanInfo(comps: seq<int>, ss: int, se: int, ah: int, al: int)

  type Script = seq<ScanInfo>

  // ---- what a script sends

  /** The scan carries coefficient `k` of component `ci`. */
  predicate Covers(s: ScanInfo, ci: int, k: int) {
    ci in s.comps && s.ss <= k <= s.se
  }

  /** The bits left unsent of a coefficient after the first `n` scans, or -1 before its first scan. */
  function LastBit(script: Script, n: nat, ci: int, k: int): int
    requires n <= |script|
  {
    if n == 0 then -1
    else if Covers(script[n - 1], ci, k) then script[n - 1].al
    else LastBit(script, n - 1, ci, k)
  }

  /** How many of the first `n` scans carry the coefficient. */
  function Times(script: Script, n: nat, ci: int, k: int): nat
    requires n <= |script|
  {
    if n == 0 then 0 else Times(script, n - 1, ci, k) + (if Covers(script[n - 1], ci, k) then 1 else 0)
  }

  /** Components of the image, in the order of the frame header. */
  predicate CompsOk(s: ScanInfo, ncomps: int) {
    0 < |s.comps| <= MAX_COMPS_IN_SCAN &&
    forall i :: 0 <= i < |s.comps| ==> 0 <= s.comps[i] < ncomps && (i > 0 ==> s.comps[i - 1] < s.comps[i])
  }

  /** DC alone, or AC coefficients of one component. */
  predicate BandOk(s: ScanInfo) {
    0 <= s.ss <= s.se < DCTSIZE2 && 0 <= s.ah <= 13 && 0 <= s.al <= 13 &&
    if s.ss == 0 then s.se == 0 else |s.comps| == 1
  }

  /** A first scan leaves no bits above it unsent; every later one sends exactly the next bit. */
  predicate Follows(s: ScanInfo, last: int) {
    if last < 0 then s.ah == 0 else s.ah == last && s.al == s.ah - 1
  }

  predicate CoefOk(script: Script, n: nat, ci: int, k: int)
    requires n < |script|
  {
    Covers(script[n], ci, k) ==> Follows(script[n], LastBit(script, n, ci, k))
  }

  /** A scan fits those before it: every coefficient it carries is due, and DC comes before AC. */
  ghost predicate Due(script: Script, n: nat)
    requires n < |script|
  {
    (forall ci: int, k: int {:trigger CoefOk(script, n, ci, k)} :: CoefOk(script, n, ci, k)) &&
    (script[n].ss != 0 ==> forall i :: 0 <= i < |script[n].comps| ==> LastBit(script, n, script[n].comps[i], 0) >= 0)
  }

  ghost predicate ProgressiveScanOk(script: Script, n: nat, ncomps: int)
    requires n < |script|
  {
    CompsOk(script[n], ncomps) && BandOk(script[n]) && Due(script, n)
  }

  /** A sequential scan carries components none of which has been sent. */
  predicate SequentialScanOk(script: Script, n: nat, ncomps: int)
    requires n < |script|
  {
    var s := script[n];
    CompsOk(s, ncomps) && s.ss == 0 && s.se == DCTSIZE2 - 1 && s.ah == 0 && s.al == 0 &&
    forall i :: 0 <= i < |s.comps| ==> Times(script, n, s.comps[i], 0) == 0
  }

  predicate IsProgressive(script: Script)
    requires script != []
  {
    script[0].ss != 0 || script[0].se != DCTSIZE2 - 1
  }

  ghost predicate ScanOk(script: Script, n: nat, ncomps: int)
    requires n < |script|
  {
    if IsProgressive(script) then ProgressiveScanOk(script, n, ncomps) else SequentialScanOk(script, n, ncomps)
  }

  ghost predicate AllOk(script: Script, n: nat, ncomps: int)
    requires n <= |script|
  {
    forall i: nat :: i < n ==> ScanOk(script, i, ncomps)
  }

  /** DC data of every component is sent, or every component is. */
  predicate Complete(script: Script, ncomps: int) {
    forall ci :: 0 <= ci < ncomps ==> Times(script, |script|, ci, 0) > 0
  }

  ghost predicate Acceptable(script: Script, ncomps: int) {
    script != [] && AllOk(script, |script|, ncomps) && Complete(script, ncomps)
  }

  lemma {:induction false} SentIsCovered(script: Script, n: nat, ncomps: int, ci: int, k: int)
    requires n <= |script| && forall i: nat :: i < n ==> script[i].al >= 0
    ensures LastBit(script, n, ci, k) >= 0 <==> Times(script, n, ci, k) > 0
    ensures LastBit(script, n, ci, k) >= -1
  {
    if n > 0 { SentIsCovered(script, n - 1, ncomps, ci, k); }
  }

  // ---- what acceptance means

  /** The scan that first carries a coefficient, if one of the first `n` does. */
  function FirstScan(script: Script, n: nat, ci: int, k: int): (f: nat)
    requires n <= |script| && Times(script, n, ci, k) > 0
    ensures f < n && Covers(script[f], ci, k) && Times(script, f, ci, k) == 0
  {
    if Times(script, n - 1, ci, k) > 0 then FirstScan(script, n - 1, ci, k) else n - 1
  }

  /** In an accepted progressive script every coefficient sent at all is sent by a first scan with
      Ah = 0 and then by refinements of one bit each: with `m` scans, m - 1 bits less are left. */
  lemma {:induction false} RefinedBitByBit(script: Script, n: nat, ncomps: int, ci: int, k: int)
    requires script != [] && n <= |script| && IsProgressive(script) && AllOk(script, n, ncomps) &&
             Times(script, n, ci, k) > 0
    ensures var f := FirstScan(script, n, ci, k);
            script[f].ah == 0 && LastBit(script, n, ci, k) == script[f].al - (Times(script, n, ci, k) - 1) >= 0
  {
    assert ScanOk(script, n - 1, ncomps) && CoefOk(script, n - 1, ci, k);
    if Times(script, n - 1, ci, k) > 0 {
      RefinedBitByBit(script, n - 1, ncomps, ci, k);
    } else {
      BitsNotNegative(script, n - 1, ncomps);
      SentIsCovered(script, n - 1, ncomps, ci, k);
    }
  }

  lemma BitsNotNegative(script: Script, n: nat, ncomps: int)
    requires script != [] && n <= |script| && AllOk(script, n, ncomps)
    ensures forall i: nat :: i < n ==> script[i].al >= 0
  {
    forall i: nat | i < n
      ensures script[i].al >= 0
    {
      assert ScanOk(script, i, ncomps);
    }
  }

  /** In an accepted sequential script every coefficient of every component is sent exactly once. */
  lemma SentOnce(script: Script, ncomps: int, ci: int, k: int)
    requires Acceptable(script, ncomps) && !IsProgressive(script) && 0 <= ci < ncomps && 0 <= k < DCTSIZE2
    ensures Times(script, |script|, ci, k) == 1
  {
    SentAtMostOnce(script, |script|, ncomps, ci, k);
  }

  lemma {:induction false} SentAtMostOnce(script: Script, n: nat, ncomps: int, ci: int, k: int)
    requires script != [] && n <= |script| && AllOk(script, n, ncomps) && !IsProgressive(script) && 0 <= k < DCTSIZE2
    ensures Times(script, n, ci, k) == Times(script, n, ci, 0) <= 1
  {
    if n > 0 {
      SentAtMostOnce(script, n - 1, ncomps, ci, k);
      assert ScanOk(script, n - 1, ncomps);
    }
  }

  // ---- validate_script

  datatype Verdict =
    | Valid(progressive: bool)
    | ComponentCount(n: int)
    | BadScanScript(scan: nat)
    | BadProgScript(scan: nat)
    | MissingData

  /** The scan an error names; 0 for the script as a whole. */
  function Culprit(v: Verdict): nat {
    match v
    case BadScanScript(n) => n
    case BadProgScript(n) => n
    case _ => 0
  }

  class Checker {
    const ncomps: nat
    const script: Script
    const lastBitpos: array2<int>
    const componentSent: array<bool>
    var progressive: bool

    predicate Ready()
      reads this
    {
      lastBitpos.Length0 == ncomps && lastBitpos.Length1 == DCTSIZE2 && componentSent.Length == ncomps && script != []
    }

    constructor (ncomps: nat, script: Script)
      requires script != []
      ensures Ready() && this.ncomps == ncomps && this.script == script && progressive == IsProgressive(script) &&
              Table(0) && Sent(0)
      ensures fresh(lastBitpos) && fresh(componentSent)
    {
      this.ncomps, this.script := ncomps, script;
      lastBitpos := new int[ncomps, DCTSIZE2]((i, j) => -1);
      componentSent := new bool[ncomps](_ => false);
      progressive := script[0].ss != 0 || script[0].se != DCTSIZE2 - 1;
    }

    /** The tables show what the first `n` scans have sent. */
    predicate Table(n: nat)
      requires Ready() && n <= |script|
      reads this, lastBitpos
    {
      forall ci, k :: 0 <= ci < ncomps && 0 <= k < DCTSIZE2 ==> lastBitpos[ci, k] == LastBit(script, n, ci, k)
    }

    predicate Sent(n: nat)
      requires Ready() && n <= |script|
      reads this, componentSent
    {
      forall ci :: 0 <= ci < ncomps ==> componentSent[ci] == (Times(script, n, ci, 0) > 0)
    }

    /** Component indexes of scan `n`. */
    method CheckComps(n: nat) returns (v: Verdict)
      requires Ready() && n < |script|
      ensures v.Valid? <==> CompsOk(script[n], ncomps)
      ensures !v.Valid? ==> v == ComponentCount(|script[n].comps|) || v == BadScanScript(n + 1)
    {
      var s := script[n];
      v := Valid(progressive);
      if |s.comps| <= 0 || |s.comps| > MAX_COMPS_IN_SCAN { return ComponentCount(|s.comps|); }
      for ci := 0 to |s.comps|
        invariant forall i :: 0 <= i < ci ==> 0 <= s.comps[i] < ncomps && (i > 0 ==> s.comps[i - 1] < s.comps[i])
      {
        var thisi := s.comps[ci];
        if thisi < 0 || thisi >= ncomps { return BadScanScript(n + 1); }
        if ci > 0 && thisi <= s.comps[ci - 1] { return BadScanScript(n + 1); }
      }
    }

    /** Progression parameters of scan `n`, and the table brought up to date. */
    method CheckProgressive(n: nat) returns (ok: bool)
      requires Ready() && n < |script| && Table(n) && CompsOk(script[n], ncomps)
      modifies lastBitpos
      ensures ok <==> BandOk(script[n]) && Due(script, n)
      ensures ok ==> Table(n + 1)
    {
      var s := script[n];
      if s.ss < 0 || s.ss >= DCTSIZE2 || s.se < s.ss || s.se >= DCTSIZE2 || s.ah < 0 || s.ah > 13 || s.al < 0 ||
      s.al > 13 { return false; }
      if s.ss == 0 {
        if s.se != 0 { return false; }
      } else {
        if |s.comps| != 1 { return false; }
      }
      ok := true;
      var ci := 0;
      while ci < |s.comps|
        invariant 0 <= ci <= |s.comps| && ok && Partly(n, ci, s.ss)
        invariant forall i :: 0 <= i < ci ==> ColumnOk(n, s.comps[i], s.se + 1)
      {
        ok := CheckComponent(n, ci);
        if !ok { return; }
        ci := ci + 1;
      }
      AllDue(n);
    }

    /** The table shows scan `n` for its first `ci` components and, of the next, below rank `k`. */
    predicate Partly(n: nat, ci: nat, k: int)
      requires Ready() && n < |script| && ci <= |script[n].comps|
      reads this, lastBitpos
    {
      forall c, j :: 0 <= c < ncomps && 0 <= j < DCTSIZE2 ==>
        lastBitpos[c, j] == if InPart(script[n], ci, k, c, j) then script[n].al else LastBit(script, n, c, j)
    }

    predicate InPart(s: ScanInfo, ci: nat, k: int, c: int, j: int)
      requires ci <= |s.comps|
    {
      (c in s.comps[..ci] && s.ss <= j <= s.se) || (ci < |s.comps| && c == s.comps[ci] && s.ss <= j < k)
    }

    /** The coefficients of a component below rank `k` are due, DC before AC. */
    predicate ColumnOk(n: nat, c: int, k: int)
      requires n < |script|
    {
      (script[n].ss != 0 ==> LastBit(script, n, c, 0) >= 0) &&
      forall j :: script[n].ss <= j < k ==> Follows(script[n], LastBit(script, n, c, j))
    }

    method CheckComponent(n: nat, ci: nat) returns (ok: bool)
      requires Ready() && n < |script| && CompsOk(script[n], ncomps) && BandOk(script[n]) && ci < |script[n].comps| &&
               Partly(n, ci, script[n].ss)
      modifies lastBitpos
      ensures ok ==> Partly(n, ci + 1, script[n].ss) && ColumnOk(n, script[n].comps[ci], script[n].se + 1)
      ensures !ok ==> !Due(script, n)
    {
      var s := script[n];
      var c := s.comps[ci];
      NotBefore(s, ci);
      if s.ss != 0 && lastBitpos[c, 0] < 0 { return false; }
      ok := true;
      for coefi := s.ss to s.se + 1
        invariant Partly(n, ci, coefi) && ColumnOk(n, c, coefi)
      {
        if lastBitpos[c, coefi] < 0 {
          if s.ah != 0 {
            assert !CoefOk(script, n, c, coefi);
            return false;
          }
        } else {
          if s.ah != lastBitpos[c, coefi] || s.al != s.ah - 1 {
            assert !CoefOk(script, n, c, coefi);
            return false;
          }
        }
        lastBitpos[c, coefi] := s.al;
      }
      assert s.comps[..ci + 1] == s.comps[..ci] + [c];
    }

    /** Components come in order, so none comes twice. */
    lemma NotBefore(s: ScanInfo, ci: nat)
      requires CompsOk(s, ncomps) && ci < |s.comps|
      ensures s.comps[ci] !in s.comps[..ci]
    {
      Rising(s, ci);
    }

    lemma {:induction false} Rising(s: ScanInfo, ci: nat)
      requires CompsOk(s, ncomps) && ci < |s.comps|
      ensures forall i :: 0 <= i < ci ==> s.comps[i] < s.comps[ci]
    {
      if ci > 0 { Rising(s, ci - 1); }
    }

    lemma AllDue(n: nat)
      requires Ready() && n < |script| && Partly(n, |script[n].comps|, script[n].ss)
      requires forall i :: 0 <= i < |script[n].comps| ==> ColumnOk(n, script[n].comps[i], script[n].se + 1)
      ensures Due(script, n) && Table(n + 1)
    {
      var s := script[n];
      assert s.comps[..|s.comps|] == s.comps;
      forall ci: int, k: int
        ensures CoefOk(script, n, ci, k)
      {
        if Covers(s, ci, k) {
          var i :| 0 <= i < |s.comps| && s.comps[i] == ci;
          assert ColumnOk(n, s.comps[i], s.se + 1);
        }
      }
      forall i | 0 <= i < |s.comps| && s.ss != 0
        ensures LastBit(script, n, s.comps[i], 0) >= 0
      {
        assert ColumnOk(n, s.comps[i], s.se + 1);
      }
    }

    /** The parameters of a sequential scan, and its components marked as sent. */
    method CheckSequential(n: nat) returns (v: Verdict)
      requires Ready() && n < |script| && Sent(n) && CompsOk(script[n], ncomps)
      modifies componentSent
      ensures v.Valid? <==> SequentialScanOk(script, n, ncomps)
      ensures v.Valid? ==> Sent(n + 1)
      ensures !v.Valid? ==> Culprit(v) == n + 1
    {
      var s := script[n];
      v := Valid(progressive);
      if s.ss != 0 || s.se != DCTSIZE2 - 1 || s.ah != 0 || s.al != 0 { return BadProgScript(n + 1); }
      assert s.comps[..0] == [];
      for ci := 0 to |s.comps|
        invariant forall c :: 0 <= c < ncomps ==> componentSent[c] == (Times(script, n, c, 0) > 0 || c in s.comps[..ci])
        invariant forall i :: 0 <= i < ci ==> Times(script, n, s.comps[i], 0) == 0
      {
        NotBefore(s, ci);
        var thisi := s.comps[ci];
        if componentSent[thisi] { return BadScanScript(n + 1); }
        componentSent[thisi] := true;
        assert s.comps[..ci + 1] == s.comps[..ci] + [thisi];
      }
      assert s.comps[..|s.comps|] == s.comps;
    }

    /** One scan. */
    method CheckScan(n: nat) returns (v: Verdict)
      requires Ready() && n < |script| && progressive == IsProgressive(script) &&
               (if progressive then Table(n) else Sent(n))
      modifies lastBitpos, componentSent
      ensures v.Valid? <==> ScanOk(script, n, ncomps)
      ensures v.Valid? ==> if progressive then Table(n + 1) else Sent(n + 1)
      ensures !v.Valid? ==> v.ComponentCount? || Culprit(v) == n + 1
    {
      v := CheckComps(n);
      if !v.Valid? { return; }
      if progressive {
        var ok := CheckProgressive(n);
        if !ok { v := BadProgScript(n + 1); }
      } else {
        v := CheckSequential(n);
      }
    }

    /** Everything that must be sent has been. */
    method CheckSent() returns (ok: bool)
      requires Ready() && progressive == IsProgressive(script) && AllOk(script, |script|, ncomps)
      requires if progressive then Table(|script|) else Sent(|script|)
      ensures ok <==> Complete(script, ncomps)
    {
      BitsNotNegative(script, |script|, ncomps);
      for ci := 0 to ncomps
        invariant forall c :: 0 <= c < ci ==> Times(script, |script|, c, 0) > 0
      {
        SentIsCovered(script, |script|, ncomps, ci, 0);
        if progressive {
          if lastBitpos[ci, 0] < 0 { return false; }
        } else {
          if !componentSent[ci] { return false; }
        }
      }
      ok := true;
    }
  }

  /** validate_script: it accepts exactly the acceptable scripts; an error about a scan names the
      first that does not fit. */
  method ValidateScript(script: Script, ncomps: nat) returns (v: Verdict)
    ensures v.Valid? <==> Acceptable(script, ncomps)
    ensures v.Valid? ==> v.progressive == IsProgressive(script)
    ensures Culprit(v) > 0 ==>
              Culprit(v) <= |script| && AllOk(script, Culprit(v) - 1, ncomps) && !ScanOk(script, Culprit(v) - 1, ncomps)
  {
    if |script| <= 0 { return BadScanScript(0); }
    var c := new Checker(ncomps, script);
    for n := 0 to |script|
      invariant c.Ready() && c.script == script && c.ncomps == ncomps && c.progressive == IsProgressive(script)
      invariant AllOk(script, n, ncomps) && if c.progressive then c.Table(n) else c.Sent(n)
      invariant fresh(c.lastBitpos) && fresh(c.componentSent)
    {
      v := c.CheckScan(n);
      if !v.Valid? {
        assert !ScanOk(script, n, ncomps);
        return;
      }
    }
    var ok := c.CheckSent();
    v := if ok then Valid(c.progressive) else MissingData;
  }

  // ---- jpeg_simple_progression

  /** The bits left unsent at the end of a script. */
  function Left(s: Script, ci: int, k: int): int {
    LastBit(s, |s|, ci, k)
  }

  /** Every scan so far fits those before it. */
  ghost predicate Fitting(s: Script, ncomps: int) {
    forall i: nat :: i < |s| ==> ProgressiveScanOk(s, i, ncomps)
  }

  lemma {:induction false} PrefixBits(s: Script, x: ScanInfo, n: nat, ci: int, k: int)
    requires n <= |s|
    ensures LastBit(s + [x], n, ci, k) == LastBit(s, n, ci, k)
  {
    if n > 0 {
      assert (s + [x])[n - 1] == s[n - 1];
      PrefixBits(s, x, n - 1, ci, k);
    }
  }

  /** Components first .. last - 1 now have `al` bits left in the band, the rest is as before. */
  ghost predicate Filled(before: Script, after: Script, first: int, last: int, ss: int, se: int, al: int) {
    forall ci: int, k: int {:trigger Left(after, ci, k)} ::
      Left(after, ci, k) == if first <= ci < last && ss <= k <= se then al else Left(before, ci, k)
  }

  /** A band of components first .. last - 1 all at one level. */
  ghost predicate Level(s: Script, first: int, last: int, ss: int, se: int, v: int) {
    forall ci: int, k: int {:trigger Left(s, ci, k)} :: first <= ci < last && ss <= k <= se ==> Left(s, ci, k) == v
  }

  /** What a scan at (ah, al) asks of the coefficients it carries. */
  function Before(ah: int): int {
    if ah == 0 then -1 else ah
  }

  predicate Steps(ss: int, se: int, ah: int, al: int) {
    0 <= ss <= se < DCTSIZE2 && (ss == 0 ==> se == 0) && 0 <= al <= 13 && 0 <= ah <= 13 && (ah != 0 ==> al == ah - 1)
  }

  /** One more scan, of components in order. */
  lemma Append(s: Script, x: ScanInfo, ncomps: int, first: int, last: int)
    requires Fitting(s, ncomps) && CompsOk(x, ncomps) && Steps(x.ss, x.se, x.ah, x.al) && (x.ss != 0 ==> |x.comps| == 1)
    requires forall c :: c in x.comps <==> first <= c < last
    requires Level(s, first, last, x.ss, x.se, Before(x.ah))
    requires x.ss != 0 ==> Left(s, x.comps[0], 0) >= 0
    ensures Fitting(s + [x], ncomps) && Filled(s, s + [x], first, last, x.ss, x.se, x.al)
  {
    var t := s + [x];
    forall i: nat | i < |t|
      ensures ProgressiveScanOk(t, i, ncomps)
    {
      KeepsFitting(s, x, ncomps, i, first, last);
    }
    forall ci: int, k: int
      ensures Left(t, ci, k) == if first <= ci < last && x.ss <= k <= x.se then x.al else Left(s, ci, k)
    {
      PrefixBits(s, x, |s|, ci, k);
    }
  }

  lemma KeepsFitting(s: Script, x: ScanInfo, ncomps: int, i: nat, first: int, last: int)
    requires Fitting(s, ncomps) && CompsOk(x, ncomps) && Steps(x.ss, x.se, x.ah, x.al) &&
             (x.ss != 0 ==> |x.comps| == 1) && i <= |s|
    requires forall c :: c in x.comps <==> first <= c < last
    requires Level(s, first, last, x.ss, x.se, Before(x.ah))
    requires x.ss != 0 ==> Left(s, x.comps[0], 0) >= 0
    ensures ProgressiveScanOk(s + [x], i, ncomps)
  {
    var t := s + [x];
    if i < |s| { assert ProgressiveScanOk(s, i, ncomps) && t[i] == s[i]; }
    forall ci: int, k: int
      ensures CoefOk(t, i, ci, k)
    {
      PrefixBits(s, x, i, ci, k);
      if i < |s| {
        assert CoefOk(s, i, ci, k);
      } else {
        assert Left(s, ci, k) == LastBit(s, |s|, ci, k);
      }
    }
    forall j | 0 <= j < |t[i].comps| && t[i].ss != 0
      ensures LastBit(t, i, t[i].comps[j], 0) >= 0
    {
      PrefixBits(s, x, i, t[i].comps[j], 0);
    }
  }

  /** A scan of one component. */
  function Alone(ci: int, ss: int, se: int, ah: int, al: int): ScanInfo {
    ScanInfo([ci], ss, se, ah, al)
  }

  /** One for each component. */
  function Each(ncomps: nat, ss: int, se: int, ah: int, al: int): Script {
    seq(ncomps, ci => Alone(ci, ss, se, ah, al))
  }

  /** The DC of all components: together if there is room for them in a scan. */
  function DcTogether(ncomps: nat, ah: int, al: int): Script {
    if ncomps <= MAX_COMPS_IN_SCAN then [ScanInfo(seq(ncomps, ci => ci), 0, 0, ah, al)] else Each(ncomps, 0, 0, ah, al)
  }

  /** The recommended scripts. For YCbCr, some of luma comes first, and its last bit last; otherwise all
      components advance together, in two bands and three levels. */
  function Progression(ncomps: nat, ycc: bool): Script {
    if ncomps == 3 && ycc then
      DcTogether(3, 0, 1) +
      [Alone(0, 1, 5, 0, 2), Alone(2, 1, 63, 0, 1), Alone(1, 1, 63, 0, 1), Alone(0, 6, 63, 0, 2)] +
      ([Alone(0, 1, 63, 2, 1)] + DcTogether(3, 1, 0) +
        [Alone(2, 1, 63, 1, 0), Alone(1, 1, 63, 1, 0), Alone(0, 1, 63, 1, 0)])
    else
      DcTogether(ncomps, 0, 1) + (Each(ncomps, 1, 5, 0, 2) + Each(ncomps, 6, 63, 0, 2) + Each(ncomps, 1, 63, 2, 1) +
        DcTogether(ncomps, 1, 0) + Each(ncomps, 1, 63, 1, 0))
  }

  /** fill_a_scan. */
  method FillAScan(a: array<ScanInfo>, p: nat, ncomps: int, ci: int, ss: int, se: int, ah: int, al: int)
      returns (p': nat)
    requires p < a.Length && 0 <= ci < ncomps && Steps(ss, se, ah, al) && Fitting(a[..p], ncomps)
    requires Level(a[..p], ci, ci + 1, ss, se, Before(ah)) && (ss != 0 ==> Left(a[..p], ci, 0) >= 0)
    modifies a
    ensures p' == p + 1 && Fitting(a[..p'], ncomps) && Filled(old(a[..p]), a[..p'], ci, ci + 1, ss, se, al) &&
            a[..p'] == old(a[..p]) + [Alone(ci, ss, se, ah, al)]
  {
    ghost var before := a[..p];
    var x := ScanInfo([ci], ss, se, ah, al);
    Append(before, x, ncomps, ci, ci + 1);
    a[p] := x;
    p' := p + 1;
    assert a[..p'] == before + [x];
  }

  /** fill_scans: one scan for each component. */
  method FillScans(a: array<ScanInfo>, p: nat, ncomps: nat, ss: int, se: int, ah: int, al: int) returns (p': nat)
    requires p + ncomps <= a.Length && Steps(ss, se, ah, al) && Fitting(a[..p], ncomps)
    requires Level(a[..p], 0, ncomps, ss, se, Before(ah)) &&
             (ss != 0 ==> forall ci: int :: 0 <= ci < ncomps ==> Left(a[..p], ci, 0) >= 0)
    modifies a
    ensures p' == p + ncomps && Fitting(a[..p'], ncomps) && Filled(old(a[..p]), a[..p'], 0, ncomps, ss, se, al) &&
            a[..p'] == old(a[..p]) + Each(ncomps, ss, se, ah, al)
  {
    p' := p;
    ghost var before, each := a[..p], Each(ncomps, ss, se, ah, al);
    for ci := 0 to ncomps
      invariant p' == p + ci && Fitting(a[..p'], ncomps) && Filled(old(a[..p]), a[..p'], 0, ci, ss, se, al) &&
                a[..p'] == before + each[..ci]
    {
      p' := FillAScan(a, p', ncomps, ci, ss, se, ah, al);
      assert each[..ci + 1] == each[..ci] + [Alone(ci, ss, se, ah, al)];
    }
    assert each[..ncomps] == each;
  }

  /** fill_dc_scans: one interleaved scan if possible. */
  method FillDcScans(a: array<ScanInfo>, p: nat, ncomps: nat, ah: int, al: int) returns (p': nat)
    requires 0 < ncomps && p + DcScans(ncomps) <= a.Length && Steps(0, 0, ah, al) && Fitting(a[..p], ncomps)
    requires Level(a[..p], 0, ncomps, 0, 0, Before(ah))
    modifies a
    ensures p' == p + DcScans(ncomps) && Fitting(a[..p'], ncomps) &&
            Filled(old(a[..p]), a[..p'], 0, ncomps, 0, 0, al) &&
            a[..p'] == old(a[..p]) + DcTogether(ncomps, ah, al)
  {
    if ncomps <= MAX_COMPS_IN_SCAN {
      ghost var before := a[..p];
      var x := ScanInfo(seq(ncomps, ci => ci), 0, 0, ah, al);
      forall c: int
        ensures c in x.comps <==> 0 <= c < ncomps
      {
        if 0 <= c < ncomps { assert x.comps[c] == c; }
      }
      Append(before, x, ncomps, 0, ncomps);
      a[p] := x;
      p' := p + 1;
      assert a[..p'] == before + [x];
    } else {
      p' := FillScans(a, p, ncomps, 0, 0, ah, al);
    }
  }

  function DcScans(ncomps: nat): nat {
    if ncomps <= MAX_COMPS_IN_SCAN then 1 else ncomps
  }

  /** The space the script needs. */
  function ScansNeeded(ncomps: nat, ycc: bool): nat {
    if ncomps == 3 && ycc then 10
    else if ncomps > MAX_COMPS_IN_SCAN then 6 * ncomps
    else 2 + 4 * ncomps
  }

  /** The script sends every coefficient of every component down to its last bit. */
  ghost predicate SendsAll(s: Script, ncomps: int) {
    forall ci: int, k: int {:trigger Left(s, ci, k)} :: 0 <= ci < ncomps && 0 <= k < DCTSIZE2 ==> Left(s, ci, k) == 0
  }

  /** jpeg_simple_progression: the script fills the space computed for it exactly, is accepted, and
      sends every bit. */
  method SimpleProgression(ncomps: nat, ycc: bool) returns (scanInfo: array<ScanInfo>)
    requires 0 < ncomps
    ensures scanInfo.Length == ScansNeeded(ncomps, ycc)
    ensures Acceptable(scanInfo[..], ncomps) && IsProgressive(scanInfo[..]) && SendsAll(scanInfo[..], ncomps)
    ensures scanInfo[..] == Progression(ncomps, ycc)
  {
    var nscans := if ncomps == 3 && ycc then 10 else if ncomps > MAX_COMPS_IN_SCAN then 6 * ncomps else 2 + 4 * ncomps;
    scanInfo := new ScanInfo[nscans](_ => ScanInfo([], 0, 0, 0, 0));
    assert scanInfo[..0] == [];
    var p := FillDcScans(scanInfo, 0, ncomps, 0, 1);
    assert scanInfo[..p] == DcTogether(ncomps, 0, 1);
    if ncomps == 3 && ycc { p := ColorScans(scanInfo, p); } else { p := AllPurposeScans(scanInfo, p, ncomps); }
    assert scanInfo[..p] == scanInfo[..];
    AcceptedIs(scanInfo[..], ncomps);
  }

  lemma AcceptedIs(s: Script, ncomps: nat)
    requires s != [] && s[0].ss == s[0].se == 0 && Fitting(s, ncomps) && SendsAll(s, ncomps)
    ensures Acceptable(s, ncomps) && IsProgressive(s)
  {
    forall i: nat | i < |s|
      ensures ScanOk(s, i, ncomps)
    {
      assert ProgressiveScanOk(s, i, ncomps);
    }
    BitsNotNegative(s, |s|, ncomps);
    forall ci | 0 <= ci < ncomps
      ensures Times(s, |s|, ci, 0) > 0
    {
      assert Left(s, ci, 0) == 0;
      SentIsCovered(s, |s|, ncomps, ci, 0);
    }
  }

  /** After the first DC scan: DC one bit short, nothing of AC. */
  ghost predicate DcBegun(s: Script, ncomps: nat) {
    Fitting(s, ncomps) && Level(s, 0, ncomps, 0, 0, 1) && Level(s, 0, ncomps, 1, 63, -1)
  }

  /** The script for YCbCr images. */
  method ColorScans(a: array<ScanInfo>, p0: nat) returns (p: nat)
    requires p0 + 9 == a.Length && DcBegun(a[..p0], 3)
    modifies a
    ensures p == a.Length && Fitting(a[..p], 3) && SendsAll(a[..p], 3)
    ensures a[..p] == old(a[..p0]) +
              [Alone(0, 1, 5, 0, 2), Alone(2, 1, 63, 0, 1), Alone(1, 1, 63, 0, 1), Alone(0, 6, 63, 0, 2)] +
              ([Alone(0, 1, 63, 2, 1)] + DcTogether(3, 1, 0) +
                [Alone(2, 1, 63, 1, 0), Alone(1, 1, 63, 1, 0), Alone(0, 1, 63, 1, 0)])
  {
    p := ColorFirst(a, p0);
    p := ColorRest(a, p);
  }

  ghost predicate ColorHalf(s: Script) {
    Fitting(s, 3) && Level(s, 0, 3, 0, 0, 1) && Level(s, 0, 1, 1, 63, 2) && Level(s, 1, 3, 1, 63, 1)
  }

  method ColorFirst(a: array<ScanInfo>, p0: nat) returns (p: nat)
    requires p0 + 9 == a.Length && DcBegun(a[..p0], 3)
    modifies a
    ensures p == p0 + 4 && ColorHalf(a[..p])
    ensures a[..p] == old(a[..p0]) +
              [Alone(0, 1, 5, 0, 2), Alone(2, 1, 63, 0, 1), Alone(1, 1, 63, 0, 1), Alone(0, 6, 63, 0, 2)]
  {
    p := FillAScan(a, p0, 3, 0, 1, 5, 0, 2);
    p := FillAScan(a, p, 3, 2, 1, 63, 0, 1);
    p := FillAScan(a, p, 3, 1, 1, 63, 0, 1);
    p := FillAScan(a, p, 3, 0, 6, 63, 0, 2);
  }

  method ColorRest(a: array<ScanInfo>, p0: nat) returns (p: nat)
    requires p0 + 5 == a.Length && ColorHalf(a[..p0])
    modifies a
    ensures p == a.Length && Fitting(a[..p], 3) && SendsAll(a[..p], 3)
    ensures a[..p] == old(a[..p0]) + ([Alone(0, 1, 63, 2, 1)] + DcTogether(3, 1, 0) +
                [Alone(2, 1, 63, 1, 0), Alone(1, 1, 63, 1, 0), Alone(0, 1, 63, 1, 0)])
  {
    p := FillAScan(a, p0, 3, 0, 1, 63, 2, 1);
    p := FillDcScans(a, p, 3, 1, 0);
    p := FillAScan(a, p, 3, 2, 1, 63, 1, 0);
    p := FillAScan(a, p, 3, 1, 1, 63, 1, 0);
    p := FillAScan(a, p, 3, 0, 1, 63, 1, 0);
  }

  /** The script for other images. */
  method AllPurposeScans(a: array<ScanInfo>, p0: nat, ncomps: nat) returns (p: nat)
    requires ncomps > 0 && p0 + 4 * ncomps + DcScans(ncomps) == a.Length && DcBegun(a[..p0], ncomps)
    modifies a
    ensures p == a.Length && Fitting(a[..p], ncomps) && SendsAll(a[..p], ncomps)
    ensures a[..p] == old(a[..p0]) + (Each(ncomps, 1, 5, 0, 2) + Each(ncomps, 6, 63, 0, 2) + Each(ncomps, 1, 63, 2, 1) +
              DcTogether(ncomps, 1, 0) + Each(ncomps, 1, 63, 1, 0))
  {
    hide Each, DcTogether;
    p := FillScans(a, p0, ncomps, 1, 5, 0, 2);
    p := FillScans(a, p, ncomps, 6, 63, 0, 2);
    p := FillScans(a, p, ncomps, 1, 63, 2, 1);
    p := FillDcScans(a, p, ncomps, 1, 0);
    p := FillScans(a, p, ncomps, 1, 63, 1, 0);
  }
}
