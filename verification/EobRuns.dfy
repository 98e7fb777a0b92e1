/**
 * End-of-band runs of a progressive AC scan (ITU-T T.81, G.1.2.2 and G.1.2.3; jcphuff.c). What
 * a block contributes to the scan does not depend on the coder's state; how contributions are
 * strung together does: the end of a band and the correction bits behind it are held back and
 * sent with those of the following blocks.
 */
module EobRuns {
  import opened JpegLimits
  import opened EntropySpec

  const MAX_CORR_BITS: nat := 1000
  const MAX_EOBRUN: nat := 0x7FFF

  /** A block: items up to its last new coefficient, and, if the band goes on behind that one, the
      correction bits of the rest. */
  datatype Code = Code(prefix: seq<Item>, hasTail: bool, tail: seq<Item>)

  predicate CodeOk(c: Code) {
    (c.prefix != [] || c.hasTail) && (!c.hasTail ==> c.tail == []) && |c.tail| < DCTSIZE2
  }

  predicate CodesOk(codes: seq<Code>) {
    forall i :: 0 <= i < |codes| ==> CodeOk(codes[i])
  }

  /** The coder between blocks: items sent, bands ended but not yet sent, their correction bits. */
  datatype Run = Run(out: seq<Item>, eobrun: nat, corr: seq<Item>)

  const FRESH: Run := Run([], 0, [])

  /** Between blocks neither counter can overflow in the next one, and correction bits wait only
      behind a pending end of band. */
  predicate RunOk(u: Run) {
    (u.eobrun == 0 ==> u.corr == []) && u.eobrun < MAX_EOBRUN && |u.corr| <= MAX_CORR_BITS - DCTSIZE2 + 1
  }

  /** The number of bits below the leading one. */
  function Below(v: nat): nat {
    if v < 2 then 0 else 1 + Below(v / 2)
  }

  /** The symbol of a run of `n` ended bands, and its extra bits. */
  function EobItems(tbl: nat, n: nat): seq<Item> {
    [Sym(AC, tbl, Below(n) * 16)] + (if n < 2 then [] else [Raw(n, Below(n))])
  }

  /** emit_eobrun. */
  function Flush(tbl: nat, u: Run): Run {
    if u.eobrun == 0 then u else Run(u.out + EobItems(tbl, u.eobrun) + u.corr, 0, [])
  }

  function Forced(tbl: nat, u: Run): Run {
    if u.eobrun == MAX_EOBRUN || |u.corr| > MAX_CORR_BITS - DCTSIZE2 + 1 then Flush(tbl, u) else u
  }

  /** The items of a block that come before its tail. */
  function Begun(tbl: nat, u: Run, c: Code): Run {
    if c.prefix == [] then u else Run(Flush(tbl, u).out + c.prefix, 0, [])
  }

  /** One block. */
  function Step(tbl: nat, u: Run, c: Code): Run {
    var v := Begun(tbl, u, c);
    if c.hasTail then Forced(tbl, Run(v.out, v.eobrun + 1, v.corr + c.tail)) else v
  }

  lemma StepOk(tbl: nat, u: Run, c: Code)
    requires RunOk(u) && CodeOk(c)
    ensures RunOk(Step(tbl, u, c))
  {
  }

  /** The first `n` blocks of a segment. */
  function RunOf(tbl: nat, codes: seq<Code>, n: nat): (u: Run)
    requires CodesOk(codes) && n <= |codes|
    ensures RunOk(u)
  {
    if n == 0 then FRESH else Step(tbl, RunOf(tbl, codes, n - 1), codes[n - 1])
  }

  /** A whole segment, up to its restart marker or the end of the scan. */
  function Segment(tbl: nat, codes: seq<Code>): seq<Item>
    requires CodesOk(codes)
  {
    Flush(tbl, RunOf(tbl, codes, |codes|)).out
  }

  lemma {:induction false} RunPrefix(tbl: nat, a: seq<Code>, b: seq<Code>, n: nat)
    requires CodesOk(a) && CodesOk(b) && n <= |a| <= |b| && b[..|a|] == a
    ensures RunOf(tbl, a, n) == RunOf(tbl, b, n)
  {
    if n > 0 {
      RunPrefix(tbl, a, b, n - 1);
      assert b[..|a|][n - 1] == b[n - 1];
    }
  }

  // ---- what is still to come

  /** The segment from block `i` on, with `u` before it. */
  function Rest(tbl: nat, u: Run, codes: seq<Code>, i: nat): seq<Item>
    requires i <= |codes|
    decreases |codes| - i
  {
    if i == |codes| then Flush(tbl, u).out else Rest(tbl, Step(tbl, u, codes[i]), codes, i + 1)
  }

  /** What follows when nothing is pending. */
  function Coming(tbl: nat, codes: seq<Code>, i: nat): seq<Item>
    requires i <= |codes|
  {
    Rest(tbl, FRESH, codes, i)
  }

  lemma {:induction false} SegmentIsRest(tbl: nat, codes: seq<Code>, i: nat)
    requires CodesOk(codes) && i <= |codes|
    ensures Segment(tbl, codes) == Rest(tbl, RunOf(tbl, codes, i), codes, i)
    decreases |codes| - i
  {
    if i < |codes| { SegmentIsRest(tbl, codes, i + 1); }
  }

  function Behind(before: seq<Item>, u: Run): Run {
    u.(out := before + u.out)
  }

  lemma StepBehind(tbl: nat, before: seq<Item>, u: Run, c: Code)
    ensures Step(tbl, Behind(before, u), c) == Behind(before, Step(tbl, u, c))
  {
    FlushBehind(tbl, before, u);
    var v := Begun(tbl, u, c);
    assert Begun(tbl, Behind(before, u), c) == Behind(before, v) by {
      assert before + Flush(tbl, u).out + c.prefix == before + (Flush(tbl, u).out + c.prefix);
    }
    FlushBehind(tbl, before, Run(v.out, v.eobrun + 1, v.corr + c.tail));
  }

  lemma FlushBehind(tbl: nat, before: seq<Item>, u: Run)
    ensures Flush(tbl, Behind(before, u)) == Behind(before, Flush(tbl, u))
  {
    var e := EobItems(tbl, u.eobrun);
    assert before + u.out + e + u.corr == before + (u.out + e + u.corr);
  }

  /** What has been sent stays sent. */
  lemma {:induction false} RestBehind(tbl: nat, before: seq<Item>, u: Run, codes: seq<Code>, i: nat)
    requires i <= |codes|
    ensures Rest(tbl, Behind(before, u), codes, i) == before + Rest(tbl, u, codes, i)
    decreases |codes| - i
  {
    if i == |codes| {
      FlushBehind(tbl, before, u);
    } else {
      StepBehind(tbl, before, u, codes[i]);
      RestBehind(tbl, before, Step(tbl, u, codes[i]), codes, i + 1);
    }
  }

  lemma RestAfter(tbl: nat, before: seq<Item>, codes: seq<Code>, i: nat)
    requires i <= |codes|
    ensures Rest(tbl, Run(before, 0, []), codes, i) == before + Coming(tbl, codes, i)
  {
    assert before + [] == before;
    RestBehind(tbl, before, FRESH, codes, i);
  }

  /** The correction bits of blocks i .. j-1. */
  function Tails(codes: seq<Code>, i: nat, j: nat): seq<Item>
    requires i <= j <= |codes|
    decreases j - i
  {
    if i == j then [] else codes[i].tail + Tails(codes, i + 1, j)
  }

  /** Blocks i .. j-1 contribute nothing but the end of their band. */
  predicate OnlyTails(codes: seq<Code>, i: nat, j: nat)
    requires i <= j <= |codes|
  {
    forall k :: i <= k < j ==> codes[k].prefix == [] && codes[k].hasTail
  }

  /** A pending run grows by the blocks that follow until something else has to be sent; it fits
      its symbol, which no run of zeros can be taken for. */
  lemma {:induction false} PendingRun(tbl: nat, u: Run, codes: seq<Code>, i: nat) returns (m: nat)
    requires CodesOk(codes) && i <= |codes| && RunOk(u) && u.eobrun > 0
    ensures i + m <= |codes| && u.eobrun + m <= MAX_EOBRUN && OnlyTails(codes, i, i + m)
    ensures Rest(tbl, u, codes, i) ==
            u.out + EobItems(tbl, u.eobrun + m) + (u.corr + Tails(codes, i, i + m)) + Coming(tbl, codes, i + m)
    decreases |codes| - i
  {
    hide Step, Begun, Tails, EobItems, Coming;
    if i == |codes| {
      m := 0;
      NoneLeft(tbl, codes);
      LastRun(u.out + EobItems(tbl, u.eobrun), u.corr);
    } else if codes[i].prefix != [] {
      m := 0;
      RunEnds(tbl, u, codes, i);
    } else {
      var c := codes[i];
      var v := Run(u.out, u.eobrun + 1, u.corr + c.tail);
      StepTail(tbl, u, c);
      if v == Forced(tbl, v) {
        var n := PendingRun(tbl, v, codes, i + 1);
        m := n + 1;
        MoreTails(codes, i, i + m, u.corr);
      } else {
        m := 1;
        MoreTails(codes, i, i + 1, u.corr);
        RestAfter(tbl, Flush(tbl, v).out, codes, i + 1);
      }
    }
  }

  lemma NoneLeft(tbl: nat, codes: seq<Code>)
    ensures Tails(codes, |codes|, |codes|) == [] && Coming(tbl, codes, |codes|) == []
  {
  }

  lemma StepTail(tbl: nat, u: Run, c: Code)
    requires c.prefix == [] && c.hasTail
    ensures Step(tbl, u, c) == Forced(tbl, Run(u.out, u.eobrun + 1, u.corr + c.tail))
  {
  }

  /** Without correction bits none are ever pending. */
  lemma StepNoBits(tbl: nat, u: Run, c: Code)
    requires u.corr == [] && c.tail == []
    ensures Step(tbl, u, c).corr == []
  {
  }

  lemma LastRun(a: seq<Item>, b: seq<Item>)
    ensures a + b == a + (b + []) + []
  {
  }

  lemma MoreTails(codes: seq<Code>, i: nat, j: nat, corr: seq<Item>)
    requires i < j <= |codes|
    ensures corr + codes[i].tail + Tails(codes, i + 1, j) == corr + Tails(codes, i, j)
    ensures j == i + 1 ==> corr + codes[i].tail == corr + Tails(codes, i, j)
  {
  }

  /** A block with something to send ends the run. */
  lemma RunEnds(tbl: nat, u: Run, codes: seq<Code>, i: nat)
    requires i < |codes| && codes[i].prefix != [] && u.eobrun > 0
    ensures Rest(tbl, u, codes, i) == u.out + EobItems(tbl, u.eobrun) + (u.corr + Tails(codes, i, i)) +
              Coming(tbl, codes, i)
  {
    var sent := Flush(tbl, u).out;
    var c := codes[i];
    assert sent + ([] + c.prefix) == sent + c.prefix;
    assert Begun(tbl, u, c) == Begun(tbl, Run(sent, 0, []), c);
    RestAfter(tbl, sent, codes, i);
    assert u.corr + Tails(codes, i, i) == u.corr;
  }

  // ---- the decoder's side

  /** What is left for a decoder before block `i`, with `d` more bands known to be ended. */
  function Left(tbl: nat, codes: seq<Code>, i: nat, d: nat): seq<Item>
    requires i + d <= |codes|
  {
    Tails(codes, i, i + d) + Coming(tbl, codes, i + d)
  }

  /** With no run open a decoder finds the block's items; behind them, if the band goes on, a run
      symbol for this band and `m` more. */
  lemma BlockFollows(tbl: nat, codes: seq<Code>, i: nat) returns (m: nat)
    requires CodesOk(codes) && i < |codes|
    ensures !codes[i].hasTail ==> Left(tbl, codes, i, 0) == codes[i].prefix + Left(tbl, codes, i + 1, 0)
    ensures codes[i].hasTail ==>
              i + 1 + m <= |codes| && 1 + m <= MAX_EOBRUN && OnlyTails(codes, i + 1, i + 1 + m) &&
              Left(tbl, codes, i, 0) == codes[i].prefix + EobItems(tbl, 1 + m) + codes[i].tail +
              Left(tbl, codes, i + 1, m)
  {
    var c := codes[i];
    var u := Step(tbl, FRESH, c);
    StepOk(tbl, FRESH, c);
    NoTails(tbl, codes, i);
    m := 0;
    if c.hasTail {
      assert u == Run(c.prefix, 1, c.tail);
      m := PendingRun(tbl, u, codes, i + 1);
      Regroup(c.prefix + EobItems(tbl, 1 + m), c.tail, Tails(codes, i + 1, i + 1 + m), Coming(tbl, codes, i + 1 + m));
    } else {
      assert u == Run(c.prefix, 0, []);
      RestAfter(tbl, c.prefix, codes, i + 1);
      NoTails(tbl, codes, i + 1);
    }
  }

  lemma NoTails(tbl: nat, codes: seq<Code>, i: nat)
    requires i <= |codes|
    ensures Left(tbl, codes, i, 0) == Coming(tbl, codes, i)
  {
    assert Tails(codes, i, i) == [];
    assert [] + Coming(tbl, codes, i) == Coming(tbl, codes, i);
  }

  lemma Regroup(a: seq<Item>, b: seq<Item>, c: seq<Item>, d: seq<Item>)
    ensures a + (b + c) + d == a + b + (c + d)
  {
  }

  /** Inside a run only the block's correction bits come. */
  lemma RunFollows(tbl: nat, codes: seq<Code>, i: nat, d: nat)
    requires i + d <= |codes| && d > 0
    ensures Left(tbl, codes, i, d) == codes[i].tail + Left(tbl, codes, i + 1, d - 1)
  {
    assert Tails(codes, i, i + d) == codes[i].tail + Tails(codes, i + 1, i + d);
  }

  lemma SegmentIsLeft(tbl: nat, codes: seq<Code>)
    requires CodesOk(codes)
    ensures Segment(tbl, codes) == Left(tbl, codes, 0, 0)
  {
    SegmentIsRest(tbl, codes, 0);
    NoTails(tbl, codes, 0);
  }
}
