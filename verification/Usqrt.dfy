/**
 * Bit-by-bit square root in 32-bit arithmetic (benchmark/source/basicmath/isqrt.c): the result
 * should be the square root of x times 2^16, rounded down.
 */
module Usqrt {
  import opened Bits

  const WORD: nat := 0x1_0000_0000

  /** Accumulator, remainder, and the bits of x still to come. */
  datatype State = State(a: nat, r: nat, x: nat)

  predicate Fits(s: State) {
    s.a < WORD && s.r < WORD && s.x < WORD
  }

  function Top2Bits(x: nat): nat {
    x / 0x4000_0000 % 4
  }

  /** One turn of the loop, with every register cut to 32 bits. */
  function Turn(s: State): (s': State)
    ensures Fits(s')
  {
    var r := (s.r * 4 + Top2Bits(s.x)) % WORD;
    var a := s.a * 2 % WORD;
    var e := (a * 2 + 1) % WORD;
    var x := s.x * 4 % WORD;
    if r >= e then State((a + 1) % WORD, (r - e) % WORD, x) else State(a, r, x)
  }

  /** The registers after `n` turns. */
  function After(x: nat, n: nat): (s: State)
    requires x < WORD
    ensures Fits(s)
  {
    if n == 0 then State(0, 0, x) else Turn(After(x, n - 1))
  }

  /** usqrt. */
  method UsqrtLoop(x0: nat) returns (q: nat)
    requires x0 < WORD
    ensures q == After(x0, 32).a
  {
    var a: nat, r: nat, e: nat, x: nat := 0, 0, 0, x0;
    for i := 0 to 32
      invariant State(a, r, x) == After(x0, i)
    {
      a, r, e, x := OneTurn(a, r, x);
    }
    q := a;
  }

  /** The loop body. */
  method OneTurn(a0: nat, r0: nat, x0: nat) returns (a: nat, r: nat, e: nat, x: nat)
    ensures State(a, r, x) == Turn(State(a0, r0, x0))
  {
    r := (r0 * 4 + Top2Bits(x0)) % WORD;
    x := x0 * 4 % WORD;
    a := a0 * 2 % WORD;
    e := (a * 2 + 1) % WORD;
    if r >= e {
      r := (r - e) % WORD;
      a := (a + 1) % WORD;
    }
  }

  // ---- one turn without loss

  /** `a` is the square root of `p`, rounded down, and `r` the remainder. */
  predicate RootOf(p: nat, a: nat, r: nat) {
    p == a * a + r && r <= 2 * a
  }

  predicate IsRoot(p: nat, a: nat) {
    a * a <= p < (a + 1) * (a + 1)
  }

  lemma RootOfIsRoot(p: nat, a: nat, r: nat)
    requires RootOf(p, a, r)
    ensures IsRoot(p, a)
  {
    assert (a + 1) * (a + 1) == a * a + 2 * a + 1;
  }

  lemma RootUnique(p: nat, a: nat, b: nat)
    requires IsRoot(p, a) && IsRoot(p, b)
    ensures a == b
  {
    if a < b { Squares(a + 1, b); } else if b < a { Squares(b + 1, a); }
  }

  lemma NotRoot(p: nat, a: nat, b: nat)
    requires IsRoot(p, a) && a != b
    ensures !IsRoot(p, b)
  {
    if IsRoot(p, b) { RootUnique(p, a, b); }
  }

  lemma Squares(a: nat, b: nat)
    requires a <= b
    ensures a * a <= b * b
  {
    MulAtMost(a, b, a);
    MulAtMost(a, b, b);
  }

  lemma MulAtMost(a: nat, b: nat, c: nat)
    requires a <= b
    ensures a * c <= b * c && c * a <= c * b
  {
  }

  /** Two more bits of the radicand: the root gains a bit and the remainder stays small. */
  lemma OneBit(p: nat, a: nat, r: nat, t: nat)
    requires RootOf(p, a, r) && t < 4
    ensures if 4 * r + t >= 4 * a + 1 then RootOf(4 * p + t, 2 * a + 1, 4 * r + t - (4 * a + 1))
            else RootOf(4 * p + t, 2 * a, 4 * r + t)
  {
    assert (2 * a) * (2 * a) == 4 * (a * a);
    assert (2 * a + 1) * (2 * a + 1) == 4 * (a * a) + 4 * a + 1;
  }

  lemma Small(v: nat)
    requires v < WORD
    ensures v % WORD == v
  {
  }

  /** The turn when neither the accumulator nor the trial product overflows. */
  lemma TurnIs(s: State, r: nat)
    requires 4 * s.a + 1 < WORD && r == (s.r * 4 + Top2Bits(s.x)) % WORD
    ensures Turn(s) == if r >= 4 * s.a + 1 then State(2 * s.a + 1, r - (4 * s.a + 1), s.x * 4 % WORD)
              else State(2 * s.a, r, s.x * 4 % WORD)
  {
    Small(s.a * 2);
    Small(s.a * 2 + 1);
    Small(s.a * 4 + 1);
    if r >= 4 * s.a + 1 { Small(r - (4 * s.a + 1)); }
  }

  /** The turn loses nothing when its remainder and its trial product fit. */
  lemma ExactTurn(s: State, p: nat)
    requires RootOf(p, s.a, s.r) && 4 * s.r + Top2Bits(s.x) < WORD && 4 * s.a + 1 < WORD
    ensures RootOf(4 * p + Top2Bits(s.x), Turn(s).a, Turn(s).r)
  {
    OneBit(p, s.a, s.r, Top2Bits(s.x));
    Small(s.r * 4 + Top2Bits(s.x));
    TurnIs(s, s.r * 4 + Top2Bits(s.x));
  }

  // ---- the radicand

  function Pow4(n: nat): (p: nat)
    ensures p > 0
  {
    if n == 0 then 1 else 4 * Pow4(n - 1)
  }

  /** The part of the radicand seen after `n` turns, and the bits still in the register. */
  function Seen(x: nat, n: nat): nat { x * Pow4(n) / WORD }

  function Coming(x: nat, n: nat): nat { x * Pow4(n) % WORD }

  lemma NextBits(v: nat)
    ensures 4 * v / WORD == 4 * (v / WORD) + Top2Bits(v % WORD)
    ensures 4 * v % WORD == 4 * (v % WORD) % WORD
  {
    var c, p := v % WORD, v / WORD;
    assert 4 * c == Top2Bits(c) * WORD + 4 * c % WORD;
    DivUnique(4 * v, WORD, 4 * p + Top2Bits(c), 4 * c % WORD);
  }

  lemma SeenStep(x: nat, n: nat)
    ensures Seen(x, n + 1) == 4 * Seen(x, n) + Top2Bits(Coming(x, n))
    ensures Coming(x, n + 1) == Coming(x, n) * 4 % WORD
  {
    NextBits(x * Pow4(n));
    assert x * Pow4(n + 1) == 4 * (x * Pow4(n));
  }

  lemma {:induction false} PowerSplit(m: nat, n: nat)
    ensures Pow4(m + n) == Pow4(m) * Pow4(n)
  {
    if n > 0 {
      PowerSplit(m, n - 1);
      assert Pow4(m) * (4 * Pow4(n - 1)) == 4 * (Pow4(m) * Pow4(n - 1));
    }
  }

  /** From the sixteenth turn on all of x has been seen. */
  lemma AllSeen(x: nat, n: nat)
    requires n >= 16
    ensures Seen(x, n) == x * Pow4(n - 16) && Coming(x, n) == 0
  {
    PowerSplit(n - 16, 16);
    assert Pow4(16) == WORD by { PowerSplit(8, 8); PowerSplit(4, 4); assert Pow4(4) == 256; }
    assert x * (Pow4(n - 16) * WORD) == WORD * (x * Pow4(n - 16)) by { Shuffle(x, Pow4(n - 16), WORD); }
    DivUnique(x * Pow4(n), WORD, x * Pow4(n - 16), 0);
  }

  lemma Shuffle(x: nat, p: nat, w: nat)
    ensures x * (p * w) == w * (x * p)
  {
  }

  // ---- thirty turns never lose anything

  lemma {:induction false} RegisterIs(x: nat, n: nat)
    requires x < WORD
    ensures After(x, n).x == Coming(x, n)
  {
    if n == 0 {
      Small(x);
    } else {
      RegisterIs(x, n - 1);
      SeenStep(x, n - 1);
    }
  }

  /** After `n` turns the accumulator holds the root of what has been seen. */
  predicate ExactAt(x: nat, n: nat)
    requires x < WORD
  {
    RootOf(Seen(x, n), After(x, n).a, After(x, n).r)
  }

  lemma ExactStep(x: nat, n: nat)
    requires x < WORD && ExactAt(x, n) && 4 * After(x, n).r + Top2Bits(Coming(x, n)) < WORD &&
             4 * After(x, n).a + 1 < WORD
    ensures ExactAt(x, n + 1)
  {
    RegisterIs(x, n);
    SeenStep(x, n);
    ExactTurn(After(x, n), Seen(x, n));
  }

  lemma {:induction false} RootGrows(x: nat, n: nat)
    requires x < WORD && n <= 30
    ensures ExactAt(x, n) && After(x, n).a < Pow2(n)
  {
    if n == 0 {
      assert Seen(x, 0) == 0;
    } else {
      RootGrows(x, n - 1);
      PowersUpTo(n - 1);
      ExactStep(x, n - 1);
      TurnIs(After(x, n - 1), (After(x, n - 1).r * 4 + Top2Bits(After(x, n - 1).x)) % WORD);
    }
  }

  lemma PowersUpTo(n: nat)
    requires n <= 29
    ensures Pow2(n) <= 0x2000_0000
  {
    Pow2Monotone(n, 29);
    Powers();
    Pow2Add(24, 5);
    assert Pow2(5) == 32;
  }

  // ---- the last two turns

  const HALF: nat := 0x4000_0000

  /** When the result is right, in terms of the remainders of the last two roots: no remainder is
      cut when it is shifted, or it is cut without harm because the trial product is cut as well. */
  predicate Harmless(r30: nat, a31: nat, r31: nat) {
    r30 < HALF &&
    if a31 < HALF then r31 < HALF
    else r31 + HALF <= a31 || HALF <= r31 < 2 * HALF || (2 * HALF <= r31 < 3 * HALF && r31 > a31 + HALF)
  }

  lemma RootOfUnique(p: nat, a: nat, r: nat, b: nat, q: nat)
    requires RootOf(p, a, r) && RootOf(p, b, q)
    ensures a == b && r == q
  {
    RootOfIsRoot(p, a, r);
    RootOfIsRoot(p, b, q);
    RootUnique(p, a, b);
  }

  /** A remainder that is cut at the next to last turn makes that turn, and so the result, wrong. */
  lemma CutAtThirty(s: State, p: nat)
    requires RootOf(p, s.a, s.r) && s.a < HALF && s.r >= HALF && s.x == 0
    ensures Turn(s).a == 2 * s.a && Turn(s).x == 0 && !IsRoot(16 * p, 4 * s.a) && !IsRoot(16 * p, 4 * s.a + 1)
  {
    var r := 4 * s.r - WORD;
    CutOnce(s.r);
    TurnIs(s, r);
    OneBit(p, s.a, s.r, 0);
    OneBit(4 * p, 2 * s.a + 1, 4 * s.r - (4 * s.a + 1), 0);
    var a := if 4 * (4 * s.r - (4 * s.a + 1)) >= 4 * (2 * s.a + 1) + 1 then 4 * s.a + 3 else 4 * s.a + 2;
    assert IsRoot(16 * p, a) by {
      RootOfIsRoot(16 * p, a, if a == 4 * s.a + 3 then 4 * (4 * s.r - (4 * s.a + 1)) - (4 * (2 * s.a + 1) + 1)
          else 4 * (4 * s.r - (4 * s.a + 1)));
    }
    NotRoot(16 * p, a, 4 * s.a);
    NotRoot(16 * p, a, 4 * s.a + 1);
  }

  lemma CutOnce(r: nat)
    requires HALF <= r < 2 * HALF
    ensures 4 * r % WORD == 4 * r - WORD
  {
  }

  /** The last turn doubles the accumulator and may add one. */
  lemma LastTurn(s: State)
    requires s.a < 2 * HALF && s.x == 0
    ensures Turn(s).a == 2 * s.a + if 4 * s.r % WORD >= (4 * s.a + 1) % WORD then 1 else 0
  {
    Small(s.a * 2);
    Small(s.a * 2 + 1);
  }

  /** The last turn is right exactly when its comparison is. */
  lemma LastRight(s: State, p: nat)
    requires RootOf(p, s.a, s.r) && s.a < 2 * HALF && s.x == 0
    ensures IsRoot(4 * p, Turn(s).a) <==> (4 * s.r % WORD >= (4 * s.a + 1) % WORD <==> s.r > s.a)
  {
    LastTurn(s);
    OneBit(p, s.a, s.r, 0);
    var a := if s.r > s.a then 2 * s.a + 1 else 2 * s.a;
    RootOfIsRoot(4 * p, a, if s.r > s.a then 4 * s.r - (4 * s.a + 1) else 4 * s.r);
    if a != Turn(s).a { NotRoot(4 * p, a, Turn(s).a); }
  }

  /** The comparison of the last turn, with both sides cut to 32 bits. */
  lemma LastComparison(a: nat, r: nat)
    requires a < 2 * HALF && r <= 2 * a
    ensures (4 * r % WORD >= (4 * a + 1) % WORD <==> r > a) <==> Harmless(0, a, r)
  {
    assert (4 * a + 1) % WORD == if a < HALF then 4 * a + 1 else 4 * a + 1 - WORD;
    assert 4 * r % WORD == if r < HALF then 4 * r else if r < 2 * HALF then 4 * r - WORD
                           else if r < 3 * HALF then 4 * r - 2 * WORD else 4 * r - 3 * WORD;
  }

  /** The square root, rounded down, and what it leaves over. */
  function Root(p: nat): (a: nat)
    ensures a * a <= p && RootOf(p, a, p - a * a)
    decreases p
  {
    if p == 0 then 0
    else
      var a := Root(p / 4);
      OneBit(p / 4, a, p / 4 - a * a, p % 4);
      if 4 * (p / 4 - a * a) + p % 4 >= 4 * a + 1 then 2 * a + 1 else 2 * a
  }

  function Over(p: nat): nat { p - Root(p) * Root(p) }

  /** usqrt is right for `x` exactly when the remainders of x * 2^28 and x * 2^30 are harmless. */
  lemma RightExactly(x: nat)
    requires x < WORD
    ensures IsRoot(x * WORD, After(x, 32).a) <==> Harmless(Over(x * 0x1000_0000), Root(x * HALF), Over(x * HALF))
  {
    hide Root;
    RightFor(x, Root(x * 0x1000_0000), Over(x * 0x1000_0000), Root(x * HALF), Over(x * HALF));
  }

  lemma RightFor(x: nat, a30: nat, r30: nat, a31: nat, r31: nat)
    requires x < WORD && RootOf(x * 0x1000_0000, a30, r30) && RootOf(x * HALF, a31, r31)
    ensures IsRoot(x * WORD, After(x, 32).a) <==> Harmless(r30, a31, r31)
  {
    var s := After(x, 30);
    AfterThirty(x);
    RootOfUnique(x * 0x1000_0000, s.a, s.r, a30, r30);
    LastTwo(s, x, x * 0x1000_0000, a31, r31);
    assert After(x, 32) == Turn(After(x, 31)) && After(x, 31) == Turn(s);
  }

  lemma AfterThirty(x: nat)
    requires x < WORD
    ensures var s := After(x, 30); RootOf(x * 0x1000_0000, s.a, s.r) && s.a < HALF && s.x == 0
  {
    RootGrows(x, 30);
    AllSeen(x, 30);
    RegisterIs(x, 30);
    FourPowers();
  }

  lemma LastTwo(s: State, x: nat, p: nat, a31: nat, r31: nat)
    requires RootOf(p, s.a, s.r) && s.a < HALF && s.x == 0 && p == x * 0x1000_0000 && RootOf(x * HALF, a31, r31)
    ensures IsRoot(x * WORD, Turn(Turn(s)).a) <==> Harmless(s.r, a31, r31)
  {
    hide Pow4, After, Turn, Harmless;
    if s.r >= HALF { LastTwoCut(s, x, p, a31, r31); } else { LastTwoExact(s, x, p, a31, r31); }
  }

  lemma LastTwoCut(s: State, x: nat, p: nat, a31: nat, r31: nat)
    requires RootOf(p, s.a, s.r) && s.a < HALF && s.x == 0 && p == x * 0x1000_0000 && s.r >= HALF
    ensures !IsRoot(x * WORD, Turn(Turn(s)).a) && !Harmless(s.r, a31, r31)
  {
    hide Turn;
    CutAtThirty(s, p);
    LastTurn(Turn(s));
  }

  lemma LastTwoExact(s: State, x: nat, p: nat, a31: nat, r31: nat)
    requires RootOf(p, s.a, s.r) && s.a < HALF && s.x == 0 && p == x * 0x1000_0000 && RootOf(x * HALF, a31, r31) &&
             s.r < HALF
    ensures IsRoot(x * WORD, Turn(Turn(s)).a) <==> Harmless(s.r, a31, r31)
  {
    hide Turn, RootOf, IsRoot;
    ExactTurn(s, p);
    var u := Turn(s);
    RootOfUnique(x * HALF, u.a, u.r, a31, r31);
    AccumulatorBound(s);
    LastRight(u, x * HALF);
    LastComparison(u.a, u.r);
  }

  lemma AccumulatorBound(s: State)
    requires s.a < HALF && s.x == 0
    ensures Turn(s).a < 2 * HALF && Turn(s).x == 0
  {
    Small(s.a * 2);
    Small(s.a * 2 + 1);
  }

  lemma FourPowers()
    ensures Pow4(14) == 0x1000_0000 && Pow2(30) == HALF
  {
    PowerSplit(7, 7);
    assert Pow4(7) == 0x4000;
    Pow2Add(24, 6);
    Powers();
    assert Pow2(6) == 64;
  }

  /** In particular it is right for every x below 2^28. */
  lemma RightBelow28(x: nat)
    requires x < 0x1000_0000
    ensures IsRoot(x * WORD, After(x, 32).a)
  {
    var s := After(x, 30);
    AfterThirty(x);
    var a31, r31 := SmallRemainders(s, x, x * 0x1000_0000, x * HALF);
    RightFor(x, s.a, s.r, a31, r31);
  }

  lemma SmallRemainders(s: State, x: nat, p: nat, q: nat) returns (a31: nat, r31: nat)
    requires x < 0x1000_0000 && p == x * 0x1000_0000 && q == 4 * p && RootOf(p, s.a, s.r) && s.x == 0
    ensures RootOf(q, a31, r31) && Harmless(s.r, a31, r31)
  {
    SmallRoot(p, s.a, s.r, 0x1000_0000);
    ExactTurn(s, p);
    a31, r31 := Turn(s).a, Turn(s).r;
    SmallRoot(q, a31, r31, 0x2000_0000);
  }

  lemma SmallRoot(p: nat, a: nat, r: nat, b: nat)
    requires RootOf(p, a, r) && p < b * b
    ensures a < b
  {
    if a >= b { Squares(b, a); }
  }

  /** It is wrong for 2^28 + 1. */
  lemma WrongFor28Plus1()
    ensures !IsRoot(0x1000_0001 * WORD, After(0x1000_0001, 32).a)
  {
    RightFor(0x1000_0001, 0x1000_0000, 0x1000_0000, 0x2000_0000, HALF);
  }

  /** Below 2^28 neither the remainder nor the trial product of any turn is cut. */
  lemma NothingWraps(x: nat, n: nat)
    requires x < 0x1000_0000 && n < 32
    ensures var s := After(x, n); 4 * s.r + Top2Bits(s.x) < WORD && 4 * s.a + 1 < WORD && ExactAt(x, n)
  {
    hide Turn, Pow4, Pow2, After;
    RootGrows(x, if n <= 30 then n else 30);
    if n <= 29 {
      PowersUpTo(n);
      FitsBelow(After(x, n), Seen(x, n));
    } else if n == 30 {
      LastExact(x);
    } else {
      LastExact(x);
      ExactStep(x, 30);
      SeenAt31(x);
      RegisterIs(x, 31);
      SmallRoot(Seen(x, 31), After(x, 31).a, After(x, 31).r, 0x2000_0000);
      FitsBelow(After(x, 31), Seen(x, 31));
    }
  }

  lemma FitsBelow(s: State, p: nat)
    requires RootOf(p, s.a, s.r) && s.a < 0x2000_0000
    ensures 4 * s.r + Top2Bits(s.x) < WORD && 4 * s.a + 1 < WORD
  {
  }

  lemma SeenAt31(x: nat)
    requires x < 0x1000_0000
    ensures Seen(x, 31) < 0x2000_0000 * 0x2000_0000 && Coming(x, 31) == 0
  {
    AllSeen(x, 31);
    Fifteen();
  }

  lemma LastExact(x: nat)
    requires x < 0x1000_0000
    ensures var s := After(x, 30); 4 * s.r + Top2Bits(s.x) < WORD && 4 * s.a + 1 < WORD && Coming(x, 30) == s.x
  {
    AfterThirty(x);
    RegisterIs(x, 30);
    SmallRoot(x * 0x1000_0000, After(x, 30).a, After(x, 30).r, 0x1000_0000);
  }

  lemma Fifteen()
    ensures Pow4(15) == HALF
  {
    FourPowers();
    PowerSplit(14, 1);
  }
}
