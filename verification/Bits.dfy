/** Bit strings, and how the C words that carry them are read. */
module Bits {
  /** A bit string, most significant bit first. */
  type Bits = seq<bool>
  type Byte = n: int | 0 <= n < 256

  function Pow2(n: nat): (p: nat)
    ensures p > 0
  {
    if n == 0 then 1 else 2 * Pow2(n - 1)
  }

  /** The number a bit string spells. */
  function Value(b: Bits): nat {
    if b == [] then 0 else 2 * Value(b[..|b| - 1]) + (if b[|b| - 1] then 1 else 0)
  }

  /** The low `n` bits of `v`; a negative `v` is read in two's complement. */
  function ToBits(v: int, n: nat): (b: Bits)
    ensures |b| == n
    decreases n
  {
    if n == 0 then [] else ToBits(v / 2, n - 1) + [v % 2 == 1]
  }

  // ---- powers of two

  lemma {:induction false} Pow2Add(a: nat, b: nat)
    ensures Pow2(a + b) == Pow2(a) * Pow2(b)
  {
    if b == 0 {
    } else {
      Pow2Add(a, b - 1);
      assert Pow2(a + b) == 2 * Pow2(a + (b - 1));
      assert 2 * (Pow2(a) * Pow2(b - 1)) == Pow2(a) * (2 * Pow2(b - 1));
    }
  }

  lemma {:induction false} Pow2Monotone(a: nat, b: nat)
    requires a <= b
    ensures Pow2(a) <= Pow2(b)
    decreases b - a
  {
    if a < b { Pow2Monotone(a, b - 1); }
  }

  /** Floor division by a power of two can be done one halving at a time. */
  lemma DivHalf(v: int, d: nat)
    requires d > 0
    ensures v / (2 * d) == v / 2 / d
  {
    var q, r := v / (2 * d), v % (2 * d);
    assert v == 2 * d * q + r;
    assert v / 2 == d * q + r / 2 by {
      assert v == 2 * (d * q) + r;
    }
    DivUnique(v / 2, d, q, r / 2);
  }

  lemma ModHalf(v: int, d: nat)
    requires d > 0
    ensures v % (2 * d) == 2 * ((v / 2) % d) + v % 2
  {
    var q, r := (v / 2) / d, (v / 2) % d;
    assert v / 2 == d * q + r;
    assert (2 * d) * q == 2 * (d * q);
    DivUnique(v, 2 * d, q, 2 * r + v % 2);
  }

  lemma DivUnique(v: int, d: nat, q: int, r: int)
    requires d > 0 && v == d * q + r && 0 <= r < d
    ensures v / d == q && v % d == r
  {
    var e := v / d - q;
    assert v == d * (v / d) + v % d;
    assert d * (v / d) - d * q == d * e;
    assert d * e == r - v % d;
    assert 0 - d < d * e < d;
    assert e >= 1 ==> d * e >= d;
    assert e <= -1 ==> d * e <= 0 - d;
  }

  lemma QuotientIs(v: int, d: nat, q: int, r: int)
    requires d > 0 && v == q * d + r && 0 <= r < d
    ensures v / d == q
  {
    DivUnique(v, d, q, r);
  }

  lemma {:induction false} DivDiv(v: int, a: nat, b: nat)
    ensures v / Pow2(a + b) == v / Pow2(a) / Pow2(b)
    decreases a
  {
    if a == 0 {
      assert v / 1 == v;
    } else {
      DivHalf(v, Pow2(a - 1 + b));
      DivDiv(v / 2, a - 1, b);
      DivHalf(v, Pow2(a - 1));
    }
  }

  // ---- arithmetic the solver should not have to search for

  lemma Powers()
    ensures Pow2(8) == 256 && Pow2(16) == 0x1_0000 && Pow2(24) == 0x100_0000 && Pow2(32) == 0x1_0000_0000
  {
    assert Pow2(8) == 256;
    Pow2Add(8, 8);
    Pow2Add(16, 8);
    Pow2Add(16, 16);
  }

  lemma MulAssoc(a: int, b: int, c: int)
    ensures a * b * c == a * (b * c)
  {
  }

  lemma MulDistribute(a: int, b: int, c: int)
    ensures (a + b) * c == a * c + b * c
  {
  }

  lemma MulAtLeast(a: int, b: int, d: int)
    requires d > 0 && a <= b
    ensures a * d <= b * d
  {
  }

  lemma MulLess(a: int, b: int, d: int)
    requires d > 0 && a < b
    ensures a * d < b * d
  {
  }

  /** A word held in its upper part, as a multiple of the unit below that part. */
  lemma AsMultiple(word: nat, d: nat)
    requires d > 0 && word % d == 0
    ensures word == (word / d) * d
  {
  }

  lemma MulNegate(a: int, b: int)
    ensures (-a) * b == -(a * b)
  {
  }

  // ---- bit strings against numbers

  lemma {:induction false} ValueBound(b: Bits)
    ensures Value(b) < Pow2(|b|)
  {
    if b != [] { ValueBound(b[..|b| - 1]); }
  }

  lemma {:induction false} ToBitsValue(b: Bits)
    ensures ToBits(Value(b), |b|) == b
  {
    if b != [] {
      var front := b[..|b| - 1];
      ToBitsValue(front);
      assert Value(b) / 2 == Value(front);
      assert b == front + [b[|b| - 1]];
    }
  }

  lemma {:induction false} ValueToBits(v: int, n: nat)
    ensures Value(ToBits(v, n)) == v % Pow2(n)
    decreases n
  {
    if n > 0 {
      ValueToBits(v / 2, n - 1);
      var b := ToBits(v, n);
      assert b[..n - 1] == ToBits(v / 2, n - 1);
      ModHalf(v, Pow2(n - 1));
    }
  }

  /** Distinct numbers below 2^n have distinct n-bit strings. */
  lemma ToBitsInjective(v: nat, w: nat, n: nat)
    requires v < Pow2(n) && w < Pow2(n) && ToBits(v, n) == ToBits(w, n)
    ensures v == w
  {
    ValueToBits(v, n);
    ValueToBits(w, n);
    DivUnique(v, Pow2(n), 0, v);
    DivUnique(w, Pow2(n), 0, w);
  }

  /** The high bits and the low bits of a word, side by side, are the word. */
  lemma {:induction false} Split(v: int, a: nat, b: nat)
    ensures ToBits(v, a + b) == ToBits(v / Pow2(b), a) + ToBits(v, b)
    decreases b
  {
    if b == 0 {
      assert v / 1 == v;
    } else {
      Split(v / 2, a, b - 1);
      DivHalf(v, Pow2(b - 1));
      assert ToBits(v, a + b) == ToBits(v / 2, a + (b - 1)) + [v % 2 == 1];
    }
  }

  /** Only the value modulo 2^n matters to the low n bits. */
  lemma {:induction false} ToBitsModulo(v: int, k: int, n: nat)
    ensures ToBits(v + k * Pow2(n), n) == ToBits(v, n)
    decreases n
  {
    if n > 0 {
      var d := Pow2(n - 1);
      assert k * Pow2(n) == 2 * (k * d);
      assert (v + 2 * (k * d)) / 2 == v / 2 + k * d;
      assert (v + 2 * (k * d)) % 2 == v % 2;
      ToBitsModulo(v / 2, k, n - 1);
    }
  }

  lemma {:induction false} ValueAppend(a: Bits, b: Bits)
    ensures Value(a + b) == Value(a) * Pow2(|b|) + Value(b)
  {
    if b == [] {
      assert a + b == a;
    } else {
      var front := b[..|b| - 1];
      ValueAppend(a, front);
      assert (a + b)[..|a + b| - 1] == a + front;
      assert Value(a) * Pow2(|b|) == 2 * (Value(a) * Pow2(|front|));
    }
  }

  // ---- reading a stream at a position

  /** Bit `i` of a stream; past its end a stream reads as zeros. */
  predicate Bit(s: Bits, i: nat) {
    i < |s| && s[i]
  }

  /** The `n` bits of the stream that start at `pos`. */
  function Take(s: Bits, pos: nat, n: nat): (b: Bits)
    ensures |b| == n
  {
    seq(n, i requires 0 <= i < n => Bit(s, pos + i))
  }

  /** The number the `n` bits at `pos` spell. */
  function Number(s: Bits, pos: nat, n: nat): nat {
    if n == 0 then 0 else 2 * Number(s, pos, n - 1) + (if Bit(s, pos + n - 1) then 1 else 0)
  }

  lemma {:induction false} NumberIsValue(s: Bits, pos: nat, n: nat)
    ensures Number(s, pos, n) == Value(Take(s, pos, n))
  {
    if n > 0 {
      NumberIsValue(s, pos, n - 1);
      assert Take(s, pos, n)[..n - 1] == Take(s, pos, n - 1);
    }
  }

  lemma NumberBound(s: Bits, pos: nat, n: nat)
    ensures Number(s, pos, n) < Pow2(n)
  {
    NumberIsValue(s, pos, n);
    ValueBound(Take(s, pos, n));
  }

  /** The `n` bits at `pos` are the n-bit string of their number. */
  lemma NumberBits(s: Bits, pos: nat, n: nat)
    ensures ToBits(Number(s, pos, n), n) == Take(s, pos, n)
  {
    NumberIsValue(s, pos, n);
    ToBitsValue(Take(s, pos, n));
  }

  lemma NumberSplit(s: Bits, pos: nat, l: nat, n: nat)
    requires l <= n
    ensures Number(s, pos, n) == Number(s, pos, l) * Pow2(n - l) + Value(Take(s, pos + l, n - l))
  {
    TakeSplit(s, pos, l, n - l);
    ValueAppend(Take(s, pos, l), Take(s, pos + l, n - l));
    NumberIsValue(s, pos, l);
    NumberIsValue(s, pos, n);
  }

  /** A number's first bits spell its quotient. */
  lemma NumberPrefix(s: Bits, pos: nat, l: nat, n: nat)
    requires l <= n
    ensures Number(s, pos, n) / Pow2(n - l) == Number(s, pos, l)
  {
    var low := Take(s, pos + l, n - l);
    NumberSplit(s, pos, l, n);
    ValueBound(low);
    QuotientIs(Number(s, pos, n), Pow2(n - l), Number(s, pos, l), Value(low));
  }

  lemma TakeSplit(s: Bits, pos: nat, a: nat, b: nat)
    ensures Take(s, pos, a + b) == Take(s, pos, a) + Take(s, pos + a, b)
  {
  }

  /** The first bits of an n-bit string are the string of the shifted number. */
  lemma ToBitsTake(v: nat, n: nat, k: nat)
    requires k <= n
    ensures ToBits(v, n)[..k] == ToBits(v / Pow2(n - k), k)
    ensures ToBits(v, n)[k..] == ToBits(v, n - k)
  {
    Split(v, k, n - k);
  }
}
