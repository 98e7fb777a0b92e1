/**
 * The coder's bit accumulator (jchuff.c): `n` bits, left-justified in the low 24 bits of a
 * 32-bit word whose top byte may hold bits already sent.
 */
module BitBuffer {
  import opened Bits

  const WORD: nat := 0x1_0000_0000

  /** Bitwise or of two words. */
  function Or(a: nat, b: nat): nat
    decreases a + b
  {
    if a == 0 && b == 0 then 0
    else 2 * Or(a / 2, b / 2) + (if a % 2 == 1 || b % 2 == 1 then 1 else 0)
  }

  /** A 32-bit left shift. */
  function Shl(a: nat, n: nat): nat {
    a * Pow2(n) % WORD
  }

  /** The byte emit_bits sends next: bits 16 to 23. */
  function DataByte(word: nat): Byte {
    word / 0x1_0000 % 0x100
  }

  /** Mask the code, align it below the `n` bits held, and merge. */
  function Merge(word: nat, n: nat, code: int, size: nat): nat
    requires n + size <= 24
  {
    Or(Shl(code % Pow2(size), 24 - (n + size)), word)
  }

  /** The word holds `n` bits and zeros below them. */
  predicate Holds(word: nat, n: nat) {
    word < WORD && n <= 24 && word % Pow2(24 - n) == 0
  }

  /** The bits held. */
  function Held(word: nat, n: nat): (b: Bits)
    requires n <= 24
    ensures |b| == n
  {
    ToBits(word / Pow2(24 - n), n)
  }

  lemma {:induction false} OrDisjoint(a: nat, b: nat, k: nat)
    requires a < Pow2(k) && b % Pow2(k) == 0
    ensures Or(a, b) == a + b
    decreases k
  {
    if k == 0 {
      OrZero(b);
    } else {
      EvenMultiple(b, Pow2(k - 1));
      OrDisjoint(a / 2, b / 2, k - 1);
    }
  }

  lemma {:induction false} OrZero(b: nat)
    ensures Or(0, b) == b
  {
    if b > 0 { OrZero(b / 2); }
  }

  lemma EvenMultiple(b: nat, d: nat)
    requires d > 0 && b % (2 * d) == 0
    ensures b % 2 == 0 && (b / 2) % d == 0
  {
    var q := b / (2 * d);
    assert b == 2 * (d * q);
    DivUnique(b / 2, d, q, 0);
  }

  lemma Multiple(q: int, d: nat)
    requires d > 0
    ensures (q * d) % d == 0 && q * d / d == q
  {
    DivUnique(q * d, d, q, 0);
  }

  lemma ShlSmall(m: nat, size: nat, s: nat)
    requires m < Pow2(size) && size + s <= 24
    ensures Shl(m, s) == m * Pow2(s) < Pow2(size + s)
  {
    Pow2Add(size, s);
    MulLess(m, Pow2(size), Pow2(s));
    Pow2Monotone(size + s, 24);
    Powers();
    DivUnique(m * Pow2(s), WORD, 0, m * Pow2(s));
  }

  /** Adding less than the unit to a multiple of the unit below 2^32 stays below 2^32. */
  lemma SumFits(word: nat, n: nat, low: nat)
    requires Holds(word, n) && low < Pow2(24 - n)
    ensures word + low < WORD
  {
    var d, q, p := Pow2(24 - n), word / Pow2(24 - n), Pow2(8 + n);
    Pow2Add(8 + n, 24 - n);
    Powers();
    AsMultiple(word, d);
    assert q < p by { if q >= p { MulAtLeast(p, q, d); } }
    MulAtLeast(q + 1, p, d);
    MulDistribute(q, 1, d);
  }

  lemma SameLow(code: int, size: nat, q: int)
    ensures ToBits(q * Pow2(size) + code % Pow2(size), size) == ToBits(code, size)
  {
    var d := Pow2(size);
    var k := q - code / d;
    assert code == (code / d) * d + code % d;
    MulDistribute(k, code / d, d);
    ToBitsModulo(code, k, size);
  }

  /** The bits of a number put together from a high part and a low part. */
  lemma Joined(q: nat, n: nat, code: int, size: nat)
    ensures ToBits(q * Pow2(size) + code % Pow2(size), n + size) == ToBits(q, n) + ToBits(code, size)
  {
    var top := q * Pow2(size) + code % Pow2(size);
    Split(top, n, size);
    DivUnique(top, Pow2(size), q, code % Pow2(size));
    SameLow(code, size, q);
  }

  /** emit_bits' mask, shift and or append the code's low bits to the bits held. */
  lemma Append(word: nat, n: nat, code: int, size: nat)
    requires Holds(word, n) && n < 8 && size <= 16
    ensures var w := Merge(word, n, code, size);
            Holds(w, n + size) && Held(w, n + size) == Held(word, n) + ToBits(code, size)
  {
    hide Or, Shl, ToBits, Value, Pow2;
    var s := 24 - (n + size);
    var m := code % Pow2(size);
    var q := word / Pow2(24 - n);
    ShlSmall(m, size, s);
    OrDisjoint(m * Pow2(s), word, 24 - n);
    SumFits(word, n, m * Pow2(s));
    AppendMultiple(word, q, m, size, s);
    Multiple(q * Pow2(size) + m, Pow2(s));
    Joined(q, n, code, size);
  }

  lemma AppendMultiple(word: nat, q: nat, m: nat, size: nat, s: nat)
    requires word % Pow2(size + s) == 0 && q == word / Pow2(size + s)
    ensures m * Pow2(s) + word == (q * Pow2(size) + m) * Pow2(s)
  {
    AsMultiple(word, Pow2(size + s));
    Pow2Add(size, s);
    MulAssoc(q, Pow2(size), Pow2(s));
    MulDistribute(q * Pow2(size), m, Pow2(s));
  }

  /** The first eight bits held are the word's third byte ... */
  lemma ThirdByte(word: nat, n: nat)
    requires Holds(word, n) && n >= 8
    ensures Held(word, n)[..8] == ToBits(DataByte(word), 8)
  {
    Powers();
    HighBits(word, n, 16);
    TopByte(word / 0x1_0000);
  }

  lemma HighBits(word: nat, n: nat, shift: nat)
    requires 8 <= n <= 24 && shift == 16
    ensures Held(word, n)[..8] == ToBits(word / Pow2(shift), 8)
  {
    hide ToBits, Pow2;
    ToBitsTake(word / Pow2(24 - n), n, 8);
    DivDiv(word, 24 - n, n - 8);
    assert shift == (24 - n) + (n - 8);
  }

  /** ... and shifting the word one byte up drops them. */
  lemma ShiftOut(word: nat, n: nat)
    requires Holds(word, n) && n >= 8
    ensures Holds(Shl(word, 8), n - 8) && Held(Shl(word, 8), n - 8) == Held(word, n)[8..]
  {
    var top := word / Pow2(24 - n);
    AsMultiple(word, Pow2(24 - n));
    ToBitsTake(top, n, 8);
    Shifted(top, word, n);
  }

  lemma TopByte(v: nat)
    ensures ToBits(v, 8) == ToBits(v % 256, 8)
  {
    hide ToBits, Pow2;
    Powers();
    SameLow(v, 8, 0);
  }

  lemma Shifted(top: nat, word: nat, n: nat)
    requires 8 <= n <= 24 && word == top * Pow2(24 - n) && word < WORD
    ensures Holds(Shl(word, 8), n - 8) && Held(Shl(word, 8), n - 8) == ToBits(top, n - 8)
  {
    var k := word * Pow2(8) / WORD;
    var rest := top - k * Pow2(n);
    ShiftedMultiple(top, word, n, k);
    Multiple(rest, Pow2(32 - n));
    DroppedBits(top, k, n);
  }

  lemma DroppedBits(top: nat, k: nat, n: nat)
    requires 8 <= n
    ensures ToBits(top - k * Pow2(n), n - 8) == ToBits(top, n - 8)
  {
    Pow2Add(8, n - 8);
    MulAssoc(k, Pow2(8), Pow2(n - 8));
    MulNegate(k * Pow2(8), Pow2(n - 8));
    ToBitsModulo(top, -(k * Pow2(8)), n - 8);
  }

  lemma ShiftedMultiple(top: nat, word: nat, n: nat, k: nat)
    requires 8 <= n <= 24 && word == top * Pow2(24 - n) && k == word * Pow2(8) / WORD
    ensures Shl(word, 8) == (top - k * Pow2(n)) * Pow2(32 - n)
  {
    Pow2Add(24 - n, 8);
    MulAssoc(top, Pow2(24 - n), Pow2(8));
    Pow2Add(n, 32 - n);
    Powers();
    MulAssoc(k, Pow2(n), Pow2(32 - n));
    MulDistribute(top, -(k * Pow2(n)), Pow2(32 - n));
    MulNegate(k * Pow2(n), Pow2(32 - n));
  }

}
