/** 32-bit words and their bytes, least significant first. */
module WordBytes {
  type Word = bv32

  /** The number a word spells. */
  function Num(x: Word): (n: nat)
    ensures x == 0 ==> n == 0
    decreases x
  {
    if x == 0 then 0
    else
      Halved(x);
      2 * Num(x >> 1) + (if x & 1 == 1 then 1 else 0)
  }

  lemma Halved(x: Word)
    requires x != 0
    ensures x >> 1 < x
  {
  }

  lemma Half(x: Word)
    ensures Num(x >> 1) == Num(x) / 2 && (Num(x) % 2 == 1 <==> x & 1 == 1)
  {
  }

  /** Byte `k` of a word, as a word. */
  function Low(w: Word, k: nat): Word
    requires k < 4
  {
    (if k == 0 then w else if k == 1 then w >> 8 else if k == 2 then w >> 16 else w >> 24) & 0xff
  }

  function ByteOf(w: Word, k: nat): bv8
    requires k < 4
  {
    Low(w, k) as bv8
  }

  function LaneMask(k: nat): Word {
    if k == 0 then 0x000000ff else if k == 1 then 0x0000ff00 else if k == 2 then 0x00ff0000 else 0xff000000
  }

  /** A word with the masked bits of `data` written into it. */
  function Merged(old_: Word, data: Word, wmask: Word): Word {
    (old_ & !wmask) | (data & wmask)
  }

  /** Four mask bits, one for each byte. */
  function ExpandWmask(mask: bv4): Word {
    (if mask & 8 != 0 then 0xff000000 else 0) | (if mask & 4 != 0 then 0x00ff0000 else 0) |
    (if mask & 2 != 0 then 0x0000ff00 else 0) | (if mask & 1 != 0 then 0x000000ff else 0)
  }

  /** A byte written into its lane. */
  function WithByte(w: Word, r: nat, b: bv8): Word {
    Merged(w, FourTimes(b as bv32), LaneMask(r))
  }

  /** A byte in all four lanes. */
  function FourTimes(b: Word): Word {
    b | (b << 8) | (b << 16) | (b << 24)
  }

  function BytesOf(w: Word): (b: seq<bv8>)
    ensures |b| == 4 && forall k :: 0 <= k < 4 ==> b[k] == ByteOf(w, k)
  {
    [ByteOf(w, 0), ByteOf(w, 1), ByteOf(w, 2), ByteOf(w, 3)]
  }

  function FromBytes(b0: bv8, b1: bv8, b2: bv8, b3: bv8): Word {
    (b0 as bv32) | ((b1 as bv32) << 8) | ((b2 as bv32) << 16) | ((b3 as bv32) << 24)
  }

  lemma BytesOfWord(b0: bv8, b1: bv8, b2: bv8, b3: bv8)
    ensures var w := FromBytes(b0, b1, b2, b3);
            ByteOf(w, 0) == b0 && ByteOf(w, 1) == b1 && ByteOf(w, 2) == b2 && ByteOf(w, 3) == b3
  {
  }

  lemma Repeated(b: Word)
    requires b & 0xffffff00 == 0
    ensures 0x01010101 * b == FourTimes(b)
  {
  }

  lemma Widened(b: bv8)
    ensures (b as bv32) & 0xffffff00 == 0 && ((b as bv32) & 0xff) as bv8 == b
  {
  }

  lemma Lane0(w: Word, b: Word)
    requires b & 0xffffff00 == 0
    ensures var v := Merged(w, FourTimes(b), 0x000000ff);
            Low(v, 0) == b && Low(v, 1) == Low(w, 1) && Low(v, 2) == Low(w, 2) && Low(v, 3) == Low(w, 3)
  {
  }

  lemma Lane1(w: Word, b: Word)
    requires b & 0xffffff00 == 0
    ensures var v := Merged(w, FourTimes(b), 0x0000ff00);
            Low(v, 0) == Low(w, 0) && Low(v, 1) == b && Low(v, 2) == Low(w, 2) && Low(v, 3) == Low(w, 3)
  {
  }

  lemma Lane2(w: Word, b: Word)
    requires b & 0xffffff00 == 0
    ensures var v := Merged(w, FourTimes(b), 0x00ff0000);
            Low(v, 0) == Low(w, 0) && Low(v, 1) == Low(w, 1) && Low(v, 2) == b && Low(v, 3) == Low(w, 3)
  {
  }

  lemma Lane3(w: Word, b: Word)
    requires b & 0xffffff00 == 0
    ensures var v := Merged(w, FourTimes(b), 0xff000000);
            Low(v, 0) == Low(w, 0) && Low(v, 1) == Low(w, 1) && Low(v, 2) == Low(w, 2) && Low(v, 3) == b
  {
  }

  lemma AnyLane(w: Word, b: Word, r: nat, v: Word, k: nat)
    requires b & 0xffffff00 == 0 && r < 4 && k < 4 && v == Merged(w, FourTimes(b), LaneMask(r))
    ensures Low(v, k) == if k == r then b else Low(w, k)
  {
    if r == 0 {
      Lane0(w, b);
    } else if r == 1 {
      Lane1(w, b);
    } else if r == 2 {
      Lane2(w, b);
    } else {
      Lane3(w, b);
    }
  }

  /** Writing a byte changes that byte and no other. */
  lemma ByteWritten(w: Word, r: nat, b: bv8, k: nat)
    requires r < 4 && k < 4
    ensures ByteOf(WithByte(w, r, b), k) == if k == r then b else ByteOf(w, k)
  {
    Widened(b);
    AnyLane(w, b as bv32, r, WithByte(w, r, b), k);
  }

  /** Only the masked bits of the data matter to a masked write. */
  lemma MaskedDataOnly(w: Word, d1: Word, d2: Word, m: Word)
    requires d1 & m == d2 & m
    ensures Merged(w, d1, m) == Merged(w, d2, m)
  {
    assert (w & !m) | (d1 & m) == (w & !m) | (d2 & m);
  }

  /** A masked write is the same whatever the word, exactly when masks and masked data agree. */
  lemma SameEffect(d1: Word, m1: bv4, d2: Word, m2: bv4)
    ensures (forall w: Word :: Merged(w, d1, ExpandWmask(m1)) == Merged(w, d2, ExpandWmask(m2))) <==>
            m1 == m2 && d1 & ExpandWmask(m1) == d2 & ExpandWmask(m2)
  {
    if forall w: Word :: Merged(w, d1, ExpandWmask(m1)) == Merged(w, d2, ExpandWmask(m2)) {
      var zeros: Word, ones: Word := 0, 0xffffffff;
      assert Merged(zeros, d1, ExpandWmask(m1)) == Merged(zeros, d2, ExpandWmask(m2));
      assert Merged(ones, d1, ExpandWmask(m1)) == Merged(ones, d2, ExpandWmask(m2));
      EffectMasks(d1, ExpandWmask(m1), d2, ExpandWmask(m2));
      MaskInjective(m1, m2);
    }
  }

  lemma EffectMasks(d1: Word, w1: Word, d2: Word, w2: Word)
    requires Merged(0, d1, w1) == Merged(0, d2, w2) && Merged(0xffffffff, d1, w1) == Merged(0xffffffff, d2, w2)
    ensures w1 == w2 && d1 & w1 == d2 & w2
  {
  }

  lemma MaskInjective(m1: bv4, m2: bv4)
    requires ExpandWmask(m1) == ExpandWmask(m2)
    ensures m1 == m2
  {
  }
}
