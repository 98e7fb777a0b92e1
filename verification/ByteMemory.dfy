/**
 * A memory of little-endian words, seen as the bytes of the ISA (sim/memory.cpp): fetches, loads and
 * lane-masked stores are those of a memory of bytes.
 */
module ByteMemory {
  import Bits
  import opened CoreMemory
  import opened RiscvIsa
  import opened WordBytes

  // ---- memory as words and as bytes

  /** The bytes of a memory of words, little-endian. */
  function BytesIn(flat: Flat): (m: Bytes)
    ensures |m| == 4 * |flat|
  {
    seq(4 * |flat|, i requires 0 <= i < 4 * |flat| => ByteOf(flat[i / 4], i % 4))
  }

  lemma Places(a: nat, n: nat)
    requires n > 0
    ensures a % (4 * n) == 4 * (a / 4 % n) + a % 4
  {
    var q, r := a / 4, a % 4;
    var p, w := q / n, q % n;
    assert a == 4 * q + r && q == n * p + w;
    assert a == (4 * n) * p + (4 * w + r) by { Bits.MulAssoc(4, n, p); }
    Bits.DivUnique(a, 4 * n, p, 4 * w + r);
  }

  lemma ByteInFlat(flat: Flat, a: nat)
    requires flat != []
    ensures ByteIn(BytesIn(flat), a) == ByteAt(flat, a)
  {
    Places(a, |flat|);
  }

  /** Memory::read of a word, byte by byte. */
  function FetchWord(flat: Flat, a: nat): Word
    requires flat != []
  {
    FromBytes(ByteAt(flat, a), ByteAt(flat, a + 1), ByteAt(flat, a + 2), ByteAt(flat, a + 3))
  }

  lemma FetchAgrees(flat: Flat, a: nat)
    requires flat != []
    ensures LoadWord(BytesIn(flat), a) == FetchWord(flat, a)
  {
    ByteInFlat(flat, a);
    ByteInFlat(flat, a + 1);
    ByteInFlat(flat, a + 2);
    ByteInFlat(flat, a + 3);
  }

  /** Where the bytes of a store go, within one word. */
  lemma {:induction false} StoredAt(mem: Bytes, a: nat, v: Word, n: nat, base: nat, l: nat, i: nat)
    requires |mem| % 4 == 0 && base + 4 <= |mem| && a % |mem| == base + l && l + n <= 4 && i < |mem|
    ensures StoreBytes(mem, a, v, n)[i] == if base + l <= i < base + l + n then ByteOf(v, i - base - l) else mem[i]
  {
    hide ByteOf;
    if n > 0 {
      StoredAt(mem, a, v, n - 1, base, l, i);
      Onward(a, n - 1, |mem|, base + l);
      OneStored(StoreBytes(mem, a, v, n - 1), base + l + n - 1, ByteOf(v, n - 1), i);
    }
  }

  lemma OneStored(mem: Bytes, p: nat, b: bv8, i: nat)
    requires p < |mem| && i < |mem|
    ensures mem[p := b][i] == if i == p then b else mem[i]
  {
  }

  lemma Onward(a: nat, k: nat, m: nat, p: nat)
    requires m > 0 && a % m == p && p + k < m
    ensures (a + k) % m == p + k
  {
    Bits.DivUnique(a + k, m, a / m, p + k);
  }

  /** A word whose bytes l .. l + n - 1 are those of `v`, and the others as before. */
  predicate Replaces(old_: Word, new_: Word, v: Word, l: nat, n: nat) {
    forall j :: 0 <= j < 4 ==> ByteOf(new_, j) == if l <= j < l + n then ByteOf(v, j - l) else ByteOf(old_, j)
  }

  lemma StoreAgrees(flat: Flat, a: nat, v: Word, n: nat, new_: Word)
    requires flat != [] && n <= 4 && a % 4 + n <= 4 && Replaces(flat[WordOf(flat, a)], new_, v, a % 4, n)
    ensures BytesIn(flat[WordOf(flat, a) := new_]) == StoreBytes(BytesIn(flat), a, v, n)
  {
    hide ByteOf, BytesIn, StoreBytes, Replaces;
    var mem, w := BytesIn(flat), WordOf(flat, a);
    var after := BytesIn(flat[w := new_]);
    Places(a, |flat|);
    forall i: nat | i < |mem|
      ensures after[i] == StoreBytes(mem, a, v, n)[i]
    {
      StoredAt(mem, a, v, n, 4 * w, a % 4, i);
      ReplacedAt(flat, w, v, a % 4, n, new_, i);
    }
  }

  lemma ReplacedAt(flat: Flat, w: nat, v: Word, l: nat, n: nat, new_: Word, i: nat)
    requires w < |flat| && l + n <= 4 && Replaces(flat[w], new_, v, l, n) && i < 4 * |flat|
    ensures BytesIn(flat[w := new_])[i] == if 4 * w + l <= i < 4 * w + l + n then ByteOf(v, i - 4 * w - l)
              else BytesIn(flat)[i]
  {
    hide ByteOf;
    if i / 4 == w { assert i == 4 * w + i % 4; }
  }

  // ---- lanes

  lemma MaskedByte(old_: Word, data: Word, mask: bv4)
    ensures ByteOf(Merged(old_, data, ExpandWmask(mask)), 0) == if mask & 1 != 0 then ByteOf(data, 0)
              else ByteOf(old_, 0)
    ensures ByteOf(Merged(old_, data, ExpandWmask(mask)), 1) == if mask & 2 != 0 then ByteOf(data, 1)
              else ByteOf(old_, 1)
    ensures ByteOf(Merged(old_, data, ExpandWmask(mask)), 2) == if mask & 4 != 0 then ByteOf(data, 2)
              else ByteOf(old_, 2)
    ensures ByteOf(Merged(old_, data, ExpandWmask(mask)), 3) == if mask & 8 != 0 then ByteOf(data, 3)
              else ByteOf(old_, 3)
  {
  }

  lemma Lanes(v: Word)
    ensures v << 0 == v
    ensures ByteOf(v << 8, 1) == ByteOf(v, 0) && ByteOf(v << 16, 2) == ByteOf(v, 0) &&
            ByteOf(v << 24, 3) == ByteOf(v, 0)
    ensures ByteOf(v << 16, 3) == ByteOf(v, 1)
  {
  }

  /** The data word of a store: the register moved to the lanes it is stored in. */
  function StoreData(w: Width, v: Word, a: Word): Word {
    match w case ByteWide => Shifted(v, a & 3) case HalfWide => Shifted(v, a & 2) case WordWide => v
  }

  /** The mask of a store: one bit, or two, shifted to the lane. */
  function StoreMask(w: Width, a: Word): bv4 {
    match w
    case ByteWide => if a & 3 == 0 then 1 else if a & 3 == 1 then 2 else if a & 3 == 2 then 4 else 8
    case HalfWide => if a & 2 == 0 then 3 else 12
    case WordWide => 15
  }

  lemma LowTwo(a: Word)
    ensures a & 3 == 0 || a & 3 == 1 || a & 3 == 2 || a & 3 == 3
    ensures a & 2 == if a & 3 == 0 || a & 3 == 1 then 0 else 2
    ensures a & 1 == if a & 3 == 0 || a & 3 == 2 then 0 else 1
  {
  }

  lemma SmallNumbers()
    ensures Num(0) == 0 && Num(1) == 1 && Num(2) == 2 && Num(3) == 3
  {
    Half(1);
    Half(2);
    Half(3);
    assert (1 as Word) >> 1 == 0 && (2 as Word) >> 1 == 1 && (3 as Word) >> 1 == 1;
  }

  function Bit(x: Word): nat { if x & 1 == 1 then 1 else 0 }
  function Rest(x: Word): Word { (x >> 1) >> 1 }

  /** A word from its two low bits and the rest. */
  lemma LowAndRest(x: Word)
    ensures Num(x) == 4 * Num(Rest(x)) + 2 * Bit(x >> 1) + Bit(x)
  {
    hide Num;
    Half(x);
    Half(x >> 1);
  }

  lemma WordRest(a: Word)
    ensures Rest(WordAddress(a)) == Rest(a)
  {
  }

  lemma WordBits(a: Word)
    ensures Bit(WordAddress(a)) == 0 && Bit(WordAddress(a) >> 1) == 0
  {
  }

  lemma LaneRest(a: Word)
    ensures Rest(Lane(a)) == 0
  {
  }

  lemma LaneBits(a: Word)
    ensures Bit(Lane(a)) == Bit(a) && Bit(Lane(a) >> 1) == Bit(a >> 1)
  {
  }

  /** An address without its two low bits, and those. */
  function WordAddress(a: Word): Word { a & 0xffff_fffc }
  function Lane(a: Word): Word { a & 3 }

  lemma AddressParts(a: Word)
    ensures Num(Lane(a)) == Num(a) % 4 && Num(WordAddress(a)) == Num(a) - Num(a) % 4
  {
    hide Num, Rest, Lane, WordAddress;
    LowAndRest(a);
    LowAndRest(Lane(a));
    LowAndRest(WordAddress(a));
    WordRest(a);
    WordBits(a);
    LaneRest(a);
    LaneBits(a);
    SmallNumbers();
    Sums(Num(a), Num(Rest(a)), Bit(a >> 1), Bit(a));
  }

  lemma Sums(n: nat, q: nat, b: nat, c: nat)
    requires n == 4 * q + 2 * b + c && b <= 1 && c <= 1
    ensures n % 4 == 2 * b + c
  {
  }

  /** The lane of an address, as a number. */
  lemma LaneNumber(a: Word)
    ensures Num(a) % 4 == if a & 3 == 0 then 0 else if a & 3 == 1 then 1 else if a & 3 == 2 then 2 else 3
  {
    hide Num;
    AddressParts(a);
    LowTwo(a);
    SmallNumbers();
  }

  /** An aligned store of any width replaces the bytes it should, and no others. */
  lemma LanesAgree(w: Width, a: Word, v: Word, old_: Word)
    requires Aligned(a, w)
    ensures Num(a) % 4 + WidthOf(w) <= 4
    ensures Replaces(old_, Merged(old_, StoreData(w, v, a), ExpandWmask(StoreMask(w, a))), v, Num(a) % 4, WidthOf(w))
  {
    hide ByteOf, Merged, ExpandWmask, Num;
    LaneNumber(a);
    LowTwo(a);
    Lanes(v);
    DataMoved(w, a, v);
    MaskedByte(old_, StoreData(w, v, a), StoreMask(w, a));
    MaskBits(StoreMask(w, a));
  }

  lemma DataMoved(w: Width, a: Word, v: Word)
    ensures StoreData(w, v, a) ==
            if w.WordWide? then v
            else if w.HalfWide? then if a & 2 == 0 then v << 0 else v << 16
            else if a & 3 == 0 then v << 0 else if a & 3 == 1 then v << 8 else if a & 3 == 2 then v << 16 else v << 24
  {
    hide Shifted;
    LowTwo(a);
    if w.ByteWide? {
      assert StoreData(w, v, a) == Shifted(v, a & 3);
      if a & 3 == 0 { ShiftedBy(v, 0); } else if a & 3 == 1 { ShiftedBy(v, 1); }
        else if a & 3 == 2 { ShiftedBy(v, 2); } else { ShiftedBy(v, 3); }
    } else if w.HalfWide? {
      assert StoreData(w, v, a) == Shifted(v, a & 2);
      if a & 2 == 0 { ShiftedBy(v, 0); } else { ShiftedBy(v, 2); }
    }
  }

  /** A word moved up by `k` lanes. */
  function Shifted(v: Word, k: Word): Word
    requires k < 4
  {
    v << (k * 8)
  }

  lemma ShiftedBy(v: Word, k: Word)
    requires k < 4
    ensures Shifted(v, k) == if k == 0 then v << 0 else if k == 1 then v << 8 else if k == 2 then v << 16 else v << 24
  {
    if k == 0 { assert k * 8 == 0; } else if k == 1 { assert k * 8 == 8; } else if k == 2 { assert k * 8 == 16; }
      else { assert k * 8 == 24; }
  }

  lemma MaskBits(m: bv4)
    ensures m == 1 ==> m & 1 != 0 && m & 2 == 0 && m & 4 == 0 && m & 8 == 0
    ensures m == 2 ==> m & 1 == 0 && m & 2 != 0 && m & 4 == 0 && m & 8 == 0
    ensures m == 4 ==> m & 1 == 0 && m & 2 == 0 && m & 4 != 0 && m & 8 == 0
    ensures m == 8 ==> m & 1 == 0 && m & 2 == 0 && m & 4 == 0 && m & 8 != 0
    ensures m == 3 ==> m & 1 != 0 && m & 2 != 0 && m & 4 == 0 && m & 8 == 0
    ensures m == 12 ==> m & 1 == 0 && m & 2 == 0 && m & 4 != 0 && m & 8 != 0
    ensures m == 15 ==> m & 1 != 0 && m & 2 != 0 && m & 4 != 0 && m & 8 != 0
  {
  }

  /** The request a store makes: its word, its lanes. */
  function StoreRequest(w: Width, a: Word, v: Word, iAddr: nat): Request {
    Request(true, iAddr, Num(WordAddress(a)), false, true, StoreData(w, v, a), StoreMask(w, a))
  }

  lemma SameWordAddress(flat: Flat, a: Word)
    requires flat != []
    ensures WordOf(flat, Num(WordAddress(a))) == WordOf(flat, Num(a))
  {
    hide Num;
    AddressParts(a);
  }

  /** An aligned store, served by the memory, is the store of the ISA. */
  lemma StoreServed(flat: Flat, w: Width, a: Word, v: Word, iAddr: nat)
    requires flat != [] && Aligned(a, w)
    ensures BytesIn(Served(flat, StoreRequest(w, a, v, iAddr))) == StoreBytes(BytesIn(flat), Num(a), v, WidthOf(w))
  {
    hide Num, StoreData, StoreMask, Merged, ExpandWmask, BytesIn, StoreBytes, Replaces;
    SameWordAddress(flat, a);
    var new_ := Merged(flat[WordOf(flat, Num(a))], StoreData(w, v, a), ExpandWmask(StoreMask(w, a)));
    LanesAgree(w, a, v, flat[WordOf(flat, Num(a))]);
    StoreAgrees(flat, Num(a), v, WidthOf(w), new_);
  }

  // ---- accesses that are not aligned

  /** A word is right for every memory exactly if its address is aligned. */
  lemma WordLoadExactly(a: Word)
    ensures (forall flat: Flat :: flat != [] ==> FetchWord(flat, Num(WordAddress(a))) == LoadWord(BytesIn(flat),
              Num(a))) <==>
            a & 3 == 0
  {
    hide Num, FromBytes, ByteOf, BytesIn, LoadWord, FetchWord;
    if a & 3 == 0 {
      assert WordAddress(a) == a by { Unshifted(a); }
      forall flat: Flat | flat != []
        ensures FetchWord(flat, Num(WordAddress(a))) == LoadWord(BytesIn(flat), Num(a))
      {
        FetchAgrees(flat, Num(a));
      }
    } else {
      var flat: Flat := [1];
      LaneNumber(a);
      LowTwo(a);
      AddressParts(a);
      WrongWord(Num(a), Num(WordAddress(a)));
      assert flat != [] && FetchWord(flat, Num(WordAddress(a))) != LoadWord(BytesIn(flat), Num(a));
    }
  }

  lemma Unshifted(a: Word)
    requires a & 3 == 0
    ensures WordAddress(a) == a
  {
  }

  lemma WrongWord(a: nat, b: nat)
    requires a % 4 != 0 && b % 4 == 0
    ensures FetchWord([1], b) != LoadWord(BytesIn([1]), a)
  {
    hide FromBytes, ByteOf;
    var one: Flat := [1];
    FetchAgrees(one, a);
    OneWord();
    assert WordOf(one, a) == 0 && WordOf(one, b) == 0;
    BytesOfWord(ByteAt(one, a), ByteAt(one, a + 1), ByteAt(one, a + 2), ByteAt(one, a + 3));
    BytesOfWord(ByteAt(one, b), ByteAt(one, b + 1), ByteAt(one, b + 2), ByteAt(one, b + 3));
  }

  lemma OneWord()
    ensures ByteOf(1, 0) == 1 && ByteOf(1, 1) == 0 && ByteOf(1, 2) == 0 && ByteOf(1, 3) == 0
  {
  }

  /** The core's store does what the ISA's does at this address, whatever is stored. */
  ghost predicate StoresRight(w: Width, a: Word) {
    forall flat: Flat, v: Word :: flat != [] ==>
      BytesIn(Served(flat, StoreRequest(w, a, v, 0))) == StoreBytes(BytesIn(flat), Num(a), v, WidthOf(w))
  }

  /** A store is right for every memory and value exactly if its address is aligned: at an odd address
      a halfword goes to the lanes below, and a word goes to the word that holds the address. */
  lemma StoreExactly(w: Width, a: Word)
    ensures StoresRight(w, a) <==> Aligned(a, w)
  {
    hide Num, BytesIn, StoreBytes, StoreRequest, Served;
    if Aligned(a, w) {
      forall flat: Flat, v: Word | flat != []
        ensures BytesIn(Served(flat, StoreRequest(w, a, v, 0))) == StoreBytes(BytesIn(flat), Num(a), v, WidthOf(w))
      {
        StoreServed(flat, w, a, v, 0);
      }
    } else {
      var flat: Flat, v: Word := [0], 1;
      WrongStore(w, a);
      assert flat != [] &&
             BytesIn(Served(flat, StoreRequest(w, a, v, 0))) != StoreBytes(BytesIn(flat), Num(a), v, WidthOf(w));
    }
  }

  lemma OtherPlace(a: nat, k: nat, m: nat)
    requires 0 < k < m
    ensures (a + k) % m != a % m
  {
    var q, r := a / m, a % m;
    if r + k < m { Bits.DivUnique(a + k, m, q, r + k); } else { Bits.DivUnique(a + k, m, q + 1, r + k - m); }
  }

  lemma {:induction false} FirstStored(mem: Bytes, a: nat, v: Word, n: nat)
    requires 0 < n <= 4 <= |mem|
    ensures StoreBytes(mem, a, v, n)[a % |mem|] == ByteOf(v, 0)
  {
    hide ByteOf;
    if n > 1 {
      FirstStored(mem, a, v, n - 1);
      OtherPlace(a, n - 1, |mem|);
    } else {
      assert StoreBytes(mem, a, v, 0) == mem;
    }
  }

  /** The byte at the address itself is not the first one of the value. */
  lemma WrongStore(w: Width, a: Word)
    requires !Aligned(a, w)
    ensures BytesIn(Served([0], StoreRequest(w, a, 1, 0))) != StoreBytes(BytesIn([0]), Num(a), 1, WidthOf(w))
  {
    hide Num, StoreBytes, StoreData, StoreMask, Merged, ExpandWmask, ByteOf, WordAddress;
    var new_ := Merged(0, StoreData(w, 1, a), ExpandWmask(StoreMask(w, a)));
    FirstStored(BytesIn([0]), Num(a), 1, WidthOf(w));
    OneWord();
    WrongLane(w, a, new_);
    assert Served([0], StoreRequest(w, a, 1, 0)) == [new_];
    assert BytesIn([new_])[Num(a) % 4] == ByteOf(new_, Num(a) % 4);
  }

  lemma WrongLane(w: Width, a: Word, new_: Word)
    requires !Aligned(a, w) && new_ == Merged(0, StoreData(w, 1, a), ExpandWmask(StoreMask(w, a)))
    ensures ByteOf(new_, Num(a) % 4) == 0
  {
    hide Num, StoreData, Merged, ExpandWmask, ByteOf;
    LowTwo(a);
    LaneNumber(a);
    OneWord();
    DataMoved(w, a, 1);
    Lanes(1);
    MaskedByte(0, StoreData(w, 1, a), StoreMask(w, a));
    MaskBits(StoreMask(w, a));
  }
}
