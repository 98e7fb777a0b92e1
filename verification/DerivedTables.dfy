/**
 * The working tables the coder and the decoder derive from a Huffman table:
 * jpeg_make_c_derived_tbl (jchuff.c) and jpeg_make_d_derived_tbl (jdhuff.c).
 */
module DerivedTables {
  import opened Bits
  import opened HuffmanCodes

  const LOOKAHEAD := 8

  /** c_derived_tbl: code and code length of each symbol; length 0 means "no code". */
  datatype CTable = CTable(ehufco: seq<nat>, ehufsi: seq<nat>)

  /** d_derived_tbl: the bit-serial tables and the eight-bit lookahead. */
  datatype DTable = DTable(pub: HuffTable, mincode: seq<int>, maxcode: seq<int>, valptr: seq<int>,
                           lookNbits: seq<nat>, lookSym: seq<Byte>)

  /** The code `c` of length `l` belongs to symbol `sym`. */
  predicate Slot(h: HuffTable, l: nat, c: nat, sym: Byte)
    requires h.WellFormed()
  {
    1 <= l <= 16 && First(h.bits, l) <= c < First(h.bits, l) + h.bits[l] &&
    SymbolOf(h, l, c - First(h.bits, l)) == sym
  }

  ghost predicate CDerived(h: HuffTable, c: CTable)
    requires h.WellFormed()
  {
    |c.ehufco| == |c.ehufsi| == 256 &&
    (forall sym: Byte :: c.ehufsi[sym] != 0 ==>
       Slot(h, c.ehufsi[sym], c.ehufco[sym], sym)) &&
    (forall l: nat, j: nat :: IsCode(h.bits, l, j) ==> c.ehufsi[SymbolOf(h, l, j)] != 0)
  }

  ghost predicate SerialDerived(h: HuffTable, mincode: seq<int>, maxcode: seq<int>, valptr: seq<int>, m: nat)
    requires h.WellFormed() && m <= 17
  {
    |mincode| == |valptr| == 17 && |maxcode| == 18 &&
    forall l: nat :: 1 <= l < m ==> SerialEntry(h, mincode[l], maxcode[l], valptr[l], l)
  }

  /** The entries of length `l`: place of its first symbol, its first and its last code. */
  predicate SerialEntry(h: HuffTable, min: int, max: int, ptr: int, l: nat)
    requires h.WellFormed() && 1 <= l <= 16
  {
    if h.bits[l] > 0 then ptr == Count(h.bits, l - 1) && min == First(h.bits, l) && max == Kraft(h.bits, l) - 1
    else max == -1
  }

  /** The first `l` of the eight lookahead bits. */
  function Top(v: nat, l: nat): nat
    requires l <= LOOKAHEAD
  {
    DivAtLeast(v, Pow2(LOOKAHEAD - l), 0);
    v / Pow2(LOOKAHEAD - l)
  }

  /** The first `l` bits of `v` lie beyond all codes of that length. */
  predicate PastCodes(h: HuffTable, v: nat, l: nat)
    requires h.WellFormed() && 1 <= l <= LOOKAHEAD
  {
    Top(v, l) >= Kraft(h.bits, l)
  }

  /** One lookahead entry: a length and the symbol of the codeword that the eight bits `v`
      begin with, or length 0 when no codeword of at most eight bits fits. */
  ghost predicate LookEntry(h: HuffTable, v: nat, nbits: nat, sym: Byte)
    requires h.WellFormed()
  {
    if nbits == 0 then
      forall l: nat :: 1 <= l <= LOOKAHEAD ==> PastCodes(h, v, l)
    else
      nbits <= LOOKAHEAD && Slot(h, nbits, Top(v, nbits), sym)
  }

  ghost predicate DDerived(h: HuffTable, d: DTable)
    requires h.WellFormed()
  {
    d.pub == h && SerialDerived(h, d.mincode, d.maxcode, d.valptr, 17) && d.maxcode[17] == 0xFFFFF &&
    |d.lookNbits| == |d.lookSym| == 256 &&
    forall v: nat :: v < 256 ==> LookEntry(h, v, d.lookNbits[v], d.lookSym[v])
  }

  // ---- figures C.1 and C.2: sizes and codes in code-length order

  /** The entry of codeword (l, j) in the size list is filled in. */
  ghost predicate SizeAt(h: HuffTable, huffsize: seq<nat>, l: nat, j: nat)
    requires h.WellFormed() && |huffsize| == 257 && IsCode(h.bits, l, j)
  {
    huffsize[Index(h, l, j)] == l
  }

  ghost predicate CodeAt(h: HuffTable, huffcode: seq<nat>, l: nat, j: nat)
    requires h.WellFormed() && |huffcode| == 257 && IsCode(h.bits, l, j)
  {
    huffcode[Index(h, l, j)] == First(h.bits, l) + j
  }

  /** Codewords in code-length order: (m, i) comes before place (l, j). */
  predicate Before(m: nat, i: nat, l: nat, j: nat) {
    m < l || (m == l && i < j)
  }

  lemma BeforeIndex(h: HuffTable, m: nat, i: nat, l: nat, j: nat)
    requires h.WellFormed() && IsCode(h.bits, m, i) && l <= 16 && 1 <= l && j <= h.bits[l]
    ensures Before(m, i, l, j) <==> Index(h, m, i) < Count(h.bits, l - 1) + j
  {
    if m < l { CountMonotone(h.bits, m, l - 1); }
    if m > l { CountMonotone(h.bits, l, m - 1); }
  }

  /** Figure C.1. */
  method GenerateSizes(h: HuffTable) returns (huffsize: array<nat>, lastp: nat)
    requires h.WellFormed()
    ensures fresh(huffsize) && huffsize.Length == 257 && lastp == Count(h.bits, 16) && huffsize[lastp] == 0
    ensures forall l: nat, j: nat :: IsCode(h.bits, l, j) ==> SizeAt(h, huffsize[..], l, j)
  {
    huffsize := new nat[257];
    var p := 0;
    for l := 1 to 17
      invariant p == Count(h.bits, l - 1) <= 256
      invariant forall m: nat, j: nat :: IsCode(h.bits, m, j) && m < l ==> SizeAt(h, huffsize[..], m, j)
    {
      CountMonotone(h.bits, l, 16);
      for i := 0 to h.bits[l]
        invariant p == Count(h.bits, l - 1) + i <= 256
        invariant forall m: nat, j: nat :: IsCode(h.bits, m, j) && Before(m, j, l, i) ==>
                    SizeAt(h, huffsize[..], m, j)
      {
        ghost var old_ := huffsize[..];
        huffsize[p] := l;
        forall m: nat, j: nat | IsCode(h.bits, m, j) && Before(m, j, l, i + 1)
          ensures SizeAt(h, huffsize[..], m, j)
        {
          BeforeIndex(h, m, j, l, i);
          assert Before(m, j, l, i) ==> SizeAt(h, old_, m, j);
        }
        p := p + 1;
      }
    }
    ghost var old_ := huffsize[..];
    huffsize[p] := 0;
    lastp := p;
    forall m: nat, j: nat | IsCode(h.bits, m, j)
      ensures SizeAt(h, huffsize[..], m, j)
    {
      assert SizeAt(h, old_, m, j);
    }
  }

  /** Every place of the size list belongs to one codeword. */
  lemma {:induction false} Place(h: HuffTable, p: nat, m: nat) returns (l: nat, j: nat)
    requires h.WellFormed() && m <= 16 && p < Count(h.bits, m)
    ensures IsCode(h.bits, l, j) && l <= m && Index(h, l, j) == p
  {
    if p < Count(h.bits, m - 1) {
      l, j := Place(h, p, m - 1);
    } else {
      l, j := m, p - Count(h.bits, m - 1);
    }
  }

  lemma {:induction false} NoneYet(bits: seq<nat>, m: nat)
    requires m < |bits| && Count(bits, m) == 0
    ensures Kraft(bits, m) == 0
  {
    if m > 0 { NoneYet(bits, m - 1); }
  }

  ghost predicate SizesAre(h: HuffTable, huffsize: seq<nat>)
    requires h.WellFormed()
  {
    |huffsize| == 257 && huffsize[Count(h.bits, 16)] == 0 &&
    forall l: nat, j: nat :: IsCode(h.bits, l, j) ==> SizeAt(h, huffsize, l, j)
  }

  /** What the size at a place says about where the place lies. */
  lemma SizeTells(h: HuffTable, huffsize: seq<nat>, p: nat)
    requires h.WellFormed() && SizesAre(h, huffsize) && p <= Count(h.bits, 16)
    ensures huffsize[p] == 0 <==> p == Count(h.bits, 16)
    ensures huffsize[p] <= 16
    ensures huffsize[p] != 0 ==> Count(h.bits, huffsize[p] - 1) <= p < Count(h.bits, huffsize[p])
  {
    if p < Count(h.bits, 16) {
      var l, j := Place(h, p, 16);
      assert SizeAt(h, huffsize, l, j);
    }
  }

  lemma CountOrder(bits: seq<nat>, l: nat, m: nat)
    requires l < |bits| && m < |bits|
    ensures Count(bits, l) < Count(bits, m) ==> l < m
  {
    if m <= l { CountMonotone(bits, m, l); }
  }

  lemma AtLength(h: HuffTable, huffsize: seq<nat>, p: nat, si: nat)
    requires h.WellFormed() && SizesAre(h, huffsize) && 1 <= si <= 16
    requires Count(h.bits, si - 1) <= p <= Count(h.bits, si)
    ensures Count(h.bits, si) <= Count(h.bits, 16)
    ensures huffsize[p] == si <==> p < Count(h.bits, si)
  {
    CountMonotone(h.bits, si, 16);
    SizeTells(h, huffsize, p);
    var l := huffsize[p];
    if l != 0 {
      CountOrder(h.bits, l - 1, si);
      CountOrder(h.bits, si - 1, l);
    }
  }

  /** Figure C.2. */
  method GenerateCodes(h: HuffTable, huffsize: array<nat>) returns (huffcode: array<nat>)
    requires h.WellFormed() && SizesAre(h, huffsize[..])
    ensures fresh(huffcode) && huffcode.Length == 257
    ensures forall l: nat, j: nat :: IsCode(h.bits, l, j) ==> CodeAt(h, huffcode[..], l, j)
  {
    huffcode := new nat[257];
    var code, si, p := 0, huffsize[0], 0;
    SizeTells(h, huffsize[..], 0);
    if si > 0 { NoneYet(h.bits, si - 1); }
    while huffsize[p] != 0
      invariant si <= 17 && p <= Count(h.bits, 16)
      invariant si == 0 ==> huffsize[p] == 0
      invariant si > 0 ==> p == Count(h.bits, si - 1) && code == 2 * Kraft(h.bits, si - 1)
      invariant forall m: nat, j: nat :: IsCode(h.bits, m, j) && Index(h, m, j) < p ==> CodeAt(h, huffcode[..], m, j)
      decreases 17 - si
    {
      SizeTells(h, huffsize[..], p);
      CountOrder(h.bits, si - 1, huffsize[p]);
      AtLength(h, huffsize[..], p, si);
      ghost var start := p;
      while huffsize[p] == si
        invariant start == Count(h.bits, si - 1) <= p <= Count(h.bits, si)
        invariant code == First(h.bits, si) + (p - start)
        invariant forall m: nat, j: nat :: IsCode(h.bits, m, j) && Index(h, m, j) < p ==> CodeAt(h, huffcode[..], m, j)
        decreases 257 - p
      {
        AtLength(h, huffsize[..], p, si);
        ghost var old_ := huffcode[..];
        huffcode[p] := code;
        forall m: nat, j: nat | IsCode(h.bits, m, j) && Index(h, m, j) < p + 1
          ensures CodeAt(h, huffcode[..], m, j)
        {
          BeforeIndex(h, m, j, si, p - start);
          BeforeIndex(h, m, j, si, p - start + 1);
          assert Index(h, m, j) < p ==> CodeAt(h, old_, m, j);
        }
        p := p + 1;
        code := code + 1;
      }
      AtLength(h, huffsize[..], p, si);
      code := code * 2;
      si := si + 1;
    }
    SizeTells(h, huffsize[..], p);
  }

  // ---- jpeg_make_c_derived_tbl

  /** The table entries made from the first `p` codes: each coded symbol has one of its
      codes, and no other symbol has any. */
  ghost predicate CDerivedUpTo(h: HuffTable, ehufco: seq<nat>, ehufsi: seq<nat>, p: nat)
    requires h.WellFormed()
  {
    |ehufco| == |ehufsi| == 256 &&
    (forall sym: Byte :: ehufsi[sym] != 0 ==> Slot(h, ehufsi[sym], ehufco[sym], sym)) &&
    (forall l: nat, j: nat :: IsCode(h.bits, l, j) && Index(h, l, j) < p ==> ehufsi[SymbolOf(h, l, j)] != 0)
  }

  method MakeCDerived(h: HuffTable) returns (c: CTable)
    requires h.WellFormed()
    ensures CDerived(h, c)
  {
    var huffsize, lastp := GenerateSizes(h);
    var huffcode := GenerateCodes(h, huffsize);
    var ehufco := new nat[256](_ => 0);
    var ehufsi := new nat[256](_ => 0);
    for p := 0 to lastp
      modifies ehufco, ehufsi
      invariant CDerivedUpTo(h, ehufco[..], ehufsi[..], p)
    {
      ghost var l, j := Place(h, p, 16);
      assert SizeAt(h, huffsize[..], l, j) && CodeAt(h, huffcode[..], l, j);
      ghost var co, ss := ehufco[..], ehufsi[..];
      var sym := h.huffval[p];
      ehufco[sym] := huffcode[p];
      ehufsi[sym] := huffsize[p];
      ghost var code: nat := First(h.bits, l) + j;
      assert ehufco[..] == co[sym := code] && ehufsi[..] == ss[sym := l];
      ExtendC(h, co, ss, p, l, j, code);
    }
    c := CTable(ehufco[..], ehufsi[..]);
  }

  lemma ExtendC(h: HuffTable, co: seq<nat>, ss: seq<nat>, p: nat, l: nat, j: nat, code: nat)
    requires h.WellFormed() && CDerivedUpTo(h, co, ss, p) && IsCode(h.bits, l, j) && Index(h, l, j) == p
    requires code == First(h.bits, l) + j
    ensures CDerivedUpTo(h, co[SymbolOf(h, l, j) := code], ss[SymbolOf(h, l, j) := l], p + 1)
  {
    forall m: nat, i: nat | IsCode(h.bits, m, i) && Index(h, m, i) < p + 1
      ensures ss[SymbolOf(h, l, j) := l][SymbolOf(h, m, i)] != 0
    {
      BeforeIndex(h, m, i, l, j);
      BeforeIndex(h, m, i, l, j + 1);
    }
  }

  // ---- jpeg_make_d_derived_tbl

  /** Figure F.15. */
  method MakeSerialTables(h: HuffTable, huffcode: array<nat>)
      returns (mincode: array<int>, maxcode: array<int>, valptr: array<int>)
    requires h.WellFormed() && huffcode.Length == 257
    requires forall l: nat, j: nat :: IsCode(h.bits, l, j) ==> CodeAt(h, huffcode[..], l, j)
    ensures fresh(mincode) && fresh(maxcode) && fresh(valptr)
    ensures SerialDerived(h, mincode[..], maxcode[..], valptr[..], 17) && maxcode[17] == 0xFFFFF
  {
    mincode, maxcode, valptr := new int[17], new int[18], new int[17];
    var p := 0;
    for l := 1 to 17
      invariant p == Count(h.bits, l - 1)
      invariant SerialDerived(h, mincode[..], maxcode[..], valptr[..], l)
    {
      if h.bits[l] != 0 {
        assert CodeAt(h, huffcode[..], l, 0) && CodeAt(h, huffcode[..], l, h.bits[l] - 1);
        assert Index(h, l, 0) == p && Index(h, l, h.bits[l] - 1) == p + h.bits[l] - 1;
        valptr[l] := p;
        mincode[l] := huffcode[p];
        p := p + h.bits[l];
        maxcode[l] := huffcode[p - 1];
      } else {
        maxcode[l] := -1;
      }
    }
    maxcode[17] := 0xFFFFF;
  }

  /** The lookahead tables after all entries below `bound` are filled. */
  ghost predicate LookFilled(h: HuffTable, lookNbits: seq<nat>, lookSym: seq<Byte>, bound: nat)
    requires h.WellFormed()
  {
    |lookNbits| == |lookSym| == 256 && bound <= 256 &&
    (forall v: nat :: v < bound ==>
       1 <= lookNbits[v] <= LOOKAHEAD && Slot(h, lookNbits[v], Top(v, lookNbits[v]), lookSym[v])) &&
    (forall v: nat :: bound <= v < 256 ==> lookNbits[v] == 0)
  }

  /** Lookahead entries taken by all codes of at most `l` bits ... */
  function LookDone(h: HuffTable, l: nat): nat
    requires h.WellFormed() && l <= LOOKAHEAD
  {
    Kraft(h.bits, l) * Pow2(LOOKAHEAD - l)
  }

  /** ... and by those of fewer bits and the first `i` of `l` bits. */
  function LookPart(h: HuffTable, l: nat, i: nat): nat
    requires h.WellFormed() && 1 <= l <= LOOKAHEAD
  {
    (First(h.bits, l) + i) * Pow2(LOOKAHEAD - l)
  }

  lemma LookWhole(h: HuffTable, l: nat)
    requires h.WellFormed() && 1 <= l <= LOOKAHEAD
    ensures LookPart(h, l, 0) == LookDone(h, l - 1) && LookPart(h, l, h.bits[l]) == LookDone(h, l)
  {
    WidthHalves(Kraft(h.bits, l - 1), l);
  }

  method MakeLookahead(h: HuffTable, huffcode: array<nat>) returns (lookNbits: array<nat>, lookSym: array<Byte>)
    requires h.Valid() && huffcode.Length == 257
    requires forall l: nat, j: nat :: IsCode(h.bits, l, j) ==> CodeAt(h, huffcode[..], l, j)
    ensures fresh(lookNbits) && fresh(lookSym)
    ensures LookFilled(h, lookNbits[..], lookSym[..], LookDone(h, LOOKAHEAD))
  {
    lookNbits, lookSym := new nat[256](_ => 0), new Byte[256](_ => 0);
    var p := 0;
    for l := 1 to LOOKAHEAD + 1
      modifies lookNbits, lookSym
      invariant p == Count(h.bits, l - 1)
      invariant LookFilled(h, lookNbits[..], lookSym[..], LookDone(h, l - 1))
    {
      LookWhole(h, l);
      for i := 0 to h.bits[l]
        invariant p == Count(h.bits, l - 1) + i
        invariant LookFilled(h, lookNbits[..], lookSym[..], LookPart(h, l, i))
      {
        assert CodeAt(h, huffcode[..], l, i) && Index(h, l, i) == p;
        FillCode(h, lookNbits, lookSym, l, i, huffcode[p], h.huffval[p]);
        p := p + 1;
      }
    }
  }

  lemma WidthHalves(k: nat, l: nat)
    requires 1 <= l <= LOOKAHEAD
    ensures k * Pow2(LOOKAHEAD - (l - 1)) == (2 * k) * Pow2(LOOKAHEAD - l)
  {
    assert Pow2(LOOKAHEAD - (l - 1)) == 2 * Pow2(LOOKAHEAD - l);
  }

  /** Fill in every lookahead entry that begins with one code. */
  method FillCode(h: HuffTable, lookNbits: array<nat>, lookSym: array<Byte>, l: nat, ghost i: nat, code: nat, sym: Byte)
    requires h.Valid() && lookNbits.Length == lookSym.Length == 256
    requires 1 <= l <= LOOKAHEAD && i < h.bits[l] && code == First(h.bits, l) + i && sym == SymbolOf(h, l, i)
    requires LookFilled(h, lookNbits[..], lookSym[..], LookPart(h, l, i))
    modifies lookNbits, lookSym
    ensures LookFilled(h, lookNbits[..], lookSym[..], LookPart(h, l, i + 1))
  {
    LookRoom(h, l, i);
    var lookbits := code * Pow2(LOOKAHEAD - l);
    var ctr := Pow2(LOOKAHEAD - l);
    ghost var start, width := lookbits, ctr;
    while ctr > 0
      invariant 0 <= ctr <= width && lookbits == start + (width - ctr)
      invariant LookFilled(h, lookNbits[..], lookSym[..], lookbits)
    {
      DivUnique(lookbits, width, code, width - ctr);
      ghost var n, s := lookNbits[..], lookSym[..];
      lookNbits[lookbits] := l;
      lookSym[lookbits] := sym;
      assert lookNbits[..] == n[lookbits := l] && lookSym[..] == s[lookbits := sym];
      lookbits := lookbits + 1;
      ctr := ctr - 1;
    }
  }

  lemma LookRoom(h: HuffTable, l: nat, i: nat)
    requires h.Valid() && 1 <= l <= LOOKAHEAD && i < h.bits[l]
    ensures (First(h.bits, l) + i) * Pow2(LOOKAHEAD - l) + Pow2(LOOKAHEAD - l) ==
            (First(h.bits, l) + i + 1) * Pow2(LOOKAHEAD - l) <= 256
  {
    KraftBound(h.bits, l);
    Pow2Add(l, LOOKAHEAD - l);
    RoomFor(First(h.bits, l) + i, Pow2(l), Pow2(LOOKAHEAD - l), Pow2(LOOKAHEAD));
    Powers();
  }

  lemma RoomFor(c: nat, p: nat, d: nat, all: nat)
    requires c + 1 <= p && d > 0 && all == p * d
    ensures c * d + d == (c + 1) * d <= all
  {
    MulAtLeast(c + 1, p, d);
  }

  method MakeDDerived(h: HuffTable) returns (d: DTable)
    requires h.Valid()
    ensures DDerived(h, d)
  {
    var huffsize, lastp := GenerateSizes(h);
    var huffcode := GenerateCodes(h, huffsize);
    var mincode, maxcode, valptr := MakeSerialTables(h, huffcode);
    var lookNbits, lookSym := MakeLookahead(h, huffcode);
    d := DTable(h, mincode[..], maxcode[..], valptr[..], lookNbits[..], lookSym[..]);
    LookComplete(h, d.lookNbits, d.lookSym);
  }

  /** Filling up to Kraft's sum at eight bits covers every codeword of at most eight bits. */
  lemma LookComplete(h: HuffTable, lookNbits: seq<nat>, lookSym: seq<Byte>)
    requires h.WellFormed() && LookFilled(h, lookNbits, lookSym, LookDone(h, LOOKAHEAD))
    ensures forall v: nat :: v < 256 ==> LookEntry(h, v, lookNbits[v], lookSym[v])
  {
    forall v: nat, l: nat | Kraft(h.bits, LOOKAHEAD) <= v < 256 && 1 <= l <= LOOKAHEAD
      ensures PastCodes(h, v, l)
    {
      KraftGrows(h.bits, l, LOOKAHEAD);
      DivAtLeast(v, Pow2(LOOKAHEAD - l), Kraft(h.bits, l));
    }
  }
}
