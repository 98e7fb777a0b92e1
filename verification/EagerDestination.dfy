/**
 * What libjpeg.doc warns of under "I/O suspension": a destination that takes the buffer in the middle
 * of an MCU and then refuses gets the first bytes of the MCU again when it is coded anew.
 */
module EagerDestination {
  import opened Bits
  import opened ByteStuffing
  import opened DerivedTables
  import opened Destination
  import opened EntropySpec
  import opened HuffEncoder
  import opened SequentialCoding
  import opened Zigzag

  /** Takes the first buffer, of one byte, refuses the second, and then has room. */
  function TakesOnce(k: nat): Answer {
    if k == 0 then Accept(1) else if k == 1 then Refuse else Accept(9)
  }

  /** A table in which only symbol 0 has a code. */
  function OneCode(code: nat): CTable {
    CTable(seq(256, _ => code), seq(256, sym => if sym == 0 then 8 else 0))
  }

  function OneCodeTables(): (t: CTables)
    ensures t.Valid()
  {
    CTables(seq(NUM_TBLS, _ => OneCode(1)), seq(NUM_TBLS, _ => OneCode(2)))
  }

  function OneBlockScan(o: Order): (sc: Scan)
    requires Reorders(o)
    ensures sc.Valid()
  {
    Scan([0], [0], [0], 0, o)
  }

  function ZeroBlock(): Block {
    seq(64, _ => 0)
  }

  /** The MCU comes to two bytes, one for its DC and one for its EOB symbol. */
  lemma TwoBytes(o: Order)
    requires Reorders(o)
    ensures CodableMcu(OneBlockScan(o), [ZeroBlock()])
    ensures AllSendable(OneCodeTables(), NextItems(OneBlockScan(o), Start(OneBlockScan(o)), [ZeroBlock()]))
    ensures McuBytes(OneBlockScan(o), OneCodeTables(), Start(OneBlockScan(o)), [ZeroBlock()]) == [1, 2]
  {
    hide Reorders, ToBits, Octet;
    var sc, t, b := OneBlockScan(o), OneCodeTables(), ZeroBlock();
    var dc, ac := Sym(DC, 0, 0), Sym(AC, 0, 0);
    NoCoefficients(0, Ranked(o, b), 1, 0);
    assert McuItems(sc, [b], [0], 0) == [dc] + [ac];
    assert NextItems(sc, Start(sc), [b]) == McuItems(sc, [b], [0], 0) by { assert Start(sc).lastDc == [0]; }
    SingleItemBits(t, dc);
    SingleItemBits(t, ac);
    ItemsBitsAppend(t, [dc], [ac]);
    ByteOfBits(1);
    ByteOfBits(2);
    PackTwo(ToBits(1, 8), ToBits(2, 8));
  }

  lemma {:induction false} NoCoefficients(tbl: nat, z: seq<int>, k: nat, r: nat)
    requires k <= |z| && forall i :: k <= i < |z| ==> z[i] == 0
    ensures AcItems(tbl, z, k, r) == if r + |z| - k > 0 then [Sym(AC, tbl, 0)] else []
    decreases |z| - k
  {
    if k < |z| { NoCoefficients(tbl, z, k + 1, r + 1); }
  }

  lemma PackTwo(a: Bits, b: Bits)
    requires |a| == |b| == 8 && Octet(a) != 0xFF && Octet(b) != 0xFF
    ensures Packed([] + (a + b)) == [Octet(a), Octet(b)]
  {
    hide Octet, StuffedByte;
    PackOne(b, []);
    PackOne(a, b);
    assert [] + (a + b) == a + b && b + [] == b;
    assert Packed([]) == [];
  }

  lemma PackOne(a: Bits, rest: Bits)
    requires |a| == 8 && Octet(a) != 0xFF
    ensures Packed(a + rest) == [Octet(a)] + Packed(rest)
  {
    hide Octet;
    assert (a + rest)[..8] == a && (a + rest)[8..] == rest;
  }

  /** A byte is sent twice: one byte of room, and the destination takes it. */
  method SentTwice() returns (first: Status, early: seq<Byte>, second: Status, stream: seq<Byte>)
    ensures first == Suspended && early == [1]
    ensures second == Done && stream == [1, 1, 2]
  {
    JpegOrderReorders();
    var o := JPEG_NATURAL_ORDER;
    TwoBytes(o);
    var enc := new Encoder(OneBlockScan(o), OneCodeTables(), Dest([], [], 1, TakesOnce, 0));
    first := enc.EncodeMcu([ZeroBlock()]);
    early := enc.dest.Stream();
    second := enc.EncodeMcu([ZeroBlock()]);
    stream := enc.dest.Stream();
  }
}
