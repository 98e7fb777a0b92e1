/**
 * Entropy-coded bits as bytes (ITU-T T.81, F.1.2.3): whole bytes, each 0xFF followed by a
 * stuffed zero, up to a marker.
 */
module ByteStuffing {
  import opened Bits

  function StuffedByte(v: Byte): seq<Byte> {
    if v == 0xFF then [0xFF, 0] else [v]
  }

  function Octet(b: Bits): Byte
    requires |b| == 8
  {
    ValueBound(b);
    assert Pow2(8) == 256;
    Value(b)
  }

  /** The bytes a bit string fills completely. */
  function Packed(b: Bits): seq<Byte> {
    if |b| < 8 then [] else StuffedByte(Octet(b[..8])) + Packed(b[8..])
  }

  /** The bits left over, fewer than eight. */
  function Tail(b: Bits): (t: Bits)
    ensures |t| < 8
  {
    if |b| < 8 then b else Tail(b[8..])
  }

  /** What flush_bits sends to end a segment: the pending bits, filled up with ones. */
  function Flushed(pending: Bits): seq<Byte> {
    Packed(pending + ToBits(0x7F, 7))
  }

  /** The data bits of a byte stream, up to its first marker; repeated 0xFF are fill bytes. */
  function DataBits(s: seq<Byte>): Bits {
    if s == [] then []
    else if s[0] != 0xFF then ToBits(s[0], 8) + DataBits(s[1..])
    else
      var z := SkipFill(s);
      if z == |s| || s[z] != 0 then [] else ToBits(0xFF, 8) + DataBits(s[z + 1..])
  }

  /** The first byte that is not 0xFF. */
  function SkipFill(s: seq<Byte>): (z: nat)
    ensures z <= |s|
    ensures forall i :: 0 <= i < z ==> s[i] == 0xFF
    ensures z < |s| ==> s[z] != 0xFF
    ensures s != [] && s[0] == 0xFF ==> z >= 1
  {
    if s == [] || s[0] != 0xFF then 0 else 1 + SkipFill(s[1..])
  }

  /** The stream runs into a marker before its bytes run out. */
  predicate HasMarker(s: seq<Byte>) {
    if s == [] then false
    else if s[0] != 0xFF then HasMarker(s[1..])
    else
      var z := SkipFill(s);
      z < |s| && (s[z] != 0 || HasMarker(s[z + 1..]))
  }

  /** The first marker of a stream ... */
  function MarkerCode(s: seq<Byte>): (m: Byte)
    requires HasMarker(s)
    ensures m != 0
  {
    if s[0] != 0xFF then MarkerCode(s[1..])
    else
      var z := SkipFill(s);
      if s[z] != 0 then s[z] else MarkerCode(s[z + 1..])
  }

  /** ... and what follows it. */
  function AfterMarker(s: seq<Byte>): seq<Byte>
    requires HasMarker(s)
  {
    if s[0] != 0xFF then AfterMarker(s[1..])
    else
      var z := SkipFill(s);
      if s[z] != 0 then s[z + 1..] else AfterMarker(s[z + 1..])
  }

  /** Bits packed a piece at a time are packed as one string. */
  lemma {:induction false} PackMore(a: Bits, b: Bits)
    ensures Packed(a + b) == Packed(a) + Packed(Tail(a) + b)
    ensures Tail(a + b) == Tail(Tail(a) + b)
  {
    hide Octet, StuffedByte;
    if |a| >= 8 {
      PackMore(a[8..], b);
      assert (a + b)[..8] == a[..8] && (a + b)[8..] == a[8..] + b;
    }
  }

  /** The bits that fill whole bytes. */
  function Whole(b: Bits): Bits {
    b[..|b| - |b| % 8]
  }

  lemma DropTwice(b: Bits, k: nat)
    requires 8 <= k <= |b|
    ensures b[8..][k - 8..] == b[k..]
  {
  }

  lemma {:induction false} TailIs(b: Bits)
    ensures Tail(b) == b[|b| - |b| % 8..]
  {
    if |b| < 8 {
      NoneWhole(b);
    } else {
      TailIs(b[8..]);
      EightLess(|b|);
      DropTwice(b, |b| - |b| % 8);
    }
  }

  lemma NoneWhole(b: Bits)
    requires |b| < 8
    ensures b[|b| - |b| % 8..] == b
  {
  }

  lemma EightLess(n: nat)
    requires n >= 8
    ensures (n - 8) % 8 == n % 8 && 8 <= n - n % 8
  {
  }

  lemma UnpackByte(b: Bits, rest: seq<Byte>)
    requires |b| >= 8
    ensures DataBits(Packed(b) + rest) == b[..8] + DataBits(Packed(b[8..]) + rest)
    ensures HasMarker(Packed(b) + rest) == HasMarker(Packed(b[8..]) + rest)
  {
    var v, more := Octet(b[..8]), Packed(b[8..]) + rest;
    assert Packed(b) + rest == StuffedByte(v) + more;
    StuffedByteReads(v, more);
    ToBitsValue(b[..8]);
  }

  /** Packing loses nothing: the bytes give back all bits but the tail. */
  lemma {:induction false} Unpack(b: Bits, rest: seq<Byte>)
    ensures DataBits(Packed(b) + rest) == Whole(b) + DataBits(rest)
    ensures HasMarker(Packed(b) + rest) == HasMarker(rest)
  {
    if |b| < 8 {
      NothingWhole(b, rest);
    } else {
      UnpackByte(b, rest);
      Unpack(b[8..], rest);
      WholeMore(b, DataBits(rest));
    }
  }

  lemma NothingWhole(b: Bits, rest: seq<Byte>)
    requires |b| < 8
    ensures Packed(b) + rest == rest && Whole(b) + DataBits(rest) == DataBits(rest)
  {
  }

  lemma WholeMore(b: Bits, c: Bits)
    requires |b| >= 8
    ensures b[..8] + (Whole(b[8..]) + c) == Whole(b) + c
  {
    WholeSplit(b);
  }

  lemma WholeSplit(b: Bits)
    requires |b| >= 8
    ensures Whole(b) == b[..8] + Whole(b[8..])
  {
  }

  /** The pending bits are sent in one byte, filled up with ones; none are sent if none are pending. */
  lemma FlushedOnes(pending: Bits, rest: seq<Byte>)
    requires |pending| < 8
    ensures DataBits(Flushed(pending) + rest) ==
            pending + (if pending == [] then [] else seq(8 - |pending|, _ => true)) + DataBits(rest)
  {
    hide DataBits, Packed;
    var ones, b := ToBits(0x7F, 7), pending + ToBits(0x7F, 7);
    SevenOnes();
    Unpack(b, rest);
    assert Whole(b) == pending + if pending == [] then [] else seq(8 - |pending|, _ => true);
  }

  lemma SevenOnes()
    ensures ToBits(0x7F, 7) == seq(7, _ => true)
  {
  }

  lemma StuffedByteReads(v: Byte, rest: seq<Byte>)
    ensures DataBits(StuffedByte(v) + rest) == ToBits(v, 8) + DataBits(rest)
    ensures HasMarker(StuffedByte(v) + rest) == HasMarker(rest)
  {
    var s := StuffedByte(v) + rest;
    if v == 0xFF {
      assert s[1..][0] == 0;
      assert SkipFill(s[1..]) == 0;
      assert SkipFill(s) == 1;
      assert s[2..] == rest;
    } else {
      assert s[1..] == rest;
    }
  }
}
