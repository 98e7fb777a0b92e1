/**
 * Whole scans: the coder run over all MCUs and the flush at the end, read back by the decoder,
 * and the coder driven by an application that suspends and drains its output at will.
 */
module ScanRoundTrip {
  import opened Bits
  import opened BitReader
  import opened ByteStuffing
  import opened DerivedTables
  import opened Destination
  import opened EntropySpec
  import opened HuffDecoder
  import opened HuffEncoder
  import opened HuffmanCodes
  import opened RoundTrip
  import opened SequentialCoding
  import opened Zigzag

  // ---- a run seen from any MCU in it

  /** What is to come once the first `i` MCUs are gone. */
  function ComingAt(sc: Scan, t: CTables, mcus: seq<Mcu>, i: nat, tail: seq<Byte>): seq<Byte>
    requires sc.Valid() && t.Valid() && CodableMcus(sc, mcus) && i <= |mcus|
  {
    Coming(sc, t, RunState(sc, t, mcus, i), mcus[i..], tail)
  }

  lemma ComingStep(sc: Scan, t: CTables, mcus: seq<Mcu>, i: nat, tail: seq<Byte>)
    requires sc.Valid() && t.Valid() && CodableMcus(sc, mcus) && i < |mcus|
    ensures ComingAt(sc, t, mcus, i, tail) == McuBytes(sc, t, RunState(sc, t, mcus, i), mcus[i]) +
              ComingAt(sc, t, mcus, i + 1, tail)
  {
    assert mcus[i..][0] == mcus[i] && mcus[i..][1..] == mcus[i + 1..];
  }

  lemma {:induction false} SentAndComing(sc: Scan, t: CTables, mcus: seq<Mcu>, i: nat, tail: seq<Byte>)
    requires sc.Valid() && t.Valid() && CodableMcus(sc, mcus) && i <= |mcus|
    ensures ComingAt(sc, t, mcus, 0, tail) == RunBytes(sc, t, mcus, i) + ComingAt(sc, t, mcus, i, tail)
  {
    if i == 0 {
      NothingSent(ComingAt(sc, t, mcus, 0, tail));
    } else {
      SentAndComing(sc, t, mcus, i - 1, tail);
      ComingStep(sc, t, mcus, i - 1, tail);
      StreamTrans(RunBytes(sc, t, mcus, i - 1), McuBytes(sc, t, RunState(sc, t, mcus, i - 1), mcus[i - 1]),
          ComingAt(sc, t, mcus, i, tail));
    }
  }

  lemma NothingSent(x: seq<Byte>)
    ensures [] + x == x
  {
  }

  /** The bytes of a scan are what is to come at its start. */
  lemma ScanIsComing(sc: Scan, t: CTables, mcus: seq<Mcu>, tail: seq<Byte>)
    requires sc.Valid() && t.Valid() && CodableMcus(sc, mcus)
    ensures ScanBytes(sc, t, mcus) + tail == ComingAt(sc, t, mcus, 0, tail)
  {
    var n := |mcus|;
    SentAndComing(sc, t, mcus, n, tail);
    assert mcus[n..] == [];
    StreamTrans(RunBytes(sc, t, mcus, n), Flushed(RunState(sc, t, mcus, n).pending), tail);
  }

  // ---- the decoder over a whole scan

  ghost predicate DecoderAt(sc: Scan, want: seq<Wanted>, t: CTables, mcus: seq<Mcu>, i: nat, tail: seq<Byte>,
      d: DecoderState)
    requires sc.Valid() && t.Valid() && CodableMcus(sc, mcus) && i <= |mcus|
  {
    InStep(sc, want, RunState(sc, t, mcus, i), d, ComingAt(sc, t, mcus, i, tail))
  }

  lemma StartsInStep(sc: Scan, want: seq<Wanted>, t: CTables, mcus: seq<Mcu>, tail: seq<Byte>, src: seq<Byte>,
      arrived: nat)
    requires sc.Valid() && t.Valid() && CodableMcus(sc, mcus) && EndsInMarker(tail) && |want| == |sc.dcTbl| &&
             src == ScanBytes(sc, t, mcus) + tail
    ensures arrived <= |src| ==> DecoderAt(sc, want, t, mcus, 0, tail, Fresh(sc, src, arrived))
  {
    hide ScanBytes, Coming, WellBegun;
    ScanIsComing(sc, t, mcus, tail);
    assert mcus[0..] == mcus && src[0..] == src;
    ComingStarts(sc, t, Start(sc), mcus, tail);
    if arrived <= |src| {
      var r := Fresh(sc, src, arrived).r;
      assert r.Pending() == DataBits(src);
    }
  }

  /** In step means ready for the next MCU: a restart that is due finds its marker. */
  lemma InStepReady(sc: Scan, want: seq<Wanted>, t: CTables, s: CoderState, mcus: seq<Mcu>, tail: seq<Byte>,
      d: DecoderState)
    requires sc.Valid() && t.Valid() && StateOk(sc, s) && CodableMcus(sc, mcus) && mcus != [] && EndsInMarker(tail)
    requires |want| == |sc.dcTbl| && InStep(sc, want, s, d, Coming(sc, t, s, mcus, tail))
    ensures d.Ready(sc)
  {
    var y := ComingMcu(sc, t, s, mcus, tail);
    ComingStarts(sc, t, NextState(sc, t, s, mcus[0]), mcus[1..], tail);
    ComingMcuStarts(sc, t, s, mcus, tail);
    ComingSplits(sc, t, s, mcus, tail);
    InStepAfterRestart(sc, want, s, d, y);
  }

  lemma DecoderReady(sc: Scan, want: seq<Wanted>, t: CTables, mcus: seq<Mcu>, i: nat, tail: seq<Byte>, d: DecoderState)
    requires sc.Valid() && t.Valid() && CodableMcus(sc, mcus) && i < |mcus| && EndsInMarker(tail) &&
             |want| == |sc.dcTbl| && DecoderAt(sc, want, t, mcus, i, tail, d)
    ensures d.Ready(sc)
  {
    InStepReady(sc, want, t, RunState(sc, t, mcus, i), mcus[i..], tail, d);
  }

  lemma DecoderSteps(hs: HuffTables, t: CTables, sc: Scan, want: seq<Wanted>, mcus: seq<Mcu>, i: nat,
      tail: seq<Byte>, d: DecoderState, d': DecoderState, blocks: seq<Block>)
    requires Matches(hs, t) && sc.Valid() && CodableMcus(sc, mcus) && i < |mcus| && EndsInMarker(tail)
    requires |want| == |sc.dcTbl| && SendableMcu(sc, t, mcus, i)
    requires DecoderAt(sc, want, t, mcus, i, tail, d) && d.Ready(sc)
    requires ReadOne(sc, hs, want, d, d', blocks, d.Stream(sc)) && SameEnd(sc, d, d')
    ensures Delivers(sc, want, mcus[i], blocks) && DecoderAt(sc, want, t, mcus, i + 1, tail, d')
  {
    assert mcus[i..][0] == mcus[i] && mcus[i..][1..] == mcus[i + 1..];
    McuInStep(hs, t, sc, want, RunState(sc, t, mcus, i), mcus[i..], tail, d, d', blocks);
  }

  /** A decoder that is to read the MCUs of a scan. */
  ghost predicate Prepared(dec: Decoder, t: CTables, sent: seq<Mcu>, tail: seq<Byte>)
    reads dec
  {
    dec.Valid() && Matches(dec.hs, t) && EndsInMarker(tail) && CodableMcus(dec.sc, sent)
  }

  /** It reads MCU `i` as from state `d`, if there is one. */
  ghost predicate Expects(dec: Decoder, t: CTables, sent: seq<Mcu>, i: nat, tail: seq<Byte>, d: DecoderState)
    reads dec
  {
    Prepared(dec, t, sent, tail) && i <= |sent| && DecoderAt(dec.sc, dec.want, t, sent, i, tail, d) &&
    (i < |sent| ==> d.Ready(dec.sc) && Resumes(dec.sc, d, dec.s))
  }

  lemma ExpectsNext(dec: Decoder, t: CTables, sent: seq<Mcu>, i: nat, tail: seq<Byte>)
    requires Prepared(dec, t, sent, tail) && i <= |sent| && DecoderAt(dec.sc, dec.want, t, sent, i, tail, dec.s)
    ensures Expects(dec, t, sent, i, tail, dec.s)
  {
    hide DecoderAt, Resumes;
    ResumesItself(dec.sc, dec.s);
    if i < |sent| { DecoderReady(dec.sc, dec.want, t, sent, i, tail, dec.s); }
  }

  lemma ResumesItself(sc: Scan, s: DecoderState)
    ensures s.Ready(sc) ==> Resumes(sc, s, s)
  {
  }

  /** What has been said of reading on from `s` holds of reading from `d`. */
  lemma ReadResumed(sc: Scan, hs: HuffTables, want: seq<Wanted>, d: DecoderState, s: DecoderState, s': DecoderState,
      blocks: seq<Block>)
    requires sc.Valid() && hs.Valid() && |want| == |s.lastDc| == |d.lastDc| == |sc.dcTbl|
    requires d.Ready(sc) && Resumes(sc, d, s)
    requires ReadOne(sc, hs, want, s, s', blocks, s.Stream(sc)) && SameEnd(sc, s, s')
    ensures ReadOne(sc, hs, want, d, s', blocks, d.Stream(sc)) && SameEnd(sc, d, s')
  {
    hide ReadMcu, At, DecoderState.Stream, DecoderState.Marker, DecoderState.Beyond;
  }

  lemma ResumesTrans(sc: Scan, d: DecoderState, s: DecoderState, s': DecoderState)
    requires d.Ready(sc) && Resumes(sc, d, s) && Resumes(sc, s, s')
    ensures Resumes(sc, d, s')
  {
  }

  /** The next MCU, unless its data have not arrived. */
  method DecodeNext(dec: Decoder, ghost t: CTables, ghost sent: seq<Mcu>, ghost i: nat, ghost tail: seq<Byte>,
      ghost d: DecoderState) returns (res: Result, blocks: seq<Block>, ghost d': DecoderState)
    requires Expects(dec, t, sent, i, tail, d) && i < |sent| && SendableMcu(dec.sc, t, sent, i)
    modifies dec
    ensures dec.s.r.src == old(dec.s.r.src) && dec.s.r.arrived == old(dec.s.r.arrived)
    ensures res == Complete ==> Expects(dec, t, sent, i + 1, tail, d') && Delivers(dec.sc, dec.want, sent[i], blocks)
    ensures res != Complete ==> Expects(dec, t, sent, i, tail, d') && dec.s.r.arrived < |dec.s.r.src|
  {
    hide DecoderAt, SendableMcu, ReadOne;
    ghost var before := dec.s;
    OffersStream(dec.sc, before);
    AllReady(dec.sc, before);
    res, blocks := dec.DecodeMcu(before.Stream(dec.sc));
    d' := d;
    if res == Complete {
      DecoderWidth(dec.sc, dec.want, t, sent, i, tail, d);
      ReadResumed(dec.sc, dec.hs, dec.want, d, before, dec.s, blocks);
      DecoderSteps(dec.hs, t, dec.sc, dec.want, sent, i, tail, d, dec.s, blocks);
      ExpectsNext(dec, t, sent, i + 1, tail);
      d' := dec.s;
    } else {
      ResumesTrans(dec.sc, d, before, dec.s);
    }
  }

  lemma DecoderWidth(sc: Scan, want: seq<Wanted>, t: CTables, mcus: seq<Mcu>, i: nat, tail: seq<Byte>,
      d: DecoderState)
    requires sc.Valid() && t.Valid() && CodableMcus(sc, mcus) && i <= |mcus| &&
             DecoderAt(sc, want, t, mcus, i, tail, d)
    ensures |d.lastDc| == |sc.dcTbl|
  {
    assert StateOk(sc, RunState(sc, t, mcus, i));
  }

  /** Once all the data have arrived, those of the next MCU have. */
  lemma AllReady(sc: Scan, s: DecoderState)
    requires s.Ready(sc)
    ensures s.r.arrived == |s.r.src| ==> s.Arrived(sc)
  {
    if s.r.arrived == |s.r.src| { AllArrived(s.r); }
  }

  /** How many bytes arrive in all. */
  function Total(arrivals: seq<nat>): nat {
    if arrivals == [] then 0 else Total(arrivals[..|arrivals| - 1]) + arrivals[|arrivals| - 1]
  }

  /** More data for a decoder that waits for them. */
  method Supply(dec: Decoder, n: nat, ghost t: CTables, ghost sent: seq<Mcu>, ghost i: nat, ghost tail: seq<Byte>,
      ghost d: DecoderState)
    requires Expects(dec, t, sent, i, tail, d)
    modifies dec
    ensures Expects(dec, t, sent, i, tail, d) && dec.s.r.src == old(dec.s.r.src)
    ensures dec.s.r.arrived == |dec.s.r.src| || dec.s.r.arrived == old(dec.s.r.arrived) + n
  {
    hide DecoderAt, DataBits, HasMarker, MarkerCode, AfterMarker, ToBits;
    dec.Receive(n);
  }

  /** Fetch the MCUs of a scan, one decode_mcu after another; when input runs out, wait for more of it
      to arrive and call again. In whatever pieces the data arrive, the MCUs are those sent, as far as
      they are wanted, and all of them once the data are there. */
  method DecodeScan(dec: Decoder, n: nat, arrivals: seq<nat>, ghost t: CTables, ghost sent: seq<Mcu>,
      ghost tail: seq<Byte>) returns (res: Result, mcus: seq<Mcu>)
    requires Prepared(dec, t, sent, tail) && DecoderAt(dec.sc, dec.want, t, sent, 0, tail, dec.s) && n == |sent| &&
             RunSendable(dec.sc, t, sent, n)
    modifies dec
    ensures DeliversAll(dec.sc, dec.want, sent, mcus) && (res == Complete <==> |mcus| == |sent|)
    ensures old(dec.s.r.arrived) + Total(arrivals) >= |old(dec.s.r.src)| ==> res == Complete
  {
    hide DecoderAt, SendableMcu, Resumes, Delivers;
    ExpectsNext(dec, t, sent, 0, tail);
    ghost var d, start := dec.s, dec.s.r.arrived;
    var a := 0;
    mcus := [];
    while |mcus| < n
      invariant a <= |arrivals| && DeliversAll(dec.sc, dec.want, sent, mcus) &&
                Expects(dec, t, sent, |mcus|, tail, d)
      invariant dec.s.r.src == old(dec.s.r.src) &&
                (dec.s.r.arrived >= |dec.s.r.src| || dec.s.r.arrived == start + Total(arrivals[..a]))
      decreases |arrivals| - a, n - |mcus|
    {
      RunSendableEach(dec.sc, t, sent, |mcus|, n);
      var blocks;
      res, blocks, d := DecodeNext(dec, t, sent, |mcus|, tail, d);
      if res == Complete {
        mcus := mcus + [blocks];
      } else if a < |arrivals| {
        assert arrivals[..a + 1][..a] == arrivals[..a];
        Supply(dec, arrivals[a], t, sent, |mcus|, tail, d);
        a := a + 1;
      } else {
        assert arrivals[..a] == arrivals;
        return;
      }
    }
    res := Complete;
  }

  /** The MCUs fetched are the first of those sent, as far as they are wanted. */
  predicate DeliversAll(sc: Scan, want: seq<Wanted>, sent: seq<Mcu>, mcus: seq<Mcu>)
    requires sc.Valid() && |want| == |sc.dcTbl|
  {
    |mcus| <= |sent| && forall i: nat :: i < |mcus| ==> Delivers(sc, want, sent[i], mcus[i])
  }

  lemma EverythingDelivered(sc: Scan, want: seq<Wanted>, sent: seq<Mcu>, mcus: seq<Mcu>)
    requires sc.Valid() && |want| == |sc.dcTbl| && AllWanted(want) && DeliversAll(sc, want, sent, mcus)
    ensures mcus <= sent
  {
    hide Delivers, AllWanted;
    forall i: nat | i < |mcus|
      ensures mcus[i] == sent[i]
    {
      AllDelivered(sc, want, sent[i], mcus[i]);
    }
  }

  // ---- the coder over a whole scan

  /** The tables of both sides, derived from one set of Huffman tables. */
  method MakeTables(hs: HuffTables) returns (t: CTables)
    requires hs.Valid()
    ensures Matches(hs, t)
  {
    var dc, ac := [], [];
    for i := 0 to NUM_TBLS
      invariant |dc| == |ac| == i
      invariant forall k: nat {:trigger TblNo(k)} ::
                  TblNo(k) && k < i ==> CDerived(hs.dc[k], dc[k]) && CDerived(hs.ac[k], ac[k])
    {
      assert TblNo(i);
      var d := MakeCDerived(hs.dc[i]);
      var a := MakeCDerived(hs.ac[i]);
      dc, ac := dc + [d], ac + [a];
    }
    t := CTables(dc, ac);
    forall i | 0 <= i < NUM_TBLS
      ensures WellSized(t.dc[i]) && WellSized(t.ac[i])
    {
      assert TblNo(i);
      CodesAreShort(hs.dc[i], t.dc[i]);
      CodesAreShort(hs.ac[i], t.ac[i]);
    }
  }

  lemma CodesAreShort(h: HuffTable, c: CTable)
    requires h.WellFormed() && CDerived(h, c)
    ensures WellSized(c)
  {
    forall s | 0 <= s < 256
      ensures c.ehufsi[s] <= 16
    {
      assert c.ehufsi[s] != 0 ==> Slot(h, c.ehufsi[s], c.ehufco[s], s);
    }
  }

  /** A destination that always takes the buffer. */
  ghost predicate NeverRefuses(policy: nat -> Answer) {
    forall i: nat :: policy(i).Accept?
  }

  /** The coder has sent the first `i` MCUs of a scan, beyond `base`. */
  ghost predicate HasSent(enc: Encoder, mcus: seq<Mcu>, i: nat, base: seq<Byte>)
    reads enc
  {
    enc.Valid() && CodableMcus(enc.sc, mcus) && i <= |mcus| && RunSendable(enc.sc, enc.t, mcus, i) &&
    enc.State() == RunState(enc.sc, enc.t, mcus, i) && enc.Stream() == base + RunBytes(enc.sc, enc.t, mcus, i)
  }

  /** How many bytes MCU `i` comes to, a restart before it included. */
  function McuLength(sc: Scan, t: CTables, mcus: seq<Mcu>, i: nat): nat
    requires sc.Valid() && t.Valid() && CodableMcus(sc, mcus) && i < |mcus|
  {
    |McuBytes(sc, t, RunState(sc, t, mcus, i), mcus[i])|
  }

  /** One more MCU, or the reason why not. */
  method EncodeNext(enc: Encoder, mcu: Mcu, ghost mcus: seq<Mcu>, ghost i: nat, ghost base: seq<Byte>)
      returns (st: Status)
    requires HasSent(enc, mcus, i, base) && i < |mcus| && mcu == mcus[i]
    modifies enc
    ensures enc.dest.policy == old(enc.dest.policy)
    ensures st == Done ==> HasSent(enc, mcus, i + 1, base)
    ensures st == Suspended ==> !NeverRefuses(enc.dest.policy)
    ensures st == Suspended && NeverTakes(enc.dest.policy) ==> HasSent(enc, mcus, i, base)
    ensures st != MissingCode && NeverTakes(enc.dest.policy) ==>
              (st == Suspended <==> old(enc.dest.free) <= McuLength(enc.sc, enc.t, mcus, i))
    ensures st == MissingCode ==> !SendableMcu(enc.sc, enc.t, mcus, i)
  {
    hide McuBytes, McuItems, Packed, Flushed, NextState, ItemsBits;
    ghost var s, d, n := enc.State(), enc.dest, McuLength(enc.sc, enc.t, mcus, i);
    st := enc.EncodeMcu(mcu);
    if st == Suspended { RefusalSeen(d, n); }
    if NeverTakes(d.policy) { NothingTaken(d, n); }
    if st == Done { StreamTrans(base, RunBytes(enc.sc, enc.t, mcus, i), McuBytes(enc.sc, enc.t, s, mcus[i])); }
  }

  /** A destination whose empty_output_buffer does nothing but refuse. */
  ghost predicate NeverTakes(policy: nat -> Answer) {
    forall i: nat :: policy(i).Refuse?
  }

  lemma NothingTaken(d: Dest, n: nat)
    requires d.free > 0 && NeverTakes(d.policy)
    ensures d.Takes(n) == 0 && (d.Refuses(n) <==> d.free <= n)
  {
  }

  lemma RefusalSeen(d: Dest, n: nat)
    requires d.free > 0 && d.Refuses(n)
    ensures !NeverRefuses(d.policy)
  {
    FeedStops(d.policy, d.asked, d.free, n);
  }

  /** The pending bits and the fill come to one byte, with a stuffed zero at most two. */
  lemma FlushedShort(pending: Bits)
    requires |pending| < 8
    ensures |Flushed(pending)| <= 2
  {
    hide ToBits, Octet;
    var b := pending + ToBits(0x7F, 7);
    assert |b| < 16;
    if |b| >= 8 { assert Packed(b[8..]) == []; }
  }

  method FinishScan(enc: Encoder, ghost mcus: seq<Mcu>, ghost base: seq<Byte>) returns (ok: bool)
    requires HasSent(enc, mcus, |mcus|, base)
    modifies enc
    ensures enc.dest.policy == old(enc.dest.policy)
    ensures ok ==> enc.Stream() == base + ScanBytes(enc.sc, enc.t, mcus)
    ensures !ok ==> !NeverRefuses(enc.dest.policy)
    ensures !ok && NeverTakes(enc.dest.policy) ==> old(enc.dest.free) <= 2
  {
    hide Flushed, Packed, McuBytes;
    ghost var s, d := enc.State(), enc.dest;
    ok := enc.FinishPass();
    if !ok { RefusalSeen(d, |Flushed(s.pending)|); }
    FlushedShort(s.pending);
    StreamTrans(base, RunBytes(enc.sc, enc.t, mcus, |mcus|), Flushed(s.pending));
  }

  /** Code all MCUs and flush, to a destination that never suspends. */
  method EncodeScan(enc: Encoder, mcus: seq<Mcu>) returns (st: Status)
    requires HasSent(enc, mcus, 0, enc.Stream()) && NeverRefuses(enc.dest.policy)
    modifies enc
    ensures st == Done <==> RunSendable(enc.sc, enc.t, mcus, |mcus|)
    ensures st == Done ==> enc.Stream() == old(enc.Stream()) + ScanBytes(enc.sc, enc.t, mcus)
    ensures st != Suspended
  {
    st := EncodeAll(enc, mcus);
    ghost var base := old(enc.Stream());
    if st == Done {
      var ok := FinishScan(enc, mcus, base);
    }
  }

  method EncodeUnrefused(enc: Encoder, mcus: seq<Mcu>, i: nat, ghost base: seq<Byte>) returns (st: Status)
    requires HasSent(enc, mcus, i, base) && i < |mcus| && NeverRefuses(enc.dest.policy)
    modifies enc
    ensures st == Done ==> HasSent(enc, mcus, i + 1, base) && NeverRefuses(enc.dest.policy)
    ensures st == Done || (st == MissingCode && !RunSendable(enc.sc, enc.t, mcus, |mcus|))
  {
    st := EncodeNext(enc, mcus[i], mcus, i, base);
    if st != Done { OneMissing(enc.sc, enc.t, mcus, i); }
  }

  method EncodeAll(enc: Encoder, mcus: seq<Mcu>) returns (st: Status)
    requires HasSent(enc, mcus, 0, enc.Stream()) && NeverRefuses(enc.dest.policy)
    modifies enc
    ensures st == Done ==> HasSent(enc, mcus, |mcus|, old(enc.Stream())) && NeverRefuses(enc.dest.policy)
    ensures st == Done || (st == MissingCode && !RunSendable(enc.sc, enc.t, mcus, |mcus|))
  {
    st := Done;
    ghost var base := enc.Stream();
    for i := 0 to |mcus|
      invariant st == Done && HasSent(enc, mcus, i, base) && NeverRefuses(enc.dest.policy)
    {
      st := EncodeUnrefused(enc, mcus, i, base);
      if st != Done { return; }
    }
  }

  lemma OneMissing(sc: Scan, t: CTables, mcus: seq<Mcu>, i: nat)
    requires sc.Valid() && t.Valid() && CodableMcus(sc, mcus) && i < |mcus| && !SendableMcu(sc, t, mcus, i)
    ensures !RunSendable(sc, t, mcus, |mcus|)
  {
    if RunSendable(sc, t, mcus, |mcus|) { RunSendableEach(sc, t, mcus, i, |mcus|); }
  }

  /** A scan coded and decoded again: whatever can be coded at all comes back unchanged, as far as it
      is wanted, for any tables, scan layout and restart interval, whatever follows the closing marker. */
  method CodeAndDecode(sc: Scan, hs: HuffTables, want: seq<Wanted>, mcus: seq<Mcu>, dest: Dest, tail: seq<Byte>)
      returns (coded: bool, t: CTables, src: seq<Byte>, res: Result, out: seq<Mcu>)
    requires sc.Valid() && hs.Valid() && |want| == |sc.dcTbl| && CodableMcus(sc, mcus) && EndsInMarker(tail)
    requires dest.free > 0 && dest.Stream() == [] && NeverRefuses(dest.policy)
    ensures Matches(hs, t) && (coded <==> RunSendable(sc, t, mcus, |mcus|))
    ensures coded ==> src == ScanBytes(sc, t, mcus) + tail && res == Complete && |out| == |mcus|
    ensures coded ==> DeliversAll(sc, want, mcus, out) && (AllWanted(want) ==> out == mcus)
  {
    hide ScanBytes, AllWanted, DeliversAll;
    res, out, src := NeedData, [], [];
    t := MakeTables(hs);
    var enc := new Encoder(sc, t, dest);
    NothingSent(enc.Stream());
    var st := EncodeScan(enc, mcus);
    coded := st == Done;
    if coded {
      src := enc.dest.written + enc.dest.buf + tail;
      NothingSent(ScanBytes(sc, t, mcus));
      StartsInStep(sc, want, t, mcus, tail, src, |src|);
      var dec := new Decoder(sc, hs, want, src, |src|);
      res, out := DecodeScan(dec, |mcus|, [], t, mcus, tail);
      if AllWanted(want) { EverythingDelivered(sc, want, mcus, out); }
    }
  }
}
