/**
 * An application that lets the coder suspend: whenever the output buffer fills up it takes the
 * committed bytes away, offers new room, and calls again (libjpeg.doc, "I/O suspension").
 */
module Suspension {
  import opened Bits
  import opened Destination
  import opened EntropySpec
  import opened HuffEncoder
  import opened ScanRoundTrip
  import opened SequentialCoding

  /** Between two calls: only the bytes up to next_output_byte are written out. */
  method DrainCommitted(enc: Encoder, room: Pos)
    requires enc.Valid()
    modifies enc`dest
    ensures enc.Valid() && enc.Stream() == old(enc.Stream()) && enc.State() == old(enc.State())
    ensures enc.dest.policy == old(enc.dest.policy) && enc.dest.free == room && enc.dest.buf == []
  {
    enc.dest := enc.dest.(written := enc.dest.written + enc.dest.buf, buf := [], free := room);
  }

  /** Every room offered is larger than any MCU. */
  ghost predicate Roomy(sc: EntropySpec.Scan, t: CTables, mcus: seq<Mcu>, rooms: nat -> Pos)
    requires sc.Valid() && t.Valid() && CodableMcus(sc, mcus)
  {
    forall k: nat, i: nat :: i < |mcus| ==> rooms(k) > McuLength(sc, t, mcus, i)
  }

  /** `n` MCUs are done after `k` suspensions: exactly their bytes are out, and with large rooms
      a suspension has preceded each MCU at most once. */
  ghost predicate Running(enc: Encoder, mcus: seq<Mcu>, n: nat, k: nat, rooms: nat -> Pos, base: seq<Byte>)
    reads enc
  {
    HasSent(enc, mcus, n, base) && NeverTakes(enc.dest.policy) &&
    (Roomy(enc.sc, enc.t, mcus, rooms) ==>
       k <= n || (k == n + 1 && n < |mcus| && enc.dest.free > McuLength(enc.sc, enc.t, mcus, n)))
  }

  /** One call to the coder, and what the application does about a suspension. */
  method Attempt(enc: Encoder, mcus: seq<Mcu>, n: nat, k: nat, rooms: nat -> Pos, ghost base: seq<Byte>)
      returns (st: Status)
    requires Running(enc, mcus, n, k, rooms, base) && n < |mcus|
    modifies enc
    ensures st == Done ==> Running(enc, mcus, n + 1, k, rooms, base)
    ensures st == Suspended ==> Running(enc, mcus, n, k + 1, rooms, base)
    ensures st == MissingCode ==> !SendableMcu(enc.sc, enc.t, mcus, n) && !RunSendable(enc.sc, enc.t, mcus, |mcus|)
  {
    hide SendableMcu, RunSendable, McuLength, RunBytes, RunState;
    st := EncodeNext(enc, mcus[n], mcus, n, base);
    if st == MissingCode { OneMissing(enc.sc, enc.t, mcus, n); }
    if st == Suspended { DrainCommitted(enc, rooms(k)); }
  }

  /** Code a scan with up to `tries` suspensions, the k-th answered by `rooms(k)` bytes of new
      room. However often it was suspended, and wherever it stands, the application has exactly
      the bytes of the finished MCUs; and one suspension for each MCU is all it takes if the
      rooms are larger than any MCU. */
  method EncodeSuspending(enc: Encoder, mcus: seq<Mcu>, rooms: nat -> Pos, tries: nat) returns (st: Status, n: nat)
    requires HasSent(enc, mcus, 0, enc.Stream()) && NeverTakes(enc.dest.policy)
    modifies enc
    ensures n <= |mcus| && (st == Done <==> n == |mcus|)
    ensures st != MissingCode ==> HasSent(enc, mcus, n, old(enc.Stream())) && NeverTakes(enc.dest.policy)
    ensures st == MissingCode ==>
              n < |mcus| && !SendableMcu(enc.sc, enc.t, mcus, n) && !RunSendable(enc.sc, enc.t, mcus, |mcus|)
    ensures st == Suspended ==> tries <= |mcus| || !Roomy(enc.sc, enc.t, mcus, rooms)
  {
    hide HasSent, Roomy, SendableMcu, RunSendable, NeverTakes, McuLength;
    ghost var base := enc.Stream();
    var k: nat := 0;
    n := 0;
    while n < |mcus|
      invariant n <= |mcus| && k <= tries && Running(enc, mcus, n, k, rooms, base)
      decreases |mcus| - n, tries - k
    {
      if k == tries { return Suspended, n; }
      st := Attempt(enc, mcus, n, k, rooms, base);
      match st
      case Done => n := n + 1;
      case Suspended => k := k + 1;
      case MissingCode => return;
    }
    st := Done;
  }

  /** A scan coded with suspensions and then flushed is, byte for byte, the scan coded without. It
      fails only if a symbol has no code, or for want of room. */
  method EncodeScanSuspending(enc: Encoder, mcus: seq<Mcu>, rooms: nat -> Pos, tries: nat, lastRoom: Pos)
      returns (st: Status)
    requires HasSent(enc, mcus, 0, enc.Stream()) && NeverTakes(enc.dest.policy)
    modifies enc
    ensures st == Done ==> enc.Stream() == old(enc.Stream()) + ScanBytes(enc.sc, enc.t, mcus)
    ensures st == MissingCode ==> !RunSendable(enc.sc, enc.t, mcus, |mcus|)
    ensures st == Suspended ==> tries <= |mcus| || !Roomy(enc.sc, enc.t, mcus, rooms) || lastRoom <= 2
  {
    hide Roomy, HasSent, ScanBytes, RunSendable, SendableMcu, NeverTakes;
    ghost var base := enc.Stream();
    var n;
    st, n := EncodeSuspending(enc, mcus, rooms, tries);
    if st == Done { st := EndDrained(enc, mcus, lastRoom, base); }
  }

  method EndDrained(enc: Encoder, ghost mcus: seq<Mcu>, room: Pos, ghost base: seq<Byte>) returns (st: Status)
    requires HasSent(enc, mcus, |mcus|, base) && NeverTakes(enc.dest.policy)
    modifies enc
    ensures st == Done ==> enc.Stream() == base + ScanBytes(enc.sc, enc.t, mcus)
    ensures st == Done || (st == Suspended && room <= 2)
  {
    hide ScanBytes;
    DrainCommitted(enc, room);
    var ok := FinishScan(enc, mcus, base);
    st := if ok then Done else Suspended;
  }
}
