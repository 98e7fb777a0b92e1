/**
 * Progressive AC scans as streams of bytes (jcphuff.c, jdphuff.c): segments ended by restart markers
 * are written and read back, and a succession of scans delivers the coefficients exactly.
 */
module AcStreams {
  import opened Bits
  import opened BitReader
  import opened ByteStuffing
  import opened DerivedTables
  import opened Destination
  import opened EntropySpec
  import opened EobRuns
  import opened AcBand
  import opened AcScans
  import opened HuffmanCodes
  import opened HuffDecoder
  import opened HuffEncoder
  import opened RoundTrip
  import opened SequentialCoding
  import opened Zigzag
  import ScanRoundTrip

  // ---- the coder's bytes

  /** emit_symbol and emit_bits for a list of items. */
  method PutItems(t: CTables, items: seq<Item>, w0: Work) returns (st: Status, w: Work)
    requires t.Valid() && ItemsOk(items) && w0.Ok()
    ensures Outcome(t, items, w0, st, w)
  {
    hide Stuck, ItemsBits, ItemOk;
    w, st := w0, Done;
    SentNothing(t, w0);
    assert items[..0] == [];
    for i := 0 to |items|
      invariant st == Done && SentItems(t, w0, w, items[..i])
    {
      assert items[..i + 1] == items[..i] + [items[i]] && items == items[..i + 1] + items[i + 1..];
      ghost var w1 := w;
      st, w := EmitItem(t, items[i], w);
      OutcomeJoins(t, items[..i], [items[i]], w0, w1, st, w);
      if st != Done {
        OutcomeStops(t, items[..i + 1], items[i + 1..], w0, st, w);
        return;
      }
    }
    assert items[..|items|] == items;
  }

  /** Nothing is pending at the start of a segment. */
  method BeginSegment(dest: Dest) returns (w: Work)
    requires dest.free > 0
    ensures w.Ok() && w.dest == dest && w.Stream() == dest.Stream() && w.Pending() == []
  {
    EmptyHolds();
    w := Work(dest, dest.buf, dest.free, 0, 0, []);
  }

  lemma SentStream(t: CTables, w0: Work, w: Work, items: seq<Item>)
    requires t.Valid() && w0.Ok() && SentItems(t, w0, w, items) && w0.Pending() == []
    ensures w.Stream() == w0.Stream() + Packed(ItemsBits(t, items)) && w.Pending() == Tail(ItemsBits(t, items))
    ensures w.dest.policy == w0.dest.policy && w.Ok() && AllSendable(t, items)
  {
    hide Packed, Tail, ItemsBits, Sendable;
    NothingBefore(w0.Pending(), ItemsBits(t, items));
  }

  /** A coder is stuck only if the destination refuses somewhere. */
  lemma SeenRefusing(w0: Work, w: Work, bytes: seq<Byte>)
    requires Stuck(w0, w, bytes)
    ensures exists k: nat :: w0.dest.policy(k).Refuse?
  {
    FeedStops(w0.dest.policy, w0.dest.asked, w0.free, Ahead(w0, w));
    assert w0.dest.policy(w.dest.asked - 1).Refuse?;
  }

  /** The items of a segment, and flush_bits behind them. */
  method PutSegment(t: CTables, items: seq<Item>, dest: Dest) returns (st: Status, dest': Dest)
    requires t.Valid() && ItemsOk(items) && dest.free > 0
    ensures st != MissingCode ==> dest'.policy == dest.policy
    ensures st == Done ==>
              dest'.free > 0 && AllSendable(t, items) &&
              dest'.Stream() == dest.Stream() + SegmentBytes(ItemsBits(t, items))
    ensures st == MissingCode ==> !AllSendable(t, items)
    ensures st == Suspended ==> exists k: nat :: dest.policy(k).Refuse?
  {
    hide ItemsBits, ItemOk, Packed, Flushed, Tail, SentItems, AllSendable;
    var w0 := BeginSegment(dest);
    var w;
    st, w := PutItems(t, items, w0);
    dest' := w.dest;
    if st == Suspended { SeenRefusing(w0, w, Packed(w0.Pending() + ItemsBits(t, items))); }
    if st == Done {
      ghost var bits := ItemsBits(t, items);
      SentStream(t, w0, w, items);
      st, dest' := EndSegment(w, dest.Stream() + Packed(bits), Tail(bits));
      StreamTrans(dest.Stream(), Packed(bits), Flushed(Tail(bits)));
    }
  }

  lemma NothingBefore(a: Bits, b: Bits)
    requires a == []
    ensures a + b == b
  {
  }

  /** flush_bits, and the buffer given back. */
  method EndSegment(w0: Work, ghost sent: seq<Byte>, ghost pending: Bits) returns (st: Status, dest': Dest)
    requires w0.Ok() && w0.Stream() == sent && w0.Pending() == pending
    ensures dest'.policy == w0.dest.policy && st != MissingCode
    ensures st == Done ==> dest'.free > 0 && dest'.Stream() == sent + Flushed(pending)
    ensures st == Suspended ==> exists k: nat :: w0.dest.policy(k).Refuse?
  {
    hide Flushed;
    var ok, w := FlushBits(w0);
    st := if ok then Done else Suspended;
    dest' := Dest(w.dest.written, w.buf, w.free, w.dest.policy, w.dest.asked);
    if !ok { SeenRefusing(w0, w, Flushed(pending)); }
  }

  function SegmentBytes(b: Bits): seq<Byte> {
    Packed(b) + Flushed(Tail(b))
  }

  /** A decoder put in front of the bytes of a segment and a marker finds its bits. */
  lemma SegmentStarts(b: Bits, tail: seq<Byte>, src: seq<Byte>)
    requires EndsInMarker(tail) && src == SegmentBytes(b) + tail
    ensures HasMarker(src) && Starts(DataBits(src), 0, b) && MarkerCode(src) == tail[1] && AfterMarker(src) == tail[2..]
  {
    hide Packed, DataBits, Flushed, SkipFill, MarkerCode, AfterMarker, HasMarker, Tail;
    var rest := Flushed(Tail(b)) + tail;
    FlushedBegins(Tail(b), tail);
    assert [] + b == b;
    PackedStarts([], b, rest);
    PackedMarker(b, rest);
    assert src == Packed(b) + rest;
    FlushedMarker(Tail(b), tail);
  }

  lemma FlushedMarker(pending: Bits, tail: seq<Byte>)
    requires EndsInMarker(tail)
    ensures var x := Flushed(pending) + tail; HasMarker(x) && MarkerCode(x) == tail[1] && AfterMarker(x) == tail[2..]
  {
    hide Packed, DataBits, SkipFill, MarkerCode, AfterMarker, HasMarker;
    MarkerTail(tail);
    PackedMarker(pending + ToBits(0x7F, 7), tail);
  }

  /** The two bytes of a marker. */
  method PutMarker(dest: Dest, m: Byte) returns (ok: bool, dest': Dest)
    requires dest.free > 0
    ensures dest'.policy == dest.policy
    ensures ok ==> dest'.free > 0 && dest'.Stream() == dest.Stream() + [0xFF, m]
    ensures !ok ==> exists k: nat :: dest.policy(k).Refuse?
  {
    var w0 := Work(dest, dest.buf, dest.free, 0, 0, []);
    var w;
    ok, w := EmitByte(w0, 0xFF);
    dest' := w.dest;
    if !ok {
      SeenRefusing(w0, w, [0xFF]);
      return;
    }
    assert w.Stream() == dest.Stream() + [0xFF];
    ghost var w1 := w;
    ok, w := EmitByte(w, m);
    dest' := w.dest;
    if !ok {
      SeenRefusing(w1, w, [m]);
      return;
    }
    assert w.Stream() == dest.Stream() + [0xFF, m];
    dest' := Dest(w.dest.written, w.buf, w.free, w.dest.policy, w.dest.asked);
  }

  // ---- the stream of a scan

  /** Restart marker number `k`. */
  function Rst(k: nat): seq<Byte> {
    [0xFF, RST0 + k % 8]
  }

  /** No restart within these blocks. */
  predicate Single(bs: seq<Block>, interval: nat) {
    interval == 0 || |bs| <= interval
  }

  /** The blocks before the next restart. */
  function HeadBlocks(bs: seq<Block>, interval: nat): (h: seq<Block>)
    ensures |h| <= |bs|
  {
    if Single(bs, interval) then bs else bs[..interval]
  }

  function HeadItems(bd: Band, refining: bool, bs: seq<Block>, interval: nat): (items: seq<Item>)
    requires bd.Ok() && ShortBlocks(bd.o, bs)
    ensures ItemsOk(items)
  {
    SegmentItemsOk(bd, refining, HeadBlocks(bs, interval));
    Segment(bd.tbl, Codes(bd, refining, HeadBlocks(bs, interval)))
  }

  /** The bytes of a scan from the start of a segment on, `k` being the number of its restart marker. */
  function StreamOf(t: CTables, bd: Band, refining: bool, bs: seq<Block>, interval: nat, k: nat): seq<Byte>
    requires t.Valid() && bd.Ok() && ShortBlocks(bd.o, bs)
    decreases |bs|
  {
    hide SegmentBytes, ItemsBits, HeadItems;
    SegmentBytes(ItemsBits(t, HeadItems(bd, refining, bs, interval))) +
    if Single(bs, interval) then [] else Rst(k) + StreamOf(t, bd, refining, bs[interval..], interval, k + 1)
  }

  /** All symbols of a scan have codes. */
  predicate AllCoded(t: CTables, bd: Band, refining: bool, bs: seq<Block>, interval: nat)
    requires t.Valid() && bd.Ok() && ShortBlocks(bd.o, bs)
    decreases |bs|
  {
    AllSendable(t, HeadItems(bd, refining, bs, interval)) &&
        (Single(bs, interval) || AllCoded(t, bd, refining, bs[interval..], interval))
  }

  /** The coder's segments are the stream's. */
  lemma HeadSegment(bd: Band, refining: bool, bs: seq<Block>, interval: nat)
    requires bd.Ok() && ShortBlocks(bd.o, bs)
    ensures var segs := SegmentsOf(bd.tbl, Codes(bd, refining, bs), interval);
            segs[0] == HeadItems(bd, refining, bs, interval) &&
            if Single(bs, interval) then |segs| == 1
            else segs[1..] == SegmentsOf(bd.tbl, Codes(bd, refining, bs[interval..]), interval)
  {
    hide Segment, BlockCode, CodesOk;
    if !Single(bs, interval) {
      assert Codes(bd, refining, bs)[..interval] == Codes(bd, refining, bs[..interval]);
      assert Codes(bd, refining, bs)[interval..] == Codes(bd, refining, bs[interval..]);
    }
  }

  /** Where the coder stands: what it has sent and what is to come make up the stream `all`. */
  ghost predicate Sending(t: CTables, bd: Band, refining: bool, bs: seq<Block>, interval: nat, segs: seq<seq<Item>>,
      j: nat, sent: seq<Byte>, blocks: seq<Block>)
    requires t.Valid() && bd.Ok()
  {
    ShortBlocks(bd.o, blocks) && ShortBlocks(bd.o, bs) && j < |segs| &&
    segs[j..] == SegmentsOf(bd.tbl, Codes(bd, refining, bs), interval) &&
    sent + StreamOf(t, bd, refining, bs, interval, j) == StreamOf(t, bd, refining, blocks, interval, 0) &&
    (AllCoded(t, bd, refining, blocks, interval) <==> AllCoded(t, bd, refining, bs, interval))
  }

  lemma SendingStarts(t: CTables, bd: Band, refining: bool, blocks: seq<Block>, interval: nat, segs: seq<seq<Item>>)
    requires t.Valid() && bd.Ok() && ShortBlocks(bd.o, blocks) &&
             segs == SegmentsOf(bd.tbl, Codes(bd, refining, blocks), interval)
    ensures Sending(t, bd, refining, blocks, interval, segs, 0, [], blocks)
  {
    hide SegmentsOf, Codes, StreamOf, AllCoded;
    assert segs[0..] == segs;
    assert [] + StreamOf(t, bd, refining, blocks, interval, 0) == StreamOf(t, bd, refining, blocks, interval, 0);
  }

  lemma SendingHead(t: CTables, bd: Band, refining: bool, bs: seq<Block>, interval: nat, segs: seq<seq<Item>>,
      j: nat, sent: seq<Byte>, blocks: seq<Block>)
    requires t.Valid() && bd.Ok() && Sending(t, bd, refining, bs, interval, segs, j, sent, blocks)
    ensures ItemsOk(segs[j]) && segs[j] == HeadItems(bd, refining, bs, interval)
    ensures !AllSendable(t, segs[j]) ==> !AllCoded(t, bd, refining, blocks, interval)
    ensures j + 1 == |segs| <==> Single(bs, interval)
  {
    hide Segment, Codes, SegmentsOf, StreamOf, HeadItems;
    HeadSegment(bd, refining, bs, interval);
    assert segs[j..][0] == segs[j];
    if !Single(bs, interval) { assert |segs[j..][1..]| > 0; }
  }

  lemma SendingOn(t: CTables, bd: Band, refining: bool, bs: seq<Block>, interval: nat, segs: seq<seq<Item>>, j: nat,
      sent: seq<Byte>, blocks: seq<Block>)
    requires t.Valid() && bd.Ok() && Sending(t, bd, refining, bs, interval, segs, j, sent, blocks) && j + 1 < |segs|
    requires !Single(bs, interval) && ItemsOk(segs[j]) && AllSendable(t, segs[j]) &&
             segs[j] == HeadItems(bd, refining, bs, interval)
    ensures Sending(t, bd, refining, bs[interval..], interval, segs, j + 1,
              sent + SegmentBytes(ItemsBits(t, segs[j])) + Rst(j), blocks)
  {
    hide Segment, Codes, SegmentsOf, SegmentBytes, ItemsBits, HeadItems, StreamOf, AllCoded, AllSendable, ItemsOk,
         ShortBlocks, Single;
    ShortTail(bd.o, bs, interval);
    HeadSegment(bd, refining, bs, interval);
    assert segs[j..][1..] == segs[j + 1..];
    StreamNext(t, bd, refining, bs, interval, j);
    Joined(sent, SegmentBytes(ItemsBits(t, segs[j])), Rst(j), StreamOf(t, bd, refining, bs[interval..], interval,
        j + 1));
  }

  lemma ShortTail(o: Order, bs: seq<Block>, interval: nat)
    requires ShortBlocks(o, bs) && !Single(bs, interval)
    ensures interval <= |bs| && ShortBlocks(o, bs[interval..]) && ShortBlocks(o, bs[..interval])
  {
  }

  lemma StreamNext(t: CTables, bd: Band, refining: bool, bs: seq<Block>, interval: nat, j: nat)
    requires t.Valid() && bd.Ok() && ShortBlocks(bd.o, bs) && !Single(bs, interval)
    ensures StreamOf(t, bd, refining, bs, interval, j) ==
            SegmentBytes(ItemsBits(t, HeadItems(bd, refining, bs, interval))) +
            (Rst(j) + StreamOf(t, bd, refining, bs[interval..], interval, j + 1))
    ensures AllCoded(t, bd, refining, bs, interval) <==>
            AllSendable(t, HeadItems(bd, refining, bs, interval)) && AllCoded(t, bd, refining, bs[interval..], interval)
  {
    hide SegmentBytes, ItemsBits, HeadItems, AllSendable;
  }

  lemma Joined(a: seq<Byte>, b: seq<Byte>, c: seq<Byte>, d: seq<Byte>)
    ensures a + b + c + d == a + (b + (c + d))
  {
  }

  lemma SendingEnds(t: CTables, bd: Band, refining: bool, bs: seq<Block>, interval: nat, segs: seq<seq<Item>>,
      j: nat, sent: seq<Byte>, blocks: seq<Block>)
    requires t.Valid() && bd.Ok() && Sending(t, bd, refining, bs, interval, segs, j, sent, blocks)
    requires Single(bs, interval) && ItemsOk(segs[j]) && AllSendable(t, segs[j]) &&
             segs[j] == HeadItems(bd, refining, bs, interval)
    ensures AllCoded(t, bd, refining, blocks, interval)
    ensures sent + SegmentBytes(ItemsBits(t, segs[j])) == StreamOf(t, bd, refining, blocks, interval, 0)
  {
    hide Segment, Codes, SegmentsOf, SegmentBytes, ItemsBits, HeadItems;
    assert SegmentBytes(ItemsBits(t, segs[j])) + [] == SegmentBytes(ItemsBits(t, segs[j]));
  }

  /** Write the segments of a scan, with the restart markers between them. */
  method PutScan(t: CTables, bd: Band, refining: bool, interval: nat, segs: seq<seq<Item>>, markers: seq<nat>,
      dest: Dest, ghost blocks: seq<Block>)
    returns (ok: bool, dest': Dest)
    requires t.Valid() && bd.Ok() && ShortBlocks(bd.o, blocks) &&
             segs == SegmentsOf(bd.tbl, Codes(bd, refining, blocks), interval)
    requires |markers| == |segs| - 1 && forall i :: 0 <= i < |markers| ==> markers[i] == 0xD0 + i % 8
    requires dest.free > 0 && dest.Stream() == [] && ScanRoundTrip.NeverRefuses(dest.policy)
    ensures if ok then AllCoded(t, bd, refining, blocks, interval) &&
            dest'.Stream() == StreamOf(t, bd, refining, blocks, interval, 0)
            else !AllCoded(t, bd, refining, blocks, interval)
  {
    hide SegmentsOf, StreamOf, AllCoded, Codes, ItemsOk, AllSendable, ItemsBits, SegmentBytes, Sending, HeadItems;
    ok, dest' := true, dest;
    SendingStarts(t, bd, refining, blocks, interval, segs);
    ghost var bs := blocks;
    var j := 0;
    while j + 1 < |segs|
      invariant j < |segs| && ok && dest'.free > 0 && dest'.policy == dest.policy
      invariant Sending(t, bd, refining, bs, interval, segs, j, dest'.Stream(), blocks)
    {
      ghost var sent := dest'.Stream();
      ok, dest' := PutNext(t, bd, refining, interval, segs, j, dest', bs, blocks);
      if !ok { return; }
      ghost var closed := dest'.Stream();
      var marked, dest1 := PutMarker(dest', markers[j]);
      assert marked && Rst(j) == [0xFF, markers[j]];
      dest' := dest1;
      SendingOn(t, bd, refining, bs, interval, segs, j, sent, blocks);
      bs := bs[interval..];
      j := j + 1;
    }
    ghost var sent := dest'.Stream();
    ok, dest' := PutNext(t, bd, refining, interval, segs, j, dest', bs, blocks);
    if ok { SendingEnds(t, bd, refining, bs, interval, segs, j, sent, blocks); }
  }

  method PutNext(t: CTables, bd: Band, refining: bool, interval: nat, segs: seq<seq<Item>>, j: nat, dest: Dest,
      ghost bs: seq<Block>, ghost blocks: seq<Block>)
    returns (ok: bool, dest': Dest)
    requires t.Valid() && bd.Ok() && Sending(t, bd, refining, bs, interval, segs, j, dest.Stream(), blocks)
    requires dest.free > 0 && ScanRoundTrip.NeverRefuses(dest.policy)
    ensures ItemsOk(segs[j]) && (ok ==> dest'.policy == dest.policy) && segs[j] == HeadItems(bd, refining, bs, interval)
    ensures j + 1 == |segs| <==> Single(bs, interval)
    ensures if ok then dest'.free > 0 && AllSendable(t, segs[j]) &&
            dest'.Stream() == dest.Stream() + SegmentBytes(ItemsBits(t, segs[j]))
            else !AllCoded(t, bd, refining, blocks, interval)
  {
    hide SegmentsOf, StreamOf, AllCoded, Codes, ItemsOk, AllSendable, ItemsBits, SegmentBytes, HeadItems, Single;
    SendingHead(t, bd, refining, bs, interval, segs, j, dest.Stream(), blocks);
    var st;
    st, dest' := PutSegment(t, segs[j], dest);
    ok := st == Done;
  }

  // ---- the decoder

  /** The decoder between blocks: its reader, the ended bands to come, and the restart counters. */
  datatype BandState = BandState(r: Reader, eobrun: nat, toGo: nat, nextRestart: nat)

  /** The decoder is to read block `i` of the segment that `bs` begins with, restart `k` being next;
      it stands at `p` of the segment's data `st`, which the segment's items fill up to `e`, unless it
      has read the whole segment. */
  ghost predicate Reading(t: CTables, bd: Band, refining: bool, bs: seq<Block>, i: nat, interval: nat, k: nat,
      tail: seq<Byte>, s: BandState, st: Bits, p: nat, e: nat)
    requires t.Valid() && bd.Ok()
  {
    ShortBlocks(bd.o, bs) && i <= |HeadBlocks(bs, interval)| && s.nextRestart == k % 8 &&
    (interval > 0 ==> s.toGo == interval - i) && s.r.Ok() && s.r.Terminated() &&
    (i < |HeadBlocks(bs, interval)| ==>
      At(s.r, st, p) && Tracking(t, bd.tbl, Codes(bd, refining, HeadBlocks(bs, interval)), i, s.eobrun, st, p, e)) &&
    (!Single(bs, interval) ==>
      s.r.NextMarker() == RST0 + k % 8 &&
      s.r.Beyond() == StreamOf(t, bd, refining, bs[interval..], interval, k + 1) + tail)
  }

  /** In front of the bytes of a segment the decoder is ready to read its first block. */
  lemma ReadingStarts(t: CTables, bd: Band, refining: bool, bs: seq<Block>, interval: nat, k: nat, tail: seq<Byte>,
      s: BandState) returns (e: nat)
    requires t.Valid() && bd.Ok() && ShortBlocks(bd.o, bs) && AllCoded(t, bd, refining, bs, interval) &&
             EndsInMarker(tail)
    requires s == BandState(s.r, 0, interval, k % 8) && s.r.Ok() && s.r.unreadMarker == 0 && s.r.bitsLeft == 0
    requires s.r.src[s.r.pos..] == StreamOf(t, bd, refining, bs, interval, k) + tail
    ensures Reading(t, bd, refining, bs, 0, interval, k, tail, s, DataBits(s.r.src[s.r.pos..]), 0, e)
  {
    hide StreamOf, AllCoded, Segment, Codes, ItemsBits, SegmentBytes, DataBits, Starts, At, Sent, HasMarker,
         MarkerCode, AfterMarker, Tracking;
    hide AllSendable, ItemsOk, CodesOk, EndsInMarker;
    var x := s.r.src[s.r.pos..];
    var items := HeadItems(bd, refining, bs, interval);
    var more := HeadOfStream(t, bd, refining, bs, interval, k, tail);
    SegmentStarts(ItemsBits(t, items), more, x);
    BitsAreSent(t, items, DataBits(x), 0);
    e := |ItemsBits(t, items)|;
    CodesFine(bd, refining, HeadBlocks(bs, interval));
    TrackingStart(t, bd.tbl, Codes(bd, refining, HeadBlocks(bs, interval)), DataBits(x), 0, e);
    FreshAt(s.r);
  }

  lemma CodesFine(bd: Band, refining: bool, bs: seq<Block>)
    requires bd.Ok()
    ensures CodesOk(Codes(bd, refining, bs))
  {
  }

  lemma FreshAt(r: Reader)
    requires r.Ok() && r.unreadMarker == 0 && r.bitsLeft == 0
    ensures At(r, DataBits(r.src[r.pos..]), 0)
  {
    hide DataBits;
    assert ToBits(r.getBuffer, 0) + DataBits(r.src[r.pos..]) == DataBits(r.src[r.pos..]);
  }

  /** The first segment of a stream, and what follows its data: a marker in any case. */
  lemma HeadOfStream(t: CTables, bd: Band, refining: bool, bs: seq<Block>, interval: nat, k: nat, tail: seq<Byte>)
      returns (more: seq<Byte>)
    requires t.Valid() && bd.Ok() && ShortBlocks(bd.o, bs) && AllCoded(t, bd, refining, bs, interval) &&
             EndsInMarker(tail)
    ensures AllSendable(t, HeadItems(bd, refining, bs, interval)) && EndsInMarker(more)
    ensures StreamOf(t, bd, refining, bs, interval, k) + tail ==
              SegmentBytes(ItemsBits(t, HeadItems(bd, refining, bs, interval))) + more
    ensures !Single(bs, interval) ==>
              more[1] == RST0 + k % 8 && more[2..] == StreamOf(t, bd, refining, bs[interval..], interval, k + 1) + tail
  {
    hide SegmentBytes, ItemsBits, HeadItems, AllSendable;
    var head := SegmentBytes(ItemsBits(t, HeadItems(bd, refining, bs, interval)));
    if Single(bs, interval) {
      more := tail;
      assert head + [] == head;
    } else {
      var rest := StreamOf(t, bd, refining, bs[interval..], interval, k + 1);
      more := Rst(k) + (rest + tail);
      Joined4(head, Rst(k), rest, tail);
    }
  }

  lemma Joined4(a: seq<Byte>, b: seq<Byte>, c: seq<Byte>, d: seq<Byte>)
    ensures (a + (b + c)) + d == a + (b + (c + d))
  {
  }

  /** process_restart. */
  method ProcessRestart(s: BandState, interval: nat) returns (res: Result, s': BandState)
    requires s.r.Ok() && s.nextRestart < 8
    ensures res == Complete ==>
              s.r.Terminated() && s'.r.Ok() && s'.r.unreadMarker == 0 && s'.r.bitsLeft == 0 &&
              s'.r.src == s.r.src && s'.r.arrived == s.r.arrived && s'.r.src[s'.r.pos..] == s.r.Beyond() &&
              s' == BandState(s'.r, 0, interval, (s.nextRestart + 1) % 8)
    ensures res == LostSync ==> s.r.Terminated() && s.r.NextMarker() != RST0 + s.nextRestart
    ensures res == NeedData <==> !s.r.Supplied()
    ensures res != Complete ==> Refilled(s.r, s'.r) && s' == s.(r := s'.r)
  {
    var r := s.r.(bitsLeft := 0);
    res, r := ReadRestartMarker(r, s.nextRestart);
    s' := if res == Complete then BandState(r.(printedEod := false), 0, interval, (s.nextRestart + 1) % 8)
      else s.(r := r);
  }

  /** A segment read to its end: the restart leads to the next. */
  method NextSegment(s: BandState, interval: nat, ghost t: CTables, ghost bd: Band, ghost refining: bool,
      ghost bs: seq<Block>, ghost k: nat, ghost tail: seq<Byte>, ghost st: Bits, ghost p: nat, ghost e: nat)
      returns (res: Result, s': BandState, ghost e': nat)
    requires t.Valid() && bd.Ok() && EndsInMarker(tail) &&
             Reading(t, bd, refining, bs, interval, interval, k, tail, s, st, p, e)
    requires AllCoded(t, bd, refining, bs, interval) && !Single(bs, interval)
    ensures s'.r.Ok() && s'.r.src == s.r.src && s'.r.arrived == s.r.arrived
    ensures res == Complete ==>
              ShortBlocks(bd.o, bs[interval..]) && AllCoded(t, bd, refining, bs[interval..], interval) &&
              Reading(t, bd, refining, bs[interval..], 0, interval, k + 1, tail, s', DataBits(s'.r.src[s'.r.pos..]),
                0, e')
    ensures res != Complete ==>
              Reading(t, bd, refining, bs, interval, interval, k, tail, s', st, p, e) && s.r.arrived < |s.r.src|
  {
    hide Tracking, StreamOf, At, EndsInMarker, DataBits, HasMarker, MarkerCode, AfterMarker, AllCoded, Reading,
         Single, ShortBlocks;
    SegmentOver(t, bd, refining, bs, interval, k, tail, s, st, p, e);
    res, s' := ProcessRestart(s, interval);
    e' := e;
    if res == Complete {
      ShortTail(bd.o, bs, interval);
      RestCoded(t, bd, refining, bs, interval);
      NextNumber(k);
      e' := ReadingStarts(t, bd, refining, bs[interval..], interval, k + 1, tail, s');
    } else {
      NotAll(s.r);
      StillOver(t, bd, refining, bs, interval, k, tail, s, s', st, p, e);
    }
  }

  /** With nothing left to read in the segment, only its marker matters. */
  lemma StillOver(t: CTables, bd: Band, refining: bool, bs: seq<Block>, interval: nat, k: nat, tail: seq<Byte>,
      s: BandState, s': BandState, st: Bits, p: nat, e: nat)
    requires t.Valid() && bd.Ok() && Reading(t, bd, refining, bs, interval, interval, k, tail, s, st, p, e) &&
             !Single(bs, interval)
    requires Refilled(s.r, s'.r) && s' == s.(r := s'.r)
    ensures Reading(t, bd, refining, bs, interval, interval, k, tail, s', st, p, e)
  {
    hide Tracking, StreamOf, At, ShortBlocks;
  }

  lemma NextNumber(k: nat)
    ensures (k % 8 + 1) % 8 == (k + 1) % 8
  {
  }

  lemma RestCoded(t: CTables, bd: Band, refining: bool, bs: seq<Block>, interval: nat)
    requires t.Valid() && bd.Ok() && ShortBlocks(bd.o, bs) && AllCoded(t, bd, refining, bs, interval) &&
             !Single(bs, interval)
    ensures ShortBlocks(bd.o, bs[interval..]) && AllCoded(t, bd, refining, bs[interval..], interval)
  {
    hide AllSendable;
  }

  lemma SegmentOver(t: CTables, bd: Band, refining: bool, bs: seq<Block>, interval: nat, k: nat, tail: seq<Byte>,
      s: BandState, st: Bits, p: nat, e: nat)
    requires t.Valid() && bd.Ok() && Reading(t, bd, refining, bs, interval, interval, k, tail, s, st, p, e) &&
             !Single(bs, interval)
    ensures s.r.Ok() && s.nextRestart == k % 8 && s.r.Terminated() && s.r.NextMarker() == RST0 + k % 8 &&
            ShortBlocks(bd.o, bs) && ShortBlocks(bd.o, bs[interval..])
    ensures s.r.Beyond() == StreamOf(t, bd, refining, bs[interval..], interval, k + 1) + tail
  {
    hide Tracking, StreamOf, At;
  }

  /** Where the decoder is in a scan of `blocks`, `n` of them read: the segment it is in and the
      block of the segment it is to read. */
  datatype Place = Place(bs: seq<Block>, i: nat, k: nat, st: Bits, p: nat, e: nat)

  ghost predicate InScan(t: CTables, bd: Band, refining: bool, interval: nat, tail: seq<Byte>, blocks: seq<Block>,
      n: nat, s: BandState, at: Place)
    requires t.Valid() && bd.Ok()
  {
    at.i <= n <= |blocks| && at.bs == blocks[n - at.i..] &&
    Reading(t, bd, refining, at.bs, at.i, interval, at.k, tail, s, at.st, at.p, at.e) &&
    AllCoded(t, bd, refining, at.bs, interval)
  }

  /** The start of decode_mcu: a restart if one is due. Then a block of the segment is to be read. */
  method Restarted(s: BandState, interval: nat, ghost t: CTables, ghost bd: Band, ghost refining: bool,
      ghost tail: seq<Byte>, ghost blocks: seq<Block>, ghost n: nat, ghost at: Place)
      returns (res: Result, s': BandState, ghost at': Place)
    requires t.Valid() && bd.Ok() && EndsInMarker(tail) && n < |blocks| &&
             InScan(t, bd, refining, interval, tail, blocks, n, s, at)
    ensures InScan(t, bd, refining, interval, tail, blocks, n, s', at') && s'.r.src == s.r.src &&
            s'.r.arrived == s.r.arrived
    ensures (at' == at && s' == s) || at.i == |HeadBlocks(at.bs, interval)|
    ensures if res == Complete then at'.i < |HeadBlocks(at'.bs, interval)| else at' == at && s.r.arrived < |s.r.src|
  {
    hide Tracking, StreamOf, At, EndsInMarker, DataBits, AllCoded, HasMarker, MarkerCode, AfterMarker, ShortBlocks;
    res, s', at' := Complete, s, at;
    if interval != 0 && s.toGo == 0 {
      ghost var e;
      res, s', e := NextSegment(s, interval, t, bd, refining, at.bs, at.k, tail, at.st, at.p, at.e);
      if res == Complete {
        at' := Place(at.bs[interval..], 0, at.k + 1, DataBits(s'.r.src[s'.r.pos..]), 0, e);
        assert at.bs[interval..] == blocks[n..];
      }
    }
  }

  lemma StillReading(t: CTables, bd: Band, refining: bool, at: Place, interval: nat, tail: seq<Byte>, s: BandState,
      s': BandState, q: nat)
    requires t.Valid() && bd.Ok() && interval < 0x1_0000_0000
    requires Reading(t, bd, refining, at.bs, at.i, interval, at.k, tail, s, at.st, at.p, at.e) &&
             at.i < |HeadBlocks(at.bs, interval)|
    requires Refilled(s.r, s'.r) && At(s'.r, at.st, q) && s'.toGo == (s.toGo - 1) % 0x1_0000_0000 &&
             s'.nextRestart == s.nextRestart
    requires Tracking(t, bd.tbl, Codes(bd, refining, HeadBlocks(at.bs, interval)), at.i + 1, s'.eobrun, at.st, q, at.e)
    ensures Reading(t, bd, refining, at.bs, at.i + 1, interval, at.k, tail, s', at.st, q, at.e)
  {
    hide Tracking, StreamOf, At, ShortBlocks;
    AtOk(s.r, at.st, at.p);
    AtOk(s'.r, at.st, q);
  }

  /** `b` is what an attempt at the next block of the segment, on `b0`, has left behind: it decodes again
      to the same. */
  ghost predicate Begun(h: HuffTable, bd: Band, refining: bool, interval: nat, at: Place, s: BandState, b0: Block,
      b: Block)
    requires h.WellFormed() && bd.Ok()
  {
    if at.i < |HeadBlocks(at.bs, interval)| then
      ReadBand(h, bd, refining, at.st, at.p, s.eobrun, b) == ReadBand(h, bd, refining, at.st, at.p, s.eobrun, b0)
    else b == b0
  }

  /** decode_mcu_AC_first or decode_mcu_AC_refine, on a block an earlier call may have begun. If its data have
      not arrived, what it leaves can be decoded later. */
  method NextMcu(s0: BandState, h: HuffTable, d: DTable, bd: Band, refining: bool, interval: nat, b1: Block,
      ghost b0: Block, ghost hs: HuffTables, ghost t: CTables, ghost tail: seq<Byte>, ghost blocks: seq<Block>,
      ghost n: nat, ghost at0: Place) returns (ok: bool, b: Block, s: BandState, ghost at: Place)
    requires Matches(hs, t) && bd.Ok() && h == hs.Ac(bd.tbl) && DDerived(h, d) && EndsInMarker(tail) &&
             interval < 0x1_0000_0000
    requires n < |blocks| && InScan(t, bd, refining, interval, tail, blocks, n, s0, at0) &&
             Expecting(bd, refining, blocks[n], b0) && Begun(h, bd, refining, interval, at0, s0, b0, b1)
    ensures s.r.src == s0.r.src && s.r.arrived == s0.r.arrived
    ensures ok ==> Received(bd, blocks[n], b0, b) && InScan(t, bd, refining, interval, tail, blocks, n + 1, s, at)
    ensures !ok ==>
              InScan(t, bd, refining, interval, tail, blocks, n, s, at) && s.r.arrived < |s.r.src| &&
              (SpareLast(bd.o) ==> Begun(h, bd, refining, interval, at, s, b0, b))
  {
    hide Tracking, StreamOf, At, EndsInMarker, AllCoded, ReadBand, DDerived, Expecting, Received, ShortBlocks,
         Refilled, DataBits, SpareLast;
    var res;
    res, s, at := Restarted(s0, interval, t, bd, refining, tail, blocks, n, at0);
    if res != Complete { return false, b1, s, at; }
    ghost var head := HeadBlocks(at.bs, interval);
    assert head[at.i] == blocks[n];
    NextBlock(hs, t, bd, refining, head, at.i, s.eobrun, b0, at.st, at.p, at.e);
    AtOk(s.r, at.st, at.p);
    var eobrun, r;
    ghost var q;
    ok, b, eobrun, r, q := DecodeMcu(s.r, h, d, bd, refining, s.eobrun, b1, at.st, at.p);
    if ok {
      ghost var s1 := s;
      s := BandState(r, eobrun, (s.toGo - 1) % 0x1_0000_0000, s.nextRestart);
      StillReading(t, bd, refining, at, interval, tail, s1, s, q);
      SameSource(s1.r, r);
      at := at.(i := at.i + 1, p := q);
      assert at.bs == blocks[n + 1 - at.i..];
    } else {
      NotAll(s.r);
    }
  }

  /** Data whose end is a marker have not all arrived if the marker has not. */
  lemma NotAll(r: Reader)
    requires r.Ok() && r.Terminated() && !r.Supplied()
    ensures r.arrived < |r.src|
  {
    if r.arrived == |r.src| { AllArrived(r); }
  }

  lemma SameSource(r: Reader, r': Reader)
    requires Refilled(r, r')
    ensures r'.src == r.src && r'.arrived == r.arrived
  {
  }

  // ---- one scan

  /** Some symbol of the scan has no code. */
  ghost predicate LacksCode(hs: HuffTables, bd: Band, refining: bool, blocks: seq<Block>, interval: nat)
    requires bd.Ok() && ShortBlocks(bd.o, blocks)
  {
    exists t :: Matches(hs, t) && !Coded(t, bd, refining, blocks, interval)
  }

  predicate Coded(t: CTables, bd: Band, refining: bool, blocks: seq<Block>, interval: nat)
    requires bd.Ok() && ShortBlocks(bd.o, blocks)
  {
    t.Valid() && AllCoded(t, bd, refining, blocks, interval)
  }

  /** The coder's half. */
  method Send(bd: Band, refining: bool, interval: nat, hs: HuffTables, blocks: seq<Block>, dest: Dest, tail: seq<Byte>)
    returns (ok: bool, ghost t: CTables, src: seq<Byte>)
    requires bd.Ok() && hs.Valid() && ShortBlocks(bd.o, blocks)
    requires dest.free > 0 && dest.Stream() == [] && ScanRoundTrip.NeverRefuses(dest.policy)
    ensures Matches(hs, t) && (ok <==> Coded(t, bd, refining, blocks, interval))
    ensures ok ==> src == StreamOf(t, bd, refining, blocks, interval, 0) + tail
  {
    hide SegmentsOf, Codes, AllCoded, StreamOf, ShortBlocks;
    var tables := ScanRoundTrip.MakeTables(hs);
    t := tables;
    var segs, markers := EncodeScan(bd, refining, interval, blocks);
    var dest';
    ok, dest' := PutScan(tables, bd, refining, interval, segs, markers, dest, blocks);
    src := dest'.written + dest'.buf + tail;
  }

  /** More of the data arrive. */
  function Supplied(s: BandState, n: nat): (s': BandState)
    requires s.r.Ok()
    ensures s'.r.Ok() && s'.r.src == s.r.src &&
            s'.r.arrived == if n < |s.r.src| - s.r.arrived then s.r.arrived + n else |s.r.src|
  {
    s.(r := s.r.(arrived := if n < |s.r.src| - s.r.arrived then s.r.arrived + n else |s.r.src|))
  }

  lemma SuppliedInScan(t: CTables, bd: Band, refining: bool, interval: nat, tail: seq<Byte>, blocks: seq<Block>,
      n: nat, s: BandState, at: Place, more: nat)
    requires t.Valid() && bd.Ok() && InScan(t, bd, refining, interval, tail, blocks, n, s, at)
    ensures InScan(t, bd, refining, interval, tail, blocks, n, Supplied(s, more), at)
  {
    hide Tracking, StreamOf, AllCoded, ShortBlocks, DataBits, HasMarker, MarkerCode, AfterMarker, ToBits;
  }

  /** The decoder's half: fetch the blocks of a scan, adding what it says to what is there. Of the data
      `first` bytes are there to begin with; whenever they run out, more arrive. */
  method Receive(bd: Band, refining: bool, interval: nat, hs: HuffTables, have: seq<Block>, src: seq<Byte>,
      first: nat, arrivals: seq<nat>, ghost t: CTables, ghost blocks: seq<Block>, ghost tail: seq<Byte>)
      returns (got: seq<Block>)
    requires bd.Ok() && Matches(hs, t) && EndsInMarker(tail) && interval < 0x1_0000_0000 && ShortBlocks(bd.o, blocks)
    requires |have| == |blocks| && forall i :: 0 <= i < |blocks| ==> Expecting(bd, refining, blocks[i], have[i])
    requires AllCoded(t, bd, refining, blocks, interval) && src == StreamOf(t, bd, refining, blocks, interval, 0) + tail
    requires first <= |src| && (first < |src| ==> SpareLast(bd.o))
    ensures |got| <= |blocks| && forall i :: 0 <= i < |got| ==> Received(bd, blocks[i], have[i], got[i])
    ensures first + ScanRoundTrip.Total(arrivals) >= |src| ==> |got| == |blocks|
  {
    hide Expecting, Received, EndsInMarker, InScan, AllCoded, StreamOf, DataBits, ShortBlocks, SpareLast, Begun;
    var h := hs.Ac(bd.tbl);
    var d := MakeDDerived(h);
    var s := BandState(Reader(src, first, 0, 0, 0, 0, false), 0, interval, 0);
    ghost var at := ScanStarts(t, bd, refining, blocks, interval, tail, s);
    got := [];
    var a, begun := 0, have;
    if have != [] { NotBegun(h, bd, refining, interval, at, s, have[0]); }
    while |got| < |have|
      invariant |got| <= |have| == |begun| && forall i :: 0 <= i < |got| ==> Received(bd, blocks[i], have[i], got[i])
      invariant InScan(t, bd, refining, interval, tail, blocks, |got|, s, at)
      invariant forall i :: |got| < i < |have| ==> begun[i] == have[i]
      invariant |got| < |have| ==> Begun(h, bd, refining, interval, at, s, have[|got|], begun[|got|])
      invariant a <= |arrivals| && s.r.src == src && s.r.Ok() &&
                (s.r.arrived == |src| || s.r.arrived == first + ScanRoundTrip.Total(arrivals[..a]))
      decreases |arrivals| - a, |have| - |got|
    {
      var ok, b;
      ghost var n := |got|;
      ok, b, s, at := NextMcu(s, h, d, bd, refining, interval, begun[|got|], have[|got|], hs, t, tail, blocks, n, at);
      InScanOk(t, bd, refining, interval, tail, blocks, if ok then n + 1 else n, s, at);
      if ok {
        got := got + [b];
        if |got| < |have| { NotBegun(h, bd, refining, interval, at, s, have[|got|]); }
      } else if a < |arrivals| {
        assert arrivals[..a + 1][..a] == arrivals[..a];
        begun := begun[|got| := b];
        SuppliedInScan(t, bd, refining, interval, tail, blocks, n, s, at, arrivals[a]);
        StillBegun(h, bd, refining, interval, at, s, arrivals[a], have[n], b);
        s := Supplied(s, arrivals[a]);
        a := a + 1;
      } else {
        assert arrivals[..a] == arrivals;
        return;
      }
    }
  }

  lemma NotBegun(h: HuffTable, bd: Band, refining: bool, interval: nat, at: Place, s: BandState, b: Block)
    requires h.WellFormed() && bd.Ok()
    ensures Begun(h, bd, refining, interval, at, s, b, b)
  {
  }

  lemma StillBegun(h: HuffTable, bd: Band, refining: bool, interval: nat, at: Place, s: BandState, more: nat,
      b0: Block, b: Block)
    requires h.WellFormed() && bd.Ok() && s.r.Ok() && Begun(h, bd, refining, interval, at, s, b0, b)
    ensures Begun(h, bd, refining, interval, at, Supplied(s, more), b0, b)
  {
    hide ReadBand;
  }

  lemma InScanOk(t: CTables, bd: Band, refining: bool, interval: nat, tail: seq<Byte>, blocks: seq<Block>, n: nat,
      s: BandState, at: Place)
    requires t.Valid() && bd.Ok() && InScan(t, bd, refining, interval, tail, blocks, n, s, at)
    ensures s.r.Ok()
  {
  }

  lemma ScanStarts(t: CTables, bd: Band, refining: bool, blocks: seq<Block>, interval: nat, tail: seq<Byte>,
      s: BandState) returns (at: Place)
    requires t.Valid() && bd.Ok() && ShortBlocks(bd.o, blocks) && AllCoded(t, bd, refining, blocks, interval) &&
             EndsInMarker(tail)
    requires s == BandState(Reader(s.r.src, s.r.arrived, 0, 0, 0, 0, false), 0, interval, 0) &&
             s.r.arrived <= |s.r.src| && s.r.src == StreamOf(t, bd, refining, blocks, interval, 0) + tail
    ensures InScan(t, bd, refining, interval, tail, blocks, 0, s, at)
  {
    hide Reading, EndsInMarker, AllCoded, StreamOf, ShortBlocks, DataBits;
    assert s.r.src[0..] == s.r.src;
    var e := ReadingStarts(t, bd, refining, blocks, interval, 0, tail, s);
    at := Place(blocks, 0, 0, DataBits(s.r.src[0..]), 0, e);
    assert blocks[0..] == blocks;
  }

  /** All of the data arrive. */
  predicate Enough(arrivals: seq<nat>, data: seq<Byte>) {
    arrivals == [] || ScanRoundTrip.Total(arrivals) >= |data|
  }

  /** Code a scan, and decode its bytes, which arrive in the pieces given, or all at once. What has been
      decoded when no more of them arrive are the first blocks of the scan, and all of them if it was all. */
  method OneScan(bd: Band, refining: bool, interval: nat, hs: HuffTables, blocks: seq<Block>, have: seq<Block>,
      dest: Dest, tail: seq<Byte>, arrivals: seq<nat>)
    returns (ok: bool, ghost t: CTables, got: seq<Block>)
    requires bd.Ok() && hs.Valid() && ShortBlocks(bd.o, blocks) && EndsInMarker(tail) && interval < 0x1_0000_0000
    requires |have| == |blocks| && forall i :: 0 <= i < |blocks| ==> Expecting(bd, refining, blocks[i], have[i])
    requires dest.free > 0 && dest.Stream() == [] && ScanRoundTrip.NeverRefuses(dest.policy)
    requires arrivals != [] ==> SpareLast(bd.o)
    ensures Matches(hs, t) && (ok <==> Coded(t, bd, refining, blocks, interval))
    ensures ok ==> |got| <= |blocks| && forall i :: 0 <= i < |got| ==> Received(bd, blocks[i], have[i], got[i])
    ensures ok && Enough(arrivals, StreamOf(t, bd, refining, blocks, interval, 0) + tail) ==> |got| == |blocks|
  {
    hide Expecting, Received, AllCoded, StreamOf, ShortBlocks, SpareLast;
    var src;
    got := have;
    ok, t, src := Send(bd, refining, interval, hs, blocks, dest, tail);
    if ok {
      got := Receive(bd, refining, interval, hs, have, src, if arrivals == [] then |src| else 0, arrivals, t,
        blocks, tail);
    }
  }

  // ---- all scans of a band

  /** Of block `b`, bits `al` and above are known in the band, and nothing else. */
  predicate Known(bd: Band, b: Block, h: Block)
    requires bd.Ok()
  {
    forall j :: 0 <= j < 64 ==> h[bd.o[j]] == if bd.ss <= j <= bd.se then Point(Ranked(bd.o, b)[j], bd.al) else 0
  }

  lemma KnownNext(bd: Band, b: Block, h: Block)
    requires bd.Ok() && bd.(al := bd.al + 1).Ok() && Short(Ranked(bd.o, b)) && Known(bd.(al := bd.al + 1), b, h)
    ensures Expecting(bd, true, b, h)
    ensures forall h': Block :: Received(bd, b, h, h') ==> Known(bd, b, h')
  {
  }

  lemma KnownExactly(bd: Band, b: Block, h: Block)
    requires bd.Ok() && bd.al == 0 && Known(bd, b, h)
    ensures forall j :: 0 <= j < 64 ==> h[bd.o[j]] == if bd.ss <= j <= bd.se then b[bd.o[j]] else 0
  {
    forall j | 0 <= j < 64
      ensures h[bd.o[j]] == if bd.ss <= j <= bd.se then b[bd.o[j]] else 0
    {
      assert Ranked(bd.o, b)[j] == b[bd.o[j]] == Point(b[bd.o[j]], 0);
    }
  }

  /** A first pass of a band and its refinements, bit by bit, deliver its coefficients exactly,
      whatever the restart interval of each scan. */
  method SuccessiveApproximation(o: Order, tbl: nat, ss: nat, se: nat, top: nat, interval: nat -> nat,
      hs: nat -> HuffTables, blocks: seq<Block>, dest: Dest, tail: seq<Byte>)
      returns (ok: bool, have: seq<Block>, ghost failed: nat)
    requires Band(tbl, o, ss, se, top).Ok() && ShortBlocks(o, blocks) && EndsInMarker(tail)
    requires forall al: nat :: hs(al).Valid() && interval(al) < 0x1_0000_0000
    requires dest.free > 0 && dest.Stream() == [] && ScanRoundTrip.NeverRefuses(dest.policy)
    ensures ok ==> |have| == |blocks|
    ensures ok ==>
              forall i, j ::
                0 <= i < |blocks| && 0 <= j < 64 ==> have[i][o[j]] == if ss <= j <= se then blocks[i][o[j]] else 0
    ensures !ok ==>
              failed <= top &&
              LacksCode(hs(failed), Band(tbl, o, ss, se, failed), failed < top, blocks, interval(failed))
  {
    hide LacksCode, ShortBlocks, EndsInMarker, Known;
    failed := top;
    ok, have := FirstScan(Band(tbl, o, ss, se, top), interval(top), hs(top), blocks, dest, tail);
    if !ok { return; }
    var al: nat := top;
    while al > 0
      invariant ok && al <= top && |have| == |blocks| &&
                forall i :: 0 <= i < |blocks| ==> Known(Band(tbl, o, ss, se, al), blocks[i], have[i])
    {
      al := al - 1;
      failed := al;
      ok, have := Refine(Band(tbl, o, ss, se, al), interval(al), hs(al), blocks, have, dest, tail);
      if !ok { return; }
    }
    forall i | 0 <= i < |blocks|
      ensures forall j :: 0 <= j < 64 ==> have[i][o[j]] == if ss <= j <= se then blocks[i][o[j]] else 0
    {
      KnownExactly(Band(tbl, o, ss, se, 0), blocks[i], have[i]);
    }
  }

  lemma CodeLacking(hs: HuffTables, t: CTables, bd: Band, refining: bool, blocks: seq<Block>, interval: nat)
    requires bd.Ok() && ShortBlocks(bd.o, blocks) && Matches(hs, t) && !Coded(t, bd, refining, blocks, interval)
    ensures LacksCode(hs, bd, refining, blocks, interval)
  {
  }

  lemma Beginning(bd: Band, blocks: seq<Block>, have: seq<Block>)
    requires bd.Ok() && ShortBlocks(bd.o, blocks) && |have| == |blocks| &&
             forall i :: 0 <= i < |have| ==> have[i] == DcBlock(0)
    ensures forall i :: 0 <= i < |blocks| ==> Expecting(bd, false, blocks[i], have[i])
  {
  }

  /** The first pass. */
  method FirstScan(bd: Band, interval: nat, hs: HuffTables, blocks: seq<Block>, dest: Dest, tail: seq<Byte>)
      returns (ok: bool, got: seq<Block>)
    requires bd.Ok() && hs.Valid() && ShortBlocks(bd.o, blocks) && EndsInMarker(tail) && interval < 0x1_0000_0000
    requires dest.free > 0 && dest.Stream() == [] && ScanRoundTrip.NeverRefuses(dest.policy)
    ensures ok ==> |got| == |blocks| && forall i :: 0 <= i < |blocks| ==> Known(bd, blocks[i], got[i])
    ensures !ok ==> LacksCode(hs, bd, false, blocks, interval)
  {
    hide Known, Expecting, Received, LacksCode, EndsInMarker;
    var have := seq(|blocks|, _ => DcBlock(0));
    Beginning(bd, blocks, have);
    ghost var t;
    ok, t, got := OneScan(bd, false, interval, hs, blocks, have, dest, tail, []);
    if !ok { CodeLacking(hs, t, bd, false, blocks, interval); }
    if !ok { return; }
    forall i | 0 <= i < |blocks|
      ensures Known(bd, blocks[i], got[i])
    {
      KnownFirst(bd, blocks[i], have[i], got[i]);
    }
  }

  lemma KnownFirst(bd: Band, b: Block, h: Block, h': Block)
    requires bd.Ok() && Short(Ranked(bd.o, b)) && h == DcBlock(0) && Received(bd, b, h, h')
    ensures Known(bd, b, h')
  {
  }

  /** One refinement. */
  method Refine(bd: Band, interval: nat, hs: HuffTables, blocks: seq<Block>, have: seq<Block>, dest: Dest,
      tail: seq<Byte>)
    returns (ok: bool, got: seq<Block>)
    requires bd.Ok() && bd.(al := bd.al + 1).Ok() && hs.Valid() && ShortBlocks(bd.o, blocks) && EndsInMarker(tail) &&
             interval < 0x1_0000_0000
    requires |have| == |blocks| && forall i :: 0 <= i < |blocks| ==> Known(bd.(al := bd.al + 1), blocks[i], have[i])
    requires dest.free > 0 && dest.Stream() == [] && ScanRoundTrip.NeverRefuses(dest.policy)
    ensures ok ==> |got| == |blocks| && forall i :: 0 <= i < |blocks| ==> Known(bd, blocks[i], got[i])
    ensures !ok ==> LacksCode(hs, bd, true, blocks, interval)
  {
    hide Known, Expecting, Received, LacksCode, EndsInMarker;
    forall i | 0 <= i < |blocks|
      ensures Expecting(bd, true, blocks[i], have[i])
    {
      KnownNext(bd, blocks[i], have[i]);
    }
    ghost var t;
    ok, t, got := OneScan(bd, true, interval, hs, blocks, have, dest, tail, []);
    if !ok { CodeLacking(hs, t, bd, true, blocks, interval); }
    if !ok { return; }
    forall i | 0 <= i < |blocks|
      ensures Known(bd, blocks[i], got[i])
    {
      KnownNext(bd, blocks[i], have[i]);
    }
  }
}
