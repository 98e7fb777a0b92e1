/**
 * The destination of compressed data (jpeg_destination_mgr, jpeglib.h and libjpeg.doc): a buffer and
 * empty_output_buffer, which takes the full buffer and offers room, or refuses.
 */
module Destination {
  import opened Bits

  type Pos = n: nat | n > 0 witness 1

  /** What empty_output_buffer answers: refuse (suspend), or take the buffer and offer room. */
  datatype Answer = Refuse | Accept(room: Pos)

  /** The destination manager: bytes taken so far, the committed part of the buffer, the room
      left in it, and the answers it will give. */
  datatype Dest = Dest(written: seq<Byte>, buf: seq<Byte>, free: nat, policy: nat -> Answer, asked: nat) {
    function Stream(): seq<Byte> { written + buf }

    /** How it stands after `n` more bytes. */
    function After(n: nat): Fill
      requires free > 0
    {
      Feed(policy, asked, free, n)
    }

    /** `n` more bytes meet a refusal. */
    predicate Refuses(n: nat)
      requires free > 0
    {
      After(n).free == 0
    }

    /** How many of `n` more bytes it takes. */
    function Takes(n: nat): nat
      requires free > 0
    {
      Taken(policy, asked, free, n)
    }
  }

  /** How many questions a destination has been asked, and the room it leaves: none once it refuses. */
  datatype Fill = Fill(asked: nat, free: nat)

  /** `n` bytes into a buffer with `free` bytes of room, by a coder that stops at a refusal. */
  function Feed(policy: nat -> Answer, asked: nat, free: Pos, n: nat): Fill
    decreases n
  {
    if n < free then Fill(asked, free - n)
    else
      match policy(asked)
      case Refuse => Fill(asked + 1, 0)
      case Accept(room) => Feed(policy, asked + 1, room, n - free)
  }

  /** How many of the `n` bytes are in buffers that the destination takes. */
  function Taken(policy: nat -> Answer, asked: nat, free: Pos, n: nat): (d: nat)
    ensures d <= n
    ensures d > 0 <==> n >= free && policy(asked).Accept?
    decreases n
  {
    if n < free || policy(asked).Refuse? then 0 else free + Taken(policy, asked + 1, policy(asked).room, n - free)
  }

  /** A coder that has stopped has just been refused. */
  lemma {:induction false} FeedStops(policy: nat -> Answer, asked: nat, free: Pos, n: nat)
    ensures var f := Feed(policy, asked, free, n);
            f.asked >= asked && (f.free == 0 ==> n >= free && f.asked > asked && policy(f.asked - 1).Refuse?)
    decreases n
  {
    if n >= free && policy(asked).Accept? { FeedStops(policy, asked + 1, policy(asked).room, n - free); }
  }

  /** Feeding goes on where it was; a refusal stays. */
  lemma {:induction false} FeedMore(policy: nat -> Answer, asked: nat, free: Pos, n: nat, m: nat)
    ensures var f := Feed(policy, asked, free, n);
            if f.free == 0 then
              Feed(policy, asked, free, n + m) == f &&
              Taken(policy, asked, free, n + m) == Taken(policy, asked, free, n)
            else
              Feed(policy, asked, free, n + m) == Feed(policy, f.asked, f.free, m) &&
              var d := Taken(policy, f.asked, f.free, m);
              Taken(policy, asked, free, n + m) == if d == 0 then Taken(policy, asked, free, n) else n + d
    decreases n
  {
    if n >= free && policy(asked).Accept? { FeedMore(policy, asked + 1, policy(asked).room, n - free, m); }
  }
}
