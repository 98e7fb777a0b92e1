/**
 * The entropy coder as the block controllers see it (the encode_mcu method of jpegint.h): it takes an
 * MCU, or suspends and leaves it.
 */
module EntropySinks {
  import opened Bits
  import opened EntropySpec
  import opened HuffEncoder
  import opened ScanRoundTrip
  import opened SequentialCoding

  /** Any coder at all, of which only the answers are given; or the sequential Huffman coder. */
  datatype Entropy = AnyCoder(accepts: nat -> bool) | Sequential(coder: Encoder)

  class EntropySink {
    const kind: Entropy
    /** For the sequential coder: the MCUs of the scan, and what its destination had before. */
    ghost const plan: seq<Mcu>
    ghost const start: seq<Byte>
    var asked: nat
    var fed: seq<Mcu>
    var failed: bool

    /** The objects behind the sink. */
    function Below(): set<object> {
      if kind.Sequential? then {kind.coder} else {}
    }

    /** The coder has sent the MCUs fed, and nothing else; it has failed only if the next has no code. */
    ghost predicate Valid()
      reads this, Below()
    {
      match kind
      case AnyCoder(_) => !failed
      case Sequential(coder) =>
        if failed then NoCode()
        else
          HasSent(coder, plan, |fed|, start) && fed == plan[..|fed|] && NeverTakes(coder.dest.policy)
    }

    ghost predicate NoCode()
      reads `fed
    {
      kind.Sequential? && kind.coder.sc.Valid() && kind.coder.t.Valid() && CodableMcus(kind.coder.sc, plan) &&
      |fed| < |plan| && !SendableMcu(kind.coder.sc, kind.coder.t, plan, |fed|)
    }

    /** There is room for the next MCU. */
    ghost predicate Ample()
      requires Valid()
      reads this, Below()
    {
      kind.Sequential? && !failed && |fed| < |plan| &&
      kind.coder.dest.free > McuLength(kind.coder.sc, kind.coder.t, plan, |fed|)
    }

    /** The last answer was no. */
    predicate Refused()
      reads this
    {
      kind.AnyCoder? ==> asked > 0 && !kind.accepts(asked - 1)
    }

    constructor Any(accepts: nat -> bool)
      ensures Valid() && kind == AnyCoder(accepts) && fed == [] && asked == 0
    {
      kind, plan, start := AnyCoder(accepts), [], [];
      asked, fed, failed := 0, [], false;
    }

    constructor Huffman(coder: Encoder, ghost plan: seq<Mcu>)
      requires HasSent(coder, plan, 0, coder.Stream()) && NeverTakes(coder.dest.policy)
      ensures Valid() && kind == Sequential(coder) && this.plan == plan && start == coder.Stream() && fed == [] &&
              !failed
    {
      kind := Sequential(coder);
      this.plan, start := plan, coder.Stream();
      asked, fed, failed := 0, [], false;
    }

    /** encode_mcu. A missing code is an error exit. */
    method EncodeMcu(mcu: Mcu) returns (ok: bool)
      requires Valid() && !failed && (kind.Sequential? ==> |fed| < |plan| && mcu == plan[|fed|])
      modifies this, Below()
      ensures Valid() && asked == old(asked) + 1 && fed == if ok then old(fed) + [mcu] else old(fed)
      ensures kind.AnyCoder? ==> ok == kind.accepts(old(asked))
      ensures (ok ==> !failed) && (!ok ==> Refused())
      ensures old(Ample()) ==> ok || failed
    {
      hide SendableMcu, McuLength, RunState, RunBytes, RunSendable;
      asked := asked + 1;
      match kind {
      case AnyCoder(accepts) => ok := accepts(asked - 1);
      case Sequential(coder) =>
        var st := EncodeNext(coder, mcu, plan, |fed|, start);
        ok, failed := st == Done, st == MissingCode;
      }
      if ok { fed := fed + [mcu]; }
    }
  }
}
