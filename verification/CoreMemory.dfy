/**
 * The memory several cores share (sim/memory.cpp): one array of words and, when replicas are
 * present, a write buffer per core. To every core it looks like a flat memory of its own.
 */
module CoreMemory {
  import opened Bits
  import opened WordBytes

  type Flat = seq<Word>

  /** Bitwise and of two addresses. */
  function And(a: nat, b: nat): nat
    decreases a + b
  {
    if a == 0 && b == 0 then 0
    else 2 * And(a / 2, b / 2) + (if a % 2 == 1 && b % 2 == 1 then 1 else 0)
  }

  /** Masking with 2^k - 1 keeps the low k bits. */
  lemma {:induction false} AndMask(a: nat, k: nat)
    ensures And(a, Pow2(k) - 1) == a % Pow2(k)
    decreases k
  {
    if k == 0 {
      AndZero(a);
    } else {
      hide Pow2;
      AndMask(a / 2, k - 1);
      AndOnes(a, k);
    }
  }

  lemma AndOnes(a: nat, k: nat)
    requires k > 0 && And(a / 2, Pow2(k - 1) - 1) == a / 2 % Pow2(k - 1)
    ensures And(a, Pow2(k) - 1) == a % Pow2(k)
  {
    ModHalf(a, Pow2(k - 1));
    AndStep(a, Pow2(k) - 1);
    assert (Pow2(k) - 1) / 2 == Pow2(k - 1) - 1 && (Pow2(k) - 1) % 2 == 1;
  }

  lemma AndStep(a: nat, m: nat)
    ensures And(a, m) == 2 * And(a / 2, m / 2) + if a % 2 == 1 && m % 2 == 1 then 1 else 0
  {
  }

  lemma {:induction false} AndZero(a: nat)
    ensures And(a, 0) == 0
  {
    if a > 0 { AndZero(a / 2); }
  }

  /** One cycle's request of a core (CoreMemoryIF). */
  datatype Request = Request(en: bool, iAddr: nat, dAddr: nat, dRe: bool, dWe: bool, wdata: Word, wmask: bv4) {
    /** A read request is served in preference to a write request. */
    predicate Stores() { en && !dRe && dWe }
  }

  /** Word of a flat memory that an address means. */
  function WordOf(flat: Flat, addr: nat): (w: nat)
    requires flat != []
    ensures w < |flat|
  {
    addr / 4 % |flat|
  }

  /** A core's request served by a flat memory of its own. */
  function Served(flat: Flat, q: Request): (f: Flat)
    requires flat != []
    ensures |f| == |flat|
  {
    if q.Stores() then
      var w := WordOf(flat, q.dAddr);
      flat[w := Merged(flat[w], q.wdata, ExpandWmask(q.wmask))]
    else flat
  }

  /** What the core reads back: its instruction word and its data word, or what was there before. */
  function Fetched(flat: Flat, q: Request, before: (Word, Word)): (Word, Word)
    requires flat != []
  {
    (if q.en then flat[WordOf(flat, q.iAddr)] else before.0, if q.en && q.dRe then flat[WordOf(flat, q.dAddr)]
      else before.1)
  }

  /** What the memory as a whole is asked to do. */
  datatype Op = PrimaryCycle(q: Request) | ReplicaCycle(qs: seq<Request>) | WordToAll(addr: nat, data: Word)

  /** The same, as core `c` sees it: its own requests and what is written for all. */
  function Step(flat: Flat, c: nat, op: Op): (f: Flat)
    requires flat != [] && (op.ReplicaCycle? ==> c <= |op.qs|)
    ensures |f| == |flat|
  {
    match op
    case PrimaryCycle(q) => if c == 0 then Served(flat, q) else flat
    case ReplicaCycle(qs) => if c > 0 then Served(flat, qs[c - 1]) else flat
    case WordToAll(addr, data) => flat[WordOf(flat, addr) := data]
  }

  /** Every core's own view moves on by itself. */
  function AllStep(views: seq<Flat>, op: Op): (v: seq<Flat>)
    requires (forall c :: 0 <= c < |views| ==> views[c] != []) && (op.ReplicaCycle? ==> |views| == |op.qs| + 1)
    ensures |v| == |views|
  {
    seq(|views|, c requires 0 <= c < |views| => Step(views[c], c, op))
  }

  datatype Who = Primary | Replica(i: nat) | All

  /** What one operation does to the private memories (0 is the primary's). */
  function Stored(views: seq<Flat>, who: Who, w: nat, data: Word): (v: seq<Flat>)
    requires forall c :: 0 <= c < |views| ==> w < |views[c]|
    ensures |v| == |views|
  {
    seq(|views|, c requires 0 <= c < |views| => if Hits(who, c) then views[c][w := data] else views[c])
  }

  predicate Hits(who: Who, c: nat) {
    match who
    case Primary => c == 0
    case Replica(i) => c == i + 1
    case All => true
  }

  /** Whose memory an access reads; accesses on behalf of all read the primary's. */
  function Reader(who: Who): nat {
    match who
    case Primary => 0
    case Replica(i) => i + 1
    case All => 0
  }

  /** The buffered words after a request of core `r` ... */
  function KeyAdded(keys: seq<set<nat>>, r: nat, q: Request, n: nat): (k: seq<set<nat>>)
    requires r < |keys| && n > 0
    ensures |k| == |keys|
  {
    if q.Stores() then keys[r := keys[r] + {q.dAddr / 4 % n}] else keys
  }

  /** ... and after the requests of the first `i` replicas. */
  function StoredKeys(keys: seq<set<nat>>, qs: seq<Request>, n: nat, i: nat): (k: seq<set<nat>>)
    requires |keys| == |qs| + 1 && n > 0 && i <= |qs|
    ensures |k| == |keys|
  {
    if i == 0 then keys else KeyAdded(StoredKeys(keys, qs, n, i - 1), i, qs[i - 1], n)
  }

  predicate InAll(keys: seq<set<nat>>, w: nat) {
    forall c :: 0 <= c < |keys| ==> w in keys[c]
  }

  type Buffer = map<nat, Word>

  function Put(b: Buffer, w: nat, data: Word): (b': Buffer)
    ensures b'.Keys == b.Keys + {w}
  {
    b[w := data]
  }

  class Memory {
    const numReps: nat
    const addrBits: nat
    const mem: array<Word>
    var wb: seq<Buffer>

    predicate Valid()
      reads this
    {
      mem.Length == Pow2(addrBits) && |wb| == numReps + 1 &&
      (numReps == 0 ==> wb[0] == map[]) && forall c, w :: 0 <= c < |wb| && w in wb[c] ==> w < mem.Length
    }

    constructor (numReps: nat, addrBits: nat)
      ensures Valid() && this.numReps == numReps && this.addrBits == addrBits && fresh(mem)
      ensures forall c :: 0 <= c <= numReps ==> View(c) == seq(Pow2(addrBits), _ => 0)
      ensures Drained()
    {
      this.numReps, this.addrBits := numReps, addrBits;
      mem := new Word[Pow2(addrBits)](_ => 0);
      wb := seq(numReps + 1, _ => map[]);
    }

    /** A core's own view: its buffer entry, else the shared word. */
    function View(c: nat): (v: Flat)
      requires Valid() && c <= numReps
      reads this, mem
      ensures |v| == mem.Length
    {
      seq(mem.Length, w requires 0 <= w < mem.Length reads this, mem => if c < |wb| && w in wb[c] then wb[c][w]
          else mem[w])
    }

    function Views(): (v: seq<Flat>)
      requires Valid()
      reads this, mem
      ensures |v| == numReps + 1 && forall c :: 0 <= c < |v| ==> |v[c]| == mem.Length
    {
      seq(numReps + 1, c requires 0 <= c <= numReps && Valid() reads this, mem => View(c))
    }

    /** Nothing is buffered: the shared array is what every core sees. */
    predicate Drained()
      reads this
    {
      forall c :: 0 <= c < |wb| ==> wb[c] == map[]
    }

    /** The words in each core's buffer. */
    function Keys(): (k: seq<set<nat>>)
      reads this
      ensures |k| == |wb|
    {
      seq(|wb|, c requires 0 <= c < |wb| reads this => wb[c].Keys)
    }

    predicate Known(who: Who) {
      who.Replica? ==> who.i < numReps
    }

    function WordAddr(addr: nat): (w: nat)
      requires Valid()
      reads this
      ensures w == addr / 4 % mem.Length < mem.Length
    {
      AndMask(addr / 4, addrBits);
      And(addr / 4, mem.Length - 1)
    }

    method Read4b(who: Who, addr: nat) returns (r: Word)
      requires Valid() && Known(who)
      ensures r == View(Reader(who))[WordAddr(addr)]
    {
      var w := WordAddr(addr);
      if numReps == 0 {
        r := mem[w];
      } else {
        var b := wb[Reader(who)];
        r := if w in b then b[w] else mem[w];
      }
    }

    method Write4b(who: Who, addr: nat, data: Word)
      requires Valid() && Known(who)
      modifies this, mem
      ensures Valid() && Views() == Stored(old(Views()), if numReps == 0 then All else who, WordAddr(addr), data)
      ensures who == All ==> forall c :: 0 <= c < |wb| ==> wb[c] == old(wb[c]) - {WordAddr(addr)}
      ensures who != All && numReps > 0 ==>
                mem[..] == old(mem[..]) && wb == old(wb)[Reader(who) := Put(old(wb[Reader(who)]), WordAddr(addr), data)]
    {
      var w := WordAddr(addr);
      if numReps == 0 {
        mem[w] := data;
        assert View(0) == old(View(0))[w := data];
      } else if who == All {
        Broadcast(w, data);
      } else {
        PutBuffer(Reader(who), w, data);
        assert forall c :: 0 <= c <= numReps ==> (Hits(who, c) <==> c == Reader(who));
      }
    }

    /** Write to the shared array and drop the word from every buffer. */
    method Broadcast(w: nat, data: Word)
      requires Valid() && w < mem.Length
      modifies this, mem
      ensures Valid() && forall c :: 0 <= c <= numReps ==> View(c) == old(View(c))[w := data]
      ensures forall c :: 0 <= c < |wb| ==> wb[c] == old(wb[c]) - {w}
    {
      mem[w] := data;
      for i := 0 to numReps + 1
        invariant Valid() && forall c :: 0 <= c < |wb| ==> wb[c] == if c < i then old(wb[c]) - {w} else old(wb[c])
        modifies `wb
      {
        if w in wb[i] { wb := wb[i := wb[i] - {w}]; }
      }
      forall c | 0 <= c <= numReps
        ensures View(c) == old(View(c))[w := data]
      {
      }
    }

    /** Write to one core's buffer. */
    method PutBuffer(r: nat, w: nat, data: Word)
      requires Valid() && numReps > 0 && r <= numReps && w < mem.Length
      modifies this
      ensures Valid() && wb == old(wb)[r := Put(old(wb[r]), w, data)]
      ensures forall c :: 0 <= c <= numReps ==> View(c) == if c == r then old(View(c))[w := data] else old(View(c))
    {
      wb := wb[r := Put(wb[r], w, data)];
      forall c | 0 <= c <= numReps
        ensures View(c) == if c == r then old(View(c))[w := data] else old(View(c))
      {
      }
    }

    /** write_mask, on behalf of one core. */
    method WriteMask(who: Who, addr: nat, data: Word, mask: bv4) returns (stored: Word)
      requires Valid() && Known(who) && who != All
      modifies this, mem
      ensures stored == Merged(old(View(Reader(who))[WordAddr(addr)]), data, ExpandWmask(mask))
      ensures Valid() && Views() == Stored(old(Views()), if numReps == 0 then All else who, WordAddr(addr), stored)
      ensures numReps > 0 ==>
                mem[..] == old(mem[..]) &&
                wb == old(wb)[Reader(who) := Put(old(wb[Reader(who)]), WordAddr(addr), stored)]
    {
      var w := Read4b(who, addr);
      stored := Merged(w, data, ExpandWmask(mask));
      Write4b(who, addr, stored);
    }

    /** cleanup_wb: words in every buffer move to the shared array, from the primary's buffer;
        a replica that wrote something else keeps its own word. No core sees a change. */
    method CleanupWb()
      requires Valid()
      modifies this, mem
      ensures Valid() && Views() == old(Views()) && Cleaned(old(Keys()))
    {
      if numReps == 0 { return; }
      ghost var k0 := Keys();
      var todo := wb[0].Keys;
      while todo != {}
        invariant Valid() && todo <= k0[0]
        invariant forall c :: 0 <= c <= numReps ==> View(c) == old(View(c))
        invariant forall c: nat, w: nat ::
                    c < |wb| ==> (w in wb[c] <==> if w in todo then w in k0[c] else Stays(k0, c, w))
      {
        var w :| w in todo;
        todo := todo - {w};
        CleanupWord(w, k0);
      }
    }

    /** After a cleanup word `w` is still in the buffer of `c`. */
    predicate Stays(k0: seq<set<nat>>, c: nat, w: nat)
      requires Valid() && c < |wb| == |k0|
      reads this, mem
    {
      w in k0[c] && !(InAll(k0, w) && w < mem.Length && View(c)[w] == View(0)[w])
    }

    ghost predicate Cleaned(k0: seq<set<nat>>)
      requires Valid()
      reads this, mem
    {
      |k0| == |wb| && (numReps == 0 ==> k0 == Keys()) &&
      (numReps > 0 ==> forall c: nat, w: nat :: c < |wb| ==> (w in wb[c] <==> Stays(k0, c, w)))
    }

    /** Every core's buffer holds word `w`. */
    method WrittenAll(w: nat) returns (all: bool)
      requires Valid() && w in wb[0]
      ensures all <==> forall c :: 0 <= c < |wb| ==> w in wb[c]
    {
      all := true;
      for i := 1 to numReps + 1
        invariant all <==> forall c :: 0 <= c < i ==> w in wb[c]
      {
        all := all && w in wb[i];
      }
    }

    /** Move word `w` to the shared array; replicas that wrote the same drop theirs. */
    method MoveWord(w: nat)
      requires Valid() && numReps > 0 && w < mem.Length && forall c :: 0 <= c < |wb| ==> w in wb[c]
      modifies this, mem
      ensures mem[..] == old(mem[..])[w := old(wb[0][w])] && |wb| == numReps + 1
      ensures forall c ::
                0 <= c < |wb| ==>
                  wb[c] == if c == 0 || old(wb[c])[w] == old(wb[0][w]) then old(wb[c]) - {w} else old(wb[c])
    {
      var data := wb[0][w];
      mem[w] := data;
      for i := 1 to numReps + 1
        invariant |wb| == numReps + 1 && forall c :: 0 <= c < |wb| ==>
                    wb[c] == if 1 <= c < i && old(wb[c])[w] == data then old(wb[c]) - {w} else old(wb[c])
        modifies `wb
      {
        if wb[i][w] == data { wb := wb[i := wb[i] - {w}]; }
      }
      wb := wb[0 := wb[0] - {w}];
    }

    /** One step of the loop of cleanup_wb. */
    method CleanupWord(w: nat, ghost k0: seq<set<nat>>)
      requires Valid() && numReps > 0 && w in wb[0] && |k0| == |wb| &&
               forall c: nat :: c < |wb| ==> (w in wb[c] <==> w in k0[c])
      modifies this, mem
      ensures Valid() && forall c :: 0 <= c <= numReps ==> View(c) == old(View(c))
      ensures forall c: nat, x: nat :: c < |wb| && x != w ==> (x in wb[c] <==> x in old(wb[c]))
      ensures forall c: nat :: c < |wb| ==> (w in wb[c] <==> Stays(k0, c, w))
    {
      var writtenAll := WrittenAll(w);
      if writtenAll {
        MoveWord(w);
        assert forall x :: 0 <= x < mem.Length ==> mem[x] == if x == w then old(wb[0][w]) else old(mem[x]);
        forall c | 0 <= c <= numReps
          ensures View(c) == old(View(c))
        {
        }
      }
    }

    /** Serve a request on behalf of core `c` (0 is the primary). */
    method Access(who: Who, q: Request, before: (Word, Word)) returns (rdata: (Word, Word))
      requires Valid() && Known(who) && who != All
      modifies this, mem
      ensures Valid() && rdata == Fetched(old(View(Reader(who))), q, before)
      ensures forall c ::
                0 <= c <= numReps ==> View(c) == if Hits(who, c) then Served(old(View(c)), q) else old(View(c))
      ensures numReps > 0 ==> mem[..] == old(mem[..]) && Keys() == KeyAdded(old(Keys()), Reader(who), q, mem.Length)
    {
      hide Memory.View;
      var iRdata, dRdata := before.0, before.1;
      if q.en { iRdata := Read4b(who, q.iAddr); }
      if q.en && q.dRe { dRdata := Read4b(who, q.dAddr); }
      rdata := (iRdata, dRdata);
      if q.en && !q.dRe && q.dWe { StoreFor(who, q); }
    }

    method StoreFor(who: Who, q: Request)
      requires Valid() && Known(who) && who != All && q.Stores()
      modifies this, mem
      ensures Valid()
      ensures forall c ::
                0 <= c <= numReps ==> View(c) == if Hits(who, c) then Served(old(View(c)), q) else old(View(c))
      ensures numReps > 0 ==> mem[..] == old(mem[..]) && Keys() == KeyAdded(old(Keys()), Reader(who), q, mem.Length)
    {
      ghost var before, keys := Views(), Keys();
      var stored := WriteMask(who, q.dAddr, q.wdata, q.wmask);
      forall c | 0 <= c <= numReps
        ensures View(c) == if Hits(who, c) then Served(old(View(c)), q) else old(View(c))
      {
        assert View(c) == Views()[c] && before[c] == old(View(c));
      }
      if numReps > 0 {
        forall c | 0 <= c <= numReps
          ensures Keys()[c] == KeyAdded(keys, Reader(who), q, mem.Length)[c]
        {
        }
      }
    }

    /** update: the primary's cycle. */
    method Update(q: Request, before: (Word, Word)) returns (rdata: (Word, Word))
      requires Valid()
      modifies this, mem
      ensures rdata == Fetched(old(View(0)), q, before)
      ensures Valid() && Views() == AllStep(old(Views()), PrimaryCycle(q))
      ensures numReps > 0 ==> mem[..] == old(mem[..]) && Keys() == KeyAdded(old(Keys()), 0, q, mem.Length)
    {
      rdata := Access(Primary, q, before);
    }

    /** The requests of the replicas, in order, without the cleanup. */
    method ServeReplicas(qs: seq<Request>, before: seq<(Word, Word)>) returns (rdata: seq<(Word, Word)>)
      requires Valid() && |qs| == |before| == numReps
      modifies this, mem
      ensures Valid() && Views() == AllStep(old(Views()), ReplicaCycle(qs)) &&
              Keys() == StoredKeys(old(Keys()), qs, mem.Length, numReps)
      ensures |rdata| == numReps &&
              forall i :: 0 <= i < numReps ==> rdata[i] == Fetched(old(Views())[i + 1], qs[i], before[i])
    {
      rdata := before;
      ghost var v0, k0 := Views(), Keys();
      for i := 0 to numReps
        invariant |rdata| == numReps && ServedTo(i, v0, k0, qs)
        invariant forall k :: 0 <= k < i ==> rdata[k] == Fetched(v0[k + 1], qs[k], before[k])
      {
        var r := ServeOne(i, qs, before[i], v0, k0);
        rdata := rdata[i := r];
      }
    }

    /** The first `i` replicas have been served. */
    ghost predicate ServedTo(i: nat, v0: seq<Flat>, k0: seq<set<nat>>, qs: seq<Request>)
      reads this, mem
    {
      Valid() && |v0| == |k0| == numReps + 1 && |qs| == numReps &&
      (forall c :: 0 <= c <= numReps ==> |v0[c]| == mem.Length) &&
      (forall c: nat :: c <= numReps ==> View(c) == if c <= i then Step(v0[c], c, ReplicaCycle(qs)) else v0[c]) &&
      i <= numReps && Keys() == StoredKeys(k0, qs, mem.Length, i)
    }

    method ServeOne(i: nat, qs: seq<Request>, before: (Word, Word), ghost v0: seq<Flat>, ghost k0: seq<set<nat>>)
        returns (rdata: (Word, Word))
      requires ServedTo(i, v0, k0, qs) && i < numReps
      modifies this, mem
      ensures ServedTo(i + 1, v0, k0, qs) && rdata == Fetched(v0[i + 1], qs[i], before)
    {
      rdata := Access(Replica(i), qs[i], before);
    }

    /** update_replica: every replica's cycle, and the cleanup. */
    method UpdateReplica(qs: seq<Request>, before: seq<(Word, Word)>) returns (rdata: seq<(Word, Word)>)
      requires Valid() && |qs| == |before| == numReps
      modifies this, mem
      ensures Valid() && Views() == AllStep(old(Views()), ReplicaCycle(qs))
      ensures |rdata| == numReps &&
              forall i :: 0 <= i < numReps ==> rdata[i] == Fetched(old(Views())[i + 1], qs[i], before[i])
      ensures Cleaned(StoredKeys(old(Keys()), qs, mem.Length, numReps))
    {
      rdata := ServeReplicas(qs, before);
      CleanupWb();
    }

    /** write_1b on behalf of all cores: the other three bytes are taken from the primary's view. */
    method Write1bAll(addr: nat, data: bv8)
      requires Valid()
      modifies this, mem
      ensures Valid() && Views() == ByteToAll(old(Views()), addr, data)
      ensures old(Drained()) ==> Drained()
    {
      var wdata := 0x01010101 * (data as Word);
      Widened(data);
      Repeated(data as Word);
      var w := Read4b(All, addr);
      WriteAll(addr, Merged(w, wdata, LaneMask(addr % 4)));
    }

    /** write_4b on behalf of all cores. */
    method WriteAll(addr: nat, data: Word)
      requires Valid()
      modifies this, mem
      ensures Valid() && Views() == AllStep(old(Views()), WordToAll(addr, data))
      ensures old(Drained()) ==> Drained()
      ensures forall c :: 0 <= c < |wb| ==> wb[c] == old(wb[c]) - {WordAddr(addr)}
    {
      ghost var v0 := Views();
      Write4b(All, addr, data);
      assert Views() == Stored(v0, All, WordAddr(addr), data);
    }

    /** The public write: words if the range is aligned, single bytes if not. */
    method Write(addr: nat, data: seq<bv8>)
      requires Valid()
      modifies this, mem
      ensures Valid() && Views() == Written(old(Views()), addr, data)
      ensures old(Drained()) ==> Drained()
    {
      if addr % 4 == 0 && |data| % 4 == 0 { WriteWords(addr, data); } else { WriteBytes(addr, data); }
    }

    method WriteWords(addr: nat, data: seq<bv8>)
      requires Valid() && |data| % 4 == 0
      modifies this, mem
      ensures Valid() && Views() == WordsWritten(old(Views()), addr, data, |data| / 4)
      ensures old(Drained()) ==> Drained()
    {
      ghost var v0 := Views();
      for i := 0 to |data| / 4
        invariant Valid() && Views() == WordsWritten(v0, addr, data, i) && (old(Drained()) ==> Drained())
      {
        WriteWord(addr, data, i, v0);
      }
    }

    method WriteWord(addr: nat, data: seq<bv8>, i: nat, ghost v0: seq<Flat>)
      requires Valid() && i * 4 + 4 <= |data| && (forall c :: 0 <= c < |v0| ==> v0[c] != []) &&
               Views() == WordsWritten(v0, addr, data, i)
      modifies this, mem
      ensures Valid() && Views() == WordsWritten(v0, addr, data, i + 1)
      ensures old(Drained()) ==> Drained()
    {
      WriteAll(addr + i * 4, WordIn(data, i));
    }

    method WriteBytes(addr: nat, data: seq<bv8>)
      requires Valid()
      modifies this, mem
      ensures Valid() && Views() == BytesWritten(old(Views()), addr, data, |data|)
      ensures old(Drained()) ==> Drained()
    {
      ghost var v0 := Views();
      for i := 0 to |data|
        invariant Valid() && Views() == BytesWritten(v0, addr, data, i) && (old(Drained()) ==> Drained())
      {
        WriteByte(addr, data, i, v0);
      }
    }

    method WriteByte(addr: nat, data: seq<bv8>, i: nat, ghost v0: seq<Flat>)
      requires Valid() && i < |data| && v0 != [] && (forall c :: 0 <= c < |v0| ==> v0[c] != []) &&
               Views() == BytesWritten(v0, addr, data, i)
      modifies this, mem
      ensures Valid() && Views() == BytesWritten(v0, addr, data, i + 1)
      ensures old(Drained()) ==> Drained()
    {
      BytesWrittenStep(v0, addr, data, i);
      Write1bAll(addr + i, data[i]);
    }

    /** The public read, always from the primary's view: words if aligned, single bytes if not. */
    method Read(addr: nat, size: nat) returns (data: seq<bv8>)
      requires Valid()
      ensures |data| == size && Spells(View(0), addr, data)
    {
      if addr % 4 == 0 && size % 4 == 0 { data := ReadWords(addr, size / 4); } else { data := ReadBytes(addr, size); }
    }

    method ReadWords(addr: nat, n: nat) returns (data: seq<bv8>)
      requires Valid() && addr % 4 == 0
      ensures |data| == n * 4 && Spells(View(0), addr, data)
    {
      data := [];
      for i := 0 to n
        invariant |data| == i * 4 && Spells(View(0), addr, data)
      {
        var w := Read4b(Primary, addr + i * 4);
        SpellsWord(View(0), addr, data, i, w);
        data := data + BytesOf(w);
      }
    }

    method ReadBytes(addr: nat, size: nat) returns (data: seq<bv8>)
      requires Valid()
      ensures |data| == size && Spells(View(0), addr, data)
    {
      data := [];
      for i := 0 to size
        invariant |data| == i && Spells(View(0), addr, data)
      {
        var w := Read4b(Primary, addr + i);
        data := data + [ByteOf(w, (addr + i) % 4)];
      }
    }
  }

  function ByteAt(flat: Flat, addr: nat): bv8
    requires flat != []
  {
    ByteOf(flat[WordOf(flat, addr)], addr % 4)
  }

  lemma SameWord(addr: nat, i: nat, k: nat, n: nat)
    requires addr % 4 == 0 && n > 0 && k < 4
    ensures (addr + (i * 4 + k)) / 4 == (addr + i * 4) / 4 && (addr + (i * 4 + k)) % 4 == k
  {
  }

  /** `data` is what the memory holds from `addr` on. */
  predicate Spells(flat: Flat, addr: nat, data: seq<bv8>)
    requires flat != []
  {
    forall k: nat :: k < |data| ==> data[k] == ByteAt(flat, addr + k)
  }

  lemma SpellsWord(flat: Flat, addr: nat, data: seq<bv8>, i: nat, w: Word)
    requires addr % 4 == 0 && flat != [] && w == flat[WordOf(flat, addr + i * 4)] && |data| == i * 4 &&
             Spells(flat, addr, data)
    ensures Spells(flat, addr, data + BytesOf(w))
  {
    var all := data + BytesOf(w);
    forall k: nat | k < |all|
      ensures all[k] == ByteAt(flat, addr + k)
    {
      if k >= i * 4 { SameWord(addr, i, k - i * 4, |flat|); }
    }
  }

  /** Word `i` of a run of bytes. */
  function WordIn(data: seq<bv8>, i: nat): Word
    requires i * 4 + 4 <= |data|
  {
    FromBytes(data[i * 4], data[i * 4 + 1], data[i * 4 + 2], data[i * 4 + 3])
  }

  /** Words 0 .. n-1 of `data` written for all. */
  function WordsWritten(views: seq<Flat>, addr: nat, data: seq<bv8>, n: nat): (v: seq<Flat>)
    requires (forall c :: 0 <= c < |views| ==> views[c] != []) && n * 4 <= |data|
    ensures |v| == |views| && forall c :: 0 <= c < |v| ==> |v[c]| == |views[c]|
  {
    if n == 0 then views
    else
      AllStep(WordsWritten(views, addr, data, n - 1), WordToAll(addr + (n - 1) * 4, WordIn(data, n - 1)))
  }

  /** One byte written for all: the word it lies in becomes the primary's word with that byte. */
  function ByteToAll(views: seq<Flat>, addr: nat, b: bv8): (v: seq<Flat>)
    requires views != [] && forall c :: 0 <= c < |views| ==> views[c] != []
    ensures |v| == |views| && forall c :: 0 <= c < |v| ==> |v[c]| == |views[c]|
  {
    AllStep(views, WordToAll(addr, WithByte(views[0][WordOf(views[0], addr)], addr % 4, b)))
  }

  /** Bytes 0 .. n-1 of `data` written for all, one at a time. */
  function BytesWritten(views: seq<Flat>, addr: nat, data: seq<bv8>, n: nat): (v: seq<Flat>)
    requires views != [] && (forall c :: 0 <= c < |views| ==> views[c] != []) && n <= |data|
    ensures |v| == |views| && forall c :: 0 <= c < |v| ==> |v[c]| == |views[c]|
  {
    if n == 0 then views
    else
      ByteToAll(BytesWritten(views, addr, data, n - 1), addr + (n - 1), data[n - 1])
  }

  lemma BytesWrittenStep(views: seq<Flat>, addr: nat, data: seq<bv8>, i: nat)
    requires views != [] && (forall c :: 0 <= c < |views| ==> views[c] != []) && i < |data|
    ensures BytesWritten(views, addr, data, i + 1) == ByteToAll(BytesWritten(views, addr, data, i), addr + i, data[i])
  {
  }

  function Written(views: seq<Flat>, addr: nat, data: seq<bv8>): seq<Flat>
    requires views != [] && forall c :: 0 <= c < |views| ==> views[c] != []
  {
    if addr % 4 == 0 && |data| % 4 == 0 then WordsWritten(views, addr, data, |data| / 4)
    else BytesWritten(views, addr, data, |data|)
  }

  /** A range written to a memory that only one core sees. */
  function Alone(flat: Flat, addr: nat, data: seq<bv8>): (f: Flat)
    requires flat != []
    ensures |f| == |flat|
  {
    WrittenLengths([flat], addr, data);
    Written([flat], addr, data)[0]
  }

  lemma WrittenLengths(views: seq<Flat>, addr: nat, data: seq<bv8>)
    requires views != [] && forall c :: 0 <= c < |views| ==> views[c] != []
    ensures |Written(views, addr, data)| == |views| &&
            forall c :: 0 <= c < |views| ==> |Written(views, addr, data)[c]| == |views[c]|
  {
  }
}
