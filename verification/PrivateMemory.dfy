/**
 * Whole runs of the shared memory (sim/memory.cpp): what each core sees and reads is what it would
 * see and read in a memory of its own, except where a range written for all cores starts or ends
 * within a word on which the cores disagree.
 */
module PrivateMemory {
  import opened ByteMemory
  import opened CoreMemory
  import opened WordBytes
  import RiscvIsa

  // ---- ranges of bytes

  /** Byte `p` of a memory of `m` bytes, `base` before the first `n` bytes of `data` are written
      from `addr` on. */
  function PokeAt(base: bv8, addr: nat, data: seq<bv8>, n: nat, m: nat, p: nat): bv8
    requires n <= |data| && m > 0
  {
    if n == 0 then base else if (addr + (n - 1)) % m == p then data[n - 1] else PokeAt(base, addr, data, n - 1, m, p)
  }

  /** A range written to a memory of bytes. */
  function Poked(mem: RiscvIsa.Bytes, addr: nat, data: seq<bv8>): (r: RiscvIsa.Bytes)
    ensures |r| == |mem|
  {
    seq(|mem|, p requires 0 <= p < |mem| => PokeAt(mem[p], addr, data, |data|, |mem|, p))
  }

  /** Byte `p` is one of the `n` bytes from `addr` on ... */
  predicate Hit(addr: nat, n: nat, m: nat, p: nat)
    requires m > 0
  {
    n > 0 && ((addr + (n - 1)) % m == p || Hit(addr, n - 1, m, p))
  }

  /** ... and word `w` holds one of them. */
  predicate Touched(addr: nat, n: nat, words: nat, w: nat)
    requires words > 0
  {
    n > 0 && ((addr + (n - 1)) / 4 % words == w || Touched(addr, n - 1, words, w))
  }

  lemma {:induction false} PokedOver(b1: bv8, b2: bv8, addr: nat, data: seq<bv8>, n: nat, m: nat, p: nat)
    requires n <= |data| && m > 0
    ensures PokeAt(b1, addr, data, n, m, p) == PokeAt(b2, addr, data, n, m, p) <==> Hit(addr, n, m, p) || b1 == b2
  {
    if n > 0 { PokedOver(b1, b2, addr, data, n - 1, m, p); }
  }

  /** A byte written for all cores: the rest of its word becomes the primary's. */
  lemma ByteStep(views: seq<Flat>, a: nat, b: bv8, c: nat, p: nat)
    requires SameSize(views) && c < |views| && p < 4 * |views[0]|
    ensures BytesIn(ByteToAll(views, a, b)[c])[p] ==
            if p == a % (4 * |views[0]|) then b
            else BytesIn(views[if p / 4 == a / 4 % |views[0]| then 0 else c])[p]
  {
    hide WithByte, ByteOf;
    var n := |views[0]|;
    var w := a / 4 % n;
    Places(a, n);
    if p / 4 == w {
      assert p == 4 * w + p % 4;
      ByteWritten(views[0][w], a % 4, b, p % 4);
    }
  }

  predicate SameSize(views: seq<Flat>) {
    views != [] && views[0] != [] && forall c :: 0 <= c < |views| ==> |views[c]| == |views[0]|
  }

  lemma {:induction false} BytesPoked(views: seq<Flat>, addr: nat, data: seq<bv8>, n: nat, c: nat, p: nat)
    requires SameSize(views) && n <= |data| && c < |views| && p < 4 * |views[0]|
    ensures BytesIn(BytesWritten(views, addr, data, n)[c])[p] ==
            PokeAt(BytesIn(views[if Touched(addr, n, |views[0]|, p / 4) then 0 else c])[p], addr, data, n,
                4 * |views[0]|, p)
  {
    hide ByteToAll, BytesIn;
    if n > 0 {
      BytesPoked(views, addr, data, n - 1, c, p);
      BytesPoked(views, addr, data, n - 1, 0, p);
      ByteStep(BytesWritten(views, addr, data, n - 1), addr + (n - 1), data[n - 1], c, p);
    }
  }

  /** A word written for all cores is its four bytes written to each. */
  lemma WordStep(flat: Flat, a: nat, w: Word, p: nat)
    requires flat != [] && a % 4 == 0 && p < 4 * |flat|
    ensures var m := 4 * |flat|;
            BytesIn(flat[WordOf(flat, a) := w])[p] ==
            if (a + 3) % m == p then ByteOf(w, 3) else if (a + 2) % m == p then ByteOf(w, 2)
            else if (a + 1) % m == p then ByteOf(w, 1) else if a % m == p then ByteOf(w, 0) else BytesIn(flat)[p]
  {
    hide ByteOf;
    var m, base := 4 * |flat|, 4 * WordOf(flat, a);
    Places(a, |flat|);
    Onward(a, 1, m, base);
    Onward(a, 2, m, base);
    Onward(a, 3, m, base);
    assert p == 4 * (p / 4) + p % 4;
  }

  lemma WordsNext(views: seq<Flat>, addr: nat, data: seq<bv8>, n: nat, c: nat)
    requires SameSize(views) && 0 < n && n * 4 <= |data| && c < |views|
    ensures var v := WordsWritten(views, addr, data, n - 1)[c];
            v != [] && WordsWritten(views, addr, data, n)[c] == v[WordOf(v, addr + (n - 1) * 4) := WordIn(data, n - 1)]
  {
  }

  lemma WordsStep(v: Flat, addr: nat, data: seq<bv8>, i: nat, p: nat, base: bv8)
    requires v != [] && addr % 4 == 0 && i * 4 + 4 <= |data| && p < 4 * |v|
    requires BytesIn(v)[p] == PokeAt(base, addr, data, i * 4, 4 * |v|, p)
    ensures BytesIn(v[WordOf(v, addr + i * 4) := WordIn(data, i)])[p] == PokeAt(base, addr, data, i * 4 + 4, 4 * |v|, p)
  {
    hide BytesIn, FromBytes, PokeAt, WordOf;
    WordPoked(v, base, addr, data, i * 4, WordIn(data, i), p);
  }

  lemma {:induction false} WordsPoked(views: seq<Flat>, addr: nat, data: seq<bv8>, n: nat, c: nat, p: nat)
    requires SameSize(views) && addr % 4 == 0 && n * 4 <= |data| && c < |views| && p < 4 * |views[0]|
    ensures BytesIn(WordsWritten(views, addr, data, n)[c])[p] == PokeAt(BytesIn(views[c])[p], addr, data, n * 4,
              4 * |views[0]|, p)
  {
    hide BytesIn, PokeAt, WordsWritten, WordOf, WordIn;
    if n == 0 {
      NoWords(views, addr, data, c, p);
    } else {
      WordsPoked(views, addr, data, n - 1, c, p);
      WordsNext(views, addr, data, n, c);
      WordsStep(WordsWritten(views, addr, data, n - 1)[c], addr, data, n - 1, p, BytesIn(views[c])[p]);
    }
  }

  lemma NoWords(views: seq<Flat>, addr: nat, data: seq<bv8>, c: nat, p: nat)
    requires SameSize(views) && c < |views| && p < 4 * |views[0]|
    ensures BytesIn(WordsWritten(views, addr, data, 0)[c])[p] == PokeAt(BytesIn(views[c])[p], addr, data, 0,
              4 * |views[0]|, p)
  {
    hide BytesIn;
  }

  lemma WordPoked(flat: Flat, base: bv8, addr: nat, data: seq<bv8>, k: nat, w: Word, p: nat)
    requires flat != [] && addr % 4 == 0 && k % 4 == 0 && k + 4 <= |data| && p < 4 * |flat|
    requires w == FromBytes(data[k], data[k + 1], data[k + 2], data[k + 3])
    requires BytesIn(flat)[p] == PokeAt(base, addr, data, k, 4 * |flat|, p)
    ensures BytesIn(flat[WordOf(flat, addr + k) := w])[p] == PokeAt(base, addr, data, k + 4, 4 * |flat|, p)
  {
    hide BytesIn, ByteOf, FromBytes, PokeAt;
    WordStep(flat, addr + k, w, p);
    BytesOfWord(data[k], data[k + 1], data[k + 2], data[k + 3]);
    FourPokes(base, addr, data, k, 4 * |flat|, p);
  }

  lemma FourPokes(base: bv8, addr: nat, data: seq<bv8>, k: nat, m: nat, p: nat)
    requires k + 4 <= |data| && m > 0
    ensures PokeAt(base, addr, data, k + 4, m, p) ==
            if (addr + k + 3) % m == p then data[k + 3] else if (addr + k + 2) % m == p then data[k + 2]
            else if (addr + k + 1) % m == p then data[k + 1] else if (addr + k) % m == p then data[k]
            else PokeAt(base, addr, data, k, m, p)
  {
    assert PokeAt(base, addr, data, k + 2, m, p) ==
           if (addr + (k + 1)) % m == p then data[k + 1] else PokeAt(base, addr, data, k + 1, m, p);
  }

  /** A range that is written word by word. */
  predicate Whole(addr: nat, data: seq<bv8>) { addr % 4 == 0 && |data| % 4 == 0 }

  /** Whose byte `p` is before the range lands on it. */
  function Under(addr: nat, data: seq<bv8>, words: nat, c: nat, p: nat): (u: nat)
    requires words > 0
    ensures u == 0 || u == c
  {
    if !Whole(addr, data) && Touched(addr, |data|, words, p / 4) then 0 else c
  }

  lemma RangePoked(views: seq<Flat>, addr: nat, data: seq<bv8>, c: nat, p: nat)
    requires SameSize(views) && c < |views| && p < 4 * |views[0]|
    ensures |Written(views, addr, data)| == |views| && |Written(views, addr, data)[c]| == |views[0]|
    ensures BytesIn(Written(views, addr, data)[c])[p] ==
            PokeAt(BytesIn(views[Under(addr, data, |views[0]|, c, p)])[p], addr, data, |data|, 4 * |views[0]|, p)
  {
    hide BytesIn, PokeAt;
    WrittenLengths(views, addr, data);
    if Whole(addr, data) { WordsPoked(views, addr, data, |data| / 4, c, p); }
      else { BytesPoked(views, addr, data, |data|, c, p); }
  }

  /** To a core alone, the public write is a write of bytes. */
  lemma AlonePoked(flat: Flat, addr: nat, data: seq<bv8>)
    requires flat != []
    ensures BytesIn(Alone(flat, addr, data)) == Poked(BytesIn(flat), addr, data)
  {
    hide BytesIn, PokeAt;
    WrittenLengths([flat], addr, data);
    forall p: nat | p < 4 * |flat|
      ensures BytesIn(Alone(flat, addr, data))[p] == Poked(BytesIn(flat), addr, data)[p]
    {
      RangePoked([flat], addr, data, 0, p);
    }
  }

  lemma SameBytesSameWords(a: Flat, b: Flat)
    requires |a| == |b| && BytesIn(a) == BytesIn(b)
    ensures a == b
  {
    hide ByteOf;
    forall w | 0 <= w < |a|
      ensures a[w] == b[w]
    {
      assert forall k ::
               0 <= k < 4 ==> BytesIn(a)[4 * w + k] == ByteOf(a[w], k) && BytesIn(b)[4 * w + k] == ByteOf(b[w], k);
      FourBytes(a[w], b[w]);
    }
  }

  lemma FourBytes(v: Word, w: Word)
    requires ByteOf(v, 0) == ByteOf(w, 0) && ByteOf(v, 1) == ByteOf(w, 1) && ByteOf(v, 2) == ByteOf(w, 2) &&
             ByteOf(v, 3) == ByteOf(w, 3)
    ensures v == w
  {
  }

  /** Core `c` agrees with the primary on the bytes that share a word with the range. */
  predicate Untorn(views: seq<Flat>, addr: nat, data: seq<bv8>, c: nat)
    requires SameSize(views) && c < |views|
  {
    Whole(addr, data) ||
    forall p: nat ::
      p < 4 * |views[0]| && Touched(addr, |data|, |views[0]|, p / 4) && !Hit(addr, |data|, 4 * |views[0]|, p) ==>
      BytesIn(views[c])[p] == BytesIn(views[0])[p]
  }

  /** A range written for all is a range written to the core's own memory exactly if it tears no word. */
  lemma RangeIsPrivateExactly(views: seq<Flat>, addr: nat, data: seq<bv8>, c: nat)
    requires SameSize(views) && c < |views|
    ensures |Written(views, addr, data)| == |views|
    ensures Written(views, addr, data)[c] == Alone(views[c], addr, data) <==> Untorn(views, addr, data, c)
  {
    hide BytesIn, PokeAt, Touched, Hit;
    WrittenLengths(views, addr, data);
    AlonePoked(views[c], addr, data);
    var n := |views[0]|;
    forall p: nat | p < 4 * n
      ensures BytesIn(Written(views, addr, data)[c])[p] == BytesIn(Alone(views[c], addr, data))[p] <==>
              Hit(addr, |data|, 4 * n, p) || BytesIn(views[Under(addr, data, n, c, p)])[p] == BytesIn(views[c])[p]
    {
      RangePoked(views, addr, data, c, p);
      PokedOver(BytesIn(views[Under(addr, data, n, c, p)])[p], BytesIn(views[c])[p], addr, data, |data|, 4 * n, p);
    }
    if Untorn(views, addr, data, c) {
      SameBytesSameWords(Written(views, addr, data)[c], Alone(views[c], addr, data));
    }
  }

  /** A byte written for all takes the primary's neighbours along. */
  lemma TornByte()
    ensures Written([[0], [0x100]], 0, [7])[1] != Alone([0x100], 0, [7])
  {
    var views: seq<Flat> := [[0], [0x100]];
    var data: seq<bv8> := [7];
    RangeIsPrivateExactly(views, 0, data, 1);
    assert Touched(0, 1, 1, 1 / 4) && !Hit(0, 1, 4, 1);
    assert BytesIn(views[1])[1] != BytesIn(views[0])[1];
  }

  // ---- runs

  /** A cycle of the cores, or a range written for all by the public write. */
  datatype Action = Cycle(op: Op) | Range(addr: nat, data: seq<bv8>)

  /** The action of replicas has a request for each. */
  predicate Fits(a: Action, cores: nat) {
    a.Cycle? && a.op.ReplicaCycle? ==> |a.op.qs| + 1 == cores
  }

  predicate AllFit(acts: seq<Action>, cores: nat) {
    forall i :: 0 <= i < |acts| ==> Fits(acts[i], cores)
  }

  /** What an action does to the memory that core `c` has to itself. */
  function Act(flat: Flat, c: nat, a: Action, cores: nat): (f: Flat)
    requires flat != [] && c < cores && Fits(a, cores)
    ensures |f| == |flat|
  {
    match a case Cycle(op) => Step(flat, c, op) case Range(addr, data) => Alone(flat, addr, data)
  }

  /** What core `c` reads: its instruction and data words, or what it read before. */
  function Reads(flat: Flat, c: nat, a: Action, cores: nat, before: (Word, Word)): (Word, Word)
    requires flat != [] && c < cores && Fits(a, cores)
  {
    if a.Cycle? && a.op.PrimaryCycle? && c == 0 then Fetched(flat, a.op.q, before)
    else if a.Cycle? && a.op.ReplicaCycle? && c > 0 then Fetched(flat, a.op.qs[c - 1], before)
    else before
  }

  /** The memory that core `c` would have to itself after `n` actions ... */
  function AloneAfter(flat: Flat, c: nat, acts: seq<Action>, cores: nat, n: nat): (f: Flat)
    requires flat != [] && c < cores && AllFit(acts, cores) && n <= |acts|
    ensures |f| == |flat|
  {
    if n == 0 then flat else Act(AloneAfter(flat, c, acts, cores, n - 1), c, acts[n - 1], cores)
  }

  /** ... and what it would have read last. */
  function ReadAlone(flat: Flat, c: nat, acts: seq<Action>, cores: nat, n: nat): (Word, Word)
    requires flat != [] && c < cores && AllFit(acts, cores) && n <= |acts|
  {
    if n == 0 then (0, 0)
    else Reads(AloneAfter(flat, c, acts, cores, n - 1), c, acts[n - 1], cores, ReadAlone(flat, c, acts, cores, n - 1))
  }

  /** What an action does to the views of all cores. */
  function ActAll(views: seq<Flat>, a: Action): (v: seq<Flat>)
    requires SameSize(views) && Fits(a, |views|)
    ensures |v| == |views| && SameSize(v) && |v[0]| == |views[0]|
  {
    match a
    case Cycle(op) => AllStep(views, op)
    case Range(addr, data) =>
      WrittenLengths(views, addr, data);
      Written(views, addr, data)
  }

  function AllAfter(views: seq<Flat>, acts: seq<Action>, n: nat): (v: seq<Flat>)
    requires SameSize(views) && AllFit(acts, |views|) && n <= |acts|
    ensures |v| == |views| && SameSize(v) && |v[0]| == |views[0]|
  {
    if n == 0 then views else ActAll(AllAfter(views, acts, n - 1), acts[n - 1])
  }

  /** The memories that the cores would have to themselves. */
  function Apart(views: seq<Flat>, acts: seq<Action>, n: nat): (v: seq<Flat>)
    requires SameSize(views) && AllFit(acts, |views|) && n <= |acts|
    ensures |v| == |views| && SameSize(v) && |v[0]| == |views[0]|
    ensures forall c :: 0 <= c < |v| ==> v[c] == AloneAfter(views[c], c, acts, |views|, n)
  {
    seq(|views|, c requires 0 <= c < |views| => AloneAfter(views[c], c, acts, |views|, n))
  }

  /** The ranges written among the first `n` actions tear no word of the cores' own memories. */
  predicate NothingTorn(views: seq<Flat>, acts: seq<Action>, n: nat)
    requires SameSize(views) && AllFit(acts, |views|) && n <= |acts|
  {
    forall i, c: nat {:trigger TearsNot(views, acts, i, c)} :: 0 <= i < n && c < |views| ==> TearsNot(views, acts, i, c)
  }

  predicate TearsNot(views: seq<Flat>, acts: seq<Action>, i: nat, c: nat)
    requires SameSize(views) && AllFit(acts, |views|) && i < |acts| && c < |views|
  {
    acts[i].Range? ==> Untorn(Apart(views, acts, i), acts[i].addr, acts[i].data, c)
  }

  /** One action keeps the memories apart exactly if it tears no word. */
  lemma ActApart(views: seq<Flat>, a: Action, c: nat)
    requires SameSize(views) && Fits(a, |views|) && c < |views|
    ensures ActAll(views, a)[c] == Act(views[c], c, a, |views|) <==> (a.Range? ==> Untorn(views, a.addr, a.data, c))
  {
    hide Untorn, Written, Alone, Step;
    if a.Range? { RangeIsPrivateExactly(views, a.addr, a.data, c); }
  }

  /** After every action of a run each core has the memory it would have to itself, exactly if no
      range written tears a word. */
  lemma {:induction false} ApartExactly(views: seq<Flat>, acts: seq<Action>, n: nat)
    requires SameSize(views) && AllFit(acts, |views|) && n <= |acts|
    ensures (forall i: nat :: i <= n ==> AllAfter(views, acts, i) == Apart(views, acts, i)) <==>
            NothingTorn(views, acts, n)
  {
    hide ActAll, Act, Untorn, AllFit;
    if n == 0 {
      assert AllAfter(views, acts, 0) == Apart(views, acts, 0);
    } else {
      ApartExactly(views, acts, n - 1);
      if NothingTorn(views, acts, n - 1) { ApartOnce(views, acts, n - 1); }
      assert NothingTorn(views, acts, n) ==> NothingTorn(views, acts, n - 1);
    }
  }

  lemma ApartOnce(views: seq<Flat>, acts: seq<Action>, n: nat)
    requires SameSize(views) && AllFit(acts, |views|) && n < |acts| && AllAfter(views, acts, n) == Apart(views, acts, n)
    ensures AllAfter(views, acts, n + 1) == Apart(views, acts, n + 1) <==>
            forall c: nat :: c < |views| ==> TearsNot(views, acts, n, c)
  {
    hide ActAll, Act, Untorn;
    var before, after, apart := Apart(views, acts, n), AllAfter(views, acts, n + 1), Apart(views, acts, n + 1);
    forall c: nat | c < |views|
      ensures after[c] == apart[c] <==> TearsNot(views, acts, n, c)
    {
      ActApart(before, acts[n], c);
    }
  }

  type Pair = (Word, Word)

  /** What all cores read. */
  function ReadsAll(views: seq<Flat>, a: Action, before: seq<Pair>): (r: seq<Pair>)
    requires SameSize(views) && Fits(a, |views|) && |before| == |views|
    ensures |r| == |views|
  {
    seq(|views|, c requires 0 <= c < |views| => Reads(views[c], c, a, |views|, before[c]))
  }

  /** One action on the shared memory; `before` is what the cores' interfaces hold. */
  method Perform(m: Memory, a: Action, before: seq<Pair>) returns (read: seq<Pair>)
    requires m.Valid() && SameSize(m.Views()) && Fits(a, m.numReps + 1) && |before| == m.numReps + 1
    modifies m, m.mem
    ensures m.Valid() && m.Views() == ActAll(old(m.Views()), a) && read == ReadsAll(old(m.Views()), a, before)
  {
    hide Fetched, AllStep, Written, SameSize, Memory.View;
    ghost var v0 := m.Views();
    match a {
      case Cycle(PrimaryCycle(q)) =>
        var rdata := m.Update(q, before[0]);
        read := before[0 := rdata];
      case Cycle(ReplicaCycle(qs)) =>
        var rdata := m.UpdateReplica(qs, before[1..]);
        read := [before[0]] + rdata;
      case Cycle(WordToAll(addr, data)) =>
        m.WriteAll(addr, data);
        read := before;
      case Range(addr, data) =>
        m.Write(addr, data);
        read := before;
    }
    assert read == ReadsAll(v0, a, before);
  }

  /** The reads of each core, after every action, are those of a memory of its own. */
  ghost predicate ReadsApart(views: seq<Flat>, acts: seq<Action>, trace: seq<seq<Pair>>, n: nat)
    requires SameSize(views) && AllFit(acts, |views|) && n <= |acts|
  {
    |trace| > n && forall i: nat :: i <= n ==> trace[i] == AllReadAlone(views, acts, i)
  }

  function AllReadAlone(views: seq<Flat>, acts: seq<Action>, n: nat): (r: seq<Pair>)
    requires SameSize(views) && AllFit(acts, |views|) && n <= |acts|
    ensures |r| == |views|
  {
    seq(|views|, c requires 0 <= c < |views| => ReadAlone(views[c], c, acts, |views|, n))
  }

  lemma ReadsStayApart(views: seq<Flat>, acts: seq<Action>, n: nat, read: seq<Pair>)
    requires SameSize(views) && AllFit(acts, |views|) && n < |acts|
    requires read == ReadsAll(Apart(views, acts, n), acts[n], AllReadAlone(views, acts, n))
    ensures read == AllReadAlone(views, acts, n + 1)
  {
    hide Reads, Act;
  }

  /** Any run: `trace` is what the cores' interfaces hold before the first and after every action.
      If no range tears a word, every core sees and reads, at every point, what it would see and
      read in a memory that it had to itself. */
  method Run(m: Memory, acts: seq<Action>) returns (trace: seq<seq<Pair>>)
    requires m.Valid() && AllFit(acts, m.numReps + 1)
    modifies m, m.mem
    ensures m.Valid() && SameSize(old(m.Views())) && m.Views() == AllAfter(old(m.Views()), acts, |acts|)
    ensures |trace| == |acts| + 1
    ensures NothingTorn(old(m.Views()), acts, |acts|) ==>
              m.Views() == Apart(old(m.Views()), acts, |acts|) && ReadsApart(old(m.Views()), acts, trace, |acts|)
  {
    hide Memory.View, ActAll, ReadsAll, AloneAfter, NothingTorn, Fits;
    ghost var v0 := m.Views();
    Sizes(m);
    ApartExactly(v0, acts, |acts|);
    trace := [seq(m.numReps + 1, _ => (0, 0))];
    assert trace[0] == AllReadAlone(v0, acts, 0);
    for i := 0 to |acts|
      invariant m.Valid() && m.Views() == AllAfter(v0, acts, i) && |trace| == i + 1 && |trace[i]| == m.numReps + 1
      invariant NothingTorn(v0, acts, |acts|) ==> ReadsApart(v0, acts, trace, i)
    {
      var read := Perform(m, acts[i], trace[i]);
      if NothingTorn(v0, acts, |acts|) { ReadsStayApart(v0, acts, i, read); }
      trace := trace + [read];
    }
  }

  lemma Sizes(m: Memory)
    requires m.Valid()
    ensures SameSize(m.Views())
  {
  }
}
