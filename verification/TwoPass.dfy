/**
 * The whole sequential codec in its optimizing mode: gather statistics, make the tables, code
 * the scan with them, and decode it again.
 */
module TwoPass {
  import opened Destination
  import opened EntropySpec
  import opened HuffDecoder
  import opened HuffmanCodes
  import opened OptimizedCoding
  import opened RoundTrip
  import opened ScanRoundTrip
  import opened SequentialCoding
  import opened Statistics
  import DerivedTables
  import OptimalTable
  import Bits

  /** DC differences of at most fifteen bits, as many as the decoder can extend. */
  predicate SmallDiffs(items: seq<Item>) {
    forall i :: 0 <= i < |items| && items[i].Sym? && items[i].kind == DC ==> items[i].sym <= 15
  }

  lemma OptimalDcTable(h: HuffTable, tbl: nat, items: seq<Item>)
    requires TableOf(h, DC, tbl, items) && SmallDiffs(items)
    ensures DcTable(h)
  {
    var c :| CountsOf(c, DC, tbl, items) && OptimalTable.TableFor(c, h);
    var list := h.huffval[..Count(h.bits, 16)];
    forall p | 0 <= p < Count(h.bits, 16)
      ensures h.huffval[p] <= 15
    {
      assert list[p] in list;
      assert Sym(DC, tbl, h.huffval[p]) in items;
    }
  }

  lemma OptimalTablesValid(sc: Scan, hs: HuffTables, hdc: seq<HuffTable>, hac: seq<HuffTable>, items: seq<Item>)
    requires sc.Valid() && hs.Valid() && TablesFor(sc, hdc, hac, items) && SmallDiffs(items)
    requires Untouched(sc, hs.dc, hdc, DC) && Untouched(sc, hs.ac, hac, AC)
    ensures HuffTables(hdc, hac).Valid()
  {
    forall i: nat {:trigger TblNo(i)} | TblNo(i)
      ensures DcTable(hdc[i]) && hac[i].Valid()
    {
      if TableUsed(sc, DC, i) { OptimalDcTable(hdc[i], i, items); }
      if TableUsed(sc, AC, i) {
        var c :| CountsOf(c, AC, i, items) && OptimalTable.TableFor(c, hac[i]);
      }
    }
  }

  lemma MatchesDerived(hs: HuffTables, t: CTables)
    requires Matches(hs, t)
    ensures DerivedFrom(hs.dc, hs.ac, t)
  {
  }

  /** Unless a code would be longer than 32 bits, every scan can be coded with tables of its own, made from
      best codes for its symbols, and comes back unchanged. */
  method OptimizeCodeDecode(sc: Scan, hs: HuffTables, mcus: seq<Mcu>, dest: Dest, tail: seq<Bits.Byte>)
      returns (made: bool, hdc: seq<HuffTable>, hac: seq<HuffTable>, t: CTables, src: seq<Bits.Byte>,
        res: HuffDecoder.Result, out: seq<Mcu>)
    requires sc.Valid() && hs.Valid() && CodableMcus(sc, mcus) && mcus != [] && AllInMcu(sc) && EndsInMarker(tail)
    requires FewSymbols(RunItems(sc, mcus, |mcus|)) && SmallDiffs(RunItems(sc, mcus, |mcus|))
    requires dest.free > 0 && dest.Stream() == [] && NeverRefuses(dest.policy)
    ensures made ==> TablesFor(sc, hdc, hac, RunItems(sc, mcus, |mcus|))
    ensures made ==>
              HuffTables(hdc, hac).Valid() && Matches(HuffTables(hdc, hac), t) &&
              src == ScanBytes(sc, t, mcus) + tail
    ensures made ==> res == Complete && out == mcus
    ensures !made ==> Overlong(RunItems(sc, mcus, |mcus|))
  {
    hide TableOf, Overlong, DerivedTables.CDerived, ScanBytes, SmallDiffs, CodableMcus;
    res, out, src := NeedData, [], [];
    t := CTables([], []);
    assert forall i :: 0 <= i < NUM_TBLS ==> hs.dc[i].WellFormed() && hs.ac[i].WellFormed() by {
      forall i | 0 <= i < NUM_TBLS
        ensures hs.dc[i].WellFormed() && hs.ac[i].WellFormed()
      {
        assert TblNo(i);
      }
    }
    made, hdc, hac := OptimizeTables(sc, mcus, hs.dc, hs.ac);
    if !made { return; }
    OptimalTablesValid(sc, hs, hdc, hac, RunItems(sc, mcus, |mcus|));
    var coded;
    var want := seq(|sc.dcTbl|, _ => Wanted(true, true));
    coded, t, src, res, out := CodeAndDecode(sc, HuffTables(hdc, hac), want, mcus, dest, tail);
    MatchesDerived(HuffTables(hdc, hac), t);
  }
}
