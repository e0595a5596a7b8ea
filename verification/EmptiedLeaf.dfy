/** A run after which iteration finds nothing although two records are bound. */
module EmptiedLeaf {
  import opened Bytes
  import opened Errors
  import opened Format
  import opened Entries
  import opened SplitPlans
  import opened PageSplit
  import opened Tree
  import opened TreeUpdate
  import opened Contents
  import opened Chain
  import opened Arena
  import opened MetaPage
  import opened Files
  import opened Spines
  import opened Reader
  import opened Iteration
  import opened Steps
  import opened Writers
  import opened Replays

  /** A value that makes a record with a key of one byte cost exactly half a page. */
  function HalfPageValue(): Bytes {
    seq(2026, i => 0)
  }

  /** The record of key `[k]`. */
  function Half(k: byte): Entry {
    Leaf([k], HalfPageValue())
  }

  lemma HalfSize(k: byte)
    ensures EntrySize(Half(k)) == 2036 && HalfBounded(Half(k), DEFAULT_PSIZE)
  {
    LeafSize([k], HalfPageValue());
  }

  /** The walk over three records of half a page stops after the first. */
  lemma CutAfterFirst(cut: nat)
    requires PlanFor([2036, 2036], 2, 2036, 4076, SplitPlan(cut, 2 >= cut))
    ensures cut == 1
  {
    hide Cost;
    assert InsertAt([2036, 2036], 2, 2036)[..1] == [2036];
    CostOne(2036);
    assert Stops([2036, 2036], 2, 2036, 4076, 1);
    assert !Stops([2036, 2036], 2, 2036, 4076, 0);
  }

  /** A key not below the last one sorts at the end. */
  lemma SortsLast(es: seq<Entry>, idx: nat, k: Bytes)
    requires SortsAt(es, idx, k) && es != [] && !Lt(k, es[|es| - 1].key)
    ensures idx == |es|
  {
    hide Lt;
  }

  /** Two records of half a page leave no room: the third splits the root after the
      first record. */
  lemma ThirdSplits(P0: seq<Page>, R0: seq<Region>, P1: seq<Page>)
    requires RootOnly(P0, [Half(1), Half(2)]) && Inserted(P0, R0, P1, Half(3), DEFAULT_PSIZE)
    ensures |P1| == 4 && !P1[1].leaf && P1[1].entries == [Sep([], 2), Sep([2], 3)]
    ensures P1[2].leaf && P1[2].entries == [Half(1)] && P1[3].leaf && P1[3].entries == [Half(2), Half(3)]
  {
    hide Lt, EntrySize, FreeSpace, SpineOk, Within, HalfPageValue, Half, SortsAt, RootSplitDone, PlannedCut;
    var es, e := [Half(1), Half(2)], Half(3);
    ThreeKeys();
    TwoHalvesFill();
    var path: seq<Hop>, p: u32, idx: nat :| InsertedAt(P0, R0, P1, e, DEFAULT_PSIZE, path, p, idx);
    SortsLast(es, idx, e.key);
    var cut :| RootSplitDone(P0, P1, idx, e, cut) && PlannedCut(P0[1], idx, e, DEFAULT_PSIZE, cut);
    RootCutInTwo(P0, P1, cut);
  }

  lemma RootCutInTwo(P0: seq<Page>, P1: seq<Page>, cut: nat)
    requires RootOnly(P0, [Half(1), Half(2)]) && RootSplitDone(P0, P1, 2, Half(3), cut)
    requires PlannedCut(P0[1], 2, Half(3), DEFAULT_PSIZE, cut)
    ensures |P1| == 4 && !P1[1].leaf && P1[1].entries == [Sep([], 2), Sep([2], 3)]
    ensures P1[2].leaf && P1[2].entries == [Half(1)] && P1[3].leaf && P1[3].entries == [Half(2), Half(3)]
  {
    hide Lt, EntrySize, PlanFor, HalfPageValue, Half;
    ThreeKeys();
    TwoHalvesFill();
    assert Sizes([Half(1), Half(2)]) == [2036, 2036];
    CutAfterFirst(cut);
    var all := InsertAt([Half(1), Half(2)], 2, Half(3));
    assert all == [Half(1), Half(2), Half(3)] && all[..1] == [Half(1)] && all[1..] == [Half(2), Half(3)];
  }

  lemma ThreeKeys()
    ensures Half(1).key == [1] && Half(2).key == [2] && Half(3).key == [3]
    ensures Lt([1], [2]) && Lt([1], [3]) && Lt([2], [3]) && !Lt([3], [2])
  {
  }

  /** Records of half a page: none, one, two on a page. */
  lemma TwoHalvesFill()
    ensures EntrySize(Half(1)) == EntrySize(Half(2)) == EntrySize(Half(3)) == 2036
    ensures FreeSpace([], DEFAULT_PSIZE) == 4076 && FreeSpace([Half(1)], DEFAULT_PSIZE) == 2038
    ensures FreeSpace([Half(1), Half(2)], DEFAULT_PSIZE) == 0
  {
    hide EntrySize, Half;
    HalfSize(1);
    HalfSize(2);
    HalfSize(3);
    UsedOne(Half(1));
    UsedOne(Half(2));
    UsedConcat([Half(1)], [Half(2)]);
    assert [Half(1)] + [Half(2)] == [Half(1), Half(2)];
  }

  /** Deleting the first record then empties the first leaf, and iteration of what
      is left, two records, yields nothing. */
  lemma FirstLeafEmptied(P0: seq<Page>, P1: seq<Page>, R: seq<Region>)
    requires |P0| == 4 && !P0[1].leaf && P0[1].entries == [Sep([], 2), Sep([2], 3)]
    requires P0[2].leaf && P0[2].entries == [Half(1)] && P0[3].leaf && P0[3].entries == [Half(2), Half(3)]
    requires Removed(P0, P1, [1]) && Inv(P1, R)
    ensures Yield(P1, R) == []
  {
    hide Lt, Inv, Scan, HalfPageValue;
    assert P1[2].entries == [];
    RegionCount(P1, R);
    SpineStep(P1, R, 1);
    SpineStep(P1, R, 2);
    LeftSpineStart(P1, R, 1, 0);
  }

  lemma Acceptable(k: byte)
    ensures HalfBounded(Half(k), DEFAULT_PSIZE) && !TooLarge([k], HalfPageValue(), DEFAULT_PSIZE)
  {
    HalfSize(k);
    HalfBoundedIsAccepted([k], HalfPageValue(), DEFAULT_PSIZE);
  }

  /** Put three records of half a page and delete the first: iteration of the tree
      yields nothing, though two records are bound. */
  method EmptyFirstLeaf() returns (w: Writer)
    ensures fresh(w) && w.Valid() && w.m == map[[2] := HalfPageValue(), [3] := HalfPageValue()]
    ensures w.psize == DEFAULT_PSIZE && w.flags == B_NODUPS
    ensures Inv(w.P, w.R) && Yield(w.P, w.R) == []
  {
    hide Inv, Denotes, Stores, TooLarge, HalfBounded, PagesHalfBounded, Inserted, Removed, EntrySize, FreeSpace,
         HalfPageValue, Yield, Lt;
    var v := HalfPageValue();
    ThreeKeys();
    TwoHalvesFill();
    Acceptable(1);
    Acceptable(2);
    Acceptable(3);
    w := new Writer.CreateNew();
    ghost var P0, R0 := w.P, w.R;
    var r := w.Put([1], v);
    ghost var P1, R1 := w.P, w.R;
    InsertedInRootOnly(P0, R0, P1, [], Half(1), DEFAULT_PSIZE);
    r := w.Put([2], v);
    ghost var P2, R2 := w.P, w.R;
    assert [Half(1)] + [Half(2)] == [Half(1), Half(2)];
    InsertedInRootOnly(P1, R1, P2, [Half(1)], Half(2), DEFAULT_PSIZE);
    r := w.Put([3], v);
    ghost var P3 := w.P;
    ThirdSplits(P2, R2, P3);
    r := w.Del([1]);
    FirstLeafEmptied(P3, w.P, w.R);
  }

  /** The file of that run opens, and lookup finds a record in it, but iteration
      yields none. */
  method EmptiedByRun() returns (w: Writer, file: Bytes, all: seq<(Bytes, Bytes)>, found: Result<Option<Bytes>>)
    ensures fresh(w) && w.Valid() && w.m == map[[2] := HalfPageValue(), [3] := HalfPageValue()]
    ensures Inv(w.P, w.R) && Yield(w.P, w.R) == []
    ensures |w.P| <= PAGE_LIMIT && Open(file).Success? && TreeFile(Open(file).value, w.P, w.R, Plain(|w.P|))
    ensures all == [] && found == Success(Some(HalfPageValue()))
  {
    hide Inv, Denotes, Stores, MetaWords, Open, TreeFile, HalfPageValue, Yield, Descent;
    w := EmptyFirstLeaf();
    file := w.Finish();
    MetaAtHead(file, w.psize, false, w.psize, w.free, w.nrecs, w.flags);
    RegionCount(w.P, w.R);
    FinishedFileOpens(file, w.psize, false, w.P, w.R, w.free, w.nrecs);
    var db := Open(file).value;
    all := Dump(db, w.P, w.R, Plain(|w.P|));
    ghost var path, leaf;
    found, path, leaf := Get(db, [2], w.P, w.R, Plain(|w.P|), w.m);
  }
}
