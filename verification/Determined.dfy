/** The pages after an insertion are a function of the pages before. */
module Determined {
  import opened Bytes
  import opened Format
  import opened Entries
  import opened SplitPlans
  import opened PageSplit
  import opened Tree
  import opened TreeSplit
  import opened TreeUpdate
  import opened Separators
  import opened Spines
  import opened Steps

  /** The walk stops at one place. */
  lemma PlanUnique(sizes: seq<nat>, skip: nat, ilen: nat, full: nat, plan: SplitPlan, other: SplitPlan)
    requires PlanFor(sizes, skip, ilen, full, plan) && PlanFor(sizes, skip, ilen, full, other)
    ensures plan == other
  {
    hide Stops;
  }

  lemma CutUnique(pg: Page, skip: nat, e: Entry, psize: nat, cut: nat, other: nat)
    requires PlannedCut(pg, skip, e, psize, cut) && PlannedCut(pg, skip, e, psize, other)
    ensures cut == other
  {
    hide PlanFor, EntrySize;
    PlanUnique(Sizes(pg.entries), skip, EntrySize(e), psize - PAGE_HEADER_SIZE, SplitPlan(cut, skip >= cut),
        SplitPlan(other, skip >= other));
  }

  lemma ChosenUnique(pg: Page, skip: nat, e: Entry, psize: nat, cut: nat, other: nat)
    requires ChosenCut(pg, skip, e, psize, cut) && ChosenCut(pg, skip, e, psize, other)
    ensures cut == other
  {
    hide PlannedCut, EntrySize;
    if !(pg.next == P_INVALID && skip == |pg.entries|) {
      CutUnique(pg, skip, e, psize, cut, other);
    }
  }

  /** One path leads to a page. */
  lemma {:induction false} SpineUnique(P: seq<Page>, R: seq<Region>, path: seq<Hop>, other: seq<Hop>, p: u32)
    requires Inv(P, R) && SpineOk(P, R, path, p) && SpineOk(P, R, other, p)
    ensures path == other
    decreases |path|
  {
    hide Inv, SpineOk;
    SameLength(P, R, path, other, p);
    if path != [] {
      var h, g := path[|path| - 1], other[|other| - 1];
      SpinePop(P, R, path, p);
      SpinePop(P, R, other, p);
      ParentUnique(P, R, h.pgno, h.slot, g.pgno, g.slot, p);
      SpineUnique(P, R, path[..|path| - 1], other[..|other| - 1], h.pgno);
      assert path == path[..|path| - 1] + [h] && other == other[..|other| - 1] + [g];
    }
  }

  lemma SameLength(P: seq<Page>, R: seq<Region>, path: seq<Hop>, other: seq<Hop>, p: u32)
    requires SpineOk(P, R, path, p) && SpineOk(P, R, other, p)
    ensures |path| == |other| && p < |P|
  {
  }

  lemma OnePlace(es: seq<Entry>, i: nat, j: nat, k: Bytes)
    requires i < j && i < |es|
    ensures !(SortsAt(es, i, k) && SortsAt(es, j, k))
  {
    hide Lt;
    OrderLaws();
    var e := es[i];
  }

  lemma PlaceUnique(es: seq<Entry>, i: nat, j: nat, k: Bytes)
    requires SortsAt(es, i, k) && SortsAt(es, j, k)
    ensures i == j
  {
    hide Lt;
    if i < j {
      OnePlace(es, i, j, k);
    } else if j < i {
      OnePlace(es, j, i, k);
    }
  }

  /** Separators that store the same key wherever they go. */
  predicate SameSep(a: Separator, b: Separator) {
    || a == b
    || (a.InternalSep? && b.InternalSep? && a.child == b.child && a.ksize <= |a.sepKey| && b.ksize <= |b.sepKey|
        && a.sepKey[..a.ksize] == b.sepKey[..b.ksize])
  }

  lemma SameStored(a: Separator, b: Separator, prev: u32, skip: nat)
    requires SameSep(a, b)
    ensures a.Stored(prev, skip) == b.Stored(prev, skip) && a.child == b.child
  {
    if a != b {
      assert a.Stored(prev, skip) == a.sepKey[..a.ksize] == b.sepKey[..b.ksize] == b.Stored(prev, skip);
    }
  }

  lemma StepUnique(P0: seq<Page>, P1: seq<Page>, P2: seq<Page>, h: Hop, a: Separator, b: Separator,
                   newA: Option<Separator>, newB: Option<Separator>, cutA: nat, cutB: nat, psize: nat)
    requires TakesSep(P0, P1, h, a, newA, cutA, psize) && TakesSep(P0, P2, h, b, newB, cutB, psize) && SameSep(a, b)
    ensures P1 == P2 && newA.Some? == newB.Some?
    ensures newA.Some? ==> SameSep(newA.value, newB.value)
  {
    hide Separator.Stored, EntrySize, FreeSpace, PlannedCut, ChosenCut, CutPages, RootPages, SameSep;
    var p, skip := h.pgno, h.slot + 1;
    SameStored(a, b, P0[p].prev, skip);
    var e := SepEntry(P0, p, skip, a);
    if FreeSpace(P0[p].entries, psize) < EntrySize(e) + 2 {
      if p == P_ROOT {
        CutUnique(P0[p], skip, e, psize, cutA, cutB);
      } else {
        ChosenUnique(P0[p], skip, e, psize, cutA, cutB);
        BothSplit(P0, P1, P2, p, skip, e, cutA, newA.value, newB.value);
      }
    }
  }

  lemma BothSplit(P0: seq<Page>, P1: seq<Page>, P2: seq<Page>, p: nat, skip: nat, e: Entry, cut: nat,
                  a: Separator, b: Separator)
    requires InternalSplitDone(P0, P1, p, skip, e, cut, a) && InternalSplitDone(P0, P2, p, skip, e, cut, b)
    ensures P1 == P2 && SameSep(a, b)
  {
    hide CutPages;
  }

  lemma {:induction false} PropagationUnique(P0: seq<Page>, P1: seq<Page>, P2: seq<Page>, path: seq<Hop>,
                                             a: Separator, b: Separator, psize: nat)
    requires Propagated(P0, P1, path, a, psize) && Propagated(P0, P2, path, b, psize) && SameSep(a, b)
    ensures P1 == P2
    decreases |path|
  {
    hide TakesSep, SameSep;
    var h, rest := path[|path| - 1], path[..|path| - 1];
    var Q1: seq<Page>, newA: Option<Separator>, cutA: nat :|
      && TakesSep(P0, Q1, h, a, newA, cutA, psize)
      && match newA
         case None => P1 == Q1
         case Some(up) => Propagated(Q1, P1, rest, up, psize);
    var Q2: seq<Page>, newB: Option<Separator>, cutB: nat :|
      && TakesSep(P0, Q2, h, b, newB, cutB, psize)
      && match newB
         case None => P2 == Q2
         case Some(up) => Propagated(Q2, P2, rest, up, psize);
    StepUnique(P0, Q1, Q2, h, a, b, newA, newB, cutA, cutB, psize);
    if newA.Some? {
      PropagationUnique(Q1, P1, P2, rest, newA.value, newB.value, psize);
    }
  }

  /** An insertion leaves no choice: leaf, slot, cuts, separators and page numbers
      all follow from the pages before it. */
  lemma InsertedUnique(P0: seq<Page>, R0: seq<Region>, P1: seq<Page>, P2: seq<Page>, e: Entry, psize: nat)
    requires Inv(P0, R0) && Inserted(P0, R0, P1, e, psize) && Inserted(P0, R0, P2, e, psize)
    ensures P1 == P2
  {
    hide Inv, InsertedAt;
    var path: seq<Hop>, p: u32, idx: nat :| InsertedAt(P0, R0, P1, e, psize, path, p, idx);
    var route: seq<Hop>, q: u32, jdx: nat :| InsertedAt(P0, R0, P2, e, psize, route, q, jdx);
    SamePlace(P0, R0, P1, P2, e, psize, path, p, idx, route, q, jdx);
    SameOutcome(P0, R0, P1, P2, e, psize, path, p, idx);
  }

  lemma SamePlace(P0: seq<Page>, R0: seq<Region>, P1: seq<Page>, P2: seq<Page>, e: Entry, psize: nat,
                  path: seq<Hop>, p: u32, idx: nat, route: seq<Hop>, q: u32, jdx: nat)
    requires Inv(P0, R0)
    requires InsertedAt(P0, R0, P1, e, psize, path, p, idx) && InsertedAt(P0, R0, P2, e, psize, route, q, jdx)
    ensures path == route && p == q && idx == jdx
  {
    hide Inv, EntrySize, FreeSpace, SortsAt, Within, SpineOk, LeafSplitDone, RootSplitDone, PlannedCut, ChosenCut,
         Propagated;
    LeavesAtBottom(P0, R0, p);
    LeavesAtBottom(P0, R0, q);
    RegionUnique(P0, R0, p, q, e.key);
    PlaceUnique(P0[p].entries, idx, jdx, e.key);
    SpineUnique(P0, R0, path, route, p);
  }

  lemma LeavesAtBottom(P: seq<Page>, R: seq<Region>, p: nat)
    requires Inv(P, R) && 1 <= p < |P| && P[p].leaf
    ensures p < |R| && R[p].level == 0
  {
    hide Lt;
    assert NodeOk(P, R, p);
  }

  lemma SameOutcome(P0: seq<Page>, R0: seq<Region>, P1: seq<Page>, P2: seq<Page>, e: Entry, psize: nat,
                    path: seq<Hop>, p: u32, idx: nat)
    requires InsertedAt(P0, R0, P1, e, psize, path, p, idx) && InsertedAt(P0, R0, P2, e, psize, path, p, idx)
    ensures P1 == P2
  {
    hide EntrySize, FreeSpace, SortsAt, Within, SpineOk, PlannedCut, ChosenCut, Propagated, CutPages, RootPages,
         InsertAt, LeafSplitDone, RootSplitDone;
    if FreeSpace(P0[p].entries, psize) >= EntrySize(e) + 2 {
    } else if p == P_ROOT {
      var cut :| RootSplitDone(P0, P1, idx, e, cut) && PlannedCut(P0[1], idx, e, psize, cut);
      var other :| RootSplitDone(P0, P2, idx, e, other) && PlannedCut(P0[1], idx, e, psize, other);
      CutUnique(P0[1], idx, e, psize, cut, other);
      SameRoot(P0, P1, P2, idx, e, cut);
    } else {
      var Q1, cut, sep :|
        && LeafSplitDone(P0, Q1, p, idx, e, cut, sep)
        && ChosenCut(P0[p], idx, e, psize, cut)
        && Propagated(Q1, P1, path, sep, psize);
      var Q2, other, pes :|
        && LeafSplitDone(P0, Q2, p, idx, e, other, pes)
        && ChosenCut(P0[p], idx, e, psize, other)
        && Propagated(Q2, P2, path, pes, psize);
      ChosenUnique(P0[p], idx, e, psize, cut, other);
      SameLeafSplit(P0, Q1, Q2, p, idx, e, cut, sep, pes);
      PropagationUnique(Q1, P1, P2, path, sep, pes, psize);
    }
  }

  lemma SameRoot(P0: seq<Page>, P1: seq<Page>, P2: seq<Page>, skip: nat, e: Entry, cut: nat)
    requires RootSplitDone(P0, P1, skip, e, cut) && RootSplitDone(P0, P2, skip, e, cut)
    ensures P1 == P2
  {
    hide RootPages;
  }

  lemma SameLeafSplit(P0: seq<Page>, P1: seq<Page>, P2: seq<Page>, p: nat, skip: nat, e: Entry, cut: nat,
                      a: Separator, b: Separator)
    requires LeafSplitDone(P0, P1, p, skip, e, cut, a) && LeafSplitDone(P0, P2, p, skip, e, cut, b)
    ensures P1 == P2 && a == b
  {
    hide CutPages;
  }
}
