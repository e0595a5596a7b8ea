/** Which entries make every split safe. */
module SplitBounds {
  import opened Bytes
  import opened Errors
  import opened Format
  import opened Entries
  import opened SplitPlans
  import opened PageSplit
  import opened Tree
  import opened Contents
  import opened Arena
  import opened Steps
  import opened Writers

  /** A record that passes the size check of `put`. */
  predicate Accepted(e: Entry, psize: nat) {
    e.Leaf? && !TooLarge(e.key, e.val, psize)
  }

  /** A leaf of accepted records, in order, about to take one it has no room for. */
  predicate LeafOverflows(es: seq<Entry>, skip: nat, e: Entry, psize: nat) {
    && skip <= |es| && SortedKeys(InsertAt(es, skip, e))
    && Accepted(e, psize) && (forall i | 0 <= i < |es| :: Accepted(es[i], psize))
    && 0 <= FreeSpace(es, psize) < EntrySize(e) + 2
  }

  /** No record costs more than `m`, its slot included. */
  predicate CostAtMost(es: seq<Entry>, e: Entry, m: nat) {
    EntrySize(e) + 2 <= m && forall i | 0 <= i < |es| :: EntrySize(es[i]) + 2 <= m
  }

  /** Every full leaf of accepted records costing at most `m` is cut into two sides
      that are non-empty and fit. */
  ghost predicate SafeUpTo(psize: nat, m: nat)
    requires PAGE_HEADER_SIZE <= psize
  {
    forall es: seq<Entry>, skip: nat, e: Entry, plan: SplitPlan
      | LeafOverflows(es, skip, e, psize) && CostAtMost(es, e, m)
        && PlanFor(Sizes(es), skip, EntrySize(e), psize - PAGE_HEADER_SIZE, plan) ::
        Usable(InsertAt(es, skip, e), skip, plan, psize)
  }

  /** The largest cost of a record, at most `m`: two more than a multiple of four. */
  function LargestCost(m: nat): nat
    requires m >= 2
  {
    (m - 2) / 4 * 4 + 2
  }

  /** The record of cost `c` with a key of one byte. */
  function RecordOfCost(k: byte, c: nat): Entry
    requires c >= 12
  {
    Leaf([k], seq(c - 12, i => 0))
  }

  lemma CostOfRecord(k: byte, c: nat, psize: nat)
    requires 14 <= c <= psize - PAGE_HEADER_SIZE && c % 4 == 2 && MIN_PSIZE <= psize
    ensures EntrySize(RecordOfCost(k, c)) == c - 2 && Accepted(RecordOfCost(k, c), psize)
  {
    var e := RecordOfCost(k, c);
    LeafSize(e.key, e.val);
  }

  /** Two records of one cost, where the page has room for one. */
  lemma TwoOverflow(c: nat, skip: nat, psize: nat)
    requires 14 <= c <= psize - PAGE_HEADER_SIZE < 2 * c && c % 4 == 2 && MIN_PSIZE <= psize && skip <= 1
    ensures var es, e := [RecordOfCost(1, c)], RecordOfCost(if skip == 0 then 0 else 2, c);
      && LeafOverflows(es, skip, e, psize) && CostAtMost(es, e, c)
      && PlanFor(Sizes(es), skip, EntrySize(e), psize - PAGE_HEADER_SIZE, SplitPlan(0, true))
      && !Fits(InsertAt(es, skip, e), psize)
  {
    hide EntrySize, Used, PlanFor, TooLarge, RecordOfCost;
    var x, e := RecordOfCost(1, c), RecordOfCost(if skip == 0 then 0 else 2, c);
    CostOfRecord(1, c, psize);
    CostOfRecord(if skip == 0 then 0 else 2, c, psize);
    UsedOne(x);
    UsedInsert([x], skip, e);
    OneEntryPlan(c - 2, c - 2, skip, psize - PAGE_HEADER_SIZE);
    assert Sizes([x]) == [c - 2];
    KeysSorted(c, skip);
  }

  lemma KeysSorted(c: nat, skip: nat)
    requires c >= 12 && skip <= 1
    ensures SortedKeys(InsertAt([RecordOfCost(1, c)], skip, RecordOfCost(if skip == 0 then 0 else 2, c)))
  {
    assert Lt([0], [1]) && Lt([1], [2]);
  }

  /** Splits are safe for records up to cost `m` exactly when the largest record
      cost up to `m` is at most half the usable page: the check made by `put`, that
      one record fits one page, is not enough. */
  lemma HalfPageIsExact(psize: nat, m: nat)
    requires MIN_PSIZE <= psize && 14 <= m <= psize - PAGE_HEADER_SIZE
    ensures SafeUpTo(psize, m) <==> LargestCost(m) <= HalfPage(psize)
  {
    hide EntrySize, Used, PlanFor, TooLarge, Usable, CostAtMost, SortedKeys;
    if LargestCost(m) <= HalfPage(psize) {
      forall es: seq<Entry>, skip: nat, e: Entry, plan: SplitPlan
        | LeafOverflows(es, skip, e, psize) && CostAtMost(es, e, m)
          && PlanFor(Sizes(es), skip, EntrySize(e), psize - PAGE_HEADER_SIZE, plan)
        ensures Usable(InsertAt(es, skip, e), skip, plan, psize)
      {
        SafeBelowHalf(es, skip, e, psize, plan, m);
      }
    } else {
      var c := LargestCost(m);
      TwoOverflow(c, 0, psize);
      CostIsMonotone([RecordOfCost(1, c)], RecordOfCost(0, c), c, m);
      assert !Usable(InsertAt([RecordOfCost(1, c)], 0, RecordOfCost(0, c)), 0, SplitPlan(0, true), psize) by {
        NothingOnTheLeft(InsertAt([RecordOfCost(1, c)], 0, RecordOfCost(0, c)), 0, psize);
      }
    }
  }

  lemma CostIsMonotone(es: seq<Entry>, e: Entry, c: nat, m: nat)
    requires CostAtMost(es, e, c) && c <= m
    ensures CostAtMost(es, e, m)
  {
    hide EntrySize;
  }

  lemma NothingOnTheLeft(all: seq<Entry>, skip: nat, psize: nat)
    ensures !Usable(all, skip, SplitPlan(0, true), psize)
  {
    hide Fits;
  }

  lemma SafeBelowHalf(es: seq<Entry>, skip: nat, e: Entry, psize: nat, plan: SplitPlan, m: nat)
    requires MIN_PSIZE <= psize && 2 <= m && LargestCost(m) <= HalfPage(psize)
    requires LeafOverflows(es, skip, e, psize) && CostAtMost(es, e, m)
    requires PlanFor(Sizes(es), skip, EntrySize(e), psize - PAGE_HEADER_SIZE, plan)
    ensures Usable(InsertAt(es, skip, e), skip, plan, psize)
  {
    hide EntrySize, Used, PlanFor, TooLarge, Usable;
    forall x | x == e || x in es ensures HalfBounded(x, psize) {
      EntrySizeBound(x);
    }
    PlanUsable(es, skip, e, psize, plan);
  }

  /** Two records of 3000 bytes pass the size check on a page of 4096. */
  const LARGE_A := Leaf([1], seq(2990, i => 0))
  const LARGE_B := Leaf([2], seq(2990, i => 0))

  /** When the second meets the first, the plan puts both on the right page, which
      they overflow. */
  lemma TwoLargeEntries()
    ensures EntrySize(LARGE_A) == EntrySize(LARGE_B) == 3000
    ensures Accepted(LARGE_A, DEFAULT_PSIZE) && Accepted(LARGE_B, DEFAULT_PSIZE)
    ensures LeafOverflows([LARGE_A], 1, LARGE_B, DEFAULT_PSIZE)
    ensures PlanFor(Sizes([LARGE_A]), 1, EntrySize(LARGE_B), DEFAULT_PSIZE - PAGE_HEADER_SIZE, SplitPlan(0, true))
    ensures InsertAt([LARGE_A], 1, LARGE_B)[0..] == [LARGE_A, LARGE_B]
    ensures !Fits([LARGE_A, LARGE_B], DEFAULT_PSIZE)
  {
    hide EntrySize, Used, PlanFor, TooLarge, LeafOverflows;
    CostOfRecord(1, 3002, DEFAULT_PSIZE);
    CostOfRecord(2, 3002, DEFAULT_PSIZE);
    TwoOverflow(3002, 1, DEFAULT_PSIZE);
    assert InsertAt([LARGE_A], 1, LARGE_B) == [LARGE_A, LARGE_B];
  }

  /** The first of them is put, and the tree is then one put away from that split. */
  method LargeEntryIsPut() returns (w: Writer, r: Result<bool>)
    ensures fresh(w) && w.Valid() && w.psize == DEFAULT_PSIZE && r == Success(true)
    ensures RootOnly(w.P, [LARGE_A]) && LeafOverflows(w.P[1].entries, 1, LARGE_B, w.psize)
    ensures !w.CanPut(LARGE_B.key, LARGE_B.val)
  {
    hide EntrySize, Used, TooLarge, LeafOverflows, Inserted, Inv, HalfBounded, Stores, Denotes, PagesHalfBounded;
    w := new Writer.CreateNew();
    ghost var P0, R0 := w.P, w.R;
    RegionCount(P0, R0);
    TwoLargeEntries();
    assert Used([], NO_HOLE) == 0 by { EmptyIsFree(); }
    r := w.Put(LARGE_A.key, LARGE_A.val);
    InsertedInRootOnly(P0, R0, w.P, [], LARGE_A, w.psize);
    assert [] + [LARGE_A] == [LARGE_A];
    LargeIsBarred(w);
  }

  lemma EmptyIsFree()
    ensures Used([], NO_HOLE) == 0
  {
  }

  lemma LargeIsBarred(w: Writer)
    requires w.Valid() && w.psize == DEFAULT_PSIZE && RootOnly(w.P, [LARGE_A]) && LARGE_B.key !in w.m
    ensures !w.CanPut(LARGE_B.key, LARGE_B.val)
  {
    hide EntrySize, Used, TooLarge, Inv, Stores, Denotes;
    TwoLargeEntries();
    RootOwnsAll(w.P, w.R, LARGE_B.key);
    NotRoomy(w.P, w.R, LARGE_B, w.psize, 1);
  }
}
