/** Cutting the entries of a full page over two fresh pages. */
module PageSplit {
  import opened Bytes
  import opened Errors
  import opened Format
  import opened Entries
  import opened PageViews
  import opened Layout
  import opened PageBufs
  import opened PageFill
  import opened SplitPlans

  /** Encoded sizes of the entries of a page. */
  function Sizes(es: seq<Entry>): seq<nat> {
    seq(|es|, i requires 0 <= i < |es| => EntrySize(es[i]))
  }

  lemma {:induction false} CostOfSizes(es: seq<Entry>)
    ensures Cost(Sizes(es)) == Used(es, NO_HOLE) + 2 * |es|
  {
    hide EntrySize;
    if es != [] {
      CostOfSizes(es[..|es| - 1]);
      assert Sizes(es)[..|es| - 1] == Sizes(es[..|es| - 1]);
    }
  }

  lemma SizesInsert(es: seq<Entry>, i: nat, e: Entry)
    requires i <= |es|
    ensures Sizes(InsertAt(es, i, e)) == InsertAt(Sizes(es), i, EntrySize(e))
  {
    hide EntrySize;
  }

  lemma SizesCut(es: seq<Entry>, j: nat)
    requires j <= |es|
    ensures Sizes(es[..j]) == Sizes(es)[..j] && Sizes(es[j..]) == Sizes(es)[j..]
  {
    hide EntrySize;
  }

  /** `compute_psplit_split_*`: weigh each source entry as decoded, then walk. */
  method ComputePsplit(view: PageView, leaf: bool, skip: nat, ilen: nat, psize: nat, ghost src: Bytes, ghost pg: Page)
    returns (plan: SplitPlan)
    requires Packed(src, false, pg) && view == ViewOf(view.pgno, src, false, pg) && leaf == pg.leaf
    requires skip <= |pg.entries| && PAGE_HEADER_SIZE <= psize
    ensures PlanFor(Sizes(pg.entries), skip, ilen, psize - PAGE_HEADER_SIZE, plan)
  {
    hide Packed, EntrySize, EntryNBytes, PlanFor;
    forall i | 0 <= i < view.nentries
      ensures EntryNBytes(view, leaf, i) == Success(EntrySize(pg.entries[i]))
    {
      NBytesDecodes(view.pgno, src, pg, i);
    }
    var sizes := seq(view.nentries, i requires 0 <= i < view.nentries
        && EntryNBytes(view, leaf, i).Success? => EntryNBytes(view, leaf, i).value);
    assert sizes == Sizes(pg.entries);
    plan := PsplitLoop(skip, ilen, psize, sizes);
  }

  /** The plan is usable: both sides non-empty, both fit. */
  ghost predicate Usable(all: seq<Entry>, skip: nat, plan: SplitPlan, psize: nat) {
    && plan.Sane(skip) && skip < |all|
    && 1 <= plan.leftSlots < |all|
    && Fits(all[..plan.leftSlots], psize) && Fits(all[plan.leftSlots..], psize)
  }

  /** Half-bounded entries that overflow a page always give a usable plan. */
  lemma PlanUsable(es: seq<Entry>, skip: nat, e: Entry, psize: nat, plan: SplitPlan)
    requires MIN_PSIZE <= psize && skip <= |es|
    requires PlanFor(Sizes(es), skip, EntrySize(e), psize - PAGE_HEADER_SIZE, plan)
    requires AllHalfBounded(es, psize) && HalfBounded(e, psize)
    requires 0 <= FreeSpace(es, psize) < EntrySize(e) + 2
    ensures Usable(InsertAt(es, skip, e), skip, plan, psize)
  {
    hide EntrySize, PlanFor, Cost, Used;
    var full, all := psize - PAGE_HEADER_SIZE, InsertAt(es, skip, e);
    CostOfSizes(es);
    SizesInsert(es, skip, e);
    forall i | 0 <= i < |es| ensures Sizes(es)[i] + 2 <= full / 2 {
      assert HalfBounded(es[i], psize);
    }
    SplitSafe(Sizes(es), skip, EntrySize(e), full, plan);
    SizesCut(all, plan.leftSlots);
    CostOfSizes(all[..plan.leftSlots]);
    CostOfSizes(all[plan.leftSlots..]);
  }

  /** The slots the plan reserves are where the new entry belongs: left page then
      right page read as the old entries with the new one inserted at `skip`. */
  lemma PlanTargets(pg: Page, skip: nat, e: Entry, plan: SplitPlan)
    requires plan.Sane(skip) && skip <= |pg.entries| && 1 <= plan.leftSlots <= |pg.entries|
    ensures var all := InsertAt(pg.entries, skip, e); var L := plan.leftSlots;
      && plan.HInL() >= 0
      && Target(pg, 0, plan.HInL(), plan.LSkip(skip), all[..L])
      && Target(pg, plan.HInL(), |pg.entries|, plan.RSkip(skip), all[L..])
      && all[..L] + all[L..] == all
  {
    var all, L, h := InsertAt(pg.entries, skip, e), plan.leftSlots, plan.HInL();
    if plan.rightTarget {
      assert all[..L] == pg.entries[0..h];
      assert all[L..] == InsertAt(pg.entries[h..|pg.entries|], skip - L, e);
    } else {
      assert all[..L] == InsertAt(pg.entries[0..h], skip, e);
      assert all[L..] == pg.entries[h..|pg.entries|];
    }
  }

  /** Copy both halves, leaving the new entry's slot on whichever side owns it. */
  method CopyHalves(view: PageView, plan: SplitPlan, skip: nat, l: array<byte>, r: array<byte>,
                    ghost src: Bytes, ghost pg: Page, ghost e: Entry, ghost lhead: Page, ghost rhead: Page)
    requires l != r && l.Length == r.Length
    requires Packed(src, false, pg) && view == ViewOf(view.pgno, src, false, pg) && skip <= |pg.entries|
    requires Usable(InsertAt(pg.entries, skip, e), skip, plan, l.Length)
    requires lhead.entries == [] && rhead.entries == []
    requires Packed(l[..], false, lhead) && Packed(r[..], false, rhead)
    modifies l, r
    ensures var all := InsertAt(pg.entries, skip, e);
      && Staged(l[..], lhead, all[..plan.leftSlots], HoleOf(plan.LSkip(skip)))
      && Staged(r[..], rhead, all[plan.leftSlots..], HoleOf(plan.RSkip(skip)))
      && Lower(l[..]) == PAGE_HEADER_SIZE + 2 * plan.leftSlots
      && Lower(r[..]) == PAGE_HEADER_SIZE + 2 * (|all| - plan.leftSlots)
  {
    hide Packed, EntrySize, Staged, Target, U16At, Fits;
    ghost var all, L := InsertAt(pg.entries, skip, e), plan.leftSlots;
    PlanTargets(pg, skip, e, plan);
    EmptyStaged(l[..], lhead, HoleOf(plan.LSkip(skip)));
    EmptyStaged(r[..], rhead, HoleOf(plan.RSkip(skip)));
    CopyEntries(view, 0, plan.HInL(), plan.LSkip(skip), l, src, pg, lhead, all[..L]);
    CopyEntries(view, plan.HInL(), view.nentries, plan.RSkip(skip), r, src, pg, rhead, all[L..]);
  }

  lemma EmptyStaged(b: Bytes, head: Page, hole: int)
    requires Packed(b, false, head) && head.entries == []
    ensures Staged(b, head, [], hole)
  {
    hide EntrySize, U16At, U32At;
  }

  lemma StagedPacked(b: Bytes, head: Page, es: seq<Entry>)
    requires Staged(b, head, es, NO_HOLE) && U16At(b, 16, false) == PAGE_HEADER_SIZE + 2 * |es|
    requires forall i | 0 <= i < |es| :: es[i].Leaf? == head.leaf
    ensures Packed(b, false, head.(entries := es))
  {
    hide Body, U16At, U32At;
  }

  /** Writing the new entry into its slot completes the page. */
  lemma StagedFilled(b0: Bytes, b: Bytes, head: Page, es: seq<Entry>, hole: nat)
    requires hole < |es| && Fits(es, |b0|) && Staged(b0, head, es, hole)
    requires Placed(b0, b, hole, U16At(b0, 18, false), es[hole])
    ensures Staged(b, head, es, NO_HOLE)
    ensures U16At(b, 16, false) == U16At(b0, 16, false)
  {
    hide EntryAt, EntrySize, Used, Header, Pair, SlotOff;
    UsedHole(es, hole);
    StageHole(b0, b, head, es, hole);
    PlacedOthers(b0, b, hole, U16At(b0, 18, false), es[hole], |es|);
    PlacedKeepsLower(b0, b, hole, U16At(b0, 18, false), es[hole]);
  }

  lemma PlacedKeepsLower(b0: Bytes, b: Bytes, slot: nat, upper: int, e: Entry)
    requires PageSized(b0) && Placed(b0, b, slot, upper, e)
    ensures U16At(b, 16, false) == U16At(b0, 16, false)
  {
    hide EntryAt, EntrySize, SlotOff, Pair;
  }

  /** The room the reserved slot still needs is there. */
  lemma RoomAtHole(b: Bytes, head: Page, es: seq<Entry>, hole: nat)
    requires hole < |es| && Fits(es, |b|) && Staged(b, head, es, hole)
    ensures PageSized(b) && U16At(b, 18, false) <= |b|
    ensures PAGE_HEADER_SIZE + 2 * hole + 2 <= U16At(b, 18, false) - EntrySize(es[hole])
  {
    hide EntrySize, U16At, Header;
    UsedHole(es, hole);
    UsedNonNegative(es, hole);
  }

  lemma KindOfParts(pg: Page, skip: nat, e: Entry)
    requires Kind(pg) && skip <= |pg.entries| && e.Leaf? == pg.leaf
    ensures forall i | 0 <= i <= |pg.entries| :: InsertAt(pg.entries, skip, e)[i].Leaf? == pg.leaf
  {
  }

  /** Distribute a leaf's records and a new one over two fresh leaves. */
  method FillLeafHalves(view: PageView, plan: SplitPlan, skip: nat, key: Bytes, val: Bytes, l: array<byte>,
      r: array<byte>,
                        ghost src: Bytes, ghost pg: Page, ghost lhead: Page, ghost rhead: Page)
    requires l != r && l.Length == r.Length
    requires Packed(src, false, pg) && view == ViewOf(view.pgno, src, false, pg) && skip <= |pg.entries| && pg.leaf
    requires Usable(InsertAt(pg.entries, skip, Leaf(key, val)), skip, plan, l.Length)
    requires lhead.entries == [] && rhead.entries == [] && lhead.leaf && rhead.leaf
    requires Packed(l[..], false, lhead) && Packed(r[..], false, rhead)
    modifies l, r
    ensures var all := InsertAt(pg.entries, skip, Leaf(key, val));
      && Packed(l[..], false, lhead.(entries := all[..plan.leftSlots]))
      && Packed(r[..], false, rhead.(entries := all[plan.leftSlots..]))
  {
    hide Packed, EntrySize, Staged, U16At, Fits, Placed;
    ghost var e := Leaf(key, val);
    ghost var all, L := InsertAt(pg.entries, skip, e), plan.leftSlots;
    PackedIsKind(src, false, pg);
    KindOfParts(pg, skip, e);
    CopyHalves(view, plan, skip, l, r, src, pg, e, lhead, rhead);
    var slot := plan.TargetSlot(skip);
    if plan.rightTarget {
      ghost var b0 := r[..];
      RoomAtHole(b0, rhead, all[L..], slot);
      WriteEntryAtSlot(r, slot, key, val);
      StagedFilled(b0, r[..], rhead, all[L..], slot);
    } else {
      ghost var b0 := l[..];
      RoomAtHole(b0, lhead, all[..L], slot);
      WriteEntryAtSlot(l, slot, key, val);
      StagedFilled(b0, l[..], lhead, all[..L], slot);
    }
    StagedPacked(l[..], lhead, all[..L]);
    StagedPacked(r[..], rhead, all[L..]);
  }

  /** Distribute an internal page's separators and a new one over two fresh pages. */
  method FillInternalHalves(view: PageView, plan: SplitPlan, skip: nat, nksize: nat, sepKey: Bytes, child: u32,
                            l: array<byte>, r: array<byte>,
                            ghost src: Bytes, ghost pg: Page, ghost lhead: Page, ghost rhead: Page)
    requires l != r && l.Length == r.Length && nksize <= |sepKey|
    requires Packed(src, false, pg) && view == ViewOf(view.pgno, src, false, pg) && skip <= |pg.entries| && !pg.leaf
    requires Usable(InsertAt(pg.entries, skip, Sep(sepKey[..nksize], child)), skip, plan, l.Length)
    requires lhead.entries == [] && rhead.entries == [] && !lhead.leaf && !rhead.leaf
    requires Packed(l[..], false, lhead) && Packed(r[..], false, rhead)
    modifies l, r
    ensures var all := InsertAt(pg.entries, skip, Sep(sepKey[..nksize], child));
      && Packed(l[..], false, lhead.(entries := all[..plan.leftSlots]))
      && Packed(r[..], false, rhead.(entries := all[plan.leftSlots..]))
  {
    hide Packed, EntrySize, Staged, U16At, Fits, Placed;
    ghost var e := Sep(sepKey[..nksize], child);
    ghost var all, L := InsertAt(pg.entries, skip, e), plan.leftSlots;
    PackedIsKind(src, false, pg);
    KindOfParts(pg, skip, e);
    CopyHalves(view, plan, skip, l, r, src, pg, e, lhead, rhead);
    var slot := plan.TargetSlot(skip);
    if plan.rightTarget {
      ghost var b0 := r[..];
      RoomAtHole(b0, rhead, all[L..], slot);
      WriteInternalEntryAtSlot(r, slot, nksize, sepKey, child);
      StagedFilled(b0, r[..], rhead, all[L..], slot);
    } else {
      ghost var b0 := l[..];
      RoomAtHole(b0, lhead, all[..L], slot);
      WriteInternalEntryAtSlot(l, slot, nksize, sepKey, child);
      StagedFilled(b0, l[..], lhead, all[..L], slot);
    }
    StagedPacked(l[..], lhead, all[..L]);
    StagedPacked(r[..], rhead, all[L..]);
  }

  // ----- pages with a single entry, and the promoted root -----

  /** A fresh page holding one leaf record: the sorted-append shortcut. */
  method WriteOnlyLeafEntry(a: array<byte>, key: Bytes, val: Bytes, ghost head: Page)
    requires Packed(a[..], false, head) && head.entries == [] && head.leaf
    requires Fits([Leaf(key, val)], a.Length)
    modifies a
    ensures Packed(a[..], false, head.(entries := [Leaf(key, val)]))
  {
    hide Packed, EntrySize, Staged, U16At, Fits, Placed, Used;
    ghost var es := [Leaf(key, val)];
    EmptyStaged(a[..], head, 0);
    assert es[..0] == [] && es[..1] == es;
    StageReserved(a[..], head, es, 0);
    ghost var b0 := a[..];
    RoomAtHole(b0, head, es, 0);
    SetLower(a, PAGE_HEADER_SIZE + 2);
    StagedFrame(b0, a[..], head, es, 0);
    ghost var b1 := a[..];
    RoomAtHole(b1, head, es, 0);
    WriteEntryAtSlot(a, 0, key, val);
    StagedFilled(b1, a[..], head, es, 0);
    StagedPacked(a[..], head, es);
  }

  method WriteOnlyInternalEntry(a: array<byte>, nksize: nat, sepKey: Bytes, child: u32, ghost head: Page)
    requires Packed(a[..], false, head) && head.entries == [] && !head.leaf && nksize <= |sepKey|
    requires Fits([Sep(sepKey[..nksize], child)], a.Length)
    modifies a
    ensures Packed(a[..], false, head.(entries := [Sep(sepKey[..nksize], child)]))
  {
    hide Packed, EntrySize, Staged, U16At, Fits, Placed, Used;
    ghost var es := [Sep(sepKey[..nksize], child)];
    EmptyStaged(a[..], head, 0);
    assert es[..0] == [] && es[..1] == es;
    StageReserved(a[..], head, es, 0);
    ghost var b0 := a[..];
    RoomAtHole(b0, head, es, 0);
    SetLower(a, PAGE_HEADER_SIZE + 2);
    StagedFrame(b0, a[..], head, es, 0);
    ghost var b1 := a[..];
    RoomAtHole(b1, head, es, 0);
    WriteInternalEntryAtSlot(a, 0, nksize, sepKey, child);
    StagedFilled(b1, a[..], head, es, 0);
    StagedPacked(a[..], head, es);
  }

  // ----- whole pages -----

  /** A fresh empty page with its sibling links. */
  method LinkedPage(pgno: u32, prev: u32, next: u32, psize: nat, leaf: bool) returns (a: array<byte>)
    requires MIN_PSIZE <= psize <= MAX_PSIZE
    ensures fresh(a) && a.Length == psize && Packed(a[..], false, Page(pgno, prev, next, leaf, []))
  {
    hide Packed;
    a := EmptyPage(pgno, psize, leaf);
    SetPrevPg(a, prev, Page(pgno, P_INVALID, P_INVALID, leaf, []));
    SetNextPg(a, next, Page(pgno, prev, P_INVALID, leaf, []));
  }

  /** A full page, the entry it has no room for, and the conditions under which
      cutting it is safe. */
  ghost predicate Overfull(pg: Page, skip: nat, e: Entry, psize: nat) {
    && MIN_PSIZE <= psize <= MAX_PSIZE && skip <= |pg.entries|
    && AllHalfBounded(pg.entries, psize) && HalfBounded(e, psize)
    && 0 <= FreeSpace(pg.entries, psize) < EntrySize(e) + 2
  }

  /** `cut` is where the byte-balanced walk stops. */
  ghost predicate PlannedCut(pg: Page, skip: nat, e: Entry, psize: nat, cut: nat) {
    && PAGE_HEADER_SIZE <= psize
    && PlanFor(Sizes(pg.entries), skip, EntrySize(e), psize - PAGE_HEADER_SIZE, SplitPlan(cut, skip >= cut))
  }

  /** A plan is determined by its number of left slots. */
  lemma PlanIsCut(pg: Page, skip: nat, e: Entry, psize: nat, plan: SplitPlan)
    requires PAGE_HEADER_SIZE <= psize
    requires PlanFor(Sizes(pg.entries), skip, EntrySize(e), psize - PAGE_HEADER_SIZE, plan)
    ensures PlannedCut(pg, skip, e, psize, plan.leftSlots)
  {
    hide EntrySize, Stops;
    assert plan == SplitPlan(plan.leftSlots, skip >= plan.leftSlots);
  }

  lemma UsableBounds(all: seq<Entry>, skip: nat, plan: SplitPlan, psize: nat)
    requires Usable(all, skip, plan, psize)
    ensures 0 < plan.leftSlots < |all|
  {
  }

  /** Both leaves of a split: `l` at `lPgno`, `r` at `rPgno`, linked to each other. */
  method BuildLeafHalves(view: PageView, skip: nat, key: Bytes, val: Bytes, psize: nat,
                         lPgno: u32, lPrev: u32, rPgno: u32, rNext: u32, ghost src: Bytes, ghost pg: Page)
    returns (l: array<byte>, r: array<byte>, ghost cut: nat)
    requires Packed(src, false, pg) && view == ViewOf(view.pgno, src, false, pg) && pg.leaf
    requires Overfull(pg, skip, Leaf(key, val), psize)
    ensures fresh(l) && fresh(r) && l != r && l.Length == psize && r.Length == psize
    ensures PlannedCut(pg, skip, Leaf(key, val), psize, cut)
    ensures var all := InsertAt(pg.entries, skip, Leaf(key, val));
      && 0 < cut < |all|
      && Packed(l[..], false, Page(lPgno, lPrev, rPgno, true, all[..cut]))
      && Packed(r[..], false, Page(rPgno, lPgno, rNext, true, all[cut..]))
  {
    hide Packed, EntrySize, Usable, AlignEntry, Payload, PlanFor, AllHalfBounded, FreeSpace, PlannedCut;
    ghost var e := Leaf(key, val);
    var ilen := AlignEntry(BLEAF_HEADER_SIZE + |key| + |val|);
    LeafSize(key, val);
    var plan := ComputePsplit(view, true, skip, ilen, psize, src, pg);
    PlanUsable(pg.entries, skip, e, psize, plan);
    UsableBounds(InsertAt(pg.entries, skip, e), skip, plan, psize);
    cut := plan.leftSlots;
    PlanIsCut(pg, skip, e, psize, plan);
    l := LinkedPage(lPgno, lPrev, rPgno, psize, true);
    r := LinkedPage(rPgno, lPgno, rNext, psize, true);
    FillLeafHalves(view, plan, skip, key, val, l, r, src, pg, Page(lPgno, lPrev, rPgno, true, []),
        Page(rPgno, lPgno, rNext, true, []));
  }

  /** Both internal pages of a split. */
  method BuildInternalHalves(view: PageView, skip: nat, nksize: nat, sepKey: Bytes, child: u32, psize: nat,
                             lPgno: u32, lPrev: u32, rPgno: u32, rNext: u32, ghost src: Bytes, ghost pg: Page)
    returns (l: array<byte>, r: array<byte>, ghost cut: nat)
    requires Packed(src, false, pg) && view == ViewOf(view.pgno, src, false, pg) && !pg.leaf
    requires nksize <= |sepKey| && Overfull(pg, skip, Sep(sepKey[..nksize], child), psize)
    ensures fresh(l) && fresh(r) && l != r && l.Length == psize && r.Length == psize
    ensures PlannedCut(pg, skip, Sep(sepKey[..nksize], child), psize, cut)
    ensures var all := InsertAt(pg.entries, skip, Sep(sepKey[..nksize], child));
      && 0 < cut < |all|
      && Packed(l[..], false, Page(lPgno, lPrev, rPgno, false, all[..cut]))
      && Packed(r[..], false, Page(rPgno, lPgno, rNext, false, all[cut..]))
  {
    hide Packed, EntrySize, Usable, AlignEntry, Payload, PlanFor, AllHalfBounded, FreeSpace, PlannedCut;
    ghost var e := Sep(sepKey[..nksize], child);
    var ilen := AlignEntry(BINTERNAL_HEADER_SIZE + nksize);
    SepSize(sepKey[..nksize], child);
    var plan := ComputePsplit(view, false, skip, ilen, psize, src, pg);
    PlanUsable(pg.entries, skip, e, psize, plan);
    UsableBounds(InsertAt(pg.entries, skip, e), skip, plan, psize);
    cut := plan.leftSlots;
    PlanIsCut(pg, skip, e, psize, plan);
    l := LinkedPage(lPgno, lPrev, rPgno, psize, false);
    r := LinkedPage(rPgno, lPgno, rNext, psize, false);
    FillInternalHalves(view, plan, skip, nksize, sepKey, child, l, r, src, pg,
        Page(lPgno, lPrev, rPgno, false, []), Page(rPgno, lPgno, rNext, false, []));
  }

  /** The one-record leaf of the sorted-append shortcut. */
  method BuildOnlyLeaf(rPgno: u32, prev: u32, key: Bytes, val: Bytes, psize: nat) returns (r: array<byte>)
    requires MIN_PSIZE <= psize <= MAX_PSIZE && HalfBounded(Leaf(key, val), psize)
    ensures fresh(r) && r.Length == psize && Packed(r[..], false, Page(rPgno, prev, P_INVALID, true, [Leaf(key, val)]))
  {
    hide Packed, EntrySize, Fits, HalfBounded;
    r := LinkedPage(rPgno, prev, P_INVALID, psize, true);
    OneFits(Leaf(key, val), psize);
    WriteOnlyLeafEntry(r, key, val, Page(rPgno, prev, P_INVALID, true, []));
  }

  /** The one-separator internal page of the sorted-append shortcut. */
  method BuildOnlyInternal(rPgno: u32, prev: u32, nksize: nat, sepKey: Bytes, child: u32,
      psize: nat) returns (r: array<byte>)
    requires MIN_PSIZE <= psize <= MAX_PSIZE && nksize <= |sepKey| && HalfBounded(Sep(sepKey[..nksize], child), psize)
    ensures fresh(r) && r.Length == psize
    ensures Packed(r[..], false, Page(rPgno, prev, P_INVALID, false, [Sep(sepKey[..nksize], child)]))
  {
    hide Packed, EntrySize, Fits, HalfBounded;
    r := LinkedPage(rPgno, prev, P_INVALID, psize, false);
    OneFits(Sep(sepKey[..nksize], child), psize);
    WriteOnlyInternalEntry(r, nksize, sepKey, child, Page(rPgno, prev, P_INVALID, false, []));
  }

  lemma OneFits(e: Entry, psize: nat)
    requires MIN_PSIZE <= psize && HalfBounded(e, psize)
    ensures Fits([e], psize)
  {
    hide EntrySize;
    UsedOne(e);
  }
}
