/** What one insertion does to the pages, a split at a time, and what that keeps.

    These are the contracts of the writer's split routines on abstract pages; the
    routines themselves, over bytes, are in `Writers`.
  */
module Steps {
  import opened Bytes
  import opened Format
  import opened Entries
  import opened PageSplit
  import opened Tree
  import opened TreeSplit
  import opened TreeUpdate
  import opened Contents
  import opened Separators
  import opened Spines
  import opened Cascade

  const PAGE_LIMIT := 0x1_0000_0000

  /** No entry below the meta page takes more than half a page. */
  ghost predicate PagesHalfBounded(P: seq<Page>, psize: nat) {
    forall p | 1 <= p < |P| :: AllHalfBounded(P[p].entries, psize)
  }

  lemma KeyIsHalfBounded(e: Entry, child: u32, psize: nat)
    requires HalfBounded(e, psize)
    ensures HalfBounded(Sep(e.key, child), psize)
  {
    assert |Payload(e)| >= |e.key| && Payload(Sep(e.key, child)) == e.key;
  }

  // ----- what a leaf split needs and does -----

  /** A full leaf about to take a record it has no room for. */
  ghost predicate LeafSplitPre(P: seq<Page>, p: nat, skip: nat, key: Bytes, val: Bytes, psize: nat) {
    && p < |P| && P[p].leaf && P[p].pgno == p && P[p].entries != []
    && Overfull(P[p], skip, Leaf(key, val), psize)
    && (P[p].next == P_INVALID || 1 <= P[p].next < |P|)
    && P[p].next != p
  }

  /** `p` and a new page share the old records and the new one, in order, cut at
      `cut`; the separator names the keys on either side. */
  ghost predicate LeafSplitDone(P0: seq<Page>, P1: seq<Page>, p: nat, skip: nat, e: Entry, cut: nat, sep: Separator) {
    && p < |P0| < PAGE_LIMIT && skip <= |P0[p].entries|
    && var all := InsertAt(P0[p].entries, skip, e);
      && 0 < cut < |all|
      && P1 == CutPages(WithEntries(P0, p, all), p, cut)
      && sep == LeafSep(all[cut].key, |P0|, all[cut - 1].key)
  }

  // ----- what the other splits need and do -----

  ghost predicate RootPage(P: seq<Page>) {
    2 <= |P| && P[1].pgno == P_ROOT && P[1].prev == P_INVALID && P[1].next == P_INVALID
  }

  /** The root holds two separators over new pages sharing its old entries and the
      new one. */
  ghost predicate RootSplitDone(P0: seq<Page>, P1: seq<Page>, skip: nat, e: Entry, cut: nat) {
    && 2 <= |P0| && |P0| + 2 <= PAGE_LIMIT && skip <= |P0[1].entries|
    && var all := InsertAt(P0[1].entries, skip, e);
      && 0 < cut < |all|
      && P1 == RootPages(WithEntries(P0, 1, all), cut, all[cut].key)
  }

  /** As for a leaf, but the separator is the right page's first key verbatim. */
  ghost predicate InternalSplitDone(P0: seq<Page>, P1: seq<Page>, p: nat, skip: nat, e: Entry, cut: nat,
      up: Separator) {
    && p < |P0| < PAGE_LIMIT && skip <= |P0[p].entries|
    && var all := InsertAt(P0[p].entries, skip, e);
      && 0 < cut < |all|
      && P1 == CutPages(WithEntries(P0, p, all), p, cut)
      && up.InternalSep? && up.child == |P0| && up.ksize <= |up.sepKey| && up.sepKey[..up.ksize] == all[cut].key
  }

  /** The entry that inserting `sep` at slot `skip` of page `p` stores. */
  function SepEntry(P: seq<Page>, p: nat, skip: nat, sep: Separator): Entry
    requires p < |P|
  {
    Sep(sep.Stored(P[p].prev, skip), sep.child)
  }

  ghost predicate SepInsertPre(P: seq<Page>, p: nat, skip: nat, sep: Separator, psize: nat) {
    && 1 <= p < |P| && !P[p].leaf && P[p].pgno == p && P[p].entries != []
    && skip <= |P[p].entries|
    && (p == P_ROOT ==> RootPage(P))
    && (P[p].next == P_INVALID || 1 <= P[p].next < |P|) && P[p].next != p
    && MIN_PSIZE <= psize <= MAX_PSIZE
    && AllHalfBounded(P[p].entries, psize)
    && sep.Ok() && HalfBounded(SepEntry(P, p, skip, sep), psize)
  }

  /** In place when there is room; a root split at the root; else a page split, by
      the shortcut at the end of the rightmost page and by the plan elsewhere. */
  ghost predicate SepInsertDone(P0: seq<Page>, P1: seq<Page>, p: nat, skip: nat, sep: Separator,
      newSep: Option<Separator>,
                                cut: nat, psize: nat)
  {
    && 1 <= p < |P0| && skip <= |P0[p].entries|
    && var e := SepEntry(P0, p, skip, sep);
      if FreeSpace(P0[p].entries, psize) >= EntrySize(e) + 2 then
        newSep.None? && P1 == WithEntries(P0, p, InsertAt(P0[p].entries, skip, e))
      else if p == P_ROOT then
        newSep.None? && RootSplitDone(P0, P1, skip, e, cut) && PlannedCut(P0[p], skip, e, psize, cut)
      else
        newSep.Some? && InternalSplitDone(P0, P1, p, skip, e, cut, newSep.value)
            && ChosenCut(P0[p], skip, e, psize, cut)
  }

  /** Where a page other than the root is cut. */
  ghost predicate ChosenCut(pg: Page, skip: nat, e: Entry, psize: nat, cut: nat) {
    if pg.next == P_INVALID && skip == |pg.entries| then cut == |pg.entries|
    else PlannedCut(pg, skip, e, psize, cut)
  }

  lemma LeafSplitReady(P: seq<Page>, R: seq<Region>, p: nat, skip: nat, key: Bytes, val: Bytes, psize: nat)
    requires Inv(P, R) && 2 <= p < |P| && P[p].leaf && Overfull(P[p], skip, Leaf(key, val), psize)
    ensures LeafSplitPre(P, p, skip, key, val, psize)
  {
    hide Lt, EntrySize, AllHalfBounded;
    OrderLaws();
    assert NodeOk(P, R, p) && SibOk(P, R, p);
    EmptyHasRoom(P[p].entries, Leaf(key, val), psize);
  }

  lemma EmptyHasRoom(es: seq<Entry>, e: Entry, psize: nat)
    requires MIN_PSIZE <= psize && HalfBounded(e, psize) && FreeSpace(es, psize) < EntrySize(e) + 2
    ensures es != []
  {
    hide EntrySize;
  }

  /** The leaf was cut: its parent owes the separator. */
  lemma LeafSplitPending(P0: seq<Page>, P1: seq<Page>, R: seq<Region>, m: map<Bytes, Bytes>, path: seq<Hop>, p: u32,
                         skip: nat, e: Entry, cut: nat, sep: Separator, psize: nat)
    returns (S: seq<Region>)
    requires LeafSplitDone(P0, P1, p, skip, e, cut, sep) && 2 <= p && P0[p].leaf
    requires SpineOk(P0, R, path, p) && PagesHalfBounded(P1, psize)
    requires var V := WithEntries(P0, p, InsertAt(P0[p].entries, skip, e)); Inv(V, R) && Denotes(V, m)
    ensures path != [] && 1 <= path[|path| - 1].pgno < |P1| == |P0| + 1
    ensures Pending(P1, S, m, path, p, sep)
    ensures sep.Ok() && HalfBounded(Owed(P1, path[|path| - 1], sep), psize)
    ensures 2 <= |R| && |path| <= R[1].level && 2 <= |S| && S[1].level == R[1].level
  {
    hide Inv, Denotes, Separates, EntrySize, CutPages, HalfBounded, Pending, Separator.Stored, Lt;
    var all := InsertAt(P0[p].entries, skip, e);
    var V := WithEntries(P0, p, all);
    SpineLast(P0, R, path, p);
    SpineLeaf(P0, R, path, p, all);
    var h := path[|path| - 1];
    KeysOrdered(V, R, p, cut);
    StoredKeySeparates(V, p, cut, sep, V[h.pgno].prev, h.slot + 1);
    CutIsPending(V, R, m, path, p, cut, sep);
    S := CutRegions(R, p, sep.Stored(V[h.pgno].prev, h.slot + 1));
    RightHalfBounded(V, p, cut, |V|, psize);
    StoredIsHalfBounded(sep, P1[h.pgno].prev, h.slot + 1, psize);
  }

  lemma KeysOrdered(P: seq<Page>, R: seq<Region>, p: nat, cut: nat)
    requires Inv(P, R) && 1 <= p < |P| && 0 < cut < |P[p].entries|
    ensures Lt(P[p].entries[cut - 1].key, P[p].entries[cut].key)
  {
    hide Lt;
    assert NodeOk(P, R, p);
  }

  lemma StoredIsHalfBounded(sep: Separator, prev: u32, skip: nat, psize: nat)
    requires HalfBounded(Sep(sep.sepKey, sep.child), psize)
    ensures HalfBounded(Sep(sep.Stored(prev, skip), sep.child), psize)
  {
    hide Separator.EncodedSize;
    assert Payload(Sep(sep.sepKey, sep.child)) == sep.sepKey;
    assert Payload(Sep(sep.Stored(prev, skip), sep.child)) == sep.Stored(prev, skip);
  }

  // ----- the cascade, one page at a time -----

  lemma PendingInsert(P: seq<Page>, R: seq<Region>, m: map<Bytes, Bytes>, path: seq<Hop>, last: u32,
      sep: Separator, psize: nat)
    requires Pending(P, R, m, path, last, sep) && PagesHalfBounded(P, psize) && MIN_PSIZE <= psize <= MAX_PSIZE
    requires sep.Ok() && HalfBounded(Owed(P, path[|path| - 1], sep), psize)
    ensures var h := path[|path| - 1]; SepInsertPre(P, h.pgno, h.slot + 1, sep, psize)
  {
    hide Lt, EntrySize, Separator.Stored, Denotes;
    var h := path[|path| - 1];
    var V := Virtual(P, h, sep);
    assert NodeOk(V, R, h.pgno) && SibOk(V, R, h.pgno) && NodeOk(V, R, 1) && SibOk(V, R, 1);
    assert IsChild(V, h.pgno, h.slot, After(path, last, |path| - 1));
    assert AllHalfBounded(P[h.pgno].entries, psize);
    OrderLaws();
  }

  lemma SepBounds(P: seq<Page>, p: nat, skip: nat, sep: Separator, psize: nat)
    requires SepInsertPre(P, p, skip, sep, psize)
    ensures 1 <= p < |P| && MIN_PSIZE <= psize && HalfBounded(SepEntry(P, p, skip, sep), psize)
  {
    hide EntrySize;
  }

  /** The separator found its place: the tree is whole again. */
  lemma PendingDone(P0: seq<Page>, P1: seq<Page>, R: seq<Region>, m: map<Bytes, Bytes>, path: seq<Hop>, last: u32,
      sep: Separator, cut: nat,
                    psize: nat)
    returns (S: seq<Region>)
    requires Pending(P0, R, m, path, last, sep)
    requires var h := path[|path| - 1]; SepInsertDone(P0, P1, h.pgno, h.slot + 1, sep, None, cut, psize)
    ensures Inv(P1, S) && Denotes(P1, m)
    ensures 2 <= |R| && 2 <= |S| && S[1].level <= R[1].level + 1
  {
    hide Inv, Denotes, Separator.Stored, SpineOk, PlannedCut, EntrySize, FreeSpace;
    var h := path[|path| - 1];
    RegionCount(Virtual(P0, h, sep), R);
    if P1 == Virtual(P0, h, sep) {
      S := R;
    } else {
      S := RootSplitInv(P0, P1, R, m, h.slot + 1, Owed(P0, h, sep), cut);
    }
  }

  lemma RootSplitInv(P0: seq<Page>, P1: seq<Page>, R: seq<Region>, m: map<Bytes, Bytes>, skip: nat, e: Entry, cut: nat)
    returns (S: seq<Region>)
    requires RootSplitDone(P0, P1, skip, e, cut)
    requires var V := WithEntries(P0, 1, InsertAt(P0[1].entries, skip, e)); Inv(V, R) && Denotes(V, m)
    ensures Inv(P1, S) && Denotes(P1, m)
    ensures 2 <= |R| && 2 <= |S| && S[1].level == R[1].level + 1
  {
    hide Inv, Denotes, RootPages, Separates;
    var all := InsertAt(P0[1].entries, skip, e);
    var V := WithEntries(P0, 1, all);
    RegionCount(V, R);
    FirstKeySeparates(V, R, 1, cut);
    RootKeepsInv(V, R, cut, all[cut].key);
    RootKeepsMap(V, R, cut, all[cut].key, m);
    S := RootRegions(R, all[cut].key);
  }

  /** The parent was cut in its turn: its own parent owes `up`. */
  lemma PendingSplit(P0: seq<Page>, P1: seq<Page>, R: seq<Region>, m: map<Bytes, Bytes>, path: seq<Hop>, last: u32,
                     sep: Separator, up: Separator, cut: nat, psize: nat)
    returns (S: seq<Region>)
    requires path != [] && Pending(P0, R, m, path, last, sep) && PagesHalfBounded(P1, psize)
    requires var h := path[|path| - 1]; SepInsertDone(P0, P1, h.pgno, h.slot + 1, sep, Some(up), cut, psize)
    ensures path[..|path| - 1] != [] && Pending(P1, S, m, path[..|path| - 1], path[|path| - 1].pgno, up)
    ensures up.Ok() && |P1| == |P0| + 1
    ensures 2 <= |R| && 2 <= |S| && S[1].level == R[1].level
    ensures 1 <= path[|path| - 2].pgno < |P1| && HalfBounded(Owed(P1, path[|path| - 2], up), psize)
  {
    hide Inv, Denotes, Separates, EntrySize, CutPages, HalfBounded, Pending, SpineOk, PlannedCut, FreeSpace;
    var h, rest := path[|path| - 1], path[..|path| - 1];
    var V := PendingVirtual(P0, R, m, path, last, sep);
    RegionCount(V, R);
    SpinePop(V, R, path, last);
    FirstKeySeparates(V, R, h.pgno, cut);
    var s := V[h.pgno].entries[cut].key;
    SpineLast(V, R, rest, h.pgno);
    assert up.Stored(V[rest[|rest| - 1].pgno].prev, rest[|rest| - 1].slot + 1) == s;
    CutIsPending(V, R, m, rest, h.pgno, cut, up);
    S := CutRegions(R, h.pgno, s);
    RightHalfBounded(V, h.pgno, cut, |V|, psize);
  }

  lemma PendingVirtual(P: seq<Page>, R: seq<Region>, m: map<Bytes, Bytes>, path: seq<Hop>, last: u32, sep: Separator)
    returns (V: seq<Page>)
    requires Pending(P, R, m, path, last, sep)
    ensures var h := path[|path| - 1];
      && path != [] && 1 <= h.pgno < |P| && h.slot + 1 <= |P[h.pgno].entries|
      && V == Virtual(P, h, sep) && Inv(V, R) && Denotes(V, m) && SpineOk(V, R, path, last)
  {
    V := Virtual(P, path[|path| - 1], sep);
  }

  lemma SpineLast(P: seq<Page>, R: seq<Region>, path: seq<Hop>, last: u32)
    requires SpineOk(P, R, path, last) && last != P_ROOT
    ensures path != [] && 1 <= path[|path| - 1].pgno < |P|
  {
  }

  /** The key a cut sends up is as small as the entry it came from. */
  lemma RightHalfBounded(V: seq<Page>, p: nat, cut: nat, child: u32, psize: nat)
    requires p < |V| < PAGE_LIMIT && cut < |V[p].entries| && 1 <= |V| && PagesHalfBounded(CutPages(V, p, cut), psize)
    ensures HalfBounded(Sep(V[p].entries[cut].key, child), psize)
  {
    hide EntrySize, HalfBounded;
    var Q := CutPages(V, p, cut);
    assert AllHalfBounded(Q[|V|].entries, psize);
    assert Q[|V|].entries[0] == V[p].entries[cut];
    KeyIsHalfBounded(V[p].entries[cut], child, psize);
  }

  // ----- the whole insertion -----

  /** `sep` inserted after the slot descended through in the page of `h`. */
  ghost predicate TakesSep(P0: seq<Page>, P1: seq<Page>, h: Hop, sep: Separator, newSep: Option<Separator>,
                           cut: nat, psize: nat)
  {
    SepInsertDone(P0, P1, h.pgno, h.slot + 1, sep, newSep, cut, psize)
  }

  /** `sep` inserted in the last page of `path`, and the separator of every further
      split in the page above, until one finds its place. */
  ghost predicate Propagated(P0: seq<Page>, P1: seq<Page>, path: seq<Hop>, sep: Separator, psize: nat)
    decreases |path|
  {
    && path != []
    && var h, rest := path[|path| - 1], path[..|path| - 1];
      exists Q: seq<Page>, newSep: Option<Separator>, cut: nat ::
        && TakesSep(P0, Q, h, sep, newSep, cut, psize)
        && match newSep
           case None => P1 == Q
           case Some(up) => Propagated(Q, P1, rest, up, psize)
  }

  /** Record `e` inserted in slot `idx` of leaf `p`: in place when there is room, by
      a root split in the root, else by a leaf split and its propagation. */
  ghost predicate InsertedAt(P0: seq<Page>, R0: seq<Region>, P1: seq<Page>, e: Entry, psize: nat,
                             path: seq<Hop>, p: u32, idx: nat)
  {
    && 1 <= p < |P0| == |R0| && P0[p].leaf && Within(R0[p], e.key)
    && SpineOk(P0, R0, path, p) && SortsAt(P0[p].entries, idx, e.key)
    && if FreeSpace(P0[p].entries, psize) >= EntrySize(e) + 2 then
      P1 == WithEntries(P0, p, InsertAt(P0[p].entries, idx, e))
    else if p == P_ROOT then
      exists cut :: RootSplitDone(P0, P1, idx, e, cut) && PlannedCut(P0[1], idx, e, psize, cut)
    else
      exists Q, cut, sep ::
        && LeafSplitDone(P0, Q, p, idx, e, cut, sep)
        && ChosenCut(P0[p], idx, e, psize, cut)
        && Propagated(Q, P1, path, sep, psize)
  }

  /** Record `e` inserted where a descent for its key ends. */
  ghost predicate Inserted(P0: seq<Page>, R0: seq<Region>, P1: seq<Page>, e: Entry, psize: nat) {
    exists path: seq<Hop>, p: u32, idx: nat :: InsertedAt(P0, R0, P1, e, psize, path, p, idx)
  }

  /** The leaf that owns the record's key has room for it. */
  ghost predicate Roomy(P: seq<Page>, R: seq<Region>, e: Entry, psize: nat) {
    |P| == |R| && forall p | 1 <= p < |P| && P[p].leaf && Within(R[p], e.key) ::
      FreeSpace(P[p].entries, psize) >= EntrySize(e) + 2
  }

  lemma NotRoomy(P: seq<Page>, R: seq<Region>, e: Entry, psize: nat, p: nat)
    requires |P| == |R| && 1 <= p < |P| && P[p].leaf && Within(R[p], e.key)
    requires FreeSpace(P[p].entries, psize) < EntrySize(e) + 2
    ensures !Roomy(P, R, e, psize)
  {
    hide EntrySize, FreeSpace, Within;
  }

  lemma InsertedInPlace(P0: seq<Page>, R0: seq<Region>, e: Entry, psize: nat, path: seq<Hop>, p: u32, idx: nat)
    requires 1 <= p < |P0| == |R0| && P0[p].leaf && Within(R0[p], e.key)
    requires SpineOk(P0, R0, path, p) && SortsAt(P0[p].entries, idx, e.key) && idx <= |P0[p].entries|
    requires FreeSpace(P0[p].entries, psize) >= EntrySize(e) + 2
    ensures var P1 := WithEntries(P0, p, InsertAt(P0[p].entries, idx, e));
      && Inserted(P0, R0, P1, e, psize)
      && (PagesHalfBounded(P0, psize) && HalfBounded(e, psize) ==> PagesHalfBounded(P1, psize))
  {
    hide EntrySize, FreeSpace, Within, SortsAt, SpineOk, HalfBounded;
    var P1 := WithEntries(P0, p, InsertAt(P0[p].entries, idx, e));
    assert InsertedAt(P0, R0, P1, e, psize, path, p, idx);
    if PagesHalfBounded(P0, psize) && HalfBounded(e, psize) {
      InsertedHalfBounded(P0[p].entries, idx, e, psize);
      HalfAfterEntries(P0, p, InsertAt(P0[p].entries, idx, e), psize);
    }
  }

  lemma InsertedInRoot(P0: seq<Page>, R0: seq<Region>, P1: seq<Page>, e: Entry, psize: nat, path: seq<Hop>,
                       idx: nat, cut: nat)
    requires 1 < |P0| == |R0| && P0[1].leaf && Within(R0[1], e.key)
    requires SpineOk(P0, R0, path, P_ROOT) && SortsAt(P0[1].entries, idx, e.key)
    requires FreeSpace(P0[1].entries, psize) < EntrySize(e) + 2
    requires RootSplitDone(P0, P1, idx, e, cut) && PlannedCut(P0[1], idx, e, psize, cut)
    ensures Inserted(P0, R0, P1, e, psize)
  {
    hide EntrySize, FreeSpace, Within, SortsAt, SpineOk, RootSplitDone, PlannedCut;
    assert InsertedAt(P0, R0, P1, e, psize, path, P_ROOT, idx);
  }

  lemma InsertedAbove(P0: seq<Page>, R0: seq<Region>, Q: seq<Page>, P1: seq<Page>, e: Entry, psize: nat,
                      path: seq<Hop>, p: u32, idx: nat, cut: nat, sep: Separator)
    requires 2 <= p < |P0| == |R0| && P0[p].leaf && Within(R0[p], e.key)
    requires SpineOk(P0, R0, path, p) && SortsAt(P0[p].entries, idx, e.key)
    requires FreeSpace(P0[p].entries, psize) < EntrySize(e) + 2
    requires LeafSplitDone(P0, Q, p, idx, e, cut, sep) && ChosenCut(P0[p], idx, e, psize, cut)
    requires Propagated(Q, P1, path, sep, psize)
    ensures Inserted(P0, R0, P1, e, psize)
  {
    hide EntrySize, FreeSpace, Within, SortsAt, SpineOk, LeafSplitDone, ChosenCut, Propagated;
    assert InsertedAt(P0, R0, P1, e, psize, path, p, idx);
  }

  /** The record of `key` removed from its leaf, the pages otherwise as they were. */
  ghost predicate Removed(P0: seq<Page>, P1: seq<Page>, key: Bytes) {
    exists p: nat, idx: nat ::
      && 1 <= p < |P0| && P0[p].leaf && idx < |P0[p].entries| && P0[p].entries[idx].key == key
      && P1 == WithEntries(P0, p, RemoveAt(P0[p].entries, idx))
  }

  lemma PropagatedDone(P0: seq<Page>, P1: seq<Page>, path: seq<Hop>, sep: Separator, cut: nat, psize: nat)
    requires path != []
    requires var h := path[|path| - 1]; SepInsertDone(P0, P1, h.pgno, h.slot + 1, sep, None, cut, psize)
    ensures Propagated(P0, P1, path, sep, psize)
  {
    hide SepInsertDone;
    assert TakesSep(P0, P1, path[|path| - 1], sep, None, cut, psize);
  }

  lemma PropagatedUp(P0: seq<Page>, Q: seq<Page>, P1: seq<Page>, path: seq<Hop>, sep: Separator, up: Separator,
                     cut: nat, psize: nat)
    requires path != [] && Propagated(Q, P1, path[..|path| - 1], up, psize)
    requires var h := path[|path| - 1]; SepInsertDone(P0, Q, h.pgno, h.slot + 1, sep, Some(up), cut, psize)
    ensures Propagated(P0, P1, path, sep, psize)
  {
    hide SepInsertDone;
    assert TakesSep(P0, Q, path[|path| - 1], sep, Some(up), cut, psize);
  }

  /** A propagation takes at most a page a level, and one more for the root. */
  lemma {:induction false} PropagatedGrowth(P0: seq<Page>, P1: seq<Page>, path: seq<Hop>, sep: Separator, psize: nat)
    requires Propagated(P0, P1, path, sep, psize)
    ensures |P0| <= |P1| <= |P0| + |path| + 1
    decreases |path|
  {
    hide SepInsertDone;
    var h, rest := path[|path| - 1], path[..|path| - 1];
    var Q: seq<Page>, newSep: Option<Separator>, cut: nat :|
      && TakesSep(P0, Q, h, sep, newSep, cut, psize)
      && match newSep
         case None => P1 == Q
         case Some(up) => Propagated(Q, P1, rest, up, psize);
    SepInsertGrowth(P0, Q, h.pgno, h.slot + 1, sep, newSep, cut, psize);
    match newSep
    case None =>
    case Some(up) => PropagatedGrowth(Q, P1, rest, up, psize);
  }

  lemma SepInsertGrowth(P0: seq<Page>, P1: seq<Page>, p: nat, skip: nat, sep: Separator, newSep: Option<Separator>,
                        cut: nat, psize: nat)
    requires SepInsertDone(P0, P1, p, skip, sep, newSep, cut, psize)
    ensures |P0| <= |P1| <= |P0| + if newSep.None? then 2 else 1
  {
    hide Separator.Stored, PlannedCut, EntrySize, FreeSpace;
  }

  lemma LeafSplitGrowth(P0: seq<Page>, P1: seq<Page>, p: nat, skip: nat, e: Entry, cut: nat, sep: Separator)
    requires LeafSplitDone(P0, P1, p, skip, e, cut, sep)
    ensures |P1| == |P0| + 1
  {
  }

  lemma RootSplitGrowth(P0: seq<Page>, P1: seq<Page>, skip: nat, e: Entry, cut: nat)
    requires RootSplitDone(P0, P1, skip, e, cut)
    ensures |P1| == |P0| + 2
  {
  }

  /** An insertion takes at most a page a level and two for the root. */
  lemma InsertedGrowth(P0: seq<Page>, R0: seq<Region>, P1: seq<Page>, e: Entry, psize: nat)
    requires Inserted(P0, R0, P1, e, psize)
    ensures 2 <= |R0| && |P0| <= |P1| <= |P0| + R0[1].level + 2
  {
    hide PlannedCut, EntrySize, FreeSpace, Propagated, Within, ChosenCut, LeafSplitDone, RootSplitDone;
    var path: seq<Hop>, p: u32, idx: nat :| InsertedAt(P0, R0, P1, e, psize, path, p, idx);
    if FreeSpace(P0[p].entries, psize) < EntrySize(e) + 2 && p != P_ROOT {
      var Q, cut, sep :|
        && LeafSplitDone(P0, Q, p, idx, e, cut, sep)
        && ChosenCut(P0[p], idx, e, psize, cut)
        && Propagated(Q, P1, path, sep, psize);
      LeafSplitGrowth(P0, Q, p, idx, e, cut, sep);
      PropagatedGrowth(Q, P1, path, sep, psize);
    } else if FreeSpace(P0[p].entries, psize) < EntrySize(e) + 2 {
      var cut :| RootSplitDone(P0, P1, idx, e, cut) && PlannedCut(P0[1], idx, e, psize, cut);
      RootSplitGrowth(P0, P1, idx, e, cut);
    }
  }

  // ----- the smallest trees -----

  /** The arena is the root alone, a leaf holding `es`. */
  ghost predicate RootOnly(P: seq<Page>, es: seq<Entry>) {
    |P| == 2 && P[1].leaf && P[1].entries == es
  }

  /** With room in the only leaf, a record goes where its key sorts. */
  lemma InsertedInRootOnly(P0: seq<Page>, R0: seq<Region>, P1: seq<Page>, es: seq<Entry>, e: Entry,
                           psize: nat)
    requires RootOnly(P0, es) && Inserted(P0, R0, P1, e, psize)
    requires forall i | 0 <= i < |es| :: Lt(es[i].key, e.key)
    requires FreeSpace(es, psize) >= EntrySize(e) + 2
    ensures RootOnly(P1, es + [e])
  {
    hide Lt, FreeSpace, EntrySize, SpineOk, Within;
    OrderLaws();
    var path: seq<Hop>, p: u32, idx: nat :| InsertedAt(P0, R0, P1, e, psize, path, p, idx);
    assert InsertAt(es, |es|, e) == es + [e];
  }

  // ----- leaves stay non-empty -----

  lemma SortsInRange(es: seq<Entry>, idx: nat, key: Bytes)
    requires SortsAt(es, idx, key)
    ensures idx <= |es|
  {
  }

  lemma FullAfterRoot(P0: seq<Page>, P1: seq<Page>, skip: nat, e: Entry, cut: nat)
    requires RootSplitDone(P0, P1, skip, e, cut) && FullLeaves(P0)
    ensures FullLeaves(P1)
  {
  }

  lemma FullAfterLeaf(P0: seq<Page>, P1: seq<Page>, p: nat, skip: nat, e: Entry, cut: nat, sep: Separator)
    requires LeafSplitDone(P0, P1, p, skip, e, cut, sep) && FullLeaves(P0)
    ensures FullLeaves(P1)
  {
  }

  lemma FullAfterInsert(P: seq<Page>, p: nat, idx: nat, e: Entry)
    requires p < |P| && idx <= |P[p].entries| && FullLeaves(P)
    ensures FullLeaves(WithEntries(P, p, InsertAt(P[p].entries, idx, e)))
  {
  }

  lemma FullAfterSep(P0: seq<Page>, P1: seq<Page>, p: nat, skip: nat, sep: Separator, newSep: Option<Separator>,
                     cut: nat, psize: nat)
    requires SepInsertDone(P0, P1, p, skip, sep, newSep, cut, psize) && FullLeaves(P0)
    ensures FullLeaves(P1)
  {
    hide Separator.Stored, PlannedCut, EntrySize, FreeSpace;
  }

  lemma {:induction false} FullAfterPropagation(P0: seq<Page>, P1: seq<Page>, path: seq<Hop>, sep: Separator,
                                                psize: nat)
    requires Propagated(P0, P1, path, sep, psize) && FullLeaves(P0)
    ensures FullLeaves(P1)
    decreases |path|
  {
    hide SepInsertDone, FullLeaves;
    var h, rest := path[|path| - 1], path[..|path| - 1];
    var Q: seq<Page>, newSep: Option<Separator>, cut: nat :|
      && TakesSep(P0, Q, h, sep, newSep, cut, psize)
      && match newSep
         case None => P1 == Q
         case Some(up) => Propagated(Q, P1, rest, up, psize);
    FullAfterSep(P0, Q, h.pgno, h.slot + 1, sep, newSep, cut, psize);
    match newSep
    case None =>
    case Some(up) => FullAfterPropagation(Q, P1, rest, up, psize);
  }

  /** Insertions empty no leaf. */
  lemma FullAfterInsertion(P0: seq<Page>, R0: seq<Region>, P1: seq<Page>, e: Entry, psize: nat)
    requires Inserted(P0, R0, P1, e, psize) && FullLeaves(P0)
    ensures FullLeaves(P1)
  {
    hide PlannedCut, EntrySize, FreeSpace, Propagated, Within, SpineOk, FullLeaves, LeafSplitDone, RootSplitDone,
         SortsAt, ChosenCut;
    var path: seq<Hop>, p: u32, idx: nat :| InsertedAt(P0, R0, P1, e, psize, path, p, idx);
    if FreeSpace(P0[p].entries, psize) >= EntrySize(e) + 2 {
      SortsInRange(P0[p].entries, idx, e.key);
      FullAfterInsert(P0, p, idx, e);
    } else if p == P_ROOT {
      var cut :| RootSplitDone(P0, P1, idx, e, cut) && PlannedCut(P0[1], idx, e, psize, cut);
      FullAfterRoot(P0, P1, idx, e, cut);
    } else {
      var Q, cut, sep :|
        && LeafSplitDone(P0, Q, p, idx, e, cut, sep)
        && ChosenCut(P0[p], idx, e, psize, cut)
        && Propagated(Q, P1, path, sep, psize);
      FullAfterLeaf(P0, Q, p, idx, e, cut, sep);
      FullAfterPropagation(Q, P1, path, sep, psize);
    }
  }

  // ----- entries stay half-bounded -----

  lemma CutHalfBounded(P: seq<Page>, p: nat, all: seq<Entry>, cut: nat, psize: nat)
    requires PagesHalfBounded(P, psize) && AllHalfBounded(all, psize) && 1 <= p < |P| < PAGE_LIMIT && cut <= |all|
    ensures PagesHalfBounded(CutPages(WithEntries(P, p, all), p, cut), psize)
  {
    hide HalfBounded;
  }

  lemma HalfAfterLeaf(P0: seq<Page>, P1: seq<Page>, p: nat, skip: nat, e: Entry, cut: nat, sep: Separator, psize: nat)
    requires LeafSplitDone(P0, P1, p, skip, e, cut, sep) && 1 <= p
    requires PagesHalfBounded(P0, psize) && HalfBounded(e, psize)
    ensures PagesHalfBounded(P1, psize)
  {
    hide HalfBounded, AllHalfBounded, CutPages;
    PageIsHalfBounded(P0, p, psize);
    InsertedHalfBounded(P0[p].entries, skip, e, psize);
    CutHalfBounded(P0, p, InsertAt(P0[p].entries, skip, e), cut, psize);
  }

  lemma PageIsHalfBounded(P: seq<Page>, p: nat, psize: nat)
    requires PagesHalfBounded(P, psize) && 1 <= p < |P|
    ensures AllHalfBounded(P[p].entries, psize)
  {
    hide AllHalfBounded;
  }

  lemma InsertedHalfBounded(es: seq<Entry>, i: nat, e: Entry, psize: nat)
    requires AllHalfBounded(es, psize) && HalfBounded(e, psize) && i <= |es|
    ensures AllHalfBounded(InsertAt(es, i, e), psize)
  {
    hide HalfBounded;
  }

  lemma HalfAfterEntries(P: seq<Page>, p: nat, es: seq<Entry>, psize: nat)
    requires PagesHalfBounded(P, psize) && 1 <= p < |P| && AllHalfBounded(es, psize)
    ensures PagesHalfBounded(WithEntries(P, p, es), psize)
  {
    hide HalfBounded;
  }

  lemma HalfAfterRemove(P: seq<Page>, p: nat, idx: nat, psize: nat)
    requires PagesHalfBounded(P, psize) && 1 <= p < |P| && idx < |P[p].entries|
    ensures PagesHalfBounded(WithEntries(P, p, RemoveAt(P[p].entries, idx)), psize)
  {
    hide HalfBounded;
    PageIsHalfBounded(P, p, psize);
    HalfAfterEntries(P, p, RemoveAt(P[p].entries, idx), psize);
  }

  lemma HalfAfterRoot(P0: seq<Page>, P1: seq<Page>, skip: nat, e: Entry, cut: nat, psize: nat)
    requires RootSplitDone(P0, P1, skip, e, cut) && MIN_PSIZE <= psize
    requires PagesHalfBounded(P0, psize) && HalfBounded(e, psize)
    ensures PagesHalfBounded(P1, psize)
  {
    hide HalfBounded;
    PageIsHalfBounded(P0, 1, psize);
    var all := InsertAt(P0[1].entries, skip, e);
    InsertedHalfBounded(P0[1].entries, skip, e, psize);
    assert HalfBounded(all[cut], psize);
    KeyIsHalfBounded(all[cut], |P0| + 1, psize);
    EmptyKeyIsHalfBounded(|P0|, psize);
  }

  lemma EmptyKeyIsHalfBounded(child: u32, psize: nat)
    requires MIN_PSIZE <= psize
    ensures HalfBounded(Sep([], child), psize)
  {
    assert |Payload(Sep([], child))| == 0;
  }

  lemma HalfAfterSep(P0: seq<Page>, P1: seq<Page>, p: nat, skip: nat, sep: Separator, newSep: Option<Separator>,
                     cut: nat, psize: nat)
    requires SepInsertDone(P0, P1, p, skip, sep, newSep, cut, psize) && MIN_PSIZE <= psize
    requires PagesHalfBounded(P0, psize) && HalfBounded(SepEntry(P0, p, skip, sep), psize)
    ensures PagesHalfBounded(P1, psize)
  {
    hide Separator.Stored, PlannedCut, EntrySize, FreeSpace, HalfBounded, AllHalfBounded, CutPages, RootPages;
    PageIsHalfBounded(P0, p, psize);
    var e := SepEntry(P0, p, skip, sep);
    InsertedHalfBounded(P0[p].entries, skip, e, psize);
    var all := InsertAt(P0[p].entries, skip, e);
    if FreeSpace(P0[p].entries, psize) >= EntrySize(e) + 2 {
      HalfAfterEntries(P0, p, all, psize);
    } else if p == P_ROOT {
      HalfAfterRoot(P0, P1, skip, e, cut, psize);
    } else {
      CutHalfBounded(P0, p, all, cut, psize);
    }
  }

  /** Cutting before the last of an appended record is linking a page after. */
  lemma AppendCut(P: seq<Page>, p: nat, e: Entry)
    requires p < |P| < PAGE_LIMIT && P[p].next == P_INVALID && P[p].entries != []
    ensures var n := |P[p].entries|; var all := InsertAt(P[p].entries, n, e);
      && all[n] == e && all[n - 1] == P[p].entries[n - 1]
      && CutPages(WithEntries(P, p, all), p, n)
         == P[p := P[p].(next := |P|)] + [Page(|P|, P[p].pgno, P_INVALID, P[p].leaf, [e])]
  {
    var n, all := |P[p].entries|, InsertAt(P[p].entries, |P[p].entries|, e);
    assert all[..n] == P[p].entries && all[n..] == [e];
  }
}
