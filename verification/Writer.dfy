/** The btree writer: `put`, `del` and the split cascade over a page arena.

    The ghost fields are the abstract pages the arena encodes, the region each
    owns, and the finite map they denote.  A `?` on one of the writer's own
    pages is a proof obligation that the decode succeeds.
  */
module Writers {
  import opened Bytes
  import opened Errors
  import opened Format
  import opened Entries
  import opened PageViews
  import opened Layout
  import opened PageBufs
  import opened PageOps
  import opened PageDelete
  import opened PageFill
  import opened PageSplit
  import opened PageRoot
  import opened Tree
  import opened TreeSplit
  import opened TreeUpdate
  import opened Contents
  import opened PageSearch
  import opened Separators
  import opened Arena
  import opened Spines
  import opened Cascade
  import opened Steps
  import opened MetaPage

  /** The size check of `put`: no page could ever hold the entry, or a root its
      separator. */
  predicate TooLarge(key: Bytes, val: Bytes, psize: nat) {
    var leafBytes := AlignEntry(BLEAF_HEADER_SIZE + |key| + |val|);
    var sepBytes := AlignEntry(BINTERNAL_HEADER_SIZE + |key|);
    var zeroKeyBytes := AlignEntry(BINTERNAL_HEADER_SIZE);
    var usable := psize - PAGE_HEADER_SIZE;
    leafBytes + 2 > usable || sepBytes + zeroKeyBytes + 4 > usable
  }

  /** An entry is refused exactly when a fresh leaf cannot hold its record or a
      promoted root, beside the empty key, its separator. */
  lemma TooLargeIs(key: Bytes, val: Bytes, psize: nat, lPgno: u32, rPgno: u32)
    ensures TooLarge(key, val, psize)
       <==> !(Fits([Leaf(key, val)], psize) && Fits(RootEntries(lPgno, rPgno, key), psize))
  {
    hide EntrySize, Used, AlignEntry;
    UsedOne(Leaf(key, val));
    LeafSize(key, val);
    RootUsed(lPgno, rPgno, key);
    SepSize([], lPgno);
    SepSize(key, rPgno);
  }

  /** On the writer's own page size: more than 4063 bytes in all, or a key of more
      than 4051. */
  lemma TooLargeByLength(key: Bytes, val: Bytes)
    ensures TooLarge(key, val, 4096) <==> |key| + |val| > 4063 || |key| > 4051
  {
  }

  lemma HalfBoundedIsAccepted(key: Bytes, val: Bytes, psize: nat)
    requires MIN_PSIZE <= psize && HalfBounded(Leaf(key, val), psize)
    ensures !TooLarge(key, val, psize)
  {
    assert |Payload(Leaf(key, val))| == |key| + |val|;
  }

  class Writer {
    const psize: nat
    var pages: Bytes
    const free: u32
    const nrecs: u32
    const flags: u32

    ghost var P: seq<Page>
    ghost var R: seq<Region>
    ghost var m: map<Bytes, Bytes>

    /** The arena encodes `P`. */
    ghost predicate Core()
      reads this
    {
      && MIN_PSIZE <= psize <= MAX_PSIZE
      && 2 <= |P| <= PAGE_LIMIT
      && Stores(pages, psize, false, P)
    }

    ghost predicate Valid()
      reads this
    {
      Core() && Inv(P, R) && Denotes(P, m)
    }

    /** Levels above the leaves. */
    ghost function Height(): nat
      reads this
      requires 2 <= |R|
    {
      R[1].level
    }

    /** Page numbers are 32 bits; one `put` may take one page per level and two
        for the root. */
    ghost predicate HasPages()
      reads this
    {
      2 <= |R| && |P| + Height() + 2 <= PAGE_LIMIT
    }

    // ----- arena access -----

    method PageCount() returns (n: nat)
      requires Core()
      ensures n == |P|
    {
      hide Packed;
      CountPages(psize, |P|);
      n := |pages| / psize;
    }

    /** Decode page `pgno`. */
    method ViewPage(pgno: u32) returns (view: PageView)
      requires Core() && 1 <= pgno < |P|
      ensures Packed(view.bytes, false, P[pgno]) && |view.bytes| == psize
      ensures view == ViewOf(pgno, view.bytes, false, P[pgno])
    {
      hide Packed, PageOff, Parse;
      assert PackedAt(pages, psize, false, pgno, P[pgno]);
      var b := PageBytes(pages, psize, pgno);
      ParsePacked(pgno, b, false, P[pgno]);
      view := Parse(pgno, b, false).value;
    }

    /** A buffer to edit page `pgno` in, to be stored back. */
    method LoadPage(pgno: u32) returns (a: array<byte>)
      requires Core() && 1 <= pgno < |P|
      ensures fresh(a) && a.Length == psize && Packed(a[..], false, P[pgno])
    {
      hide Packed, PageOff;
      assert PackedAt(pages, psize, false, pgno, P[pgno]);
      var b := PageBytes(pages, psize, pgno);
      a := new byte[psize](i requires 0 <= i < |b| => b[i]);
      assert a[..] == b;
    }

    method ReplacePage(pgno: u32, buf: Bytes, ghost pg: Page)
      requires Core() && 1 <= pgno < |P|
      requires |buf| == psize && Packed(buf, false, pg)
      modifies this`pages, this`P
      ensures Core() && P == old(P)[pgno := pg]
    {
      hide Packed, PageOff;
      ReplaceStores(pages, psize, false, P, pgno, buf, pg);
      pages := Replace(pages, psize, pgno, buf);
      P := P[pgno := pg];
    }

    method PushPage(buf: Bytes, ghost pg: Page) returns (pgno: u32)
      requires Core() && |P| < PAGE_LIMIT
      requires |buf| == psize && Packed(buf, false, pg)
      modifies this`pages, this`P
      ensures Core() && P == old(P) + [pg] && pgno == old(|P|)
    {
      hide Packed, PageOff;
      pgno := PageCount();
      PushStores(pages, psize, false, P, buf, pg);
      pages := pages + buf;
      P := P + [pg];
    }

    method LinkPrev(pgno: u32, v: u32)
      requires Core() && 1 <= pgno < |P|
      modifies this`pages, this`P
      ensures Core() && P == old(P)[pgno := old(P[pgno]).(prev := v)]
    {
      hide Packed, Stores;
      var a := LoadPage(pgno);
      SetPrevPg(a, v, P[pgno]);
      ReplacePage(pgno, a[..], P[pgno].(prev := v));
    }

    method LinkNext(pgno: u32, v: u32)
      requires Core() && 1 <= pgno < |P|
      modifies this`pages, this`P
      ensures Core() && P == old(P)[pgno := old(P[pgno]).(next := v)]
    {
      hide Packed, Stores;
      var a := LoadPage(pgno);
      SetNextPg(a, v, P[pgno]);
      ReplacePage(pgno, a[..], P[pgno].(next := v));
    }

    // ----- descent -----

    /** The slot of internal page `current` to follow for `key`, and its child. */
    method PickChild(current: u32, view: PageView, key: Bytes) returns (chosen: nat, child: u32)
      requires Core() && Inv(P, R) && 1 <= current < |P| && !P[current].leaf
      requires Packed(view.bytes, false, P[current]) && view == ViewOf(current, view.bytes, false, P[current])
      ensures Picks(P[current].entries, key, chosen) && chosen < |P[current].entries|
      ensures P[current].entries[chosen].Sep? && child == P[current].entries[chosen].child
    {
      hide Packed, Stores, Lt, Picks, Inv, PageView.InternalEntryAt;
      NodeShape(P, R, current);
      var leftmost := view.prevPg == P_INVALID;
      chosen := DescendInternalPick(view, key, leftmost, view.bytes, P[current]);
      PicksInRange(P[current].entries, key, chosen);
      SepDecodes(current, view.bytes, false, P[current], chosen);
      child := view.InternalEntryAt(chosen).value.child;
    }

    /** Walk from the root to the leaf that owns `key`. */
    method Descend(key: Bytes) returns (path: seq<Hop>, leafPgno: u32)
      requires Core() && Inv(P, R)
      ensures 1 <= leafPgno < |P| && SpineOk(P, R, path, leafPgno) && P[leafPgno].leaf && Within(R[leafPgno], key)
    {
      hide Packed, Stores, Lt, Picks, SpineOk, Inv, Within, Parse, PageView.IsLeaf, PageView.IsInternal, Inv,
          PagesHalfBounded;
      path := [];
      var current := P_ROOT;
      RootOwnsAll(P, R, key);
      SpineEmpty(P, R);
      while true
        invariant 1 <= current < |P| && SpineOk(P, R, path, current) && Within(R[current], key)
        decreases R[current].level
      {
        var view := ViewPage(current);
        ParsePacked(current, view.bytes, false, P[current]);
        if view.IsLeaf() {
          return path, current;
        }
        var chosen, child := PickChild(current, view, key);
        SpineExtend(P, R, path, current, key, chosen);
        path := path + [Hop(current, chosen)];
        current := child;
      }
    }

    // ----- leaf splits -----

    /** Split a non-root leaf around its new record. */
    method SplitNonRootLeaf(leafPgno: u32, skip: nat, key: Bytes, val: Bytes) returns (sep: Separator, ghost cut: nat)
      requires Core() && |P| < PAGE_LIMIT && 2 <= leafPgno < |P|
      requires LeafSplitPre(P, leafPgno, skip, key, val, psize)
      modifies this`pages, this`P
      ensures Core() && LeafSplitDone(old(P), P, leafPgno, skip, Leaf(key, val), cut, sep)
      ensures ChosenCut(old(P[leafPgno]), skip, Leaf(key, val), psize, cut)
    {
      hide Packed, Stores, CutPages, PagesHalfBounded, LeafSplitDone, EntrySize, PlannedCut;
      var view := ViewPage(leafPgno);
      if view.nextPg == P_INVALID && skip == view.nentries {
        cut := view.nentries;
        sep := SplitLeafSortedOpt(leafPgno, key, val);
      } else {
        sep, cut := SplitLeafFull(leafPgno, skip, key, val);
      }
    }

    /** The sorted-append shortcut: the rightmost leaf stays as it is and a fresh
        leaf holds the new record alone. */
    method SplitLeafSortedOpt(leafPgno: u32, key: Bytes, val: Bytes) returns (sep: Separator)
      requires Core() && |P| < PAGE_LIMIT && 2 <= leafPgno < |P|
      requires LeafSplitPre(P, leafPgno, |P[leafPgno].entries|, key, val, psize)
      requires P[leafPgno].next == P_INVALID
      modifies this`pages, this`P
      ensures Core()
      ensures LeafSplitDone(old(P), P, leafPgno, old(|P[leafPgno].entries|), Leaf(key, val),
          old(|P[leafPgno].entries|), sep)
    {
      hide Packed, Stores, PagesHalfBounded, EntrySize, Used;
      var view := ViewPage(leafPgno);
      var n := view.nentries;
      LeafDecodes(leafPgno, view.bytes, false, P[leafPgno], n - 1);
      var lLastKey := view.InlineBytes(view.LeafEntryAt(n - 1).value.key).value;

      var rPgno := PageCount();
      var r := BuildOnlyLeaf(rPgno, leafPgno, key, val, psize);
      LinkNext(leafPgno, rPgno);
      var pushed := PushPage(r[..], Page(rPgno, leafPgno, P_INVALID, true, [Leaf(key, val)]));
      sep := LeafSep(key, rPgno, lLastKey);
      AppendCut(old(P), leafPgno, Leaf(key, val));
    }

    /** The byte-balanced split of a leaf over its own page and a fresh one. */
    method SplitLeafFull(leafPgno: u32, skip: nat, key: Bytes, val: Bytes) returns (sep: Separator, ghost cut: nat)
      requires Core() && |P| < PAGE_LIMIT && 2 <= leafPgno < |P|
      requires LeafSplitPre(P, leafPgno, skip, key, val, psize)
      modifies this`pages, this`P
      ensures Core() && LeafSplitDone(old(P), P, leafPgno, skip, Leaf(key, val), cut, sep)
      ensures PlannedCut(old(P[leafPgno]), skip, Leaf(key, val), psize, cut)
    {
      hide Packed, Stores, PagesHalfBounded, EntrySize, AllHalfBounded, FreeSpace, PlannedCut;
      var rPgno := PageCount();
      var view := ViewPage(leafPgno);
      ghost var pg, e := P[leafPgno], Leaf(key, val);
      var l, r;
      l, r, cut := BuildLeafHalves(view, skip, key, val, psize, leafPgno, view.prevPg, rPgno, view.nextPg,
          view.bytes, pg);
      ghost var all := InsertAt(pg.entries, skip, e);
      ghost var lpg := Page(leafPgno, view.prevPg, rPgno, true, all[..cut]);
      ghost var rpg := Page(rPgno, leafPgno, view.nextPg, true, all[cut..]);

      var lLastKey := LeafLastKey(l[..], lpg);
      var rFirstKey := LeafFirstKey(r[..], rpg);
      ReplacePage(leafPgno, l[..], lpg);
      var pushed := PushPage(r[..], rpg);
      assert pushed == rPgno;
      if view.nextPg != P_INVALID {
        LinkPrev(view.nextPg, rPgno);
      }
      sep := LeafSep(rFirstKey, rPgno, lLastKey);
    }

    // ----- root splits -----

    /** Commit a root split: the two halves become new pages and the root page is
        rewritten in place over them. */
    method PromoteRoot(lPgno: u32, rPgno: u32, rFirstKey: Bytes, l: Bytes, r: Bytes, ghost lpg: Page, ghost rpg: Page)
      requires Core() && |P| + 2 <= PAGE_LIMIT && lPgno == |P| && rPgno == |P| + 1
      requires |l| == psize && Packed(l, false, lpg) && |r| == psize && Packed(r, false, rpg)
      requires Fits(RootEntries(lPgno, rPgno, rFirstKey), psize)
      modifies this`pages, this`P
      ensures Core()
      ensures P == old(P)[1 := old(P[1]).(leaf := false, entries := RootEntries(lPgno, rPgno, rFirstKey))] + [lpg, rpg]
    {
      hide Packed, Stores, PagesHalfBounded, EntrySize, AllHalfBounded, Fits, RootEntries;
      var newRoot := LoadPage(P_ROOT);
      ghost var pg := P[1];
      ConvertRootToInternal(newRoot, psize, lPgno, rPgno, rFirstKey, pg);
      var lPushed := PushPage(l, lpg);
      assert lPushed == lPgno;
      var rPushed := PushPage(r, rpg);
      assert rPushed == rPgno;
      ReplacePage(P_ROOT, newRoot[..], pg.(leaf := false, entries := RootEntries(lPgno, rPgno, rFirstKey)));
    }

    /** Split the root leaf around its new record. */
    method SplitRootLeaf(skip: nat, key: Bytes, val: Bytes) returns (ghost cut: nat)
      requires Core() && |P| + 2 <= PAGE_LIMIT && RootPage(P) && P[1].leaf
      requires Overfull(P[1], skip, Leaf(key, val), psize)
      modifies this`pages, this`P
      ensures Core() && RootSplitDone(old(P), P, skip, Leaf(key, val), cut)
      ensures PlannedCut(old(P[1]), skip, Leaf(key, val), psize, cut)
    {
      hide Packed, Stores, PagesHalfBounded, EntrySize, AllHalfBounded, FreeSpace, PlannedCut;
      var lPgno := PageCount();
      var rPgno := lPgno + 1;
      var view := ViewPage(P_ROOT);
      ghost var pg, e := P[1], Leaf(key, val);
      var l, r;
      l, r, cut := BuildLeafHalves(view, skip, key, val, psize, lPgno, P_INVALID, rPgno, P_INVALID, view.bytes, pg);
      ghost var all := InsertAt(pg.entries, skip, e);
      ghost var lpg := Page(lPgno, P_INVALID, rPgno, true, all[..cut]);
      ghost var rpg := Page(rPgno, lPgno, P_INVALID, true, all[cut..]);
      var rFirstKey := LeafFirstKey(r[..], rpg);
      RootFits(pg, skip, e, cut, lPgno, rPgno, psize);
      PromoteRoot(lPgno, rPgno, rFirstKey, l[..], r[..], lpg, rpg);
    }

    /** Split the internal root around its new separator. */
    method SplitRootInternal(skip: nat, sep: Separator, nksize: nat) returns (ghost cut: nat)
      requires Core() && |P| + 2 <= PAGE_LIMIT && RootPage(P) && !P[1].leaf && nksize <= |sep.sepKey|
      requires Overfull(P[1], skip, Sep(sep.sepKey[..nksize], sep.child), psize)
      modifies this`pages, this`P
      ensures Core() && RootSplitDone(old(P), P, skip, Sep(sep.sepKey[..nksize], sep.child), cut)
      ensures PlannedCut(old(P[1]), skip, Sep(sep.sepKey[..nksize], sep.child), psize, cut)
    {
      hide Packed, Stores, PagesHalfBounded, EntrySize, AllHalfBounded, FreeSpace, PlannedCut;
      var lPgno := PageCount();
      var rPgno := lPgno + 1;
      var view := ViewPage(P_ROOT);
      ghost var pg, e := P[1], Sep(sep.sepKey[..nksize], sep.child);
      var l, r;
      l, r, cut := BuildInternalHalves(view, skip, nksize, sep.sepKey, sep.child, psize, lPgno, P_INVALID, rPgno,
          P_INVALID, view.bytes, pg);
      ghost var all := InsertAt(pg.entries, skip, e);
      ghost var lpg := Page(lPgno, P_INVALID, rPgno, false, all[..cut]);
      ghost var rpg := Page(rPgno, lPgno, P_INVALID, false, all[cut..]);
      var rFirstKey := FirstInternalKey(r[..], rpg);
      RootFits(pg, skip, e, cut, lPgno, rPgno, psize);
      PromoteRoot(lPgno, rPgno, rFirstKey, l[..], r[..], lpg, rpg);
    }

    // ----- inserting a separator into a parent -----

    /** Insert `sep` in slot `skip` of an internal page: in place, by a root split,
        or by a split whose own separator the caller must propagate. */
    method TryInsertInternal(parentPgno: u32, skip: nat, sep: Separator) returns (newSep: Option<Separator>,
        ghost cut: nat)
      requires Core() && |P| + 2 <= PAGE_LIMIT && 1 <= parentPgno < |P|
      requires SepInsertPre(P, parentPgno, skip, sep, psize)
      modifies this`pages, this`P
      ensures Core()
      ensures SepInsertDone(old(P), P, parentPgno, skip, sep, newSep, cut, psize)
    {
      hide Packed, Stores, PagesHalfBounded, EntrySize, AllHalfBounded, Separator.EncodedSize, Separator.Stored,
          PlannedCut,
           FreeSpace;
      var parent := ViewPage(parentPgno);
      ghost var pg, P0 := P[parentPgno], P;
      var (nksize, nbytes) := sep.EncodedSize(parent.prevPg, skip);
      StoredSeparates(sep, parent.prevPg, skip);
      ghost var e := Sep(sep.sepKey[..nksize], sep.child);
      PackedConserves(parent.bytes, false, pg);
      PackedBounds(parent.bytes, false, pg);
      cut := 0;
      if Upper(parent.bytes) - Lower(parent.bytes) >= nbytes + 2 {
        var a := LoadPage(parentPgno);
        InsertInternalInPlace(a, skip, nksize, sep.sepKey, sep.child, pg);
        ReplacePage(parentPgno, a[..], pg.(entries := InsertAt(pg.entries, skip, e)));
        return None, 0;
      }
      if parentPgno == P_ROOT {
        cut := SplitRootInternal(skip, sep, nksize);
        return None, cut;
      }
      if parent.nextPg == P_INVALID && skip == parent.nentries {
        var up := SplitInternalSortedOpt(parentPgno, sep, nksize);
        return Some(up), skip;
      }
      var up;
      up, cut := SplitInternalPage(parentPgno, skip, sep, nksize);
      return Some(up), cut;
    }

    /** The sorted-append shortcut for the rightmost internal page of a level. */
    method SplitInternalSortedOpt(parentPgno: u32, sep: Separator, nksize: nat) returns (up: Separator)
      requires Core() && |P| < PAGE_LIMIT && 2 <= parentPgno < |P| && nksize <= |sep.sepKey|
      requires !P[parentPgno].leaf && P[parentPgno].next == P_INVALID && P[parentPgno].entries != []
      requires P[parentPgno].pgno == parentPgno
      requires HalfBounded(Sep(sep.sepKey[..nksize], sep.child), psize)
      modifies this`pages, this`P
      ensures Core()
      ensures InternalSplitDone(old(P), P, parentPgno, old(|P[parentPgno].entries|),
                                Sep(sep.sepKey[..nksize], sep.child), old(|P[parentPgno].entries|), up)
    {
      hide Packed, Stores, PagesHalfBounded, EntrySize, AllHalfBounded, HalfBounded;
      var rPgno := PageCount();
      var r := BuildOnlyInternal(rPgno, parentPgno, nksize, sep.sepKey, sep.child, psize);
      ghost var e := Sep(sep.sepKey[..nksize], sep.child);
      LinkNext(parentPgno, rPgno);
      var pushed := PushPage(r[..], Page(rPgno, parentPgno, P_INVALID, false, [e]));
      up := InternalSep(sep.sepKey, rPgno, nksize);
      AppendCut(old(P), parentPgno, e);
    }

    /** The byte-balanced split of a non-root internal page. */
    method SplitInternalPage(parentPgno: u32, skip: nat, sep: Separator, nksize: nat) returns (up: Separator,
        ghost cut: nat)
      requires Core() && |P| < PAGE_LIMIT && 2 <= parentPgno < |P| && nksize <= |sep.sepKey|
      requires !P[parentPgno].leaf && P[parentPgno].pgno == parentPgno
      requires P[parentPgno].next == P_INVALID || 1 <= P[parentPgno].next < |P|
      requires P[parentPgno].next != parentPgno
      requires Overfull(P[parentPgno], skip, Sep(sep.sepKey[..nksize], sep.child), psize)
      modifies this`pages, this`P
      ensures Core()
      ensures InternalSplitDone(old(P), P, parentPgno, skip, Sep(sep.sepKey[..nksize], sep.child), cut, up)
      ensures PlannedCut(old(P[parentPgno]), skip, Sep(sep.sepKey[..nksize], sep.child), psize, cut)
    {
      hide Packed, Stores, PagesHalfBounded, EntrySize, AllHalfBounded, FreeSpace, PlannedCut;
      var rPgno := PageCount();
      var view := ViewPage(parentPgno);
      ghost var pg, e := P[parentPgno], Sep(sep.sepKey[..nksize], sep.child);
      var l, r;
      l, r, cut := BuildInternalHalves(view, skip, nksize, sep.sepKey, sep.child, psize, parentPgno, view.prevPg,
          rPgno, view.nextPg, view.bytes, pg);
      ghost var all := InsertAt(pg.entries, skip, e);
      ghost var lpg := Page(parentPgno, view.prevPg, rPgno, false, all[..cut]);
      ghost var rpg := Page(rPgno, parentPgno, view.nextPg, false, all[cut..]);
      var rFirstKey := FirstInternalKey(r[..], rpg);
      ReplacePage(parentPgno, l[..], lpg);
      var pushed := PushPage(r[..], rpg);
      assert pushed == rPgno;
      if view.nextPg != P_INVALID {
        LinkPrev(view.nextPg, rPgno);
      }
      up := InternalSep(rFirstKey, rPgno, |rFirstKey|);
      assert rFirstKey[..|rFirstKey|] == rFirstKey;
    }

    /** Insert `sep` at each level up the spine, splitting parents as needed. */
    method PropagateSeparator(spine: seq<Hop>, sep0: Separator, ghost child: u32)
      requires Core() && PagesHalfBounded(P, psize) && 2 <= |R| && Pending(P, R, m, spine, child, sep0)
      requires spine != [] && 1 <= spine[|spine| - 1].pgno < |P|
      requires sep0.Ok() && HalfBounded(Owed(P, spine[|spine| - 1], sep0), psize)
      requires |P| + |spine| + 1 <= PAGE_LIMIT
      modifies this`pages, this`P, this`R
      ensures Core() && Inv(P, R) && Denotes(P, m) && PagesHalfBounded(P, psize)
      ensures Propagated(old(P), P, spine, sep0, psize)
      ensures 2 <= |R| && R[1].level <= old(R[1].level) + 1
    {
      hide Packed, Stores, Inv, Denotes, SpineOk, EntrySize, PagesHalfBounded, Virtual, SepInsertPre, SepInsertDone,
           Separator.Ok, Pending, Owed, HalfBounded, Propagated;
      var path, sep := spine, sep0;
      ghost var last := child;
      while true
        invariant Core() && PagesHalfBounded(P, psize) && Pending(P, R, m, path, last, sep) && path != []
        invariant 1 <= path[|path| - 1].pgno < |P|
        invariant sep.Ok() && HalfBounded(Owed(P, path[|path| - 1], sep), psize)
        invariant |P| + |path| + 1 <= PAGE_LIMIT
        invariant 2 <= |R| && R[1].level == old(R[1].level)
        invariant forall Q :: Propagated(P, Q, path, sep, psize) ==> Propagated(old(P), Q, spine, sep0, psize)
        decreases |path|
      {
        var h := path[|path| - 1];
        ghost var P0, path0 := P, path;
        path := path[..|path| - 1];
        PendingInsert(P, R, m, path0, last, sep, psize);
        SepBounds(P0, h.pgno, h.slot + 1, sep, psize);
        var newSep, cut := TryInsertInternal(h.pgno, h.slot + 1, sep);
        HalfAfterSep(P0, P, h.pgno, h.slot + 1, sep, newSep, cut, psize);
        match newSep {
          case None =>
            R := PendingDone(P0, P, R, m, path0, last, sep, cut, psize);
            PropagatedDone(P0, P, path0, sep, cut, psize);
            return;
          case Some(up) =>
            forall Q | Propagated(P, Q, path, up, psize) ensures Propagated(old(P), Q, spine, sep0, psize) {
              PropagatedUp(P0, P, Q, path0, sep, up, cut, psize);
            }
            R := PendingSplit(P0, P, R, m, path0, last, sep, up, cut, psize);
            sep, last := up, h.pgno;
        }
      }
    }

    // ----- public operations -----

    /** A fresh writer over an empty root leaf. */
    constructor CreateNew()
      ensures Valid() && m == map[] && psize == DEFAULT_PSIZE && flags == B_NODUPS
      ensures free == P_INVALID && nrecs == 0
      ensures P[1] == Page(P_ROOT, P_INVALID, P_INVALID, true, []) && |P| == 2 <= |R| && Height() == 0
      ensures PagesHalfBounded(P, psize)
    {
      psize := DEFAULT_PSIZE;
      free, nrecs, flags := P_INVALID, 0, B_NODUPS;
      pages := [];
      m := map[];
      R := [Region([], None, 0), Region([], None, 0)];
      P := [];
      new;
      EmptyTree();
      var root := EmptyPage(P_ROOT, DEFAULT_PSIZE, true);
      ghost var pg := Page(P_ROOT, P_INVALID, P_INVALID, true, []);
      var zeros := seq(DEFAULT_PSIZE, i => 0 as byte);
      PushStores(zeros, DEFAULT_PSIZE, false, [pg], root[..], pg);
      pages := zeros + root[..];
      P := [pg, pg];
      assert [pg] + [pg] == P;
    }

    /** What `Put` asks of its caller: the entry is refused, or its key is bound, or
        its leaf has room for it; else, since pages may be split all the way up, no
        entry may be more than half a page and the page numbers must suffice. */
    ghost predicate CanPut(key: Bytes, val: Bytes)
      reads this
    {
      || TooLarge(key, val, psize) || key in m || Roomy(P, R, Leaf(key, val), psize)
      || (HalfBounded(Leaf(key, val), psize) && PagesHalfBounded(P, psize) && HasPages())
    }

    /** Insert `key` unless it is bound; says whether it was inserted. */
    method Put(key: Bytes, val: Bytes) returns (r: Result<bool>)
      requires Valid() && CanPut(key, val)
      modifies this
      ensures Valid()
      ensures TooLarge(key, val, psize) ==>
                && r == Failure(EntryTooLarge(|key|, |val|))
                && pages == old(pages) && P == old(P) && R == old(R) && m == old(m)
      ensures !TooLarge(key, val, psize) && key in old(m) ==>
                && r == Success(false)
                && pages == old(pages) && P == old(P) && R == old(R) && m == old(m)
      ensures !TooLarge(key, val, psize) && key !in old(m) ==>
                && r == Success(true)
                && Inserted(old(P), old(R), P, Leaf(key, val), psize) && m == old(m)[key := val]
      ensures old(PagesHalfBounded(P, psize)) && HalfBounded(Leaf(key, val), psize) ==> PagesHalfBounded(P, psize)
      ensures 2 <= |R| && 2 <= |old(R)| && Height() <= old(R)[1].level + 1
    {
      hide Packed, Stores, Inv, Denotes, SpineOk, EntrySize, PagesHalfBounded, Within, SortsAt, TooLarge, Inserted,
          InsertedAt, HalfBounded, LeafSplitDone, RootSplitDone, Pending, Overfull, LeafSplitPre, FreeSpace, RootPage,
          AllHalfBounded, PlannedCut, ChosenCut, Propagated, Roomy, AlignEntry, U16At, InsertAt, Payload;
      RegionCount(P, R);
      if TooLarge(key, val, psize) {
        return Failure(EntryTooLarge(|key|, |val|));
      }
      var path, leafPgno := Descend(key);
      var leaf := ViewPage(leafPgno);
      ghost var pg, e, P0 := P[leafPgno], Leaf(key, val), P;
      NodeShape(P, R, leafPgno);
      var exact, idx := LeafSearch(leaf, key, leaf.bytes, pg);
      if exact {
        BoundAt(P, R, leafPgno, idx, m);
        return Success(false);
      }
      SortsInRange(pg.entries, idx, key);
      InsertKeepsInv(P, R, leafPgno, idx, key, val);
      InsertAddsBinding(P, R, leafPgno, idx, key, val, m);
      ghost var m0 := m;
      m := m[key := val];
      RoomFor(leaf.bytes, pg, key, val);
      if Upper(leaf.bytes) - Lower(leaf.bytes) >= AlignEntry(BLEAF_HEADER_SIZE + |key| + |val|) + 2 {
        var a := LoadPage(leafPgno);
        InsertLeafEntry(a, idx, key, val, pg);
        ReplacePage(leafPgno, a[..], pg.(entries := InsertAt(pg.entries, idx, e)));
        InsertedInPlace(P0, R, e, psize, path, leafPgno, idx);
        return Success(true);
      }
      NotRoomy(P, R, e, psize, leafPgno);
      PageIsHalfBounded(P, leafPgno, psize);
      IsOverfull(pg, idx, e, psize);
      if leafPgno == P_ROOT {
        RootIsRootPage(P, R);
        ghost var cut := SplitRootLeaf(idx, key, val);
        InsertedInRoot(P0, R, P, e, psize, path, idx, cut);
        HalfAfterRoot(P0, P, idx, e, cut, psize);
        R := RootSplitInv(P0, P, R, m, idx, e, cut);
        return Success(true);
      }
      LeafSplitReady(P, R, leafPgno, idx, key, val, psize);
      var sep, cut := SplitNonRootLeaf(leafPgno, idx, key, val);
      HalfAfterLeaf(P0, P, leafPgno, idx, e, cut, sep, psize);
      ghost var R0, Q := R, P;
      R := LeafSplitPending(P0, P, R, m, path, leafPgno, idx, e, cut, sep, psize);
      PropagateSeparator(path, sep, leafPgno);
      InsertedAbove(P0, R0, Q, P, e, psize, path, leafPgno, idx, cut, sep);
      return Success(true);
    }

    /** Remove the record of `key`; says whether there was one. */
    method Del(key: Bytes) returns (r: Result<bool>)
      requires Valid()
      modifies this
      ensures Valid()
      ensures r == Success(key in old(m)) && m == old(m) - {key} && R == old(R)
      ensures key !in old(m) ==> pages == old(pages) && P == old(P)
      ensures key in old(m) ==> Removed(old(P), P, key)
      ensures old(PagesHalfBounded(P, psize)) ==> PagesHalfBounded(P, psize)
    {
      hide Packed, Stores, Inv, Denotes, SpineOk, EntrySize, PagesHalfBounded, Within, SortsAt;
      var path, leafPgno := Descend(key);
      var leaf := ViewPage(leafPgno);
      ghost var pg, P0 := P[leafPgno], P;
      NodeShape(P, R, leafPgno);
      var exact, idx := LeafSearch(leaf, key, leaf.bytes, pg);
      if !exact {
        UnboundAt(P, R, leafPgno, idx, key, m);
        return Success(false);
      }
      BoundAt(P, R, leafPgno, idx, m);
      DeleteKeepsInv(P, R, leafPgno, idx);
      DeleteDropsBinding(P, R, leafPgno, idx, m);
      var a := LoadPage(leafPgno);
      DeleteLeafEntry(a, idx, pg);
      ReplacePage(leafPgno, a[..], pg.(entries := RemoveAt(pg.entries, idx)));
      if PagesHalfBounded(P0, psize) {
        HalfAfterRemove(P0, leafPgno, idx, psize);
      }
      m := m - {key};
      return Success(true);
    }

    /** The file: the meta page, then every page of the arena. */
    method Finish() returns (file: Bytes)
      requires Valid()
      ensures Stores(file, psize, false, P)
      ensures psize <= |file| && MetaWords(file[..psize], false, psize, free, nrecs, flags)
      ensures |file| == |pages| == PageOff(psize, |P|) && file[psize..] == pages[psize..]
    {
      hide Packed, Inv, Denotes, PagesHalfBounded, MetaWords;
      ModOfProduct(|P|, psize);
      assert |pages| != 0 && |pages| % psize == 0;
      var meta := BuildMeta(psize, free, nrecs, flags);
      PageOffs(psize, 0, |P|);
      PageOffs(psize, 1, |P|);
      file := Replace(pages, psize, 0, meta[..]);
      MetaReplaced(pages, psize, false, P, meta[..]);
    }
  }

  lemma CountPages(psize: nat, n: nat)
    requires psize > 0
    ensures PageOff(psize, n) / psize == n
  {
    DivOfProduct(n, psize);
  }

  lemma NodeShape(P: seq<Page>, R: seq<Region>, p: nat)
    requires Inv(P, R) && 1 <= p < |P|
    ensures SortedKeys(P[p].entries) && Kind(P[p]) && P[p].pgno == p
    ensures P[p].leaf || P[p].entries != []
  {
    hide Lt;
    assert NodeOk(P, R, p);
  }

  lemma SpineEmpty(P: seq<Page>, R: seq<Region>)
    requires Inv(P, R)
    ensures SpineOk(P, R, [], P_ROOT)
  {
  }

  // ----- put and del at the leaf -----

  /** What `put` compares to see whether the leaf has room. */
  lemma RoomFor(b: Bytes, pg: Page, key: Bytes, val: Bytes)
    requires Packed(b, false, pg)
    ensures PageSized(b) && Upper(b) - Lower(b) == FreeSpace(pg.entries, |b|) >= 0
    ensures AlignEntry(BLEAF_HEADER_SIZE + |key| + |val|) == EntrySize(Leaf(key, val))
  {
    hide Packed, EntrySize, AlignEntry, Used, U16At;
    LeafSize(key, val);
    PackedConserves(b, false, pg);
    PackedBounds(b, false, pg);
  }

  lemma BoundAt(P: seq<Page>, R: seq<Region>, p: nat, idx: nat, m: map<Bytes, Bytes>)
    requires Inv(P, R) && Denotes(P, m) && 1 <= p < |P| && P[p].leaf && idx < |P[p].entries|
    ensures P[p].entries[idx].key in m
  {
    hide Lt, Denotes;
    assert NodeOk(P, R, p) && Within(R[p], P[p].entries[idx].key);
    BoundInOwner(P, R, p, P[p].entries[idx].key, m);
  }

  lemma UnboundAt(P: seq<Page>, R: seq<Region>, p: nat, idx: nat, key: Bytes, m: map<Bytes, Bytes>)
    requires Inv(P, R) && Denotes(P, m) && 1 <= p < |P| && P[p].leaf && Within(R[p], key)
    requires SortsAt(P[p].entries, idx, key)
    ensures key !in m && m - {key} == m
  {
    hide Lt, Denotes, Inv;
    OrderLaws();
    BoundInOwner(P, R, p, key, m);
  }

  lemma IsOverfull(pg: Page, skip: nat, e: Entry, psize: nat)
    requires MIN_PSIZE <= psize <= MAX_PSIZE && skip <= |pg.entries|
    requires AllHalfBounded(pg.entries, psize) && HalfBounded(e, psize)
    requires 0 <= FreeSpace(pg.entries, psize) < EntrySize(e) + 2
    ensures Overfull(pg, skip, e, psize)
  {
  }

  lemma RootIsRootPage(P: seq<Page>, R: seq<Region>)
    requires Inv(P, R)
    ensures RootPage(P)
  {
    hide Lt;
    assert NodeOk(P, R, 1) && SibOk(P, R, 1);
  }

  lemma EmptyTree()
    ensures var pg := Page(P_ROOT, P_INVALID, P_INVALID, true, []);
      Inv([pg, pg], [Region([], None, 0), Region([], None, 0)]) && Denotes([pg, pg], map[])
    ensures PagesHalfBounded([Page(P_ROOT, P_INVALID, P_INVALID, true, []),
        Page(P_ROOT, P_INVALID, P_INVALID, true, [])], DEFAULT_PSIZE)
  {
  }

  /** Overwriting page 0 leaves the stored pages. */
  lemma MetaReplaced(pages: Bytes, psize: nat, swap: bool, P: seq<Page>, meta: Bytes)
    requires Stores(pages, psize, swap, P) && 1 <= |P| && |meta| == psize
    ensures psize <= |pages| && PageOff(psize, 0) == 0
    ensures Stores(Replace(pages, psize, 0, meta), psize, swap, P)
    ensures |Replace(pages, psize, 0, meta)| >= psize && Replace(pages, psize, 0, meta)[..psize] == meta
  {
    hide Packed;
    PageOffs(psize, 0, |P|);
    forall p | 1 <= p < |P| ensures PackedAt(Replace(pages, psize, 0, meta), psize, swap, p, P[p]) {
      PageOffs(psize, p, |P|);
      PageOffs(psize, 0, p);
      assert PackedAt(pages, psize, swap, p, P[p]);
      ReplacedPage(pages, psize, 0, meta, p);
    }
  }

  /** The two separators of a promoted root fit its page. */
  lemma RootFits(pg: Page, skip: nat, e: Entry, cut: nat, lPgno: u32, rPgno: u32, psize: nat)
    requires MIN_PSIZE <= psize && skip <= |pg.entries| && AllHalfBounded(pg.entries, psize) && HalfBounded(e, psize)
    requires cut <= |pg.entries|
    ensures Fits(RootEntries(lPgno, rPgno, InsertAt(pg.entries, skip, e)[cut].key), psize)
  {
    hide EntrySize, Used;
    var all := InsertAt(pg.entries, skip, e);
    InsertedHalfBounded(pg.entries, skip, e, psize);
    assert HalfBounded(all[cut], psize);
    KeyIsHalfBounded(all[cut], rPgno, psize);
    RootUsed(lPgno, rPgno, all[cut].key);
  }

  method LeafFirstKey(b: Bytes, ghost pg: Page) returns (key: Bytes)
    requires Packed(b, false, pg) && pg.leaf && pg.entries != []
    ensures key == pg.entries[0].key
  {
    hide Packed, Parse, PageView.LeafEntryAt;
    ParsePacked(0, b, false, pg);
    LeafDecodes(0, b, false, pg, 0);
    var view := Parse(0, b, false).value;
    key := view.InlineBytes(view.LeafEntryAt(0).value.key).value;
  }

  method LeafLastKey(b: Bytes, ghost pg: Page) returns (key: Bytes)
    requires Packed(b, false, pg) && pg.leaf && pg.entries != []
    ensures key == pg.entries[|pg.entries| - 1].key
  {
    hide Packed, Parse, PageView.LeafEntryAt;
    ParsePacked(0, b, false, pg);
    var view := Parse(0, b, false).value;
    var last := view.nentries - 1;
    LeafDecodes(0, b, false, pg, last);
    key := view.InlineBytes(view.LeafEntryAt(last).value.key).value;
  }

  method FirstInternalKey(b: Bytes, ghost pg: Page) returns (key: Bytes)
    requires Packed(b, false, pg) && !pg.leaf && pg.entries != []
    ensures key == pg.entries[0].key
  {
    hide Packed, Parse, PageView.InternalEntryAt;
    ParsePacked(0, b, false, pg);
    SepDecodes(0, b, false, pg, 0);
    var view := Parse(0, b, false).value;
    key := view.InlineBytes(view.InternalEntryAt(0).value.key).value;
  }
}
