/** Lookup by key over the bytes of a file. */
module Reader {
  import opened Bytes
  import opened Errors
  import opened Format
  import opened Entries
  import opened PageViews
  import opened Layout
  import opened Tree
  import opened Contents
  import opened PageSearch
  import opened Arena
  import opened Spines
  import opened Files
  import opened Overflow

  /** Location of a record. */
  datatype Position = Position(pgno: u32, index: nat)

  // ----- well-formed files -----

  /** The bytes an item of a page stands for: in the page, or along a chain. */
  function ItemBytes(db: Db, view: PageView, item: ItemRef): Result<Bytes>
    requires db.Opened()
  {
    match item
    case Inline(_, _) => view.InlineBytes(item)
    case Overflow(pgno, size) => db.Chain(pgno, pgno, size)
  }

  /** Slot `i` of the page reads as `e`; page `c` of the tree is page `at[c]` of the
      file, whose other pages may belong to overflow chains or to nothing. */
  ghost predicate EntryReads(db: Db, at: seq<u32>, view: PageView, i: nat, e: Entry)
    requires db.Opened()
  {
    match e
    case Leaf(k, v) =>
      var x := view.LeafEntryAt(i);
      && x.Success?
      && ItemBytes(db, view, x.value.key) == Success(k)
      && ItemBytes(db, view, x.value.data) == Success(v)
    case Sep(k, c) =>
      var x := view.InternalEntryAt(i);
      && x.Success? && c < |at| && x.value.child == at[c]
      && ItemBytes(db, view, x.value.key) == Success(k)
  }

  /** The page `view` of a file reads as `pg`. */
  ghost predicate IsView(db: Db, at: seq<u32>, view: PageView, pg: Page) {
    && db.Opened() && Kind(pg)
    && pg.pgno < |at| && pg.prev < |at| && pg.next < |at|
    && view.pgno == at[pg.pgno] && view.prevPg == at[pg.prev] && view.nextPg == at[pg.next]
    && view.IsLeaf() == pg.leaf && view.IsInternal() == !pg.leaf
    && view.nentries == |pg.entries|
    && forall i | 0 <= i < |pg.entries| :: EntryReads(db, at, view, i, pg.entries[i])
  }

  ghost predicate PageReads(db: Db, at: seq<u32>, p: nat, pg: Page)
    requires p < |at|
  {
    && db.GetPage(at[p]).Success?
    && var v := Parse(at[p], db.GetPage(at[p]).value, db.swap);
      v.Success? && IsView(db, at, v.value, pg)
  }

  /** The root is page 1, and no page of the tree is page 0, which marks the ends of
      the sibling chains. */
  predicate Numbering(at: seq<u32>, n: nat) {
    2 <= |at| == n && at[0] == P_INVALID && at[1] == P_ROOT && forall p | 1 <= p < n :: at[p] != P_INVALID
  }

  /** The file holds the tree `P`, whose pages own the regions `R`.  Keys and values
      may be inline or along overflow chains. */
  ghost predicate TreeFile(db: Db, P: seq<Page>, R: seq<Region>, at: seq<u32>) {
    && db.Opened() && Inv(P, R) && Numbering(at, |P|)
    && forall p | 1 <= p < |P| :: PageReads(db, at, p, P[p])
  }

  /** The numbering of a file that holds nothing but its tree. */
  function Plain(n: nat): (at: seq<u32>)
    requires n <= 0x1_0000_0000
    ensures |at| == n && forall p | 0 <= p < n :: at[p] == p
  {
    seq(n, i requires 0 <= i < n => i)
  }

  /** A packed page reads as the page it encodes. */
  lemma PackedReads(db: Db, at: seq<u32>, view: PageView, pg: Page, i: nat)
    requires db.Opened() && Packed(view.bytes, view.swap, pg) && i < |pg.entries|
    requires view == ViewOf(view.pgno, view.bytes, view.swap, pg)
    requires pg.entries[i].Sep? ==> pg.entries[i].child < |at| && at[pg.entries[i].child] == pg.entries[i].child
    ensures EntryReads(db, at, view, i, pg.entries[i])
  {
    hide Packed, PageView.LeafEntryAt, PageView.InternalEntryAt, PageView.InlineBytes, Db.Chain;
    if pg.leaf {
      LeafDecodes(view.pgno, view.bytes, view.swap, pg, i);
    } else {
      SepDecodes(view.pgno, view.bytes, view.swap, pg, i);
    }
  }

  lemma LinksInside(P: seq<Page>, R: seq<Region>, p: nat)
    requires Inv(P, R) && 1 <= p < |P|
    ensures P[p].pgno == p && P[p].prev < |P| && P[p].next < |P| && Kind(P[p])
    ensures forall i | 0 <= i < |P[p].entries| && P[p].entries[i].Sep? :: P[p].entries[i].child < |P|
  {
    hide Lt;
    assert NodeOk(P, R, p) && SibOk(P, R, p);
    forall i | 0 <= i < |P[p].entries| && P[p].entries[i].Sep? ensures P[p].entries[i].child < |P| {
      assert ChildOk(P, R, p, i);
    }
  }

  /** A file that stores its pages back to back is well-formed. */
  lemma StoredReads(db: Db, P: seq<Page>, R: seq<Region>)
    requires db.Opened() && Stores(db.mmap, db.psize, db.swap, P) && |P| <= 0x1_0000_0000 && Inv(P, R)
    ensures TreeFile(db, P, R, Plain(|P|))
  {
    hide Packed, PageOff, Parse, Inv, EntryReads, PageView.IsLeaf, PageView.IsInternal;
    RegionCount(P, R);
    var at := Plain(|P|);
    forall p | 1 <= p < |P| ensures PageReads(db, at, p, P[p]) {
      assert PackedAt(db.mmap, db.psize, db.swap, p, P[p]);
      LinksInside(P, R, p);
      var b := db.GetPage(p).value;
      ParsePacked(p, b, db.swap, P[p]);
      forall i | 0 <= i < |P[p].entries| ensures EntryReads(db, at, ViewOf(p, b, db.swap, P[p]), i, P[p].entries[i]) {
        PackedReads(db, at, ViewOf(p, b, db.swap, P[p]), P[p], i);
      }
    }
  }

  // ----- reading a page -----

  lemma RecordReads(db: Db, at: seq<u32>, view: PageView, pg: Page, i: nat)
    requires IsView(db, at, view, pg) && pg.leaf && i < |pg.entries|
    ensures pg.entries[i].Leaf? && db.Opened() && view.LeafEntryAt(i).Success?
    ensures ItemBytes(db, view, view.LeafEntryAt(i).value.key) == Success(pg.entries[i].key)
    ensures ItemBytes(db, view, view.LeafEntryAt(i).value.data) == Success(pg.entries[i].val)
  {
    hide ItemBytes, PageView.LeafEntryAt, PageView.InternalEntryAt;
    assert EntryReads(db, at, view, i, pg.entries[i]);
  }

  lemma SepReads(db: Db, at: seq<u32>, view: PageView, pg: Page, i: nat)
    requires IsView(db, at, view, pg) && !pg.leaf && i < |pg.entries|
    ensures pg.entries[i].Sep? && db.Opened() && view.InternalEntryAt(i).Success?
    ensures ItemBytes(db, view, view.InternalEntryAt(i).value.key) == Success(pg.entries[i].key)
    ensures pg.entries[i].child < |at| && view.InternalEntryAt(i).value.child == at[pg.entries[i].child]
  {
    hide ItemBytes, PageView.LeafEntryAt, PageView.InternalEntryAt;
    assert EntryReads(db, at, view, i, pg.entries[i]);
  }

  lemma ViewFields(db: Db, at: seq<u32>, view: PageView, pg: Page)
    requires IsView(db, at, view, pg)
    ensures view.nentries == |pg.entries| && pg.pgno < |at| && view.pgno == at[pg.pgno]
    ensures pg.next < |at| && view.nextPg == at[pg.next]
    ensures view.IsLeaf() == pg.leaf && view.IsInternal() == !pg.leaf
  {
    hide EntryReads;
  }

  /** Compare a key with an item of a page, inline or not. */
  method CompareItem(db: Db, key: Bytes, view: PageView, item: ItemRef) returns (r: Result<Ordering>)
    requires db.Opened()
    ensures ItemBytes(db, view, item).Success? ==> r == Success(Compare(key, ItemBytes(db, view, item).value))
    ensures item.Inline? && view.InlineBytes(item).Failure? ==> r == Failure(view.InlineBytes(item).error)
  {
    match item
    case Inline(_, _) =>
      var bytes :- view.InlineBytes(item);
      return Success(Compare(key, bytes));
    case Overflow(pgno, size) =>
      r := CompareOverflow(db, key, pgno, size);
  }

  /** The bytes of an item. */
  method Materialise(db: Db, view: PageView, item: ItemRef) returns (r: Result<Bytes>)
    requires db.Opened()
    ensures r == ItemBytes(db, view, item)
  {
    match item
    case Inline(_, _) => r := view.InlineBytes(item);
    case Overflow(pgno, size) => r := FetchOverflow(db, pgno, size);
  }

  /** Binary search of a leaf for an exact match.  Any page may be given; what is
      promised is about pages that read as sorted records. */
  method SearchLeaf(db: Db, view: PageView, key: Bytes, ghost at: seq<u32>, ghost pg: Page)
    returns (r: Result<Option<Position>>)
    requires db.Opened()
    ensures IsView(db, at, view, pg) && pg.leaf && SortedKeys(pg.entries) ==>
              && r.Success?
              && (r.value.Some? ==> r.value.value.pgno == view.pgno && r.value.value.index < |pg.entries|
                                    && pg.entries[r.value.value.index].key == key)
              && (r.value.None? ==> forall i | 0 <= i < |pg.entries| :: pg.entries[i].key != key)
  {
    hide Lt, IsView, PageView.LeafEntryAt, ItemBytes, PageView.InlineBytes, PageView.IsLeaf, PageView.IsInternal;
    OrderLaws();
    ghost var good := IsView(db, at, view, pg) && pg.leaf && SortedKeys(pg.entries);
    if good {
      ViewFields(db, at, view, pg);
    }
    var base, lim := 0, view.nentries;
    while lim > 0
      invariant 0 <= base && 0 <= lim && base + lim <= view.nentries
      invariant good ==> forall i | 0 <= i < base :: Lt(pg.entries[i].key, key)
      invariant good ==> forall i | base + lim <= i < |pg.entries| :: Lt(key, pg.entries[i].key)
    {
      var idx := base + lim / 2;
      if good {
        RecordReads(db, at, view, pg, idx);
      }
      var entry :- view.LeafEntryAt(idx);
      var cmp :- CompareItem(db, key, view, entry.key);
      match cmp {
        case Equal =>
          return Success(Some(Position(view.pgno, idx)));
        case Greater =>
          base := idx + 1;
          lim := lim - 1;
        case Less =>
      }
      lim := lim / 2;
    }
    return Success(None);
  }

  /** `r` is the file's page for the child at the slot that routes `key`. */
  ghost predicate PicksChild(at: seq<u32>, pg: Page, key: Bytes, slot: nat, r: Result<u32>) {
    && Picks(pg.entries, key, slot) && slot < |pg.entries| && pg.entries[slot].Sep?
    && pg.entries[slot].child < |at| && r == Success(at[pg.entries[slot].child])
  }

  /** The child of an internal page to descend into. */
  method DescendInternal(db: Db, view: PageView, key: Bytes, ghost at: seq<u32>, ghost pg: Page)
    returns (r: Result<u32>)
    requires db.Opened()
    ensures IsView(db, at, view, pg) && !pg.leaf && SortedKeys(pg.entries) && pg.entries != [] ==>
              exists slot: nat :: PicksChild(at, pg, key, slot, r)
  {
    hide Lt, IsView, PageView.InternalEntryAt, ItemBytes, PageView.InlineBytes, PageView.IsLeaf, PageView.IsInternal;
    OrderLaws();
    ghost var good := IsView(db, at, view, pg) && !pg.leaf && SortedKeys(pg.entries) && pg.entries != [];
    if good {
      ViewFields(db, at, view, pg);
    }
    var leftmostSpine := view.prevPg == P_INVALID;
    var base, lim := 0, view.nentries;
    var matched: Option<nat> := None;
    while lim > 0
      invariant 0 <= base && 0 <= lim && base + lim <= view.nentries
      invariant good ==> forall i | 0 <= i < base :: (i == 0 && leftmostSpine) || Lt(pg.entries[i].key, key)
      invariant good ==> forall i | base + lim <= i < |pg.entries| :: Lt(key, pg.entries[i].key)
    {
      var idx := base + lim / 2;
      if good {
        SepReads(db, at, view, pg, idx);
      }
      var entry :- view.InternalEntryAt(idx);
      var cmp := Greater;
      if !(idx == 0 && leftmostSpine) {
        cmp :- CompareItem(db, key, view, entry.key);
      }
      match cmp {
        case Equal =>
          matched := Some(idx);
          break;
        case Greater =>
          base := idx + 1;
          lim := lim - 1;
        case Less =>
      }
      lim := lim / 2;
    }
    var chosen := if matched.Some? then matched.value else if base == 0 then 0 else base - 1;
    if good {
      SepReads(db, at, view, pg, chosen);
      assert PicksChild(at, pg, key, chosen, Success(at[pg.entries[chosen].child]));
    }
    var entry :- view.InternalEntryAt(chosen);
    return Success(entry.child);
  }

  /** Decode page `p` of the tree in a well-formed file. */
  method OpenPage(db: Db, pgno: u32, ghost p: nat, ghost P: seq<Page>, ghost R: seq<Region>, ghost at: seq<u32>)
    returns (view: PageView)
    requires TreeFile(db, P, R, at) && 1 <= p < |P| && p < |at| && pgno == at[p]
    ensures IsView(db, at, view, P[p])
    ensures SortedKeys(P[p].entries) && (P[p].leaf || P[p].entries != []) && P[p].pgno == p
    ensures view.pgno == pgno && view.IsLeaf() == P[p].leaf && view.IsInternal() == !P[p].leaf
  {
    hide IsView, Parse, Lt, PageView.IsLeaf, PageView.IsInternal;
    assert PageReads(db, at, p, P[p]);
    assert NodeOk(P, R, p);
    var page := db.GetPage(pgno).value;
    view := Parse(pgno, page, db.swap).value;
    ViewFields(db, at, view, P[p]);
  }

  // ----- lookup -----

  /** Every hop of `path` takes the slot a search for `key` picks. */
  ghost predicate Routed(P: seq<Page>, path: seq<Hop>, key: Bytes) {
    forall j | 0 <= j < |path| :: path[j].pgno < |P| && Picks(P[path[j].pgno].entries, key, path[j].slot)
  }

  /** `path` is the descent for `key`: from the root, one page a level, each hop the
      slot that routes the key, to the leaf that owns it. */
  ghost predicate Descent(P: seq<Page>, R: seq<Region>, path: seq<Hop>, leaf: u32, key: Bytes) {
    && SpineOk(P, R, path, leaf) && Routed(P, path, key)
    && P[leaf].leaf && Within(R[leaf], key) && |path| == R[1].level
  }

  /** Descend from the root to the leaf that would hold `key`, and look there.  A
      well-formed tree is left after one page a level. */
  method Search(db: Db, key: Bytes, ghost P: seq<Page>, ghost R: seq<Region>, ghost at: seq<u32>)
    returns (r: Result<Option<Position>>, ghost path: seq<Hop>, ghost leaf: u32)
    requires TreeFile(db, P, R, at)
    ensures r.Success? && |at| == |P| && Descent(P, R, path, leaf, key)
    ensures r.value.Some? ==>
              var pos := r.value.value;
              && pos.pgno == at[leaf] && pos.index < |P[leaf].entries| && P[leaf].entries[pos.index].key == key
    ensures r.value.None? ==> forall v :: !Has(P, Leaf(key, v))
  {
    hide Lt, Inv, Picks, Within, IsView, PageView.IsLeaf, PageView.IsInternal, SortedKeys, Has, SpineOk, Routed,
         PageReads;
    var pgno := P_ROOT;
    leaf, path := P_ROOT, [];
    RootOwnsAll(P, R, key);
    DescentStarts(P, R, key);
    while true
      invariant 1 <= leaf < |P| && |R| == |P| && pgno == at[leaf] && Within(R[leaf], key)
      invariant SpineOk(P, R, path, leaf) && Routed(P, path, key)
      decreases R[leaf].level
    {
      var view := OpenPage(db, pgno, leaf, P, R, at);
      if view.IsLeaf() {
        r := SearchLeaf(db, view, key, at, P[leaf]);
        DescentEnds(P, R, path, leaf);
        if r.value.None? {
          AbsentHere(P, R, leaf, key);
        }
        return;
      }
      assert view.IsInternal();
      var next := DescendInternal(db, view, key, at, P[leaf]);
      ghost var slot: nat :| PicksChild(at, P[leaf], key, slot, next);
      DescentStep(P, R, path, leaf, key, slot);
      path := path + [Hop(leaf, slot)];
      leaf := P[leaf].entries[slot].child;
      pgno := next.value;
    }
  }

  lemma DescentStarts(P: seq<Page>, R: seq<Region>, key: Bytes)
    requires Inv(P, R)
    ensures SpineOk(P, R, [], P_ROOT) && Routed(P, [], key)
  {
  }

  lemma DescentStep(P: seq<Page>, R: seq<Region>, path: seq<Hop>, p: u32, key: Bytes, slot: nat)
    requires Inv(P, R) && SpineOk(P, R, path, p) && !P[p].leaf && Within(R[p], key)
    requires Routed(P, path, key) && Picks(P[p].entries, key, slot) && slot < |P[p].entries|
    ensures P[p].entries[slot].Sep?
    ensures var child := P[p].entries[slot].child;
      && 1 <= child < |P| && SpineOk(P, R, path + [Hop(p, slot)], child) && Within(R[child], key)
      && R[child].level < R[p].level
    ensures Routed(P, path + [Hop(p, slot)], key)
  {
    hide Lt, Inv, Picks, SpineOk;
    SpineExtend(P, R, path, p, key, slot);
    SpineInside(P, R, path, p);
  }

  lemma SpineInside(P: seq<Page>, R: seq<Region>, path: seq<Hop>, p: u32)
    requires SpineOk(P, R, path, p)
    ensures p < |P|
  {
  }

  lemma DescentEnds(P: seq<Page>, R: seq<Region>, path: seq<Hop>, p: u32)
    requires Inv(P, R) && SpineOk(P, R, path, p) && P[p].leaf
    ensures |path| == R[1].level
  {
    hide Lt;
    assert NodeOk(P, R, p);
  }

  lemma AbsentHere(P: seq<Page>, R: seq<Region>, p: nat, key: Bytes)
    requires Inv(P, R) && 1 <= p < |P| && P[p].leaf && Within(R[p], key)
    requires forall i | 0 <= i < |P[p].entries| :: P[p].entries[i].key != key
    ensures forall v :: !Has(P, Leaf(key, v))
  {
    hide Lt, Inv, Has, Within;
    forall v ensures !Has(P, Leaf(key, v)) {
      OnlyInOwner(P, R, p, Leaf(key, v));
    }
  }

  lemma BoundIsHeld(P: seq<Page>, m: map<Bytes, Bytes>, key: Bytes)
    requires Denotes(P, m)
    ensures key in m ==> Has(P, Leaf(key, m[key]))
  {
  }

  /** Look up a key: exactly the binding of the map the tree denotes, after one page
      a level. */
  method Get(db: Db, key: Bytes, ghost P: seq<Page>, ghost R: seq<Region>, ghost at: seq<u32>,
             ghost m: map<Bytes, Bytes>)
    returns (r: Result<Option<Bytes>>, ghost path: seq<Hop>, ghost leaf: u32)
    requires TreeFile(db, P, R, at) && Denotes(P, m)
    ensures r == Success(if key in m then Some(m[key]) else None)
    ensures Descent(P, R, path, leaf, key)
  {
    hide Lt, Inv, IsView, PageView.LeafEntryAt, ItemBytes, PageView.IsLeaf, PageView.IsInternal, SortedKeys, PageReads,
         Descent;
    var found;
    found, path, leaf := Search(db, key, P, R, at);
    DescentLeaf(P, R, path, leaf, key);
    if found.value.None? {
      BoundIsHeld(P, m, key);
      return Success(None), path, leaf;
    }
    var pos := found.value.value;
    var view := OpenPage(db, pos.pgno, leaf, P, R, at);
    RecordReads(db, at, view, P[leaf], pos.index);
    var entry := view.LeafEntryAt(pos.index).value;
    var value := Materialise(db, view, entry.data);
    ghost var e := P[leaf].entries[pos.index];
    assert Holds(P, leaf, e) && Has(P, e);
    assert e == Leaf(key, e.val);
    return Success(Some(value.value)), path, leaf;
  }

  lemma DescentLeaf(P: seq<Page>, R: seq<Region>, path: seq<Hop>, leaf: u32, key: Bytes)
    requires Descent(P, R, path, leaf, key)
    ensures 1 <= leaf < |P| && P[leaf].leaf
  {
  }
}
