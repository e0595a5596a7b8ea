/** The writer's binary searches within one page. */
module PageSearch {
  import opened Bytes
  import opened Entries
  import opened PageViews
  import opened Layout
  import opened Tree
  import opened TreeUpdate

  /** `c` is the last slot whose separator is at most `key`, or 0 if none is. */
  predicate Picks(es: seq<Entry>, key: Bytes, c: nat) {
    && c < |es|
    && (c > 0 ==> Le(es[c].key, key))
    && forall i | c < i < |es| :: Lt(key, es[i].key)
  }

  lemma PicksUnique(es: seq<Entry>, key: Bytes, c: nat, d: nat)
    requires Picks(es, key, c) && Picks(es, key, d)
    ensures c == d
  {
    hide Lt;
    OrderLaws();
  }

  /** The picked child's region owns the key the page's region owned. */
  lemma PickOwns(P: seq<Page>, R: seq<Region>, p: nat, key: Bytes, c: nat)
    requires Inv(P, R) && 1 <= p < |P| && !P[p].leaf && Within(R[p], key)
    requires Picks(P[p].entries, key, c)
    ensures P[p].entries[c].Sep? && IsChild(P, p, c, P[p].entries[c].child)
    ensures 2 <= P[p].entries[c].child < |P|
    ensures Within(R[P[p].entries[c].child], key)
    ensures R[P[p].entries[c].child].level + 1 == R[p].level
  {
    hide Lt;
    assert NodeOk(P, R, p) && ChildOk(P, R, p, c);
  }

  /** Binary-search a leaf: where `key` is, or where it would go. */
  method LeafSearch(view: PageView, key: Bytes, ghost src: Bytes, ghost pg: Page) returns (exact: bool, idx: nat)
    requires Packed(src, false, pg) && view == ViewOf(view.pgno, src, false, pg) && pg.leaf
    requires SortedKeys(pg.entries)
    ensures exact ==> idx < |pg.entries| && pg.entries[idx].key == key
    ensures !exact ==> SortsAt(pg.entries, idx, key)
  {
    hide Lt, Packed, PageView.LeafEntryAt, PageView.InlineBytes;
    OrderLaws();
    var base, lim := 0, view.nentries;
    while lim > 0
      invariant 0 <= base && 0 <= lim && base + lim <= |pg.entries|
      invariant forall i | 0 <= i < base :: Lt(pg.entries[i].key, key)
      invariant forall i | base + lim <= i < |pg.entries| :: Lt(key, pg.entries[i].key)
    {
      idx := base + lim / 2;
      LeafDecodes(view.pgno, src, false, pg, idx);
      var entry := view.LeafEntryAt(idx).value;
      var entryKey := view.InlineBytes(entry.key).value;
      match Compare(key, entryKey) {
        case Equal =>
          return true, idx;
        case Greater =>
          base := idx + 1;
          lim := lim - 1;
        case Less =>
      }
      lim := lim / 2;
    }
    return false, base;
  }

  /** Binary-search an internal page for the child to descend into.  On the
      leftmost page of a level slot 0 counts as minus infinity. */
  method DescendInternalPick(view: PageView, key: Bytes, leftmost: bool, ghost src: Bytes, ghost pg: Page)
    returns (chosen: nat)
    requires Packed(src, false, pg) && view == ViewOf(view.pgno, src, false, pg) && !pg.leaf
    requires SortedKeys(pg.entries) && pg.entries != []
    ensures Picks(pg.entries, key, chosen)
  {
    hide Lt, Packed, PageView.InternalEntryAt, PageView.InlineBytes;
    OrderLaws();
    var base, lim := 0, view.nentries;
    while lim > 0
      invariant 0 <= base && 0 <= lim && base + lim <= |pg.entries|
      invariant forall i | 0 <= i < base :: (i == 0 && leftmost) || Lt(pg.entries[i].key, key)
      invariant forall i | base + lim <= i < |pg.entries| :: Lt(key, pg.entries[i].key)
    {
      var mid := base + lim / 2;
      SepDecodes(view.pgno, src, false, pg, mid);
      var entry := view.InternalEntryAt(mid).value;
      var cmp := if mid == 0 && leftmost then Greater else Compare(key, view.InlineBytes(entry.key).value);
      match cmp {
        case Equal =>
          return mid;
        case Greater =>
          base := mid + 1;
          lim := lim - 1;
        case Less =>
      }
      lim := lim / 2;
    }
    return if base == 0 then 0 else base - 1;
  }
}
