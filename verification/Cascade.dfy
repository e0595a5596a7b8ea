/** One step of the split cascade: a page is cut, its parent owes a separator. */
module Cascade {
  import opened Bytes
  import opened Entries
  import opened Tree
  import opened TreeSplit
  import opened TreeUpdate
  import opened Contents
  import opened Separators
  import opened Spines

  /** The separator `sep` as stored in slot `slot + 1` of the page of `h`. */
  function Owed(P: seq<Page>, h: Hop, sep: Separator): Entry
    requires h.pgno < |P|
  {
    Sep(sep.Stored(P[h.pgno].prev, h.slot + 1), sep.child)
  }

  /** The arena as it will read once the parent at `h` has taken `sep`. */
  function Virtual(P: seq<Page>, h: Hop, sep: Separator): seq<Page>
    requires h.pgno < |P| && h.slot + 1 <= |P[h.pgno].entries|
  {
    WithEntries(P, h.pgno, InsertAt(P[h.pgno].entries, h.slot + 1, Owed(P, h, sep)))
  }

  /** The parent at the end of `path` owes slot space for `sep`; with it in place
      the tree is a search tree denoting `m`. */
  ghost predicate Pending(P: seq<Page>, R: seq<Region>, m: map<Bytes, Bytes>, path: seq<Hop>, last: u32,
      sep: Separator) {
    && path != []
    && var h := path[|path| - 1];
      && 1 <= h.pgno < |P| && h.slot + 1 <= |P[h.pgno].entries|
      && Inv(Virtual(P, h, sep), R)
      && Denotes(Virtual(P, h, sep), m)
      && SpineOk(Virtual(P, h, sep), R, path, last)
  }

  /** Page `p` below the last hop of `path` is cut in two: telling the parent of
      the right part is what remains to be done. */
  lemma CutIsPending(P: seq<Page>, R: seq<Region>, m: map<Bytes, Bytes>, path: seq<Hop>, p: u32, cut: nat,
      sep: Separator)
    requires Inv(P, R) && Denotes(P, m) && SpineOk(P, R, path, p) && path != []
    requires 2 <= p < |P| < 0x1_0000_0000
    requires var h := path[|path| - 1];
      && h.pgno < |P|
      && Separates(P[p], cut, sep.Stored(P[h.pgno].prev, h.slot + 1))
    requires sep.child == |P|
    ensures var h := path[|path| - 1]; var s := sep.Stored(P[h.pgno].prev, h.slot + 1);
      Pending(CutPages(P, p, cut), CutRegions(R, p, s), m, path, p, sep)
    ensures |CutPages(P, p, cut)| == |P| + 1
  {
    hide Lt, Separator.Stored, Denotes, Inv, CutRegions, SpineOk, Separates;
    var h := path[|path| - 1];
    var s := sep.Stored(P[h.pgno].prev, h.slot + 1);
    SpinePop(P, R, path, p);
    SplitKeepsInv(P, R, p, cut, h.pgno, h.slot, s);
    SplitKeepsMap(P, R, p, cut, h.pgno, h.slot, s, m);
    SpineAfterSplit(P, R, path, p, cut, s);
    CutVirtual(P, R, p, cut, h, s, sep);
  }

  lemma CutVirtual(P: seq<Page>, R: seq<Region>, p: u32, cut: nat, h: Hop, s: Bytes, sep: Separator)
    requires SplitPre(P, R, p, cut, h.pgno, h.slot, s)
    requires s == sep.Stored(P[h.pgno].prev, h.slot + 1) && sep.child == |P|
    ensures h.pgno != p && h.pgno < |P| && h.slot + 1 <= |CutPages(P, p, cut)[h.pgno].entries|
    ensures |CutPages(P, p, cut)| == |P| + 1
    ensures Virtual(CutPages(P, p, cut), h, sep) == SplitPages(P, p, cut, h.pgno, h.slot, s)
  {
    hide Lt, Separator.Stored, Inv;
    Distinct(P, R, p, h.pgno, h.slot);
  }

  /** Sorted keys: the right part's first key separates a cut. */
  lemma FirstKeySeparates(P: seq<Page>, R: seq<Region>, p: nat, cut: nat)
    requires Inv(P, R) && 1 <= p < |P| && 0 < cut < |P[p].entries|
    ensures Separates(P[p], cut, P[p].entries[cut].key)
  {
    hide Lt;
    assert NodeOk(P, R, p);
  }

  /** A compressed leaf separator separates the cut it was made from. */
  lemma StoredKeySeparates(P: seq<Page>, p: nat, cut: nat, sep: Separator, prev: u32, skip: nat)
    requires p < |P| && P[p].leaf && 0 < cut < |P[p].entries|
    requires sep.LeafSep? && sep.Ok()
    requires sep.sepKey == P[p].entries[cut].key && sep.lLastKey == P[p].entries[cut - 1].key
    ensures Separates(P[p], cut, sep.Stored(prev, skip))
  {
    hide Lt, Separator.Stored, Separator.EncodedSize;
    StoredSeparates(sep, prev, skip);
  }

  /** A record added to the leaf at the foot of a spine leaves the spine. */
  lemma SpineLeaf(P: seq<Page>, R: seq<Region>, path: seq<Hop>, leaf: u32, es: seq<Entry>)
    requires SpineOk(P, R, path, leaf) && P[leaf].leaf
    ensures SpineOk(WithEntries(P, leaf, es), R, path, leaf)
  {
    var Q := WithEntries(P, leaf, es);
    forall j | 0 <= j < |path| ensures IsChild(Q, path[j].pgno, path[j].slot, After(path, leaf, j)) {
      assert IsChild(P, path[j].pgno, path[j].slot, After(path, leaf, j));
    }
  }
}
