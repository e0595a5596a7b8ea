/** The path a descent records, and what splits below leave of it. */
module Spines {
  import opened Bytes
  import opened Format
  import opened Entries
  import opened Tree
  import opened TreeSplit
  import opened PageSearch

  /** An internal page and the slot descended through. */
  datatype Hop = Hop(pgno: u32, slot: nat)

  /** Page reached by hop `j` of a path that ends at `last`. */
  function After(path: seq<Hop>, last: u32, j: nat): u32
    requires j < |path|
  {
    if j + 1 < |path| then path[j + 1].pgno else last
  }

  function Start(path: seq<Hop>, last: u32): u32 {
    if path == [] then last else path[0].pgno
  }

  /** `path` leads from the root to `last`, one level a hop. */
  ghost predicate SpineOk(P: seq<Page>, R: seq<Region>, path: seq<Hop>, last: u32) {
    && 2 <= |P| == |R|
    && Start(path, last) == P_ROOT
    && 1 <= last < |P| && R[last].level + |path| == R[1].level
    && (forall j | 0 <= j < |path| :: 1 <= path[j].pgno < |P| && R[path[j].pgno].level + j == R[1].level)
    && (forall j | 0 <= j < |path| :: IsChild(P, path[j].pgno, path[j].slot, After(path, last, j)))
  }

  lemma SpineExtend(P: seq<Page>, R: seq<Region>, path: seq<Hop>, p: u32, key: Bytes, c: nat)
    requires Inv(P, R) && SpineOk(P, R, path, p) && !P[p].leaf && Within(R[p], key)
    requires Picks(P[p].entries, key, c)
    ensures P[p].entries[c].Sep?
    ensures var child := P[p].entries[c].child;
      && 1 <= child < |P| && SpineOk(P, R, path + [Hop(p, c)], child) && Within(R[child], key)
          && R[child].level < R[p].level
  {
    hide Lt, Inv, Picks;
    PicksInRange(P[p].entries, key, c);
    PickOwns(P, R, p, key, c);
    var child, path' := P[p].entries[c].child, path + [Hop(p, c)];
    forall j | 0 <= j < |path'| ensures IsChild(P, path'[j].pgno, path'[j].slot, After(path', child, j)) {
      if j < |path| {
        assert IsChild(P, path[j].pgno, path[j].slot, After(path, p, j));
      }
    }
  }

  lemma PicksInRange(es: seq<Entry>, key: Bytes, c: nat)
    requires Picks(es, key, c)
    ensures c < |es|
  {
  }

  lemma SpinePop(P: seq<Page>, R: seq<Region>, path: seq<Hop>, last: u32)
    requires SpineOk(P, R, path, last) && path != []
    ensures var p := path[|path| - 1].pgno; var rest := path[..|path| - 1];
      && SpineOk(P, R, rest, p) && IsChild(P, p, path[|path| - 1].slot, last)
      && (p == P_ROOT <==> rest == [])
  {
    var p, rest := path[|path| - 1].pgno, path[..|path| - 1];
    forall j | 0 <= j < |rest| ensures IsChild(P, rest[j].pgno, rest[j].slot, After(rest, p, j)) {
      assert IsChild(P, path[j].pgno, path[j].slot, After(path, last, j));
    }
  }

  /** A split at the foot of a spine leaves the spine above it. */
  lemma SpineAfterSplit(P: seq<Page>, R: seq<Region>, path: seq<Hop>, p: u32, cut: nat, s: Bytes)
    requires SpineOk(P, R, path, p) && path != []
    requires SplitPre(P, R, p, cut, path[|path| - 1].pgno, path[|path| - 1].slot, s)
    ensures var h := path[|path| - 1];
      h.pgno != p && SpineOk(SplitPages(P, p, cut, h.pgno, h.slot, s), CutRegions(R, p, s), path, p)
  {
    hide Lt, SplitPages, CutRegions, Inv;
    var h := path[|path| - 1];
    SplitShape(P, R, p, cut, h.pgno, h.slot, s);
    Distinct(P, R, p, h.pgno, h.slot);
    var Q := SplitPages(P, p, cut, h.pgno, h.slot, s);
    forall j | 0 <= j < |path| ensures IsChild(Q, path[j].pgno, path[j].slot, After(path, p, j)) {
      assert IsChild(P, path[j].pgno, path[j].slot, After(path, p, j));
    }
  }
}
