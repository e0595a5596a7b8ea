/** The B+tree as a set of pages: what every reachable arena satisfies.

    Each page carries a ghost `Region`: the half-open key interval its subtree
    owns and its level above the leaves.  A lower bound of `[]` is minus
    infinity, since `[]` is the least byte string.  The invariant is local, one
    page and its neighbours at a time, so a split disturbs few pages.
  */
module Tree {
  import opened Bytes
  import opened Format
  import opened Entries

  datatype Region = Region(lo: Bytes, hi: Option<Bytes>, level: nat)

  predicate Within(r: Region, k: Bytes) {
    Le(r.lo, k) && (r.hi.Some? ==> Lt(k, r.hi.value))
  }

  /** Upper bound of the child under slot `i` of a page owning `r`. */
  function UpperOf(pg: Page, r: Region, i: nat): Option<Bytes>
    requires i < |pg.entries|
  {
    if i + 1 < |pg.entries| then Some(pg.entries[i + 1].key) else r.hi
  }

  predicate ChildOk(P: seq<Page>, R: seq<Region>, p: nat, i: nat)
    requires p < |P| == |R| && i < |P[p].entries|
  {
    var e := P[p].entries[i];
    && e.Sep? && 2 <= e.child < |P|
    && R[e.child].lo == e.key
    && R[e.child].hi == UpperOf(P[p], R[p], i)
    && R[e.child].level + 1 == R[p].level
  }

  predicate KeysWithin(es: seq<Entry>, r: Region) {
    forall i | 0 <= i < |es| :: Within(r, es[i].key)
  }

  predicate NodeOk(P: seq<Page>, R: seq<Region>, p: nat)
    requires 1 <= p < |P| == |R|
  {
    && P[p].pgno == p
    && Kind(P[p])
    && SortedKeys(P[p].entries)
    && KeysWithin(P[p].entries, R[p])
    && (R[p].hi.Some? ==> Lt(R[p].lo, R[p].hi.value))
    && (P[p].leaf <==> R[p].level == 0)
    && (p != 1 ==> R[p].level < R[1].level)
    && (!P[p].leaf ==>
          && P[p].entries != []
          && P[p].entries[0].key == R[p].lo
          && forall i | 0 <= i < |P[p].entries| :: ChildOk(P, R, p, i))
  }

  /** Sibling links: `P_INVALID` marks exactly the ends of a level, and `prev`
      undoes `next`. */
  predicate SibOk(P: seq<Page>, R: seq<Region>, p: nat)
    requires 1 <= p < |P| == |R|
  {
    var pg := P[p];
    && (pg.prev == P_INVALID <==> R[p].lo == [])
    && (pg.next == P_INVALID <==> R[p].hi.None?)
    && (pg.next != P_INVALID ==>
          && pg.next < |P|
          && P[pg.next].prev == p
          && R[pg.next].lo == R[p].hi.value
          && R[pg.next].level == R[p].level)
    && (pg.prev != P_INVALID ==> pg.prev < |P| && P[pg.prev].next == p)
  }

  predicate IsChild(P: seq<Page>, q: nat, i: nat, c: nat) {
    && 1 <= q < |P| && !P[q].leaf && i < |P[q].entries|
    && P[q].entries[i].Sep? && P[q].entries[i].child == c
  }

  ghost predicate Parented(P: seq<Page>, c: nat) {
    exists q: nat, i: nat :: IsChild(P, q, i, c)
  }

  ghost predicate Inv(P: seq<Page>, R: seq<Region>) {
    && 2 <= |P| == |R|
    && R[1].lo == [] && R[1].hi == None
    && (forall p | 1 <= p < |P| :: NodeOk(P, R, p))
    && (forall p | 1 <= p < |P| :: SibOk(P, R, p))
    && (forall p | 2 <= p < |P| :: Parented(P, p))
  }

  /** No leaf below the root is empty: so until the first deletion. */
  predicate FullLeaves(P: seq<Page>) {
    forall p | 2 <= p < |P| && P[p].leaf :: P[p].entries != []
  }

  // ----- consequences -----

  lemma RegionCount(P: seq<Page>, R: seq<Region>)
    requires Inv(P, R)
    ensures 2 <= |P| == |R|
  {
  }

  /** Every key belongs to the root's region. */
  lemma RootOwnsAll(P: seq<Page>, R: seq<Region>, key: Bytes)
    requires Inv(P, R)
    ensures 2 <= |P| == |R| && Within(R[1], key)
  {
    hide Lt, NodeOk, SibOk;
    OrderLaws();
  }

  /** A child's region lies inside its parent's. */
  lemma ChildInside(P: seq<Page>, R: seq<Region>, q: nat, i: nat, c: nat, k: Bytes)
    requires Inv(P, R) && IsChild(P, q, i, c) && c < |P| && Within(R[c], k)
    ensures Within(R[q], k)
    ensures Le(P[q].entries[i].key, k)
    ensures i + 1 < |P[q].entries| ==> Lt(k, P[q].entries[i + 1].key)
  {
    hide Lt;
    OrderLaws();
    assert NodeOk(P, R, q) && ChildOk(P, R, q, i);
    assert Within(R[q], P[q].entries[i].key);
    if i + 1 < |P[q].entries| {
      assert Within(R[q], P[q].entries[i + 1].key);
    }
  }

  /** At most one slot of a page owns a key. */
  lemma SlotUnique(es: seq<Entry>, i: nat, j: nat, k: Bytes)
    requires SortedKeys(es) && i < |es| && j < |es|
    requires Le(es[i].key, k) && (i + 1 < |es| ==> Lt(k, es[i + 1].key))
    requires Le(es[j].key, k) && (j + 1 < |es| ==> Lt(k, es[j + 1].key))
    ensures i == j
  {
    hide Lt;
    OrderLaws();
  }

  /** Pages of one level own disjoint regions. */
  lemma {:induction false} RegionUnique(P: seq<Page>, R: seq<Region>, x: nat, y: nat, k: Bytes)
    requires Inv(P, R) && 1 <= x < |P| && 1 <= y < |P|
    requires R[x].level == R[y].level && Within(R[x], k) && Within(R[y], k)
    ensures x == y
    decreases R[1].level - R[x].level
  {
    hide Lt;
    assert NodeOk(P, R, x) && NodeOk(P, R, y);
    if x != 1 && y != 1 {
      assert Parented(P, x) && Parented(P, y);
      var q: nat, i: nat :| IsChild(P, q, i, x);
      var u: nat, j: nat :| IsChild(P, u, j, y);
      assert NodeOk(P, R, q) && ChildOk(P, R, q, i);
      assert NodeOk(P, R, u) && ChildOk(P, R, u, j);
      ChildInside(P, R, q, i, x, k);
      ChildInside(P, R, u, j, y, k);
      RegionUnique(P, R, q, u, k);
      SlotUnique(P[q].entries, i, j, k);
    }
  }

  /** A page has one parent, and one slot there. */
  lemma ParentUnique(P: seq<Page>, R: seq<Region>, q: nat, i: nat, u: nat, j: nat, c: nat)
    requires Inv(P, R) && IsChild(P, q, i, c) && IsChild(P, u, j, c) && c < |P|
    ensures q == u && i == j
  {
    hide Lt;
    OrderLaws();
    assert NodeOk(P, R, q) && ChildOk(P, R, q, i);
    assert NodeOk(P, R, u) && ChildOk(P, R, u, j);
    assert NodeOk(P, R, c);
    assert Within(R[c], R[c].lo);
    ChildInside(P, R, q, i, c, R[c].lo);
    ChildInside(P, R, u, j, c, R[c].lo);
    RegionUnique(P, R, q, u, R[c].lo);
    SlotUnique(P[q].entries, i, j, R[c].lo);
  }
}
