/** Splitting one node of the tree, on pages as values.

    A split is seen from a page that already holds its new entry and may be too
    big for its buffer: the page is cut in two and a separator for the right
    part goes into the parent, which may in turn be too big.
  */
module TreeSplit {
  import opened Bytes
  import opened Format
  import opened Entries
  import opened Tree

  /** `s` separates the entries before `cut` from those at and after it; above
      the leaves it is the right part's first key, byte for byte. */
  predicate Separates(pg: Page, cut: nat, s: Bytes) {
    && 0 < cut < |pg.entries|
    && Lt(pg.entries[cut - 1].key, s)
    && Le(s, pg.entries[cut].key)
    && (!pg.leaf ==> s == pg.entries[cut].key)
  }

  function AddSep(pg: Page, slot: nat, s: Bytes, child: u32): Page
    requires slot <= |pg.entries|
  {
    pg.(entries := InsertAt(pg.entries, slot, Sep(s, child)))
  }

  // ----- a page other than the root -----

  function LeftPart(pg: Page, cut: nat, right: u32): Page
    requires cut <= |pg.entries|
  {
    pg.(next := right, entries := pg.entries[..cut])
  }

  function RightPart(pg: Page, cut: nat, right: u32): Page
    requires cut <= |pg.entries|
  {
    Page(right, pg.pgno, pg.next, pg.leaf, pg.entries[cut..])
  }

  /** The arena once page `p` is cut, before its parent hears of it: the right
      part is appended and the old right neighbour links back to it. */
  function CutPages(P: seq<Page>, p: nat, cut: nat): seq<Page>
    requires p < |P| < 0x1_0000_0000 && cut <= |P[p].entries|
  {
    var Q := P[p := LeftPart(P[p], cut, |P|)] + [RightPart(P[p], cut, |P|)];
    if P[p].next != P_INVALID && P[p].next < |P| then
      Q[P[p].next := Q[P[p].next].(prev := |P|)]
    else
      Q
  }

  function CutRegions(R: seq<Region>, p: nat, s: Bytes): seq<Region>
    requires p < |R|
  {
    R[p := R[p].(hi := Some(s))] + [Region(s, R[p].hi, R[p].level)]
  }

  /** The arena after the cut, with the separator in slot `i + 1` of parent `q`. */
  function SplitPages(P: seq<Page>, p: nat, cut: nat, q: nat, i: nat, s: Bytes): seq<Page>
    requires p < |P| < 0x1_0000_0000 && cut <= |P[p].entries|
    requires q < |P| && q != p && i < |P[q].entries|
  {
    var Q := CutPages(P, p, cut);
    Q[q := AddSep(Q[q], i + 1, s, |P|)]
  }

  ghost predicate SplitPre(P: seq<Page>, R: seq<Region>, p: nat, cut: nat, q: nat, i: nat, s: Bytes) {
    && Inv(P, R) && 2 <= p < |P| < 0x1_0000_0000
    && Separates(P[p], cut, s)
    && IsChild(P, q, i, p)
  }

  /** The pages a split touches are distinct. */
  lemma Distinct(P: seq<Page>, R: seq<Region>, p: nat, q: nat, i: nat)
    requires Inv(P, R) && 1 <= p < |P| && IsChild(P, q, i, p)
    ensures p != q
    ensures P[p].next != P_INVALID ==> 1 <= P[p].next < |P| && P[p].next != p && P[p].next != q
    ensures R[q].level == R[p].level + 1
  {
    hide Lt;
    OrderLaws();
    assert NodeOk(P, R, q) && ChildOk(P, R, q, i);
    assert NodeOk(P, R, p) && SibOk(P, R, p);
  }

  /** What each page becomes. */
  lemma SplitShape(P: seq<Page>, R: seq<Region>, p: nat, cut: nat, q: nat, i: nat, s: Bytes)
    requires SplitPre(P, R, p, cut, q, i, s)
    ensures q != p
    ensures var Q := SplitPages(P, p, cut, q, i, s); var n := |P|; var S := CutRegions(R, p, s);
      && |Q| == |S| == n + 1
      && Q[p] == LeftPart(P[p], cut, n)
      && Q[n] == RightPart(P[p], cut, n)
      && Q[q] == AddSep(P[q], i + 1, s, n)
      && S[p] == R[p].(hi := Some(s)) && S[n] == Region(s, R[p].hi, R[p].level)
      && (forall x | 0 <= x < n && x != p :: S[x] == R[x])
      && (forall x | 0 <= x < n && x != p && x != q && (P[p].next == P_INVALID || x != P[p].next) :: Q[x] == P[x])
      && (P[p].next != P_INVALID ==> P[p].next < n && Q[P[p].next] == P[P[p].next].(prev := n))
  {
    Distinct(P, R, p, q, i);
  }

  lemma SplitLeft(P: seq<Page>, R: seq<Region>, p: nat, cut: nat, q: nat, i: nat, s: Bytes)
    requires SplitPre(P, R, p, cut, q, i, s)
    ensures q != p && NodeOk(SplitPages(P, p, cut, q, i, s), CutRegions(R, p, s), p)
  {
    hide Lt, SplitPages, CutRegions;
    OrderLaws();
    SplitShape(P, R, p, cut, q, i, s);
    var Q, S := SplitPages(P, p, cut, q, i, s), CutRegions(R, p, s);
    assert NodeOk(P, R, p);
    assert Within(R[p], P[p].entries[0].key) && Within(R[p], P[p].entries[cut].key);
    forall j | 0 <= j < cut && !P[p].leaf
      ensures ChildOk(Q, S, p, j)
    {
      assert ChildOk(P, R, p, j);
    }
  }

  lemma SplitRight(P: seq<Page>, R: seq<Region>, p: nat, cut: nat, q: nat, i: nat, s: Bytes)
    requires SplitPre(P, R, p, cut, q, i, s)
    ensures q != p && NodeOk(SplitPages(P, p, cut, q, i, s), CutRegions(R, p, s), |P|)
  {
    hide Lt, SplitPages, CutRegions;
    OrderLaws();
    SplitShape(P, R, p, cut, q, i, s);
    var Q, S := SplitPages(P, p, cut, q, i, s), CutRegions(R, p, s);
    assert NodeOk(P, R, p);
    assert Within(R[p], P[p].entries[cut].key);
    forall j | 0 <= j < |P[p].entries| - cut && !P[p].leaf
      ensures ChildOk(Q, S, |P|, j)
    {
      assert ChildOk(P, R, p, cut + j);
    }
  }

  lemma SplitParentSlot(P: seq<Page>, R: seq<Region>, p: nat, cut: nat, q: nat, i: nat, s: Bytes, j: nat)
    requires SplitPre(P, R, p, cut, q, i, s) && j <= |P[q].entries|
    ensures q != p && |SplitPages(P, p, cut, q, i, s)| == |CutRegions(R, p, s)| == |P| + 1
    ensures j < |SplitPages(P, p, cut, q, i, s)[q].entries|
    ensures ChildOk(SplitPages(P, p, cut, q, i, s), CutRegions(R, p, s), q, j)
  {
    hide Lt, SplitPages, CutRegions;
    SplitShape(P, R, p, cut, q, i, s);
    Distinct(P, R, p, q, i);
    assert NodeOk(P, R, q) && ChildOk(P, R, q, i) && NodeOk(P, R, p);
    if j <= i {
      assert ChildOk(P, R, q, j);
    } else if j > i + 1 {
      assert ChildOk(P, R, q, j - 1);
    }
    if j != i && j != i + 1 && P[q].entries[if j < i then j else j - 1].child == p {
      SameChild(P, R, q, i, if j < i then j else j - 1, p);
    }
  }

  /** A page is under one slot of its parent. */
  lemma SameChild(P: seq<Page>, R: seq<Region>, q: nat, i: nat, j: nat, p: nat)
    requires Inv(P, R) && IsChild(P, q, i, p) && IsChild(P, q, j, p) && p < |P|
    ensures i == j
  {
    hide Inv, Lt;
    ParentUnique(P, R, q, i, q, j, p);
  }

  lemma SplitParent(P: seq<Page>, R: seq<Region>, p: nat, cut: nat, q: nat, i: nat, s: Bytes)
    requires SplitPre(P, R, p, cut, q, i, s)
    ensures q != p && NodeOk(SplitPages(P, p, cut, q, i, s), CutRegions(R, p, s), q)
  {
    hide Lt, SplitPages, CutRegions;
    OrderLaws();
    SplitShape(P, R, p, cut, q, i, s);
    Distinct(P, R, p, q, i);
    var Q, S := SplitPages(P, p, cut, q, i, s), CutRegions(R, p, s);
    var es := P[q].entries;
    assert NodeOk(P, R, q) && ChildOk(P, R, q, i) && NodeOk(P, R, p);
    assert Within(R[p], P[p].entries[cut - 1].key) && Within(R[p], P[p].entries[cut].key);
    assert Lt(es[i].key, s) && (i + 1 < |es| ==> Lt(s, es[i + 1].key));
    assert Within(R[q], es[i].key);
    assert i + 1 < |es| ==> Within(R[q], es[i + 1].key);
    forall j | 0 <= j < |es| + 1
      ensures ChildOk(Q, S, q, j)
    {
      SplitParentSlot(P, R, p, cut, q, i, s, j);
    }
  }

  lemma SplitOther(P: seq<Page>, R: seq<Region>, p: nat, cut: nat, q: nat, i: nat, s: Bytes, x: nat)
    requires SplitPre(P, R, p, cut, q, i, s)
    requires 1 <= x < |P| && x != p && x != q
    ensures q != p && NodeOk(SplitPages(P, p, cut, q, i, s), CutRegions(R, p, s), x)
  {
    hide Lt, SplitPages, CutRegions;
    SplitShape(P, R, p, cut, q, i, s);
    var Q, S := SplitPages(P, p, cut, q, i, s), CutRegions(R, p, s);
    assert NodeOk(P, R, x);
    forall j | 0 <= j < |P[x].entries| && !P[x].leaf
      ensures ChildOk(Q, S, x, j)
    {
      assert ChildOk(P, R, x, j);
      if P[x].entries[j].child == p {
        ParentUnique(P, R, x, j, q, i, p);
        assert false;
      }
    }
  }

  lemma SplitSiblings(P: seq<Page>, R: seq<Region>, p: nat, cut: nat, q: nat, i: nat, s: Bytes, x: nat)
    requires SplitPre(P, R, p, cut, q, i, s) && 1 <= x <= |P|
    ensures q != p && SibOk(SplitPages(P, p, cut, q, i, s), CutRegions(R, p, s), x)
  {
    hide Lt, SplitPages, CutRegions;
    OrderLaws();
    SplitShape(P, R, p, cut, q, i, s);
    assert NodeOk(P, R, p) && SibOk(P, R, p);
    assert Within(R[p], P[p].entries[0].key) && Within(R[p], P[p].entries[cut - 1].key);
    assert s != [];
    if x < |P| {
      assert SibOk(P, R, x);
      var nx, pv := P[x].next, P[x].prev;
      assert nx != P_INVALID ==> SibOk(P, R, nx);
      assert pv != P_INVALID ==> SibOk(P, R, pv);
    }
    var o := P[p].next;
    assert o != P_INVALID ==> SibOk(P, R, o);
  }

  lemma SplitParented(P: seq<Page>, R: seq<Region>, p: nat, cut: nat, q: nat, i: nat, s: Bytes, x: nat)
    requires SplitPre(P, R, p, cut, q, i, s) && 2 <= x <= |P|
    ensures q != p && Parented(SplitPages(P, p, cut, q, i, s), x)
  {
    hide Lt, SplitPages, CutRegions;
    SplitShape(P, R, p, cut, q, i, s);
    var Q := SplitPages(P, p, cut, q, i, s);
    if x == |P| {
      assert IsChild(Q, q, i + 1, x);
    } else {
      assert Parented(P, x);
      var u: nat, j: nat :| IsChild(P, u, j, x);
      assert NodeOk(P, R, p);
      if u == p {
        assert if j < cut then IsChild(Q, p, j, x) else IsChild(Q, |P|, j - cut, x);
      } else if u == q {
        assert IsChild(Q, q, if j <= i then j else j + 1, x);
      } else {
        assert IsChild(Q, u, j, x);
      }
    }
  }

  /** Cutting a page and telling its parent keeps the tree a search tree. */
  lemma SplitKeepsInv(P: seq<Page>, R: seq<Region>, p: nat, cut: nat, q: nat, i: nat, s: Bytes)
    requires SplitPre(P, R, p, cut, q, i, s)
    ensures q != p && Inv(SplitPages(P, p, cut, q, i, s), CutRegions(R, p, s))
  {
    hide Lt, NodeOk, SibOk, Parented, SplitPages, CutRegions;
    SplitShape(P, R, p, cut, q, i, s);
    var Q, S := SplitPages(P, p, cut, q, i, s), CutRegions(R, p, s);
    forall x | 1 <= x < |Q| ensures NodeOk(Q, S, x) {
      if x == p {
        SplitLeft(P, R, p, cut, q, i, s);
      } else if x == q {
        SplitParent(P, R, p, cut, q, i, s);
      } else if x == |P| {
        SplitRight(P, R, p, cut, q, i, s);
      } else {
        SplitOther(P, R, p, cut, q, i, s, x);
      }
    }
    forall x | 1 <= x < |Q| ensures SibOk(Q, S, x) {
      SplitSiblings(P, R, p, cut, q, i, s, x);
    }
    forall x | 2 <= x < |Q| ensures Parented(Q, x) {
      SplitParented(P, R, p, cut, q, i, s, x);
    }
  }
}
