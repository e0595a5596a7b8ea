/** Growing the tree at the root, and the two updates of a single leaf. */
module TreeUpdate {
  import opened Bytes
  import opened Format
  import opened Entries
  import opened Tree
  import opened TreeSplit

  // ----- the root -----

  /** The root promoted in place over its two halves, which become new pages. */
  function RootPages(P: seq<Page>, cut: nat, s: Bytes): seq<Page>
    requires 2 <= |P| && |P| + 1 < 0x1_0000_0000 && cut <= |P[1].entries|
  {
    var n: u32, m: u32 := |P|, |P| + 1;
    P[1 := Page(P_ROOT, P_INVALID, P_INVALID, false, [Sep([], n), Sep(s, m)])]
    + [Page(n, P_INVALID, m, P[1].leaf, P[1].entries[..cut]),
       Page(m, n, P_INVALID, P[1].leaf, P[1].entries[cut..])]
  }

  function RootRegions(R: seq<Region>, s: Bytes): seq<Region>
    requires 2 <= |R|
  {
    R[1 := R[1].(level := R[1].level + 1)]
    + [Region([], Some(s), R[1].level), Region(s, None, R[1].level)]
  }

  ghost predicate RootPre(P: seq<Page>, R: seq<Region>, cut: nat, s: Bytes) {
    Inv(P, R) && |P| + 1 < 0x1_0000_0000 && Separates(P[1], cut, s)
  }

  lemma RootShape(P: seq<Page>, R: seq<Region>, cut: nat, s: Bytes)
    requires RootPre(P, R, cut, s)
    ensures var Q := RootPages(P, cut, s); var S := RootRegions(R, s); var n := |P|;
      && |Q| == |S| == n + 2
      && Q[1] == Page(P_ROOT, P_INVALID, P_INVALID, false, [Sep([], n), Sep(s, n + 1)])
      && Q[n] == Page(n, P_INVALID, n + 1, P[1].leaf, P[1].entries[..cut])
      && Q[n + 1] == Page(n + 1, n, P_INVALID, P[1].leaf, P[1].entries[cut..])
      && S[1] == R[1].(level := R[1].level + 1)
      && S[n] == Region([], Some(s), R[1].level)
      && S[n + 1] == Region(s, None, R[1].level)
      && forall x | 2 <= x < n :: Q[x] == P[x] && S[x] == R[x]
  {
  }

  /** The promoted root. */
  lemma RootTop(P: seq<Page>, R: seq<Region>, cut: nat, s: Bytes)
    requires RootPre(P, R, cut, s)
    ensures NodeOk(RootPages(P, cut, s), RootRegions(R, s), 1)
  {
    hide Lt, RootPages, RootRegions;
    OrderLaws();
    RootShape(P, R, cut, s);
    var Q, S := RootPages(P, cut, s), RootRegions(R, s);
    assert NodeOk(P, R, 1);
    assert ChildOk(Q, S, 1, 0) && ChildOk(Q, S, 1, 1);
  }

  /** The pages below the old root. */
  lemma RootBelow(P: seq<Page>, R: seq<Region>, cut: nat, s: Bytes, x: nat)
    requires RootPre(P, R, cut, s) && 2 <= x < |P|
    ensures NodeOk(RootPages(P, cut, s), RootRegions(R, s), x)
  {
    hide Lt, RootPages, RootRegions;
    RootShape(P, R, cut, s);
    var Q, S := RootPages(P, cut, s), RootRegions(R, s);
    assert NodeOk(P, R, x);
    forall j | 0 <= j < |P[x].entries| && !P[x].leaf ensures ChildOk(Q, S, x, j) {
      assert ChildOk(P, R, x, j);
    }
  }

  /** The left half of the old root. */
  lemma RootLeft(P: seq<Page>, R: seq<Region>, cut: nat, s: Bytes)
    requires RootPre(P, R, cut, s)
    ensures NodeOk(RootPages(P, cut, s), RootRegions(R, s), |P|)
  {
    hide Lt, RootPages, RootRegions;
    OrderLaws();
    RootShape(P, R, cut, s);
    var Q, S, n := RootPages(P, cut, s), RootRegions(R, s), |P|;
    assert NodeOk(P, R, 1);
    assert Within(R[1], P[1].entries[cut - 1].key);
    forall j | 0 <= j < cut && !P[1].leaf ensures ChildOk(Q, S, n, j) {
      assert ChildOk(P, R, 1, j);
    }
    forall j | 0 <= j < cut ensures Within(S[n], Q[n].entries[j].key) {
      assert Q[n].entries[j] == P[1].entries[j] && Within(R[1], P[1].entries[j].key);
    }
  }

  /** The right half of the old root. */
  lemma RootRight(P: seq<Page>, R: seq<Region>, cut: nat, s: Bytes)
    requires RootPre(P, R, cut, s)
    ensures NodeOk(RootPages(P, cut, s), RootRegions(R, s), |P| + 1)
  {
    hide Lt, RootPages, RootRegions;
    OrderLaws();
    RootShape(P, R, cut, s);
    var Q, S, m, es := RootPages(P, cut, s), RootRegions(R, s), |P| + 1, P[1].entries;
    assert NodeOk(P, R, 1);
    forall j | 0 <= j < |es| - cut && !P[1].leaf ensures ChildOk(Q, S, m, j) {
      assert ChildOk(P, R, 1, cut + j);
    }
    forall j | 0 <= j < |es| - cut ensures Within(S[m], Q[m].entries[j].key) {
      assert Q[m].entries[j] == es[cut + j] && Within(R[1], es[cut + j].key);
      assert Le(s, es[cut].key);
    }
  }

  lemma RootSiblings(P: seq<Page>, R: seq<Region>, cut: nat, s: Bytes, x: nat)
    requires RootPre(P, R, cut, s) && 1 <= x < |P| + 2
    ensures SibOk(RootPages(P, cut, s), RootRegions(R, s), x)
  {
    hide Lt, RootPages, RootRegions;
    OrderLaws();
    RootShape(P, R, cut, s);
    assert NodeOk(P, R, 1) && SibOk(P, R, 1);
    if 2 <= x < |P| {
      assert SibOk(P, R, x) && NodeOk(P, R, x);
    }
  }

  lemma RootParented(P: seq<Page>, R: seq<Region>, cut: nat, s: Bytes, x: nat)
    requires RootPre(P, R, cut, s) && 2 <= x < |P| + 2
    ensures Parented(RootPages(P, cut, s), x)
  {
    hide Lt, RootPages, RootRegions;
    RootShape(P, R, cut, s);
    var Q, n := RootPages(P, cut, s), |P|;
    if x >= n {
      assert IsChild(Q, 1, x - n, x);
    } else {
      assert Parented(P, x);
      var u: nat, j: nat :| IsChild(P, u, j, x);
      assert NodeOk(P, R, 1);
      if u == 1 {
        assert if j < cut then IsChild(Q, n, j, x) else IsChild(Q, n + 1, j - cut, x);
      } else {
        assert IsChild(Q, u, j, x);
      }
    }
  }

  /** In-place root promotion keeps the tree a search tree, one level taller. */
  lemma RootKeepsInv(P: seq<Page>, R: seq<Region>, cut: nat, s: Bytes)
    requires RootPre(P, R, cut, s)
    ensures Inv(RootPages(P, cut, s), RootRegions(R, s))
  {
    hide Lt, NodeOk, SibOk, Parented, RootPages, RootRegions;
    RootShape(P, R, cut, s);
    var Q, S := RootPages(P, cut, s), RootRegions(R, s);
    forall x | 1 <= x < |Q| ensures NodeOk(Q, S, x) && SibOk(Q, S, x) {
      if x == 1 {
        RootTop(P, R, cut, s);
      } else if x < |P| {
        RootBelow(P, R, cut, s, x);
      } else if x == |P| {
        RootLeft(P, R, cut, s);
      } else {
        RootRight(P, R, cut, s);
      }
      RootSiblings(P, R, cut, s, x);
    }
    forall x | 2 <= x < |Q| ensures Parented(Q, x) {
      RootParented(P, R, cut, s, x);
    }
  }

  // ----- one leaf -----

  /** `idx` is where `k` sorts among the keys of `es`, none of which is `k`. */
  predicate SortsAt(es: seq<Entry>, idx: nat, k: Bytes) {
    && idx <= |es|
    && (forall i | 0 <= i < idx :: Lt(es[i].key, k))
    && (forall i | idx <= i < |es| :: Lt(k, es[i].key))
  }

  function WithEntries(P: seq<Page>, p: nat, es: seq<Entry>): seq<Page>
    requires p < |P|
  {
    P[p := P[p].(entries := es)]
  }

  /** New records for a leaf that stay sorted and inside its region. */
  lemma LeafKeepsInv(P: seq<Page>, R: seq<Region>, p: nat, es: seq<Entry>)
    requires Inv(P, R) && 1 <= p < |P| && P[p].leaf
    requires SortedKeys(es) && KeysWithin(es, R[p]) && forall i | 0 <= i < |es| :: es[i].Leaf?
    ensures Inv(WithEntries(P, p, es), R)
  {
    hide Lt;
    var Q := WithEntries(P, p, es);
    forall x | 1 <= x < |Q| ensures NodeOk(Q, R, x) && SibOk(Q, R, x) {
      assert NodeOk(P, R, x) && SibOk(P, R, x);
      forall j | 0 <= j < |P[x].entries| && !P[x].leaf ensures ChildOk(Q, R, x, j) {
        assert ChildOk(P, R, x, j);
      }
    }
    forall x | 2 <= x < |Q| ensures Parented(Q, x) {
      assert Parented(P, x);
      var u: nat, j: nat :| IsChild(P, u, j, x);
      assert IsChild(Q, u, j, x);
    }
  }

  lemma InsertKeepsInv(P: seq<Page>, R: seq<Region>, p: nat, idx: nat, k: Bytes, v: Bytes)
    requires Inv(P, R) && 1 <= p < |P| && P[p].leaf
    requires Within(R[p], k) && SortsAt(P[p].entries, idx, k)
    ensures Inv(WithEntries(P, p, InsertAt(P[p].entries, idx, Leaf(k, v))), R)
  {
    hide Lt;
    assert NodeOk(P, R, p);
    LeafKeepsInv(P, R, p, InsertAt(P[p].entries, idx, Leaf(k, v)));
  }

  lemma DeleteKeepsInv(P: seq<Page>, R: seq<Region>, p: nat, idx: nat)
    requires Inv(P, R) && 1 <= p < |P| && P[p].leaf && idx < |P[p].entries|
    ensures Inv(WithEntries(P, p, RemoveAt(P[p].entries, idx)), R)
  {
    hide Lt;
    assert NodeOk(P, R, p);
    LeafKeepsInv(P, R, p, RemoveAt(P[p].entries, idx));
  }
}
