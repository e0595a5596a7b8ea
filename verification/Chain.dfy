/** Sibling chains, and the scan of the leaves along them. */
module Chain {
  import opened Bytes
  import opened Format
  import opened Entries
  import opened Tree
  import opened Contents

  /** Pages of `p`'s level to its right. */
  ghost function RightOf(P: seq<Page>, R: seq<Region>, p: nat): set<nat>
    requires p < |P| == |R|
  {
    set q: nat | 1 <= q < |P| && R[q].level == R[p].level && Lt(R[p].lo, R[q].lo)
  }

  /** `next` moves right, onto the region that starts where this one ends. */
  lemma NextIsRight(P: seq<Page>, R: seq<Region>, p: nat)
    requires Inv(P, R) && 1 <= p < |P| && P[p].next != P_INVALID
    ensures var q := P[p].next;
      && 1 <= q < |P| && R[q].level == R[p].level && Lt(R[p].lo, R[q].lo)
      && R[p].hi == Some(R[q].lo) && P[q].prev == p
      && RightOf(P, R, q) < RightOf(P, R, p)
  {
    hide Lt;
    OrderLaws();
    assert NodeOk(P, R, p) && SibOk(P, R, p);
    assert P[p].next in RightOf(P, R, p) && P[p].next !in RightOf(P, R, P[p].next);
  }

  /** Following `next` from `p` to the end of its level. */
  ghost function ChainFrom(P: seq<Page>, R: seq<Region>, p: nat): seq<nat>
    requires Inv(P, R) && 1 <= p < |P|
    decreases RightOf(P, R, p)
  {
    if P[p].next == P_INVALID then [p]
    else
      NextIsRight(P, R, p);
      [p] + ChainFrom(P, R, P[p].next)
  }

  /** A chain stays on its level and never moves left of its start. */
  lemma {:induction false} ChainOnLevel(P: seq<Page>, R: seq<Region>, p: nat)
    requires Inv(P, R) && 1 <= p < |P|
    ensures var c := ChainFrom(P, R, p);
      && c != [] && c[0] == p
      && forall i | 0 <= i < |c| :: 1 <= c[i] < |P| && R[c[i]].level == R[p].level && Le(R[p].lo, R[c[i]].lo)
    decreases RightOf(P, R, p)
  {
    hide Lt, Inv, RightOf;
    OrderLaws();
    RegionCount(P, R);
    if P[p].next != P_INVALID {
      NextIsRight(P, R, p);
      ChainOnLevel(P, R, P[p].next);
      var t := ChainFrom(P, R, P[p].next);
      assert ChainFrom(P, R, p) == [p] + t;
    }
  }

  /** A chain moves strictly right. */
  lemma {:induction false} ChainAscends(P: seq<Page>, R: seq<Region>, p: nat)
    requires Inv(P, R) && 1 <= p < |P|
    ensures var c := ChainFrom(P, R, p);
      && (forall i | 0 <= i < |c| :: c[i] < |R|)
      && forall i, j | 0 <= i < j < |c| :: Lt(R[c[i]].lo, R[c[j]].lo)
    decreases RightOf(P, R, p)
  {
    hide Lt, Inv, RightOf;
    OrderLaws();
    RegionCount(P, R);
    ChainOnLevel(P, R, p);
    if P[p].next != P_INVALID {
      NextIsRight(P, R, p);
      ChainOnLevel(P, R, P[p].next);
      ChainAscends(P, R, P[p].next);
      var t := ChainFrom(P, R, P[p].next);
      assert ChainFrom(P, R, p) == [p] + t;
    }
  }

  /** Consecutive pages link to each other both ways; only the last has no `next`. */
  lemma {:induction false} ChainLinked(P: seq<Page>, R: seq<Region>, p: nat)
    requires Inv(P, R) && 1 <= p < |P|
    ensures var c := ChainFrom(P, R, p);
      && c != [] && c[0] == p
      && (forall i | 0 <= i < |c| :: c[i] < |P|)
      && (forall i | 0 <= i < |c| - 1 :: P[c[i]].next == c[i + 1] && P[c[i + 1]].prev == c[i])
      && P[c[|c| - 1]].next == P_INVALID
    decreases RightOf(P, R, p)
  {
    hide Lt, Inv, RightOf;
    if P[p].next != P_INVALID {
      NextIsRight(P, R, p);
      ChainLinked(P, R, P[p].next);
      var t := ChainFrom(P, R, P[p].next);
      assert ChainFrom(P, R, p) == [p] + t;
    }
  }

  /** A page of the level that does not start left of `p` is on the chain from `p`. */
  lemma {:induction false} ChainReaches(P: seq<Page>, R: seq<Region>, p: nat, q: nat)
    requires Inv(P, R) && 1 <= p < |P| && 1 <= q < |P|
    requires R[q].level == R[p].level && Le(R[p].lo, R[q].lo)
    ensures q in ChainFrom(P, R, p)
    decreases RightOf(P, R, p)
  {
    hide Lt;
    OrderLaws();
    assert NodeOk(P, R, p) && SibOk(P, R, p) && NodeOk(P, R, q);
    if Within(R[p], R[q].lo) {
      RegionUnique(P, R, p, q, R[q].lo);
    } else {
      NextIsRight(P, R, p);
      ChainReaches(P, R, P[p].next, q);
    }
  }

  /** The leftmost page of level `lv`, below `p`. */
  ghost function LeftSpine(P: seq<Page>, R: seq<Region>, p: nat, lv: nat): nat
    requires Inv(P, R) && 1 <= p < |P| && lv <= R[p].level
    decreases R[p].level
  {
    if lv == R[p].level then p
    else
      assert NodeOk(P, R, p) && ChildOk(P, R, p, 0);
      LeftSpine(P, R, P[p].entries[0].child, lv)
  }

  lemma {:induction false} LeftSpineStart(P: seq<Page>, R: seq<Region>, p: nat, lv: nat)
    requires Inv(P, R) && 1 <= p < |P| && lv <= R[p].level
    ensures var l := LeftSpine(P, R, p, lv); 1 <= l < |P| && R[l].level == lv && R[l].lo == R[p].lo
    decreases R[p].level
  {
    hide Lt;
    if lv != R[p].level {
      assert NodeOk(P, R, p) && ChildOk(P, R, p, 0);
      LeftSpineStart(P, R, P[p].entries[0].child, lv);
    }
  }

  /** `c` is every page of level `lv`, each once, in key order, doubly linked. */
  ghost predicate LevelVisited(P: seq<Page>, R: seq<Region>, lv: nat, c: seq<nat>) {
    && |P| == |R| && c != []
    && (forall i | 0 <= i < |c| :: c[i] < |P|)
    && (forall q: nat | 1 <= q < |P| && R[q].level == lv :: q in c)
    && (forall i | 0 <= i < |c| :: 1 <= c[i] && R[c[i]].level == lv)
    && (forall i, j | 0 <= i < j < |c| :: c[i] != c[j] && Lt(R[c[i]].lo, R[c[j]].lo))
    && (forall i | 0 <= i < |c| - 1 :: P[c[i]].next == c[i + 1] && P[c[i + 1]].prev == c[i])
    && P[c[0]].prev == P_INVALID && P[c[|c| - 1]].next == P_INVALID
  }

  lemma LeftmostStart(P: seq<Page>, R: seq<Region>, l: nat)
    requires Inv(P, R) && 1 <= l < |P| && R[l].lo == R[1].lo
    ensures P[l].prev == P_INVALID && R[1].lo == []
  {
    hide Lt, NodeOk;
    assert SibOk(P, R, l);
  }

  /** At every level the chain from the left spine visits every page of the level,
      each once, in key order; `prev` undoes `next`, and the invalid page number
      marks exactly the two ends. */
  lemma LevelChain(P: seq<Page>, R: seq<Region>, lv: nat)
    requires Inv(P, R) && lv <= R[1].level
    ensures LevelVisited(P, R, lv, ChainFrom(P, R, (LeftSpineStart(P, R, 1, lv); LeftSpine(P, R, 1, lv))))
  {
    hide Lt, ChainFrom, Inv, NodeOk, LeftSpine;
    OrderLaws();
    RegionCount(P, R);
    LeftSpineStart(P, R, 1, lv);
    var l := LeftSpine(P, R, 1, lv);
    ChainOnLevel(P, R, l);
    ChainAscends(P, R, l);
    ChainLinked(P, R, l);
    assert P[l].prev == P_INVALID && R[1].lo == [] by { LeftmostStart(P, R, l); }
    forall q: nat | 1 <= q < |P| && R[q].level == lv ensures q in ChainFrom(P, R, l) {
      ChainReaches(P, R, l, q);
    }
  }

  // ----- the records along the chain -----

  /** Records of the leaves from `p` on, in chain order. */
  ghost function Scan(P: seq<Page>, R: seq<Region>, p: nat): seq<Entry>
    requires Inv(P, R) && p < |P|
    decreases p != 0, if p == 0 then {} else RightOf(P, R, p)
  {
    if p == 0 then []
    else if P[p].next == P_INVALID then P[p].entries
    else
      NextIsRight(P, R, p);
      P[p].entries + Scan(P, R, P[p].next)
  }

  /** A scan yields records of the tree in strictly increasing key order. */
  lemma {:induction false} ScanSorted(P: seq<Page>, R: seq<Region>, p: nat)
    requires Inv(P, R) && 1 <= p < |P| && P[p].leaf
    ensures var s := Scan(P, R, p);
      && SortedKeys(s)
      && (forall i | 0 <= i < |s| :: Le(R[p].lo, s[i].key))
      && (forall i | 0 <= i < |s| :: Has(P, s[i]))
    decreases RightOf(P, R, p)
  {
    hide Lt;
    OrderLaws();
    assert NodeOk(P, R, p);
    forall i | 0 <= i < |P[p].entries| ensures Has(P, P[p].entries[i]) && Within(R[p], P[p].entries[i].key) {
      assert Holds(P, p, P[p].entries[i]);
    }
    if P[p].next != P_INVALID {
      NextIsRight(P, R, p);
      assert NodeOk(P, R, P[p].next);
      ScanSorted(P, R, P[p].next);
    }
  }

  /** A record whose key is not left of `p` is met by the scan from `p`. */
  lemma {:induction false} ScanMeets(P: seq<Page>, R: seq<Region>, p: nat, q: nat, e: Entry)
    requires Inv(P, R) && 1 <= p < |P| && P[p].leaf && Holds(P, q, e) && Le(R[p].lo, e.key)
    ensures e in Scan(P, R, p)
    decreases RightOf(P, R, p)
  {
    hide Lt;
    OrderLaws();
    assert NodeOk(P, R, p) && SibOk(P, R, p) && NodeOk(P, R, q);
    var i :| 0 <= i < |P[q].entries| && P[q].entries[i] == e;
    assert Within(R[q], P[q].entries[i].key);
    if Within(R[p], e.key) {
      RegionUnique(P, R, p, q, e.key);
    } else {
      NextIsRight(P, R, p);
      assert NodeOk(P, R, P[p].next);
      ScanMeets(P, R, P[p].next, q, e);
    }
  }

  ghost function FirstLeaf(P: seq<Page>, R: seq<Region>): (l: nat)
    requires Inv(P, R)
    ensures 1 <= l < |P|
  {
    LeftSpineStart(P, R, 1, 0);
    LeftSpine(P, R, 1, 0)
  }

  /** The whole scan is the tree's records, each once, in key order. */
  lemma FullScan(P: seq<Page>, R: seq<Region>)
    requires Inv(P, R)
    ensures SortedKeys(Scan(P, R, FirstLeaf(P, R)))
    ensures forall e :: e in Scan(P, R, FirstLeaf(P, R)) <==> Has(P, e)
  {
    hide Lt;
    OrderLaws();
    LeftSpineStart(P, R, 1, 0);
    var l := FirstLeaf(P, R);
    assert NodeOk(P, R, l);
    ScanSorted(P, R, l);
    forall e | Has(P, e) ensures e in Scan(P, R, l) {
      var q: nat :| Holds(P, q, e);
      ScanMeets(P, R, l, q, e);
    }
  }
}
