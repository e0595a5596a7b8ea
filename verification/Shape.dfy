/** Global facts of a well-formed arena: paths, routing and separator copies. */
module Shape {
  import opened Bytes
  import opened Format
  import opened Entries
  import opened Tree

  /** The page that slots `s` lead to from the root, if they lead anywhere. */
  function Reach(P: seq<Page>, s: seq<nat>): Option<nat> {
    if s == [] then Some(1)
    else match Reach(P, s[..|s| - 1])
      case None => None
      case Some(q) =>
        var i := s[|s| - 1];
        if q < |P| && !P[q].leaf && i < |P[q].entries| && P[q].entries[i].Sep? then Some(P[q].entries[i].child)
        else None
  }

  /** Every hop goes one level down. */
  lemma {:induction false} ReachLevel(P: seq<Page>, R: seq<Region>, s: seq<nat>)
    requires Inv(P, R) && Reach(P, s).Some?
    ensures var x := Reach(P, s).value; 1 <= x < |P| && R[x].level + |s| == R[1].level
    ensures s != [] ==>
              var q := Reach(P, s[..|s| - 1]); q.Some? && IsChild(P, q.value, s[|s| - 1], Reach(P, s).value)
  {
    hide Lt;
    if s != [] {
      ReachLevel(P, R, s[..|s| - 1]);
      var q := Reach(P, s[..|s| - 1]).value;
      assert NodeOk(P, R, q) && ChildOk(P, R, q, s[|s| - 1]);
    }
  }

  /** Every page is reachable from the root, */
  lemma {:induction false} PathExists(P: seq<Page>, R: seq<Region>, x: nat) returns (s: seq<nat>)
    requires Inv(P, R) && 1 <= x < |P|
    ensures Reach(P, s) == Some(x)
    decreases R[1].level - R[x].level
  {
    hide Lt;
    assert NodeOk(P, R, x);
    if x == 1 {
      s := [];
    } else {
      assert Parented(P, x);
      var q: nat, i: nat :| IsChild(P, q, i, x);
      assert NodeOk(P, R, q) && ChildOk(P, R, q, i);
      var t := PathExists(P, R, q);
      s := t + [i];
      assert s[..|s| - 1] == t;
    }
  }

  /** and by one path only. */
  lemma {:induction false} PathUnique(P: seq<Page>, R: seq<Region>, s: seq<nat>, t: seq<nat>)
    requires Inv(P, R) && Reach(P, s).Some? && Reach(P, s) == Reach(P, t)
    ensures s == t
  {
    hide Lt, Inv;
    ReachLevel(P, R, s);
    ReachLevel(P, R, t);
    if s != [] {
      var s', t' := s[..|s| - 1], t[..|t| - 1];
      ReachLevel(P, R, s');
      ReachLevel(P, R, t');
      ParentUnique(P, R, Reach(P, s').value, s[|s| - 1], Reach(P, t').value, t[|t| - 1], Reach(P, s).value);
      PathUnique(P, R, s', t');
      assert s == s' + [s[|s| - 1]] && t == t' + [t[|t| - 1]];
    }
  }

  /** All leaves are equally deep: a path ends in a leaf exactly when it has as
      many hops as the tree has levels above the leaves. */
  lemma LeavesAtOneDepth(P: seq<Page>, R: seq<Region>, s: seq<nat>)
    requires Inv(P, R) && Reach(P, s).Some?
    ensures Reach(P, s).value < |P| && (P[Reach(P, s).value].leaf <==> |s| == R[1].level)
  {
    hide Lt;
    ReachLevel(P, R, s);
    assert NodeOk(P, R, Reach(P, s).value);
  }

  /** Every key below slot `i` of the page at `s` lies between the slot's separator
      and the next one. */
  lemma {:induction false} KeysUnderSlot(P: seq<Page>, R: seq<Region>, s: seq<nat>, i: nat, t: seq<nat>, k: Bytes)
    requires Inv(P, R) && Reach(P, s + [i] + t).Some?
    requires Reach(P, s + [i] + t).value < |P|
    requires exists j :: 0 <= j < |P[Reach(P, s + [i] + t).value].entries|
                         && P[Reach(P, s + [i] + t).value].entries[j].key == k
    ensures Reach(P, s).Some? && Reach(P, s).value < |P| && i < |P[Reach(P, s).value].entries|
    ensures var es := P[Reach(P, s).value].entries;
      Le(es[i].key, k) && (i + 1 < |es| ==> Lt(k, es[i + 1].key))
  {
    hide Lt;
    var x := Reach(P, s + [i] + t).value;
    ReachLevel(P, R, s + [i] + t);
    assert NodeOk(P, R, x);
    var j :| 0 <= j < |P[x].entries| && P[x].entries[j].key == k;
    assert Within(R[x], P[x].entries[j].key);
    RegionUnderSlot(P, R, s, i, t, k);
  }

  lemma {:induction false} RegionUnderSlot(P: seq<Page>, R: seq<Region>, s: seq<nat>, i: nat, t: seq<nat>, k: Bytes)
    requires Inv(P, R) && Reach(P, s + [i] + t).Some?
    requires var x := Reach(P, s + [i] + t).value; x < |P| && Within(R[x], k)
    ensures Reach(P, s).Some? && Reach(P, s).value < |P| && i < |P[Reach(P, s).value].entries|
    ensures var es := P[Reach(P, s).value].entries;
      Le(es[i].key, k) && (i + 1 < |es| ==> Lt(k, es[i + 1].key))
    decreases |t|
  {
    hide Lt, Inv, Within;
    var path := s + [i] + t;
    ReachLevel(P, R, path);
    var up := path[..|path| - 1];
    ReachLevel(P, R, up);
    RegionCount(P, R);
    ChildInside(P, R, Reach(P, up).value, path[|path| - 1], Reach(P, path).value, k);
    if t == [] {
      assert up == s;
    } else {
      assert up == s + [i] + t[..|t| - 1];
      RegionUnderSlot(P, R, s, i, t[..|t| - 1], k);
    }
  }

  /** A parent's stored key for an internal page is that page's first key, byte for
      byte; on the left spine both are empty. */
  lemma CopyUp(P: seq<Page>, R: seq<Region>, q: nat, i: nat, c: nat)
    requires Inv(P, R) && IsChild(P, q, i, c) && c < |P| && !P[c].leaf
    ensures P[c].entries != [] && P[q].entries[i].key == P[c].entries[0].key
    ensures P[c].prev == P_INVALID <==> P[c].entries[0].key == []
  {
    hide Lt;
    assert NodeOk(P, R, q) && ChildOk(P, R, q, i) && NodeOk(P, R, c) && SibOk(P, R, c);
  }

  /** Separators of an internal page strictly increase, and only the leftmost page
      of a level has the empty key in slot 0. */
  lemma SeparatorsIncrease(P: seq<Page>, R: seq<Region>, p: nat)
    requires Inv(P, R) && 1 <= p < |P| && !P[p].leaf
    ensures SortedKeys(P[p].entries) && P[p].entries != []
    ensures P[p].prev == P_INVALID <==> P[p].entries[0].key == []
  {
    hide Lt;
    assert NodeOk(P, R, p) && SibOk(P, R, p);
  }

  // ----- how many pages a tree of some height has -----

  ghost function UpTo(P: seq<Page>, R: seq<Region>, lv: nat): set<nat>
    requires |P| == |R|
  {
    set p: nat | 1 <= p < |P| && R[p].level <= lv
  }

  /** A page on every level. */
  lemma {:induction false} LevelInhabited(P: seq<Page>, R: seq<Region>, lv: nat) returns (p: nat)
    requires Inv(P, R) && lv <= R[1].level
    ensures 1 <= p < |P| && R[p].level == lv
    decreases R[1].level - lv
  {
    hide Lt;
    if lv == R[1].level {
      p := 1;
    } else {
      var q := LevelInhabited(P, R, lv + 1);
      assert NodeOk(P, R, q) && ChildOk(P, R, q, 0);
      p := P[q].entries[0].child;
    }
  }

  lemma {:induction false} LevelsCounted(P: seq<Page>, R: seq<Region>, lv: nat)
    requires Inv(P, R) && lv <= R[1].level
    ensures |UpTo(P, R, lv)| >= lv + 1
  {
    hide Lt, Inv;
    RegionCount(P, R);
    var p := LevelInhabited(P, R, lv);
    if lv == 0 {
      assert {p} <= UpTo(P, R, lv);
      SubsetSize({p}, UpTo(P, R, lv));
    } else {
      LevelsCounted(P, R, lv - 1);
      var s := UpTo(P, R, lv - 1) + {p};
      assert p !in UpTo(P, R, lv - 1);
      SubsetSize(s, UpTo(P, R, lv));
    }
  }

  lemma {:induction false} SubsetSize<T>(a: set<T>, b: set<T>)
    requires a <= b
    ensures |a| <= |b|
    ensures |a| == |b| ==> a == b
  {
    if a != {} {
      var x :| x in a;
      SubsetSize(a - {x}, b - {x});
      assert a == (a - {x}) + {x} && b == (b - {x}) + {x};
    }
  }

  /** A tree has more pages than levels. */
  lemma HeightBound(P: seq<Page>, R: seq<Region>)
    requires Inv(P, R)
    ensures R[1].level + 2 <= |P|
  {
    hide Lt, Inv;
    RegionCount(P, R);
    LevelsCounted(P, R, R[1].level);
    SubsetSize(UpTo(P, R, R[1].level), Range(1, |P|));
  }

  ghost function Range(lo: nat, hi: nat): (r: set<nat>)
    requires lo <= hi
    ensures forall k: nat :: k in r <==> lo <= k < hi
    ensures |r| == hi - lo
    decreases hi
  {
    if lo == hi then {} else Range(lo, hi - 1) + {hi - 1}
  }
}
