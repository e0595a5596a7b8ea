/** The records a tree holds, and the finite map they denote. */
module Contents {
  import opened Bytes
  import opened Entries
  import opened Tree
  import opened TreeSplit
  import opened TreeUpdate

  predicate Holds(P: seq<Page>, p: nat, e: Entry) {
    1 <= p < |P| && P[p].leaf && e in P[p].entries
  }

  ghost predicate Has(P: seq<Page>, e: Entry) {
    exists p: nat :: Holds(P, p, e)
  }

  /** The leaves hold exactly the bindings of `m`. */
  ghost predicate Denotes(P: seq<Page>, m: map<Bytes, Bytes>) {
    forall k, v :: Has(P, Leaf(k, v)) <==> k in m && m[k] == v
  }

  /** A record can only be in the leaf whose region owns its key. */
  lemma OnlyInOwner(P: seq<Page>, R: seq<Region>, p: nat, e: Entry)
    requires Inv(P, R) && 1 <= p < |P| && P[p].leaf && Within(R[p], e.key)
    ensures Has(P, e) <==> e in P[p].entries
  {
    hide Lt;
    assert NodeOk(P, R, p);
    if Has(P, e) {
      var x: nat :| Holds(P, x, e);
      assert NodeOk(P, R, x);
      RegionUnique(P, R, p, x, e.key);
    }
    if e in P[p].entries {
      assert Holds(P, p, e);
    }
  }

  /** A split moves records, and neither loses nor invents one. */
  lemma SplitKeepsRecords(P: seq<Page>, R: seq<Region>, p: nat, cut: nat, q: nat, i: nat, s: Bytes, e: Entry)
    requires SplitPre(P, R, p, cut, q, i, s)
    ensures q != p && (Has(SplitPages(P, p, cut, q, i, s), e) <==> Has(P, e))
  {
    hide Lt, SplitPages, CutRegions, Inv;
    SplitShape(P, R, p, cut, q, i, s);
    var Q, es := SplitPages(P, p, cut, q, i, s), P[p].entries;
    assert es == es[..cut] + es[cut..];
    assert e in es <==> e in es[..cut] || e in es[cut..];
    if Has(P, e) {
      var x: nat :| Holds(P, x, e);
      assert if x != p || e in es[..cut] then Holds(Q, x, e) else Holds(Q, |P|, e);
    }
    if Has(Q, e) {
      var x: nat :| Holds(Q, x, e);
      assert Holds(P, if x == |P| then p else x, e);
    }
  }

  lemma RootKeepsRecords(P: seq<Page>, R: seq<Region>, cut: nat, s: Bytes, e: Entry)
    requires RootPre(P, R, cut, s)
    ensures Has(RootPages(P, cut, s), e) <==> Has(P, e)
  {
    hide Lt, RootPages, RootRegions, Inv;
    RootShape(P, R, cut, s);
    var Q, es := RootPages(P, cut, s), P[1].entries;
    assert es == es[..cut] + es[cut..];
    assert e in es <==> e in es[..cut] || e in es[cut..];
    if Has(P, e) {
      var x: nat :| Holds(P, x, e);
      assert Holds(Q, if x != 1 then x else if e in es[..cut] then |P| else |P| + 1, e);
    }
    if Has(Q, e) {
      var x: nat :| Holds(Q, x, e);
      assert Holds(P, if x >= |P| then 1 else x, e);
    }
  }

  /** Splits keep the map. */
  lemma SplitKeepsMap(P: seq<Page>, R: seq<Region>, p: nat, cut: nat, q: nat, i: nat, s: Bytes, m: map<Bytes, Bytes>)
    requires SplitPre(P, R, p, cut, q, i, s) && Denotes(P, m)
    ensures q != p && Denotes(SplitPages(P, p, cut, q, i, s), m)
  {
    hide Lt, SplitPages, Inv, Has;
    SplitShape(P, R, p, cut, q, i, s);
    forall k, v ensures Has(SplitPages(P, p, cut, q, i, s), Leaf(k, v)) <==> k in m && m[k] == v {
      SplitKeepsRecords(P, R, p, cut, q, i, s, Leaf(k, v));
    }
  }

  lemma RootKeepsMap(P: seq<Page>, R: seq<Region>, cut: nat, s: Bytes, m: map<Bytes, Bytes>)
    requires RootPre(P, R, cut, s) && Denotes(P, m)
    ensures Denotes(RootPages(P, cut, s), m)
  {
    hide Lt, RootPages, Has;
    forall k, v ensures Has(RootPages(P, cut, s), Leaf(k, v)) <==> k in m && m[k] == v {
      RootKeepsRecords(P, R, cut, s, Leaf(k, v));
    }
  }

  /** A key is bound exactly when the leaf that owns it holds it. */
  lemma BoundInOwner(P: seq<Page>, R: seq<Region>, p: nat, k: Bytes, m: map<Bytes, Bytes>)
    requires Inv(P, R) && Denotes(P, m) && 1 <= p < |P| && P[p].leaf && Within(R[p], k)
    ensures k in m <==> exists i :: 0 <= i < |P[p].entries| && P[p].entries[i].key == k
    ensures forall i | 0 <= i < |P[p].entries| && P[p].entries[i].key == k ::
              k in m && P[p].entries[i] == Leaf(k, m[k])
  {
    hide Lt, Inv, Has;
    if k in m {
      OnlyInOwner(P, R, p, Leaf(k, m[k]));
      var i :| 0 <= i < |P[p].entries| && P[p].entries[i] == Leaf(k, m[k]);
    }
    forall i | 0 <= i < |P[p].entries| && P[p].entries[i].key == k
      ensures k in m && P[p].entries[i] == Leaf(k, m[k])
    {
      var e := P[p].entries[i];
      LeafKind(P, R, p, i);
      OnlyInOwner(P, R, p, e);
      assert Has(P, Leaf(k, e.val));
    }
  }

  lemma LeafKind(P: seq<Page>, R: seq<Region>, p: nat, i: nat)
    requires Inv(P, R) && 1 <= p < |P| && P[p].leaf && i < |P[p].entries|
    ensures P[p].entries[i].Leaf?
  {
    hide Lt;
    assert NodeOk(P, R, p);
  }

  /** Inserting a record adds its binding and no other. */
  lemma InsertAddsBinding(P: seq<Page>, R: seq<Region>, p: nat, idx: nat, k: Bytes, v: Bytes, m: map<Bytes, Bytes>)
    requires Inv(P, R) && Denotes(P, m) && 1 <= p < |P| && P[p].leaf
    requires Within(R[p], k) && SortsAt(P[p].entries, idx, k)
    ensures k !in m
    ensures Denotes(WithEntries(P, p, InsertAt(P[p].entries, idx, Leaf(k, v))), m[k := v])
  {
    hide Lt, Inv;
    OrderLaws();
    BoundInOwner(P, R, p, k, m);
    assert forall i | 0 <= i < |P[p].entries| :: P[p].entries[i].key != k;
    var es := P[p].entries;
    var fs := InsertAt(es, idx, Leaf(k, v));
    var Q := WithEntries(P, p, fs);
    forall k', v' ensures Has(Q, Leaf(k', v')) <==> k' in m[k := v] && m[k := v][k'] == v' {
      var e := Leaf(k', v');
      assert e in fs <==> e == Leaf(k, v) || e in es by {
        assert es == es[..idx] + es[idx..];
      }
      if Has(P, e) {
        var x: nat :| Holds(P, x, e);
        assert Holds(Q, x, e);
      }
      if e == Leaf(k, v) {
        assert Holds(Q, p, e);
      } else if Has(Q, e) {
        var x: nat :| Holds(Q, x, e);
        assert Holds(P, x, e);
      }
    }
  }

  /** Deleting a record removes its binding and no other. */
  lemma DeleteDropsBinding(P: seq<Page>, R: seq<Region>, p: nat, idx: nat, m: map<Bytes, Bytes>)
    requires Inv(P, R) && Denotes(P, m) && 1 <= p < |P| && P[p].leaf && idx < |P[p].entries|
    ensures Denotes(WithEntries(P, p, RemoveAt(P[p].entries, idx)), m - {P[p].entries[idx].key})
  {
    hide Lt;
    OrderLaws();
    assert NodeOk(P, R, p);
    var es := P[p].entries;
    var k := es[idx].key;
    BoundInOwner(P, R, p, k, m);
    var fs := RemoveAt(es, idx);
    var Q := WithEntries(P, p, fs);
    forall k', v' ensures Has(Q, Leaf(k', v')) <==> k' in m - {k} && (m - {k})[k'] == v' {
      var e := Leaf(k', v');
      RemovedMembers(es, idx, e);
      if Has(P, e) && k' != k {
        var x: nat :| Holds(P, x, e);
        assert Holds(Q, x, e);
      }
      if Has(Q, e) {
        var x: nat :| Holds(Q, x, e);
        assert Holds(P, x, e);
        assert Has(P, e);
        if k' == k {
          OwnerOfRecord(P, R, p, idx, x, e);
        }
      }
    }
  }

  lemma OwnerOfRecord(P: seq<Page>, R: seq<Region>, p: nat, idx: nat, x: nat, e: Entry)
    requires Inv(P, R) && 1 <= p < |P| && P[p].leaf && idx < |P[p].entries|
    requires Holds(P, x, e) && e.key == P[p].entries[idx].key
    ensures x == p
  {
    hide Lt;
    assert NodeOk(P, R, p) && NodeOk(P, R, x);
    RegionUnique(P, R, p, x, e.key);
  }

  lemma RemovedMembers(es: seq<Entry>, idx: nat, e: Entry)
    requires SortedKeys(es) && idx < |es|
    ensures e in RemoveAt(es, idx) <==> e in es && e.key != es[idx].key
  {
    hide Lt;
    OrderLaws();
    if e in es && e.key != es[idx].key {
      var i :| 0 <= i < |es| && es[i] == e;
      assert RemoveAt(es, idx)[if i < idx then i else i - 1] == e;
    }
    if e in RemoveAt(es, idx) {
      var i :| 0 <= i < |es| - 1 && RemoveAt(es, idx)[i] == e;
      assert es[if i < idx then i else i + 1] == e;
    }
  }
}
