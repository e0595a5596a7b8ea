/** Forward sequential scan of a file. */
module Iteration {
  import opened Bytes
  import opened Errors
  import opened Format
  import opened Entries
  import opened PageViews
  import opened Tree
  import opened Contents
  import opened Chain
  import opened Files
  import opened Reader

  datatype State =
    | Pristine
    | Active(view: PageView, index: nat)
    | Done

  /** An active iterator stands on a record of leaf `cur` of the tree. */
  ghost predicate StateOk(db: Db, P: seq<Page>, R: seq<Region>, at: seq<u32>, s: State, cur: nat) {
    && Inv(P, R)
    && (s.Active? ==>
          && 1 <= cur < |P| && P[cur].leaf && P[cur].pgno == cur
          && IsView(db, at, s.view, P[cur]) && s.index < |P[cur].entries|)
  }

  /** What a scan started at the left spine yields: the records along the leaf
      chain, unless the first leaf is empty, which ends it at once. */
  ghost function Yield(P: seq<Page>, R: seq<Region>): seq<Entry>
    requires Inv(P, R)
  {
    if P[FirstLeaf(P, R)].entries == [] then [] else Scan(P, R, FirstLeaf(P, R))
  }

  lemma NextInRange(P: seq<Page>, R: seq<Region>, p: nat)
    requires Inv(P, R) && 1 <= p < |P|
    ensures P[p].next < |P|
  {
    hide Lt;
    assert SibOk(P, R, p);
  }

  /** The records an iterator in state `s` on leaf `cur` has still to yield. */
  ghost function Remaining(P: seq<Page>, R: seq<Region>, s: State, cur: nat): seq<Entry>
    requires Inv(P, R) && (s.Active? ==> 1 <= cur < |P| && s.index <= |P[cur].entries|)
  {
    match s
    case Done => []
    case Pristine => Yield(P, R)
    case Active(_, i) =>
      NextInRange(P, R, cur);
      P[cur].entries[i..] + Scan(P, R, P[cur].next)
  }

  /** A scan starting at a leaf is its records, then the scan from the next leaf. */
  lemma ScanStep(P: seq<Page>, R: seq<Region>, p: nat)
    requires Inv(P, R) && 1 <= p < |P|
    ensures P[p].next < |P| && Scan(P, R, p) == P[p].entries + Scan(P, R, P[p].next)
  {
    hide Inv;
    NextInRange(P, R, p);
    if P[p].next == P_INVALID {
      assert P[p].entries + [] == P[p].entries;
    }
  }

  lemma ActiveStart(P: seq<Page>, R: seq<Region>, view: PageView, cur: nat)
    requires Inv(P, R) && 1 <= cur < |P|
    ensures Remaining(P, R, Active(view, 0), cur) == Scan(P, R, cur)
  {
    hide Inv;
    ScanStep(P, R, cur);
    assert P[cur].entries[0..] == P[cur].entries;
  }

  /** The left spine is walked through slot 0 of every internal page. */
  lemma SpineStep(P: seq<Page>, R: seq<Region>, p: nat)
    requires Inv(P, R) && 1 <= p < |P|
    ensures P[p].leaf ==> LeftSpine(P, R, p, 0) == p
    ensures !P[p].leaf ==>
              && P[p].entries != [] && P[p].entries[0].Sep?
              && var c := P[p].entries[0].child;
                1 <= c < |P| && R[c].level < R[p].level && LeftSpine(P, R, p, 0) == LeftSpine(P, R, c, 0)
  {
    hide Lt;
    assert NodeOk(P, R, p);
    if !P[p].leaf {
      assert ChildOk(P, R, p, 0);
    }
  }

  /** A leaf's right neighbour is a leaf, further right. */
  lemma NextLeaf(P: seq<Page>, R: seq<Region>, p: nat)
    requires Inv(P, R) && 1 <= p < |P| && P[p].leaf
    ensures P[p].next < |P|
    ensures P[p].next != P_INVALID ==> P[P[p].next].leaf && RightOf(P, R, P[p].next) < RightOf(P, R, p)
  {
    hide Lt, RightOf;
    NextInRange(P, R, p);
    if P[p].next != P_INVALID {
      NextIsRight(P, R, p);
      assert NodeOk(P, R, p) && NodeOk(P, R, P[p].next);
    }
  }

  class Iter {
    const db: Db
    var state: State
    ghost const P: seq<Page>
    ghost const R: seq<Region>
    ghost const at: seq<u32>
    ghost var cur: nat

    ghost predicate Valid()
      reads this
    {
      TreeFile(db, P, R, at) && StateOk(db, P, R, at, state, cur)
    }

    /** The records still to come. */
    ghost function ToCome(): seq<Entry>
      reads this
      requires Valid()
    {
      Remaining(P, R, state, cur)
    }

    constructor (db: Db, ghost P: seq<Page>, ghost R: seq<Region>, ghost at: seq<u32>)
      requires TreeFile(db, P, R, at)
      ensures Valid() && ToCome() == Yield(P, R)
      ensures this.db == db && this.P == P && this.R == R
    {
      this.db, this.P, this.R, this.at := db, P, R, at;
      state, cur := Pristine, 0;
    }

    /** Walk down the left spine to the first leaf. */
    method InitialState() returns (s: State, ghost leaf: nat)
      requires TreeFile(db, P, R, at)
      ensures !s.Pristine? && (s.Done? <==> Yield(P, R) == [])
      ensures StateOk(db, P, R, at, s, leaf) && Remaining(P, R, s, leaf) == Yield(P, R)
    {
      hide Inv, IsView, Lt, PageView.IsLeaf, PageView.IsInternal, PageView.InternalEntryAt, Scan, PageReads, ItemBytes;
      var pgno := P_ROOT;
      leaf := P_ROOT;
      RegionCount(P, R);
      while true
        invariant 1 <= leaf < |P| && |R| == |P| && pgno == at[leaf]
        invariant LeftSpine(P, R, leaf, 0) == FirstLeaf(P, R)
        decreases R[leaf].level
      {
        var view := OpenPage(db, pgno, leaf, P, R, at);
        SpineStep(P, R, leaf);
        ViewFields(db, at, view, P[leaf]);
        if view.nentries == 0 {
          return Done, leaf;
        }
        if view.IsLeaf() {
          ActiveStart(P, R, view, leaf);
          return Active(view, 0), leaf;
        }
        assert view.IsInternal();
        SepReads(db, at, view, P[leaf], 0);
        pgno, leaf := view.InternalEntryAt(0).value.child, P[leaf].entries[0].child;
      }
    }

    /** The next non-empty leaf from `next` on, which is leaf `p` of the tree. */
    method AdvanceLeaf(next: u32, ghost p: nat) returns (s: State, ghost leaf: nat)
      requires TreeFile(db, P, R, at) && p < |P| && next == at[p] && (p != 0 ==> P[p].leaf)
      ensures !s.Pristine? && (s.Done? <==> Scan(P, R, p) == [])
      ensures StateOk(db, P, R, at, s, leaf) && Remaining(P, R, s, leaf) == Scan(P, R, p)
    {
      hide Inv, IsView, Lt, RightOf, PageView.IsLeaf, PageView.IsInternal, PageReads;
      var nextPg: u32 := next;
      leaf := p;
      RegionCount(P, R);
      while nextPg != P_INVALID
        invariant leaf < |P| && nextPg == at[leaf] && (leaf != 0 ==> P[leaf].leaf)
        invariant Scan(P, R, leaf) == Scan(P, R, p)
        decreases leaf != 0, if leaf == 0 then {} else RightOf(P, R, leaf)
      {
        var view := OpenPage(db, nextPg, leaf, P, R, at);
        ViewFields(db, at, view, P[leaf]);
        assert view.IsLeaf();
        if view.nentries > 0 {
          ActiveStart(P, R, view, leaf);
          return Active(view, 0), leaf;
        }
        ScanStep(P, R, leaf);
        assert [] + Scan(P, R, P[leaf].next) == Scan(P, R, P[leaf].next);
        NextLeaf(P, R, leaf);
        nextPg, leaf := view.nextPg, P[leaf].next;
      }
      assert Scan(P, R, 0) == [];
      return Done, leaf;
    }

    /** Decode the record at the cursor and move past it. */
    method YieldCurrent(view: PageView, index: nat) returns (r: Result<(Bytes, Bytes)>)
      requires Valid() && state == Done && StateOk(db, P, R, at, Active(view, index), cur)
      modifies this`state, this`cur
      ensures Valid()
      ensures var rest := Remaining(P, R, Active(view, index), old(cur));
        && rest != [] && rest[0].Leaf? && r == Success((rest[0].key, rest[0].val))
        && ToCome() == rest[1..]
    {
      hide Inv, IsView, Lt, PageView.LeafEntryAt, ItemBytes, Scan, PageReads, PageView.IsLeaf, PageView.IsInternal;
      ghost var pg := P[cur];
      RecordReads(db, at, view, pg, index);
      ViewFields(db, at, view, pg);
      NextInRange(P, R, cur);
      var leaf := view.LeafEntryAt(index).value;
      var key := Materialise(db, view, leaf.key);
      var value := Materialise(db, view, leaf.data);
      RestAfter(pg.entries, index, Scan(P, R, pg.next));
      if index + 1 < view.nentries {
        state := Active(view, index + 1);
      } else {
        NextLeaf(P, R, cur);
        state, cur := AdvanceLeaf(view.nextPg, pg.next);
      }
      return Success((key.value, value.value));
    }

    /** The next record, or nothing, for good, once the scan is over. */
    method Next() returns (r: Option<Result<(Bytes, Bytes)>>)
      requires Valid()
      modifies this`state, this`cur
      ensures Valid()
      ensures old(ToCome()) == [] ==> r.None? && ToCome() == []
      ensures old(ToCome()) != [] ==>
                var e := old(ToCome())[0];
                e.Leaf? && r == Some(Success((e.key, e.val))) && ToCome() == old(ToCome())[1..]
    {
      hide Inv, IsView, Lt, Scan, Yield, PageReads;
      ghost var whole := ToCome();
      while true
        invariant Valid() && ToCome() == whole
        decreases state.Pristine?
      {
        var s := state;
        state := Done;
        match s {
          case Done =>
            return None;
          case Pristine =>
            state, cur := InitialState();
          case Active(view, index) =>
            var entry := YieldCurrent(view, index);
            return Some(entry);
        }
      }
    }
  }

  /** What follows record `i` of a leaf, then of the leaves after it. */
  lemma RestAfter(es: seq<Entry>, i: nat, after: seq<Entry>)
    requires i < |es|
    ensures var rest := es[i..] + after; rest[0] == es[i] && rest[1..] == es[i + 1..] + after
    ensures i + 1 == |es| ==> es[i + 1..] + after == after
  {
    assert es[i..] == [es[i]] + es[i + 1..];
  }

  /** Iterate a file to its end. */
  method Dump(db: Db, ghost P: seq<Page>, ghost R: seq<Region>, ghost at: seq<u32>) returns (all: seq<(Bytes, Bytes)>)
    requires TreeFile(db, P, R, at)
    ensures |all| == |Yield(P, R)|
    ensures forall i | 0 <= i < |all| :: Yield(P, R)[i] == Leaf(all[i].0, all[i].1)
  {
    hide Inv, IsView, Lt, Remaining, Scan, Yield, PageReads;
    all := [];
    var iter := new Iter(db, P, R, at);
    ghost var goal := Yield(P, R);
    while true
      invariant iter.Valid() && iter.P == P && iter.R == R && fresh(iter)
      invariant |all| <= |goal| && iter.ToCome() == goal[|all|..]
      invariant forall i | 0 <= i < |all| :: goal[i] == Leaf(all[i].0, all[i].1)
      decreases |iter.ToCome()|
    {
      var entry := iter.Next();
      if entry.None? {
        return;
      }
      assert goal[|all|..][0] == goal[|all|] && goal[|all|..][1..] == goal[|all| + 1..];
      all := all + [entry.value.value];
    }
  }

  /** `s` lists the bindings of `m`, each once, in strictly increasing key order. */
  ghost predicate Lists(s: seq<Entry>, m: map<Bytes, Bytes>) {
    && SortedKeys(s)
    && (forall i | 0 <= i < |s| :: s[i].Leaf?)
    && forall k, v :: Leaf(k, v) in s <==> k in m && m[k] == v
  }

  lemma HeldIsLeaf(P: seq<Page>, R: seq<Region>, e: Entry)
    requires Inv(P, R) && Has(P, e)
    ensures e.Leaf?
  {
    hide Lt;
    var p: nat :| Holds(P, p, e);
    assert NodeOk(P, R, p);
  }

  /** The scan along the chain lists the map the tree denotes. */
  lemma ScanLists(P: seq<Page>, R: seq<Region>, m: map<Bytes, Bytes>)
    requires Inv(P, R) && Denotes(P, m)
    ensures Lists(Scan(P, R, FirstLeaf(P, R)), m)
  {
    hide Lt, Inv, Scan, Has;
    FullScan(P, R);
    var s := Scan(P, R, FirstLeaf(P, R));
    forall i | 0 <= i < |s| ensures s[i].Leaf? {
      assert s[i] in s;
      HeldIsLeaf(P, R, s[i]);
    }
  }

  /** Iteration lists the whole map exactly when the first leaf holds a record or
      there is nothing to list: an empty first leaf ends it at once. */
  lemma IterationComplete(P: seq<Page>, R: seq<Region>, m: map<Bytes, Bytes>)
    requires Inv(P, R) && Denotes(P, m)
    ensures Lists(Yield(P, R), m) <==> P[FirstLeaf(P, R)].entries != [] || m == map[]
  {
    hide Lt, Inv, Scan, Has, Denotes;
    ScanLists(P, R, m);
    if P[FirstLeaf(P, R)].entries == [] {
      NothingListed(m);
    }
  }

  lemma NothingListed(m: map<Bytes, Bytes>)
    ensures Lists([], m) <==> m == map[]
  {
    if m != map[] {
      var k :| k in m;
      assert Leaf(k, m[k]) !in [];
    }
  }

  /** After insertions alone, iteration lists the whole map. */
  lemma PutOnlyIterates(P: seq<Page>, R: seq<Region>, m: map<Bytes, Bytes>)
    requires Inv(P, R) && Denotes(P, m) && FullLeaves(P)
    ensures Lists(Yield(P, R), m)
  {
    hide Lt, Scan, Denotes;
    IterationComplete(P, R, m);
    LeftSpineStart(P, R, 1, 0);
    var l := FirstLeaf(P, R);
    assert NodeOk(P, R, l);
    if l == 1 && P[1].entries == [] {
      assert NodeOk(P, R, 1);
      EmptyRootEmptyMap(P, R, m);
    }
  }

  lemma EmptyRootEmptyMap(P: seq<Page>, R: seq<Region>, m: map<Bytes, Bytes>)
    requires Inv(P, R) && Denotes(P, m) && P[1].leaf && P[1].entries == []
    ensures m == map[]
  {
    hide Lt, Has;
    OrderLaws();
    forall k ensures k !in m {
      assert Within(R[1], k);
      BoundInOwner(P, R, 1, k, m);
    }
  }
}
