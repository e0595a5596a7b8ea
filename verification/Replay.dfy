/** Whole runs: replay a trace of operations, write the file, read it back. */
module Replays {
  import opened Bytes
  import opened Errors
  import opened Format
  import opened Entries
  import opened Tree
  import opened Contents
  import opened Chain
  import opened Shape
  import opened Spines
  import opened Arena
  import opened MetaPage
  import opened Files
  import opened Reader
  import opened Iteration
  import opened RawFormat
  import opened RawReads
  import opened Steps
  import opened Writers

  datatype Op =
    | PutOp(key: Bytes, val: Bytes)
    | DelOp(key: Bytes)

  /** One operation on a finite map, without overwriting. */
  function Apply(m: map<Bytes, Bytes>, op: Op): map<Bytes, Bytes> {
    match op
    case PutOp(k, v) => if TooLarge(k, v, DEFAULT_PSIZE) || k in m then m else m[k := v]
    case DelOp(k) => m - {k}
  }

  function Outcome(m: map<Bytes, Bytes>, op: Op): Result<bool> {
    match op
    case PutOp(k, v) => if TooLarge(k, v, DEFAULT_PSIZE) then Failure(EntryTooLarge(|k|, |v|)) else Success(k !in m)
    case DelOp(k) => Success(k in m)
  }

  function ApplyAll(ops: seq<Op>): map<Bytes, Bytes> {
    if ops == [] then map[] else Apply(ApplyAll(ops[..|ops| - 1]), ops[|ops| - 1])
  }

  /** On a map `m` a put is refused for its size, or finds its key bound, or is of a
      half-bounded entry. */
  predicate Allowed(m: map<Bytes, Bytes>, op: Op) {
    op.PutOp? ==>
      || TooLarge(op.key, op.val, DEFAULT_PSIZE) || op.key in m
      || HalfBounded(Leaf(op.key, op.val), DEFAULT_PSIZE)
  }

  predicate AllAllowed(ops: seq<Op>) {
    forall i | 0 <= i < |ops| :: Allowed(ApplyAll(ops[..i]), ops[i])
  }

  lemma EmptyRun(ops: seq<Op>)
    ensures ApplyAll(ops[..0]) == map[] && Puts(ops[..0]) == 0
  {
  }

  lemma ApplyAllStep(ops: seq<Op>, n: nat)
    requires n < |ops|
    ensures ApplyAll(ops[..n + 1]) == Apply(ApplyAll(ops[..n]), ops[n])
    ensures Puts(ops[..n + 1]) == Puts(ops[..n]) + if ops[n].PutOp? then 1 else 0
  {
    hide Apply;
    assert ops[..n + 1][..n] == ops[..n];
  }

  // ----- how many pages a run can take -----

  /** The puts of a trace. */
  function Puts(ops: seq<Op>): nat {
    if ops == [] then 0 else Puts(ops[..|ops| - 1]) + if ops[|ops| - 1].PutOp? then 1 else 0
  }

  lemma {:induction false} PutsPrefix(ops: seq<Op>, n: nat)
    requires n <= |ops|
    ensures Puts(ops[..n]) <= Puts(ops)
  {
    if n == |ops| {
      assert ops[..n] == ops;
    } else {
      PutsPrefix(ops[..|ops| - 1], n);
      assert ops[..|ops| - 1][..n] == ops[..n];
    }
  }

  /** Pages after so many puts: each adds at most one a level and two for the root,
      and one level. */
  function PageBound(puts: nat): nat {
    if puts == 0 then 2 else PageBound(puts - 1) + puts + 1
  }

  lemma {:induction false} PageBoundGrows(a: nat, b: nat)
    requires a <= b
    ensures PageBound(a) <= PageBound(b)
  {
    if a < b {
      PageBoundGrows(a, b - 1);
    }
  }

  lemma {:induction false} PageBoundIs(puts: nat)
    ensures 2 * PageBound(puts) == puts * (puts + 3) + 4
  {
    if puts > 0 {
      PageBoundIs(puts - 1);
      assert puts * (puts + 3) == (puts - 1) * (puts + 2) + 2 * puts + 2;
    }
  }

  /** So many puts never use half the page numbers. */
  const SURE_PUTS := 65534

  lemma SurePuts(puts: nat)
    requires puts <= SURE_PUTS
    ensures 2 * PageBound(puts) <= PAGE_LIMIT
  {
    PageBoundGrows(puts, SURE_PUTS);
    PageBoundIs(SURE_PUTS);
  }

  // ----- a run of the writer -----

  /** One operation of a trace. */
  method Perform(w: Writer, op: Op) returns (r: Result<bool>)
    requires w.Valid() && w.psize == DEFAULT_PSIZE && (op.PutOp? ==> w.CanPut(op.key, op.val))
    modifies w
    ensures w.Valid()
    ensures w.m == Apply(old(w.m), op) && r == Outcome(old(w.m), op)
    ensures 2 <= |w.R| && 2 <= |old(w.R)|
    ensures w.Height() <= old(w.R)[1].level + if op.PutOp? then 1 else 0
    ensures |w.P| <= |old(w.P)| + if op.PutOp? then old(w.R)[1].level + 2 else 0
    ensures old(PagesHalfBounded(w.P, w.psize)) && Allowed(old(w.m), op) ==> PagesHalfBounded(w.P, w.psize)
    ensures op.PutOp? && old(FullLeaves(w.P)) ==> FullLeaves(w.P)
  {
    hide Inv, Denotes, Stores, PagesHalfBounded, TooLarge, HalfBounded, FullLeaves, Inserted, Writer.CanPut;
    RegionCount(w.P, w.R);
    ghost var P0, R0 := w.P, w.R;
    match op {
      case PutOp(key, val) =>
        r := w.Put(key, val);
        if !TooLarge(key, val, w.psize) && key !in old(w.m) {
          InsertedGrowth(P0, R0, w.P, Leaf(key, val), w.psize);
          if FullLeaves(P0) {
            FullAfterInsertion(P0, R0, w.P, Leaf(key, val), w.psize);
          }
        }
      case DelOp(key) =>
        r := w.Del(key);
    }
  }

  lemma CanPerform(w: Writer, op: Op)
    requires w.Valid() && w.psize == DEFAULT_PSIZE && PagesHalfBounded(w.P, w.psize)
    requires op.PutOp? && Allowed(w.m, op) && 2 * |w.P| <= PAGE_LIMIT
    ensures w.CanPut(op.key, op.val)
  {
    hide Inv, Denotes, Stores, PagesHalfBounded, TooLarge, HalfBounded;
    HeightBound(w.P, w.R);
    RegionCount(w.P, w.R);
  }

  /** Replay `ops` on a fresh writer.  Every outcome, and the contents reached, are
      those of the finite map.  A run ends early only when the 32-bit page numbers
      are half used, and so never within `SURE_PUTS` puts. */
  method Replay(ops: seq<Op>) returns (w: Writer, results: seq<Result<bool>>)
    requires AllAllowed(ops)
    ensures fresh(w) && w.Valid() && w.psize == DEFAULT_PSIZE && w.flags == B_NODUPS
    ensures w.free == P_INVALID && w.nrecs == 0
    ensures |results| <= |ops| && w.m == ApplyAll(ops[..|results|])
    ensures forall i | 0 <= i < |results| :: results[i] == Outcome(ApplyAll(ops[..i]), ops[i])
    ensures |results| < |ops| ==> 2 * |w.P| > PAGE_LIMIT
    ensures Puts(ops) <= SURE_PUTS ==> |results| == |ops|
    ensures (forall i | 0 <= i < |results| :: ops[i].PutOp?) ==> FullLeaves(w.P)
  {
    hide Inv, Denotes, Stores, PagesHalfBounded, FullLeaves, Apply, ApplyAll, Outcome, Allowed, Writer.Core,
         Writer.CanPut, Puts, PageBound;
    w := new Writer.CreateNew();
    results := [];
    EmptyRun(ops);
    StartPages(w);
    while |results| < |ops|
      invariant fresh(w) && w.Valid() && w.psize == DEFAULT_PSIZE && w.flags == B_NODUPS
      invariant w.free == P_INVALID && w.nrecs == 0
      invariant |results| <= |ops| && w.m == ApplyAll(ops[..|results|])
      invariant forall i | 0 <= i < |results| :: results[i] == Outcome(ApplyAll(ops[..i]), ops[i])
      invariant (forall i | 0 <= i < |results| :: ops[i].PutOp?) ==> FullLeaves(w.P)
      invariant PagesHalfBounded(w.P, w.psize)
      invariant 2 <= |w.R| && w.Height() <= Puts(ops[..|results|]) && |w.P| <= PageBound(Puts(ops[..|results|]))
    {
      var count := w.PageCount();
      var n := |results|;
      if 2 * count > PAGE_LIMIT {
        TooManyPuts(ops, n, count);
        return;
      }
      assert Allowed(ApplyAll(ops[..n]), ops[n]);
      if ops[n].PutOp? {
        CanPerform(w, ops[n]);
      }
      var r := Perform(w, ops[n]);
      ApplyAllStep(ops, n);
      BoundStep(Puts(ops[..n]));
      results := results + [r];
    }
    assert ops[..|ops|] == ops;
  }

  lemma StartPages(w: Writer)
    requires |w.P| == 2 && w.P[1].leaf
    ensures FullLeaves(w.P) && |w.P| <= PageBound(0)
  {
  }

  lemma BoundStep(puts: nat)
    ensures PageBound(puts + 1) == PageBound(puts) + puts + 2
  {
  }

  lemma TooManyPuts(ops: seq<Op>, n: nat, count: nat)
    requires n <= |ops| && count <= PageBound(Puts(ops[..n])) && 2 * count > PAGE_LIMIT
    ensures Puts(ops) > SURE_PUTS
  {
    PutsPrefix(ops, n);
    PageBoundGrows(Puts(ops[..n]), Puts(ops));
    if Puts(ops) <= SURE_PUTS {
      SurePuts(Puts(ops));
    }
  }

  // ----- the file -----

  /** The finished file opens, as the tree it was written from. */
  lemma FinishedFileOpens(file: Bytes, psize: nat, swap: bool, P: seq<Page>, R: seq<Region>, free: u32, nrecs: u32)
    requires Stores(file, psize, swap, P) && 2 <= |P| <= 0x1_0000_0000 && Inv(P, R)
    requires psize % 2 == 0 && MetaWords(file, swap, psize, free, nrecs, B_NODUPS)
    ensures Open(file) == Success(Db(file, psize, swap)) && TreeFile(Db(file, psize, swap), P, R, Plain(|P|))
  {
    hide Inv, MetaWords, ParseMeta, PageReads, PackedAt;
    StoredReads(Db(file, psize, swap), P, R);
    MetaRecognised(file, swap, psize, free, nrecs, B_NODUPS);
    MetaLongEnough(file, swap, psize, free, nrecs, B_NODUPS);
    ModOfProduct(|P|, psize);
  }

  lemma MetaLongEnough(b: Bytes, swap: bool, psize: u32, free: u32, nrecs: u32, flags: u32)
    requires MetaWords(b, swap, psize, free, nrecs, flags)
    ensures META_SIZE <= |b|
  {
  }

  lemma MetaAtHead(file: Bytes, n: nat, swap: bool, psize: u32, free: u32, nrecs: u32, flags: u32)
    requires n <= |file| && MetaWords(file[..n], swap, psize, free, nrecs, flags)
    ensures MetaWords(file, swap, psize, free, nrecs, flags)
  {
    hide Quad;
  }

  /** `file` is a database after the first `done` operations: all of them, unless the
      page numbers ran out. */
  ghost predicate Replayed(ops: seq<Op>, done: nat, file: Bytes) {
    && done <= |ops|
    && (done < |ops| ==> 2 * |file| > PAGE_LIMIT * DEFAULT_PSIZE)
    && (Puts(ops) <= SURE_PUTS ==> done == |ops|)
    && Open(file).Success?
  }

  /** `file` holds the tree `P` of the map that `ops` make, laid out byte for byte as
      the format says. */
  ghost predicate HoldsRun(ops: seq<Op>, file: Bytes, P: seq<Page>, R: seq<Region>) {
    && |P| <= PAGE_LIMIT
    && Open(file).Success? && TreeFile(Open(file).value, P, R, Plain(|P|))
    && RawTree(file, 4096, false, P, R, Plain(|P|)) && RawWritten(file, P)
    && Denotes(P, ApplyAll(ops))
    && ((forall i | 0 <= i < |ops| :: ops[i].PutOp?) ==> FullLeaves(P))
  }

  /** Rebuild a database from a trace and write it. */
  method Rebuild(ops: seq<Op>) returns (done: nat, file: Bytes, ghost P: seq<Page>, ghost R: seq<Region>)
    requires AllAllowed(ops)
    ensures Replayed(ops, done, file)
    ensures done <= |ops| && HoldsRun(ops[..done], file, P, R)
  {
    hide Inv, Denotes, Stores, MetaWords, FullLeaves, Open, TreeFile, Outcome, ApplyAll, AllAllowed, Puts, RawTree,
         RawWritten;
    var w, results := Replay(ops);
    file := w.Finish();
    MetaAtHead(file, w.psize, false, w.psize, w.free, w.nrecs, w.flags);
    RegionCount(w.P, w.R);
    FinishedFileOpens(file, w.psize, false, w.P, w.R, w.free, w.nrecs);
    TreeFileIsRaw(Db(file, w.psize, false), w.P, w.R, Plain(|w.P|));
    StoredIsRaw(file, w.P, w.R);
    done, P, R := |results|, w.P, w.R;
    assert forall i | 0 <= i < done :: ops[..done][i] == ops[i];
  }

  /** Rebuild from a trace, write, open and look up `key`: the answer is the map's,
      after one page a level. */
  method RebuildAndGet(ops: seq<Op>, key: Bytes)
    returns (done: nat, file: Bytes, r: Result<Option<Bytes>>, ghost P: seq<Page>, ghost R: seq<Region>,
             ghost path: seq<Hop>, ghost leaf: u32)
    requires AllAllowed(ops)
    ensures Replayed(ops, done, file)
    ensures done <= |ops| && HoldsRun(ops[..done], file, P, R) && Descent(P, R, path, leaf, key)
    ensures var m := ApplyAll(ops[..done]); r == Success(if key in m then Some(m[key]) else None)
  {
    hide Denotes, Open, TreeFile, Descent, ApplyAll, AllAllowed, Puts, FullLeaves, RawTree, RawWritten;
    done, file, P, R := Rebuild(ops);
    var db := Open(file).value;
    r, path, leaf := Get(db, key, P, R, Plain(|P|), ApplyAll(ops[..done]));
  }

  /** The listing has every binding of `m`. */
  ghost predicate Complete(all: seq<(Bytes, Bytes)>, m: map<Bytes, Bytes>) {
    forall k | k in m :: (k, m[k]) in all
  }

  /** Rebuild from a trace, write, open and iterate.  The pairs come in strictly
      increasing key order and are bindings of the map; they are all of them
      exactly when the file's first leaf is not empty (or there is nothing to list),
      and so after every run of puts. */
  method RebuildAndDump(ops: seq<Op>)
    returns (done: nat, file: Bytes, all: seq<(Bytes, Bytes)>, ghost P: seq<Page>, ghost R: seq<Region>)
    requires AllAllowed(ops)
    ensures Replayed(ops, done, file)
    ensures forall i, j | 0 <= i < j < |all| :: Lt(all[i].0, all[j].0)
    ensures var m := ApplyAll(ops[..done]);
      && (forall i | 0 <= i < |all| :: all[i].0 in m && m[all[i].0] == all[i].1)
      && ((forall i | 0 <= i < done :: ops[i].PutOp?) ==> Complete(all, m))
    ensures HoldsRun(ops[..done], file, P, R) && Inv(P, R)
    ensures var m := ApplyAll(ops[..done]);
      Complete(all, m) <==> P[FirstLeaf(P, R)].entries != [] || m == map[]
  {
    hide Lt, Inv, Denotes, Open, PageReads, Numbering, Yield, Lists, Complete, ApplyAll, AllAllowed, Puts, FullLeaves,
         RawTree, RawWritten;
    done, file, P, R := Rebuild(ops);
    var db := Open(file).value;
    all := Dump(db, P, R, Plain(|P|));
    ghost var m := ApplyAll(ops[..done]);
    YieldSound(P, R, m, all);
    if FullLeaves(P) {
      PutOnlyIterates(P, R, m);
      IterationComplete(P, R, m);
    }
    assert forall i | 0 <= i < done :: ops[..done][i] == ops[i];
  }

  /** What iteration yields is sorted and bound, and complete under the condition. */
  lemma YieldSound(P: seq<Page>, R: seq<Region>, m: map<Bytes, Bytes>, all: seq<(Bytes, Bytes)>)
    requires Inv(P, R) && Denotes(P, m) && |all| == |Yield(P, R)|
    requires forall i | 0 <= i < |all| :: Yield(P, R)[i] == Leaf(all[i].0, all[i].1)
    ensures forall i, j | 0 <= i < j < |all| :: Lt(all[i].0, all[j].0)
    ensures forall i | 0 <= i < |all| :: all[i].0 in m && m[all[i].0] == all[i].1
    ensures Complete(all, m) <==> P[FirstLeaf(P, R)].entries != [] || m == map[]
  {
    hide Lt, Inv, Denotes, Scan, Lists;
    if P[FirstLeaf(P, R)].entries != [] {
      ScanLists(P, R, m);
      ListedPairs(Yield(P, R), all, m);
    } else if m != map[] {
      var k :| k in m;
      assert (k, m[k]) !in all;
    }
  }

  lemma ListedPairs(s: seq<Entry>, all: seq<(Bytes, Bytes)>, m: map<Bytes, Bytes>)
    requires Lists(s, m) && |all| == |s|
    requires forall i | 0 <= i < |all| :: s[i] == Leaf(all[i].0, all[i].1)
    ensures forall i, j | 0 <= i < j < |all| :: Lt(all[i].0, all[j].0)
    ensures forall i | 0 <= i < |all| :: all[i].0 in m && m[all[i].0] == all[i].1
    ensures Complete(all, m)
  {
    hide Lt;
    forall i, j | 0 <= i < j < |all| ensures Lt(all[i].0, all[j].0) {
      assert Lt(s[i].key, s[j].key);
    }
    forall i | 0 <= i < |all| ensures all[i].0 in m && m[all[i].0] == all[i].1 {
      assert Leaf(all[i].0, all[i].1) in s;
    }
    forall k | k in m ensures (k, m[k]) in all {
      assert Leaf(k, m[k]) in s;
      var i :| 0 <= i < |s| && s[i] == Leaf(k, m[k]);
      assert all[i] == (k, m[k]);
    }
  }
}
