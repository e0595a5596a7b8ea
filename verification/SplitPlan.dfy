/** Where a full page is cut: the byte-balanced plan of `bt_psplit`. */
module SplitPlans {
  import opened Bytes
  import opened Format

  datatype SplitPlan = SplitPlan(leftSlots: nat, rightTarget: bool) {
    /** The new entry is on the right exactly from slot `leftSlots` on. */
    predicate Sane(skip: nat) {
      if rightTarget then skip >= leftSlots else skip < leftSlots
    }

    /** Source entries copied to the left page. */
    function HInL(): int {
      if rightTarget then leftSlots else leftSlots - 1
    }

    function LSkip(skip: nat): Option<nat> {
      if rightTarget then None else Some(skip)
    }

    function RSkip(skip: nat): Option<nat>
      requires Sane(skip)
    {
      if rightTarget then Some(skip - leftSlots) else None
    }

    function TargetSlot(skip: nat): nat
      requires Sane(skip)
    {
      if rightTarget then skip - leftSlots else skip
    }
  }

  /** Bytes of a run of entries, each with its `linp` slot. */
  function Cost(sizes: seq<nat>): nat {
    if sizes == [] then 0 else Cost(sizes[..|sizes| - 1]) + sizes[|sizes| - 1] + 2
  }

  /** Source entries among the first `j` slots, the new entry being slot `skip`. */
  function Taken(skip: nat, j: nat): nat {
    if j <= skip then j else j - 1
  }

  /** The walk over the `j` first slots, new entry included, goes no further. */
  predicate Stops(sizes: seq<nat>, skip: nat, ilen: nat, full: nat, j: nat)
    requires skip <= |sizes| && j <= |sizes| + 1
  {
    var all := InsertAt(sizes, skip, ilen);
    || Taken(skip, j) >= |sizes|
    || Taken(skip, j) + 1 == |sizes|
    || (j > 0 && Cost(all[..j]) >= full / 2)
    || (skip <= j <= |sizes| && Cost(all[..j]) + all[j] + 2 >= full)
  }

  /** The left page gets the slots up to the first stop. */
  ghost predicate PlanFor(sizes: seq<nat>, skip: nat, ilen: nat, full: nat, plan: SplitPlan) {
    && skip <= |sizes| && plan.leftSlots <= |sizes| + 1
    && plan.rightTarget == (skip >= plan.leftSlots)
    && Stops(sizes, skip, ilen, full, plan.leftSlots)
    && forall j | 0 <= j < plan.leftSlots :: !Stops(sizes, skip, ilen, full, j)
  }

  lemma CostStep(sizes: seq<nat>, j: nat)
    requires j < |sizes|
    ensures Cost(sizes[..j + 1]) == Cost(sizes[..j]) + sizes[j] + 2
  {
    assert sizes[..j + 1][..j] == sizes[..j];
  }

  /** Walk the entries left to right until half the page is used.  `sizes[i]` is
      the encoded size of source entry `i`. */
  method PsplitLoop(skip: nat, ilen: nat, psize: nat, sizes: seq<nat>) returns (plan: SplitPlan)
    requires PAGE_HEADER_SIZE <= psize && skip <= |sizes|
    ensures PlanFor(sizes, skip, ilen, psize - PAGE_HEADER_SIZE, plan)
  {
    hide Cost;
    var top := |sizes|;
    var full := psize - PAGE_HEADER_SIZE;
    var half := full / 2;
    var used, nxt, off := 0, 0, 0;
    ghost var all := InsertAt(sizes, skip, ilen);
    CostEmpty();
    assert all[..0] == [];
    while true
      invariant nxt == Taken(skip, off) && nxt <= top && off <= top + 1
      invariant used == Cost(all[..off])
      invariant off > 0 ==> used < half
      invariant forall j | 0 <= j < off :: !Stops(sizes, skip, ilen, full, j)
      decreases top + 1 - off
    {
      if nxt >= top {
        break;
      }
      var nbytes := if skip == off then ilen else sizes[nxt];
      assert nbytes == all[off];
      CostStep(all, off);
      if (skip <= off && used + nbytes + 2 >= full) || nxt + 1 == top {
        break;
      }
      assert !Stops(sizes, skip, ilen, full, off);
      if skip != off {
        nxt := nxt + 1;
      }
      used := used + nbytes + 2;
      off := off + 1;
      if used >= half {
        break;
      }
    }
    plan := SplitPlan(off, skip >= off);
  }

  lemma CostEmpty()
    ensures Cost([]) == 0
  {
  }

  lemma {:induction false} CostConcat(a: seq<nat>, b: seq<nat>)
    ensures Cost(a + b) == Cost(a) + Cost(b)
  {
    if b == [] {
      assert a + b == a;
    } else {
      assert (a + b)[..|a + b| - 1] == a + b[..|b| - 1];
      CostConcat(a, b[..|b| - 1]);
    }
  }

  lemma CostCut(sizes: seq<nat>, j: nat)
    requires j <= |sizes|
    ensures Cost(sizes[..j]) + Cost(sizes[j..]) == Cost(sizes)
  {
    hide Cost;
    CostConcat(sizes[..j], sizes[j..]);
    assert sizes[..j] + sizes[j..] == sizes;
  }

  lemma CostInsert(sizes: seq<nat>, i: nat, n: nat)
    requires i <= |sizes|
    ensures Cost(InsertAt(sizes, i, n)) == Cost(sizes) + n + 2
  {
    hide Cost;
    CostConcat(sizes[..i], [n] + sizes[i..]);
    CostConcat([n], sizes[i..]);
    CostCut(sizes, i);
    assert sizes[..i] + ([n] + sizes[i..]) == InsertAt(sizes, i, n);
    CostOne(n);
  }

  lemma CostOne(n: nat)
    ensures Cost([n]) == n + 2
  {
    assert [n][..0] == [];
  }

  /** Every entry, with its slot, costs at most `m`. */
  predicate Bounded(sizes: seq<nat>, m: nat) {
    forall i | 0 <= i < |sizes| :: sizes[i] + 2 <= m
  }

  /** Why the walk stopped, once no entry is more than half a page: half the
      page is used, or only the last source entry (and possibly the new entry)
      is left. */
  lemma StopReason(sizes: seq<nat>, skip: nat, ilen: nat, full: nat, plan: SplitPlan, m: nat)
    requires PlanFor(sizes, skip, ilen, full, plan)
    requires |sizes| >= 2 && Bounded(sizes, m) && ilen + 2 <= m <= full / 2
    ensures var L := plan.leftSlots; var all := InsertAt(sizes, skip, ilen);
      && 1 <= L <= |sizes|
      && Cost(all[..L]) < full / 2 + m
      && (Cost(all[..L]) >= full / 2 || Taken(skip, L) == |sizes| - 1)
  {
    hide Cost;
    var L, all := plan.leftSlots, InsertAt(sizes, skip, ilen);
    CostEmpty();
    assert all[..0] == [];
    assert Bounded(all, m);
    assert all[0] + 2 <= m;
    assert L > 0;
    assert !Stops(sizes, skip, ilen, full, L - 1);
    CostStep(all, L - 1);
    assert all[L - 1] + 2 <= m;
    if L <= |sizes| {
      assert all[L] + 2 <= m;
    }
  }

  /** Split balance: either the left page gets at least half the usable bytes and
      less than half plus one entry, or the right page holds only the last source
      entry plus possibly the new one. */
  lemma SplitBalance(sizes: seq<nat>, skip: nat, ilen: nat, full: nat, plan: SplitPlan, m: nat)
    requires PlanFor(sizes, skip, ilen, full, plan)
    requires |sizes| >= 2 && Bounded(sizes, m) && ilen + 2 <= m <= full / 2
    ensures var L := plan.leftSlots; var all := InsertAt(sizes, skip, ilen); var last := sizes[|sizes| - 1];
      && L <= |all|
      && (|| full / 2 <= Cost(all[..L]) < full / 2 + m
          || all[L..] in {[last], [ilen, last], [last, ilen]})
  {
    hide Cost;
    StopReason(sizes, skip, ilen, full, plan, m);
    var L, all := plan.leftSlots, InsertAt(sizes, skip, ilen);
    if Cost(all[..L]) < full / 2 {
      if L <= skip {
        assert all[L..] == if skip == L then [ilen, sizes[L]] else [sizes[L], ilen];
      } else {
        assert all[L..] == [sizes[L - 1]];
      }
    }
  }

  /** Split safety: when the page was full and no entry costs more than half of
      it, both sides are non-empty and both fit. */
  lemma SplitSafe(sizes: seq<nat>, skip: nat, ilen: nat, full: nat, plan: SplitPlan)
    requires PlanFor(sizes, skip, ilen, full, plan)
    requires Bounded(sizes, full / 2) && ilen + 2 <= full / 2
    requires Cost(sizes) <= full < Cost(sizes) + ilen + 2
    ensures plan.Sane(skip) && 1 <= plan.leftSlots <= |sizes|
    ensures Cost(InsertAt(sizes, skip, ilen)[..plan.leftSlots]) <= full
    ensures Cost(InsertAt(sizes, skip, ilen)[plan.leftSlots..]) <= full
  {
    hide Cost;
    var L, all := plan.leftSlots, InsertAt(sizes, skip, ilen);
    CostShort(sizes);
    StopReason(sizes, skip, ilen, full, plan, full / 2);
    CostCut(all, L);
    CostInsert(sizes, skip, ilen);
    if Cost(all[..L]) < full / 2 {
      SplitBalance(sizes, skip, ilen, full, plan, full / 2);
      var last := sizes[|sizes| - 1];
      CostPair(ilen, last);
      CostPair(last, ilen);
      CostOne(last);
    }
  }

  lemma CostShort(sizes: seq<nat>)
    ensures |sizes| == 0 ==> Cost(sizes) == 0
    ensures |sizes| == 1 ==> Cost(sizes) == sizes[0] + 2
  {
    if |sizes| == 1 {
      assert sizes[..0] == [];
    }
  }

  lemma CostPair(a: nat, b: nat)
    ensures Cost([a, b]) == a + b + 4
  {
    CostConcat([a], [b]);
    CostOne(a);
    CostOne(b);
    assert [a] + [b] == [a, b];
  }

  // ----- entries of any size -----

  /** A page holding one entry is never cut: the plan leaves its left side empty. */
  lemma OneEntryPlan(a: nat, ilen: nat, skip: nat, full: nat)
    requires skip <= 1
    ensures PlanFor([a], skip, ilen, full, SplitPlan(0, true))
  {
    hide Cost;
    assert Taken(skip, 0) + 1 == |[a]|;
  }

  /** The early stop keeps the left page within bounds for entries of any size. */
  lemma LeftAlwaysFits(sizes: seq<nat>, skip: nat, ilen: nat, full: nat, plan: SplitPlan)
    requires PlanFor(sizes, skip, ilen, full, plan) && Cost(sizes) <= full
    ensures Cost(InsertAt(sizes, skip, ilen)[..plan.leftSlots]) <= full
  {
    hide Cost;
    var L, all := plan.leftSlots, InsertAt(sizes, skip, ilen);
    CostEmpty();
    assert all[..0] == [];
    if L > 0 {
      assert !Stops(sizes, skip, ilen, full, L - 1);
      CostStep(all, L - 1);
      if skip >= L {
        assert all[..L] == sizes[..L];
        CostCut(sizes, L);
      }
    }
  }

  /** Slot `j` is reached and may open the right page: two source entries are still
      to come after slot `j - 1`, half the page is not used before it, and the new
      entry, once placed, has not filled the page. */
  predicate Reaches(sizes: seq<nat>, skip: nat, ilen: nat, full: nat, j: nat)
    requires skip <= |sizes| && 1 <= j <= |sizes|
  {
    var all := InsertAt(sizes, skip, ilen);
    && Taken(skip, j - 1) + 1 < |sizes|
    && (j == 1 || Cost(all[..j - 1]) < full / 2)
    && (j <= skip || Cost(all[..j]) < full)
  }

  lemma ReachesIsPassing(sizes: seq<nat>, skip: nat, ilen: nat, full: nat, j: nat)
    requires skip <= |sizes| && 1 <= j <= |sizes|
    ensures Reaches(sizes, skip, ilen, full, j) <==> !Stops(sizes, skip, ilen, full, j - 1)
  {
    hide Cost;
    CostStep(InsertAt(sizes, skip, ilen), j - 1);
  }

  lemma CostPrefix(sizes: seq<nat>, i: nat, j: nat)
    requires i <= j <= |sizes|
    ensures Cost(sizes[..i]) <= Cost(sizes[..j]) && Cost(sizes[j..]) <= Cost(sizes[i..])
  {
    hide Cost;
    assert sizes[..j][..i] == sizes[..i] && sizes[i..][j - i..] == sizes[j..];
    CostCut(sizes[..j], i);
    CostCut(sizes[i..], j - i);
  }

  /** Once a stop condition holds, one holds at every later slot. */
  lemma StopsPersist(sizes: seq<nat>, skip: nat, ilen: nat, full: nat, i: nat, j: nat)
    requires skip <= |sizes| && i <= j <= |sizes| && Stops(sizes, skip, ilen, full, i)
    ensures Stops(sizes, skip, ilen, full, j)
  {
    hide Cost;
    var all := InsertAt(sizes, skip, ilen);
    CostPrefix(all, i, j);
    if i < j {
      CostStep(all, i);
      CostPrefix(all, i + 1, j);
    }
  }

  /** For entries of any size, a split leaves two non-empty pages that fit exactly
      when some slot the walk reaches starts a suffix that fits a page.  The left
      page is non-empty exactly when the page held two entries and the new one
      does not fill a page from its front. */
  lemma SplitWorksExactly(sizes: seq<nat>, skip: nat, ilen: nat, full: nat, plan: SplitPlan)
    requires PlanFor(sizes, skip, ilen, full, plan) && Cost(sizes) <= full && full >= 2
    ensures var L := plan.leftSlots; var all := InsertAt(sizes, skip, ilen);
      (1 <= L <= |sizes| && Cost(all[..L]) <= full && Cost(all[L..]) <= full)
      <==> exists j | 1 <= j <= |sizes| :: Reaches(sizes, skip, ilen, full, j) && Cost(all[j..]) <= full
    ensures plan.leftSlots >= 1 <==> |sizes| >= 2 && (skip > 0 || ilen + 2 < full)
  {
    hide Cost, Reaches;
    var L, all := plan.leftSlots, InsertAt(sizes, skip, ilen);
    LeftAlwaysFits(sizes, skip, ilen, full, plan);
    CostEmpty();
    assert all[..0] == [];
    assert Stops(sizes, skip, ilen, full, |sizes|);
    if L > 0 {
      assert !Stops(sizes, skip, ilen, full, 0);
      ReachesIsPassing(sizes, skip, ilen, full, L);
    }
    forall j | 1 <= j <= |sizes| && Reaches(sizes, skip, ilen, full, j) ensures j <= L {
      ReachesIsPassing(sizes, skip, ilen, full, j);
      if L < j {
        StopsPersist(sizes, skip, ilen, full, L, j - 1);
      }
    }
    forall j | 1 <= j <= L ensures Cost(all[L..]) <= Cost(all[j..]) {
      CostPrefix(all, j, L);
    }
  }
}
