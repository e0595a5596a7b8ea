/** The entries of a packed page cover their region exactly once. */
module Tiling {
  import opened Bytes
  import opened Format
  import opened Entries
  import opened Layout
  import opened Shape

  /** Byte `k` belongs to the entry of slot `i`. */
  predicate Owns(b: Bytes, swap: bool, es: seq<Entry>, i: nat, k: nat)
    requires i < |es| && PAGE_HEADER_SIZE + 2 * |es| <= |b|
  {
    SlotOff(b, swap, i) <= k < SlotOff(b, swap, i) + EntrySize(es[i])
  }

  ghost function Extent(b: Bytes, swap: bool, es: seq<Entry>, i: nat): set<nat>
    requires i < |es| && PAGE_HEADER_SIZE + 2 * |es| <= |b|
  {
    Range(SlotOff(b, swap, i), SlotOff(b, swap, i) + EntrySize(es[i]))
  }

  /** The bytes of the first `n` entries. */
  ghost function Covered(b: Bytes, swap: bool, es: seq<Entry>, n: nat): set<nat>
    requires n <= |es| && PAGE_HEADER_SIZE + 2 * |es| <= |b|
  {
    if n == 0 then {}
    else
      Covered(b, swap, es, n - 1) + Extent(b, swap, es, n - 1)
  }

  lemma ExtentOwns(b: Bytes, swap: bool, es: seq<Entry>, i: nat, k: nat)
    requires i < |es| && PAGE_HEADER_SIZE + 2 * |es| <= |b|
    ensures k in Extent(b, swap, es, i) <==> Owns(b, swap, es, i, k)
  {
    hide EntrySize, SlotOff;
  }

  lemma {:induction false} CoveredIn(b: Bytes, swap: bool, es: seq<Entry>, n: nat, i: nat, k: nat)
    requires i < n <= |es| && PAGE_HEADER_SIZE + 2 * |es| <= |b| && Owns(b, swap, es, i, k)
    ensures k in Covered(b, swap, es, n)
  {
    hide Extent, Owns;
    ExtentOwns(b, swap, es, n - 1, k);
    if i < n - 1 {
      CoveredIn(b, swap, es, n - 1, i, k);
    }
  }

  lemma {:induction false} CoveredBy(b: Bytes, swap: bool, es: seq<Entry>, n: nat, k: nat) returns (i: nat)
    requires n <= |es| && PAGE_HEADER_SIZE + 2 * |es| <= |b| && k in Covered(b, swap, es, n)
    ensures i < n && Owns(b, swap, es, i, k)
  {
    hide Extent, Owns;
    if k in Covered(b, swap, es, n - 1) {
      i := CoveredBy(b, swap, es, n - 1, k);
    } else {
      i := n - 1;
      ExtentOwns(b, swap, es, i, k);
    }
  }

  lemma ExtentApart(b: Bytes, swap: bool, pg: Page, n: nat)
    requires Packed(b, swap, pg) && 0 < n <= |pg.entries|
    ensures PAGE_HEADER_SIZE + 2 * |pg.entries| <= |b|
    ensures Extent(b, swap, pg.entries, n - 1) !! Covered(b, swap, pg.entries, n - 1)
  {
    hide EntrySize, SlotOff, Packed, SlotOk, Covered, Used, U16At;
    var es := pg.entries;
    PackedSlot(b, swap, pg, n - 1);
    var last := Extent(b, swap, es, n - 1);
    forall k | k in last ensures k !in Covered(b, swap, es, n - 1) {
      if k in Covered(b, swap, es, n - 1) {
        var i := CoveredBy(b, swap, es, n - 1, k);
        ExtentOwns(b, swap, es, n - 1, k);
        PackedApart(b, swap, pg, i, n - 1);
      }
    }
  }

  /** Disjoint entries cover as many bytes as they take. */
  lemma {:induction false} CoveredSize(b: Bytes, swap: bool, pg: Page, n: nat)
    requires Packed(b, swap, pg) && n <= |pg.entries|
    ensures PAGE_HEADER_SIZE + 2 * |pg.entries| <= |b|
    ensures |Covered(b, swap, pg.entries, n)| == Used(pg.entries[..n], NO_HOLE)
  {
    hide EntrySize, SlotOff, Packed, U16At, Extent;
    var es := pg.entries;
    RoomForSlots(b, swap, pg);
    if n > 0 {
      CoveredSize(b, swap, pg, n - 1);
      ExtentApart(b, swap, pg, n);
      ExtentSize(b, swap, es, n - 1);
      assert es[..n][..n - 1] == es[..n - 1];
    }
  }

  lemma RoomForSlots(b: Bytes, swap: bool, pg: Page)
    requires Packed(b, swap, pg)
    ensures PAGE_HEADER_SIZE + 2 * |pg.entries| <= |b|
  {
    hide Packed, Used;
    PackedBounds(b, swap, pg);
  }

  lemma ExtentSize(b: Bytes, swap: bool, es: seq<Entry>, i: nat)
    requires i < |es| && PAGE_HEADER_SIZE + 2 * |es| <= |b|
    ensures |Extent(b, swap, es, i)| == EntrySize(es[i])
  {
    hide EntrySize, SlotOff;
  }

  /** The covered bytes are those from `upper` on: they lie there, and are as many. */
  lemma CoverIsRegion(b: Bytes, swap: bool, pg: Page)
    requires Packed(b, swap, pg)
    ensures PAGE_HEADER_SIZE + 2 * |pg.entries| <= |b| && U16At(b, 18, swap) <= |b|
    ensures Covered(b, swap, pg.entries, |pg.entries|) == Range(U16At(b, 18, swap), |b|)
  {
    hide EntrySize, SlotOff, Packed, EntryAt, Used, U16At, Covered;
    var es, n := pg.entries, |pg.entries|;
    PackedBounds(b, swap, pg);
    CoveredSize(b, swap, pg, n);
    assert es[..n] == es;
    var upper := U16At(b, 18, swap);
    var cover := Covered(b, swap, es, n);
    forall x | x in cover ensures upper <= x < |b| {
      var i := CoveredBy(b, swap, es, n, x);
      PackedSlot(b, swap, pg, i);
    }
    assert cover <= Range(upper, |b|);
    SubsetSize(cover, Range(upper, |b|));
  }

  /** Every byte from `upper` to the end of a packed page belongs to exactly one
      entry, and no entry reaches outside. */
  lemma PackedTiles(b: Bytes, swap: bool, pg: Page, k: nat)
    requires Packed(b, swap, pg) && k < |b|
    ensures PAGE_HEADER_SIZE + 2 * |pg.entries| <= |b|
    ensures U16At(b, 18, swap) <= k <==> exists i :: 0 <= i < |pg.entries| && Owns(b, swap, pg.entries, i, k)
    ensures forall i, j | 0 <= i < |pg.entries| && 0 <= j < |pg.entries|
              && Owns(b, swap, pg.entries, i, k) && Owns(b, swap, pg.entries, j, k) :: i == j
  {
    hide EntrySize, SlotOff, Packed, Used, U16At, Covered;
    var es, n := pg.entries, |pg.entries|;
    RoomForSlots(b, swap, pg);
    CoverIsRegion(b, swap, pg);
    if i: nat :| i < n && Owns(b, swap, es, i, k) {
      CoveredIn(b, swap, es, n, i, k);
    }
    if k in Covered(b, swap, es, n) {
      var i := CoveredBy(b, swap, es, n, k);
    }
    forall i, j | 0 <= i < n && 0 <= j < n && Owns(b, swap, es, i, k) && Owns(b, swap, es, j, k) ensures i == j {
      if i != j {
        PackedApart(b, swap, pg, i, j);
      }
    }
  }
}
