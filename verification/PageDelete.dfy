/** Deleting a leaf record in place, whatever the physical order of the entries. */
module PageDelete {
  import opened Bytes
  import opened Format
  import opened Entries
  import opened Layout
  import opened PageBufs

  /** Where an entry at `v` sits once `nbytes` at `offset` are squeezed out. */
  function Slid(v: nat, offset: nat, nbytes: nat): nat {
    if v < offset then v + nbytes else v
  }

  /** Surviving slot `i` of the page was slot `Kept(idx, i)`. */
  function Kept(idx: nat, i: nat): nat {
    if i < idx then i else i + 1
  }

  /** The bytes after compaction: entries below the deleted one have slid up. */
  ghost predicate Compacted(b0: Bytes, b: Bytes, n: nat, idx: nat, upper: nat, offset: nat, nbytes: nat)
    requires |b| == |b0| && PAGE_HEADER_SIZE + 2 * n <= upper <= offset && offset + nbytes <= |b| && idx < n
  {
    && (forall k | 0 <= k < 16 :: b[k] == b0[k])
    && U16At(b, 16, false) == PAGE_HEADER_SIZE + 2 * (n - 1)
    && U16At(b, 18, false) == upper + nbytes
    && (forall i | 0 <= i < n - 1 :: SlotOff(b, false, i) == Slid(SlotOff(b0, false, Kept(idx, i)), offset, nbytes))
    && b[upper + nbytes..offset + nbytes] == b0[upper..offset]
    && b[offset + nbytes..|b|] == b0[offset + nbytes..|b|]
  }

  ghost predicate DeletePre(b0: Bytes, b: Bytes, pg: Page, idx: nat) {
    && |b| == |b0| && idx < |pg.entries| && Packed(b0, false, pg)
    && var upper := |b0| - Used(pg.entries, NO_HOLE);
      && PAGE_HEADER_SIZE + 2 * |pg.entries| <= upper <= SlotOff(b0, false, idx)
      && SlotOff(b0, false, idx) + EntrySize(pg.entries[idx]) <= |b|
      && Compacted(b0, b, |pg.entries|, idx, upper, SlotOff(b0, false, idx), EntrySize(pg.entries[idx]))
  }

  /** A slice clear of the deleted bytes, where it is and where it was. */
  lemma SlidSlice(b0: Bytes, b: Bytes, upper: nat, offset: nat, nbytes: nat, v: nat, n: nat)
    requires |b| == |b0| && upper <= v && v + n <= |b| && offset + nbytes <= |b|
    requires 0 < n && (v + n <= offset || offset + nbytes <= v)
    requires upper <= offset && b[upper + nbytes..offset + nbytes] == b0[upper..offset]
    requires b[offset + nbytes..|b|] == b0[offset + nbytes..|b|]
    ensures Slid(v, offset, nbytes) + n <= |b|
    ensures b[Slid(v, offset, nbytes)..Slid(v, offset, nbytes) + n] == b0[v..v + n]
  {
    if v < offset {
      MovedSlice(b0, b, upper, offset, nbytes, v, n);
    } else {
      MovedSlice(b0, b, offset + nbytes, |b|, 0, v, n);
    }
  }

  lemma CompactedAt(b0: Bytes, b: Bytes, n: nat, idx: nat, upper: nat, offset: nat, nbytes: nat, i: nat)
    requires |b| == |b0| && PAGE_HEADER_SIZE + 2 * n <= upper <= offset && offset + nbytes <= |b| && idx < n
    requires Compacted(b0, b, n, idx, upper, offset, nbytes) && i < n - 1
    ensures SlotOff(b, false, i) == Slid(SlotOff(b0, false, Kept(idx, i)), offset, nbytes)
    ensures b[upper + nbytes..offset + nbytes] == b0[upper..offset]
    ensures b[offset + nbytes..|b|] == b0[offset + nbytes..|b|]
  {
    hide SlotOff, U16At, Slid;
  }

  /** A surviving entry's slot and bytes, where they are and where they were. */
  lemma SurvivorMoved(b0: Bytes, b: Bytes, pg: Page, idx: nat, i: nat)
    requires DeletePre(b0, b, pg, idx) && i < |pg.entries| - 1
    ensures PAGE_HEADER_SIZE + 2 * |pg.entries| <= |b|
    ensures var j, n := Kept(idx, i), 9 + |Payload(pg.entries[Kept(idx, i)])|;
      var v, offset, size := SlotOff(b0, false, j), SlotOff(b0, false, idx), EntrySize(pg.entries[idx]);
      && SlotOff(b, false, i) == Slid(v, offset, size)
      && v + n <= |b0| && Slid(v, offset, size) + n <= |b|
      && b[Slid(v, offset, size)..Slid(v, offset, size) + n] == b0[v..v + n]
  {
    hide Used, EntrySize, U16At, EntryAt, Payload, Packed, SlotOff, Compacted, Slid;
    var es, j := pg.entries, Kept(idx, i);
    var offset, nbytes := SlotOff(b0, false, idx), EntrySize(es[idx]);
    CompactedAt(b0, b, |es|, idx, |b0| - Used(es, NO_HOLE), offset, nbytes, i);
    PackedSlot(b0, false, pg, j);
    PackedApart(b0, false, pg, j, idx);
    EntrySizeBound(es[j]);
    SlidSlice(b0, b, |b0| - Used(es, NO_HOLE), offset, nbytes, SlotOff(b0, false, j), 9 + |Payload(es[j])|);
  }

  /** A surviving entry is intact at its new place. */
  lemma SurvivorOk(b0: Bytes, b: Bytes, pg: Page, idx: nat, i: nat)
    requires DeletePre(b0, b, pg, idx) && i < |pg.entries| - 1
    ensures SlotOk(b, false, i, RemoveAt(pg.entries, idx)[i],
                   |b0| - Used(pg.entries, NO_HOLE) + EntrySize(pg.entries[idx]))
  {
    hide Used, EntrySize, U16At, EntryAt, Payload, Packed, SlotOff, Compacted;
    var es, j := pg.entries, Kept(idx, i);
    SurvivorMoved(b0, b, pg, idx, i);
    PackedSlot(b0, false, pg, j);
    PackedSlot(b0, false, pg, idx);
    PackedApart(b0, false, pg, j, idx);
    EntryFrame(b0, SlotOff(b0, false, j), b, SlotOff(b, false, i), false, es[j]);
  }

  /** A slice of a moved range moves with it. */
  lemma MovedSlice(b0: Bytes, b: Bytes, lo: nat, hi: nat, d: nat, v: nat, n: nat)
    requires |b| == |b0| && lo <= v && v + n <= hi && hi + d <= |b|
    requires b[lo + d..hi + d] == b0[lo..hi]
    ensures b[v + d..v + d + n] == b0[v..v + n]
  {
    SliceOfSlice(b, lo + d, hi + d, v - lo, v - lo + n);
    SliceOfSlice(b0, lo, hi, v - lo, v - lo + n);
  }

  lemma SurvivorsApart(b0: Bytes, b: Bytes, pg: Page, idx: nat, i: nat, j: nat)
    requires DeletePre(b0, b, pg, idx) && i < j < |pg.entries| - 1
    ensures SlotsApart(b, false, RemoveAt(pg.entries, idx), i, j)
  {
    hide Used, EntrySize, U16At, EntryAt, Packed;
    var i0, j0 := Kept(idx, i), Kept(idx, j);
    PackedApart(b0, false, pg, i0, j0);
    PackedApart(b0, false, pg, i0, idx);
    PackedApart(b0, false, pg, j0, idx);
    PackedSlot(b0, false, pg, i0);
    PackedSlot(b0, false, pg, j0);
    PackedSlot(b0, false, pg, idx);
  }

  lemma DeletePacked(b0: Bytes, b: Bytes, pg: Page, idx: nat)
    requires DeletePre(b0, b, pg, idx)
    ensures Packed(b, false, pg.(entries := RemoveAt(pg.entries, idx)))
  {
    hide Used, EntrySize, SlotOk, SlotOff, SlotsApart, U16At, U32At;
    var fs := RemoveAt(pg.entries, idx);
    UsedRemove(pg.entries, idx);
    forall i | 0 <= i < |fs| ensures SlotOk(b, false, i, fs[i], |b| - Used(fs, NO_HOLE)) {
      SurvivorOk(b0, b, pg, idx, i);
    }
    forall i, j | 0 <= i < j < |fs| ensures SlotsApart(b, false, fs, i, j) {
      SurvivorsApart(b0, b, pg, idx, i, j);
    }
    HeaderFrame(b0, b, false, pg);
    PackedSlot(b0, false, pg, idx);
  }

  /** The header of an encoded record tells its size. */
  lemma SizeRead(b: Bytes, off: nat, e: Entry)
    requires e.Leaf? && EntryAt(b, false, off, e)
    ensures off + 9 <= |b|
    ensures AlignEntry(BLEAF_HEADER_SIZE + U32At(b, off, false) + U32At(b, off + 4, false)) == EntrySize(e)
  {
    hide U32At;
  }

  /** What the deletion reads off the page before moving anything. */
  lemma DeleteReads(b: Bytes, pg: Page, idx: nat)
    requires Packed(b, false, pg) && idx < |pg.entries| && pg.entries[idx].Leaf?
    ensures PageSized(b) && PAGE_HEADER_SIZE + 2 * |pg.entries| <= |b|
    ensures Lower(b) == PAGE_HEADER_SIZE + 2 * |pg.entries| <= Upper(b) == |b| - Used(pg.entries, NO_HOLE)
    ensures var e := pg.entries[idx]; var offset := SlotOff(b, false, idx);
      && Upper(b) <= offset && offset + EntrySize(e) <= |b| && EntrySize(e) >= 9
      && AlignEntry(BLEAF_HEADER_SIZE + U32At(b, offset, false) + U32At(b, offset + 4, false)) == EntrySize(e)
  {
    hide Used, U16At, U32At, AlignEntry, EntrySize, EntryAt, Payload, Packed;
    PackedBounds(b, false, pg);
    PackedSlot(b, false, pg, idx);
    SizeRead(b, SlotOff(b, false, idx), pg.entries[idx]);
  }

  /** No slot is pushed off the page. */
  lemma SlidOnPage(b: Bytes, pg: Page, idx: nat, i: nat)
    requires Packed(b, false, pg) && idx < |pg.entries| && i < |pg.entries| && i != idx
    ensures PAGE_HEADER_SIZE + 2 * |pg.entries| <= |b|
    ensures Slid(SlotOff(b, false, i), SlotOff(b, false, idx), EntrySize(pg.entries[idx])) < MAX_PSIZE
  {
    hide Used, U16At, EntryAt, EntrySize, Packed;
    PackedBounds(b, false, pg);
    PackedSlot(b, false, pg, i);
    PackedSlot(b, false, pg, idx);
    PackedApart(b, false, pg, i, idx);
  }

  lemma AllSlidOnPage(b: Bytes, pg: Page, idx: nat)
    requires Packed(b, false, pg) && idx < |pg.entries|
    ensures PAGE_HEADER_SIZE + 2 * |pg.entries| <= |b|
    ensures forall i | 0 <= i < |pg.entries| && i != idx ::
              Slid(SlotOff(b, false, i), SlotOff(b, false, idx), EntrySize(pg.entries[idx])) < MAX_PSIZE
  {
    hide Used, EntrySize, U16At, Packed, SlotOff, Slid;
    PackedSlot(b, false, pg, idx);
    forall i | 0 <= i < |pg.entries| && i != idx
      ensures Slid(SlotOff(b, false, i), SlotOff(b, false, idx), EntrySize(pg.entries[idx])) < MAX_PSIZE
    {
      SlidOnPage(b, pg, idx, i);
    }
  }

  /** The bytes outside `[lo, hi)` are those of `b0`. */
  ghost predicate KeptOutside(b0: Bytes, b: Bytes, lo: nat, hi: nat) {
    |b| == |b0| && forall k | 0 <= k < |b| && !(lo <= k < hi) :: b[k] == b0[k]
  }

  lemma SlotsKept(b0: Bytes, b: Bytes, n: nat, lo: nat, hi: nat)
    requires KeptOutside(b0, b, lo, hi) && PAGE_HEADER_SIZE + 2 * n <= |b| && PAGE_HEADER_SIZE + 2 * n <= lo
    ensures forall i | 0 <= i < n :: SlotOff(b, false, i) == SlotOff(b0, false, i)
  {
    SlotsFrame(b0, b, false, n);
  }

  /** Remove record `idx` and compact the page in place. */
  method DeleteLeafEntry(a: array<byte>, idx: nat, ghost pg: Page)
    requires Packed(a[..], false, pg) && pg.leaf && idx < |pg.entries|
    modifies a
    ensures Packed(a[..], false, pg.(entries := RemoveAt(pg.entries, idx)))
  {
    hide Used, EntrySize, U16At, U32At, AlignEntry, Packed, Compacted, SlotOff, Slid, RemoveAt;
    ghost var b0 := a[..];
    PackedIsKind(b0, false, pg);
    DeleteReads(b0, pg, idx);
    AllSlidOnPage(b0, pg, idx);
    var lower := Lower(a[..]);
    var upper := Upper(a[..]);
    var n := NEntries(a[..]);
    var offset := SlotOff(a[..], false, idx);
    var ksize := U32At(a[..], offset, false);
    var dsize := U32At(a[..], offset + 4, false);
    var nbytes := AlignEntry(BLEAF_HEADER_SIZE + ksize + dsize);

    CopyWithin(a, upper, offset, upper + nbytes);
    ghost var b1 := a[..];
    assert b1[upper + nbytes..offset + nbytes] == b0[upper..offset];
    assert KeptOutside(b0, b1, upper + nbytes, offset + nbytes);
    SlotsKept(b0, b1, n, upper + nbytes, offset + nbytes);
    ShiftSlots(a, idx, n, offset, nbytes);
    ghost var b2 := a[..];
    assert KeptOutside(b1, b2, PAGE_HEADER_SIZE, PAGE_HEADER_SIZE + 2 * n);
    SetLower(a, lower - 2);
    ghost var b3 := a[..];
    assert KeptOutside(b2, b3, 16, 18);
    SetUpper(a, upper + nbytes);
    assert KeptOutside(b3, a[..], 18, 20);
    CompactedSteps(b0, b1, b2, b3, a[..], n, idx, upper, offset, nbytes);
    CompactedDeletes(b0, a[..], pg, idx, n, upper, offset, nbytes);
  }

  lemma CompactedDeletes(b0: Bytes, b: Bytes, pg: Page, idx: nat, n: nat, upper: nat, offset: nat, nbytes: nat)
    requires |b| == |b0| && Packed(b0, false, pg) && idx < n == |pg.entries|
    requires PAGE_HEADER_SIZE + 2 * n <= upper == |b0| - Used(pg.entries, NO_HOLE) <= offset
    requires offset == SlotOff(b0, false, idx) && nbytes == EntrySize(pg.entries[idx]) && offset + nbytes <= |b|
    requires Compacted(b0, b, n, idx, upper, offset, nbytes)
    ensures Packed(b, false, pg.(entries := RemoveAt(pg.entries, idx)))
  {
    hide Packed, Compacted, Used, EntrySize, SlotOff;
    DeletePacked(b0, b, pg, idx);
  }

  /** The payload move `b1`, the slot loops `b2` and the two header writes add up. */
  lemma CompactedSteps(b0: Bytes, b1: Bytes, b2: Bytes, b3: Bytes, b: Bytes, n: nat, idx: nat, upper: nat,
      offset: nat, nbytes: nat)
    requires |b| == |b3| == |b2| == |b1| == |b0| && idx < n
    requires PAGE_HEADER_SIZE + 2 * n <= upper <= offset && offset + nbytes <= |b|
    requires b1[upper + nbytes..offset + nbytes] == b0[upper..offset]
    requires KeptOutside(b0, b1, upper + nbytes, offset + nbytes)
    requires forall i | 0 <= i < n - 1 ::
               SlotOff(b2, false, i) == Slid(SlotOff(b1, false, Kept(idx, i)), offset, nbytes)
    requires KeptOutside(b1, b2, PAGE_HEADER_SIZE, PAGE_HEADER_SIZE + 2 * n)
    requires U16At(b3, 16, false) == PAGE_HEADER_SIZE + 2 * (n - 1)
    requires KeptOutside(b2, b3, 16, 18)
    requires U16At(b, 18, false) == upper + nbytes
    requires KeptOutside(b3, b, 18, 20)
    ensures Compacted(b0, b, n, idx, upper, offset, nbytes)
  {
    hide U16At;
    U16Frame(b3, b, 16, false);
    SlotsFrame(b0, b1, false, n);
    SlotsFrame(b2, b, false, n - 1);
    SameSlice(b1, b, upper + nbytes, offset + nbytes);
    SameSlice(b0, b, offset + nbytes, |b|);
  }

  /** The two `linp[]` loops: slot `idx` is dropped, later slots move down one,
      and offsets below `offset` grow by `nbytes`. */
  method ShiftSlots(a: array<byte>, idx: nat, n: nat, offset: nat, nbytes: nat)
    requires idx < n && PAGE_HEADER_SIZE + 2 * n <= a.Length
    requires forall i | 0 <= i < n && i != idx :: Slid(SlotOff(a[..], false, i), offset, nbytes) < MAX_PSIZE
    modifies a
    ensures forall i | 0 <= i < n - 1 ::
              SlotOff(a[..], false, i) == Slid(old(SlotOff(a[..], false, Kept(idx, i))), offset, nbytes)
    ensures SameOutside(a, PAGE_HEADER_SIZE, PAGE_HEADER_SIZE + 2 * n)
  {
    hide U16At;
    ghost var b1 := a[..];
    var lower := PAGE_HEADER_SIZE + 2 * n;

    for i := 0 to idx
      invariant forall k | 0 <= k < a.Length && !(PAGE_HEADER_SIZE <= k < lower) :: a[k] == b1[k]
      invariant forall j | 0 <= j < i :: SlotOff(a[..], false, j) == Slid(SlotOff(b1, false, j), offset, nbytes)
      invariant forall j | i <= j < n :: SlotOff(a[..], false, j) == SlotOff(b1, false, j)
    {
      var v := SlotOff(a[..], false, i);
      if v < offset {
        ghost var b2 := a[..];
        SetLinp(a, i, v + nbytes);
        OtherSlots(b2, a[..], i, n);
      }
    }
    for i := idx to n - 1
      invariant forall k | 0 <= k < a.Length && !(PAGE_HEADER_SIZE <= k < lower) :: a[k] == b1[k]
      invariant forall j | 0 <= j < i ::
                  SlotOff(a[..], false, j) == Slid(SlotOff(b1, false, Kept(idx, j)), offset, nbytes)
      invariant forall j | i < j < n :: SlotOff(a[..], false, j) == SlotOff(b1, false, j)
    {
      var v := SlotOff(a[..], false, i + 1);
      ghost var b2 := a[..];
      SetLinp(a, i, if v < offset then v + nbytes else v);
      OtherSlots(b2, a[..], i, n);
    }
  }
}
