/** Whole-entry operations on a page buffer, each stated on the decoded page. */
module PageOps {
  import opened Bytes
  import opened Format
  import opened Entries
  import opened Layout
  import opened LayoutChange
  import opened PageBufs

  // ----- insertion into a page with room -----

  /** A slot reserved in `b1` and an entry written in `b` insert that entry. */
  lemma InsertPacked(b0: Bytes, b1: Bytes, b: Bytes, pg: Page, idx: nat, e: Entry)
    requires Packed(b0, false, pg) && idx <= |pg.entries| && |b| == |b1| == |b0|
    requires e.Leaf? == pg.leaf && FreeSpace(pg.entries, |b0|) >= EntrySize(e) + 2
    requires var up := |b0| - Used(pg.entries, NO_HOLE);
      && (forall k | 0 <= k < |b| && !(16 <= k < PAGE_HEADER_SIZE + 2 * |pg.entries| + 2) :: b1[k] == b0[k])
      && U16At(b1, 16, false) == U16At(b0, 16, false) + 2
      && U16At(b1, 18, false) == up - EntrySize(e)
      && (forall i | 0 <= i < idx :: SlotOff(b1, false, i) == SlotOff(b0, false, i))
      && SlotOff(b1, false, idx) == up - EntrySize(e)
      && (forall i | idx < i <= |pg.entries| :: SlotOff(b1, false, i) == SlotOff(b0, false, i - 1))
      && EntryAt(b, false, up - EntrySize(e), e)
      && (forall k | 0 <= k < |b| && !(up - EntrySize(e) <= k < up) :: b[k] == b1[k])
    ensures Packed(b, false, pg.(entries := InsertAt(pg.entries, idx, e)))
  {
    hide Used, EntrySize, EntryAt, U16At, U32At, SlotOff;
    var up := |b0| - Used(pg.entries, NO_HOLE);
    EntrySizeBound(e);
    SlotsFrame(b1, b, false, |pg.entries| + 1);
    BoundsFrame(b1, b, false);
    HeaderFrame(b0, b, false, pg);
    UsedInsert(pg.entries, idx, e);
    OthersAfterShift(b0, b, false, pg.entries, idx, e);
    PlaceBelow(b, false, InsertAt(pg.entries, idx, e), idx, NO_HOLE, up);
  }

  /** Insert a record into a leaf that has room for it. */
  method InsertLeafEntry(a: array<byte>, idx: nat, key: Bytes, val: Bytes, ghost pg: Page)
    requires Packed(a[..], false, pg) && pg.leaf && idx <= |pg.entries|
    requires FreeSpace(pg.entries, a.Length) >= EntrySize(Leaf(key, val)) + 2
    modifies a
    ensures Packed(a[..], false, pg.(entries := InsertAt(pg.entries, idx, Leaf(key, val))))
  {
    hide Used, U32At, U16At, AlignEntry, EntryAt, EntrySize, Payload, Packed;
    ghost var e := Leaf(key, val);
    ghost var b0 := a[..];
    LeafSize(key, val);
    PackedBounds(b0, false, pg);
    var nbytes := AlignEntry(BLEAF_HEADER_SIZE + |key| + |val|);
    var newUpper := ReserveSlot(a, idx, nbytes);
    ghost var b1 := a[..];
    WriteBleafInline(a, newUpper, key, val);
    InsertPacked(b0, b1, a[..], pg, idx, e);
  }

  /** Insert a separator into an internal page that has room for it. */
  method InsertInternalInPlace(a: array<byte>, skip: nat, nksize: nat, sepKey: Bytes, child: u32, ghost pg: Page)
    requires Packed(a[..], false, pg) && !pg.leaf && skip <= |pg.entries| && nksize <= |sepKey|
    requires FreeSpace(pg.entries, a.Length) >= EntrySize(Sep(sepKey[..nksize], child)) + 2
    modifies a
    ensures Packed(a[..], false, pg.(entries := InsertAt(pg.entries, skip, Sep(sepKey[..nksize], child))))
  {
    hide Used, U32At, U16At, AlignEntry, EntryAt, EntrySize, Payload, Packed;
    ghost var e := Sep(sepKey[..nksize], child);
    ghost var b0 := a[..];
    SepSize(sepKey[..nksize], child);
    PackedBounds(b0, false, pg);
    var nbytes := AlignEntry(BINTERNAL_HEADER_SIZE + nksize);
    var newUpper := ReserveSlot(a, skip, nbytes);
    ghost var b1 := a[..];
    WriteBinternalInline(a, newUpper, nksize, sepKey, child);
    InsertPacked(b0, b1, a[..], pg, skip, e);
  }
}
