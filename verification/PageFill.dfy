/** Building pages: empty pages, the copy loops of a split, root conversion. */
module PageFill {
  import opened Bytes
  import opened Errors
  import opened Format
  import opened Entries
  import opened PageViews
  import opened Layout
  import opened LayoutChange
  import opened PageBufs

  // ----- header writes on a packed page -----

  /** A header word outside the bounds does not disturb the body. */
  lemma HeaderWrite(b0: Bytes, b: Bytes, pg0: Page, pg: Page)
    requires Packed(b0, false, pg0) && |b| == |b0|
    requires forall k | 16 <= k < |b| :: b[k] == b0[k]
    requires Header(b, false, pg) && pg.leaf == pg0.leaf && pg.entries == pg0.entries
    ensures Packed(b, false, pg)
  {
    hide U32At, U16At, Body, Header;
    BoundsFrame(b0, b, false);
    BodyFrame(b0, b, false, pg.entries, NO_HOLE);
  }

  method SetPrevPg(a: array<byte>, v: u32, ghost pg: Page)
    requires Packed(a[..], false, pg)
    modifies a
    ensures Packed(a[..], false, pg.(prev := v))
  {
    hide Used, EntrySize, Quad, Body;
    ghost var b0 := a[..];
    WriteU32(a, 4, v);
    HeaderWrite(b0, a[..], pg, pg.(prev := v));
  }

  method SetNextPg(a: array<byte>, v: u32, ghost pg: Page)
    requires Packed(a[..], false, pg)
    modifies a
    ensures Packed(a[..], false, pg.(next := v))
  {
    hide Used, EntrySize, Quad, Body;
    ghost var b0 := a[..];
    WriteU32(a, 8, v);
    HeaderWrite(b0, a[..], pg, pg.(next := v));
  }

  /** A fresh page with no entries. */
  method EmptyPage(pgno: u32, psize: nat, leaf: bool) returns (a: array<byte>)
    requires MIN_PSIZE <= psize <= MAX_PSIZE
    ensures fresh(a) && a.Length == psize
    ensures Packed(a[..], false, Page(pgno, P_INVALID, P_INVALID, leaf, []))
  {
    hide Quad, Pair, Packed;
    a := new byte[psize](i => 0);
    assert Quad(0, 0, 0, 0) == 0 by { ZeroWord(); }
    WriteU32(a, 0, pgno);
    WriteU32(a, 12, TypeFlag(leaf));
    SetLower(a, PAGE_HEADER_SIZE);
    SetUpper(a, psize);
    NoEntriesPacked(a[..], pgno, leaf);
  }

  /** A header without entries is a packed page. */
  lemma NoEntriesPacked(b: Bytes, pgno: u32, leaf: bool)
    requires PageSized(b)
    requires U32At(b, 0, false) == pgno && U32At(b, 4, false) == 0 && U32At(b, 8, false) == 0
    requires U32At(b, 12, false) == TypeFlag(leaf)
    requires U16At(b, 16, false) == PAGE_HEADER_SIZE && U16At(b, 18, false) == |b|
    ensures Packed(b, false, Page(pgno, P_INVALID, P_INVALID, leaf, []))
  {
    hide U32At, U16At;
  }

  lemma ZeroWord()
    ensures Quad(0, 0, 0, 0) == 0
  {
  }

  // ----- filling a page slot by slot -----

  /** A page under construction: header done, slots of `es` placed but for `hole`. */
  ghost predicate Staged(b: Bytes, pg: Page, es: seq<Entry>, hole: int) {
    && PageSized(b)
    && Header(b, false, pg)
    && Body(b, false, es, hole)
  }

  /** `upper` drops by one entry, its slot is named, its bytes are written. */
  ghost predicate Placed(b0: Bytes, b: Bytes, slot: nat, upper: int, e: Entry) {
    && |b| == |b0|
    && PAGE_HEADER_SIZE + 2 * slot + 2 <= upper - EntrySize(e) && upper <= |b|
    && U16At(b, 18, false) == upper - EntrySize(e)
    && SlotOff(b, false, slot) == upper - EntrySize(e)
    && EntryAt(b, false, upper - EntrySize(e), e)
    && forall k | 0 <= k < |b| ::
         || b[k] == b0[k] || 18 <= k < 20 || upper - EntrySize(e) <= k < upper
         || PAGE_HEADER_SIZE + 2 * slot <= k < PAGE_HEADER_SIZE + 2 * slot + 2
  }

  lemma PlacedOthers(b0: Bytes, b: Bytes, slot: nat, upper: int, e: Entry, n: nat)
    requires PageSized(b0) && Placed(b0, b, slot, upper, e) && PAGE_HEADER_SIZE + 2 * n <= upper - EntrySize(e)
    ensures forall i | 0 <= i < n && i != slot :: SlotOff(b, false, i) == SlotOff(b0, false, i)
    ensures forall k | upper <= k < |b| :: b[k] == b0[k]
    ensures forall k | 0 <= k < 16 :: b[k] == b0[k]
  {
    hide EntryAt, EntrySize, Pair;
  }

  /** Placing the next entry extends the staged page. */
  lemma StageNext(b0: Bytes, b: Bytes, pg: Page, es: seq<Entry>, hole: int, e: Entry)
    requires Staged(b0, pg, es, hole) && hole != |es|
    requires Placed(b0, b, |es|, |b0| - Used(es, hole), e)
    ensures Staged(b, pg, es + [e], hole)
  {
    hide EntryAt, EntrySize, U16At, U32At, SlotOff;
    PlacedOthers(b0, b, |es|, |b0| - Used(es, hole), e, |es| + 1);
    HeaderFrame(b0, b, false, pg);
    OthersInPlace(b0, b, false, es, |es|, e, hole);
    assert (es + [e])[..|es|] == es;
    PlaceBelow(b, false, es + [e], |es|, hole, |b0| - Used(es, hole));
  }

  /** Filling the reserved slot completes the staged page. */
  lemma StageHole(b0: Bytes, b: Bytes, pg: Page, es: seq<Entry>, hole: nat)
    requires hole < |es| && Staged(b0, pg, es, hole)
    requires PAGE_HEADER_SIZE + 2 * |es| <= |b0| - Used(es, hole) - EntrySize(es[hole])
    requires Placed(b0, b, hole, |b0| - Used(es, hole), es[hole])
    ensures Staged(b, pg, es, NO_HOLE)
  {
    hide EntryAt, EntrySize, U16At, U32At, SlotOff, Used;
    PlacedOthers(b0, b, hole, |b0| - Used(es, hole), es[hole], |es|);
    HeaderFrame(b0, b, false, pg);
    OthersAtHole(b0, b, false, es, hole);
    UsedHole(es, hole);
    PlaceBelow(b, false, es, hole, NO_HOLE, |b0| - Used(es, hole));
  }

  /** Room for the entry at `slot` of a page of `upper` free bytes. */
  method TakeSlot(a: array<byte>, slot: nat, nbytes: nat) returns (newUpper: nat)
    requires PageSized(a[..])
    requires 0 < nbytes && PAGE_HEADER_SIZE + 2 * slot + 2 <= Upper(a[..]) - nbytes && Upper(a[..]) <= a.Length
    modifies a
    ensures newUpper == old(Upper(a[..])) - nbytes
    ensures U16At(a[..], 18, false) == newUpper && SlotOff(a[..], false, slot) == newUpper
    ensures forall k | 0 <= k < a.Length ::
              a[k] == old(a[k]) || 18 <= k < 20 || PAGE_HEADER_SIZE + 2 * slot <= k < PAGE_HEADER_SIZE + 2 * slot + 2
  {
    hide Pair;
    newUpper := Upper(a[..]) - nbytes;
    SetUpper(a, newUpper);
    ghost var b1 := a[..];
    SetLinp(a, slot, newUpper);
    U16Frame(b1, a[..], 18, false);
  }

  lemma TakenThenWritten(b0: Bytes, b1: Bytes, b: Bytes, slot: nat, upper: int, e: Entry)
    requires PageSized(b0) && |b| == |b1| == |b0|
    requires PAGE_HEADER_SIZE + 2 * slot + 2 <= upper - EntrySize(e) && upper <= |b|
    requires U16At(b1, 18, false) == upper - EntrySize(e) && SlotOff(b1, false, slot) == upper - EntrySize(e)
    requires forall k | 0 <= k < |b| ::
               b1[k] == b0[k] || 18 <= k < 20 || PAGE_HEADER_SIZE + 2 * slot <= k < PAGE_HEADER_SIZE + 2 * slot + 2
    requires EntryAt(b, false, upper - EntrySize(e), e)
    requires forall k | 0 <= k < |b| && !(upper - EntrySize(e) <= k < upper - EntrySize(e) + 9 + |Payload(e)|)
        :: b[k] == b1[k]
    ensures Placed(b0, b, slot, upper, e)
  {
    hide EntryAt, EntrySize, U16At, Payload;
    EntrySizeBound(e);
    U16Frame(b1, b, 18, false);
    U16Frame(b1, b, PAGE_HEADER_SIZE + 2 * slot, false);
  }

  /** Place a leaf record at `slot` of a page being filled. */
  method WriteEntryAtSlot(a: array<byte>, slot: nat, key: Bytes, val: Bytes)
    requires PageSized(a[..])
    requires PAGE_HEADER_SIZE + 2 * slot + 2 <= Upper(a[..]) - EntrySize(Leaf(key, val)) && Upper(a[..]) <= a.Length
    modifies a
    ensures Placed(old(a[..]), a[..], slot, old(Upper(a[..])), Leaf(key, val))
  {
    hide EntryAt, EntrySize, AlignEntry, U16At, U32At, Payload, Placed;
    ghost var e := Leaf(key, val);
    LeafSize(key, val);
    var nbytes := AlignEntry(BLEAF_HEADER_SIZE + |key| + |val|);
    ghost var b0, upper := a[..], Upper(a[..]);
    var newUpper := TakeSlot(a, slot, nbytes);
    ghost var b1 := a[..];
    WriteBleafInline(a, newUpper, key, val);
    TakenThenWritten(b0, b1, a[..], slot, upper, e);
  }

  /** Place a separator at `slot` of a page being filled. */
  method WriteInternalEntryAtSlot(a: array<byte>, slot: nat, nksize: nat, sepKey: Bytes, child: u32)
    requires PageSized(a[..]) && nksize <= |sepKey|
    requires PAGE_HEADER_SIZE + 2 * slot + 2 <= Upper(a[..]) - EntrySize(Sep(sepKey[..nksize], child))
    requires Upper(a[..]) <= a.Length
    modifies a
    ensures Placed(old(a[..]), a[..], slot, old(Upper(a[..])), Sep(sepKey[..nksize], child))
  {
    hide EntryAt, EntrySize, AlignEntry, U16At, U32At, Payload, Placed;
    ghost var e := Sep(sepKey[..nksize], child);
    SepSize(sepKey[..nksize], child);
    var nbytes := AlignEntry(BINTERNAL_HEADER_SIZE + nksize);
    ghost var b0, upper := a[..], Upper(a[..]);
    var newUpper := TakeSlot(a, slot, nbytes);
    ghost var b1 := a[..];
    WriteBinternalInline(a, newUpper, nksize, sepKey, child);
    TakenThenWritten(b0, b1, a[..], slot, upper, e);
  }

  // ----- the copy loops -----

  /** The encoded size of entry `idx` of a page, as the split plan weighs it. */
  function EntryNBytes(view: PageView, leaf: bool, idx: nat): Result<nat> {
    if leaf then
      var entry :- view.LeafEntryAt(idx);
      var key :- view.InlineBytes(entry.key);
      var val :- view.InlineBytes(entry.data);
      Success(AlignEntry(BLEAF_HEADER_SIZE + |key| + |val|))
    else
      var entry :- view.InternalEntryAt(idx);
      var key :- view.InlineBytes(entry.key);
      Success(AlignEntry(BINTERNAL_HEADER_SIZE + |key|))
  }

  lemma NBytesDecodes(pgno: u32, b: Bytes, pg: Page, idx: nat)
    requires Packed(b, false, pg) && idx < |pg.entries|
    ensures EntryNBytes(ViewOf(pgno, b, false, pg), pg.leaf, idx) == Success(EntrySize(pg.entries[idx]))
  {
    hide EntrySize, AlignEntry, Packed, U16At, U32At, PageView.LeafEntryAt, PageView.InternalEntryAt,
        PageView.InlineBytes;
    if pg.leaf {
      LeafDecodes(pgno, b, false, pg, idx);
      LeafSize(pg.entries[idx].key, pg.entries[idx].val);
    } else {
      SepDecodes(pgno, b, false, pg, idx);
      SepSize(pg.entries[idx].key, pg.entries[idx].child);
    }
  }

  /** Copy entry `srcIdx` of the source page to the next free place of `dst`. */
  method CopyOne(view: PageView, srcIdx: nat, dstSlot: nat, dst: array<byte>, ghost src: Bytes, ghost pg: Page)
    requires Packed(src, false, pg) && view == ViewOf(view.pgno, src, false, pg)
    requires srcIdx < |pg.entries| && PageSized(dst[..])
    requires Upper(dst[..]) <= dst.Length
    requires PAGE_HEADER_SIZE + 2 * dstSlot + 2 <= Upper(dst[..]) - EntrySize(pg.entries[srcIdx])
    modifies dst
    ensures Placed(old(dst[..]), dst[..], dstSlot, old(Upper(dst[..])), pg.entries[srcIdx])
  {
    hide Packed, EntrySize, U16At, U32At, Placed;
    ParsePacked(view.pgno, src, false, pg);
    if view.IsLeaf() {
      LeafDecodes(view.pgno, src, false, pg, srcIdx);
      var entry := view.LeafEntryAt(srcIdx).value;
      var key := view.InlineBytes(entry.key).value;
      var val := view.InlineBytes(entry.data).value;
      WriteEntryAtSlot(dst, dstSlot, key, val);
    } else {
      SepDecodes(view.pgno, src, false, pg, srcIdx);
      var entry := view.InternalEntryAt(srcIdx).value;
      var key := view.InlineBytes(entry.key).value;
      assert key[..|key|] == key;
      WriteInternalEntryAtSlot(dst, dstSlot, |key|, key, entry.child);
    }
  }

  /** What `copy_entries` is to put on `dst`: the source entries of the range, with
      a place for the new entry when its slot is reserved here. */
  ghost predicate Target(pg: Page, lo: nat, hi: nat, reserveAt: Option<nat>, goal: seq<Entry>) {
    && lo <= hi <= |pg.entries|
    && match reserveAt
       case None => goal == pg.entries[lo..hi]
       case Some(h) => h <= hi - lo && exists e :: goal == InsertAt(pg.entries[lo..hi], h, e)
  }

  function HoleOf(reserveAt: Option<nat>): int {
    if reserveAt.Some? then reserveAt.value else NO_HOLE
  }

  /** Slot of source entry `lo + c`. */
  function SlotFor(reserveAt: Option<nat>, c: nat): nat {
    if reserveAt.Some? && reserveAt.value <= c then c + 1 else c
  }

  lemma TargetAt(pg: Page, lo: nat, hi: nat, reserveAt: Option<nat>, goal: seq<Entry>, c: nat)
    requires Target(pg, lo, hi, reserveAt, goal) && c < hi - lo
    ensures SlotFor(reserveAt, c) < |goal| && goal[SlotFor(reserveAt, c)] == pg.entries[lo + c]
    ensures |goal| == hi - lo + if reserveAt.Some? then 1 else 0
  {
    var src := pg.entries[lo..hi];
    assert src[c] == pg.entries[lo + c];
    if reserveAt.Some? {
      var e :| goal == InsertAt(src, reserveAt.value, e);
      InsertIndex(src, reserveAt.value, e, SlotFor(reserveAt, c));
    }
  }

  /** A staged prefix of a page that fits has room for its next entry. */
  lemma RoomForNext(es: seq<Entry>, t: nat, hole: int, psize: nat)
    requires Fits(es, psize) && t < |es|
    ensures PAGE_HEADER_SIZE + 2 * t + 2 <= psize - Used(es[..t], hole) - if t == hole then 0 else EntrySize(es[t])
  {
    hide EntrySize;
    UsedHoleLess(es[..t], hole);
    assert es[..t + 1][..t] == es[..t];
    UsedPrefix(es, t + 1);
  }

  lemma {:induction false} UsedHoleLess(es: seq<Entry>, hole: int)
    ensures Used(es, hole) <= Used(es, NO_HOLE)
  {
    hide EntrySize;
    if es != [] {
      UsedHoleLess(es[..|es| - 1], hole);
    }
  }

  lemma TargetLength(pg: Page, lo: nat, hi: nat, reserveAt: Option<nat>, goal: seq<Entry>)
    requires Target(pg, lo, hi, reserveAt, goal)
    ensures |goal| == hi - lo + if reserveAt.Some? then 1 else 0
    ensures lo <= hi <= |pg.entries| && (reserveAt.Some? ==> reserveAt.value <= hi - lo)
  {
  }

  /** The reserved slot joins the staged page unwritten. */
  lemma StageReserved(b: Bytes, head: Page, goal: seq<Entry>, t: nat)
    requires t < |goal| && Fits(goal, |b|) && Staged(b, head, goal[..t], t)
    ensures Staged(b, head, goal[..t + 1], t)
  {
    hide Used, EntrySize, U16At, Header, Body;
    assert |goal[..t]| == t;
    UsedPrefix(goal, t);
    ReserveHole(b, false, goal[..t], goal[t]);
    assert goal[..t] + [goal[t]] == goal[..t + 1];
  }

  lemma StageRoom(b: Bytes, head: Page, goal: seq<Entry>, t: nat, hole: int)
    requires t <= |goal| && Staged(b, head, goal[..t], hole)
    ensures PageSized(b) && Upper(b) == |b| - Used(goal[..t], hole) <= |b|
  {
    hide EntrySize, U16At, Header;
    UsedNonNegative(goal[..t], hole);
  }

  lemma StagedFrame(b0: Bytes, b: Bytes, head: Page, es: seq<Entry>, hole: int)
    requires |b| == |b0| && Staged(b0, head, es, hole)
    requires forall k | 0 <= k < |b| && !(16 <= k < 18) :: b[k] == b0[k]
    ensures Staged(b, head, es, hole)
  {
    hide Body, Header;
    HeaderFrame(b0, b, false, head);
    BodyFrame(b0, b, false, es, hole);
  }

  /** Copy entries `lo..hi` of the source page onto `dst` in order, leaving the
      reserved slot for the new entry. */
  method CopyEntries(view: PageView, lo: nat, hi: nat, reserveAt: Option<nat>, dst: array<byte>,
                     ghost src: Bytes, ghost pg: Page, ghost head: Page, ghost goal: seq<Entry>)
    requires Packed(src, false, pg) && view == ViewOf(view.pgno, src, false, pg)
    requires Target(pg, lo, hi, reserveAt, goal) && Fits(goal, dst.Length)
    requires Staged(dst[..], head, [], HoleOf(reserveAt))
    modifies dst
    ensures Staged(dst[..], head, goal, HoleOf(reserveAt))
    ensures Lower(dst[..]) == PAGE_HEADER_SIZE + 2 * |goal|
  {
    hide Packed, EntrySize, U16At, U32At, Placed, Used, Body, Header, Target;
    ghost var hole := HoleOf(reserveAt);
    var slot := 0;
    assert goal[..0] == [];
    TargetLength(pg, lo, hi, reserveAt, goal);
    for srcIdx := lo to hi
      invariant slot == if srcIdx == lo then 0 else SlotFor(reserveAt, srcIdx - lo - 1) + 1
      invariant slot <= |goal| && Staged(dst[..], head, goal[..slot], hole)
    {
      if reserveAt == Some(slot) {
        StageReserved(dst[..], head, goal, slot);
        slot := slot + 1;
      }
      StageRoom(dst[..], head, goal, slot, hole);
      TargetAt(pg, lo, hi, reserveAt, goal, srcIdx - lo);
      RoomForNext(goal, slot, hole, dst.Length);
      ghost var b0 := dst[..];
      CopyOne(view, srcIdx, slot, dst, src, pg);
      assert |goal[..slot]| == slot;
      StageNext(b0, dst[..], head, goal[..slot], hole, goal[slot]);
      assert goal[..slot] + [goal[slot]] == goal[..slot + 1];
      slot := slot + 1;
    }
    if reserveAt == Some(slot) {
      StageReserved(dst[..], head, goal, slot);
      slot := slot + 1;
    }
    assert goal[..slot] == goal;
    ghost var b0 := dst[..];
    SetLower(dst, PAGE_HEADER_SIZE + slot * 2);
    StagedFrame(b0, dst[..], head, goal, hole);
  }
}
