/** The slotted-page layout, as a relation between bytes and abstract pages. */
module Layout {
  import opened Bytes
  import opened Errors
  import opened Format
  import opened Entries
  import opened PageViews

  function SecondWord(e: Entry): nat {
    match e
    case Leaf(_, v) => |v|
    case Sep(_, c) => c
  }

  /** Entry `e` is encoded at offset `off`: two words, a zero flag byte, the payload. */
  predicate EntryAt(b: Bytes, swap: bool, off: nat, e: Entry) {
    && off + BLEAF_HEADER_SIZE + |Payload(e)| <= |b|
    && U32At(b, off, swap) == |e.key|
    && U32At(b, off + 4, swap) == SecondWord(e)
    && b[off + 8] == 0
    && b[off + 9..off + 9 + |Payload(e)|] == Payload(e)
  }

  /** Offset stored in `linp[i]`. */
  function SlotOff(b: Bytes, swap: bool, i: nat): u16
    requires PAGE_HEADER_SIZE + 2 * i + 2 <= |b|
  {
    U16At(b, PAGE_HEADER_SIZE + 2 * i, swap)
  }

  /** Slot `i` names an encoding of `e` that lies in `[upper, |b|)`. */
  predicate SlotOk(b: Bytes, swap: bool, i: nat, e: Entry, upper: int)
    requires PAGE_HEADER_SIZE + 2 * i + 2 <= |b|
  {
    && upper <= SlotOff(b, swap, i)
    && SlotOff(b, swap, i) + EntrySize(e) <= |b|
    && EntryAt(b, swap, SlotOff(b, swap, i), e)
  }

  predicate Apart(o1: int, n1: int, o2: int, n2: int) {
    o1 + n1 <= o2 || o2 + n2 <= o1
  }

  predicate SlotsApart(b: Bytes, swap: bool, es: seq<Entry>, i: nat, j: nat)
    requires i < |es| && j < |es| && PAGE_HEADER_SIZE + 2 * |es| <= |b|
  {
    Apart(SlotOff(b, swap, i), EntrySize(es[i]), SlotOff(b, swap, j), EntrySize(es[j]))
  }

  /** The slots of a page hold `es`, packed without gap or overlap above `upper`,
      in any physical order; the slot at `hole`, if any, is not written yet.
      Being disjoint and adding up to `|b| - upper` bytes, the entries tile the
      region. */
  ghost predicate Body(b: Bytes, swap: bool, es: seq<Entry>, hole: int) {
    var upper := |b| - Used(es, hole);
    && PAGE_HEADER_SIZE + 2 * |es| <= upper
    && U16At(b, 18, swap) == upper
    && (forall i | 0 <= i < |es| && i != hole :: SlotOk(b, swap, i, es[i], upper))
    && (forall i, j | 0 <= i < j < |es| && i != hole && j != hole :: SlotsApart(b, swap, es, i, j))
  }

  predicate PageSized(b: Bytes) {
    MIN_PSIZE <= |b| <= MAX_PSIZE
  }

  function TypeFlag(leaf: bool): u32 {
    if leaf then P_BLEAF else P_BINTERNAL
  }

  predicate Header(b: Bytes, swap: bool, pg: Page)
    requires PageSized(b)
  {
    && U32At(b, 0, swap) == pg.pgno
    && U32At(b, 4, swap) == pg.prev
    && U32At(b, 8, swap) == pg.next
    && U32At(b, 12, swap) == TypeFlag(pg.leaf)
  }

  /** `b` is a packed encoding of `pg`. */
  ghost predicate Packed(b: Bytes, swap: bool, pg: Page) {
    && PageSized(b)
    && Kind(pg)
    && Header(b, swap, pg)
    && U16At(b, 16, swap) == PAGE_HEADER_SIZE + 2 * |pg.entries|
    && Body(b, swap, pg.entries, NO_HOLE)
  }

  lemma BodySlot(b: Bytes, swap: bool, es: seq<Entry>, hole: int, i: nat)
    requires Body(b, swap, es, hole) && i < |es| && i != hole
    ensures PAGE_HEADER_SIZE + 2 * |es| <= |b| - Used(es, hole) <= |b|
    ensures SlotOk(b, swap, i, es[i], |b| - Used(es, hole))
  {
    hide EntrySize, U16At, EntryAt;
    UsedNonNegative(es, hole);
  }

  lemma BodyApart(b: Bytes, swap: bool, es: seq<Entry>, hole: int, i: nat, j: nat)
    requires Body(b, swap, es, hole) && i < j < |es| && i != hole && j != hole
    ensures PAGE_HEADER_SIZE + 2 * |es| <= |b|
    ensures SlotsApart(b, swap, es, i, j)
  {
    hide EntrySize, U16At, EntryAt, Used;
    UsedNonNegative(es, hole);
  }

  /** Header fields of a packed page. */
  lemma PackedBounds(b: Bytes, swap: bool, pg: Page)
    requires Packed(b, swap, pg)
    ensures PageSized(b)
    ensures U16At(b, 16, swap) == PAGE_HEADER_SIZE + 2 * |pg.entries|
    ensures U16At(b, 18, swap) == |b| - Used(pg.entries, NO_HOLE) <= |b|
    ensures U16At(b, 16, swap) <= U16At(b, 18, swap)
  {
    hide Used, EntrySize;
    UsedNonNegative(pg.entries, NO_HOLE);
  }

  lemma PackedIsKind(b: Bytes, swap: bool, pg: Page)
    requires Packed(b, swap, pg)
    ensures Kind(pg)
  {
  }

  /** Where slot `i` of a packed page points. */
  lemma PackedSlot(b: Bytes, swap: bool, pg: Page, i: nat)
    requires Packed(b, swap, pg) && i < |pg.entries|
    ensures PAGE_HEADER_SIZE + 2 * |pg.entries| <= |b| - Used(pg.entries, NO_HOLE) <= |b|
    ensures SlotOk(b, swap, i, pg.entries[i], |b| - Used(pg.entries, NO_HOLE))
    ensures EntrySize(pg.entries[i]) >= 9
  {
    hide Used, U16At, U32At, EntryAt;
    EntrySizeBound(pg.entries[i]);
  }

  lemma PackedApart(b: Bytes, swap: bool, pg: Page, i: nat, j: nat)
    requires Packed(b, swap, pg) && i < |pg.entries| && j < |pg.entries| && i != j
    ensures PAGE_HEADER_SIZE + 2 * |pg.entries| <= |b|
    ensures SlotsApart(b, swap, pg.entries, i, j)
  {
    hide Used, U16At, U32At, EntryAt, EntrySize;
    PackedSlot(b, swap, pg, i);
    assert if i < j then SlotsApart(b, swap, pg.entries, i, j) else SlotsApart(b, swap, pg.entries, j, i);
  }

  // ----- the decoder inverts the layout -----

  function ViewOf(pgno: u32, b: Bytes, swap: bool, pg: Page): PageView {
    PageView(pgno, pg.prev, pg.next, b, swap, TypeFlag(pg.leaf), |pg.entries|)
  }

  lemma ParsePacked(pgno: u32, b: Bytes, swap: bool, pg: Page)
    requires Packed(b, swap, pg)
    ensures Parse(pgno, b, swap) == Success(ViewOf(pgno, b, swap, pg))
    ensures ViewOf(pgno, b, swap, pg).IsLeaf() == pg.leaf
    ensures ViewOf(pgno, b, swap, pg).IsInternal() == !pg.leaf
  {
    hide Used, EntrySize, U16At, U32At, Body;
    PackedBounds(b, swap, pg);
  }

  /** Decoding leaf slot `i` of a packed page gives its record. */
  lemma LeafDecodes(pgno: u32, b: Bytes, swap: bool, pg: Page, i: nat)
    requires Packed(b, swap, pg) && pg.leaf && i < |pg.entries|
    ensures pg.entries[i].Leaf?
    ensures var v := ViewOf(pgno, b, swap, pg); var e := v.LeafEntryAt(i);
      && e.Success? && e.value.key.Inline? && e.value.data.Inline?
      && v.InlineBytes(e.value.key) == Success(pg.entries[i].key)
      && v.InlineBytes(e.value.data) == Success(pg.entries[i].val)
  {
    hide Used, EntrySize, U16At, U32At, HasBit;
    var v, e := ViewOf(pgno, b, swap, pg), pg.entries[i];
    assert SlotOk(b, swap, i, e, |b| - Used(pg.entries, NO_HOLE));
    var off := SlotOff(b, swap, i);
    PayloadSplits(b, swap, off, e);
    NoBits();
    assert v.EntryOffset(i) == Success(off);
    assert v.LeafEntryAt(i) == Success(LeafEntry(Inline(off + 9, |e.key|), Inline(off + 9 + |e.key|, |e.val|)));
  }

  lemma NoBits()
    ensures !HasBit(0, P_BIGKEY) && !HasBit(0, P_BIGDATA)
  {
  }

  /** The payload of an encoded record is its key, then its value. */
  lemma PayloadSplits(b: Bytes, swap: bool, off: nat, e: Entry)
    requires e.Leaf? && EntryAt(b, swap, off, e)
    ensures off + 9 + |e.key| + |e.val| <= |b|
    ensures b[off + 9..off + 9 + |e.key|] == e.key
    ensures b[off + 9 + |e.key|..off + 9 + |e.key| + |e.val|] == e.val
  {
    hide U32At;
    var w := b[off + 9..off + 9 + |e.key| + |e.val|];
    assert b[off + 9..off + 9 + |e.key|] == w[..|e.key|] == e.key;
    assert b[off + 9 + |e.key|..off + 9 + |e.key| + |e.val|] == w[|e.key|..] == e.val;
  }

  lemma SepDecodes(pgno: u32, b: Bytes, swap: bool, pg: Page, i: nat)
    requires Packed(b, swap, pg) && !pg.leaf && i < |pg.entries|
    ensures pg.entries[i].Sep?
    ensures var v := ViewOf(pgno, b, swap, pg); var e := v.InternalEntryAt(i);
      && e.Success? && e.value.key.Inline?
      && e.value.child == pg.entries[i].child
      && v.InlineBytes(e.value.key) == Success(pg.entries[i].key)
  {
    hide Used, EntrySize, U16At, U32At, HasBit;
    var v, e := ViewOf(pgno, b, swap, pg), pg.entries[i];
    assert SlotOk(b, swap, i, e, |b| - Used(pg.entries, NO_HOLE));
    var off := SlotOff(b, swap, i);
    NoBits();
    assert v.EntryOffset(i) == Success(off);
    assert v.InternalEntryAt(i) == Success(InternalEntry(Inline(off + 9, |e.key|), e.child));
  }

  /** A buffer encodes at most one page. */
  lemma PackedUnique(b: Bytes, swap: bool, p1: Page, p2: Page)
    requires Packed(b, swap, p1) && Packed(b, swap, p2)
    ensures p1 == p2
  {
    hide Used, EntrySize;
    ParsePacked(0, b, swap, p1);
    ParsePacked(0, b, swap, p2);
    forall i | 0 <= i < |p1.entries| ensures p1.entries[i] == p2.entries[i] {
      if p1.leaf {
        LeafDecodes(0, b, swap, p1, i);
        LeafDecodes(0, b, swap, p2, i);
      } else {
        SepDecodes(0, b, swap, p1, i);
        SepDecodes(0, b, swap, p2, i);
      }
    }
  }

  /** Conservation: entries with their slots, plus free space, fill the page. */
  lemma PackedConserves(b: Bytes, swap: bool, pg: Page)
    requires Packed(b, swap, pg)
    ensures U16At(b, 18, swap) - U16At(b, 16, swap) == FreeSpace(pg.entries, |b|) >= 0
    ensures Fits(pg.entries, |b|)
  {
  }

  /** An entry reads the same in a buffer that agrees on its bytes. */
  lemma EntryFrame(b0: Bytes, off0: nat, b: Bytes, off: nat, swap: bool, e: Entry)
    requires EntryAt(b0, swap, off0, e) && off + 9 + |Payload(e)| <= |b|
    requires b[off..off + 9 + |Payload(e)|] == b0[off0..off0 + 9 + |Payload(e)|]
    ensures EntryAt(b, swap, off, e)
  {
    hide Payload, SecondWord;
    var n := 9 + |Payload(e)|;
    var w, w0 := b[off..off + n], b0[off0..off0 + n];
    assert forall k | 0 <= k < 9 :: b[off + k] == w[k] == w0[k] == b0[off0 + k];
    assert b[off + 9..off + n] == w[9..] == w0[9..] == b0[off0 + 9..off0 + n];
  }

  /** A slot stays good when its entry's bytes stay above `upper`. */
  lemma SlotFrame(b0: Bytes, b: Bytes, swap: bool, i0: nat, i: nat, e: Entry, upper: nat)
    requires |b0| == |b| && PageSized(b)
    requires PAGE_HEADER_SIZE + 2 * i + 2 <= |b| && PAGE_HEADER_SIZE + 2 * i0 + 2 <= |b|
    requires SlotOk(b0, swap, i0, e, upper)
    requires SlotOff(b, swap, i) == SlotOff(b0, swap, i0)
    requires forall k | upper <= k < |b| :: b[k] == b0[k]
    ensures SlotOk(b, swap, i, e, upper)
  {
    hide EntrySize, EntryAt, SlotOff, Payload;
    var off := SlotOff(b, swap, i);
    EntrySizeBound(e);
    EntryFits(b0, swap, off, e);
    assert b[off..off + 9 + |Payload(e)|] == b0[off..off + 9 + |Payload(e)|];
    EntryFrame(b0, off, b, off, swap, e);
  }

  /** Slots and header words depend on their own bytes only. */
  lemma SlotsFrame(b0: Bytes, b: Bytes, swap: bool, n: nat)
    requires |b| == |b0| && PAGE_HEADER_SIZE + 2 * n <= |b|
    requires forall k | PAGE_HEADER_SIZE <= k < PAGE_HEADER_SIZE + 2 * n :: b[k] == b0[k]
    ensures forall i | 0 <= i < n :: SlotOff(b, swap, i) == SlotOff(b0, swap, i)
  {
    hide Pair;
  }

  lemma BoundsFrame(b0: Bytes, b: Bytes, swap: bool)
    requires |b| == |b0| && PageSized(b)
    requires forall k | 16 <= k < 20 :: b[k] == b0[k]
    ensures U16At(b, 16, swap) == U16At(b0, 16, swap) && U16At(b, 18, swap) == U16At(b0, 18, swap)
  {
    hide Pair;
  }

  lemma HeaderFrame(b0: Bytes, b: Bytes, swap: bool, pg: Page)
    requires |b| == |b0| && PageSized(b) && Header(b0, swap, pg)
    requires forall k | 0 <= k < 16 :: b[k] == b0[k]
    ensures Header(b, swap, pg)
  {
    hide Quad;
  }

  lemma EntryFits(b: Bytes, swap: bool, off: nat, e: Entry)
    requires EntryAt(b, swap, off, e)
    ensures off + 9 + |Payload(e)| <= |b|
  {
  }
}
