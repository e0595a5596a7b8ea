/** Promoting the root in place over whatever its page held before. */
module PageRoot {
  import opened Bytes
  import opened Format
  import opened Entries
  import opened PageViews
  import opened Layout
  import opened PageBufs

  function RootEntries(lPgno: u32, rPgno: u32, rFirstKey: Bytes): seq<Entry> {
    [Sep([], lPgno), Sep(rFirstKey, rPgno)]
  }

  lemma RootUsed(lPgno: u32, rPgno: u32, rFirstKey: Bytes)
    ensures var es := RootEntries(lPgno, rPgno, rFirstKey);
      Used(es, NO_HOLE) == EntrySize(es[0]) + EntrySize(es[1])
    ensures EntrySize(Sep([], lPgno)) == 12
  {
    hide EntrySize;
    var es := RootEntries(lPgno, rPgno, rFirstKey);
    assert es == [es[0]] + [es[1]];
    UsedConcat([es[0]], [es[1]]);
    assert [es[0]][..0] == [] && [es[1]][..0] == [];
    EmptyKeySize(lPgno);
  }

  lemma EmptyKeySize(lPgno: u32)
    ensures EntrySize(Sep([], lPgno)) == 12
  {
    assert |Payload(Sep([], lPgno))| == 0;
  }

  /** Two encoded separators and five header fields make a packed root, whatever
      the rest of the page holds. */
  lemma RootPacked(b: Bytes, pg: Page, lPgno: u32, rPgno: u32, key: Bytes)
    requires PageSized(b) && Header(b, false, pg) && !pg.leaf
    requires pg.entries == RootEntries(lPgno, rPgno, key) && Fits(pg.entries, |b|)
    requires var u0 := |b| - EntrySize(pg.entries[0]); var u1 := u0 - EntrySize(pg.entries[1]);
      && u1 >= 24
      && U16At(b, 16, false) == PAGE_HEADER_SIZE + 4 && U16At(b, 18, false) == u1
      && SlotOff(b, false, 0) == u0 && SlotOff(b, false, 1) == u1
      && EntryAt(b, false, u0, pg.entries[0]) && EntryAt(b, false, u1, pg.entries[1])
    ensures Packed(b, false, pg)
  {
    hide EntryAt, EntrySize, U16At, Header, Used, SlotOff;
    RootUsed(lPgno, rPgno, key);
    EntrySizeBound(pg.entries[0]);
    EntrySizeBound(pg.entries[1]);
  }

  /** The word without its page-type bits, as an internal page. */
  lemma InternalFlag(leaf: bool)
    ensures TypeFlag(leaf) - TypeFlag(leaf) % P_TYPE_BITS + P_BINTERNAL == P_BINTERNAL
  {
  }

  method ConvertRootToInternal(a: array<byte>, psize: nat, lPgno: u32, rPgno: u32, rFirstKey: Bytes, ghost pg: Page)
    requires a.Length == psize && Packed(a[..], false, pg)
    requires Fits(RootEntries(lPgno, rPgno, rFirstKey), psize)
    modifies a
    ensures Packed(a[..], false, pg.(leaf := false, entries := RootEntries(lPgno, rPgno, rFirstKey)))
  {
    hide Packed, EntryAt, EntrySize, AlignEntry, U16At, U32At, Used, Payload;
    ghost var es := RootEntries(lPgno, rPgno, rFirstKey);
    RootUsed(lPgno, rPgno, rFirstKey);
    SepSize([], lPgno);
    SepSize(rFirstKey, rPgno);
    PackedHeader(a[..], pg);
    ghost var b0 := a[..];
    var upper0 := psize - AlignEntry(BINTERNAL_HEADER_SIZE);
    var upper1 := upper0 - AlignEntry(BINTERNAL_HEADER_SIZE + |rFirstKey|);
    assert rFirstKey[..|rFirstKey|] == rFirstKey;
    WriteBinternalInline(a, upper0, 0, [], lPgno);
    ghost var b1 := a[..];
    WriteBinternalInline(a, upper1, |rFirstKey|, rFirstKey, rPgno);
    ghost var b2 := a[..];
    KeepsEntry(b1, b2, upper0, es[0]);
    HeaderFrame(b0, b2, false, pg);
    RewriteRootHeader(a, upper0, upper1, pg);
    KeepsEntry(b2, a[..], upper0, es[0]);
    KeepsEntry(b2, a[..], upper1, es[1]);
    RootPacked(a[..], pg.(leaf := false, entries := es), lPgno, rPgno, rFirstKey);
  }

  lemma PackedHeader(b: Bytes, pg: Page)
    requires Packed(b, false, pg)
    ensures PageSized(b) && Header(b, false, pg)
  {
  }

  lemma KeepsEntry(b0: Bytes, b: Bytes, off: nat, e: Entry)
    requires |b| == |b0| && EntryAt(b0, false, off, e)
    requires forall k | off <= k < off + 9 + |Payload(e)| && k < |b| :: b[k] == b0[k]
    ensures EntryAt(b, false, off, e)
  {
    hide Payload, EntryAt;
    EntryFits(b0, false, off, e);
    SameSlice(b0, b, off, off + 9 + |Payload(e)|);
    EntryFrame(b0, off, b, off, false, e);
  }

  /** `linp[0..2]`, `lower`, `upper` and the type bits. */
  method RewriteRootHeader(a: array<byte>, upper0: nat, upper1: nat, ghost pg: Page)
    requires PageSized(a[..]) && Header(a[..], false, pg) && 24 <= upper1 < upper0 < a.Length
    modifies a
    ensures Header(a[..], false, pg.(leaf := false))
    ensures U16At(a[..], 16, false) == PAGE_HEADER_SIZE + 4 && U16At(a[..], 18, false) == upper1
    ensures SlotOff(a[..], false, 0) == upper0 && SlotOff(a[..], false, 1) == upper1
    ensures forall k | 24 <= k < a.Length :: a[k] == old(a[k])
  {
    hide Pair, Quad;
    InternalFlag(pg.leaf);
    SetLinp(a, 0, upper0);
    SetLinp(a, 1, upper1);
    SetLower(a, PAGE_HEADER_SIZE + 4);
    SetUpper(a, upper1);
    var flags := Flags(a[..]);
    WriteU32(a, 12, flags - flags % P_TYPE_BITS + P_BINTERNAL);
  }
}
