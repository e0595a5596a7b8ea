/** Decoding of btree pages: the validated, read-only view of one page. */
module PageViews {
  import opened Bytes
  import opened Errors
  import opened Format

  /** A key or value: bytes of the page, or the head of an overflow chain. */
  datatype ItemRef =
    | Inline(off: nat, len: nat)
    | Overflow(pgno: u32, size: u32)

  datatype LeafEntry = LeafEntry(key: ItemRef, data: ItemRef)

  datatype InternalEntry = InternalEntry(key: ItemRef, child: u32)

  datatype PageView = PageView(
    pgno: u32, prevPg: u32, nextPg: u32, bytes: Bytes, swap: bool, flags: u32, nentries: nat)
  {
    predicate IsLeaf() { HasBit(flags, P_BLEAF) }

    predicate IsInternal() { HasBit(flags, P_BINTERNAL) }

    predicate IsOverflow() { HasBit(flags, P_OVERFLOW) }

    function OverflowPayload(): Bytes {
      if PAGE_HEADER_SIZE <= |bytes| then bytes[PAGE_HEADER_SIZE..] else []
    }

    function U16(off: nat): Result<u16> {
      if off + 2 <= |bytes| then Success(U16At(bytes, off, swap)) else Failure(CorruptPage(pgno))
    }

    function U32(off: nat): Result<u32> {
      if off + 4 <= |bytes| then Success(U32At(bytes, off, swap)) else Failure(CorruptPage(pgno))
    }

    function ByteAt(off: nat): Result<byte> {
      if off < |bytes| then Success(bytes[off]) else Failure(CorruptPage(pgno))
    }

    /** The page bytes an inline item names. */
    function InlineBytes(item: ItemRef): Result<Bytes> {
      match item
      case Inline(off, len) =>
        if off + len <= |bytes| then Success(bytes[off..off + len]) else Failure(CorruptPage(pgno))
      case Overflow(_, _) => Failure(CorruptPage(pgno))
    }

    function EntryOffset(idx: nat): Result<u16> {
      if idx >= nentries then Failure(CorruptPage(pgno)) else U16(PAGE_HEADER_SIZE + idx * 2)
    }

    function DecodeItem(off: nat, len: nat, big: bool): Result<ItemRef> {
      if !big then Success(Inline(off, len))
      else if len < NOVFLSIZE then Failure(CorruptPage(pgno))
      else
        var chain :- U32(off);
        var size :- U32(off + 4);
        Success(Overflow(chain, size))
    }

    function LeafEntryAt(idx: nat): Result<LeafEntry> {
      var off :- EntryOffset(idx);
      var ksize :- U32(off);
      var dsize :- U32(off + 4);
      var eflags :- ByteAt(off + 8);
      var payload := off + BLEAF_HEADER_SIZE;
      if payload + ksize + dsize > |bytes| then
        Failure(CorruptPage(pgno))
      else
        var key :- DecodeItem(payload, ksize, HasBit(eflags, P_BIGKEY));
        var data :- DecodeItem(payload + ksize, dsize, HasBit(eflags, P_BIGDATA));
        Success(LeafEntry(key, data))
    }

    function InternalEntryAt(idx: nat): Result<InternalEntry> {
      var off :- EntryOffset(idx);
      var ksize :- U32(off);
      var child :- U32(off + 4);
      var eflags :- ByteAt(off + 8);
      var payload := off + BINTERNAL_HEADER_SIZE;
      if payload + ksize > |bytes| then
        Failure(CorruptPage(pgno))
      else
        var key :- DecodeItem(payload, ksize, HasBit(eflags, P_BIGKEY));
        Success(InternalEntry(key, child))
    }
  }

  /** Validate the header of `bytes` and expose it as page `pgno`. */
  function Parse(pgno: u32, bytes: Bytes, swap: bool): Result<PageView> {
    if |bytes| < PAGE_HEADER_SIZE then
      Failure(CorruptPage(pgno))
    else
      var flags := U32At(bytes, 12, swap);
      var lower := U16At(bytes, 16, swap);
      var upper := U16At(bytes, 18, swap);
      if lower < PAGE_HEADER_SIZE || upper > |bytes| || lower > upper || (lower - PAGE_HEADER_SIZE) % 2 != 0 then
        Failure(CorruptPage(pgno))
      else if flags % P_TYPE_BITS != P_BINTERNAL && flags % P_TYPE_BITS != P_BLEAF
          && flags % P_TYPE_BITS != P_OVERFLOW then
        Failure(CorruptPage(pgno))
      else
        Success(PageView(pgno, U32At(bytes, 4, swap), U32At(bytes, 8, swap), bytes, swap, flags,
                         (lower - PAGE_HEADER_SIZE) / 2))
  }
}
