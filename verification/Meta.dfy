/** The meta page at the head of a file. */
module MetaPage {
  import opened Bytes
  import opened Format
  import opened PageBufs

  datatype Meta = Meta(magic: u32, version: u32, psize: u32, flags: u32)

  /** Decode the meta page; the flag tells whether the file has the opposite byte
      order, seen from the magic number. */
  function ParseMeta(buf: Bytes): (Meta, bool)
    requires META_SIZE <= |buf|
  {
    var swap := U32At(buf, 0, false) != BTREE_MAGIC;
    (Meta(U32At(buf, 0, swap), U32At(buf, 4, swap), U32At(buf, 8, swap), U32At(buf, 20, swap)), swap)
  }

  /** The six words of the meta page, under one byte order. */
  predicate MetaWords(b: Bytes, swap: bool, psize: u32, free: u32, nrecs: u32, flags: u32) {
    && META_SIZE <= |b|
    && U32At(b, 0, swap) == BTREE_MAGIC
    && U32At(b, 4, swap) == BTREE_VERSION
    && U32At(b, 8, swap) == psize
    && U32At(b, 12, swap) == free
    && U32At(b, 16, swap) == nrecs
    && U32At(b, 20, swap) == flags
  }

  method BuildMeta(psize: nat, free: u32, nrecs: u32, flags: u32) returns (a: array<byte>)
    requires MIN_PSIZE <= psize <= MAX_PSIZE
    ensures fresh(a) && a.Length == psize && MetaWords(a[..], false, psize, free, nrecs, flags)
  {
    hide Quad;
    a := new byte[psize](i => 0);
    WriteU32(a, 0, BTREE_MAGIC);
    WriteU32(a, 4, BTREE_VERSION);
    WriteU32(a, 8, psize);
    WriteU32(a, 12, free);
    WriteU32(a, 16, nrecs);
    WriteU32(a, 20, flags);
  }

  /** The magic number read in the wrong order is another number, so the byte order
      of a meta page is recognised whichever it is. */
  lemma MetaRecognised(b: Bytes, swap: bool, psize: u32, free: u32, nrecs: u32, flags: u32)
    requires MetaWords(b, swap, psize, free, nrecs, flags)
    ensures ParseMeta(b) == (Meta(BTREE_MAGIC, BTREE_VERSION, psize, flags), swap)
  {
    hide Quad;
    if swap {
      MagicIsOneWay(b[0], b[1], b[2], b[3]);
    }
  }

  /** Four bytes are not the magic number in both orders: its lowest byte would be
      the highest too. */
  lemma MagicIsOneWay(b0: byte, b1: byte, b2: byte, b3: byte)
    requires Quad(b3, b2, b1, b0) == BTREE_MAGIC
    ensures Quad(b0, b1, b2, b3) != BTREE_MAGIC
  {
    var rest := b2 + b1 * 0x100 + b0 * 0x1_0000;
    assert b3 + 0x100 * rest == 0x62 + 0x100 * 0x531;
    assert rest == 0x531;
  }
}
