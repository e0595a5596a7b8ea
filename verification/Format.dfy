/** On-disk constants and layout helpers. */
module Format {
  import opened Bytes

  const BTREE_MAGIC: u32 := 0x0005_3162
  const BTREE_VERSION: u32 := 3
  const MIN_PSIZE := 512
  const MAX_PSIZE := 32768
  const DEFAULT_PSIZE := 4096
  const P_INVALID: u32 := 0
  const P_ROOT: u32 := 1
  const P_BINTERNAL: u32 := 0x01
  const P_BLEAF: u32 := 0x02
  const P_OVERFLOW: u32 := 0x04
  /** Twice the highest page-type bit: the type is the flags modulo this. */
  const P_TYPE_BITS := 0x20
  const P_BIGDATA := 0x01
  const P_BIGKEY := 0x02
  const B_NODUPS: u32 := 0x20
  const META_SIZE := 24
  const PAGE_HEADER_SIZE := 20
  const NOVFLSIZE := 8
  const BLEAF_HEADER_SIZE := 9
  const BINTERNAL_HEADER_SIZE := 9
  const ENTRY_ALIGN := 4

  /** Round `n` up to the next multiple of `ENTRY_ALIGN`. */
  function AlignEntry(n: nat): (r: nat)
    ensures n <= r < n + 4 && r % 4 == 0
  {
    (n + ENTRY_ALIGN - 1) / ENTRY_ALIGN * ENTRY_ALIGN
  }

  /** Bit `mask` of a flag word, for a mask that is one power of two. */
  predicate HasBit(flags: nat, mask: nat)
    requires mask != 0
  {
    (flags / mask) % 2 == 1
  }
}
