/** The file format in plain offsets and numbers.

    A reference definition, independent of the decoder: it names no constant and
    no accessor of the reader or the writer.
  */
module RawFormat {
  import opened Bytes
  import opened Entries
  import opened Tree

  /** Four bytes as a number, least significant first, or last in a foreign file. */
  function Word(b: Bytes, off: nat, swap: bool): nat
    requires off + 4 <= |b|
  {
    var b0: int, b1: int, b2: int, b3: int := b[off], b[off + 1], b[off + 2], b[off + 3];
    if swap then b0 * 16777216 + b1 * 65536 + b2 * 256 + b3 else b0 + b1 * 256 + b2 * 65536 + b3 * 16777216
  }

  function Half(b: Bytes, off: nat, swap: bool): nat
    requires off + 2 <= |b|
  {
    var b0: int, b1: int := b[off], b[off + 1];
    if swap then b0 * 256 + b1 else b0 + b1 * 256
  }

  // ----- the meta page -----

  /** The first six words are the magic number, version 3, the page size, two that a
      reader ignores and the flags: none, or duplicates forbidden. */
  predicate RawOpens(file: Bytes, psize: nat, swap: bool) {
    && 24 <= |file|
    && Word(file, 0, swap) == 0x053162
    && Word(file, 4, swap) == 3
    && Word(file, 8, swap) == psize
    && (Word(file, 20, swap) == 0 || Word(file, 20, swap) == 0x20)
    && 512 <= psize <= 32768 && psize % 2 == 0
    && |file| % psize == 0
  }

  // ----- pages -----

  predicate InFile(file: Bytes, psize: nat, n: nat) {
    n * psize + psize <= |file|
  }

  /** Page `n`. */
  function RawBytes(file: Bytes, psize: nat, n: nat): Bytes
    requires InFile(file, psize, n)
  {
    file[n * psize..n * psize + psize]
  }

  /** Five words and two halves: own number, links, type, and the bounds of the free
      space between slots and entries.  The own number is not read. */
  predicate RawHeader(b: Bytes, swap: bool, kind: nat) {
    && 20 <= |b|
    && Word(b, 12, swap) % 32 == kind
    && 20 <= Half(b, 16, swap) <= Half(b, 18, swap) <= |b|
    && Half(b, 16, swap) % 2 == 0
  }

  // ----- overflow chains -----

  function Least(a: nat, b: nat): nat {
    if a < b then a else b
  }

  /** The `i`-th slice of `w` bytes. */
  function Part(item: Bytes, w: nat, i: nat): Bytes {
    item[Least(i * w, |item|)..Least((i + 1) * w, |item|)]
  }

  /** `len` bytes take `n` pages of `w` bytes, the last at least begun. */
  predicate FillPages(n: nat, w: nat, len: nat) {
    if n == 0 then len == 0 else (n - 1) * w < len <= n * w
  }

  /** Page `n` is an overflow page whose payload, from byte 20 on, starts with `part`. */
  predicate RawPayload(file: Bytes, psize: nat, swap: bool, n: nat, part: Bytes) {
    && n != 0 && InFile(file, psize, n)
    && var b := RawBytes(file, psize, n);
      && RawHeader(b, swap, 4)
      && 20 + |part| <= psize && b[20..20 + |part|] == part
  }

  /** Page `n` links to page `next`. */
  predicate RawLink(file: Bytes, psize: nat, swap: bool, n: nat, next: nat) {
    && InFile(file, psize, n) && 12 <= psize
    && Word(RawBytes(file, psize, n), 8, swap) == next
  }

  /** The pages `ps`, linked in order, hold `item` by slices of `psize - 20` bytes, with
      no page to spare. */
  ghost predicate RawChain(file: Bytes, psize: nat, swap: bool, ps: seq<nat>, item: Bytes)
    requires 20 < psize
  {
    var w := psize - 20;
    && FillPages(|ps|, w, |item|)
    && (forall i | 0 <= i < |ps| :: RawPayload(file, psize, swap, ps[i], Part(item, w, i)))
    && (forall i | 0 <= i < |ps| - 1 :: RawLink(file, psize, swap, ps[i], ps[i + 1]))
  }

  /** A chain that starts at page `first` holds `item`. */
  ghost predicate RawOverflow(file: Bytes, psize: nat, swap: bool, first: nat, item: Bytes)
    requires 20 < psize
  {
    exists ps: seq<nat> :: (ps != [] ==> ps[0] == first) && RawChain(file, psize, swap, ps, item)
  }

  // ----- entries -----

  /** `len` bytes at `off` are `item`, or, if `big`, name its chain by first page and size. */
  ghost predicate RawItem(file: Bytes, psize: nat, swap: bool, b: Bytes, off: nat, len: nat, big: bool, item: Bytes)
    requires 20 < psize
  {
    && off + len <= |b|
    && if !big then b[off..off + len] == item
       else
         && 8 <= len && |item| == Word(b, off + 4, swap)
         && RawOverflow(file, psize, swap, Word(b, off, swap), item)
  }

  /** Where the entry of slot `i` starts: slots are halves from byte 20 on. */
  function RawSlot(b: Bytes, swap: bool, i: nat): nat
    requires 22 + 2 * i <= |b|
  {
    Half(b, 20 + 2 * i, swap)
  }

  /** Key size, value size, a flag byte (1: value on a chain, 2: key on a chain), then
      key and value. */
  ghost predicate RawRecord(file: Bytes, psize: nat, swap: bool, b: Bytes, i: nat, key: Bytes, val: Bytes)
    requires 20 < psize
  {
    && 22 + 2 * i <= |b|
    && var o := RawSlot(b, swap, i);
      && o + 9 <= |b|
      && var ksize, dsize, flag := Word(b, o, swap), Word(b, o + 4, swap), b[o + 8];
        && o + 9 + ksize + dsize <= |b|
        && RawItem(file, psize, swap, b, o + 9, ksize, flag / 2 % 2 == 1, key)
        && RawItem(file, psize, swap, b, o + 9 + ksize, dsize, flag % 2 == 1, val)
  }

  /** Key size, child page, the flag byte, then the key. */
  ghost predicate RawSeparator(file: Bytes, psize: nat, swap: bool, b: Bytes, i: nat, key: Bytes, child: nat)
    requires 20 < psize
  {
    && 22 + 2 * i <= |b|
    && var o := RawSlot(b, swap, i);
      && o + 9 <= |b|
      && var ksize, flag := Word(b, o, swap), b[o + 8];
        && o + 9 + ksize <= |b|
        && Word(b, o + 4, swap) == child
        && RawItem(file, psize, swap, b, o + 9, ksize, flag / 2 % 2 == 1, key)
  }

  // ----- trees -----

  ghost predicate RawEntry(file: Bytes, psize: nat, swap: bool, b: Bytes, i: nat, e: Entry, at: seq<u32>)
    requires 20 < psize
  {
    match e
    case Leaf(k, v) => RawRecord(file, psize, swap, b, i, k, v)
    case Sep(k, c) => c < |at| && RawSeparator(file, psize, swap, b, i, k, at[c])
  }

  /** Page `n` of the file is the page `pg` of the tree, type 2 for a leaf and 1 for an
      internal page; tree page `c` is file page `at[c]`. */
  ghost predicate RawPage(file: Bytes, psize: nat, swap: bool, n: nat, pg: Page, at: seq<u32>)
    requires 20 < psize
  {
    && InFile(file, psize, n)
    && pg.prev < |at| && pg.next < |at|
    && var b := RawBytes(file, psize, n);
      && RawHeader(b, swap, if pg.leaf then 2 else 1)
      && Word(b, 4, swap) == at[pg.prev] && Word(b, 8, swap) == at[pg.next]
      && Half(b, 16, swap) == 20 + 2 * |pg.entries|
      && forall i | 0 <= i < |pg.entries| :: RawEntry(file, psize, swap, b, i, pg.entries[i], at)
  }

  /** The file holds the tree `P`: page 1 is the root, and page 0 stands for no page. */
  ghost predicate RawTree(file: Bytes, psize: nat, swap: bool, P: seq<Page>, R: seq<Region>, at: seq<u32>)
    requires 20 < psize
  {
    && Inv(P, R) && |at| == |P| && at[0] == 0 && at[1] == 1
    && (forall p | 1 <= p < |P| :: at[p] != 0)
    && forall p | 1 <= p < |P| :: RawPage(file, psize, swap, at[p], P[p], at)
  }

  // ----- what the writer adds -----

  /** The meta page of a finished file: pages of 4096 bytes, no free page, no record
      count, duplicates forbidden. */
  predicate RawWrittenMeta(file: Bytes) {
    && 24 <= |file|
    && Word(file, 0, false) == 0x053162 && Word(file, 4, false) == 3 && Word(file, 8, false) == 4096
    && Word(file, 12, false) == 0 && Word(file, 16, false) == 0 && Word(file, 20, false) == 0x20
  }

  /** Every page names itself, no bit but the type is set in its type word, and no
      entry is flagged. */
  ghost predicate RawWrittenPage(b: Bytes, p: nat, pg: Page) {
    && 20 <= |b|
    && Word(b, 0, false) == p && Word(b, 12, false) == (if pg.leaf then 2 else 1)
    && forall i | 0 <= i < |pg.entries| ::
         22 + 2 * i <= |b| && RawSlot(b, false, i) + 9 <= |b| && b[RawSlot(b, false, i) + 8] == 0
  }
}
