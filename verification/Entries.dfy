/** The abstract contents of a page, and how many bytes they take. */
module Entries {
  import opened Bytes
  import opened Format

  /** A leaf record, or an internal separator naming the child to its right. */
  datatype Entry =
    | Leaf(key: Bytes, val: Bytes)
    | Sep(key: Bytes, child: u32)

  datatype Page = Page(pgno: u32, prev: u32, next: u32, leaf: bool, entries: seq<Entry>)

  function Payload(e: Entry): Bytes {
    match e
    case Leaf(k, v) => k + v
    case Sep(k, _) => k
  }

  /** Aligned bytes of `e` on a page, without its `linp` slot. */
  function EntrySize(e: Entry): nat {
    AlignEntry(BLEAF_HEADER_SIZE + |Payload(e)|)
  }

  lemma EntrySizeBound(e: Entry)
    ensures 9 + |Payload(e)| <= EntrySize(e) <= 12 + |Payload(e)|
    ensures EntrySize(e) % 4 == 0
  {
  }

  lemma LeafSize(key: Bytes, val: Bytes)
    ensures EntrySize(Leaf(key, val)) == AlignEntry(BLEAF_HEADER_SIZE + |key| + |val|)
    ensures |Payload(Leaf(key, val))| == |key| + |val|
    ensures 9 + |key| + |val| <= EntrySize(Leaf(key, val)) == AlignEntry(EntrySize(Leaf(key, val)))
  {
  }

  lemma SepSize(key: Bytes, child: u32)
    ensures EntrySize(Sep(key, child)) == AlignEntry(BINTERNAL_HEADER_SIZE + |key|)
    ensures |Payload(Sep(key, child))| == |key|
    ensures 9 + |key| <= EntrySize(Sep(key, child)) == AlignEntry(EntrySize(Sep(key, child)))
  {
  }

  /** Bytes taken by the entries of `es`, leaving out the one at `hole`. */
  function Used(es: seq<Entry>, hole: int): nat {
    if es == [] then 0
    else Used(es[..|es| - 1], hole) + if |es| - 1 == hole then 0 else EntrySize(es[|es| - 1])
  }

  const NO_HOLE := -1

  /** The free bytes between `linp[]` and the entries, on a page of `psize` bytes. */
  function FreeSpace(es: seq<Entry>, psize: nat): int {
    psize - Used(es, NO_HOLE) - PAGE_HEADER_SIZE - 2 * |es|
  }

  predicate Fits(es: seq<Entry>, psize: nat) {
    FreeSpace(es, psize) >= 0
  }

  /** Half of a page's usable bytes: the most one entry and its slot may take
      for every split to have two sides that fit. */
  function HalfPage(psize: nat): int {
    (psize - PAGE_HEADER_SIZE) / 2
  }

  predicate HalfBounded(e: Entry, psize: nat) {
    EntrySize(e) + 2 <= HalfPage(psize)
  }

  predicate AllHalfBounded(es: seq<Entry>, psize: nat) {
    forall i | 0 <= i < |es| :: HalfBounded(es[i], psize)
  }

  predicate Kind(pg: Page) {
    forall i | 0 <= i < |pg.entries| :: pg.entries[i].Leaf? == pg.leaf
  }

  predicate SortedKeys(es: seq<Entry>) {
    forall i, j | 0 <= i < j < |es| :: Lt(es[i].key, es[j].key)
  }

  // ----- byte accounting -----

  lemma UsedNonNegative(es: seq<Entry>, hole: int)
    ensures Used(es, hole) >= 0
  {
  }

  lemma {:induction false} UsedHoleOutside(es: seq<Entry>, hole: int)
    requires hole < 0 || hole >= |es|
    ensures Used(es, hole) == Used(es, NO_HOLE)
  {
    if es != [] {
      UsedHoleOutside(es[..|es| - 1], hole);
    }
  }

  lemma {:induction false} UsedHole(es: seq<Entry>, hole: nat)
    requires hole < |es|
    ensures Used(es, NO_HOLE) == Used(es, hole) + EntrySize(es[hole])
  {
    if hole == |es| - 1 {
      UsedHoleOutside(es[..|es| - 1], hole);
    } else {
      UsedHole(es[..|es| - 1], hole);
    }
  }

  lemma {:induction false} UsedConcat(a: seq<Entry>, b: seq<Entry>)
    ensures Used(a + b, NO_HOLE) == Used(a, NO_HOLE) + Used(b, NO_HOLE)
  {
    if b == [] {
      assert a + b == a;
    } else {
      assert (a + b)[..|a + b| - 1] == a + b[..|b| - 1];
      UsedConcat(a, b[..|b| - 1]);
    }
  }

  lemma UsedOne(e: Entry)
    ensures Used([e], NO_HOLE) == EntrySize(e)
  {
    hide EntrySize;
    assert [e][..|[e]| - 1] == [];
  }

  lemma UsedInsert(es: seq<Entry>, i: nat, e: Entry)
    requires i <= |es|
    ensures Used(InsertAt(es, i, e), NO_HOLE) == Used(es, NO_HOLE) + EntrySize(e)
    ensures Used(InsertAt(es, i, e), i) == Used(es, NO_HOLE)
  {
    hide EntrySize;
    UsedConcat(es[..i], [e] + es[i..]);
    UsedConcat([e], es[i..]);
    UsedConcat(es[..i], es[i..]);
    assert es[..i] + es[i..] == es;
    assert es[..i] + ([e] + es[i..]) == InsertAt(es, i, e);
    assert [e][..0] == [];
    UsedHole(InsertAt(es, i, e), i);
  }

  lemma UsedRemove(es: seq<Entry>, i: nat)
    requires i < |es|
    ensures Used(RemoveAt(es, i), NO_HOLE) == Used(es, NO_HOLE) - EntrySize(es[i])
  {
    hide Used, EntrySize;
    UsedInsert(RemoveAt(es, i), i, es[i]);
    assert InsertAt(RemoveAt(es, i), i, es[i]) == es;
  }

  /** A prefix takes no more room than the whole. */
  lemma UsedPrefix(es: seq<Entry>, n: nat)
    requires n <= |es|
    ensures Used(es[..n], NO_HOLE) <= Used(es, NO_HOLE)
  {
    hide EntrySize;
    UsedConcat(es[..n], es[n..]);
    assert es[..n] + es[n..] == es;
  }
}
