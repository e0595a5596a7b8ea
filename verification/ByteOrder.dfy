/** Files of the opposite byte order: every multi-byte field reversed. */
module ByteOrder {
  import opened Bytes
  import opened Errors
  import opened Format
  import opened Entries
  import opened Layout
  import opened Tree
  import opened Contents
  import opened Arena
  import opened MetaPage
  import opened Files
  import opened Reader
  import opened Iteration
  import opened Replays

  /** Offset `k` with the bytes of its 4-byte word, counted from `base`, reversed. */
  function InWord(base: nat, k: nat): nat
    requires base <= k
  {
    base + (k - base) / 4 * 4 + (3 - (k - base) % 4)
  }

  /** The slot below `n` whose entry header (two words) holds byte `k`. */
  function HeaderSlot(b: Bytes, n: nat, k: nat): (r: Option<nat>)
    requires PAGE_HEADER_SIZE + 2 * n <= |b|
    ensures r.Some? ==> r.value < n && SlotOff(b, false, r.value) <= k < SlotOff(b, false, r.value) + 8
  {
    if n == 0 then None
    else if SlotOff(b, false, n - 1) <= k < SlotOff(b, false, n - 1) + 8 then Some(n - 1)
    else HeaderSlot(b, n - 1, k)
  }

  /** Where byte `k` of the reversed page comes from. */
  function Mirror(b: Bytes, n: nat, k: nat): nat
    requires PAGE_HEADER_SIZE + 2 * n <= |b|
  {
    if k < 16 then InWord(0, k)
    else if k < PAGE_HEADER_SIZE + 2 * n then (if k % 2 == 0 then k + 1 else k - 1)
    else match HeaderSlot(b, n, k)
      case None => k
      case Some(i) => InWord(SlotOff(b, false, i), k)
  }

  /** The page with its header words, `linp[]` and entry headers byte-reversed. */
  function ReversePage(b: Bytes, n: nat): Bytes
    requires PAGE_HEADER_SIZE + 2 * n <= |b|
  {
    seq(|b|, k requires 0 <= k < |b| => var j := Mirror(b, n, k); if j < |b| then b[j] else 0)
  }

  /** Entry headers of a packed page do not overlap, so each byte has one slot. */
  lemma {:induction false} HeaderSlotIs(b: Bytes, pg: Page, n: nat, i: nat, k: nat)
    requires Packed(b, false, pg) && n <= |pg.entries| && i < |pg.entries|
    requires PAGE_HEADER_SIZE + 2 * |pg.entries| <= |b|
    requires SlotOff(b, false, i) <= k < SlotOff(b, false, i) + EntrySize(pg.entries[i])
    ensures HeaderSlot(b, n, k) == if i < n && k < SlotOff(b, false, i) + 8 then Some(i) else None
  {
    hide Packed, EntrySize, SlotOff, EntryAt, Used;
    if n > 0 {
      HeaderSlotIs(b, pg, n - 1, i, k);
      if n - 1 != i {
        PackedApart(b, false, pg, i, n - 1);
        PackedSlot(b, false, pg, n - 1);
      }
    }
  }

  /** Where byte `d` of a reversed entry comes from, within the entry. */
  function Mirrored(d: nat): (r: nat)
    ensures d < 8 ==> r < 8
    ensures d >= 8 ==> r == d
  {
    if d < 8 then d / 4 * 4 + (3 - d % 4) else d
  }

  /** Byte `d` of an entry in the reversed page. */
  lemma ReversedByte(b: Bytes, pg: Page, i: nat, d: nat)
    requires Packed(b, false, pg) && i < |pg.entries| && d < EntrySize(pg.entries[i])
    requires PAGE_HEADER_SIZE + 2 * |pg.entries| <= |b|
    requires SlotOff(b, false, i) + EntrySize(pg.entries[i]) <= |b|
    ensures |ReversePage(b, |pg.entries|)| == |b| && EntrySize(pg.entries[i]) >= 9
    ensures var off := SlotOff(b, false, i); ReversePage(b, |pg.entries|)[off + d] == b[off + Mirrored(d)]
  {
    hide Packed, SlotOff, Used, HeaderSlot, EntrySize, EntryAt;
    PackedSlot(b, false, pg, i);
    HeaderSlotIs(b, pg, |pg.entries|, i, SlotOff(b, false, i) + d);
  }

  /** Eight mirrored bytes are two words in the other order. */
  lemma MirroredWords(b: Bytes, c: Bytes, off: nat)
    requires |c| == |b| && off + 8 <= |b|
    requires c[off] == b[off + 3] && c[off + 1] == b[off + 2] && c[off + 2] == b[off + 1] && c[off + 3] == b[off]
    requires c[off + 4] == b[off + 7] && c[off + 5] == b[off + 6] && c[off + 6] == b[off + 5] && c[off + 7]
        == b[off + 4]
    ensures U32At(c, off, true) == U32At(b, off, false)
    ensures U32At(c, off + 4, true) == U32At(b, off + 4, false)
  {
    hide Quad;
  }

  /** An entry of the reversed page decodes, in the other order, to the same entry. */
  lemma ReversedEntry(b: Bytes, pg: Page, i: nat)
    requires Packed(b, false, pg) && i < |pg.entries|
    requires PAGE_HEADER_SIZE + 2 * |pg.entries| <= |b|
    ensures EntryAt(ReversePage(b, |pg.entries|), true, SlotOff(b, false, i), pg.entries[i])
  {
    hide Packed, SlotOff, Used, ReversePage, U32At, Payload, EntrySize;
    var e, off, c := pg.entries[i], SlotOff(b, false, i), ReversePage(b, |pg.entries|);
    PackedSlot(b, false, pg, i);
    EntrySizeBound(e);
    ReversedByte(b, pg, i, 0);
    ReversedByte(b, pg, i, 1);
    ReversedByte(b, pg, i, 2);
    ReversedByte(b, pg, i, 3);
    ReversedByte(b, pg, i, 4);
    ReversedByte(b, pg, i, 5);
    ReversedByte(b, pg, i, 6);
    ReversedByte(b, pg, i, 7);
    MirroredWords(b, c, off);
    forall k | off + 8 <= k < off + 9 + |Payload(e)| ensures c[k] == b[k] {
      ReversedByte(b, pg, i, k - off);
    }
    SameSlice(b, c, off + 9, off + 9 + |Payload(e)|);
  }

  lemma ReversedSlots(b: Bytes, n: nat)
    requires PAGE_HEADER_SIZE + 2 * n <= |b|
    ensures forall i | 0 <= i < n :: SlotOff(ReversePage(b, n), true, i) == SlotOff(b, false, i)
  {
    hide HeaderSlot;
  }

  /** Byte `k` of the reversed header, for the four words and the two bounds. */
  lemma ReversedHead(b: Bytes, n: nat)
    requires 20 <= |b| && PAGE_HEADER_SIZE + 2 * n <= |b|
    ensures |ReversePage(b, n)| == |b|
    ensures forall k | 0 <= k < 16 :: ReversePage(b, n)[k] == b[k / 4 * 4 + (3 - k % 4)]
    ensures forall k | 16 <= k < 20 :: ReversePage(b, n)[k] == b[if k % 2 == 0 then k + 1 else k - 1]
  {
    hide HeaderSlot, SlotOff;
  }

  lemma ReversedHeader(b: Bytes, pg: Page, n: nat)
    requires PageSized(b) && PAGE_HEADER_SIZE + 2 * n <= |b| && Header(b, false, pg)
    ensures Header(ReversePage(b, n), true, pg)
    ensures U16At(ReversePage(b, n), 16, true) == U16At(b, 16, false)
    ensures U16At(ReversePage(b, n), 18, true) == U16At(b, 18, false)
  {
    hide ReversePage, U32At, Pair;
    var c := ReversePage(b, n);
    ReversedHead(b, n);
    MirroredWords(b, c, 0);
    MirroredWords(b, c, 8);
  }

  /** Reversing the fields of a packed page packs the same page in the other order. */
  lemma ReversedPacked(b: Bytes, pg: Page)
    requires Packed(b, false, pg)
    ensures PAGE_HEADER_SIZE + 2 * |pg.entries| <= |b|
    ensures Packed(ReversePage(b, |pg.entries|), true, pg)
  {
    hide SlotOff, Used, EntryAt, EntrySize, ReversePage, U16At, U32At;
    PackedBounds(b, false, pg);
    var es, c := pg.entries, ReversePage(b, |pg.entries|);
    ReversedLength(b, |es|);
    ReversedSlots(b, |es|);
    ReversedHeader(b, pg, |es|);
    forall i | 0 <= i < |es| ensures SlotOk(c, true, i, es[i], |c| - Used(es, NO_HOLE)) {
      PackedSlot(b, false, pg, i);
      ReversedEntry(b, pg, i);
    }
    forall i, j | 0 <= i < j < |es| ensures SlotsApart(c, true, es, i, j) {
      PackedApart(b, false, pg, i, j);
    }
  }

  lemma ReversedLength(b: Bytes, n: nat)
    requires PAGE_HEADER_SIZE + 2 * n <= |b|
    ensures |ReversePage(b, n)| == |b|
  {
  }

  /** The meta page with its six words reversed. */
  function ReverseMeta(b: Bytes): Bytes
    requires META_SIZE <= |b|
  {
    seq(|b|, k requires 0 <= k < |b| => if k < META_SIZE then b[InWord(0, k)] else b[k])
  }

  lemma ReversedMeta(b: Bytes, psize: u32, free: u32, nrecs: u32, flags: u32)
    requires MetaWords(b, false, psize, free, nrecs, flags)
    ensures MetaWords(ReverseMeta(b), true, psize, free, nrecs, flags)
  {
  }

  /** The file `n` pages long, each page reversed; page 0 is the meta page. */
  ghost function ReverseFile(file: Bytes, psize: nat, P: seq<Page>, n: nat): Bytes
    requires Stores(file, psize, false, P) && n <= |P|
  {
    if n == 0 then []
    else
      PageOffs(psize, n - 1, |P|);
      var b := PageBytes(file, psize, n - 1);
      var rest := ReverseFile(file, psize, P, n - 1);
      if n == 1 then rest + ReverseMeta(b)
      else
        assert PackedAt(file, psize, false, n - 1, P[n - 1]);
        ReversedPacked(b, P[n - 1]);
        rest + ReversePage(b, |P[n - 1].entries|)
  }

  lemma {:induction false} ReversedStores(file: Bytes, psize: nat, P: seq<Page>, n: nat)
    requires Stores(file, psize, false, P) && 1 <= n <= |P|
    ensures Stores(ReverseFile(file, psize, P, n), psize, true, P[..n])
    ensures psize <= |file| && PageOff(psize, 0) == 0
    ensures ReverseFile(file, psize, P, 1) == ReverseMeta(file[..psize])
    ensures ReverseFile(file, psize, P, 1) <= ReverseFile(file, psize, P, n)
  {
    hide Packed, PageOff, ReversePage, ReverseMeta;
    PageOffs(psize, n - 1, |P|);
    PageOffs(psize, 0, |P|);
    PageZero(psize);
    if n == 1 {
      FirstPage(file, psize, P);
    } else {
      ReversedStores(file, psize, P, n - 1);
      assert PackedAt(file, psize, false, n - 1, P[n - 1]);
      var b := PageBytes(file, psize, n - 1);
      ReversedPacked(b, P[n - 1]);
      var c := ReversePage(b, |P[n - 1].entries|);
      ReversedLength(b, |P[n - 1].entries|);
      PushStores(ReverseFile(file, psize, P, n - 1), psize, true, P[..n - 1], c, P[n - 1]);
      assert P[..n - 1] + [P[n - 1]] == P[..n];
    }
  }

  lemma PageZero(psize: nat)
    ensures PageOff(psize, 0) == 0 && PageOff(psize, 1) == psize
  {
  }

  lemma FirstPage(file: Bytes, psize: nat, P: seq<Page>)
    requires Stores(file, psize, false, P) && 1 <= |P|
    ensures psize <= |file|
    ensures ReverseFile(file, psize, P, 1) == ReverseMeta(file[..psize])
    ensures |ReverseFile(file, psize, P, 1)| == psize
  {
    hide Packed, PageOff, ReversePage;
    PageOffs(psize, 0, |P|);
    PageZero(psize);
    assert ReverseFile(file, psize, P, 0) == [];
    assert [] + ReverseMeta(file[..psize]) == ReverseMeta(file[..psize]);
  }

  /** A finished file with every multi-byte field reversed opens with the swap
      detected, as the same tree; so by the contracts of `Get` and `Dump`, which
      speak of the tree alone, lookups and scans give the same results. */
  lemma ReversedFileOpens(file: Bytes, psize: nat, P: seq<Page>, R: seq<Region>, free: u32, nrecs: u32)
    requires Stores(file, psize, false, P) && 2 <= |P| <= 0x1_0000_0000 && Inv(P, R)
    requires psize % 2 == 0 && psize <= |file| && MetaWords(file[..psize], false, psize, free, nrecs, B_NODUPS)
    ensures var rev := ReverseFile(file, psize, P, |P|);
      Open(rev) == Success(Db(rev, psize, true)) && TreeFile(Db(rev, psize, true), P, R, Plain(|P|))
  {
    hide Inv, Packed, MetaWords, Open, TreeFile, ReverseMeta, ReverseFile;
    ReversedStores(file, psize, P, |P|);
    assert P[..|P|] == P;
    ReversedMeta(file[..psize], psize, free, nrecs, B_NODUPS);
    var rev := ReverseFile(file, psize, P, |P|);
    MetaLongEnough(file[..psize], false, psize, free, nrecs, B_NODUPS);
    assert rev[..|ReverseMeta(file[..psize])|] == ReverseMeta(file[..psize]);
    MetaAtHead(rev, |ReverseMeta(file[..psize])|, true, psize, free, nrecs, B_NODUPS);
    FinishedFileOpens(rev, psize, true, P, R, free, nrecs);
  }

  /** A file and its reversal give the same answer for every key. */
  method SameAnswers(file: Bytes, key: Bytes, psize: u32, ghost free: u32, ghost nrecs: u32,
                     ghost P: seq<Page>, ghost R: seq<Region>, ghost m: map<Bytes, Bytes>, rev: Bytes)
    returns (native: Result<Option<Bytes>>, foreign: Result<Option<Bytes>>)
    requires Stores(file, psize, false, P) && 2 <= |P| <= 0x1_0000_0000 && Inv(P, R) && Denotes(P, m)
    requires psize % 2 == 0 && psize <= |file| && MetaWords(file[..psize], false, psize, free, nrecs, B_NODUPS)
    requires rev == ReverseFile(file, psize, P, |P|)
    ensures native == foreign == Success(if key in m then Some(m[key]) else None)
  {
    hide Inv, Stores, Denotes, MetaWords, Open, TreeFile, ReverseFile;
    MetaAtHead(file, psize, false, psize, free, nrecs, B_NODUPS);
    FinishedFileOpens(file, psize, false, P, R, free, nrecs);
    ReversedFileOpens(file, psize, P, R, free, nrecs);
    ghost var path, leaf;
    native, path, leaf := Get(Open(file).value, key, P, R, Plain(|P|), m);
    foreign, path, leaf := Get(Open(rev).value, key, P, R, Plain(|P|), m);
  }

  /** A file and its reversal list the same pairs in the same order. */
  method SameScan(file: Bytes, psize: u32, ghost free: u32, ghost nrecs: u32,
                  ghost P: seq<Page>, ghost R: seq<Region>, rev: Bytes)
    returns (native: seq<(Bytes, Bytes)>, foreign: seq<(Bytes, Bytes)>)
    requires Stores(file, psize, false, P) && 2 <= |P| <= 0x1_0000_0000 && Inv(P, R)
    requires psize % 2 == 0 && psize <= |file| && MetaWords(file[..psize], false, psize, free, nrecs, B_NODUPS)
    requires rev == ReverseFile(file, psize, P, |P|)
    ensures native == foreign && |native| == |Yield(P, R)|
    ensures forall i | 0 <= i < |native| :: Yield(P, R)[i] == Leaf(native[i].0, native[i].1)
  {
    hide Inv, Stores, MetaWords, Open, TreeFile, ReverseFile, Yield;
    MetaAtHead(file, psize, false, psize, free, nrecs, B_NODUPS);
    FinishedFileOpens(file, psize, false, P, R, free, nrecs);
    ReversedFileOpens(file, psize, P, R, free, nrecs);
    native := Dump(Open(file).value, P, R, Plain(|P|));
    foreign := Dump(Open(rev).value, P, R, Plain(|P|));
    SamePairs(Yield(P, R), native, foreign);
  }

  lemma SamePairs(s: seq<Entry>, a: seq<(Bytes, Bytes)>, b: seq<(Bytes, Bytes)>)
    requires |a| == |b| == |s|
    requires forall i | 0 <= i < |s| :: s[i] == Leaf(a[i].0, a[i].1)
    requires forall i | 0 <= i < |s| :: s[i] == Leaf(b[i].0, b[i].1)
    ensures a == b
  {
    forall i | 0 <= i < |s| ensures a[i] == b[i] {
      assert Leaf(a[i].0, a[i].1) == Leaf(b[i].0, b[i].1);
    }
  }
}
