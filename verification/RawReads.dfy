/** Well-formed files, as the format has them; and that the writer's files are. */
module RawReads {
  import opened Bytes
  import opened Errors
  import opened Format
  import opened Entries
  import opened PageViews
  import opened Layout
  import opened Tree
  import opened Arena
  import opened MetaPage
  import opened Files
  import opened RawFormat
  import opened RawPages
  import opened RawChains
  import opened Reader

  // ----- entries -----

  lemma FlagBits(flag: byte)
    ensures HasBit(flag, P_BIGKEY) <==> flag / 2 % 2 == 1
    ensures HasBit(flag, P_BIGDATA) <==> flag % 2 == 1
  {
  }

  /** An item decodes, and reads as `item`, exactly when the format says so. */
  lemma ItemIsRaw(db: Db, view: PageView, off: nat, len: nat, big: bool, item: Bytes)
    requires db.Opened() && view.swap == db.swap && off + len <= |view.bytes|
    ensures (view.DecodeItem(off, len, big).Success?
             && ItemBytes(db, view, view.DecodeItem(off, len, big).value) == Success(item))
       <==> RawItem(db.mmap, db.psize, db.swap, view.bytes, off, len, big, item)
  {
    hide Db.Chain, RawOverflow, U32At, Word;
    if big && len >= 8 {
      FieldsAreRaw(view.bytes, off, db.swap);
      FieldsAreRaw(view.bytes, off + 4, db.swap);
      var first, size := U32At(view.bytes, off, db.swap), U32At(view.bytes, off + 4, db.swap);
      ChainIsRaw(db, first, first, item);
      ChainLength(db, first, first, size);
    }
  }

  /** The slots of a page lie inside it. */
  ghost predicate SlotsInside(view: PageView) {
    20 + 2 * view.nentries <= |view.bytes|
  }

  lemma SlotIsRaw(view: PageView, i: nat)
    requires SlotsInside(view) && i < view.nentries
    ensures view.EntryOffset(i).Success? && view.EntryOffset(i).value == RawSlot(view.bytes, view.swap, i)
  {
    hide U16At, Half;
    FieldsAreRaw(view.bytes, 20 + 2 * i, view.swap);
  }

  /** A leaf slot reads as a record exactly when the format says so. */
  lemma RecordIsRaw(db: Db, at: seq<u32>, view: PageView, i: nat, key: Bytes, val: Bytes)
    requires db.Opened() && view.swap == db.swap && SlotsInside(view) && i < view.nentries
    ensures EntryReads(db, at, view, i, Leaf(key, val)) <==>
            RawRecord(db.mmap, db.psize, db.swap, view.bytes, i, key, val)
  {
    hide ItemBytes, RawItem, U32At, Word, RawSlot, PageView.DecodeItem, PageView.EntryOffset, HasBit;
    SlotIsRaw(view, i);
    var o, b := RawSlot(view.bytes, view.swap, i), view.bytes;
    if o + 9 <= |b| {
      FieldsAreRaw(b, o, db.swap);
      FieldsAreRaw(b, o + 4, db.swap);
      FlagBits(b[o + 8]);
      var ksize, dsize := U32At(b, o, db.swap), U32At(b, o + 4, db.swap);
      if o + 9 + ksize + dsize <= |b| {
        ItemIsRaw(db, view, o + 9, ksize, HasBit(b[o + 8], P_BIGKEY), key);
        ItemIsRaw(db, view, o + 9 + ksize, dsize, HasBit(b[o + 8], P_BIGDATA), val);
      }
    }
  }

  lemma SeparatorIsRaw(db: Db, at: seq<u32>, view: PageView, i: nat, key: Bytes, child: u32)
    requires db.Opened() && view.swap == db.swap && SlotsInside(view) && i < view.nentries && child < |at|
    ensures EntryReads(db, at, view, i, Sep(key, child)) <==>
            RawSeparator(db.mmap, db.psize, db.swap, view.bytes, i, key, at[child])
  {
    hide ItemBytes, RawItem, U32At, Word, RawSlot, PageView.DecodeItem, PageView.EntryOffset, HasBit;
    SlotIsRaw(view, i);
    var o, b := RawSlot(view.bytes, view.swap, i), view.bytes;
    if o + 9 <= |b| {
      FieldsAreRaw(b, o, db.swap);
      FieldsAreRaw(b, o + 4, db.swap);
      FlagBits(b[o + 8]);
      var ksize := U32At(b, o, db.swap);
      if o + 9 + ksize <= |b| {
        ItemIsRaw(db, view, o + 9, ksize, HasBit(b[o + 8], P_BIGKEY), key);
      }
    }
  }

  /** An entry that does not decode is an error that names its page. */
  lemma EntryRefused(view: PageView, i: nat)
    ensures view.LeafEntryAt(i).Failure? ==> view.LeafEntryAt(i).error == CorruptPage(view.pgno)
    ensures view.InternalEntryAt(i).Failure? ==> view.InternalEntryAt(i).error == CorruptPage(view.pgno)
  {
    hide U32At, U16At, HasBit;
  }

  lemma EntryIsRaw(db: Db, at: seq<u32>, view: PageView, i: nat, e: Entry)
    requires db.Opened() && view.swap == db.swap && SlotsInside(view) && i < view.nentries
    ensures EntryReads(db, at, view, i, e) <==>
            RawEntry(db.mmap, db.psize, db.swap, view.bytes, i, e, at)
  {
    hide RawRecord, RawSeparator, PageView.LeafEntryAt, PageView.InternalEntryAt, ItemBytes;
    match e
    case Leaf(k, v) => RecordIsRaw(db, at, view, i, k, v);
    case Sep(k, c) =>
      if c < |at| {
        SeparatorIsRaw(db, at, view, i, k, c);
      }
  }

  // ----- pages and trees -----

  lemma PageIsRaw(db: Db, at: seq<u32>, p: nat, pg: Page)
    requires db.Opened() && p < |at| && pg.pgno == p && Kind(pg)
    ensures PageReads(db, at, p, pg) <==> RawPage(db.mmap, db.psize, db.swap, at[p], pg, at)
  {
    hide Parse, Db.GetPage, EntryReads, RawEntry, Word, Half, PageView.IsLeaf, PageView.IsInternal,
         PageView.IsOverflow, PageView.OverflowPayload;
    GetPageIs(db, at[p]);
    if InFile(db.mmap, db.psize, at[p]) {
      var b := RawBytes(db.mmap, db.psize, at[p]);
      ParseIs(at[p], b, db.swap);
      if Parse(at[p], b, db.swap).Success? {
        var view := Parse(at[p], b, db.swap).value;
        if view.nentries == |pg.entries| {
          forall i | 0 <= i < |pg.entries|
            ensures EntryReads(db, at, view, i, pg.entries[i]) <==>
                    RawEntry(db.mmap, db.psize, db.swap, b, i, pg.entries[i], at)
          {
            EntryIsRaw(db, at, view, i, pg.entries[i]);
          }
        }
      }
    }
  }

  /** The files that lookup and iteration are stated on are those that hold a tree as
      the format says. */
  lemma TreeFileIsRaw(db: Db, P: seq<Page>, R: seq<Region>, at: seq<u32>)
    requires db.Opened()
    ensures TreeFile(db, P, R, at) <==> RawTree(db.mmap, db.psize, db.swap, P, R, at)
  {
    hide Inv, PageReads, RawPage;
    if Inv(P, R) && |at| == |P| {
      RegionCount(P, R);
      forall p | 1 <= p < |P|
        ensures PageReads(db, at, p, P[p]) <==> RawPage(db.mmap, db.psize, db.swap, at[p], P[p], at)
      {
        LinksInside(P, R, p);
        PageIsRaw(db, at, p, P[p]);
      }
    }
  }

  // ----- the writer's files -----

  /** What a packed page adds to the format: own number, bare type, no flags. */
  lemma PackedIsRaw(b: Bytes, pg: Page)
    requires Packed(b, false, pg)
    ensures RawWrittenPage(b, pg.pgno, pg)
  {
    hide Packed, U32At, Word, U16At, Half, Used, EntrySize, Payload;
    PackedHead(b, pg);
    FieldsAreRaw(b, 0, false);
    FieldsAreRaw(b, 12, false);
    forall i | 0 <= i < |pg.entries|
      ensures 22 + 2 * i <= |b| && RawSlot(b, false, i) + 9 <= |b| && b[RawSlot(b, false, i) + 8] == 0
    {
      PackedSlot(b, false, pg, i);
      FieldsAreRaw(b, 20 + 2 * i, false);
    }
  }

  lemma PackedHead(b: Bytes, pg: Page)
    requires Packed(b, false, pg)
    ensures PageSized(b) && Header(b, false, pg)
  {
  }

  /** The meta page of a finished file. */
  lemma MetaIsRaw(file: Bytes)
    requires MetaWords(file, false, DEFAULT_PSIZE, P_INVALID, 0, B_NODUPS)
    ensures RawWrittenMeta(file)
  {
    hide U32At, Word;
    FieldsAreRaw(file, 0, false);
    FieldsAreRaw(file, 4, false);
    FieldsAreRaw(file, 8, false);
    FieldsAreRaw(file, 12, false);
    FieldsAreRaw(file, 16, false);
    FieldsAreRaw(file, 20, false);
  }

  /** A finished file, byte by byte: the six words of its meta page, and every page of
      the tree where its number says. */
  ghost predicate RawWritten(file: Bytes, P: seq<Page>) {
    && RawWrittenMeta(file) && |file| == |P| * 4096
    && forall p | 1 <= p < |P| :: InFile(file, 4096, p) && RawWrittenPage(RawBytes(file, 4096, p), p, P[p])
  }

  lemma StoredIsRaw(file: Bytes, P: seq<Page>, R: seq<Region>)
    requires Stores(file, DEFAULT_PSIZE, false, P) && Inv(P, R)
    requires MetaWords(file, false, DEFAULT_PSIZE, P_INVALID, 0, B_NODUPS)
    ensures RawWritten(file, P)
  {
    hide Inv, Packed, MetaWords, RawWrittenMeta, RawWrittenPage;
    MetaIsRaw(file);
    forall p | 1 <= p < |P| ensures InFile(file, 4096, p) && RawWrittenPage(RawBytes(file, 4096, p), p, P[p]) {
      assert PackedAt(file, DEFAULT_PSIZE, false, p, P[p]);
      RegionCount(P, R);
      LinksInside(P, R, p);
      PackedIsRaw(PageBytes(file, DEFAULT_PSIZE, p), P[p]);
    }
  }
}
