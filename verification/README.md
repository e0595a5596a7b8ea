# A verified model of the db185 btree

A Dafny model of the Berkeley DB 1.85 btree writer (`src/writer/mod.rs`,
`src/writer/page_buf.rs`) and of the reader over its files (`src/db.rs`,
`src/iter.rs`, `src/page.rs`, `src/format.rs`).

The main results, each over every input, run or reachable state:

- **A run is a finite map.**  Any trace of `put` and `del` on a fresh writer
  answers, and leaves the contents of, a finite map that `put` never
  overwrites, through leaf splits, internal splits, root promotions and both
  sorted-append shortcuts (`Writers.Writer.Put`, `Writers.Writer.Del`,
  `Replays.Replay`).  `put` is also pinned on pages: which leaf, which slot, in
  place or cut where, and each separator up the path (`Steps.Inserted`).
- **The file is the map.**  The finished bytes open as a tree of that map, and
  lookup by key follows the one path that routes the key, a page a level, and
  returns exactly the map's value (`Replays.Rebuild`, `Reader.Get`,
  `Replays.RebuildAndGet`).  A trace is replayed whole whenever it has at most
  65534 puts, and a longer one unless it uses half of all page numbers.
- **Iteration lists the map**, sorted and each binding once, if and only if the
  first leaf is not empty or the map is (`Iteration.IterationComplete`).  Four
  operations make a file whose first leaf is empty and whose map is not
  (`EmptiedLeaf.EmptiedByRun`).
- **Byte order is transparent** (`ByteOrder.SameAnswers`, `ByteOrder.SameScan`).
- **Splits are safe exactly up to half a page** (`SplitBounds.HalfPageIsExact`).

The reader's results hold of any well-formed file, with keys and values inline
or along overflow chains.

## How it is built

Bytes come first.  `Layout.Packed` relates a page buffer to an abstract page:
header words, `linp[]`, and entries that lie disjointly above `upper` and add up
to the region, in any physical order.  The page operations (`PageBufs`,
`PageOps`, `PageDelete`, `PageFill`, `PageSplit`, `PageRoot`) edit byte arrays in
place and are stated on the decoded page.

The tree is a sequence of abstract pages, each with a ghost region: the key
interval it owns and its level.  A lower bound of `[]` is minus infinity, since
the empty string is the least key; this is also the key stored on the left
spine, so the copy-up of separators has one form.  `Tree.Inv` is local to a page
and its neighbours.  A split is described on a page that already holds its new
entry and may be too big (`TreeSplit`); the parent then owes one separator
(`Cascade.Pending`), which is the invariant of the propagation loop.

`Writers.Writer` runs over the flat arena of bytes.  Its ghost fields are the
abstract pages the bytes encode, their regions and the map.  The reader is
separate code over the same bytes, generic in the byte order.  It is stated on
`Reader.TreeFile`: the pages of the tree may lie anywhere in the file, among
overflow pages, and a slot reads as a record whose items are in the page or
along a chain.  A finished file is one whose tree pages lie back to back
(`Reader.StoredReads`).

`RawFormat` is the file format once more, in literal offsets and numbers and
without a name from the reader or the writer.  Opening, parsing, decoding,
overflow chains and well-formed files are each shown equivalent to it, and the
writer's files to be instances of it (`RawPages`, `RawChains`, `RawReads`).

`Steps` says what one insertion does to the abstract pages, split by split, and
what that keeps: half-bounded entries, non-empty leaves, page growth.
`Determined` shows that it leaves no choice.

Three points where the code and its comments part, as modelled:

- The size check of `put` is said to rule out unfittable splits
  (src/writer/mod.rs:248-250).  It does not (`SplitBounds.TwoLargeEntries`).  An
  entry is *half-bounded* when its aligned size plus its slot is at most half
  the usable page.  `put` is proved for every entry that is refused, or already
  bound, or has room in its leaf; where a split may follow, for half-bounded
  entries (`Writers.Writer.CanPut`).
- `initial_state` is documented as finding the leftmost non-empty leaf
  (src/iter.rs:109-110).  It stops at an empty one (src/iter.rs:115-117), which
  a deletion can leave behind (`EmptiedLeaf.EmptiedByRun`).
- A `?` on one of the writer's own pages is an obligation that decoding
  succeeds, so no decoder error can arise there.

## Model

| member | source | states |
|---|---|---|
| Bytes.OrderLaws | src/db.rs:114-119 | keys compare by a strict total order on byte strings with the empty string least |
| Bytes.LtIsLexicographic | src/db.rs:114-119 | the order is that of the first differing byte as a number from 0 to 255, and shorter first |
| Bytes.CompareIs | src/db.rs:257-262 | each of the three answers of a comparison holds exactly when that order says so |
| Format.AlignEntry | src/format.rs:102-107 | the least multiple of four that is at least `n` |
| Layout.ParsePacked | src/page.rs:118-161 | the header of every packed page parses, in either byte order, to the page's links, type and entry count |
| RawPages.ParseIs | src/page.rs:118-198 | on any bytes: a page parses if and only if its bounds are consistent and its type is 1, 2 or 4, to the fields at offsets 4, 8, 12, 16 and the payload from byte 20; otherwise it is named corrupt |
| RawReads.ItemIsRaw | src/page.rs:299-312 | an item reads as `item` if and only if its bytes are `item`, or, flagged big, they name a chain by first page and size that holds it |
| RawReads.RecordIsRaw | src/page.rs:235-255 | on any page: a leaf slot reads as a record if and only if the two sizes, the flag byte (1 value, 2 key) and the payload from offset 9 say so |
| RawReads.SeparatorIsRaw | src/page.rs:262-277 | the same for a separator and its child |
| RawReads.EntryRefused | src/page.rs:346-352 | an entry that does not decode is an error that names its page |
| Layout.LeafDecodes | src/page.rs:235-255 | decoding slot `i` of a packed leaf never fails and gives record `i`: the decoder inverts the writer's encoding |
| Layout.SepDecodes | src/page.rs:262-277 | decoding slot `i` of a packed internal page never fails and gives separator `i` and its child |
| Layout.PackedUnique | src/page.rs:118-277 | a buffer encodes at most one abstract page |
| Layout.PackedConserves | src/writer/page_buf.rs:109-115 | aligned entry sizes plus two bytes a slot plus free space add up to the usable page |
| Tiling.PackedTiles | src/writer/page_buf.rs:22-25 | every byte from `upper` to the page end belongs to exactly one entry and no byte below does, in any physical order |
| PageBufs.ReserveSlot | src/writer/page_buf.rs:284-310 | slots before `idx` stay, later ones read one place further, the new one names the lowered `upper`; nothing else moves |
| PageBufs.WriteBleafInline | src/writer/mod.rs:1433-1441 | the bytes written are the encoding of the record; all others stay |
| PageBufs.WriteBinternalInline | src/writer/mod.rs:1449-1457 | the bytes written encode the separator cut to `ksize` bytes; all others stay |
| PageOps.InsertPacked | src/writer/mod.rs:1402-1406 | a reserved slot plus an encoded entry is the packed page with that entry inserted at `idx` |
| PageOps.InsertLeafEntry | src/writer/mod.rs:1402-1406 | in a leaf with room, the buffer then encodes the old page with the record inserted at `idx` |
| PageOps.InsertInternalInPlace | src/writer/mod.rs:1340-1350 | in an internal page with room, the buffer then encodes the old page with the separator inserted at `skip` |
| PageDelete.SurvivorOk | src/writer/mod.rs:946-963 | each surviving entry is intact at its old or slid offset, whatever the physical order |
| PageDelete.DeletePacked | src/writer/mod.rs:937-967 | compaction yields a packed page holding the old entries minus element `idx` |
| PageDelete.DeleteLeafEntry | src/writer/mod.rs:937-967 | deletion in place leaves a packed page decoding to the old records without number `idx` |
| PageDelete.ShiftSlots | src/writer/mod.rs:950-963 | the two slot loops drop slot `idx` and raise exactly the offsets below the deleted one |
| Entries.UsedRemove | src/writer/mod.rs:965-966 | deleting gives back exactly the entry's aligned size |
| PageFill.EmptyPage | src/writer/mod.rs:824-832 | a fresh page is packed, unlinked and has no entries |
| PageFill.HeaderWrite | src/writer/page_buf.rs:169-176 | rewriting a sibling link keeps the page packed with the same entries |
| PageFill.NBytesDecodes | src/writer/mod.rs:877-882 | the size a split weighs for an entry, decoded from bytes, is its aligned size |
| PageFill.CopyOne | src/writer/mod.rs:914-930 | an entry is copied whole to the lowered `upper`, leaf or internal |
| PageFill.CopyEntries | src/writer/mod.rs:889-908 | the destination holds the range in order with the reserved slot left open, packed, with `lower` covering every slot |
| PageFill.StageNext | src/writer/mod.rs:924-928 | placing the next entry below the others keeps the partly filled page disjoint and packed |
| PageFill.StageHole | src/writer/mod.rs:971-977 | writing the reserved slot completes the packed page |
| PageFill.WriteEntryAtSlot | src/writer/mod.rs:971-977 | the record lies just below the old `upper`, its slot names it, other slots and entries are untouched |
| PageFill.WriteInternalEntryAtSlot | src/writer/mod.rs:1324-1336 | the same for a separator cut to `nksize` bytes |
| PageSplit.ComputePsplit | src/writer/mod.rs:864-873 | the plan is the one for the aligned sizes of the page's own entries |
| PageSplit.PlanUsable | src/writer/mod.rs:1228-1272 | half-bounded entries that overflow a page give a plan whose two sides are non-empty and fit their pages |
| PageSplit.PlanTargets | src/writer/mod.rs:1187-1223 | `h_in_l`, `l_skip` and `r_skip` make left page then right page read as the old entries with the new one at `skip` |
| PageSplit.CopyHalves | src/writer/mod.rs:407-411 | both copy loops stage their side of the cut and leave open exactly the new entry's slot |
| PageSplit.FillLeafHalves | src/writer/mod.rs:404-414 | left and right leaf are packed and together hold the old records and the new one in order |
| PageSplit.FillInternalHalves | src/writer/mod.rs:647-667 | the same for separators |
| PageSplit.BuildLeafHalves | src/writer/mod.rs:382-415 | both pages of a leaf split, linked to each other, cut where the byte-balanced walk stops |
| PageSplit.BuildInternalHalves | src/writer/mod.rs:620-667 | both pages of an internal split, linked to each other, cut where the byte-balanced walk stops |
| PageSplit.BuildOnlyLeaf | src/writer/mod.rs:355-363 | the shortcut's new leaf holds the new record alone, linked back to its left sibling |
| PageSplit.BuildOnlyInternal | src/writer/mod.rs:522-529 | the shortcut's new internal page holds the new separator alone |
| PageRoot.RootPacked | src/writer/mod.rs:1014-1033 | five header fields and two entries make a packed root whatever the rest of the page holds |
| PageRoot.ConvertRootToInternal | src/writer/mod.rs:1014-1033 | over any packed page, leaf or internal, the result encodes an internal page with the empty key and `r_first_key`, links kept |
| SplitPlans.PsplitLoop | src/writer/mod.rs:1228-1272 | the walk stops at the first slot where one of its stop conditions holds |
| SplitPlans.StopReason | src/writer/mod.rs:1235-1264 | with entries of at most half a page it stops because half the page is used or only the last source entry is left |
| SplitPlans.SplitBalance | src/writer/mod.rs:1235-1271 | left page between half and half plus one entry, or right page only the last source entry and possibly the new one |
| SplitPlans.SplitSafe | src/writer/mod.rs:1228-1272 | entries of at most half a page: both sides non-empty, both fit |
| SplitPlans.LeftAlwaysFits | src/writer/mod.rs:1250-1255 | the early stop keeps the left page within bounds for entries of any size |
| SplitPlans.StopsPersist | src/writer/mod.rs:1235-1264 | once a stop condition holds it holds at every later slot |
| SplitPlans.SplitWorksExactly | src/writer/mod.rs:1228-1272 | for sizes of any magnitude a split leaves two non-empty pages that fit if and only if some slot the walk reaches starts a suffix that fits a page; the left page is non-empty if and only if the page held two entries and the new one does not fill a page from its front |
| SplitBounds.HalfPageIsExact | src/writer/mod.rs:237-263 | over sorted leaves of records that pass the size check, with costs up to `m`: every split is safe if and only if the largest record cost up to `m` is at most half the usable page |
| SplitBounds.TwoLargeEntries | src/writer/mod.rs:235-270 | two records, of keys 1 and 2 and 2990-byte values, pass both bounds of the size check, yet the plan for the second puts both on the right page, which they overflow |
| SplitBounds.LargeEntryIsPut | src/writer/mod.rs:271-288 | a fresh writer takes the first of them, and its root is then that overflowing leaf |
| Separators.PrefixSeparates | src/writer/mod.rs:841-856 | for `a < b` the prefix is above `a`, not above `b`, and no shorter prefix of `b` is above `a` |
| Separators.StoredSeparates | src/writer/mod.rs:1098-1121 | the stored key is above the left leaf's last key and not above the right leaf's first; its announced size is its aligned size |
| Separators.StoredIsSmallest | src/writer/mod.rs:1110-1119 | whole next to a level's first entry; elsewhere no separating prefix takes fewer aligned bytes |
| Separators.StoredIsExactly | src/writer/mod.rs:1098-1121 | the stored key byte for byte: the shortest separating prefix where compression is allowed and makes the aligned entry strictly smaller, the whole key otherwise |
| Separators.InternalIsVerbatim | src/writer/mod.rs:1098-1101 | a separator from an internal page is stored as it is |
| Separators.CompressionKeepsRouting | src/writer/mod.rs:1092-1121 | compression changes the side of no key stored in either leaf |
| PageSearch.LeafSearch | src/writer/mod.rs:1375-1394 | the key's position, or the place with all smaller keys before and all larger after |
| PageSearch.DescendInternalPick | src/writer/mod.rs:1131-1162 | the last slot whose separator is at most the key, or 0 |
| PageSearch.PicksUnique | src/db.rs:209-246 | that slot is unique, so the writer's search and the reader's choose alike |
| PageSearch.PickOwns | src/writer/mod.rs:1125-1131 | the child descended into owns the key, one level down |
| Tree.ChildInside | src/writer/mod.rs:299-318 | a child's key interval lies inside its parent's, between the slot's separator and the next |
| Tree.RegionUnique | src/writer/mod.rs:299-318 | pages of one level own disjoint key intervals |
| Tree.ParentUnique | src/writer/mod.rs:435-452 | a page has one parent and one slot there |
| TreeSplit.SplitKeepsInv | src/writer/mod.rs:376-431 | cutting any non-root page and adding its separator to the parent keeps the search tree, the sibling links, equal depth and the copy-up of separators |
| TreeUpdate.RootKeepsInv | src/writer/mod.rs:547-606 | promoting the root in place keeps all of that, one level taller |
| TreeUpdate.InsertKeepsInv | src/writer/mod.rs:280-283 | a record inserted where it sorts keeps the search tree |
| TreeUpdate.DeleteKeepsInv | src/writer/mod.rs:199-208 | a deleted record leaves a search tree, its stale separators included |
| Contents.SplitKeepsMap | src/writer/mod.rs:416-431 | a split loses, adds and changes no binding |
| Contents.RootKeepsMap | src/writer/mod.rs:739-744 | neither does a root promotion |
| Contents.InsertAddsBinding | src/writer/mod.rs:273-283 | the inserted key was unbound, and it is the only binding added |
| Contents.DeleteDropsBinding | src/writer/mod.rs:199-208 | the deleted key's binding goes and no other |
| Contents.BoundInOwner | src/writer/mod.rs:273-278 | a key is bound exactly when the leaf that owns it holds it |
| Arena.ReplaceStores | src/writer/mod.rs:132-138 | overwriting one page changes that page alone |
| Arena.PushStores | src/writer/mod.rs:122-130 | appending a page adds it and changes none |
| Spines.SpineExtend | src/writer/mod.rs:299-318 | each hop of a descent goes to the child that owns the key |
| Spines.SpineAfterSplit | src/writer/mod.rs:435-447 | a split at the foot of a recorded path leaves the path above it valid |
| Cascade.CutIsPending | src/writer/mod.rs:435-452 | after a page is cut, one separator in its parent is all that is missing for a search tree with the same map |
| Cascade.FirstKeySeparates | src/writer/mod.rs:671-677 | the right page's first key, verbatim, separates an internal split |
| Cascade.StoredKeySeparates | src/writer/mod.rs:1098-1121 | the compressed key separates the leaf split it came from |
| Writers.HalfBoundedIsAccepted | src/writer/mod.rs:259-268 | an entry of at most half a page passes the size check |
| Writers.TooLargeIs | src/writer/mod.rs:237-268 | an entry is refused if and only if a fresh leaf cannot hold its record or a promoted root its separator |
| Writers.TooLargeByLength | src/writer/mod.rs:259-268 | on pages of 4096 bytes: if and only if key and value exceed 4063 bytes or the key 4051 |
| Writers.Writer.CreateNew | src/writer/mod.rs:152-173 | a new writer is a valid empty tree |
| Writers.Writer.Descend | src/writer/mod.rs:299-318 | the walk terminates at the leaf owning the key and records the path to it, one hop a level |
| Writers.Writer.Put | src/writer/mod.rs:232-294 | no-overwrite insert: true exactly when the key was unbound, no other binding changes, refused and bound keys leave every byte; the pages become those of an in-place insert, a root split or a leaf split with its propagation, cut where the shortcut or the plan says |
| Writers.Writer.Del | src/writer/mod.rs:199-208 | true exactly when the key was bound; that record alone leaves its leaf; no other page and no key interval changes |
| Writers.Writer.SplitNonRootLeaf | src/writer/mod.rs:321-334 | records of both pages are the old ones and the new one in order; cut at the end for a rightmost append, by the plan otherwise |
| Writers.Writer.SplitLeafSortedOpt | src/writer/mod.rs:340-371 | the old leaf keeps its records, a new right neighbour holds the new one |
| Writers.Writer.SplitLeafFull | src/writer/mod.rs:376-431 | the planned cut, with the right neighbour's back link moved and the separator naming the keys on either side |
| Writers.Writer.SplitRootLeaf | src/writer/mod.rs:686-744 | the root becomes internal over two new leaves sharing its records and the new one at the planned cut |
| Writers.Writer.SplitRootInternal | src/writer/mod.rs:547-606 | the root becomes internal over two new internal pages sharing its separators and the new one |
| Writers.Writer.SplitInternalSortedOpt | src/writer/mod.rs:514-539 | the old page keeps its separators, a new right neighbour holds the new one, whose stored key goes up unchanged |
| Writers.Writer.SplitInternalPage | src/writer/mod.rs:614-678 | the planned cut of an internal page; the right page's first key goes up verbatim |
| Writers.Writer.TryInsertInternal | src/writer/mod.rs:459-507 | in place exactly when there is room, else a root split at the root, else a page split whose separator is returned |
| Writers.Writer.PropagateSeparator | src/writer/mod.rs:435-452 | from one owed separator to a whole search tree with the same map, level by level as `try_insert_internal` decides; the path is never exhausted |
| Writers.Writer.PromoteRoot | src/writer/mod.rs:717-743 | two pages appended at the predicted numbers and the root rewritten over them |
| Steps.PendingSplit | src/writer/mod.rs:435-447 | if the parent is cut in its turn, its own parent owes exactly the new separator |
| Steps.PendingDone | src/writer/mod.rs:435-447 | if the separator found room, or the root split, the tree is whole |
| Steps.LeafSplitPending | src/writer/mod.rs:285-293 | after a leaf split the parent owes the compressed separator |
| Steps.PropagatedGrowth | src/writer/mod.rs:435-452 | a propagation takes at most one page a level and one more for the root |
| Steps.InsertedGrowth | src/writer/mod.rs:232-294 | an insertion takes at most one page a level and two for the root |
| Determined.SpineUnique | src/writer/mod.rs:299-318 | one path of hops leads to a page |
| Determined.PropagationUnique | src/writer/mod.rs:435-452 | what a separator does on its way up is determined by the pages and the path |
| Determined.InsertedUnique | src/writer/mod.rs:232-294 | the pages after an insertion are a function of the pages before: leaf, slot, cuts, separators and page numbers admit no choice |
| Steps.FullAfterInsertion | src/writer/mod.rs:232-294 | an insertion empties no leaf, through every split |
| Steps.HalfAfterSep | src/writer/mod.rs:459-507 | placing a half-bounded separator keeps every entry half-bounded |
| Writers.Writer.Finish | src/writer/mod.rs:773-795 | the file is a meta page in slot 0, then the arena's bytes from page 1 on, unchanged |
| MetaPage.BuildMeta | src/writer/mod.rs:800-811 | six words with the magic number first, in native order |
| MetaPage.MetaRecognised | src/format.rs:131-149 | the byte order of a meta page is recognised and its fields read, whichever order it is in |
| Overflow.FetchOverflow | src/db.rs:334-357 | on any file: terminates with the chain's bytes or its first error; succeeds with `item` if and only if linked pages of type 4 hold `item` by slices of the page size less 20, from byte 20 on |
| Overflow.CompareOverflow | src/db.rs:271-313 | on any file: terminates; the order of the key and the item the pages hold; when the item cannot be read, an answer comes from a readable part that decides, and an error means that no readable part does |
| RawChains.ChainIsRaw | src/db.rs:334-357 | reading from any page of a chain gives `item` if and only if the pages from there on hold it |
| RawChains.ChainRefuses | src/db.rs:338-351 | page 0, a page outside the file, a page of another type and a page that does not parse each end the reading with their own error |
| Overflow.CompareDrop | src/db.rs:296-301 | equal prefixes do not decide a comparison |
| Overflow.ComparePrefix | src/db.rs:296-301 | unequal prefixes of one length do |
| Reader.CompareItem | src/db.rs:257-262 | inline items compare directly, overflow items as their fetched bytes |
| Reader.Materialise | src/db.rs:317-326 | inline or fetched bytes of an item |
| Reader.StoredReads | src/db.rs:149-155 | a file of packed pages reads as the tree it stores |
| RawReads.TreeFileIsRaw | src/db.rs:125-132 | the files that lookup and iteration are stated on are exactly those that hold a tree in the format's literal offsets and numbers |
| Reader.SearchLeaf | src/db.rs:185-207 | on a page of sorted records, keys inline or overflow: the key's position, or none if no record has it |
| Reader.DescendInternal | src/db.rs:214-246 | on a page of sorted separators, inline or overflow: the child at the last slot not above the key |
| Reader.Search | src/db.rs:166-181 | on a well-formed file: the path from the root by the routing slot of each page, one page a level, to the leaf that owns the key; the record's position there, or proof that the key is unbound |
| Reader.Get | src/db.rs:125-132 | on a well-formed file, overflow keys and values included: the key's value in the denoted map, or nothing, along that path |
| Shape.PathExists | src/writer/mod.rs:69-74 | every page is reachable from the root |
| Shape.PathUnique | src/writer/mod.rs:69-74 | by exactly one path of slots |
| Shape.LeavesAtOneDepth | src/writer/mod.rs:299-318 | all leaves are equally deep |
| Shape.KeysUnderSlot | src/writer/mod.rs:1123-1131 | every key below slot `i` lies between separator `i` and the next |
| Shape.CopyUp | src/writer/mod.rs:658-678 | a parent's key for an internal page is that page's first key byte for byte, empty on the left spine |
| Shape.SeparatorsIncrease | src/writer/mod.rs:508-539 | separators strictly increase; only a level's leftmost page starts with the empty key |
| Shape.HeightBound | src/writer/mod.rs:112-120 | a tree has more pages than levels |
| Chain.ChainReaches | src/iter.rs:131-148 | every page of a level that does not start left of a page is met by following `next` from it |
| Chain.LevelChain | src/writer/mod.rs:398-424 | at every level `next` from the left spine visits each page once in key order, `prev` undoes it, and the invalid number marks exactly the ends |
| Chain.ScanSorted | src/iter.rs:20-24 | records along the leaf chain come in strictly increasing key order |
| Chain.ScanMeets | src/iter.rs:131-148 | a record not left of a leaf is met by the scan from it |
| Chain.FullScan | src/iter.rs:20-24 | the scan from the first leaf is the tree's records, each once |
| Iteration.Iter.InitialState | src/iter.rs:111-129 | the left spine leads to the first leaf; an empty one ends the scan |
| Iteration.Iter.AdvanceLeaf | src/iter.rs:133-148 | empty leaves are skipped and nothing else is |
| Iteration.Iter.YieldCurrent | src/iter.rs:152-167 | yields the first record to come and leaves the rest |
| Iteration.Iter.Next | src/iter.rs:173-184 | yields the records to come one by one, then nothing for good |
| Iteration.Dump | src/iter.rs:170-187 | iterating to the end lists exactly what the state machine has to yield, in order |
| Iteration.ScanLists | src/iter.rs:20-24 | the scan along the chain lists the denoted map, each binding once, sorted |
| Iteration.IterationComplete | src/iter.rs:111-129 | iteration lists the whole map if and only if the first leaf is not empty or the map is |
| EmptiedLeaf.ThirdSplits | src/writer/mod.rs:686-744 | the third record of half a page splits the root after the first record |
| EmptiedLeaf.FirstLeafEmptied | src/iter.rs:115-117 | deleting that record leaves an empty first leaf, and iteration yields nothing of the other two |
| EmptiedLeaf.EmptiedByRun | src/iter.rs:109-117 | three puts, a deletion, finish, open: two records are bound and lookup finds one, yet iteration lists none |
| Iteration.PutOnlyIterates | src/iter.rs:111-148 | with no emptied leaf, iteration lists the whole map |
| ByteOrder.ReversedPacked | src/page.rs:118-161 | reversing header words, slots and entry headers of a packed page packs the same page in the other order |
| ByteOrder.ReversedEntry | src/page.rs:235-290 | a reversed entry decodes, in the other order, to the same entry |
| ByteOrder.ReversedMeta | src/format.rs:131-149 | the reversed meta page carries the same words in the other order |
| ByteOrder.ReversedStores | src/db.rs:149-155 | a reversed file stores the same pages |
| ByteOrder.ReversedFileOpens | src/db.rs:78-112 | a reversed file opens with the swap detected, as the same tree |
| ByteOrder.SameAnswers | src/db.rs:125-132 | a file and its reversal give the same answer for every key |
| ByteOrder.SameScan | src/iter.rs:173-184 | and list the same pairs in the same order |
| RawPages.GetPageIs | src/db.rs:149-155 | a page is borrowed if and only if it ends inside the file |
| RawPages.OpenIs | src/db.rs:78-112 | `open` accepts a file, with that page size and byte order, if and only if its words and length are: magic 0x053162, version 3, an even size from 512 to 32768 that divides the length, flags 0 or 0x20 |
| RawPages.OpenRefuses | src/db.rs:82-110 | each failing test gives its own error, in order |
| RawReads.StoredIsRaw | src/writer/mod.rs:773-811 | a finished file: six literal words, then every page with its own number, a bare type word and unflagged entries |
| Replays.FinishedFileOpens | src/db.rs:78-112 | a finished file passes every check of `open` and is the tree it was written from |
| Replays.Perform | src/writer/mod.rs:199-294 | one operation of a trace acts on the map and answers as the finite map does; a put adds at most one level, and a page a level and two for the root |
| Replays.PageBoundIs | src/writer/mod.rs:117-120 | the pages `n` puts can take: `n * (n + 3) / 2 + 2` |
| Replays.Replay | tests/replay.rs:44-70 | over a whole trace every answer and the contents reached are those of a no-overwrite finite map; a trace is cut short only once half of all page numbers are used, so never within 65534 puts |
| Replays.Rebuild | tests/replay.rs:38-75 | replay and finish: the file opens as a well-formed tree of the map of the trace, laid out in the format's literal offsets and numbers |
| Replays.RebuildAndGet | tests/writer.rs:38-52 | rebuild, open, get: exactly the map's value for every key, along the path that routes it |
| Replays.RebuildAndDump | tests/writer.rs:117-162 | rebuild, open, iterate: sorted bindings of the map, all of them if and only if the file's first leaf is not empty or the map is; so after every run of puts |

## Left out

- Writers.Writer.Put: an entry over half a page is put only where its leaf has room, and no split is promised while the tree holds such an entry, because it can panic; `SplitPlans.SplitWorksExactly` says when one split works for any sizes.
- Writers.Writer.Put: where a split may follow, page numbers must be left for a page a level and two for the root, since they are 32 bits and the original panics beyond.
- Replays.Replay: a run of more than 65534 puts may end early, once half the page numbers are used, which leaves room for any further call.
- Reader.Get: stated on well-formed files, as are `Reader.Search` and iteration; descent has no cycle guard, so on other files it need not end. The loops within one page and along overflow chains are stated on any bytes.
- Reader.Search: the error returned for a page that is neither leaf nor internal, which a well-formed file does not have.
- Trees in which a page's first key differs from its parent's key for it, as deletions by other writers may leave, are not well-formed files here.
- `page_mut` borrows a page of the arena for editing; the model copies the page out to an array, edits it there and stores it back.
- `copy_entries` and `copy_internal_entries`, and the two size functions of a split, differ only in the entry type and are one method each here.
- The host is little-endian; files of the other order are the swapped ones.
- File creation, mapping, buffering and the writes of `finish`: the result is the byte sequence, and opening takes one.
- Padding within aligned entries and slack between `lower` and `upper`, which the original leaves unspecified.
- Byte equality with libnbcompat, whose source is not part of this model.
- Error message strings, borrowing and lifetimes, and the command-line example.
- Height as a function of the number of records: the shortcut makes one-entry pages and deletion leaves empty leaves, so there is no logarithmic bound.
