/** A file opened for reading, and the overflow chains it may hold. */
module Files {
  import opened Bytes
  import opened Errors
  import opened Format
  import opened PageViews
  import opened Arena
  import opened MetaPage

  /** The mapped file, its page size and whether its byte order is foreign. */
  datatype Db = Db(mmap: Bytes, psize: nat, swap: bool) {
    predicate Opened() {
      MIN_PSIZE <= psize <= MAX_PSIZE
    }

    /** Borrow page `pgno`. */
    function GetPage(pgno: u32): Result<Bytes> {
      if PageOff(psize, pgno) + psize <= |mmap| then Success(PageBytes(mmap, psize, pgno))
      else Failure(PageOutOfBounds(pgno))
    }

    /** The bytes of an overflow chain: `remaining` bytes from page `pgno` on, a
        page's payload at a time.  `start` names the chain in errors. */
    function Chain(start: u32, pgno: u32, remaining: nat): Result<Bytes>
      requires Opened()
      decreases remaining
    {
      if remaining == 0 then Success([])
      else if pgno == P_INVALID then Failure(CorruptOverflow(start))
      else
        var page :- GetPage(pgno);
        var view :- Parse(pgno, page, swap);
        var take := if remaining < psize - PAGE_HEADER_SIZE then remaining else psize - PAGE_HEADER_SIZE;
        if !view.IsOverflow() || take > |view.OverflowPayload()| then Failure(CorruptOverflow(start))
        else
          var rest :- Chain(start, view.nextPg, remaining - take);
          Success(view.OverflowPayload()[..take] + rest)
    }
  }

  /** Only `B_NODUPS` may be set: recno trees and unknown bits are refused. */
  predicate SupportedFlags(flags: u32) {
    flags == 0 || flags == B_NODUPS
  }

  /** Validate the meta page and expose the file. */
  function Open(file: Bytes): Result<Db> {
    if |file| < META_SIZE then Failure(ShortFile)
    else
      var (meta, swap) := ParseMeta(file);
      if meta.magic != BTREE_MAGIC then Failure(BadMagic(meta.magic))
      else if meta.version != BTREE_VERSION then Failure(BadVersion(meta.version))
      else if !(MIN_PSIZE <= meta.psize <= MAX_PSIZE) || meta.psize % 2 != 0 then Failure(BadPageSize(meta.psize))
      else if !SupportedFlags(meta.flags) then Failure(UnsupportedFlags(meta.flags))
      else if |file| % meta.psize != 0 then Failure(UnalignedFileLength(|file|, meta.psize))
      else Success(Db(file, meta.psize, swap))
  }
}
