/** The page decoder reads the format. */
module RawPages {
  import opened Bytes
  import opened Errors
  import opened Format
  import opened PageViews
  import opened RawFormat
  import opened MetaPage
  import opened Files

  /** The decoder's fields are the format's words and halves. */
  lemma FieldsAreRaw(b: Bytes, off: nat, swap: bool)
    ensures off + 4 <= |b| ==> U32At(b, off, swap) == Word(b, off, swap)
    ensures off + 2 <= |b| ==> U16At(b, off, swap) == Half(b, off, swap)
  {
  }

  /** Type bits tell the three page types apart. */
  lemma TypeBits(flags: nat, kind: nat)
    requires flags % 32 == kind && (kind == 1 || kind == 2 || kind == 4)
    ensures HasBit(flags, P_BINTERNAL) <==> kind == 1
    ensures HasBit(flags, P_BLEAF) <==> kind == 2
    ensures HasBit(flags, P_OVERFLOW) <==> kind == 4
  {
    var q := flags / 32;
    Quotients(flags, 16 * q, 8 * q, kind);
    assert 16 * q == 2 * (8 * q) && 8 * q == 2 * (4 * q);
  }

  lemma Quotients(flags: nat, h: nat, f: nat, kind: nat)
    requires flags == 2 * h + kind == 4 * f + kind && (kind == 1 || kind == 2 || kind == 4)
    ensures flags / 2 == h + kind / 2 && flags / 4 == f + kind / 4 && flags / 1 == flags
  {
  }

  /** A page parses exactly when its header is one of the three types with consistent
      bounds, and then to what the header says; otherwise the page is named corrupt. */
  lemma ParseIs(pgno: u32, b: Bytes, swap: bool)
    ensures Parse(pgno, b, swap).Success? <==>
            RawHeader(b, swap, 1) || RawHeader(b, swap, 2) || RawHeader(b, swap, 4)
    ensures Parse(pgno, b, swap).Failure? ==> Parse(pgno, b, swap).error == CorruptPage(pgno)
    ensures Parse(pgno, b, swap).Success? ==>
              var v := Parse(pgno, b, swap).value;
              && v.pgno == pgno && v.bytes == b && v.swap == swap && 20 <= |b|
              && v.prevPg == Word(b, 4, swap) && v.nextPg == Word(b, 8, swap)
              && 20 + 2 * v.nentries == Half(b, 16, swap)
              && (v.IsInternal() <==> RawHeader(b, swap, 1))
              && (v.IsLeaf() <==> RawHeader(b, swap, 2))
              && (v.IsOverflow() <==> RawHeader(b, swap, 4))
              && v.OverflowPayload() == b[20..]
  {
    hide U32At, U16At, Word, Half, HasBit;
    FieldsAreRaw(b, 4, swap);
    FieldsAreRaw(b, 8, swap);
    FieldsAreRaw(b, 12, swap);
    FieldsAreRaw(b, 16, swap);
    FieldsAreRaw(b, 18, swap);
    if Parse(pgno, b, swap).Success? {
      TypeBits(U32At(b, 12, swap), U32At(b, 12, swap) % 32);
    }
  }

  /** A page is there exactly when it ends inside the file. */
  lemma GetPageIs(db: Db, pgno: u32)
    ensures db.GetPage(pgno) ==
            if InFile(db.mmap, db.psize, pgno) then Success(RawBytes(db.mmap, db.psize, pgno))
            else Failure(PageOutOfBounds(pgno))
  {
  }

  // ----- opening -----

  /** `open` accepts exactly the files whose meta page and length are as the format
      says, in either byte order. */
  lemma OpenIs(file: Bytes, psize: nat, swap: bool)
    ensures Open(file) == Success(Db(file, psize, swap)) <==> RawOpens(file, psize, swap)
  {
    hide U32At, Word, Quad;
    MetaFieldsAreRaw(file);
    if RawOpens(file, psize, swap) && swap {
      MagicIsOneOrder(file);
    }
  }

  lemma MetaFieldsAreRaw(file: Bytes)
    ensures 24 <= |file| ==> forall swap, k | k in {0, 4, 8, 20} :: U32At(file, k, swap) == Word(file, k, swap)
  {
    hide U32At, Word;
    if 24 <= |file| {
      forall swap, k | k in {0, 4, 8, 20} ensures U32At(file, k, swap) == Word(file, k, swap) {
        FieldsAreRaw(file, k, swap);
      }
    }
  }

  lemma MagicIsOneOrder(file: Bytes)
    requires 24 <= |file| && Word(file, 0, true) == 0x053162
    ensures Word(file, 0, false) != 0x053162
  {
    FieldsAreRaw(file, 0, true);
    FieldsAreRaw(file, 0, false);
    MagicIsOneWay(file[0], file[1], file[2], file[3]);
  }

  /** The order in which the magic number reads right, if either. */
  predicate MagicAs(file: Bytes, swap: bool) {
    24 <= |file| && Word(file, 0, swap) == 0x053162
  }

  /** Each failing test gives its own error, the first that fails. */
  lemma OpenRefuses(file: Bytes, swap: bool)
    ensures |file| < 24 ==> Open(file) == Failure(ShortFile)
    ensures 24 <= |file| && !MagicAs(file, false) && !MagicAs(file, true) ==>
              Open(file) == Failure(BadMagic(Word(file, 0, true)))
    ensures MagicAs(file, swap) ==>
              var version, psize, flags := Word(file, 4, swap), Word(file, 8, swap), Word(file, 20, swap);
              && (version != 3 ==> Open(file) == Failure(BadVersion(version)))
              && (version == 3 ==>
                    && (!(512 <= psize <= 32768) || psize % 2 != 0 ==> Open(file) == Failure(BadPageSize(psize)))
                    && (512 <= psize <= 32768 && psize % 2 == 0 ==>
                          && (flags != 0 && flags != 0x20 ==> Open(file) == Failure(UnsupportedFlags(flags)))
                          && ((flags == 0 || flags == 0x20) && |file| % psize != 0 ==>
                                Open(file) == Failure(UnalignedFileLength(|file|, psize)))))
  {
    hide U32At, Word, Quad;
    MetaFieldsAreRaw(file);
    if MagicAs(file, true) {
      MagicIsOneOrder(file);
    }
  }
}
