/** Overflow chains as the format has them, page by page. */
module RawChains {
  import opened Bytes
  import opened Errors
  import opened Format
  import opened PageViews
  import opened RawFormat
  import opened RawPages
  import opened Files

  // ----- slices -----

  lemma PartFirst(item: Bytes, w: nat)
    ensures Part(item, w, 0) == item[..Least(w, |item|)]
  {
  }

  lemma PartRest(item: Bytes, w: nat, i: nat)
    requires w <= |item|
    ensures Part(item[w..], w, i) == Part(item, w, i + 1)
  {
    assert (i + 1) * w == i * w + w && (i + 2) * w == (i + 1) * w + w;
  }

  /** A chain without its first page. */
  lemma FillRest(n: nat, w: nat, len: nat)
    requires w > 0 && len > 0 && FillPages(n, w, len)
    ensures n > 0 && (len <= w <==> n == 1) && (len > w ==> FillPages(n - 1, w, len - w))
  {
    if n > 1 {
      assert n * w == (n - 1) * w + w && (n - 1) * w == (n - 2) * w + w;
    }
  }

  lemma FillMore(n: nat, w: nat, len: nat)
    requires w > 0 && len > 0 && FillPages(n, w, if len <= w then 0 else len - w)
    ensures FillPages(n + 1, w, len) && (len <= w ==> n == 0)
  {
    if n > 0 {
      assert n * w == (n - 1) * w + w && (n + 1) * w == n * w + w && (n - 1) * w >= 0;
    }
  }

  // ----- one page of a chain -----

  /** Page `n` has the first bytes of `item`, and a chain from the page it links to has
      the others. */
  ghost predicate RawStep(file: Bytes, psize: nat, swap: bool, n: nat, item: Bytes)
    requires 20 < psize
  {
    var take := Least(psize - 20, |item|);
    && RawPayload(file, psize, swap, n, item[..take])
    && RawOverflow(file, psize, swap, Word(RawBytes(file, psize, n), 8, swap), item[take..])
  }

  lemma EmptyChain(file: Bytes, psize: nat, swap: bool, first: nat)
    requires 20 < psize
    ensures RawOverflow(file, psize, swap, first, [])
  {
    assert RawChain(file, psize, swap, [], []);
  }

  lemma ChainTail(file: Bytes, psize: nat, swap: bool, ps: seq<nat>, item: Bytes)
    requires 20 < psize && item != [] && RawChain(file, psize, swap, ps, item)
    ensures ps != [] && RawStep(file, psize, swap, ps[0], item)
  {
    hide RawPayload, Word, Part, FillPages;
    var w := psize - 20;
    var take := Least(w, |item|);
    PartFirst(item, w);
    FillRest(|ps|, w, |item|);
    assert RawPayload(file, psize, swap, ps[0], Part(item, w, 0));
    InPayload(file, psize, swap, ps[0], Part(item, w, 0));
    var next := Word(RawBytes(file, psize, ps[0]), 8, swap);
    if |item| <= w {
      EmptyChain(file, psize, swap, next);
      assert item[take..] == [];
    } else {
      var rest, qs := item[w..], ps[1..];
      forall i | 0 <= i < |qs| ensures RawPayload(file, psize, swap, qs[i], Part(rest, w, i)) {
        PartRest(item, w, i);
        assert RawPayload(file, psize, swap, ps[i + 1], Part(item, w, i + 1));
      }
      forall i | 0 <= i < |qs| - 1 ensures RawLink(file, psize, swap, qs[i], qs[i + 1]) {
        assert RawLink(file, psize, swap, ps[i + 1], ps[i + 1 + 1]);
      }
      assert RawLink(file, psize, swap, ps[0], ps[0 + 1]);
      assert RawChain(file, psize, swap, qs, rest);
    }
  }

  lemma InPayload(file: Bytes, psize: nat, swap: bool, n: nat, part: Bytes)
    requires RawPayload(file, psize, swap, n, part)
    ensures InFile(file, psize, n) && 20 <= psize && 20 + |part| <= psize
  {
  }

  lemma ChainCons(file: Bytes, psize: nat, swap: bool, n: nat, qs: seq<nat>, item: Bytes)
    requires 20 < psize && item != []
    requires RawPayload(file, psize, swap, n, item[..Least(psize - 20, |item|)])
    requires qs != [] ==> RawLink(file, psize, swap, n, qs[0])
    requires RawChain(file, psize, swap, qs, item[Least(psize - 20, |item|)..])
    ensures RawChain(file, psize, swap, [n] + qs, item)
  {
    hide RawPayload, Word, Part, FillPages;
    var w, ps := psize - 20, [n] + qs;
    PartFirst(item, w);
    FillMore(|qs|, w, |item|);
    forall i | 0 <= i < |ps| ensures RawPayload(file, psize, swap, ps[i], Part(item, w, i)) {
      if i > 0 {
        PartRest(item, w, i - 1);
        assert RawPayload(file, psize, swap, qs[i - 1], Part(item[w..], w, i - 1));
      }
    }
    forall i | 0 <= i < |ps| - 1 ensures RawLink(file, psize, swap, ps[i], ps[i + 1]) {
      if i > 0 {
        assert RawLink(file, psize, swap, qs[i - 1], qs[i - 1 + 1]);
      }
    }
  }

  /** A chain is a page and a chain. */
  lemma OverflowIsStep(file: Bytes, psize: nat, swap: bool, first: nat, item: Bytes)
    requires 20 < psize && item != []
    ensures RawOverflow(file, psize, swap, first, item) <==> RawStep(file, psize, swap, first, item)
  {
    hide RawPayload, RawChain, Word;
    if RawOverflow(file, psize, swap, first, item) {
      var ps: seq<nat> :| (ps != [] ==> ps[0] == first) && RawChain(file, psize, swap, ps, item);
      ChainTail(file, psize, swap, ps, item);
    }
    if RawStep(file, psize, swap, first, item) {
      var rest := item[Least(psize - 20, |item|)..];
      InPayload(file, psize, swap, first, item[..Least(psize - 20, |item|)]);
      var next := Word(RawBytes(file, psize, first), 8, swap);
      var qs: seq<nat> :| (qs != [] ==> qs[0] == next) && RawChain(file, psize, swap, qs, rest);
      ChainCons(file, psize, swap, first, qs, item);
      assert ([first] + qs)[0] == first;
    }
  }

  // ----- what the reader's chains are -----

  /** Reading an overflow chain gives `item` exactly when pages laid out as the format
      says hold it. */
  lemma {:induction false} ChainIsRaw(db: Db, start: u32, pgno: u32, item: Bytes)
    requires db.Opened()
    ensures db.Chain(start, pgno, |item|) == Success(item) <==> RawOverflow(db.mmap, db.psize, db.swap, pgno, item)
    decreases |item|
  {
    hide RawOverflow, RawPayload, Parse, Db.GetPage, Word, PageView.IsOverflow, PageView.OverflowPayload;
    if item == [] {
      EmptyChain(db.mmap, db.psize, db.swap, pgno);
    } else {
      var take := Least(db.psize - 20, |item|);
      OverflowIsStep(db.mmap, db.psize, db.swap, pgno, item);
      PayloadIsRaw(db, pgno, item[..take]);
      assert item == item[..take] + item[take..];
      if pgno != 0 && db.GetPage(pgno).Success? && Parse(pgno, db.GetPage(pgno).value, db.swap).Success? {
        var view := Parse(pgno, db.GetPage(pgno).value, db.swap).value;
        ChainIsRaw(db, start, view.nextPg, item[take..]);
        ChainLength(db, start, view.nextPg, |item| - take);
      }
    }
  }

  /** A page the reader takes `part` from. */
  lemma PayloadIsRaw(db: Db, pgno: u32, part: Bytes)
    requires db.Opened() && |part| <= db.psize - 20
    ensures RawPayload(db.mmap, db.psize, db.swap, pgno, part) <==>
              && pgno != P_INVALID && db.GetPage(pgno).Success?
              && var v := Parse(pgno, db.GetPage(pgno).value, db.swap);
                v.Success? && v.value.IsOverflow()
                && |v.value.OverflowPayload()| == db.psize - 20 && v.value.OverflowPayload()[..|part|] == part
    ensures pgno != P_INVALID && db.GetPage(pgno).Success? ==>
              && InFile(db.mmap, db.psize, pgno)
              && var v := Parse(pgno, db.GetPage(pgno).value, db.swap);
                v.Success? ==>
                  && |v.value.OverflowPayload()| == db.psize - 20
                  && v.value.nextPg == Word(RawBytes(db.mmap, db.psize, pgno), 8, db.swap)
  {
    hide Parse, Db.GetPage, Word, Half, PageView.IsOverflow, PageView.OverflowPayload, PageView.IsLeaf,
         PageView.IsInternal;
    GetPageIs(db, pgno);
    if InFile(db.mmap, db.psize, pgno) {
      var b := RawBytes(db.mmap, db.psize, pgno);
      assert |b| == db.psize;
      ParseIs(pgno, b, db.swap);
      assert b[20..][..|part|] == b[20..20 + |part|];
    }
  }

  lemma {:induction false} ChainLength(db: Db, start: u32, pgno: u32, remaining: nat)
    requires db.Opened()
    ensures db.Chain(start, pgno, remaining).Success? ==> |db.Chain(start, pgno, remaining).value| == remaining
    decreases remaining
  {
    hide Parse, Db.GetPage, PageView.IsOverflow, PageView.OverflowPayload;
    if remaining > 0 && pgno != P_INVALID && db.GetPage(pgno).Success? {
      var v := Parse(pgno, db.GetPage(pgno).value, db.swap);
      var take := if remaining < db.psize - PAGE_HEADER_SIZE then remaining else db.psize - PAGE_HEADER_SIZE;
      if v.Success? {
        ChainLength(db, start, v.value.nextPg, remaining - take);
      }
    }
  }

  /** What is wrong with the next page of a chain is the error. */
  lemma ChainRefuses(db: Db, start: u32, pgno: u32, remaining: nat)
    requires db.Opened() && remaining > 0
    ensures pgno == 0 ==> db.Chain(start, pgno, remaining) == Failure(CorruptOverflow(start))
    ensures pgno != 0 && !InFile(db.mmap, db.psize, pgno) ==>
              db.Chain(start, pgno, remaining) == Failure(PageOutOfBounds(pgno))
    ensures pgno != 0 && InFile(db.mmap, db.psize, pgno) ==>
              var b, s := RawBytes(db.mmap, db.psize, pgno), db.swap;
              && (RawHeader(b, s, 1) || RawHeader(b, s, 2) ==>
                    db.Chain(start, pgno, remaining) == Failure(CorruptOverflow(start)))
              && (!RawHeader(b, s, 1) && !RawHeader(b, s, 2) && !RawHeader(b, s, 4) ==>
                    db.Chain(start, pgno, remaining) == Failure(CorruptPage(pgno)))
  {
    hide Parse, Db.GetPage, Word, Half, PageView.IsOverflow, PageView.OverflowPayload, PageView.IsLeaf,
         PageView.IsInternal;
    GetPageIs(db, pgno);
    if InFile(db.mmap, db.psize, pgno) {
      ParseIs(pgno, RawBytes(db.mmap, db.psize, pgno), db.swap);
    }
  }
}
