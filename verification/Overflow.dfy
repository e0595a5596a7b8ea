/** Overflow items: fetched whole, or compared a page at a time. */
module Overflow {
  import opened Bytes
  import opened Errors
  import opened Format
  import opened PageViews
  import opened Files
  import opened RawFormat
  import opened RawChains

  /** One more page of a chain, read into `out`. */
  lemma ChainGrows(db: Db, start: u32, pgno: u32, remaining: nat, out: Bytes, view: PageView, take: nat)
    requires db.Opened() && remaining > 0
    requires pgno != P_INVALID && db.GetPage(pgno).Success? && Parse(pgno, db.GetPage(pgno).value, db.swap)
        == Success(view)
    requires view.IsOverflow() && take <= |view.OverflowPayload()|
    requires take == if remaining < db.psize - PAGE_HEADER_SIZE then remaining else db.psize - PAGE_HEADER_SIZE
    ensures Prefixed(out, db.Chain(start, pgno, remaining))
         == Prefixed(out + view.OverflowPayload()[..take], db.Chain(start, view.nextPg, remaining - take))
  {
    hide Parse, PageView.IsOverflow, PageView.OverflowPayload, Db.GetPage;
    var rest := db.Chain(start, view.nextPg, remaining - take);
    var here := view.OverflowPayload()[..take];
    if rest.Success? {
      assert out + (here + rest.value) == (out + here) + rest.value;
    }
  }

  function Prefixed(out: Bytes, rest: Result<Bytes>): Result<Bytes> {
    if rest.Success? then Success(out + rest.value) else rest
  }

  /** Read an item out of an overflow chain: exactly the item that pages laid out as
      the format says hold, if they hold one. */
  method FetchOverflow(db: Db, startPgno: u32, size: u32) returns (r: Result<Bytes>)
    requires db.Opened()
    ensures r == db.Chain(startPgno, startPgno, size)
    ensures r.Success? ==> |r.value| == size
    ensures forall item | |item| == size ::
              r == Success(item) <==> RawOverflow(db.mmap, db.psize, db.swap, startPgno, item)
  {
    hide Parse, PageView.IsOverflow, Db.GetPage, RawOverflow;
    forall item | |item| == size
      ensures db.Chain(startPgno, startPgno, size) == Success(item) <==>
              RawOverflow(db.mmap, db.psize, db.swap, startPgno, item)
    {
      ChainIsRaw(db, startPgno, startPgno, item);
    }
    var out: Bytes := [];
    var payloadPerPage := db.psize - PAGE_HEADER_SIZE;
    var pgno := startPgno;
    var remaining := size;
    ghost var whole := db.Chain(startPgno, startPgno, size);
    assert whole.Success? ==> out + whole.value == whole.value;
    while remaining > 0
      invariant 0 <= remaining <= size && |out| == size - remaining
      invariant whole == Prefixed(out, db.Chain(startPgno, pgno, remaining))
    {
      if pgno == P_INVALID {
        return Failure(CorruptOverflow(startPgno));
      }
      var page :- db.GetPage(pgno);
      var view :- Parse(pgno, page, db.swap);
      if !view.IsOverflow() {
        return Failure(CorruptOverflow(startPgno));
      }
      var take := if remaining < payloadPerPage then remaining else payloadPerPage;
      var payload := view.OverflowPayload();
      if take > |payload| {
        return Failure(CorruptOverflow(startPgno));
      }
      ChainGrows(db, startPgno, pgno, remaining, out, view, take);
      out := out + payload[..take];
      remaining := remaining - take;
      pgno := view.nextPg;
    }
    assert out + [] == out;
    return Success(out);
  }

  /** Equal prefixes do not decide a comparison. */
  lemma {:induction false} CompareDrop(a: Bytes, b: Bytes, n: nat)
    requires n <= |a| && n <= |b| && a[..n] == b[..n]
    ensures Compare(a, b) == Compare(a[n..], b[n..])
  {
    if n == 0 {
      assert a[0..] == a && b[0..] == b;
    } else {
      assert a[0] == a[..n][0] == b[..n][0] == b[0];
      assert a[1..][..n - 1] == a[..n][1..] == b[..n][1..] == b[1..][..n - 1];
      CompareDrop(a[1..], b[1..], n - 1);
      assert a[1..][n - 1..] == a[n..] && b[1..][n - 1..] == b[n..];
      CompareTail(a, b);
    }
  }

  lemma CompareTail(a: Bytes, b: Bytes)
    requires a != [] && b != [] && a[0] == b[0]
    ensures Compare(a, b) == Compare(a[1..], b[1..])
  {
    assert a == [a[0]] + a[1..] && b == [b[0]] + b[1..];
  }

  /** Unequal prefixes of one length decide a comparison. */
  lemma {:induction false} ComparePrefix(a: Bytes, b: Bytes, n: nat)
    requires n <= |a| && n <= |b| && Compare(a[..n], b[..n]) != Equal
    ensures Compare(a, b) == Compare(a[..n], b[..n])
  {
    if n > 0 && a[0] == b[0] {
      var c, d := a[..n], b[..n];
      assert c[1..] == a[1..][..n - 1] && d[1..] == b[1..][..n - 1];
      CompareTail(c, d);
      ComparePrefix(a[1..], b[1..], n - 1);
      CompareTail(a, b);
    }
  }

  /** A proper prefix sorts first. */
  lemma {:induction false} ProperPrefixLess(a: Bytes, b: Bytes)
    requires |a| < |b| && a == b[..|a|]
    ensures Compare(a, b) == Less && Compare(b, a) == Greater
  {
    if a != [] {
      assert a[0] == b[0] && a[1..] == b[1..][..|a| - 1];
      ProperPrefixLess(a[1..], b[1..]);
      CompareTail(a, b);
      CompareTail(b, a);
    }
  }

  /** `n` bytes of the chain can be read and decide how `key` compares, whatever
      follows them. */
  ghost predicate Decides(db: Db, key: Bytes, start: u32, n: nat, ord: Ordering)
    requires db.Opened()
  {
    var part := db.Chain(start, start, n);
    part.Success? && !(part.value <= key) && ord == Compare(key, part.value)
  }

  /** Compare `key` with an overflow item a page at a time.  Whenever the item can
      be read, the result is the order of `key` and its bytes.  When it cannot, the
      answer comes from a readable part that decides, or there is none, every
      readable part being a prefix of `key`, and the error is that of reading. */
  method CompareOverflow(db: Db, key: Bytes, startPgno: u32, size: u32) returns (r: Result<Ordering>)
    requires db.Opened()
    ensures var item := db.Chain(startPgno, startPgno, size);
      item.Success? ==> r == Success(Compare(key, item.value))
    ensures forall item | |item| == size && RawOverflow(db.mmap, db.psize, db.swap, startPgno, item) ::
              r == Success(Compare(key, item))
    ensures r.Success? ==> db.Chain(startPgno, startPgno, size).Success?
                           || exists n: nat :: n <= size && Decides(db, key, startPgno, n, r.value)
    ensures r.Failure? ==>
              && db.Chain(startPgno, startPgno, size) == Failure(r.error)
              && forall n: nat | n <= size && db.Chain(startPgno, startPgno, n).Success? ::
                   db.Chain(startPgno, startPgno, n).value <= key
  {
    hide Parse, PageView.IsOverflow, PageView.OverflowPayload, Db.GetPage, Compare, Db.Chain, RawOverflow, Decides,
         ReadSoFar;
    var payloadPerPage := db.psize - PAGE_HEADER_SIZE;
    var total := size;
    var pgno := startPgno;
    var consumed := 0;
    forall raw | |raw| == size && RawOverflow(db.mmap, db.psize, db.swap, startPgno, raw)
      ensures db.Chain(startPgno, startPgno, size) == Success(raw)
    {
      ChainIsRaw(db, startPgno, startPgno, raw);
    }
    ReadStart(db, startPgno, total);
    assert key[..0] == [];
    while consumed < total
      invariant 0 <= consumed <= total && consumed <= |key|
      invariant ReadSoFar(db, startPgno, pgno, key[..consumed], total)
    {
      ghost var done := key[..consumed];
      if pgno == P_INVALID {
        ReadBlocked(db, startPgno, pgno, done, total, key, 0, CorruptOverflow(startPgno));
        return Failure(CorruptOverflow(startPgno));
      }
      if db.GetPage(pgno).Failure? {
        ReadBlocked(db, startPgno, pgno, done, total, key, 0, db.GetPage(pgno).error);
      }
      var page :- db.GetPage(pgno);
      if Parse(pgno, page, db.swap).Failure? {
        ReadBlocked(db, startPgno, pgno, done, total, key, 0, Parse(pgno, page, db.swap).error);
      }
      var view :- Parse(pgno, page, db.swap);
      if !view.IsOverflow() {
        ReadBlocked(db, startPgno, pgno, done, total, key, 0, CorruptOverflow(startPgno));
        return Failure(CorruptOverflow(startPgno));
      }
      var take := if total - consumed < payloadPerPage then total - consumed else payloadPerPage;
      var payload := view.OverflowPayload();
      if take > |payload| {
        ReadBlocked(db, startPgno, pgno, done, total, key, take, CorruptOverflow(startPgno));
        return Failure(CorruptOverflow(startPgno));
      }
      var other := payload[..take];
      ReadMore(db, startPgno, pgno, done, total, view, take);
      ghost var part := done + other;
      assert part[..consumed] == done && part[consumed..][..|other|] == other;
      if consumed >= |key| {
        LessWhenExhausted(key, part, consumed, other);
        Decided(db, key, startPgno, total, part, Less);
        return Success(Less);
      }
      var keyRest := key[consumed..];
      var cmpLen := if |keyRest| < |other| then |keyRest| else |other|;
      var ord := Compare(keyRest[..cmpLen], other[..cmpLen]);
      if ord != Equal {
        DecidedHere(key, part, consumed, other, cmpLen);
        NoPrefix(key, part, consumed, other, cmpLen);
        Decided(db, key, startPgno, total, part, ord);
        return Success(ord);
      }
      EqualMeansSame(keyRest[..cmpLen], other[..cmpLen]);
      if |keyRest| < |other| {
        LessWhenPrefix(key, part, consumed, other);
        Decided(db, key, startPgno, total, part, Less);
        return Success(Less);
      }
      SamePage(key, part, consumed, other);
      assert part == part[..consumed + take];
      consumed := consumed + take;
      pgno := view.nextPg;
    }
    ReadAll(db, startPgno, pgno, key[..consumed], total);
    LengthDecides(key, key[..total], total);
    return Success(if |key| < total then Less else if |key| == total then Equal else Greater);
  }

  // ----- how far a chain has been read -----

  /** `done` has been read, and what else there is starts at page `pgno`. */
  ghost predicate ReadSoFar(db: Db, start: u32, pgno: u32, done: Bytes, total: nat)
    requires db.Opened()
  {
    forall n: nat | |done| <= n <= total ::
      db.Chain(start, start, n) == Prefixed(done, db.Chain(start, pgno, n - |done|))
  }

  lemma ReadStart(db: Db, start: u32, total: nat)
    requires db.Opened()
    ensures ReadSoFar(db, start, start, [], total)
  {
    hide Db.Chain;
    forall n: nat | n <= total ensures db.Chain(start, start, n) == Prefixed([], db.Chain(start, start, n)) {
      var c := db.Chain(start, start, n);
      assert c.Success? ==> [] + c.value == c.value;
    }
  }

  lemma ReadMore(db: Db, start: u32, pgno: u32, done: Bytes, total: nat, view: PageView, take: nat)
    requires db.Opened() && |done| < total && ReadSoFar(db, start, pgno, done, total)
    requires pgno != P_INVALID && db.GetPage(pgno).Success? && Parse(pgno, db.GetPage(pgno).value, db.swap)
        == Success(view)
    requires view.IsOverflow() && take <= |view.OverflowPayload()|
    requires take == if total - |done| < db.psize - PAGE_HEADER_SIZE then total - |done|
                     else db.psize - PAGE_HEADER_SIZE
    ensures var part := done + view.OverflowPayload()[..take];
      && ReadSoFar(db, start, view.nextPg, part, total)
      && |part| == |done| + take <= total && db.Chain(start, start, |part|) == Success(part)
  {
    hide Db.Chain, Parse, PageView.IsOverflow, PageView.OverflowPayload, Db.GetPage;
    var part := done + view.OverflowPayload()[..take];
    forall n: nat | |part| <= n <= total
      ensures db.Chain(start, start, n) == Prefixed(part, db.Chain(start, view.nextPg, n - |part|))
    {
      ChainGrows(db, start, pgno, n - |done|, done, view, take);
      assert n - |done| - take == n - |part|;
    }
    ChainOfNothing(db, start, view.nextPg);
    assert part + [] == part;
  }

  lemma ReadAll(db: Db, start: u32, pgno: u32, done: Bytes, total: nat)
    requires db.Opened() && |done| == total && ReadSoFar(db, start, pgno, done, total)
    ensures db.Chain(start, start, total) == Success(done)
  {
    hide Db.Chain;
    ChainOfNothing(db, start, pgno);
    assert done + [] == done;
  }

  /** A page that cannot be read ends every longer reading with one error. */
  lemma Blocked(db: Db, start: u32, pgno: u32, take: nat, err: Error, m: nat)
    requires db.Opened() && m > 0 && take <= db.psize - PAGE_HEADER_SIZE
    requires BlockedBy(db, start, pgno, take, err)
    ensures db.Chain(start, pgno, m) == Failure(err)
  {
    hide Parse, PageView.IsOverflow, PageView.OverflowPayload, Db.GetPage;
    PayloadIsRaw(db, pgno, []);
  }

  /** Why page `pgno` cannot be read, or not `take` bytes of it. */
  ghost predicate BlockedBy(db: Db, start: u32, pgno: u32, take: nat, err: Error) {
    if pgno == P_INVALID then err == CorruptOverflow(start)
    else if db.GetPage(pgno).Failure? then err == db.GetPage(pgno).error
    else
      var v := Parse(pgno, db.GetPage(pgno).value, db.swap);
      if v.Failure? then err == v.error
      else !(v.value.IsOverflow() && take <= |v.value.OverflowPayload()|) && err == CorruptOverflow(start)
  }

  lemma ReadBlocked(db: Db, start: u32, pgno: u32, done: Bytes, total: nat, key: Bytes, take: nat, err: Error)
    requires db.Opened() && |done| < total && ReadSoFar(db, start, pgno, done, total) && done <= key
    requires take <= db.psize - PAGE_HEADER_SIZE && BlockedBy(db, start, pgno, take, err)
    ensures db.Chain(start, start, total) == Failure(err)
    ensures forall n: nat | n <= total && db.Chain(start, start, n).Success? :: db.Chain(start, start, n).value <= key
  {
    hide Db.Chain, BlockedBy;
    Blocked(db, start, pgno, take, err, total - |done|);
    ChainOfNothing(db, start, pgno);
    assert done + [] == done;
    assert db.Chain(start, start, |done|) == Success(done);
    forall n: nat | n <= total && db.Chain(start, start, n).Success? ensures db.Chain(start, start, n).value <= key {
      if n <= |done| {
        ChainPrefix(db, start, start, |done|, n);
      } else {
        Blocked(db, start, pgno, take, err, n - |done|);
      }
    }
  }

  /** Less of a chain that can be read can be read. */
  lemma {:induction false} ChainPrefix(db: Db, start: u32, pgno: u32, m: nat, n: nat)
    requires db.Opened() && n <= m && db.Chain(start, pgno, m).Success?
    ensures n <= |db.Chain(start, pgno, m).value| == m
    ensures db.Chain(start, pgno, n) == Success(db.Chain(start, pgno, m).value[..n])
    decreases m
  {
    hide Parse, PageView.IsOverflow, PageView.OverflowPayload, Db.GetPage, Db.Chain;
    ChainLength(db, start, pgno, m);
    ChainOfNothing(db, start, pgno);
    if n > 0 {
      var all := db.Chain(start, pgno, m).value;
      StepChain(db, start, pgno, m, all);
      var view := Parse(pgno, db.GetPage(pgno).value, db.swap).value;
      var w := db.psize - PAGE_HEADER_SIZE;
      var first, take := if n < w then n else w, if m < w then m else w;
      ChainPrefix(db, start, view.nextPg, m - take, n - first);
      ChainGrows(db, start, pgno, n, [], view, first);
      PrefixParts(all, view.OverflowPayload(), take, first, n);
      NothingBefore(db.Chain(start, pgno, n));
    }
  }

  lemma NothingBefore(r: Result<Bytes>)
    ensures Prefixed([], r) == r
  {
    assert r.Success? ==> [] + r.value == r.value;
  }

  lemma PrefixParts(all: Bytes, payload: Bytes, take: nat, first: nat, n: nat)
    requires first <= take <= |all| && first <= n <= |all| && take <= |payload| && all[..take] == payload[..take]
    requires n - first <= |all| - take && (first == take || n == first)
    ensures [] + payload[..first] + all[take..][..n - first] == all[..n]
  {
    assert payload[..first] == payload[..take][..first] == all[..take][..first] == all[..first];
  }

  /** A readable part that is no prefix of the key decides the comparison with every
      item it begins. */
  lemma Decided(db: Db, key: Bytes, start: u32, total: nat, part: Bytes, ord: Ordering)
    requires db.Opened() && |part| <= total && db.Chain(start, start, |part|) == Success(part)
    requires !(part <= key) && Compare(key, part) == ord
    ensures Decides(db, key, start, |part|, ord)
    ensures var item := db.Chain(start, start, total); item.Success? ==> Compare(key, item.value) == ord
  {
    hide Db.Chain, Compare;
    var item := db.Chain(start, start, total);
    if item.Success? {
      ChainPrefix(db, start, start, total, |part|);
      DecidedByPrefix(key, item.value, part);
    }
  }

  lemma DecidedByPrefix(key: Bytes, item: Bytes, part: Bytes)
    requires part <= item && !(part <= key)
    ensures Compare(key, item) == Compare(key, part)
  {
    hide Compare;
    var n := if |key| < |part| then |key| else |part|;
    assert item[..n] == part[..n];
    assert part[..|part|] == part && key[..|key|] == key;
    if key[..n] == part[..n] {
      ProperPrefixLess(key, part);
      assert item[..|key|] == key;
      ProperPrefixLess(key, item);
    } else {
      NotEqual(key[..n], part[..n]);
      ComparePrefix(key, part, n);
      ComparePrefix(key, item, n);
    }
  }

  lemma NotEqual(a: Bytes, b: Bytes)
    requires a != b
    ensures Compare(a, b) != Equal
  {
  }

  lemma EqualMeansSame(a: Bytes, b: Bytes)
    requires Compare(a, b) == Equal
    ensures a == b
  {
  }

  lemma ChainOfNothing(db: Db, start: u32, pgno: u32)
    requires db.Opened()
    ensures db.Chain(start, pgno, 0) == Success([])
  {
  }

  /** One page of a chain that can be read. */
  lemma StepChain(db: Db, start: u32, pgno: u32, remaining: nat, bytes: Bytes)
    requires db.Opened() && remaining > 0 && db.Chain(start, pgno, remaining) == Success(bytes)
    ensures pgno != P_INVALID && db.GetPage(pgno).Success? && Parse(pgno, db.GetPage(pgno).value, db.swap).Success?
    ensures var view := Parse(pgno, db.GetPage(pgno).value, db.swap).value;
      var take := if remaining < db.psize - PAGE_HEADER_SIZE then remaining else db.psize - PAGE_HEADER_SIZE;
      && view.IsOverflow() && take <= |view.OverflowPayload()| && take <= |bytes|
      && bytes[..take] == view.OverflowPayload()[..take]
      && db.Chain(start, view.nextPg, remaining - take) == Success(bytes[take..])
  {
    hide Parse, PageView.IsOverflow, PageView.OverflowPayload, Db.GetPage;
    var view := Parse(pgno, db.GetPage(pgno).value, db.swap).value;
    var take := if remaining < db.psize - PAGE_HEADER_SIZE then remaining else db.psize - PAGE_HEADER_SIZE;
    var rest := db.Chain(start, view.nextPg, remaining - take);
    assert bytes == view.OverflowPayload()[..take] + rest.value;
  }

  /** The item's next bytes are `other`. */
  ghost predicate NextIs(key: Bytes, item: Bytes, consumed: nat, other: Bytes) {
    && consumed <= |key| && consumed + |other| <= |item| && 0 < |other|
    && key[..consumed] == item[..consumed]
    && item[consumed..][..|other|] == other
  }

  lemma LessWhenExhausted(key: Bytes, item: Bytes, consumed: nat, other: Bytes)
    requires NextIs(key, item, consumed, other) && consumed >= |key|
    ensures Compare(key, item) == Less
  {
    hide Compare;
    assert key == key[..consumed];
    ProperPrefixLess(key, item);
  }

  lemma DecidedHere(key: Bytes, item: Bytes, consumed: nat, other: Bytes, cmpLen: nat)
    requires NextIs(key, item, consumed, other) && cmpLen <= |key| - consumed && cmpLen <= |other|
    requires Compare(key[consumed..][..cmpLen], other[..cmpLen]) != Equal
    ensures Compare(key, item) == Compare(key[consumed..][..cmpLen], other[..cmpLen])
  {
    hide Compare;
    CompareDrop(key, item, consumed);
    assert item[consumed..][..cmpLen] == other[..cmpLen];
    ComparePrefix(key[consumed..], item[consumed..], cmpLen);
  }

  lemma NoPrefix(key: Bytes, part: Bytes, consumed: nat, other: Bytes, cmpLen: nat)
    requires consumed <= |key| && part == key[..consumed] + other && cmpLen <= |key| - consumed && cmpLen <= |other|
    requires Compare(key[consumed..][..cmpLen], other[..cmpLen]) != Equal
    ensures !(part <= key)
  {
    hide Compare;
    if part <= key {
      PrefixAgrees(key, part, consumed, other, cmpLen);
      SameIsEqual(key[consumed..][..cmpLen], other[..cmpLen]);
    }
  }

  lemma PrefixAgrees(key: Bytes, part: Bytes, consumed: nat, other: Bytes, cmpLen: nat)
    requires consumed <= |key| && part == key[..consumed] + other && part <= key && cmpLen <= |other|
    ensures key[consumed..][..cmpLen] == other[..cmpLen]
  {
    assert key[consumed..][..|other|] == key[..|part|][consumed..] == other;
    assert key[consumed..][..cmpLen] == key[consumed..][..|other|][..cmpLen];
  }

  lemma SameIsEqual(a: Bytes, b: Bytes)
    ensures a == b ==> Compare(a, b) == Equal
  {
  }

  lemma LessWhenPrefix(key: Bytes, item: Bytes, consumed: nat, other: Bytes)
    requires NextIs(key, item, consumed, other) && |key| - consumed < |other|
    requires key[consumed..][..|key| - consumed] == other[..|key| - consumed]
    ensures Compare(key, item) == Less
  {
    hide Compare;
    CompareDrop(key, item, consumed);
    var rest := key[consumed..];
    assert rest == rest[..|rest|] == other[..|rest|] == item[consumed..][..|rest|];
    ProperPrefixLess(rest, item[consumed..]);
  }

  lemma SamePage(key: Bytes, item: Bytes, consumed: nat, other: Bytes)
    requires NextIs(key, item, consumed, other) && |other| <= |key| - consumed
    requires key[consumed..][..|other|] == other[..|other|]
    ensures key[..consumed + |other|] == item[..consumed + |other|]
    ensures item[consumed..][|other|..] == item[consumed + |other|..]
  {
    var n := consumed + |other|;
    assert key[..n] == key[..consumed] + key[consumed..][..|other|];
    assert item[..n] == item[..consumed] + item[consumed..][..|other|];
    assert other[..|other|] == other;
  }

  lemma LengthDecides(key: Bytes, item: Bytes, total: nat)
    requires total == |item| && total <= |key| && key[..total] == item[..total]
    ensures Compare(key, item) == if |key| == total then Equal else Greater
  {
    assert item[..total] == item;
    if |key| == total {
      assert key[..total] == key;
    } else {
      ProperPrefixLess(item, key);
    }
  }
}
