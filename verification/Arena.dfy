/** The flat page arena: every page back to back, indexed by page number. */
module Arena {
  import opened Bytes
  import opened Format
  import opened Entries
  import opened Layout

  function PageOff(psize: nat, p: nat): nat {
    p * psize
  }

  lemma {:induction false} PageOffs(psize: nat, p: nat, q: nat)
    requires p < q
    ensures PageOff(psize, p + 1) == PageOff(psize, p) + psize <= PageOff(psize, q)
  {
    OneLess(p + 1, psize);
    if p + 1 < q {
      PageOffs(psize, p, q - 1);
      OneLess(q, psize);
    }
  }

  /** The bytes of page `p`. */
  function PageBytes(pages: Bytes, psize: nat, p: nat): Bytes
    requires PageOff(psize, p) + psize <= |pages|
  {
    pages[PageOff(psize, p)..PageOff(psize, p) + psize]
  }

  ghost predicate PackedAt(pages: Bytes, psize: nat, swap: bool, p: nat, pg: Page) {
    PageOff(psize, p) + psize <= |pages| && Packed(PageBytes(pages, psize, p), swap, pg)
  }

  /** The arena encodes the pages of `P`; page 0 is the meta page. */
  ghost predicate Stores(pages: Bytes, psize: nat, swap: bool, P: seq<Page>) {
    && MIN_PSIZE <= psize <= MAX_PSIZE
    && |pages| == PageOff(psize, |P|)
    && forall p | 1 <= p < |P| :: PackedAt(pages, psize, swap, p, P[p])
  }

  function Replace(pages: Bytes, psize: nat, p: nat, buf: Bytes): Bytes
    requires PageOff(psize, p) + psize <= |pages|
  {
    pages[..PageOff(psize, p)] + buf + pages[PageOff(psize, p) + psize..]
  }

  lemma ReplacedPage(pages: Bytes, psize: nat, p: nat, buf: Bytes, q: nat)
    requires |buf| == psize && PageOff(psize, p) + psize <= |pages| && PageOff(psize, q) + psize <= |pages|
    requires q < p ==> PageOff(psize, q) + psize <= PageOff(psize, p)
    requires p < q ==> PageOff(psize, p) + psize <= PageOff(psize, q)
    ensures |Replace(pages, psize, p, buf)| == |pages|
    ensures PageBytes(Replace(pages, psize, p, buf), psize, q) == if q == p then buf else PageBytes(pages, psize, q)
  {
    hide PageOff;
    var lo, hi := PageOff(psize, q), PageOff(psize, q) + psize;
    var at := PageOff(psize, p);
    var a, c := pages[..at], pages[at + psize..];
    SliceOfConcat(a + buf, c, lo, hi);
    if q <= p {
      SliceOfConcat(a, buf, lo, hi);
    } else {
      SliceOfSlice(pages, at + psize, |pages|, lo - (at + psize), hi - (at + psize));
    }
  }

  lemma ReplaceStores(pages: Bytes, psize: nat, swap: bool, P: seq<Page>, p: nat, buf: Bytes, pg: Page)
    requires Stores(pages, psize, swap, P) && 1 <= p < |P| && |buf| == psize && Packed(buf, swap, pg)
    ensures PageOff(psize, p) + psize <= |pages|
    ensures Stores(Replace(pages, psize, p, buf), psize, swap, P[p := pg])
  {
    hide Packed, PageOff;
    PageOffs(psize, p, |P|);
    var pages', Q := Replace(pages, psize, p, buf), P[p := pg];
    forall q | 1 <= q < |Q| ensures PackedAt(pages', psize, swap, q, Q[q]) {
      PageOffs(psize, q, |P|);
      if q < p {
        PageOffs(psize, q, p);
      } else if q > p {
        PageOffs(psize, p, q);
      }
      ReplacedPage(pages, psize, p, buf, q);
      assert q != p ==> PackedAt(pages, psize, swap, q, P[q]);
    }
  }

  lemma PushStores(pages: Bytes, psize: nat, swap: bool, P: seq<Page>, buf: Bytes, pg: Page)
    requires Stores(pages, psize, swap, P) && 1 <= |P| && |buf| == psize && Packed(buf, swap, pg)
    ensures Stores(pages + buf, psize, swap, P + [pg])
  {
    hide Packed, PageOff;
    PageOffs(psize, |P|, |P| + 1);
    var pages', Q := pages + buf, P + [pg];
    forall q | 1 <= q < |Q| ensures PackedAt(pages', psize, swap, q, Q[q]) {
      PageOffs(psize, q, |Q|);
      if q < |P| {
        PageOffs(psize, q, |P|);
        assert PackedAt(pages, psize, swap, q, P[q]);
        assert PageBytes(pages', psize, q) == PageBytes(pages, psize, q);
      } else {
        assert PageBytes(pages', psize, q) == buf;
      }
    }
  }

  // ----- counting pages -----

  lemma {:induction false} Quotient(n: nat, q: nat, d: nat, r: nat)
    requires n * d == q * d + r && r < d
    ensures n == q
  {
    if n > 0 && q > 0 {
      OneLess(n, d);
      OneLess(q, d);
      Quotient(n - 1, q - 1, d, r);
    } else if n > 0 {
      OneLess(n, d);
    } else if q > 0 {
      OneLess(q, d);
    }
  }

  lemma OneLess(n: nat, d: nat)
    requires n > 0
    ensures n * d == (n - 1) * d + d >= d
  {}

  lemma DivOfProduct(n: nat, d: nat)
    requires d > 0
    ensures n * d / d == n
  {
    var x := n * d;
    Divide(x, n, d);
  }

  lemma ModOfProduct(n: nat, d: nat)
    requires d > 0
    ensures PageOff(d, n) % d == 0
  {
    var x := n * d;
    Divide(x, n, d);
    assert x == (x / d) * d + x % d;
  }

  lemma Divide(x: nat, n: nat, d: nat)
    requires d > 0 && x == n * d
    ensures x / d == n
  {
    var q, r := x / d, x % d;
    assert x == q * d + r;
    Quotient(n, q, d, r);
  }
}
