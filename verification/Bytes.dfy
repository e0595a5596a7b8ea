/** Byte strings, their order, and the integers stored in them.

    Keys compare as raw bytes, unsigned, shorter-first: the order of
    `<[u8] as Ord>::cmp`.  Multi-byte fields are little-endian on the modelled
    host; `swap` reads the opposite byte order.
  */
module Bytes {

  type byte = x: int | 0 <= x < 0x100
  type u16 = x: int | 0 <= x < 0x1_0000
  type u32 = x: int | 0 <= x < 0x1_0000_0000
  type Bytes = seq<byte>

  datatype Option<+T> = None | Some(value: T)

  datatype Ordering = Less | Equal | Greater

  /** `a` sorts strictly before `b`. */
  predicate Lt(a: Bytes, b: Bytes) {
    b != [] && (a == [] || a[0] < b[0] || (a[0] == b[0] && Lt(a[1..], b[1..])))
  }

  predicate Le(a: Bytes, b: Bytes) {
    a == b || Lt(a, b)
  }

  function Compare(a: Bytes, b: Bytes): Ordering {
    if a == b then Equal else if Lt(a, b) then Less else Greater
  }

  lemma {:induction false} LtIrreflexive(a: Bytes)
    ensures !Lt(a, a)
  {
    if a != [] {
      LtIrreflexive(a[1..]);
    }
  }

  lemma {:induction false} LtTotal(a: Bytes, b: Bytes)
    ensures Lt(a, b) || a == b || Lt(b, a)
  {
    if a != [] && b != [] && a[0] == b[0] {
      LtTotal(a[1..], b[1..]);
      assert a == [a[0]] + a[1..] && b == [b[0]] + b[1..];
    }
  }

  lemma {:induction false} LtTransitive(a: Bytes, b: Bytes, c: Bytes)
    requires Lt(a, b) && Lt(b, c)
    ensures Lt(a, c)
  {
    if a != [] && a[0] == b[0] == c[0] {
      LtTransitive(a[1..], b[1..], c[1..]);
    }
  }

  /** `Lt` is a strict total order, in the form other proofs consume. */
  lemma OrderLaws()
    ensures forall a: Bytes :: !Lt(a, a) && !Lt(a, [])
    ensures forall a: Bytes, b: Bytes :: Lt(a, b) || a == b || Lt(b, a)
    ensures forall a: Bytes, b: Bytes, c: Bytes :: Lt(a, b) && Lt(b, c) ==> Lt(a, c)
  {
    forall a: Bytes ensures !Lt(a, a) && !Lt(a, []) { LtIrreflexive(a); }
    forall a: Bytes, b: Bytes ensures Lt(a, b) || a == b || Lt(b, a) { LtTotal(a, b); }
    forall a: Bytes, b: Bytes, c: Bytes | Lt(a, b) && Lt(b, c) ensures Lt(a, c) { LtTransitive(a, b, c); }
  }

  /** `a` and `b` agree before byte `i`, where `a` ends or has the smaller number. */
  predicate SmallerAt(a: Bytes, b: Bytes, i: nat) {
    i <= |a| && i < |b| && a[..i] == b[..i] && (i == |a| || a[i] < b[i])
  }

  /** The order is the dictionary order on bytes as numbers from 0 to 255. */
  lemma {:induction false} LtIsLexicographic(a: Bytes, b: Bytes)
    ensures Lt(a, b) <==> exists i: nat :: SmallerAt(a, b, i)
  {
    if a == [] {
      assert b != [] ==> SmallerAt(a, b, 0);
    } else if b != [] {
      LtIsLexicographic(a[1..], b[1..]);
      assert a[0] < b[0] ==> SmallerAt(a, b, 0);
      if a[0] == b[0] {
        forall i: nat | SmallerAt(a[1..], b[1..], i) ensures SmallerAt(a, b, i + 1) {
          assert a[..i + 1] == [a[0]] + a[1..][..i] && b[..i + 1] == [b[0]] + b[1..][..i];
        }
      }
      forall i: nat | i > 0 && SmallerAt(a, b, i) ensures a[0] == b[0] && SmallerAt(a[1..], b[1..], i - 1) {
        assert a[0] == a[..i][0] == b[..i][0] == b[0];
        assert a[1..][..i - 1] == a[..i][1..] == b[..i][1..] == b[1..][..i - 1];
      }
      if a[0] == b[0] && Lt(a, b) {
        var i: nat :| SmallerAt(a[1..], b[1..], i);
        assert SmallerAt(a, b, i + 1);
      }
    }
  }

  /** The three answers of a comparison. */
  lemma CompareIs(a: Bytes, b: Bytes)
    ensures Compare(a, b) == Less <==> exists i: nat :: SmallerAt(a, b, i)
    ensures Compare(a, b) == Equal <==> a == b
    ensures Compare(a, b) == Greater <==> exists i: nat :: SmallerAt(b, a, i)
  {
    hide Lt, SmallerAt;
    OrderLaws();
    LtIsLexicographic(a, b);
    LtIsLexicographic(b, a);
    assert Lt(a, b) ==> !Lt(b, a);
  }

  // ----- fixed-width fields -----

  function Pair(b0: int, b1: int): int {
    b0 + b1 * 0x100
  }

  function Quad(b0: int, b1: int, b2: int, b3: int): int {
    b0 + b1 * 0x100 + b2 * 0x1_0000 + b3 * 0x100_0000
  }

  function U16At(b: Bytes, off: nat, swap: bool): u16
    requires off + 2 <= |b|
  {
    if swap then Pair(b[off + 1], b[off]) else Pair(b[off], b[off + 1])
  }

  function U32At(b: Bytes, off: nat, swap: bool): u32
    requires off + 4 <= |b|
  {
    if swap then Quad(b[off + 3], b[off + 2], b[off + 1], b[off])
    else Quad(b[off], b[off + 1], b[off + 2], b[off + 3])
  }

  lemma U16Frame(b0: Bytes, b: Bytes, off: nat, swap: bool)
    requires |b| == |b0| && off + 2 <= |b| && b[off] == b0[off] && b[off + 1] == b0[off + 1]
    ensures U16At(b, off, swap) == U16At(b0, off, swap)
  {
  }

  // ----- sequence helpers -----

  function InsertAt<T>(s: seq<T>, i: nat, x: T): seq<T>
    requires i <= |s|
  {
    s[..i] + [x] + s[i..]
  }

  lemma SliceOfSlice<T>(s: seq<T>, lo: nat, hi: nat, i: nat, j: nat)
    requires lo <= hi <= |s| && i <= j <= hi - lo
    ensures s[lo..hi][i..j] == s[lo + i..lo + j]
  {
    var x, y := s[lo..hi][i..j], s[lo + i..lo + j];
    assert forall k | 0 <= k < j - i :: x[k] == s[lo..hi][i + k] == y[k];
  }

  lemma SliceOfConcat<T>(a: seq<T>, b: seq<T>, lo: nat, hi: nat)
    requires lo <= hi <= |a| + |b|
    ensures hi <= |a| ==> (a + b)[lo..hi] == a[lo..hi]
    ensures lo >= |a| ==> (a + b)[lo..hi] == b[lo - |a|..hi - |a|]
  {
    var x := (a + b)[lo..hi];
    assert forall k | 0 <= k < hi - lo :: x[k] == (a + b)[lo + k];
  }

  lemma SameSlice<T>(s: seq<T>, t: seq<T>, lo: nat, hi: nat)
    requires lo <= hi <= |s| == |t|
    requires forall k | lo <= k < hi :: s[k] == t[k]
    ensures s[lo..hi] == t[lo..hi]
  {
  }

  /** Where the elements of `s` are after an insertion. */
  lemma InsertIndex<T>(s: seq<T>, i: nat, x: T, k: nat)
    requires i <= |s| && k <= |s|
    ensures |InsertAt(s, i, x)| == |s| + 1
    ensures InsertAt(s, i, x)[k] == if k < i then s[k] else if k == i then x else s[k - 1]
  {
  }

  function RemoveAt<T>(s: seq<T>, i: nat): seq<T>
    requires i < |s|
  {
    s[..i] + s[i + 1..]
  }
}
