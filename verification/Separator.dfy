/** Separators travelling up from a split, and their prefix compression. */
module Separators {
  import opened Bytes
  import opened Format
  import opened Entries

  datatype Separator =
    | LeafSep(sepKey: Bytes, child: u32, lLastKey: Bytes)
    | InternalSep(sepKey: Bytes, child: u32, ksize: nat)
  {
    /** Key length and aligned entry size to store in a parent at slot `skip`.  A
        separator from a leaf is cut to the bytes that tell it from the left
        leaf's last key, when the slot allows it and it saves space. */
    function EncodedSize(parentPrevPg: u32, skip: nat): (nat, nat) {
      match this
      case InternalSep(_, _, ksize) => (ksize, AlignEntry(BINTERNAL_HEADER_SIZE + ksize))
      case LeafSep(_, _, _) =>
        var full := |sepKey|;
        var fullNBytes := AlignEntry(BINTERNAL_HEADER_SIZE + full);
        var allowPfx := parentPrevPg != P_INVALID || skip > 1;
        if !allowPfx then (full, fullNBytes)
        else
          var pfxLen := BtDefpfx(lLastKey, sepKey);
          var compressed := AlignEntry(BINTERNAL_HEADER_SIZE + pfxLen);
          if compressed < fullNBytes then (pfxLen, compressed) else (full, fullNBytes)
    }

    ghost predicate Ok() {
      match this
      case LeafSep(_, _, _) => Lt(lLastKey, sepKey)
      case InternalSep(_, _, _) => ksize <= |sepKey|
    }

    /** The key bytes that end up in the parent. */
    function Stored(parentPrevPg: u32, skip: nat): Bytes {
      sepKey[..Min(EncodedSize(parentPrevPg, skip).0, |sepKey|)]
    }
  }

  function Min(a: nat, b: nat): nat {
    if a < b then a else b
  }

  /** Length of the longest common prefix. */
  function CommonPrefix(a: Bytes, b: Bytes): (n: nat)
    ensures n <= |a| && n <= |b|
  {
    if a != [] && b != [] && a[0] == b[0] then 1 + CommonPrefix(a[1..], b[1..]) else 0
  }

  /** Bytes of `b` needed to sort after `a`, for `a < b`. */
  function BtDefpfx(a: Bytes, b: Bytes): nat {
    var i := CommonPrefix(a, b);
    if i < |a| && i < |b| then i + 1
    else if |a| < |b| then |a| + 1
    else |a|
  }

  lemma {:induction false} PrefixNotAfter(b: Bytes, n: nat)
    requires n <= |b|
    ensures Le(b[..n], b)
  {
    if 0 < n < |b| {
      PrefixNotAfter(b[1..], n - 1);
      assert b[..n][1..] == b[1..][..n - 1];
    } else if n == |b| {
      assert b[..n] == b;
    }
  }

  /** The compressed separator still sorts after everything on the left and not
      after the right page's first key, and no shorter prefix would do. */
  lemma {:induction false} PrefixSeparates(a: Bytes, b: Bytes)
    requires Lt(a, b)
    ensures 1 <= BtDefpfx(a, b) <= |b|
    ensures Lt(a, b[..BtDefpfx(a, b)]) && Le(b[..BtDefpfx(a, b)], b)
    ensures forall j | 0 <= j < BtDefpfx(a, b) :: !Lt(a, b[..j])
  {
    if a == [] || a[0] < b[0] {
      forall j | 0 <= j < BtDefpfx(a, b) ensures !Lt(a, b[..j]) {
        assert b[..j] == [];
      }
    } else {
      PrefixSeparates(a[1..], b[1..]);
      var n := BtDefpfx(a[1..], b[1..]);
      assert BtDefpfx(a, b) == n + 1;
      assert b[..n + 1][1..] == b[1..][..n];
      forall j | 0 <= j < n + 1 ensures !Lt(a, b[..j]) {
        if j > 0 {
          assert b[..j][1..] == b[1..][..j - 1];
        }
      }
    }
    PrefixNotAfter(b, BtDefpfx(a, b));
  }

  /** The stored key of a leaf separator lies strictly above the left leaf and not
      above the right one; its aligned size is the one announced. */
  lemma StoredSeparates(sep: Separator, prev: u32, skip: nat)
    requires sep.Ok()
    ensures var (nksize, nbytes) := sep.EncodedSize(prev, skip);
      && nksize <= |sep.sepKey|
      && sep.Stored(prev, skip) == sep.sepKey[..nksize]
      && nbytes == EntrySize(Sep(sep.sepKey[..nksize], sep.child))
    ensures sep.LeafSep? ==> Lt(sep.lLastKey, sep.Stored(prev, skip)) && Le(sep.Stored(prev, skip), sep.sepKey)
  {
    hide Lt, AlignEntry, BtDefpfx, EntrySize;
    var nksize := sep.EncodedSize(prev, skip).0;
    if sep.LeafSep? {
      PrefixSeparates(sep.lLastKey, sep.sepKey);
      assert sep.sepKey[..|sep.sepKey|] == sep.sepKey;
    }
    SepSize(sep.sepKey[..nksize], sep.child);
  }

  /** The stored key is whole next to a level's first entry; elsewhere its entry
      takes no more bytes than any prefix of the key that separates would. */
  lemma StoredIsSmallest(sep: Separator, prev: u32, skip: nat, j: nat)
    requires sep.LeafSep? && sep.Ok() && j <= |sep.sepKey|
    ensures prev == P_INVALID && skip <= 1 ==> sep.Stored(prev, skip) == sep.sepKey
    ensures (prev != P_INVALID || skip > 1) && Lt(sep.lLastKey, sep.sepKey[..j]) ==>
              EntrySize(Sep(sep.Stored(prev, skip), sep.child)) <= EntrySize(Sep(sep.sepKey[..j], sep.child))
  {
    hide Lt, AlignEntry, BtDefpfx, EntrySize;
    assert sep.sepKey[..|sep.sepKey|] == sep.sepKey;
    StoredSeparates(sep, prev, skip);
    if (prev != P_INVALID || skip > 1) && Lt(sep.lLastKey, sep.sepKey[..j]) {
      PrefixSeparates(sep.lLastKey, sep.sepKey);
      AlignMonotone(BINTERNAL_HEADER_SIZE + BtDefpfx(sep.lLastKey, sep.sepKey), BINTERNAL_HEADER_SIZE + j);
      SepSize(sep.sepKey[..j], sep.child);
    }
  }

  /** The stored key, byte for byte.  With `n` the length of the shortest prefix that
      sorts after the left leaf, it is that prefix where compression is allowed and
      makes the aligned entry smaller, and the whole key otherwise. */
  lemma StoredIsExactly(sep: Separator, prev: u32, skip: nat) returns (n: nat)
    requires sep.LeafSep? && sep.Ok()
    ensures n <= |sep.sepKey| && Lt(sep.lLastKey, sep.sepKey[..n])
    ensures forall j | 0 <= j < n :: !Lt(sep.lLastKey, sep.sepKey[..j])
    ensures sep.Stored(prev, skip) ==
            if (prev != 0 || skip > 1)
               && EntrySize(Sep(sep.sepKey[..n], sep.child)) < EntrySize(Sep(sep.sepKey, sep.child))
            then sep.sepKey[..n] else sep.sepKey
  {
    hide Lt, AlignEntry, BtDefpfx, EntrySize;
    n := BtDefpfx(sep.lLastKey, sep.sepKey);
    PrefixSeparates(sep.lLastKey, sep.sepKey);
    assert sep.sepKey[..|sep.sepKey|] == sep.sepKey;
    SepSize(sep.sepKey[..n], sep.child);
    SepSize(sep.sepKey, sep.child);
  }

  /** A separator from an internal page is stored verbatim. */
  lemma InternalIsVerbatim(sep: Separator, prev: u32, skip: nat)
    requires sep.InternalSep? && sep.Ok()
    ensures sep.Stored(prev, skip) == sep.sepKey[..sep.ksize]
  {
  }

  lemma AlignMonotone(a: nat, b: nat)
    requires a <= b
    ensures AlignEntry(a) <= AlignEntry(b)
  {
  }

  /** Compression never changes which side of the separator a stored key is on:
      keys of the left leaf stay below it, keys of the right leaf do not. */
  lemma CompressionKeepsRouting(sep: Separator, prev: u32, skip: nat, k: Bytes)
    requires sep.LeafSep? && sep.Ok() && (Le(k, sep.lLastKey) || Le(sep.sepKey, k))
    ensures Lt(k, sep.Stored(prev, skip)) <==> Lt(k, sep.sepKey)
  {
    hide Lt, Separator.EncodedSize, Separator.Stored;
    OrderLaws();
    StoredSeparates(sep, prev, skip);
  }
}
