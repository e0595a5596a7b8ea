/** A writer-owned page buffer, edited in place.

    Reads take the buffer's bytes; writes take the buffer.  The conditions the
    original checks by panicking are preconditions here.
  */
module PageBufs {
  import opened Bytes
  import opened Format
  import opened Entries
  import opened Layout

  // ----- reads -----

  function Lower(b: Bytes): u16 requires 20 <= |b| { U16At(b, 16, false) }

  function Upper(b: Bytes): u16 requires 20 <= |b| { U16At(b, 18, false) }

  function Flags(b: Bytes): u32 requires 20 <= |b| { U32At(b, 12, false) }

  function NEntries(b: Bytes): nat
    requires 20 <= |b| && PAGE_HEADER_SIZE <= Lower(b)
  {
    (Lower(b) - PAGE_HEADER_SIZE) / 2
  }

  /** Same bytes at every offset outside `[lo, hi)`. */
  twostate predicate SameOutside(a: array<byte>, lo: int, hi: int)
    reads a
  {
    forall k | 0 <= k < a.Length && !(lo <= k < hi) :: a[k] == old(a[k])
  }

  // ----- primitive writes -----

  method WriteU16(a: array<byte>, off: nat, v: u16)
    requires off + 2 <= a.Length
    modifies a
    ensures U16At(a[..], off, false) == v
    ensures SameOutside(a, off, off + 2)
  {
    a[off], a[off + 1] := v % 0x100, v / 0x100;
  }

  method WriteU32(a: array<byte>, off: nat, v: u32)
    requires off + 4 <= a.Length
    modifies a
    ensures U32At(a[..], off, false) == v
    ensures SameOutside(a, off, off + 4)
  {
    hide ByteOf, Quad;
    a[off], a[off + 1] := ByteOf(v, 1), ByteOf(v, 0x100);
    a[off + 2], a[off + 3] := ByteOf(v, 0x1_0000), ByteOf(v, 0x100_0000);
    BytesOfWord(v);
  }

  function ByteOf(v: u32, unit: nat): byte
    requires unit > 0
  {
    v / unit % 0x100
  }

  lemma BytesOfWord(v: u32)
    ensures Quad(ByteOf(v, 1), ByteOf(v, 0x100), ByteOf(v, 0x1_0000), ByteOf(v, 0x100_0000)) == v
  {
    var a, b, c := v / 0x100, v / 0x1_0000, v / 0x100_0000;
    assert a / 0x100 == b && b / 0x100 == c;
  }

  method CopyFromSlice(a: array<byte>, off: nat, data: Bytes)
    requires off + |data| <= a.Length
    modifies a
    ensures a[off..off + |data|] == data
    ensures SameOutside(a, off, off + |data|)
  {
    forall k | 0 <= k < |data| {
      a[off + k] := data[k];
    }
  }

  /** `copy_within(lo..hi, to)`: a move between possibly overlapping ranges. */
  method CopyWithin(a: array<byte>, lo: nat, hi: nat, to: nat)
    requires lo <= hi <= a.Length && to + (hi - lo) <= a.Length
    modifies a
    ensures a[to..to + (hi - lo)] == old(a[lo..hi])
    ensures SameOutside(a, to, to + (hi - lo))
  {
    forall k | 0 <= k < hi - lo {
      a[to + k] := a[lo + k];
    }
  }

  method SetLower(a: array<byte>, v: nat)
    requires PageSized(a[..]) && v <= MAX_PSIZE
    modifies a
    ensures Lower(a[..]) == v && SameOutside(a, 16, 18)
  {
    WriteU16(a, 16, v);
  }

  method SetUpper(a: array<byte>, v: nat)
    requires PageSized(a[..]) && v <= MAX_PSIZE
    modifies a
    ensures Upper(a[..]) == v && SameOutside(a, 18, 20)
  {
    WriteU16(a, 18, v);
  }

  method SetLinp(a: array<byte>, i: nat, v: nat)
    requires PAGE_HEADER_SIZE + 2 * i + 2 <= a.Length && v < MAX_PSIZE
    modifies a
    ensures SlotOff(a[..], false, i) == v
    ensures SameOutside(a, PAGE_HEADER_SIZE + 2 * i, PAGE_HEADER_SIZE + 2 * i + 2)
  {
    WriteU16(a, PAGE_HEADER_SIZE + 2 * i, v);
  }

  /** Open `linp[idx]` for an entry of `nbytes`, moving later slots up by one.
      The new slot names `upper - nbytes`, which becomes the new `upper`. */
  method ReserveSlot(a: array<byte>, idx: nat, nbytes: nat) returns (newUpper: nat)
    requires PageSized(a[..])
    requires PAGE_HEADER_SIZE <= Lower(a[..]) <= Upper(a[..]) <= a.Length
    requires Lower(a[..]) % 2 == 0
    requires idx <= NEntries(a[..])
    requires nbytes == AlignEntry(nbytes) && 0 < nbytes
    requires Upper(a[..]) - Lower(a[..]) >= nbytes + 2
    modifies a
    ensures newUpper == old(Upper(a[..])) - nbytes
    ensures Lower(a[..]) == old(Lower(a[..])) + 2 && Upper(a[..]) == newUpper
    ensures forall i | 0 <= i < idx :: SlotOff(a[..], false, i) == old(SlotOff(a[..], false, i))
    ensures SlotOff(a[..], false, idx) == newUpper
    ensures forall i | idx < i <= old(NEntries(a[..])) :: SlotOff(a[..], false, i) == old(SlotOff(a[..], false, i - 1))
    ensures SameOutside(a, 16, old(Lower(a[..])) + 2)
  {
    hide AlignEntry, Pair;
    var n := NEntries(a[..]);
    var lower := Lower(a[..]);
    var upper := Upper(a[..]);
    assert lower == PAGE_HEADER_SIZE + 2 * n;
    if idx < n {
      var start := PAGE_HEADER_SIZE + idx * 2;
      var end := PAGE_HEADER_SIZE + n * 2;
      CopyWithin(a, start, end, start + 2);
    }
    newUpper := upper - nbytes;
    label Shifted:
    ghost var b1 := a[..];
    ShiftedSlots(old(a[..]), a[..], idx, n);
    SetLinp(a, idx, newUpper);
    SetLower(a, lower + 2);
    SetUpper(a, newUpper);
    OtherSlots(b1, a[..], idx, n + 1);
  }

  /** Slots moved up by one read one place later. */
  lemma ShiftedSlots(b0: Bytes, b: Bytes, idx: nat, n: nat)
    requires |b| == |b0| && idx <= n && PAGE_HEADER_SIZE + 2 * n + 2 <= |b|
    requires b[PAGE_HEADER_SIZE + 2 * idx + 2..PAGE_HEADER_SIZE + 2 * n + 2]
        == b0[PAGE_HEADER_SIZE + 2 * idx..PAGE_HEADER_SIZE + 2 * n]
    ensures forall i | idx < i <= n :: SlotOff(b, false, i) == SlotOff(b0, false, i - 1)
  {
    hide Pair;
    var x := b[PAGE_HEADER_SIZE + 2 * idx + 2..PAGE_HEADER_SIZE + 2 * n + 2];
    forall i | idx < i <= n ensures SlotOff(b, false, i) == SlotOff(b0, false, i - 1) {
      var k := 2 * (i - idx - 1);
      assert x[k] == b[PAGE_HEADER_SIZE + 2 * i] == b0[PAGE_HEADER_SIZE + 2 * (i - 1)];
      assert x[k + 1] == b[PAGE_HEADER_SIZE + 2 * i + 1] == b0[PAGE_HEADER_SIZE + 2 * (i - 1) + 1];
    }
  }

  /** Writing one slot, and bytes before the slots, leaves the other slots. */
  lemma OtherSlots(b0: Bytes, b: Bytes, i: nat, n: nat)
    requires |b| == |b0| && PAGE_HEADER_SIZE + 2 * n <= |b|
    requires forall k | PAGE_HEADER_SIZE <= k < |b| ::
               b[k] == b0[k] || PAGE_HEADER_SIZE + 2 * i <= k < PAGE_HEADER_SIZE + 2 * i + 2
    ensures forall j | 0 <= j < n && j != i :: SlotOff(b, false, j) == SlotOff(b0, false, j)
  {
    hide Pair;
  }

  // ----- entry payloads -----

  /** Two words and a zero flag byte. */
  method WriteEntryHeader(a: array<byte>, off: nat, w0: u32, w1: u32)
    requires off + 9 <= a.Length
    modifies a
    ensures U32At(a[..], off, false) == w0 && U32At(a[..], off + 4, false) == w1 && a[off + 8] == 0
    ensures SameOutside(a, off, off + 9)
  {
    hide Quad;
    WriteU32(a, off, w0);
    WriteU32(a, off + 4, w1);
    a[off + 8] := 0;
  }

  /** A header in `b1` and a payload added in `b` make an encoded entry. */
  lemma HeaderThenPayload(b1: Bytes, b: Bytes, off: nat, e: Entry)
    requires |b| == |b1| && off + 9 + |Payload(e)| <= |b|
    requires U32At(b1, off, false) == |e.key| && U32At(b1, off + 4, false) == SecondWord(e) && b1[off + 8] == 0
    requires forall k | off <= k < off + 9 :: b[k] == b1[k]
    requires b[off + 9..off + 9 + |Payload(e)|] == Payload(e)
    ensures EntryAt(b, false, off, e)
  {
    hide Quad, Payload;
  }

  /** Encode a leaf record at `off`. */
  method WriteBleafInline(a: array<byte>, off: nat, key: Bytes, val: Bytes)
    requires off + BLEAF_HEADER_SIZE + |key| + |val| <= a.Length <= MAX_PSIZE
    modifies a
    ensures EntryAt(a[..], false, off, Leaf(key, val))
    ensures SameOutside(a, off, off + BLEAF_HEADER_SIZE + |key| + |val|)
  {
    hide U32At, EntryAt;
    WriteEntryHeader(a, off, |key|, |val|);
    ghost var b1 := a[..];
    var keyPos := off + BLEAF_HEADER_SIZE;
    CopyFromSlice(a, keyPos, key);
    var valPos := keyPos + |key|;
    ghost var b2 := a[keyPos..valPos];
    CopyFromSlice(a, valPos, val);
    assert a[keyPos..valPos] == b2;
    assert a[..][keyPos..valPos + |val|] == a[keyPos..valPos] + a[valPos..valPos + |val|] == key + val;
    HeaderThenPayload(b1, a[..], off, Leaf(key, val));
  }

  /** Encode a separator at `off`, keeping the first `ksize` bytes of `key`. */
  method WriteBinternalInline(a: array<byte>, off: nat, ksize: nat, key: Bytes, child: u32)
    requires ksize <= |key| && off + BINTERNAL_HEADER_SIZE + ksize <= a.Length <= MAX_PSIZE
    modifies a
    ensures EntryAt(a[..], false, off, Sep(key[..ksize], child))
    ensures SameOutside(a, off, off + BINTERNAL_HEADER_SIZE + ksize)
  {
    hide U32At, EntryAt;
    WriteEntryHeader(a, off, ksize, child);
    ghost var b1 := a[..];
    var keyPos := off + BINTERNAL_HEADER_SIZE;
    CopyFromSlice(a, keyPos, key[..ksize]);
    assert a[..][keyPos..keyPos + ksize] == a[keyPos..keyPos + ksize];
    HeaderThenPayload(b1, a[..], off, Sep(key[..ksize], child));
  }
}
