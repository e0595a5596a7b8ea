/** How the body of a page changes when one entry is placed. */
module LayoutChange {
  import opened Bytes
  import opened Format
  import opened Entries
  import opened Layout

  /** Every written slot but `t` is good above `upper`, and they are disjoint. */
  ghost predicate Others(b: Bytes, swap: bool, es: seq<Entry>, t: nat, hole: int, upper: int)
    requires PAGE_HEADER_SIZE + 2 * |es| <= |b|
  {
    && (forall i | 0 <= i < |es| && i != t && i != hole :: SlotOk(b, swap, i, es[i], upper))
    && (forall i, j | 0 <= i < j < |es| && i != t && j != t && i != hole && j != hole :: SlotsApart(b, swap, es, i, j))
  }

  /** Entry `es[t]` written just below `upper` joins the others. */
  lemma PlaceBelow(b: Bytes, swap: bool, es: seq<Entry>, t: nat, hole: int, upper: int)
    requires PageSized(b) && t < |es| && t != hole && upper <= |b|
    requires PAGE_HEADER_SIZE + 2 * |es| <= upper - EntrySize(es[t])
    requires U16At(b, 18, swap) == upper - EntrySize(es[t]) == |b| - Used(es, hole)
    requires SlotOff(b, swap, t) == upper - EntrySize(es[t])
    requires EntryAt(b, swap, upper - EntrySize(es[t]), es[t])
    requires Others(b, swap, es, t, hole, upper)
    ensures Body(b, swap, es, hole)
  {
    hide Used, EntrySize, EntryAt, U16At;
    EntrySizeBound(es[t]);
    forall i | 0 <= i < |es| && i != hole
      ensures SlotOk(b, swap, i, es[i], upper - EntrySize(es[t]))
    {
      if i != t {
        assert SlotOk(b, swap, i, es[i], upper);
      }
    }
    forall i, j | 0 <= i < j < |es| && i != hole && j != hole
      ensures SlotsApart(b, swap, es, i, j)
    {
      if i == t {
        assert SlotOk(b, swap, j, es[j], upper);
      } else if j == t {
        assert SlotOk(b, swap, i, es[i], upper);
      }
    }
  }

  /** Slot `i` of a page with slot `t` opened up was slot `From(t, i)` before. */
  function From(t: nat, i: nat): nat {
    if i < t then i else if i == 0 then 0 else i - 1
  }

  /** The slots of `b` are those of `b0` with slot `t` opened up. */
  ghost predicate ShiftedUp(b0: Bytes, b: Bytes, swap: bool, es: seq<Entry>, t: nat) {
    && PageSized(b) && |b0| == |b| && t <= |es|
    && Body(b0, swap, es, NO_HOLE)
    && PAGE_HEADER_SIZE + 2 * (|es| + 1) <= |b0| - Used(es, NO_HOLE)
    && (forall i | 0 <= i <= |es| && i != t :: SlotOff(b, swap, i) == SlotOff(b0, swap, From(t, i)))
    && (forall k | |b0| - Used(es, NO_HOLE) <= k < |b| :: b[k] == b0[k])
  }

  lemma ShiftedSlotOk(b0: Bytes, b: Bytes, swap: bool, es: seq<Entry>, t: nat, e: Entry, i: nat)
    requires ShiftedUp(b0, b, swap, es, t) && i <= |es| && i != t
    ensures SlotOk(b, swap, i, InsertAt(es, t, e)[i], |b0| - Used(es, NO_HOLE))
  {
    hide Used, EntrySize, SlotOk, U16At, SlotOff, Body, InsertAt;
    InsertIndex(es, t, e, i);
    BodySlot(b0, swap, es, NO_HOLE, From(t, i));
    SlotFrame(b0, b, swap, From(t, i), i, es[From(t, i)], |b0| - Used(es, NO_HOLE));
  }

  lemma ShiftedApart(b0: Bytes, b: Bytes, swap: bool, es: seq<Entry>, t: nat, e: Entry, i: nat, j: nat)
    requires ShiftedUp(b0, b, swap, es, t) && i < j <= |es| && i != t && j != t
    ensures PAGE_HEADER_SIZE + 2 * (|es| + 1) <= |b| && |InsertAt(es, t, e)| == |es| + 1
    ensures SlotsApart(b, swap, InsertAt(es, t, e), i, j)
  {
    hide Used, EntrySize, U16At, SlotOff, Body, InsertAt;
    InsertIndex(es, t, e, i);
    InsertIndex(es, t, e, j);
    UsedNonNegative(es, NO_HOLE);
    BodyApart(b0, swap, es, NO_HOLE, From(t, i), From(t, j));
  }

  /** With slot `t` opened up, the other slots keep their entries. */
  lemma OthersAfterShift(b0: Bytes, b: Bytes, swap: bool, es: seq<Entry>, t: nat, e: Entry)
    requires ShiftedUp(b0, b, swap, es, t)
    ensures PAGE_HEADER_SIZE + 2 * (|es| + 1) <= |b| && |InsertAt(es, t, e)| == |es| + 1
    ensures Others(b, swap, InsertAt(es, t, e), t, NO_HOLE, |b0| - Used(es, NO_HOLE))
  {
    hide Used, EntrySize, SlotOk, SlotsApart, U16At, SlotOff, Body, InsertAt, ShiftedUp;
    ShiftedRoom(b0, b, swap, es, t, e);
    var fs, upper := InsertAt(es, t, e), |b0| - Used(es, NO_HOLE);
    forall i | 0 <= i < |fs| && i != t ensures SlotOk(b, swap, i, fs[i], upper) {
      ShiftedSlotOk(b0, b, swap, es, t, e, i);
    }
    forall i, j | 0 <= i < j < |fs| && i != t && j != t ensures SlotsApart(b, swap, fs, i, j) {
      ShiftedApart(b0, b, swap, es, t, e, i, j);
    }
  }

  lemma ShiftedRoom(b0: Bytes, b: Bytes, swap: bool, es: seq<Entry>, t: nat, e: Entry)
    requires ShiftedUp(b0, b, swap, es, t)
    ensures t <= |es| && PAGE_HEADER_SIZE + 2 * (|es| + 1) <= |b| && |InsertAt(es, t, e)| == |es| + 1
  {
    hide EntrySize, U16At, SlotOff, Body;
    UsedNonNegative(es, NO_HOLE);
  }

  lemma OthersInPlace(b0: Bytes, b: Bytes, swap: bool, es: seq<Entry>, t: nat, e: Entry, hole: int)
    requires PageSized(b) && |b0| == |b| && t == |es|
    requires Body(b0, swap, es, hole)
    requires PAGE_HEADER_SIZE + 2 * (|es| + 1) <= |b0| - Used(es, hole)
    requires forall i | 0 <= i < |es| && i != hole :: SlotOff(b, swap, i) == SlotOff(b0, swap, i)
    requires forall k | |b0| - Used(es, hole) <= k < |b| :: b[k] == b0[k]
    ensures Others(b, swap, es + [e], t, hole, |b0| - Used(es, hole))
  {
    hide Used, EntrySize, EntryAt, U16At, SlotOff;
    var upper := |b0| - Used(es, hole);
    forall i | 0 <= i < |es| && i != hole
      ensures SlotOk(b, swap, i, es[i], upper)
    {
      assert SlotOk(b0, swap, i, es[i], upper);
      SlotFrame(b0, b, swap, i, i, es[i], upper);
    }
    forall i, j | 0 <= i < j < |es| && i != hole && j != hole
      ensures SlotsApart(b, swap, es + [e], i, j)
    {
      assert SlotsApart(b0, swap, es, i, j);
    }
  }

  lemma OthersAtHole(b0: Bytes, b: Bytes, swap: bool, es: seq<Entry>, t: nat)
    requires PageSized(b) && |b0| == |b| && t < |es|
    requires Body(b0, swap, es, t)
    requires forall i | 0 <= i < |es| && i != t :: SlotOff(b, swap, i) == SlotOff(b0, swap, i)
    requires forall k | |b0| - Used(es, t) <= k < |b| :: b[k] == b0[k]
    ensures Others(b, swap, es, t, NO_HOLE, |b0| - Used(es, t))
  {
    hide Used, EntrySize, EntryAt, U16At, SlotOff;
    var upper := |b0| - Used(es, t);
    forall i | 0 <= i < |es| && i != t
      ensures SlotOk(b, swap, i, es[i], upper)
    {
      assert SlotOk(b0, swap, i, es[i], upper);
      SlotFrame(b0, b, swap, i, i, es[i], upper);
    }
    forall i, j | 0 <= i < j < |es| && i != t && j != t
      ensures SlotsApart(b, swap, es, i, j)
    {
      assert SlotsApart(b0, swap, es, i, j);
    }
  }

  /** Reserving the next slot writes nothing. */
  lemma ReserveHole(b: Bytes, swap: bool, es: seq<Entry>, e: Entry)
    requires PageSized(b) && Body(b, swap, es, |es|)
    requires PAGE_HEADER_SIZE + 2 * (|es| + 1) <= |b| - Used(es, NO_HOLE)
    ensures Body(b, swap, es + [e], |es|)
  {
    hide EntrySize, EntryAt, U16At, SlotOff, SlotOk, Apart;
    UsedHoleOutside(es, |es|);
    assert (es + [e])[..|es|] == es;
    forall i | 0 <= i < |es| + 1 && i != |es|
      ensures SlotOk(b, swap, i, (es + [e])[i], |b| - Used(es, NO_HOLE))
    {
      assert SlotOk(b, swap, i, es[i], |b| - Used(es, NO_HOLE));
    }
    forall i, j | 0 <= i < j < |es| + 1 && i != |es| && j != |es|
      ensures SlotsApart(b, swap, es + [e], i, j)
    {
      assert SlotsApart(b, swap, es, i, j);
    }
  }

  /** The body does not depend on the bytes before `upper`'s field. */
  lemma BodyFrame(b0: Bytes, b: Bytes, swap: bool, es: seq<Entry>, hole: int)
    requires PageSized(b) && |b| == |b0| && Body(b0, swap, es, hole)
    requires forall k | 18 <= k < |b| :: b[k] == b0[k]
    ensures Body(b, swap, es, hole)
  {
    hide Used, EntrySize, U16At, SlotOff, EntryAt;
    var upper := |b| - Used(es, hole);
    U16Frame(b0, b, 18, swap);
    SlotsFrame(b0, b, swap, |es|);
    forall i | 0 <= i < |es| && i != hole ensures SlotOk(b, swap, i, es[i], upper) {
      assert SlotOk(b0, swap, i, es[i], upper);
      SlotFrame(b0, b, swap, i, i, es[i], upper);
    }
    forall i, j | 0 <= i < j < |es| && i != hole && j != hole ensures SlotsApart(b, swap, es, i, j) {
      assert SlotsApart(b0, swap, es, i, j);
    }
  }
}
