/**
 The bookkeeping of `ring_buffer<N, R, T>`: its slots, reader records, the
 `head` and `tail` cursors and the live-reader count, as an immutable record.

 `create()` is a function of whether the page-aligned allocation succeeded;
 the all-zero bytes `memset` leaves in a payload are the parameter `zero`.
 Concurrent reading and writing are not modelled; `Store` is the effect of a
 single write through the slot pointer `get` hands out.
 */
module RingBuffer {
  import opened Bits
  import Slots

  /** `VACANT = UINT_FAST64_MAX`: the `end` cursor of a reader record nobody has claimed. */
  const VACANT: u64 := WORD - 1

  datatype Option<T> = None | Some(value: T)

  /**
   A reader record: where its next batch begins, the next sequence number it has
   not consumed (or VACANT), and whether its back-reference to the ring is set.
   */
  datatype Reader = Reader(begin: u64, end: u64, attached: bool)

  /** The template parameters: slot capacity N and number of reader records R. */
  datatype Params = Params(n: u64, r: u64)

  /**
   The ring: N slots, R reader records, `tail_cursor` (last published sequence
   number), `head_cursor` (last reserved one) and `num_readers`.
   */
  datatype Ring<T> = Ring(entries: seq<T>, readers: seq<Reader>, tail: u64, head: u64, numReaders: u64)

  predicate WellFormed<T>(p: Params, b: Ring<T>) {
    |b.entries| == p.n && |b.readers| == p.r
  }

  /** A reader record in its pre-registration state. */
  const VacantReader: Reader := Reader(0, VACANT, false)

  /**
   `create()`: nothing if the allocation fails; otherwise a ring whose bytes are
   all zero except that every reader record's `end` cursor is VACANT.
   */
  function Create<T>(p: Params, zero: T, allocationSucceeded: bool): (res: Option<Ring<T>>)
    ensures res.None? <==> !allocationSucceeded
    ensures res.Some? ==>
      && WellFormed(p, res.value)
      && res.value.head == 0 && res.value.tail == 0 && res.value.numReaders == 0
      && (forall i :: 0 <= i < |res.value.entries| ==> res.value.entries[i] == zero)
      && (forall i :: 0 <= i < |res.value.readers| ==> res.value.readers[i] == VacantReader)
  {
    if !allocationSucceeded then None
    else Some(Ring(seq(p.n, _ => zero), seq(p.r, _ => VacantReader), 0, 0, 0))
  }

  /** `ready()`: the live-reader count has reached R. */
  predicate Ready<T>(p: Params, b: Ring<T>) {
    b.numReaders == p.r
  }

  /** The number of reader records that have been claimed, that is, are not VACANT. */
  function CountClaimed(rs: seq<Reader>): (c: nat) {
    if |rs| == 0 then 0
    else CountClaimed(rs[..|rs| - 1]) + (if rs[|rs| - 1].end != VACANT then 1 else 0)
  }

  /** The live-reader count agrees with the reader records that have been claimed. */
  predicate Consistent<T>(b: Ring<T>) {
    b.numReaders == CountClaimed(b.readers)
  }

  /** At most every record is claimed, and all are exactly when none is VACANT. */
  lemma {:induction false} CountClaimedFull(rs: seq<Reader>)
    ensures CountClaimed(rs) <= |rs|
    ensures CountClaimed(rs) == |rs| <==> forall i :: 0 <= i < |rs| ==> rs[i].end != VACANT
    ensures CountClaimed(rs) == 0 <==> forall i :: 0 <= i < |rs| ==> rs[i].end == VACANT
  {
    if |rs| > 0 {
      var init := rs[..|rs| - 1];
      CountClaimedFull(init);
      assert forall i :: 0 <= i < |init| ==> init[i] == rs[i];
    }
  }

  /**
   With the count kept consistent, the ring is ready exactly when every one of
   its R reader records has been claimed.
   */
  lemma ReadyIffAllClaimed<T>(p: Params, b: Ring<T>)
    requires WellFormed(p, b) && Consistent(b)
    ensures Ready(p, b) <==> forall i :: 0 <= i < |b.readers| ==> b.readers[i].end != VACANT
  {
    CountClaimedFull(b.readers);
  }

  /**
   A freshly created ring has no claimed reader and a consistent count, so it is
   ready right away only when R is 0, and for R > 0 not before R readers register.
   */
  lemma CreatedRingReadiness<T>(p: Params, zero: T)
    ensures Create(p, zero, true).Some?
    ensures Consistent(Create(p, zero, true).value)
    ensures CountClaimed(Create(p, zero, true).value.readers) == 0
    ensures Ready(p, Create(p, zero, true).value) <==> p.r == 0
  {
    CountClaimedFull(Create(p, zero, true).value.readers);
  }

  /**
   `get(sequence)`: the slot `SIZE_MASK & sequence`, which is the slot the
   sequence number ought to occupy once whole laps of N are taken away.
   */
  function Get<T>(p: Params, b: Ring<T>, sequence: u64): (e: T)
    requires WellFormed(p, b) && Slots.ValidCapacity(p.n)
    ensures e == b.entries[Slots.SlotIndex(p.n, sequence)]
  {
    Slots.MaskIsModulo(p.n, sequence);
    b.entries[Slots.MaskIndex(p.n, sequence)]
  }

  /** Sequence numbers one lap apart read the same slot. */
  lemma GetAfterLap<T>(p: Params, b: Ring<T>, s: u64)
    requires WellFormed(p, b) && Slots.ValidCapacity(p.n)
    ensures Get(p, b, Add64(s, p.n)) == Get(p, b, s)
  {
    Slots.SameSlotAfterLap(p.n, s);
  }

  /**
   A write of v through the slot pointer `get(sequence)` returns, that is at
   index `SIZE_MASK & sequence`: that sequence number now reads v, every
   sequence number on another slot reads as before, and the cursors and reader
   records are untouched.
   */
  function Store<T>(p: Params, b: Ring<T>, sequence: u64, v: T): (b': Ring<T>)
    requires WellFormed(p, b) && Slots.ValidCapacity(p.n)
    ensures WellFormed(p, b')
    ensures Get(p, b', sequence) == v
    ensures forall u: u64 ::
      Slots.SlotIndex(p.n, u) != Slots.SlotIndex(p.n, sequence) ==> Get(p, b', u) == Get(p, b, u)
    ensures b'.readers == b.readers && b'.head == b.head && b'.tail == b.tail
    ensures b'.numReaders == b.numReaders
  {
    Slots.MaskIsModulo(p.n, sequence);
    b.(entries := b.entries[Slots.MaskIndex(p.n, sequence) := v])
  }

  /**
   A writer that claims a sequence number at most N past the slowest reader's
   last consumed one leaves every entry that reader has still to consume intact.
   */
  lemma WriteKeepsUnreadEntries<T>(p: Params, b: Ring<T>, lastRead: u64, claim: u64, v: T)
    requires WellFormed(p, b) && Slots.ValidCapacity(p.n)
    requires lastRead < claim && claim - lastRead <= p.n
    ensures forall u: u64 :: lastRead < u < claim ==> Get(p, Store(p, b, claim, v), u) == Get(p, b, u)
  {
    forall u: u64 | lastRead < u < claim
      ensures Get(p, Store(p, b, claim, v), u) == Get(p, b, u)
    {
      Slots.NoUnreadSlotReused(p.n, lastRead, claim, u);
    }
  }

  /**
   The same guarantee across the 2^64 wrap: counted as offsets from the slowest
   reader's last consumed sequence number, a write at offset d <= N leaves the
   entry at every unconsumed offset k < d intact.
   */
  lemma WriteKeepsUnreadEntriesAcrossWrap<T>(p: Params, b: Ring<T>, lastRead: u64, d: u64, v: T)
    requires WellFormed(p, b) && Slots.ValidCapacity(p.n)
    requires 0 < d <= p.n
    ensures forall k: u64 :: 0 < k < d ==>
      Get(p, Store(p, b, Add64(lastRead, d), v), Add64(lastRead, k)) == Get(p, b, Add64(lastRead, k))
  {
    forall k: u64 | 0 < k < d
      ensures Get(p, Store(p, b, Add64(lastRead, d), v), Add64(lastRead, k)) == Get(p, b, Add64(lastRead, k))
    {
      Slots.NoUnreadSlotReusedAcrossWrap(p.n, lastRead, k, d);
    }
  }
}
