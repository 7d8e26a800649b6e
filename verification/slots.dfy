/**
 Slot indexing of `ring_buffer<N, R, T>`.

 The ring accepts a capacity N only if `(N & (N - 1)) == 0`, keeps the mask
 `SIZE_MASK = N - 1`, and finds the slot of a 64-bit sequence number as
 `SIZE_MASK & sequence`. Sequence numbers are words; a sequence number plus an
 offset wraps modulo 2^64 as `uint_fast64_t` arithmetic does.
 */
module Slots {
  import opened Bits

  /** The compile-time capacity check, `(N & (N - 1)) == 0`, with `size_t` subtraction. */
  predicate CapacityCheck(n: u64) {
    And(n, Sub64(n, 1)) == 0
  }

  /** The check accepts exactly 0 and the powers of two. */
  lemma CapacityCheckAccepts(n: u64)
    ensures CapacityCheck(n) <==> n == 0 || IsPowerOfTwo(n)
  {
    if n > 0 {
      assert Sub64(n, 1) == n - 1;
      SingleBitTest(n);
    }
  }

  /**
   N = 0 passes the check: `0 - 1` is the all-ones word, so the mask keeps the
   whole sequence number and every access indexes past a ring of no slots.
   */
  lemma {:induction false} ZeroCapacityPassesCheck(sequence: u64)
    ensures CapacityCheck(0)
    ensures SizeMask(0) == WORD - 1
    ensures MaskIndex(0, sequence) == sequence
  {
    assert Sub64(0, 1) == WORD - 1;
    AllOnesMask(sequence);
  }

  /** A capacity the ring can index: the check, plus N > 0. */
  predicate ValidCapacity(n: u64) {
    n > 0 && CapacityCheck(n)
  }

  lemma ValidCapacityIsPowerOfTwo(n: u64)
    ensures ValidCapacity(n) <==> IsPowerOfTwo(n)
  {
    CapacityCheckAccepts(n);
  }

  /** `SIZE_MASK`: N - 1 as a `size_t`, which is the all-ones word when N is 0. */
  function SizeMask(n: u64): (m: u64)
    ensures n > 0 ==> m == n - 1
    ensures n == 0 ==> m == WORD - 1
  {
    Sub64(n, 1)
  }

  /**
   `SIZE_MASK & sequence`, the index `get` uses, for any N. It never exceeds the
   mask or the sequence number, so for every N > 0, a power of two or not, it
   stays inside `buffer[N]`.
   */
  function MaskIndex(n: u64, sequence: u64): (i: nat)
    ensures i <= SizeMask(n) && i <= sequence
    ensures n > 0 ==> i < n
  {
    AndBound(SizeMask(n), sequence);
    And(SizeMask(n), sequence)
  }

  /**
   The slot a sequence number ought to occupy in a ring of N slots: what is left
   of it after taking away whole laps of N.
   */
  function SlotIndex(n: u64, sequence: u64): (i: nat)
    requires n > 0
    ensures i < n
    decreases sequence
  {
    if sequence < n then sequence else SlotIndex(n, sequence - n)
  }

  /** Taking away whole laps leaves the remainder modulo N. */
  lemma {:induction false} SlotIndexIsRemainder(n: u64, sequence: u64)
    requires n > 0
    ensures SlotIndex(n, sequence) == sequence % n
    decreases sequence
  {
    if sequence < n {
      ModUnique(sequence, n, 0, sequence);
    } else {
      SlotIndexIsRemainder(n, sequence - n);
      ModAddPeriod(sequence - n, n);
    }
  }

  /**
   For a valid capacity, masking is reduction modulo N: `SIZE_MASK & sequence`
   is the slot the sequence number ought to occupy, so it is below N.
   */
  lemma MaskIsModulo(n: u64, sequence: u64)
    requires ValidCapacity(n)
    ensures MaskIndex(n, sequence) == SlotIndex(n, sequence)
    ensures MaskIndex(n, sequence) < n
  {
    CapacityCheckAccepts(n);
    var k := Log2(n);
    assert SizeMask(n) == Exp2(k) - 1;
    AndLowMask(k, sequence);
    SlotIndexIsRemainder(n, sequence);
  }

  /** Reducing a sequence number modulo 2^64 does not move its slot. */
  lemma WrapKeepsSlot(n: u64, y: nat)
    requires ValidCapacity(n)
    ensures (y % WORD) % n == y % n
  {
    CapacityCheckAccepts(n);
    var k := Log2(n);
    WordPowerExponent(n);
    Exp2Add(k, 64 - k);
    WordIsExp2();
    ModOfMod(y, n, Exp2(64 - k));
  }

  /** The slot of s + i, added with wrap-around, is the remainder of the unbounded sum. */
  lemma SlotOfSum(n: u64, s: u64, i: u64)
    requires ValidCapacity(n)
    ensures SlotIndex(n, Add64(s, i)) == (s + i) % n
  {
    var y := s + i;
    WrapKeepsSlot(n, y);
    assert Add64(s, i) == y % WORD;
    SlotIndexIsRemainder(n, y % WORD);
  }

  /** Sequence numbers one lap apart, s and s + N (mod 2^64), share a slot. */
  lemma SameSlotAfterLap(n: u64, s: u64)
    requires ValidCapacity(n)
    ensures SlotIndex(n, Add64(s, n)) == SlotIndex(n, s)
  {
    SlotOfSum(n, s, n);
    ModAddPeriod(s, n);
    SlotIndexIsRemainder(n, s);
  }

  /** Within a window of N consecutive sequence numbers no two share a slot. */
  lemma WindowDistinct(n: u64, s: u64, i: u64, j: u64)
    requires ValidCapacity(n)
    requires i < j < n
    ensures SlotIndex(n, Add64(s, i)) != SlotIndex(n, Add64(s, j))
  {
    SlotOfSum(n, s, i);
    SlotOfSum(n, s, j);
    var a, b := s + i, s + j;
    DistinctRemainders(a, b, n);
  }

  /** The offset from s that reaches remainder j modulo n. */
  lemma OffsetReaches(s: nat, n: nat, j: nat) returns (i: nat)
    requires 0 < n && j < n
    ensures i < n && (s + i) % n == j
  {
    var t, q := s % n, s / n;
    assert s == q * n + t;
    if j >= t {
      i := j - t;
      assert s + i == q * n + j;
      ModUnique(s + i, n, q, j);
    } else {
      i := j + n - t;
      assert s + i == q * n + n + j;
      assert q * n + n == (q + 1) * n;
      ModUnique(s + i, n, q + 1, j);
    }
  }

  /** Every slot is the slot of some offset in a window of N consecutive sequence numbers. */
  lemma WindowCoversRing(n: u64, s: u64, j: nat)
    requires ValidCapacity(n)
    requires j < n
    ensures exists i: u64 :: i < n && SlotIndex(n, Add64(s, i)) == j
  {
    var i := OffsetReaches(s, n, j);
    SlotOfSum(n, s, i);
  }

  /**
   The writer bound: while the sequence number being claimed is at most N past
   the slowest reader's last consumed one, its slot is not the slot of any
   sequence number that reader has still to consume. The sequence numbers are
   taken as they compare before any 2^64 wrap; `WindowDistinct` states the same
   separation for a window that crosses the wrap.
   */
  lemma NoUnreadSlotReused(n: u64, lastRead: u64, claim: u64, u: u64)
    requires ValidCapacity(n)
    requires lastRead < u < claim
    requires claim - lastRead <= n
    ensures SlotIndex(n, u) != SlotIndex(n, claim)
  {
    DistinctRemainders(u, claim, n);
    SlotIndexIsRemainder(n, u);
    SlotIndexIsRemainder(n, claim);
  }

  /**
   The writer bound across the 2^64 wrap: counted as offsets from the slowest
   reader's last consumed sequence number, a claim d <= N ahead never shares a
   slot with an unconsumed offset k < d.
   */
  lemma {:induction false} NoUnreadSlotReusedAcrossWrap(n: u64, lastRead: u64, k: u64, d: u64)
    requires ValidCapacity(n)
    requires 0 < k < d <= n
    ensures SlotIndex(n, Add64(lastRead, k)) != SlotIndex(n, Add64(lastRead, d))
  {
    if d < n {
      WindowDistinct(n, lastRead, k, d);
    } else {
      SameSlotAfterLap(n, lastRead);
      WindowDistinct(n, lastRead, 0, k);
      assert Add64(lastRead, 0) == lastRead;
    }
  }

  /**
   The bound is tight: a claim more than N past the slowest reader lands on the
   slot of the unconsumed sequence number one lap earlier.
   */
  lemma OverrunReusesUnreadSlot(n: u64, lastRead: u64, claim: u64)
    requires ValidCapacity(n)
    requires lastRead < claim && claim - lastRead > n
    ensures lastRead < claim - n
    ensures SlotIndex(n, claim - n) == SlotIndex(n, claim)
  {
    ModAddPeriod(claim - n, n);
    SlotIndexIsRemainder(n, claim - n);
    SlotIndexIsRemainder(n, claim);
  }
}
