/**
 Cache-line layout arithmetic of the disruptor header.

 The header pads every contended counter and every slot so that it fills a whole
 cache line, computing the padding at compile time with three recursive templates:
 `power_of_2<N>`, `next_power_of_2<N>` and `padding_size<T, 64>`. Here they are
 recursive functions over words; the byte size of the padded type is a parameter
 `s` instead of `sizeof(T)`.
 */
module Layout {
  import opened Bits

  const CACHE_LINE_SIZE: u64 := 64

  /** The exponent of the highest power of two a 64-bit word can hold. */
  const TOP_EXPONENT: nat := 63

  /** 2^63, `power_of_2<63>::value`: the answer the search gives up with. */
  const CUTOFF: u64 := 0x8000_0000_0000_0000

  /** 2^62: from here on no exponent below 63 gives a power of two above n. */
  const CUTOFF_THRESHOLD: u64 := 0x4000_0000_0000_0000

  lemma CutoffIsExp2()
    ensures Exp2(TOP_EXPONENT) == CUTOFF
    ensures Exp2(TOP_EXPONENT - 1) == CUTOFF_THRESHOLD
  {
    WordIsExp2();
  }

  /**
   `power_of_2<n>::value`: 1 shifted left n times, each shift a `size_t` shift
   that drops bit 63.
   */
  function PowerOf2(n: nat): (r: u64)
    ensures n < 64 ==> r == Exp2(n)
    ensures n >= 64 ==> r == 0
  {
    if n == 0 then 1
    else
      var half := PowerOf2(n - 1);
      if n <= 64 then
        DoubleInWord(n, half);
        (half * 2) % WORD
      else
        ModUnique(half * 2, WORD, 0, 0);
        (half * 2) % WORD
  }

  /**
   `next_power_of_2<n, x>::value`: the first 2^x, counting x up from the given
   start, that exceeds n; the search stops at x = 63 and answers 2^63 there
   whatever n is.
   */
  function NextPowerOf2From(n: u64, x: nat): (r: u64)
    requires x <= TOP_EXPONENT
    ensures IsPowerOfTwo(r)
    ensures r == CUTOFF || n < r
    decreases TOP_EXPONENT - x
  {
    if x == TOP_EXPONENT then
      CutoffIsExp2();
      Exp2IsPowerOfTwo(TOP_EXPONENT);
      PowerOf2(TOP_EXPONENT)
    else if PowerOf2(x) > n then
      Exp2IsPowerOfTwo(x);
      PowerOf2(x)
    else
      NextPowerOf2From(n, x + 1)
  }

  /**
   What the search finds, given that every exponent below the start was already
   too small: a power of two, above n unless n is past the cut-off, and the
   cut-off value 2^63 exactly when n is at least 2^62, that is when no exponent
   below 63 works.
   */
  lemma {:induction false} NextPowerOf2FromSpec(n: u64, x: nat)
    requires x <= TOP_EXPONENT
    requires forall j: nat :: j < x ==> Exp2(j) <= n
    ensures IsPowerOfTwo(NextPowerOf2From(n, x))
    ensures n < CUTOFF ==> n < NextPowerOf2From(n, x)
    ensures NextPowerOf2From(n, x) == CUTOFF <==> CUTOFF_THRESHOLD <= n
    decreases TOP_EXPONENT - x
  {
    Exp2IsPowerOfTwo(x);
    CutoffIsExp2();
    if x == TOP_EXPONENT {
      assert Exp2(TOP_EXPONENT - 1) <= n;
    } else if PowerOf2(x) > n {
      Exp2StrictMonotone(x, TOP_EXPONENT);
      Exp2Monotone(x, TOP_EXPONENT - 1);
    } else {
      NextPowerOf2FromSpec(n, x + 1);
    }
  }

  /**
   The search finds the least power of two above n: no power of two above n is
   smaller than its answer.
   */
  lemma {:induction false} NextPowerOf2FromLeast(n: u64, x: nat, p: nat)
    requires x <= TOP_EXPONENT
    requires forall j: nat :: j < x ==> Exp2(j) <= n
    requires IsPowerOfTwo(p) && n < p
    ensures NextPowerOf2From(n, x) <= p
    decreases TOP_EXPONENT - x
  {
    var k := Log2(p);
    assert x <= k;
    if x == TOP_EXPONENT || PowerOf2(x) > n {
      Exp2Monotone(x, k);
    } else {
      NextPowerOf2FromLeast(n, x + 1, p);
    }
  }

  /** `next_power_of_2<n>::value`: the search started at exponent 0. */
  function NextPowerOf2(n: u64): (r: u64)
    ensures IsPowerOfTwo(r)
    ensures n < CUTOFF ==> n < r
    ensures forall p: nat :: IsPowerOfTwo(p) && n < p ==> r <= p
    ensures r == CUTOFF <==> CUTOFF_THRESHOLD <= n
  {
    NextPowerOf2FromSpec(n, 0);
    assert forall p: nat :: IsPowerOfTwo(p) && n < p ==> NextPowerOf2From(n, 0) <= p by {
      forall p: nat | IsPowerOfTwo(p) && n < p
        ensures NextPowerOf2From(n, 0) <= p
      {
        NextPowerOf2FromLeast(n, 0, p);
      }
    }
    NextPowerOf2From(n, 0)
  }

  /**
   `padding_size<T, 64>::value` for a type of s bytes: up to one cache line when
   s < 64, otherwise up to the next power of two strictly above s, computed with
   `size_t` subtraction.
   */
  function PaddingSize(s: u64): (r: u64)
    ensures 0 < s < CACHE_LINE_SIZE ==> s + r == CACHE_LINE_SIZE
    ensures CACHE_LINE_SIZE <= s < CUTOFF ==>
      && IsPowerOfTwo(s + r)
      && s < s + r
      && (s + r) % CACHE_LINE_SIZE == 0
      && (forall p: nat :: IsPowerOfTwo(p) && s < p ==> s + r <= p)
    ensures 0 < s < CUTOFF ==> 0 < r
    ensures s == CUTOFF ==> r == 0
    ensures CUTOFF < s ==> s + r == CUTOFF + WORD
  {
    if s >= CACHE_LINE_SIZE then
      if s < CUTOFF then
        PaddingBelowCutoff(s);
        Sub64(NextPowerOf2(s), s)
      else
        PaddingPastCutoff(s);
        Sub64(NextPowerOf2(s), s)
    else
      CACHE_LINE_SIZE - s
  }

  /**
   Below the cut-off the subtraction does not wrap, so s plus the padding is the
   next power of two: above s, a multiple of 64, and the least such power.
   */
  lemma PaddingBelowCutoff(s: u64)
    requires CACHE_LINE_SIZE <= s < CUTOFF
    ensures var r := Sub64(NextPowerOf2(s), s);
      && IsPowerOfTwo(s + r)
      && s < s + r
      && (s + r) % CACHE_LINE_SIZE == 0
      && (forall p: nat :: IsPowerOfTwo(p) && s < p ==> s + r <= p)
      && 0 < r
  {
    var np := NextPowerOf2(s);
    assert Exp2(6) == 64;
    LargePowerIsMultiple(np, 6);
    Sub64NoWrap(np, s);
    assert s + Sub64(np, s) == np;
  }

  /** Past the cut-off the answer is 2^63, which is not above s, and the subtraction wraps unless s is 2^63. */
  lemma PaddingPastCutoff(s: u64)
    requires CUTOFF <= s
    ensures s == CUTOFF ==> Sub64(NextPowerOf2(s), s) == 0
    ensures CUTOFF < s ==> s + Sub64(NextPowerOf2(s), s) == CUTOFF + WORD
  {
    var np := NextPowerOf2(s);
    assert np == CUTOFF;
    if np < s {
      Sub64Wraps(np, s);
    } else {
      Sub64NoWrap(np, s);
    }
  }

  /**
   Bytes taken by a value of s bytes followed by its padding array: for every
   size below 2^63 a whole number of cache lines, with room to spare after the
   value.
   */
  function CellSize(s: u64): (c: nat)
    ensures 0 < s < CUTOFF ==> s < c
    ensures 0 < s < CUTOFF ==> c % CACHE_LINE_SIZE == 0
  {
    s + PaddingSize(s)
  }

  /**
   The counters (`count_t`, `cursor_t`), the timeout cell (`timeout_t`) and a
   slot (`entry`) holding a word-sized payload each fill exactly one cache line,
   whatever byte size below 64 the platform gives the wrapped atomic counter,
   `timespec` or payload.
   */
  lemma CountersFillOneLine(s: u64)
    requires 0 < s < CACHE_LINE_SIZE
    ensures CellSize(s) == CACHE_LINE_SIZE
  {
  }

  /** A power of two above 2^k and at most 2^(k+1) is 2^(k+1). */
  lemma PowerOfTwoBetween(p: nat, k: nat)
    requires IsPowerOfTwo(p) && Exp2(k) < p <= Exp2(k + 1)
    ensures p == Exp2(k + 1)
  {
    var j := Log2(p);
    Exp2Order(j, k);
    Exp2Order(k + 1, j);
  }

  /**
   Concrete cells: 8-byte and 16-byte values get 56 and 48 bytes of padding; a
   value of exactly 64 bytes is padded to 128, not left at 64; 65 and 129 bytes
   are padded to 128 and 256.
   */
  lemma PaddingExamples()
    ensures PaddingSize(8) == 56 && PaddingSize(16) == 48
    ensures NextPowerOf2(0) == 1
    ensures PaddingSize(64) == 64 && CellSize(64) == 128
    ensures PaddingSize(65) == 63
    ensures PaddingSize(129) == 127 && CellSize(129) == 256
  {
    WordIsExp2();
    assert Exp2(7) == 128 && Exp2(8) == 256;
    assert Exp2(6) == 64;
    Exp2IsPowerOfTwo(0);
    Exp2IsPowerOfTwo(7);
    Exp2IsPowerOfTwo(8);
    Exp2Monotone(8, TOP_EXPONENT);
    PowerOfTwoBetween(CellSize(64), 6);
    PowerOfTwoBetween(CellSize(65), 6);
    PowerOfTwoBetween(CellSize(129), 7);
  }
}
