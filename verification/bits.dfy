/**
 Machine words, powers of two and bitwise AND, as the disruptor header uses them.

 The header works on `size_t` and `uint_fast64_t`, both 64-bit unsigned words.
 Here a word is a natural number below 2^64; wrap-around is written out where
 the header relies on unsigned arithmetic (`N - 1` for `N == 0`, `<< 1` past bit 63).
 Bitwise AND is defined bit by bit on naturals so that its laws can be proved by
 induction.
 */
module Bits {

  /** 2^64: the number of distinct values of a 64-bit unsigned word. */
  const WORD: nat := 0x1_0000_0000_0000_0000

  /** A 64-bit unsigned word (`size_t`, `uint_fast64_t`). */
  type u64 = x: nat | x < WORD

  /** Unsigned addition modulo 2^64. */
  function Add64(a: u64, b: u64): (r: u64) {
    (a + b) % WORD
  }

  /** Unsigned subtraction modulo 2^64: `0 - 1` is the all-ones word. */
  function Sub64(a: u64, b: u64): (r: u64) {
    (a - b + WORD) % WORD
  }

  // ---------------------------------------------------------------------------
  // Powers of two
  // ---------------------------------------------------------------------------

  /** The mathematical 2^k, with no word limit. */
  function Exp2(k: nat): (r: nat)
    ensures r >= 1
  {
    if k == 0 then 1 else 2 * Exp2(k - 1)
  }

  /** An independent characterisation of powers of two: halving reaches 1 through even numbers only. */
  predicate IsPowerOfTwo(x: nat)
    decreases x
  {
    x == 1 || (x >= 2 && x % 2 == 0 && IsPowerOfTwo(x / 2))
  }

  /** The exponent of a power of two. */
  function Log2(x: nat): (k: nat)
    requires IsPowerOfTwo(x)
    ensures Exp2(k) == x
    decreases x
  {
    if x == 1 then 0 else 1 + Log2(x / 2)
  }

  lemma {:induction false} Exp2IsPowerOfTwo(k: nat)
    ensures IsPowerOfTwo(Exp2(k))
  {
    if k > 0 {
      Exp2IsPowerOfTwo(k - 1);
      assert Exp2(k) / 2 == Exp2(k - 1);
    }
  }

  lemma {:induction false} Exp2Monotone(a: nat, b: nat)
    requires a <= b
    ensures Exp2(a) <= Exp2(b)
    decreases b - a
  {
    if a < b {
      Exp2Monotone(a, b - 1);
    }
  }

  lemma {:induction false} Exp2StrictMonotone(a: nat, b: nat)
    requires a < b
    ensures Exp2(a) < Exp2(b)
  {
    Exp2Monotone(a, b - 1);
  }

  /** Comparing powers of two is comparing their exponents. */
  lemma {:induction false} Exp2Order(a: nat, b: nat)
    ensures Exp2(a) <= Exp2(b) <==> a <= b
  {
    if a <= b {
      Exp2Monotone(a, b);
    } else {
      Exp2StrictMonotone(b, a);
    }
  }

  lemma {:induction false} Exp2Add(a: nat, b: nat)
    ensures Exp2(a + b) == Exp2(a) * Exp2(b)
  {
    if b > 0 {
      var c := Exp2(b - 1);
      Exp2Add(a, b - 1);
      assert Exp2(a + b) == 2 * Exp2(a + b - 1);
      assert Exp2(b) == 2 * c;
      assert Exp2(a) * (2 * c) == 2 * (Exp2(a) * c);
    }
  }

  lemma Exp2At16()
    ensures Exp2(16) == 0x1_0000
  {
    assert Exp2(4) == 16;
    Exp2Add(4, 4);
    Exp2Add(8, 8);
  }

  lemma Exp2At32()
    ensures Exp2(32) == 0x1_0000_0000
  {
    Exp2At16();
    Exp2Add(16, 16);
  }

  lemma WordIsExp2()
    ensures Exp2(64) == WORD
    ensures Exp2(63) == WORD / 2
    ensures Exp2(62) == WORD / 4
  {
    Exp2At32();
    Exp2Add(32, 32);
    assert Exp2(64) == 2 * Exp2(63);
    assert Exp2(63) == 2 * Exp2(62);
  }

  /** Doubling 2^(k-1) as a word gives 2^k below bit 64 and 0 at bit 64, where the bit is shifted out. */
  lemma DoubleInWord(k: nat, p: nat)
    requires 0 < k <= 64 && p == Exp2(k - 1)
    ensures k < 64 ==> (p * 2) % WORD == Exp2(k)
    ensures k == 64 ==> (p * 2) % WORD == 0
  {
    WordIsExp2();
    assert p * 2 == Exp2(k);
    if k < 64 {
      Exp2StrictMonotone(k, 64);
      ModUnique(p * 2, WORD, 0, p * 2);
    } else {
      ModUnique(p * 2, WORD, 1, 0);
    }
  }

  /** Every power of two at least 2^k is a multiple of 2^k. */
  lemma {:induction false} LargePowerIsMultiple(p: nat, k: nat)
    requires IsPowerOfTwo(p) && p >= Exp2(k)
    ensures p % Exp2(k) == 0
  {
    var j := Log2(p);
    Exp2Order(k, j);
    Exp2Add(j - k, k);
    ModUnique(p, Exp2(k), Exp2(j - k), 0);
  }

  /** A power of two below 2^64 is 2^k for some k < 64. */
  lemma WordPowerExponent(p: nat)
    requires IsPowerOfTwo(p) && p < WORD
    ensures Log2(p) < 64
  {
    WordIsExp2();
    Exp2Order(64, Log2(p));
  }

  // ---------------------------------------------------------------------------
  // Division facts
  // ---------------------------------------------------------------------------

  /** a < b moves a multiple of d up by at least d. */
  lemma {:induction false} MulStrict(a: nat, b: nat, d: nat)
    requires a < b
    ensures a * d + d <= b * d
    decreases b - a
  {
    assert b * d == (b - 1) * d + d;
    if a + 1 < b {
      MulStrict(a, b - 1, d);
    }
  }

  lemma MulLe(a: nat, b: nat, d: nat)
    requires a <= b
    ensures a * d <= b * d
  {
    if a < b {
      MulStrict(a, b, d);
    }
  }

  /** Quotient and remainder are unique. */
  lemma ModUnique(x: nat, d: nat, q: nat, r: nat)
    requires d > 0 && r < d && x == q * d + r
    ensures x % d == r && x / d == q
  {
    var q', r' := x / d, x % d;
    assert x == q' * d + r';
    if q' < q {
      MulStrict(q', q, d);
      assert false;
    } else if q < q' {
      MulStrict(q, q', d);
      assert false;
    }
  }

  lemma MulRegroup(q: nat, n: nat, m: nat)
    ensures q * (n * m) == (q * m) * n
  {
  }

  lemma MulDistrib(a: nat, b: nat, n: nat)
    ensures a * n + b * n == (a + b) * n
  {
  }

  /** Reducing modulo n * m first does not change the remainder modulo n. */
  lemma ModOfMod(y: nat, n: nat, m: nat)
    requires n > 0 && m > 0
    ensures (y % (n * m)) % n == y % n
  {
    var nm := n * m;
    MulLe(1, m, n);
    var q, r := y / nm, y % nm;
    var s, t := r / n, r % n;
    assert y == q * nm + r;
    assert r == s * n + t;
    MulRegroup(q, n, m);
    MulDistrib(q * m, s, n);
    ModUnique(y, n, q * m + s, t);
  }

  /** Two different numbers with the same remainder modulo n are at least n apart. */
  lemma ModGap(a: nat, b: nat, n: nat)
    requires n > 0 && a < b && a % n == b % n
    ensures b - a >= n
  {
    var qa, qb := a / n, b / n;
    assert a == qa * n + a % n;
    assert b == qb * n + b % n;
    if qb <= qa {
      MulLe(qb, qa, n);
      assert false;
    }
    MulStrict(qa, qb, n);
  }

  /** Numbers less than n apart have different remainders modulo n. */
  lemma DistinctRemainders(a: nat, b: nat, n: nat)
    requires n > 0 && a < b < a + n
    ensures a % n != b % n
  {
    if a % n == b % n {
      ModGap(a, b, n);
      assert false;
    }
  }

  /** Adding n does not change the remainder modulo n. */
  lemma ModAddPeriod(a: nat, n: nat)
    requires n > 0
    ensures (a + n) % n == a % n
  {
    ModUnique(a + n, n, a / n + 1, a % n);
  }

  /** Subtraction of a smaller word does not wrap. */
  lemma Sub64NoWrap(a: u64, b: u64)
    requires b <= a
    ensures Sub64(a, b) == a - b
  {
    ModUnique(a - b + WORD, WORD, 1, a - b);
  }

  /** Subtraction of a larger word wraps once. */
  lemma Sub64Wraps(a: u64, b: u64)
    requires a < b
    ensures Sub64(a, b) == a + WORD - b
  {
    ModUnique(a - b + WORD, WORD, 0, a + WORD - b);
  }

  // ---------------------------------------------------------------------------
  // Bitwise AND
  // ---------------------------------------------------------------------------

  /** `a & b` on unbounded naturals, lowest bit first. */
  function And(a: nat, b: nat): (r: nat)
    decreases a
  {
    if a == 0 || b == 0 then 0
    else 2 * And(a / 2, b / 2) + (if a % 2 == 1 && b % 2 == 1 then 1 else 0)
  }

  lemma {:induction false} AndSelf(a: nat)
    ensures And(a, a) == a
    decreases a
  {
    if a > 0 {
      AndSelf(a / 2);
    }
  }

  /** Under an odd mask the lowest bit of x survives unchanged. */
  lemma AndOddMask(m: nat, x: nat)
    requires m % 2 == 1
    ensures And(m, x) == 2 * And(m / 2, x / 2) + x % 2
  {
  }

  /** 2 * (y % e) + b is x % (2 * e) when x = 2 * y + b and b is a bit. */
  lemma ModDouble(x: nat, e: nat)
    requires e > 0
    ensures x % (2 * e) == 2 * ((x / 2) % e) + x % 2
  {
    var q, r := (x / 2) / e, (x / 2) % e;
    assert x / 2 == q * e + r;
    assert x == 2 * (x / 2) + x % 2;
    assert 2 * (q * e) == q * (2 * e);
    assert x == q * (2 * e) + (2 * r + x % 2);
    ModUnique(x, 2 * e, q, 2 * r + x % 2);
  }

  /** One step of the induction below: a mask of 2e - 1 reduces modulo 2e when e - 1 reduces x / 2 modulo e. */
  lemma {:induction false} AndLowMaskStep(e: nat, x: nat)
    requires e > 0
    requires And(e - 1, x / 2) == (x / 2) % e
    ensures And(2 * e - 1, x) == x % (2 * e)
  {
    var m := 2 * e - 1;
    assert m % 2 == 1 && m / 2 == e - 1;
    AndOddMask(m, x);
    ModDouble(x, e);
  }

  /** Masking with the low k bits set is reduction modulo 2^k. */
  lemma {:induction false} AndLowMask(k: nat, x: nat)
    ensures And(Exp2(k) - 1, x) == x % Exp2(k)
  {
    if k == 0 {
      assert Exp2(k) - 1 == 0;
    } else if x > 0 {
      var e := Exp2(k - 1);
      assert Exp2(k) == 2 * e;
      AndLowMask(k - 1, x / 2);
      AndLowMaskStep(e, x);
    } else {
      ModUnique(0, Exp2(k), 0, 0);
    }
  }

  /** Masking never yields more than either operand. */
  lemma {:induction false} AndBound(a: nat, b: nat)
    ensures And(a, b) <= a && And(a, b) <= b
    decreases a
  {
    if a > 0 && b > 0 {
      AndBound(a / 2, b / 2);
    }
  }

  /** The all-ones word keeps every bit of a word. */
  lemma AllOnesMask(x: u64)
    ensures And(WORD - 1, x) == x
  {
    WordIsExp2();
    AndLowMask(64, x);
    ModUnique(x, WORD, 0, x);
  }

  /** `(n & (n - 1)) == 0` singles out the powers of two among positive numbers. */
  lemma {:induction false} SingleBitTest(n: nat)
    requires n > 0
    ensures And(n, n - 1) == 0 <==> IsPowerOfTwo(n)
    decreases n
  {
    if n == 1 {
    } else if n % 2 == 0 {
      assert (n - 1) / 2 == n / 2 - 1;
      SingleBitTest(n / 2);
      assert And(n, n - 1) == 2 * And(n / 2, n / 2 - 1);
    } else {
      assert (n - 1) / 2 == n / 2;
      AndSelf(n / 2);
      assert And(n, n - 1) == 2 * And(n / 2, n / 2);
    }
  }
}
