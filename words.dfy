/** Unsigned 64-bit machine words (`size_t`, `void*`) and the bit operations
    the allocator uses on them: powers of two, bitwise AND and complement. */
module Words {

  /** 2^64: every `size_t` and every pointer value lies below it. */
  const WORD: int := 0x1_0000_0000_0000_0000

  /** A value of an unsigned 64-bit machine word. */
  type Word = x: int | 0 <= x < WORD

  function Pow2(k: nat): (r: nat)
    ensures r >= 1
  {
    if k == 0 then 1 else 2 * Pow2(k - 1)
  }

  predicate IsPowerOfTwo(n: nat)
    decreases n
  {
    n == 1 || (n >= 2 && n % 2 == 0 && IsPowerOfTwo(n / 2))
  }

  /** The exponent of a power of two. */
  function Log2(n: nat): (k: nat)
    requires IsPowerOfTwo(n)
    ensures Pow2(k) == n
    decreases n
  {
    if n == 1 then 0 else 1 + Log2(n / 2)
  }

  lemma {:induction false} Pow2Add(i: nat, j: nat)
    ensures Pow2(i + j) == Pow2(i) * Pow2(j)
  {
    if i > 0 {
      Pow2Add(i - 1, j);
      assert Pow2(i + j) == 2 * Pow2(i - 1 + j);
    }
  }

  lemma {:induction false} Pow2Monotone(i: nat, j: nat)
    requires i <= j
    ensures Pow2(i) <= Pow2(j)
  {
    if i < j {
      Pow2Monotone(i, j - 1);
    }
  }

  lemma Pow2Word()
    ensures Pow2(64) == WORD
  {
    assert Pow2(2) == 4;
    Pow2Add(2, 2);
    assert Pow2(4) == 16;
    Pow2Add(4, 4);
    assert Pow2(8) == 256;
    Pow2Add(8, 8);
    assert Pow2(16) == 0x1_0000;
    Pow2Add(16, 16);
    assert Pow2(32) == 0x1_0000_0000;
    Pow2Add(32, 32);
  }

  /** A smaller power of two divides a larger one. */
  lemma Pow2Divides(i: nat, j: nat)
    requires i <= j
    ensures Pow2(j) % Pow2(i) == 0
  {
    Pow2Add(j - i, i);
    MulMod(Pow2(j - i), Pow2(i));
  }

  /** A power of two below `Pow2(n)` has an exponent below `n`. */
  lemma Log2Below(base: nat, n: nat)
    requires IsPowerOfTwo(base) && base < Pow2(n)
    ensures Log2(base) < n
  {
    if Log2(base) >= n {
      Pow2Monotone(n, Log2(base));
    }
  }

  /** A power of two that fits in a word has an exponent below 64 and divides 2^64. */
  lemma PowerOfTwoInWord(base: Word)
    requires IsPowerOfTwo(base)
    ensures Log2(base) < 64
    ensures Pow2(64) == WORD
    ensures WORD % base == 0
  {
    Pow2Word();
    Log2Below(base, 64);
    Pow2Divides(Log2(base), 64);
  }

  lemma MulMod(q: int, d: int)
    requires d > 0
    ensures (q * d) % d == 0
  {
    DivModUnique(q * d, d, q, 0);
  }

  /** Euclidean division has exactly one quotient/remainder pair. */
  lemma DivModUnique(x: int, d: int, q: int, r: int)
    requires d > 0 && 0 <= r < d && x == q * d + r
    ensures x / d == q && x % d == r
  {
    var t := q - x / d;
    assert t * d == q * d - (x / d) * d;
    assert t * d == x % d - r;
    if t >= 1 {
      MulLe(1, t, d);
    } else if t <= -1 {
      MulLe(t, -1, d);
    }
  }

  /** A value that fits in a word is its own residue modulo 2^64. */
  lemma ModWordSmall(x: int)
    requires 0 <= x < WORD
    ensures x % WORD == x
  {
    DivModUnique(x, WORD, 0, x);
  }

  /** A sum that overflows the word once wraps to its excess over 2^64. */
  lemma ModWordWrap(x: int)
    requires WORD <= x < 2 * WORD
    ensures x % WORD == x - WORD
  {
    DivModUnique(x, WORD, 1, x - WORD);
  }

  lemma MulLe(a: int, b: int, c: int)
    requires a <= b && c >= 0
    ensures a * c <= b * c
  {
  }

  /** Bitwise AND of two naturals, one binary digit at a time. */
  function And(a: nat, b: nat): (r: nat)
    ensures r <= a && r <= b
    decreases a
  {
    if a == 0 || b == 0 then 0
    else 2 * And(a / 2, b / 2) + (if a % 2 == 1 && b % 2 == 1 then 1 else 0)
  }

  /** Bitwise complement of a word (C's `~` on `size_t`). */
  function Not(a: Word): (r: Word)
    ensures a + r == WORD - 1
  {
    WORD - 1 - a
  }

  /** ANDing with a mask of n one-bits keeps any n-bit value. */
  lemma {:induction false} AndAllOnes(x: nat, n: nat)
    requires x < Pow2(n)
    ensures And(x, Pow2(n) - 1) == x
  {
    if n > 0 && x > 0 {
      AndAllOnes(x / 2, n - 1);
      assert (Pow2(n) - 1) / 2 == Pow2(n - 1) - 1;
      assert (Pow2(n) - 1) % 2 == 1;
    }
  }

  /** x mod 2^k, read off one binary digit at a time. */
  lemma ModPow2Split(x: nat, k: nat)
    requires k > 0
    ensures x % Pow2(k) == x % 2 + 2 * ((x / 2) % Pow2(k - 1))
  {
    var p := Pow2(k - 1);
    var q, r := (x / 2) / p, (x / 2) % p;
    assert x / 2 == q * p + r;
    assert x == q * (2 * p) + (2 * r + x % 2);
    DivModUnique(x, 2 * p, q, 2 * r + x % 2);
  }

  /** The mask whose bits k..n-1 are set and all others clear. */
  function HighBits(n: nat, k: nat): (m: nat)
    requires k <= n
    ensures m + Pow2(k) == Pow2(n)
  {
    Pow2Monotone(k, n);
    Pow2(n) - Pow2(k)
  }

  /** An even mask contributes no low bit. */
  lemma AndEvenMask(x: nat, m: nat)
    requires m % 2 == 0
    ensures And(x, m) == 2 * And(x / 2, m / 2)
  {
  }

  /** The inductive step of AndHighMask: HighBits(n, k) is twice HighBits(n - 1, k - 1). */
  lemma HighBitsHalf(n: nat, k: nat)
    requires 0 < k <= n
    ensures HighBits(n, k) % 2 == 0 && HighBits(n, k) / 2 == HighBits(n - 1, k - 1)
  {
    assert Pow2(n) == 2 * Pow2(n - 1) && Pow2(k) == 2 * Pow2(k - 1);
  }

  /** ANDing an n-bit value with HighBits(n, k) clears its low k bits, that
      is, rounds it down to a multiple of 2^k. */
  lemma {:induction false} AndHighMask(x: nat, n: nat, k: nat)
    requires k <= n && x < Pow2(n)
    ensures And(x, HighBits(n, k)) == x - x % Pow2(k)
  {
    if k == 0 {
      AndAllOnes(x, n);
    } else {
      var half := x / 2;
      HighBitsHalf(n, k);
      AndEvenMask(x, HighBits(n, k));
      AndHighMask(half, n - 1, k - 1);
      ModPow2Split(x, k);
    }
  }

  /** `x` rounded down to a multiple of `base`, counted out one `base` at a time. */
  function RoundDown(x: nat, base: nat): nat
    requires base > 0
    decreases x
  {
    if x < base then 0 else base + RoundDown(x - base, base)
  }

  /** Rounding down removes exactly the remainder. */
  lemma {:induction false} RoundDownIsMod(x: nat, base: nat)
    requires base > 0
    ensures RoundDown(x, base) == x - x % base
    decreases x
  {
    if x < base {
      DivModUnique(x, base, 0, x);
    } else {
      RoundDownIsMod(x - base, base);
      DivModUnique(x, base, (x - base) / base + 1, (x - base) % base);
    }
  }

  /** For a power-of-two base, `x & ~(base - 1)` rounds x down to a multiple of base. */
  lemma MaskRoundsDown(x: Word, base: Word)
    requires IsPowerOfTwo(base)
    ensures And(x, Not(base - 1)) == RoundDown(x, base)
  {
    PowerOfTwoInWord(base);
    var k := Log2(base);
    assert Not(base - 1) == HighBits(64, k);
    AndHighMask(x, 64, k);
    RoundDownIsMod(x, base);
  }

  /** The mask clears every value below the base. */
  lemma MaskClearsBelowBase(x: Word, base: Word)
    requires IsPowerOfTwo(base) && x < base
    ensures And(x, Not(base - 1)) == 0
  {
    MaskRoundsDown(x, base);
  }
}
