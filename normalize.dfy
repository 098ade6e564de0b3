/** The size normalizer: rounding a requested byte count up to a multiple of
    a granularity, exactly as the allocator computes it on `size_t`. */
module SizeNormalizer {
  import opened Words

  /** `m` is a whole number of `base`-sized units. */
  predicate IsMultipleOf(m: int, base: int)
    requires base > 0
  {
    m % base == 0
  }

  /** `__internal_normalizeSize(size, base)`: a size below `base` becomes
      `base`; any other size becomes `(size + base - 1) & ~(base - 1)`,
      computed on 64-bit words, so the sum and the subtraction wrap. */
  function NormalizeSize(size: Word, base: Word): (r: Word)
    ensures size < base ==> r == base
  {
    if size < base then base
    else And((size + base - 1) % WORD, Not((base - 1) % WORD))
  }

  /** Without wrap-around the mask rounds `size + base - 1` down to a multiple of `base`. */
  lemma NormalizeRoundsDown(size: Word, base: Word)
    requires IsPowerOfTwo(base)
    requires base <= size && size + base <= WORD
    ensures NormalizeSize(size, base) == RoundDown(size + base - 1, base)
  {
    ModWordSmall(size + base - 1);
    ModWordSmall(base - 1);
    MaskRoundsDown(size + base - 1, base);
  }

  /** Rounding `size + base - 1` down to a multiple of `base` gives the least
      multiple of `base` that is at least `size`. */
  lemma RoundDownIsLeastMultiple(size: nat, base: nat, r: int)
    requires base > 0
    requires r == RoundDown(size + base - 1, base)
    ensures IsMultipleOf(r, base) && size <= r < size + base
    ensures forall m: int :: IsMultipleOf(m, base) && m >= size ==> r <= m
  {
    var q := (size + base - 1) / base;
    RoundDownIsMod(size + base - 1, base);
    assert r == q * base;
    MulMod(q, base);
    forall m: int | IsMultipleOf(m, base) && m >= size
      ensures r <= m
    {
      if m < r {
        MultipleBelow(m, r, base);
      }
    }
  }

  /** For a power-of-two base and a sum that does not wrap, the result is
      the least multiple of `base` that is at least both `size` and `base`. */
  lemma NormalizeIsLeastMultiple(size: Word, base: Word)
    requires IsPowerOfTwo(base)
    requires size + base <= WORD
    ensures var r := NormalizeSize(size, base);
      && IsMultipleOf(r, base) && r >= size && r >= base
      && (forall m: int :: IsMultipleOf(m, base) && m >= size && m >= base ==> r <= m)
      && (size >= base ==> r < size + base)
  {
    if size < base {
      assert IsMultipleOf(base, base);
    } else {
      NormalizeRoundsDown(size, base);
      RoundDownIsLeastMultiple(size, base, NormalizeSize(size, base));
    }
  }

  /** Between two multiples of `base` there is room for another `base`. */
  lemma MultipleBelow(r: int, w: int, base: int)
    requires base > 0 && IsMultipleOf(r, base) && IsMultipleOf(w, base) && r < w
    ensures r + base <= w
  {
    var a, b := r / base, w / base;
    assert r == a * base && w == b * base;
    if a >= b {
      MulLe(b, a, base);
    }
    MulLe(a + 1, b, base);
  }

  /** A multiple of a power of two that fits in a word leaves room for one more `base`. */
  lemma MultipleLeavesRoom(r: Word, base: Word)
    requires IsPowerOfTwo(base) && IsMultipleOf(r, base)
    ensures r + base <= WORD
  {
    PowerOfTwoInWord(base);
    MultipleBelow(r, WORD, base);
  }

  /** Normalizing an already normalized size changes nothing. */
  lemma NormalizeIdempotent(size: Word, base: Word)
    requires IsPowerOfTwo(base)
    requires size + base <= WORD
    ensures NormalizeSize(NormalizeSize(size, base), base) == NormalizeSize(size, base)
  {
    var r := NormalizeSize(size, base);
    NormalizeIsLeastMultiple(size, base);
    MultipleLeavesRoom(r, base);
    NormalizeIsLeastMultiple(r, base);
  }

  /** When `size + base - 1` overflows the word, the mask yields 0: a
      request just below 2^64 normalizes to nothing at all. */
  lemma NormalizeWrapsToZero(size: Word, base: Word)
    requires IsPowerOfTwo(base)
    requires size >= base && size + base > WORD
    ensures NormalizeSize(size, base) == 0
  {
    ModWordWrap(size + base - 1);
    ModWordSmall(base - 1);
    MaskClearsBelowBase(size + base - 1 - WORD, base);
  }

  /** The mask rounding is wrong for a base that is not a power of two:
      with base 3, a size of 4 normalizes to 4, which is not a multiple of 3. */
  lemma NormalizeNonPowerOfTwo()
    ensures NormalizeSize(4, 3) == 4 && !IsMultipleOf(NormalizeSize(4, 3), 3)
  {
    var b := Not(2);
    assert b == WORD - 3 && b % 2 == 1 && b / 2 % 2 == 0 && b / 4 % 2 == 1;
    assert And(1, b / 4) == 1;
    assert And(3, b / 2) == 2;
    assert And(6, b) == 4;
  }
}
