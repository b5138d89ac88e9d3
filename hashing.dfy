/** Java's 64-bit integers, the two bitwise/arithmetic operators the map's
    hash uses on them, and the hash function chosen at construction
    (LongLongMap.initHasher). */
module Hashing {

  const LONG_MIN: int := -0x8000_0000_0000_0000
  const LONG_MAX: int := 0x7fff_ffff_ffff_ffff
  const TWO_64: int := 0x1_0000_0000_0000_0000

  /** A Java `long`. */
  type Long = x: int | LONG_MIN <= x <= LONG_MAX

  function Pow2(k: nat): (p: nat)
    ensures p >= 1
  {
    if k == 0 then 1 else 2 * Pow2(k - 1)
  }

  /** The number formed by the low `w` bits of the two's-complement AND of `a`
      and `b`. Dafny's `/` and `%` by 2 are floor division and the low bit,
      also for negative numbers, so `a / 2` is Java's `a >> 1`. */
  function AndBits(a: int, b: int, w: nat): nat
    decreases w
  {
    if w == 0 then 0
    else (if a % 2 == 1 && b % 2 == 1 then 1 else 0) + 2 * AndBits(a / 2, b / 2, w - 1)
  }

  /** `w` bits hold less than 2^w. */
  lemma {:induction false} AndBitsBelow(a: int, b: int, w: nat)
    ensures AndBits(a, b, w) < Pow2(w)
    decreases w
  {
    if w > 0 { AndBitsBelow(a / 2, b / 2, w - 1); }
  }

  /** Reinterprets 64 low bits as a signed `long`. */
  function Signed(u: nat): Long
    requires u < TWO_64
  {
    if u <= LONG_MAX then u else u - TWO_64
  }

  lemma {:induction false} Pow2Add(a: nat, b: nat)
    ensures Pow2(a + b) == Pow2(a) * Pow2(b)
    decreases a
  {
    if a > 0 { Pow2Add(a - 1, b); }
  }

  lemma Pow2Of64()
    ensures Pow2(64) == TWO_64
  {
    assert Pow2(8) == 256;
    Pow2Add(8, 8);
    assert Pow2(16) == 0x1_0000;
    Pow2Add(16, 16);
    assert Pow2(32) == 0x1_0000_0000;
    Pow2Add(32, 32);
  }

  /** Java's 64-bit wrap-around: the `long` congruent to `x` modulo 2^64.
      A result that already fits is left alone. */
  function Wrap(x: int): (r: Long)
    ensures LONG_MIN <= x <= LONG_MAX ==> r == x
    ensures (r - x) % TWO_64 == 0
  {
    WrapFacts(x);
    Signed(x % TWO_64)
  }

  lemma WrapFacts(x: int)
    ensures LONG_MIN <= x <= LONG_MAX ==> Signed(x % TWO_64) == x
    ensures (Signed(x % TWO_64) - x) % TWO_64 == 0
  {
    var q, u := x / TWO_64, x % TWO_64;
    assert x == TWO_64 * q + u;
    if u <= LONG_MAX {
      DivModUnique(u - x, TWO_64, -q, 0);
    } else {
      DivModUnique(u - TWO_64 - x, TWO_64, -q - 1, 0);
    }
    if 0 <= x <= LONG_MAX {
      DivModUnique(x, TWO_64, 0, x);
    } else if LONG_MIN <= x < 0 {
      DivModUnique(x, TWO_64, -1, x + TWO_64);
    }
  }

  /** Java's `a & b` on two longs. A non-negative operand bounds the
      result from above, and the result is then non-negative. */
  function JavaAnd(a: Long, b: Long): (r: Long)
    ensures b >= 0 ==> 0 <= r <= b
    ensures a >= 0 ==> 0 <= r <= a
  {
    AndBitsFit(a, b);
    AndBitsBounded(a, b);
    Signed(AndBits(a, b, 64) % TWO_64)
  }

  /** The 64 low bits of an AND already fit in 64 bits. */
  lemma AndBitsFit(a: int, b: int)
    ensures AndBits(a, b, 64) % TWO_64 == AndBits(a, b, 64)
  {
    AndBitsBelow(a, b, 64);
    Pow2Of64();
    DivModUnique(AndBits(a, b, 64), TWO_64, 0, AndBits(a, b, 64));
  }

  /** Java's `a % d` for a positive divisor: the remainder truncated toward
      zero, so it takes the sign of `a`. */
  function JavaRem(a: int, d: int): (r: int)
    requires d > 0
    ensures -d < r < d
    ensures a >= 0 ==> r >= 0
    ensures a <= 0 ==> r <= 0
    ensures (a - r) % d == 0
  {
    if a >= 0 then
      DivModUnique(a - a % d, d, a / d, 0);
      a % d
    else
      DivModUnique(a + (-a) % d, d, -((-a) / d), 0);
      -((-a) % d)
  }

  /** The hash `LongLongMap.initHasher` picks: a bit mask when
      `((mapSize - 1) & mapSize) == 0`, the Java remainder otherwise. */
  datatype Hasher = Mask(mask: Long) | Remainder(divisor: Long)

  predicate WellFormed(hs: Hasher) {
    hs.Remainder? ==> hs.divisor > 0
  }

  function InitHasher(mapSize: Long): (hs: Hasher)
    requires mapSize >= 0
    ensures WellFormed(hs)
    ensures hs.Remainder? ==> mapSize > 0 && hs.divisor == mapSize
    ensures hs.Mask? ==> hs.mask == mapSize - 1
  {
    if JavaAnd(mapSize - 1, mapSize) == 0 then
      Mask(mapSize - 1)
    else
      assert mapSize != 0 by { AndZeroRight(-1, 64); }
      Remainder(mapSize)
  }

  /** hasher.applyAsLong(value): a mask hash is no larger than a
      non-negative mask; a remainder hash lies strictly between -d and d and
      differs from the key by a multiple of d. */
  function Apply(hs: Hasher, value: Long): (r: Long)
    requires WellFormed(hs)
    ensures hs.Mask? && hs.mask >= 0 ==> 0 <= r <= hs.mask
    ensures hs.Remainder? ==> -hs.divisor < r < hs.divisor && (value - r) % hs.divisor == 0
  {
    match hs
    case Mask(m) => JavaAnd(value, m)
    case Remainder(d) => JavaRem(value, d)
  }

  lemma {:induction false} AndZeroRight(a: int, w: nat)
    ensures AndBits(a, 0, w) == 0
    decreases w
  {
    if w > 0 { AndZeroRight(a / 2, w - 1); }
  }

  /** A non-negative mask bounds the AND. */
  lemma {:induction false} AndBitsAtMost(a: int, b: int, w: nat)
    requires b >= 0
    ensures AndBits(a, b, w) <= b
    decreases w
  {
    if w > 0 { AndBitsAtMost(a / 2, b / 2, w - 1); }
  }

  /** The AND is symmetric in its bound: a non-negative left operand bounds
      it too. */
  lemma {:induction false} AndBitsAtMostLeft(a: int, b: int, w: nat)
    requires a >= 0
    ensures AndBits(a, b, w) <= a
    decreases w
  {
    if w > 0 { AndBitsAtMostLeft(a / 2, b / 2, w - 1); }
  }

  lemma AndBitsBounded(a: int, b: int)
    ensures b >= 0 ==> AndBits(a, b, 64) <= b
    ensures a >= 0 ==> AndBits(a, b, 64) <= a
  {
    if b >= 0 { AndBitsAtMost(a, b, 64); }
    if a >= 0 { AndBitsAtMostLeft(a, b, 64); }
  }

  lemma ModDoubling(x: int, p: nat)
    requires p >= 1
    ensures x % (2 * p) == x % 2 + 2 * ((x / 2) % p)
  {
    var q, b := (x / 2) / p, (x / 2) % p;
    assert x / 2 == p * q + b;
    assert x == 2 * (x / 2) + x % 2;
    assert x == (2 * p) * q + (2 * b + x % 2);
    assert 0 <= 2 * b + x % 2 < 2 * p;
    DivModUnique(x, 2 * p, q, 2 * b + x % 2);
  }

  lemma DivModUnique(x: int, d: int, q: int, r: int)
    requires d > 0 && 0 <= r < d && x == d * q + r
    ensures x % d == r
  {
    var q', r' := x / d, x % d;
    assert x == d * q' + r';
    if q' > q {
      assert d * q' >= d * (q + 1) by { MulMonotone(d, q + 1, q'); }
    } else if q' < q {
      assert d * q >= d * (q' + 1) by { MulMonotone(d, q' + 1, q); }
    }
  }

  lemma MulMonotone(d: int, a: int, b: int)
    requires d > 0 && a <= b
    ensures d * a <= d * b
  {
  }

  /** AND with 2^k - 1 keeps the low k bits: it is the Euclidean remainder. */
  lemma {:induction false} AndLowMask(x: int, k: nat, w: nat)
    requires k <= w
    ensures AndBits(x, Pow2(k) - 1, w) == x % Pow2(k)
    decreases w
  {
    if k == 0 {
      AndZeroRight(x, w);
    } else {
      var m := Pow2(k) - 1;
      assert m % 2 == 1 && m / 2 == Pow2(k - 1) - 1;
      AndLowMask(x / 2, k - 1, w - 1);
      ModDoubling(x, Pow2(k - 1));
    }
  }

  /** `n` is a power of two, read off its binary digits. */
  predicate IsPow2(n: int)
    decreases if n < 0 then 0 else n
  {
    n == 1 || (n >= 2 && n % 2 == 0 && IsPow2(n / 2))
  }

  lemma {:induction false} Pow2IsPow2(k: nat)
    ensures IsPow2(Pow2(k))
  {
    if k > 0 {
      Pow2IsPow2(k - 1);
      assert Pow2(k) / 2 == Pow2(k - 1);
    }
  }

  /** A power of two `n` and `n - 1` share no bit. */
  lemma {:induction false} PowerHasNoBitBelow(n: int, w: nat)
    requires IsPow2(n)
    ensures AndBits(n - 1, n, w) == 0
    decreases w
  {
    if w > 0 {
      if n == 1 {
        AndZeroLeft(0, w - 1);
      } else {
        assert (n - 1) % 2 == 1 && (n - 1) / 2 == n / 2 - 1;
        PowerHasNoBitBelow(n / 2, w - 1);
      }
    }
  }

  /** A number below 2^w ANDed with itself over w bits is itself. */
  lemma {:induction false} AndSelf(m: int, w: nat)
    requires 0 <= m < Pow2(w)
    ensures AndBits(m, m, w) == m
    decreases w
  {
    if w > 0 {
      AndSelf(m / 2, w - 1);
    }
  }

  /** The converse of PowerHasNoBitBelow: a positive `n` below 2^w sharing
      no bit with `n - 1` is a power of two. An odd `n > 1` shares its
      upper bits `n / 2` with `n - 1`. */
  lemma {:induction false} NoBitBelowIsPow2(n: int, w: nat)
    requires 1 <= n < Pow2(w) && AndBits(n - 1, n, w) == 0
    ensures IsPow2(n)
    decreases w
  {
    if n > 1 {
      assert w > 0;
      if n % 2 == 1 {
        assert (n - 1) / 2 == n / 2 && (n - 1) % 2 == 0;
        AndSelf(n / 2, w - 1);
        assert false;
      } else {
        assert (n - 1) % 2 == 1 && (n - 1) / 2 == n / 2 - 1;
        NoBitBelowIsPow2(n / 2, w - 1);
      }
    }
  }

  lemma {:induction false} AndZeroLeft(b: int, w: nat)
    ensures AndBits(0, b, w) == 0
    decreases w
  {
    if w > 0 { AndZeroLeft(b / 2, w - 1); }
  }

  lemma Pow2Monotone(j: nat, k: nat)
    requires j <= k
    ensures Pow2(j) <= Pow2(k)
    decreases k
  {
    if j < k { Pow2Monotone(j, k - 1); }
  }

  /** Hash range for a power-of-two slot count: the hasher is the mask
      `n - 1`, and the hash is the Euclidean remainder, in [0, n) for every
      key, negative ones included. */
  lemma PowerOfTwoHash(k: nat, key: Long)
    requires k <= 62
    ensures Pow2(k) <= LONG_MAX
    ensures InitHasher(Pow2(k)) == Mask(Pow2(k) - 1)
    ensures Apply(InitHasher(Pow2(k)), key) == key % Pow2(k)
    ensures 0 <= Apply(InitHasher(Pow2(k)), key) < Pow2(k)
  {
    PowerOfTwoSelectsMask(k);
    var n := Pow2(k);
    var m: Long := n - 1;
    assert InitHasher(n) == Mask(m);
    AndLowMask(key, k, 64);
    assert AndBits(key, m, 64) == key % n;
    MaskIsAndBits(m, key);
    assert Apply(Mask(m), key) == AndBits(key, m, 64);
  }

  /** Every power of two up to 2^62 is a `long` slot count that makes
      initHasher pick the mask. */
  lemma PowerOfTwoSelectsMask(k: nat)
    requires k <= 62
    ensures Pow2(k) <= LONG_MAX
    ensures InitHasher(Pow2(k)) == Mask(Pow2(k) - 1)
  {
    PowerOfTwoFits(k);
    Pow2IsPow2(k);
    PowerSelectsMask(Pow2(k));
  }

  lemma PowerOfTwoFits(k: nat)
    requires k <= 62
    ensures Pow2(k) <= LONG_MAX
  {
    Pow2Monotone(k, 62);
    Pow2Of64();
    Pow2Add(62, 2);
    assert Pow2(2) == 4;
  }

  /** initHasher picks the mask for a positive slot count exactly when it
      is a power of two (then it shares no bit with `n - 1`), and the
      remainder for every other one. */
  lemma PowerSelectsMask(n: Long)
    requires n >= 1
    ensures InitHasher(n) == Mask(n - 1) <==> IsPow2(n)
    ensures !IsPow2(n) ==> InitHasher(n) == Remainder(n)
  {
    AndBitsFit(n - 1, n);
    Pow2Of64();
    if IsPow2(n) {
      PowerHasNoBitBelow(n, 64);
    }
    if AndBits(n - 1, n, 64) == 0 {
      NoBitBelowIsPow2(n, 64);
    }
  }

  /** Any slot count that selects the mask (every power of two) hashes every
      key into [0, n). */
  lemma MaskHashInRange(n: Long, key: Long)
    requires n >= 1 && InitHasher(n).Mask?
    ensures 0 <= Apply(InitHasher(n), key) < n
  {
    var m: Long := n - 1;
    assert InitHasher(n) == Mask(m);
    MaskHashAtMost(m, key);
  }

  /** A non-negative mask bounds the hash. */
  lemma MaskHashAtMost(m: Long, key: Long)
    requires m >= 0
    ensures 0 <= Apply(Mask(m), key) <= m
  {
    MaskIsAndBits(m, key);
    AndBitsAtMost(key, m, 64);
  }

  /** With a non-negative mask, Java's `&` is the (non-negative) AndBits. */
  lemma MaskIsAndBits(m: Long, key: Long)
    requires m >= 0
    ensures Apply(Mask(m), key) == AndBits(key, m, 64)
  {
    AndBitsAtMost(key, m, 64);
    AndBitsFit(key, m);
  }

  /** With any other slot count the hash is Java's truncating remainder: it
      lands in [0, n) exactly for the non-negative keys and the negative
      multiples of n; every other negative key gets a negative hash. */
  lemma RemainderHashRange(n: Long, key: Long)
    requires n >= 1 && InitHasher(n).Remainder?
    ensures -n < Apply(InitHasher(n), key) < n
    ensures 0 <= Apply(InitHasher(n), key) < n <==> key >= 0 || key % n == 0
  {
    var hs := InitHasher(n);
    assert hs == Remainder(n);
    var r := JavaRem(key, n);
    assert Apply(hs, key) == r;
    if key < 0 {
      NegatedRemainder(key, n);
    }
  }

  lemma NegatedRemainder(key: int, n: int)
    requires n >= 1 && key < 0
    ensures (-key) % n == 0 <==> key % n == 0
  {
    if (-key) % n == 0 {
      var q := (-key) / n;
      assert -key == n * q;
      assert key == n * (-q);
      DivModUnique(key, n, -q, 0);
    }
    if key % n == 0 {
      var q := key / n;
      assert key == n * q;
      assert -key == n * (-q);
      DivModUnique(-key, n, -q, 0);
    }
  }

  /** Whichever hasher `n > 0` records select, every hash lies in (-n, n). */
  lemma HashInRange(n: Long, key: Long)
    requires n > 0
    ensures -n < Apply(InitHasher(n), key) < n
  {
    if InitHasher(n).Mask? {
      MaskHashInRange(n, key);
    } else {
      RemainderHashRange(n, key);
    }
  }

  /** Three slots (not a power of two): the key -1 hashes to -1, outside the
      slot range. */
  lemma NegativeKeyHashExample()
    ensures InitHasher(3) == Remainder(3)
    ensures Apply(InitHasher(3), -1) == -1
  {
    AndBitsFit(2, 3);
    assert AndBits(2, 3, 64) == 2 by {
      AndZeroLeft(0, 62);
      assert AndBits(1, 1, 63) == 1 + 2 * AndBits(0, 0, 62);
    }
  }
}
