/** The arithmetic macros of include/compiler.h: `MIN`, `MAX`, `ALIGN` and
    `ALIGN_DOWN`.  `ALIGN` works on unsigned machine words, so additions and
    subtractions wrap modulo 2^WordBits and the mask is a bitwise AND with a
    complement; both are written out here on natural numbers. */
module Compiler {

  /** Width of the unsigned word (`UINTN` / `size_t` on a 64-bit target). */
  const WordBits: nat := 64

  function Pow2(k: nat): (r: nat)
    ensures r >= 1
  {
    if k == 0 then 1 else 2 * Pow2(k - 1)
  }

  /** One more than the largest word value, 2^WordBits (see `ModulusIsPow2`). */
  const Modulus: nat := 0x1_0000_0000_0000_0000

  /** Unsigned word addition and subtraction, wrapping around. */
  function WordAdd(x: nat, y: nat): (r: nat)
    ensures r < Modulus
  {
    (x + y) % Modulus
  }

  function WordSub(x: nat, y: nat): (r: nat)
    ensures r < Modulus
  {
    (x - y) % Modulus
  }

  /** Bitwise AND of two naturals, bit by bit from the least significant. */
  function BitAnd(x: nat, y: nat): (r: nat)
    ensures r <= x && r <= y
    decreases x
  {
    if x == 0 || y == 0 then 0
    else 2 * BitAnd(x / 2, y / 2) + (if x % 2 == 1 && y % 2 == 1 then 1 else 0)
  }

  /** Bitwise complement of a word. */
  function BitNot(x: nat): nat
    requires x < Modulus
  {
    Modulus - 1 - x
  }

  /** `MIN(a, b)`: `a` when `a < b`, otherwise `b`. */
  function Min(a: int, b: int): (r: int)
    ensures r <= a && r <= b
    ensures r == a || r == b
  {
    if a < b then a else b
  }

  /** `MAX(a, b)`: `b` when `a <= b`, otherwise `a`. */
  function Max(a: int, b: int): (r: int)
    ensures r >= a && r >= b
    ensures r == a || r == b
  {
    if a <= b then b else a
  }

  /** `__ALIGN_MASK(x, mask)`: `((x) + (mask)) & ~(mask)`. */
  function AlignMask(x: nat, mask: nat): (r: nat)
    requires mask < Modulus
    ensures r < Modulus && r + mask < Modulus
  {
    BitAnd(WordAdd(x, mask), BitNot(mask))
  }

  /** `ALIGN(x, a)`: `__ALIGN_MASK(x, (a) - 1)`. */
  function Align(x: nat, a: nat): (r: nat)
    ensures r < Modulus
  {
    AlignMask(x, WordSub(a, 1))
  }

  /** `ALIGN_DOWN(x, a)`: `__ALIGN((x) - ((a) - 1), (a))`. */
  function AlignDown(x: nat, a: nat): (r: nat)
    ensures r < Modulus
  {
    Align(WordSub(x, WordSub(a, 1)), a)
  }

  /** Multiplication by a non-negative factor is monotone. */
  lemma {:induction false} MulMonotone(m: int, a: int, b: int)
    requires m >= 0 && a <= b
    ensures m * a <= m * b
  {
    var d := b - a;
    assert m * b == m * a + m * d;
    assert m * d >= 0;
  }

  /** A strictly larger factor adds at least one more `m`. */
  lemma {:induction false} MulStrict(m: int, a: int, b: int)
    requires m >= 0
    ensures a < b ==> m * a + m <= m * b
  {
    if a < b {
      MulMonotone(m, a + 1, b);
      assert m * (a + 1) == m * a + m;
    }
  }

  /** The word modulus is 2^WordBits. */
  lemma ModulusIsPow2()
    ensures Pow2(WordBits) == Modulus
  {
    assert Pow2(8) == 0x100;
    Pow2Product(8, 16);
    Pow2Product(16, 32);
    Pow2Product(32, 64);
  }

  /** Euclidean division: quotient times divisor plus remainder. */
  lemma {:induction false} DivMod(y: int, m: int)
    requires m > 0
    ensures y == m * (y / m) + y % m && 0 <= y % m < m
  {
  }

  /** Comparing products with a common positive factor compares the factors. */
  lemma {:induction false} MulLess(m: int, a: int, b: int)
    requires m > 0
    ensures m * a < m * b ==> a < b
  {
    if a >= b {
      MulMonotone(m, b, a);
    }
  }

  /** Of two multiples of `a`, one less than `a` below the other is not
      above it. */
  lemma {:induction false} MultipleAbove(a: int, r: int, m: int)
    requires a > 0 && r % a == 0 && m % a == 0 && r - a < m
    ensures r <= m
  {
    DivMod(r, a);
    DivMod(m, a);
    MulStrict(a, m / a, r / a);
  }

  /** A multiple of `a` below `a * c` leaves room for one more `a`. */
  lemma {:induction false} MultipleBelow(x: int, a: int, c: int)
    requires a > 0 && x % a == 0 && x < a * c
    ensures x + a <= a * c
  {
    var q := x / a;
    assert x == a * q by { DivMod(x, a); }
    MulLess(a, q, c);
    MulStrict(a, q, c);
  }

  /** Division by a positive modulus has a unique quotient and remainder. */
  lemma {:induction false} DivModUnique(y: int, m: int, q: int, rem: int)
    requires m > 0 && 0 <= rem < m && y == m * q + rem
    ensures y % m == rem && y / m == q
  {
    var q', r' := y / m, y % m;
    assert y == m * q' + r';
    MulStrict(m, q', q);
    MulStrict(m, q, q');
  }

  lemma {:induction false} Pow2Monotone(j: nat, k: nat)
    requires j <= k
    ensures Pow2(j) <= Pow2(k)
    decreases k
  {
    if j < k {
      Pow2Monotone(j, k - 1);
    }
  }

  /** A larger power of two is a multiple of a smaller one. */
  lemma {:induction false} Pow2Product(j: nat, k: nat)
    requires j <= k
    ensures Pow2(k) == Pow2(j) * Pow2(k - j)
    decreases k
  {
    if j < k {
      Pow2Product(j, k - 1);
      assert Pow2(k - j) == 2 * Pow2(k - 1 - j);
    }
  }

  /** A value below the modulus is its own remainder. */
  lemma {:induction false} ModSmall(y: int, m: int)
    requires 0 <= y < m
    ensures y % m == y && y / m == 0
  {
    DivModUnique(y, m, 0, y);
  }

  /** The low `k` bits of `y`: its remainder modulo 2^k, split off one bit. */
  lemma {:induction false} ModPow2Split(y: nat, k: nat)
    requires k >= 1
    ensures y % Pow2(k) == y % 2 + 2 * ((y / 2) % Pow2(k - 1))
  {
    var p := Pow2(k - 1);
    var h := y / 2;
    var q, rem := h / p, h % p;
    assert y == 2 * h + y % 2;
    assert h == p * q + rem;
    assert 2 * h == (2 * p) * q + 2 * rem;
    assert y == Pow2(k) * q + (y % 2 + 2 * rem);
    DivModUnique(y, Pow2(k), q, y % 2 + 2 * rem);
  }

  /** AND with the all-ones mask of width `w` keeps a `w`-bit value. */
  lemma {:induction false} BitAndOnes(y: nat, w: nat)
    requires y < Pow2(w)
    ensures BitAnd(y, Pow2(w) - 1) == y
    decreases w
  {
    if y != 0 {
      assert w >= 1;
      var m := Pow2(w) - 1;
      assert m == 2 * (Pow2(w - 1) - 1) + 1;
      assert m % 2 == 1 && m / 2 == Pow2(w - 1) - 1;
      BitAndOnes(y / 2, w - 1);
    }
  }

  /** The complement mask 2^w - 2^k is even and halves to 2^(w-1) - 2^(k-1). */
  lemma {:induction false} MaskHalves(w: nat, k: nat)
    requires 1 <= k < w
    ensures Pow2(k) < Pow2(w)
    ensures (Pow2(w) - Pow2(k)) % 2 == 0
    ensures (Pow2(w) - Pow2(k)) / 2 == Pow2(w - 1) - Pow2(k - 1)
  {
    Pow2Monotone(k, w - 1);
    var h := Pow2(w - 1) - Pow2(k - 1);
    assert Pow2(w) - Pow2(k) == 2 * h;
    DivModUnique(Pow2(w) - Pow2(k), 2, h, 0);
  }

  /** AND with an even mask: the low bit is clear, the rest is the AND of
      the halves. */
  lemma {:induction false} BitAndEven(y: nat, m: nat)
    requires m % 2 == 0
    ensures BitAnd(y, m) == 2 * BitAnd(y / 2, m / 2)
  {
  }

  /** The value of the low `k` bits of `y`, bit by bit. */
  function LowBits(y: nat, k: nat): nat
  {
    if k == 0 then 0 else y % 2 + 2 * LowBits(y / 2, k - 1)
  }

  /** The low `k` bits are the remainder modulo 2^k. */
  lemma {:induction false} LowBitsMod(y: nat, k: nat)
    ensures LowBits(y, k) == y % Pow2(k)
    decreases k
  {
    if k == 0 {
      ModSmall(0, 1);
      DivModUnique(y, 1, y, 0);
    } else {
      LowBitsMod(y / 2, k - 1);
      ModPow2Split(y, k);
    }
  }

  /** AND with the complement of 2^k - 1 (in a `w`-bit word) clears the low
      `k` bits. */
  lemma {:induction false} ClearLowBits(y: nat, w: nat, k: nat)
    requires k <= w && y < Pow2(w)
    ensures Pow2(k) <= Pow2(w) && BitAnd(y, Pow2(w) - Pow2(k)) == y - LowBits(y, k)
    decreases k
  {
    Pow2Monotone(k, w);
    if k == 0 {
      BitAndOnes(y, w);
    } else if k == w {
      assert LowBits(y, k) == y by {
        LowBitsMod(y, k);
        ModSmall(y, Pow2(w));
      }
    } else {
      var m := Pow2(w) - Pow2(k);
      var h := y / 2;
      assert BitAnd(y, m) == 2 * BitAnd(h, Pow2(w - 1) - Pow2(k - 1)) by {
        MaskHalves(w, k);
        BitAndEven(y, m);
      }
      assert h < Pow2(w - 1);
      ClearLowBits(h, w - 1, k - 1);
    }
  }

  /** A power of two that fits the word width is at most the modulus. */
  lemma {:induction false} PowerBelowWord(k: nat)
    requires k <= WordBits
    ensures Pow2(k) <= Modulus
  {
    ModulusIsPow2();
    Pow2Monotone(k, WordBits);
  }

  /** AND with the word complement of 2^k - 1 clears the low `k` bits. */
  lemma {:induction false} ClearLowWord(y: nat, k: nat)
    requires k <= WordBits && y < Modulus
    ensures Pow2(k) <= Modulus && BitAnd(y, Modulus - Pow2(k)) == y - y % Pow2(k)
  {
    ModulusIsPow2();
    ClearLowBits(y, WordBits, k);
    LowBitsMod(y, k);
  }

  /** `ALIGN(x, a)` for `1 <= a <= 2^WordBits`: the wrapped sum ANDed with
      the complement of `a - 1`. */
  lemma {:induction false} AlignMaskValue(x: nat, a: nat)
    requires 1 <= a <= Modulus
    ensures Align(x, a) == BitAnd(WordAdd(x, a - 1), Modulus - a)
  {
    assert WordSub(a, 1) == a - 1 by { ModSmall(a - 1, Modulus); }
  }

  /** `ALIGN(x, a)` when `x + a - 1` does not wrap. */
  lemma {:induction false} AlignNoWrap(x: nat, a: nat)
    requires 1 <= a && x + a - 1 < Modulus
    ensures Align(x, a) == BitAnd(x + a - 1, Modulus - a)
  {
    AlignMaskValue(x, a);
    ModSmall(x + a - 1, Modulus);
  }

  /** What the mask computes, for a power-of-two alignment 2^k and a sum
      that does not wrap. */
  lemma {:induction false} AlignValue(x: nat, k: nat)
    requires k < WordBits && x + Pow2(k) - 1 < Modulus
    ensures Align(x, Pow2(k)) == (x + Pow2(k) - 1) - (x + Pow2(k) - 1) % Pow2(k)
  {
    PowerBelowWord(k);
    AlignNoWrap(x, Pow2(k));
    ClearLowWord(x + Pow2(k) - 1, k);
  }

  /** For a power-of-two `a`, `ALIGN(x, a)` is the smallest multiple of `a`
      that is at least `x`, provided `x + a - 1` does not overflow. */
  lemma {:induction false} AlignRoundsUp(x: nat, k: nat)
    requires k < WordBits && x + Pow2(k) - 1 < Modulus
    ensures Align(x, Pow2(k)) % Pow2(k) == 0
    ensures x <= Align(x, Pow2(k)) < x + Pow2(k)
    ensures forall m: nat :: m % Pow2(k) == 0 && x <= m ==> Align(x, Pow2(k)) <= m
  {
    var a := Pow2(k);
    var y := x + a - 1;
    var q := y / a;
    var r := Align(x, a);
    assert r == a * q by {
      AlignValue(x, k);
      DivMod(y, a);
    }
    assert r % a == 0 by { DivModUnique(r, a, q, 0); }
    assert x <= r < x + a by {
      AlignValue(x, k);
      DivMod(y, a);
    }
    forall m: nat | m % a == 0 && x <= m
      ensures r <= m
    {
      MultipleAbove(a, r, m);
    }
  }

  /** `ALIGN(x, a) == x` whenever `x` is already a multiple of `a`. */
  lemma {:induction false} AlignAligned(x: nat, k: nat)
    requires k < WordBits && x < Modulus && x % Pow2(k) == 0
    ensures Align(x, Pow2(k)) == x
  {
    var a := Pow2(k);
    assert Modulus == a * Pow2(WordBits - k) by {
      ModulusIsPow2();
      Pow2Product(k, WordBits);
    }
    MultipleBelow(x, a, Pow2(WordBits - k));
    AlignValue(x, k);
    assert (x + a - 1) % a == a - 1 by {
      DivMod(x, a);
      DivModUnique(x + a - 1, a, x / a, a - 1);
    }
  }

  /** Subtracting and adding back the same word is the identity, wrap-around
      or not. */
  lemma {:induction false} WordSubAdd(x: nat, b: nat)
    requires x < Modulus && b < Modulus
    ensures WordAdd(WordSub(x, b), b) == x
  {
    var M := Modulus;
    if x >= b {
      ModSmall(x - b, M);
      ModSmall(x, M);
    } else {
      DivModUnique(x - b, M, -1, x - b + M);
      DivModUnique(x + M, M, 1, x);
    }
  }

  /** Rounding down to a multiple of `a`. */
  lemma {:induction false} RoundDown(x: nat, a: nat)
    requires a > 0
    ensures (x - x % a) % a == 0 && x - a < x - x % a <= x
  {
    DivMod(x, a);
    DivModUnique(x - x % a, a, x / a, 0);
  }

  /** `ALIGN_DOWN(x, a)` for `1 <= a <= 2^WordBits`: the subtraction and the
      addition of `a - 1` cancel, wrap-around or not, leaving the mask. */
  lemma {:induction false} AlignDownMask(x: nat, a: nat)
    requires 1 <= a <= Modulus && x < Modulus
    ensures AlignDown(x, a) == BitAnd(x, Modulus - a)
  {
    assert WordSub(a, 1) == a - 1 by { ModSmall(a - 1, Modulus); }
    AlignMaskValue(WordSub(x, a - 1), a);
    WordSubAdd(x, a - 1);
  }

  /** For a power-of-two `a`, `ALIGN_DOWN(x, a)` clears the low bits of `x`. */
  lemma {:induction false} AlignDownValue(x: nat, k: nat)
    requires k < WordBits && x < Modulus
    ensures AlignDown(x, Pow2(k)) == x - x % Pow2(k)
  {
    PowerBelowWord(k);
    AlignDownMask(x, Pow2(k));
    ClearLowWord(x, k);
  }

  /** For a power-of-two `a`, `ALIGN_DOWN(x, a)` is the largest multiple of
      `a` that is at most `x`. */
  lemma {:induction false} AlignDownRoundsDown(x: nat, k: nat)
    requires k < WordBits && x < Modulus
    ensures AlignDown(x, Pow2(k)) % Pow2(k) == 0
    ensures x - Pow2(k) < AlignDown(x, Pow2(k)) <= x
  {
    AlignDownValue(x, k);
    RoundDown(x, Pow2(k));
  }
}
