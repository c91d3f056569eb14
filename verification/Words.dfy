/**
 Machine words as natural numbers.

 A `uint64` of the program is a `nat` below `WORD`.  Every mask the program
 folds a value with is one less than a power of two, so `x & mask` is
 `x % (mask + 1)`; `FoldAbsorbsWrap` is the reason why the 64-bit wrap-around of
 an intermediate sum never shows through such a fold.
 */
module Words {

  const WORD: int := 0x1_0000_0000_0000_0000

  function Pow2(n: nat): (p: nat)
    ensures p >= 1
  {
    if n == 0 then 1 else 2 * Pow2(n - 1)
  }

  ghost predicate IsPow2(x: int) {
    exists j: nat :: Pow2(j) == x
  }

  /** `x & mask` for a mask of ones. */
  function Fold(x: int, mask: nat): (r: nat)
    ensures r <= mask
  {
    x % (mask + 1)
  }

  /** The all-ones mask of a value of `size` bytes. */
  function MaskForSize(size: int): (mask: nat) {
    if size <= 0 then 0 else if size >= 8 then WORD - 1 else Pow2(8 * size) - 1
  }

  /** `x >> n` for a shift of weight `w`. */
  function Shr(x: nat, w: nat): (r: nat)
    requires w > 0
  {
    x / w
  }

  /** The two's complement reading of `x` in the ring of `mask`. */
  function Signed(x: int, mask: nat): int {
    if x > mask / 2 then x - (mask + 1) else x
  }

  // ----- divisibility -----

  lemma {:induction false} Pow2Add(a: nat, b: nat)
    ensures Pow2(a + b) == Pow2(a) * Pow2(b)
  {
    if a == 0 {
    } else {
      Pow2Add(a - 1, b);
      calc {
        Pow2(a + b);
        2 * Pow2(a - 1 + b);
        2 * (Pow2(a - 1) * Pow2(b));
        (2 * Pow2(a - 1)) * Pow2(b);
        Pow2(a) * Pow2(b);
      }
    }
  }

  lemma Pow2Monotone(a: nat, b: nat)
    requires a <= b
    ensures Pow2(a) <= Pow2(b)
  {
    Pow2Add(a, b - a);
    MulAtLeast(Pow2(a), Pow2(b - a));
  }

  lemma Pow2StrictlyMonotone(a: nat, b: nat)
    requires a < b
    ensures Pow2(a) < Pow2(b)
  {
    Pow2Monotone(a, b - 1);
  }

  lemma MulAtLeast(x: nat, y: nat)
    requires y >= 1
    ensures x * y >= x
  {
    assert x * y == x * (y - 1) + x;
  }

  lemma MultipleHasNoRemainder(q: int, d: int)
    requires d > 0
    ensures (q * d) % d == 0
  {
    RemainderUnique(q * d, d, q, 0);
  }

  /** Euclidean division has one answer. */
  lemma RemainderUnique(x: int, d: int, q: int, r: int)
    requires d > 0 && 0 <= r < d && x == q * d + r
    ensures x / d == q && x % d == r
  {
    SameQuotient(x / d, x % d, q, r, d);
  }

  lemma SameQuotient(p: int, s: int, q: int, r: int, d: int)
    requires d > 0 && 0 <= s < d && 0 <= r < d && p * d + s == q * d + r
    ensures p == q && s == r
  {
    assert (p - q) * d == r - s by { assert (p - q) * d == p * d - q * d; }
    if p > q {
      MultipleIsLarge(p - q, d);
    } else if p < q {
      assert (q - p) * d == s - r by { assert (q - p) * d == q * d - p * d; }
      MultipleIsLarge(q - p, d);
    }
  }

  lemma MultipleIsLarge(k: int, d: int)
    requires k > 0 && d > 0
    ensures k * d >= d
  {
    assert k * d == (k - 1) * d + d;
  }

  lemma Pow2Divides(a: nat, b: nat)
    requires a <= b
    ensures Pow2(b) % Pow2(a) == 0
  {
    Pow2Add(b - a, a);
    MultipleHasNoRemainder(Pow2(b - a), Pow2(a));
  }

  /** Of two powers of two the smaller divides the larger. */
  lemma PowersDivide(x: nat, y: nat)
    requires IsPow2(x) && IsPow2(y) && x <= y
    ensures y % x == 0
  {
    var i: nat :| Pow2(i) == x;
    var j: nat :| Pow2(j) == y;
    if j < i {
      Pow2StrictlyMonotone(j, i);
      assert false;
    }
    Pow2Divides(i, j);
  }

  /** Shifting by a multiple of the divisor keeps the remainder. */
  lemma ShiftByMultiple(x: int, q: int, d: int)
    requires d > 0
    ensures (x + q * d) % d == x % d
  {
    assert x == (x / d) * d + x % d;
    assert x + q * d == (x / d + q) * d + x % d by {
      assert (x / d + q) * d == (x / d) * d + q * d;
    }
    RemainderUnique(x + q * d, d, x / d + q, x % d);
  }

  /** A remainder modulo a multiple of `d` keeps the remainder modulo `d`. */
  lemma ModOfMultiple(x: int, n: int, d: int)
    requires n > 0 && d > 0 && n % d == 0
    ensures (x % n) % d == x % d
  {
    var k := n / d;
    assert n == k * d;
    var q := x / n;
    assert x % n == x - q * n;
    assert q * n == (q * k) * d by {
      assert q * (k * d) == (q * k) * d;
    }
    assert x % n == x + (-(q * k)) * d by {
      assert (-(q * k)) * d == -((q * k) * d);
    }
    ShiftByMultiple(x, -(q * k), d);
  }

  lemma ModOfSum(x: int, y: int, d: int)
    requires d > 0
    ensures (x + y) % d == (x % d + y) % d
    ensures (x + y) % d == (x + y % d) % d
    ensures (x + y) % d == (x % d + y % d) % d
  {
    ShiftByMultiple(x % d + y, x / d, d);
    assert x + y == (x % d + y) + (x / d) * d;
    ShiftByMultiple(x + y % d, y / d, d);
    assert x + y == (x + y % d) + (y / d) * d;
    ShiftByMultiple(x % d + y % d, y / d, d);
    assert x % d + y == (x % d + y % d) + (y / d) * d;
  }

  lemma ModOfDifference(x: int, y: int, d: int)
    requires d > 0
    ensures (x - y) % d == (x % d - y) % d
    ensures (x - y) % d == (x - y % d) % d
    ensures (x - y) % d == (x % d - y % d) % d
  {
    ModOfSum(x, -y, d);
    ShiftByMultiple(x - y, y / d, d);
    assert (x - y) + (y / d) * d == x - y % d;
    ModOfSum(x, -(y % d), d);
  }

  lemma ModOfProduct(x: int, y: int, d: int)
    requires d > 0
    ensures (x * y) % d == ((x % d) * y) % d
    ensures (x * y) % d == (x * (y % d)) % d
    ensures (x * y) % d == ((x % d) * (y % d)) % d
  {
    ModOfLeftFactor(x, y, d);
    ModOfLeftFactor(y, x, d);
    ModOfLeftFactor(y, x % d, d);
    assert x * y == y * x && (y % d) * x == x * (y % d);
    assert (x % d) * y == y * (x % d) && (y % d) * (x % d) == (x % d) * (y % d);
  }

  lemma ModOfLeftFactor(x: int, y: int, d: int)
    requires d > 0
    ensures (x * y) % d == ((x % d) * y) % d
  {
    var q := x / d;
    assert x == q * d + x % d;
    calc {
      x * y;
      (q * d + x % d) * y;
      (q * d) * y + (x % d) * y;
      { assert (q * d) * y == (q * y) * d; }
      (x % d) * y + (q * y) * d;
    }
    ShiftByMultiple((x % d) * y, q * y, d);
  }

  lemma SmallMod(x: int, d: int)
    requires 0 <= x < d
    ensures x % d == x
  {
  }

  /** Equal remainders differ by a multiple. */
  lemma EqualRemainders(x: int, y: int, d: int)
    requires d > 0
    ensures x % d == y % d <==> (x - y) % d == 0
  {
    if (x - y) % d == 0 {
      SameByMultiple(x, y, (x - y) / d, d);
    }
    if x % d == y % d {
      ModOfDifference(x, y, d);
    }
  }

  lemma SameByMultiple(x: int, y: int, k: int, d: int)
    requires d > 0 && x - y == k * d
    ensures x % d == y % d
  {
    ShiftByMultiple(y, k, d);
  }

  /** A 64-bit wrap disappears in any fold to at most 64 bits. */
  lemma FoldAbsorbsWrap(x: int, k: nat)
    requires k <= 64
    ensures Fold(x % WORD, Pow2(k) - 1) == Fold(x, Pow2(k) - 1)
  {
    WordIsPow2();
    Pow2Divides(k, 64);
    ModOfMultiple(x, WORD, Pow2(k));
  }

  lemma WordIsPow2()
    ensures Pow2(64) == WORD
  {
    assert Pow2(8) == 256;
    assert Pow2(16) == 65536 by { Pow2Add(8, 8); }
    assert Pow2(32) == 0x1_0000_0000 by { Pow2Add(16, 16); }
    assert Pow2(64) == WORD by { Pow2Add(32, 32); }
  }

  lemma MaskIsPow2(size: int)
    ensures 0 <= size <= 8 ==> MaskForSize(size) + 1 == Pow2(8 * size)
    ensures size >= 8 ==> MaskForSize(size) + 1 == Pow2(64)
    ensures size >= 1 ==> MaskForSize(size) >= 255
    ensures MaskForSize(size) < WORD
  {
    WordIsPow2();
    if 1 <= size <= 8 {
      Pow2Monotone(8, 8 * size);
      assert Pow2(8) == 256;
      Pow2Monotone(8 * size, 64);
    }
  }
}
