/**
 Unsigned 64-bit words as naturals, with the bit operations the emulator's source uses,
 and the lemmas that turn every mask and shift into division and remainder.
 */
module Bits {

  const WORD: nat := 0x1_0000_0000_0000_0000

  type u64 = x: nat | x < 0x1_0000_0000_0000_0000
  type u16 = x: nat | x < 0x1_0000
  type u8 = x: nat | x < 0x100

  function Pow2(k: nat): (p: nat)
    ensures p > 0
  {
    if k == 0 then 1 else 2 * Pow2(k - 1)
  }

  /** Bitwise `&`. */
  function And(x: nat, y: nat): nat
  {
    if x == 0 || y == 0 then 0
    else (if x % 2 == 1 && y % 2 == 1 then 1 else 0) + 2 * And(x / 2, y / 2)
  }

  /** Bitwise `|`. */
  function Or(x: nat, y: nat): nat
  {
    if x == 0 then y
    else if y == 0 then x
    else (if x % 2 == 1 || y % 2 == 1 then 1 else 0) + 2 * Or(x / 2, y / 2)
  }

  /** Bitwise `~` of a 64-bit word. */
  function Not64(x: u64): u64 {
    WORD - 1 - x
  }

  function Shr(x: nat, k: nat): nat {
    QuotientNat(x, Pow2(k));
    x / Pow2(k)
  }

  lemma QuotientNat(x: int, d: int)
    requires x >= 0 && d > 0
    ensures x / d >= 0
  {
    var q := x / d;
    assert x == d * q + x % d;
    assert q <= -1 ==> d * q <= -d;
  }

  /** `<<` on 64-bit words: what is shifted out is lost. */
  function Shl64(x: nat, k: nat): u64 {
    (x * Pow2(k)) % WORD
  }

  /** Unsigned increment of a 64-bit counter. */
  function Inc64(x: u64): u64 {
    (x + 1) % WORD
  }

  lemma PowerTable()
    ensures Pow2(3) == 8 && Pow2(9) == 512 && Pow2(12) == 0x1000 && Pow2(16) == 0x1_0000
    ensures Pow2(21) == 0x20_0000 && Pow2(30) == 0x4000_0000 && Pow2(36) == 0x10_0000_0000
    ensures Pow2(39) == 0x80_0000_0000 && Pow2(48) == 0x1_0000_0000_0000 && Pow2(64) == WORD
  {
    assert Pow2(8) == 256;
    Pow2Sum(8, 1);
    Pow2Sum(8, 4);
    Pow2Sum(8, 8);
    Pow2Sum(16, 5);
    Pow2Sum(16, 14);
    Pow2Sum(16, 16);
    Pow2Sum(32, 4);
    Pow2Sum(32, 7);
    Pow2Sum(32, 16);
    Pow2Sum(32, 32);
  }

  lemma {:induction false} Pow2Sum(a: nat, b: nat)
    ensures Pow2(a + b) == Pow2(a) * Pow2(b)
  {
    if a > 0 {
      Pow2Sum(a - 1, b);
    }
  }

  lemma {:induction false} Pow2Strict(a: nat, b: nat)
    requires a < b
    ensures Pow2(a) < Pow2(b)
  {
    if a + 1 < b {
      Pow2Strict(a, b - 1);
    }
  }

  // ---------------------------------------------------------------- division

  /** The quotient and remainder are the only ones that fit. */
  lemma DivModUnique(x: int, d: int, q: int, r: int)
    requires d > 0 && 0 <= r < d && x == q * d + r
    ensures x / d == q && x % d == r
  {
    var k := x / d - q;
    assert k * d == r - x % d;
    assert k >= 1 ==> k * d >= d;
    assert k <= -1 ==> k * d <= -d;
  }

  lemma Regroup(x: nat, q: nat, b: nat, t: nat, a: nat, r: nat)
    requires x == (q * b + t) * a + r
    ensures x == q * (a * b) + (t * a + r)
  {
    assert (q * b + t) * a == (q * b) * a + t * a;
    assert (q * b) * a == q * (a * b);
  }

  lemma DigitBound(t: nat, a: nat, b: nat, r: nat)
    requires t < b && r < a
    ensures t * a + r < a * b
  {
    assert t * a <= (b - 1) * a == a * b - a;
  }

  /** Dropping the bits below `a` of a window of `a * b` values. */
  lemma WindowDiv(x: nat, a: nat, b: nat)
    requires a > 0 && b > 0
    ensures a * b > 0
    ensures (x % (a * b)) / a == (x / a) % b
    ensures (x % (a * b)) % a == x % a
    ensures x / (a * b) == (x / a) / b
  {
    QuotientNat(x, a);
    var y, r := x / a, x % a;
    QuotientNat(y, b);
    var q, t := y / b, y % b;
    var low := t * a + r;
    assert y == q * b + t && x == y * a + r;
    Regroup(x, q, b, t, a, r);
    DigitBound(t, a, b, r);
    DivModUnique(x, a * b, q, low);
    DivModUnique(low, a, t, r);
  }

  /** Equal blocks of size `a` lie in equal blocks of size `a * b`. */
  lemma CoarserBlock(x: nat, y: nat, a: nat, b: nat)
    requires a > 0 && b > 0 && x / a == y / a
    ensures a * b > 0 && x / (a * b) == y / (a * b)
  {
    WindowDiv(x, a, b);
    WindowDiv(y, a, b);
  }

  // ------------------------------------------------------------------- masks

  lemma HalveMod(x: nat, p: nat)
    requires p > 0
    ensures x % (2 * p) == x % 2 + 2 * ((x / 2) % p)
  {
    WindowDiv(x, 2, p);
  }

  /** `x & (2^k - 1)` keeps the remainder. */
  lemma {:induction false} AndLow(x: nat, k: nat)
    ensures And(x, Pow2(k) - 1) == x % Pow2(k)
  {
    if k > 0 {
      AndLow(x / 2, k - 1);
      HalveMod(x, Pow2(k - 1));
    }
  }

  lemma {:induction false} AndHighBits(x: nat, n: nat, k: nat)
    requires x < Pow2(n) && k <= n
    ensures Pow2(k) <= Pow2(n)
    ensures And(x, Pow2(n) - Pow2(k)) == x - x % Pow2(k)
  {
    if k == 0 {
      AndLow(x, n);
      DivModUnique(x, Pow2(n), 0, x);
    } else {
      var p, q, h := Pow2(n - 1), Pow2(k - 1), x / 2;
      AndHighBits(h, n - 1, k - 1);
      HalveMod(x, q);
      var y := Pow2(n) - Pow2(k);
      AndEven(x, y, p - q);
    }
  }

  lemma AndEven(u: nat, v: nat, w: nat)
    requires v == 2 * w
    ensures And(u, v) == 2 * And(u / 2, w)
  {
  }

  /** `x & ~(2^k - 1)` clears the remainder of a 64-bit word. */
  lemma AndHigh(x: u64, k: nat)
    requires k < 64
    ensures Pow2(k) < WORD
    ensures And(x, Not64(Pow2(k) - 1)) == x - x % Pow2(k)
  {
    PowerTable();
    Pow2Strict(k, 64);
    AndHighBits(x, 64, k);
  }

  /** Doubling `k` times, which keeps the proofs about `|` free of products. */
  function Doubled(x: nat, k: nat): nat {
    if k == 0 then x else 2 * Doubled(x, k - 1)
  }

  lemma {:induction false} DoubledIsProduct(x: nat, k: nat)
    ensures Doubled(x, k) == x * Pow2(k)
  {
    if k > 0 {
      DoubledIsProduct(x, k - 1);
      assert x * (2 * Pow2(k - 1)) == 2 * (x * Pow2(k - 1));
    }
  }

  lemma {:induction false} OrDoubled(x: nat, y: nat, low: nat, k: nat)
    requires low < Pow2(k)
    ensures Or(Doubled(x, k) + low, Doubled(y, k)) == Doubled(Or(x, y), k) + low
  {
    if k > 0 {
      OrDoubled(x, y, low / 2, k - 1);
      OrEven(Doubled(x, k - 1), Doubled(y, k - 1), low);
    }
  }

  /** `|` works on the parts above and below bit `k` separately. */
  lemma OrParts(x: nat, y: nat, low: nat, k: nat)
    requires low < Pow2(k)
    ensures Or(x * Pow2(k) + low, y * Pow2(k)) == Or(x, y) * Pow2(k) + low
  {
    OrDoubled(x, y, low, k);
    DoubledIsProduct(x, k);
    DoubledIsProduct(y, k);
    DoubledIsProduct(Or(x, y), k);
  }

  lemma OrEven(a: nat, b: nat, low: nat)
    ensures Or(2 * a + low, 2 * b) == low % 2 + 2 * Or(a + low / 2, b)
  {
    OrHalves(2 * a + low, 2 * b);
  }

  lemma OrOdd(w: nat, y: nat)
    ensures Or(2 * w + 1, y) == 1 + 2 * Or(w, y / 2)
  {
    OrHalves(2 * w + 1, y);
  }

  lemma OrHalves(u: nat, v: nat)
    ensures Or(u, v) == (if u % 2 == 1 || v % 2 == 1 then 1 else 0) + 2 * Or(u / 2, v / 2)
  {
  }

  lemma {:induction false} OrBelow(x: nat, y: nat, k: nat)
    requires x < Pow2(k) && y < Pow2(k)
    ensures Or(x, y) < Pow2(k)
  {
    if k > 0 {
      OrBelow(x / 2, y / 2, k - 1);
      OrHalves(x, y);
    }
  }

  lemma {:induction false} OrSelf(x: nat)
    ensures Or(x, x) == x
  {
    if x > 0 {
      OrSelf(x / 2);
    }
  }

  lemma {:induction false} OrCovers(x: nat, y: nat)
    ensures Or(x, y) >= x && Or(x, y) >= y
  {
    if x > 0 && y > 0 {
      OrCovers(x / 2, y / 2);
    }
  }

  /** All ones absorb everything. */
  lemma {:induction false} OrAllOnes(y: nat, k: nat)
    requires y < Pow2(k)
    ensures Or(Pow2(k) - 1, y) == Pow2(k) - 1
  {
    if k > 0 {
      OrAllOnes(y / 2, k - 1);
      OrOdd(Pow2(k - 1) - 1, y);
    }
  }
}
