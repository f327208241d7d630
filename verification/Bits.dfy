/** Bitwise operations on unbounded natural numbers, as Python has them. */
module Bits {

  const WORDS := 0x1_0000_0000

  /** A word read as a signed number. */
  function Signed(x: nat): int {
    if x < WORDS / 2 then x else x - WORDS
  }

  function Pow2(n: nat): (p: nat)
    ensures p > 0
  {
    if n == 0 then 1 else 2 * Pow2(n - 1)
  }

  function BitOr(a: nat, b: nat): nat
    decreases a + b
  {
    if a == 0 then b
    else if b == 0 then a
    else 2 * BitOr(a / 2, b / 2) + if a % 2 == 1 || b % 2 == 1 then 1 else 0
  }

  function BitAndNot(a: nat, b: nat): nat
    decreases a
  {
    if a == 0 then 0
    else 2 * BitAndNot(a / 2, b / 2) + if a % 2 == 1 && b % 2 == 0 then 1 else 0
  }

  lemma {:induction false} ClearAll(a: nat)
    ensures BitAndNot(a, a) == 0
  {
    if a > 0 {
      ClearAll(a / 2);
    }
  }

  // ---- Shifts and masks ----

  function ShiftLeft(x: nat, n: nat): nat {
    if n == 0 then x else 2 * ShiftLeft(x, n - 1)
  }

  function ShiftRight(x: nat, n: nat): (r: nat)
    ensures r <= x
  {
    if n == 0 then x else ShiftRight(x / 2, n - 1)
  }

  /** x & (2^n - 1) */
  function LowBits(x: nat, n: nat): nat {
    if n == 0 then 0 else 2 * LowBits(x / 2, n - 1) + x % 2
  }

  lemma {:induction false} OrIntoEmptyBits(x: nat, n: nat, v: nat)
    requires v < Pow2(n)
    ensures BitOr(ShiftLeft(x, n), v) == ShiftLeft(x, n) + v
  {
    if n > 0 {
      OrIntoEmptyBits(x, n - 1, v / 2);
    }
  }

  lemma {:induction false} SplitAt(x: nat, n: nat, v: nat)
    requires v < Pow2(n)
    ensures ShiftRight(ShiftLeft(x, n) + v, n) == x
    ensures LowBits(ShiftLeft(x, n) + v, n) == v
  {
    if n > 0 {
      var y := ShiftLeft(x, n - 1);
      assert (2 * y + v) / 2 == y + v / 2 && (2 * y + v) % 2 == v % 2;
      SplitAt(x, n - 1, v / 2);
    }
  }

  lemma {:induction false} ShiftedBound(x: nat, n: nat, v: nat, m: nat)
    requires v < Pow2(n) && x < Pow2(m)
    ensures ShiftLeft(x, n) + v < Pow2(m + n)
  {
    if n > 0 {
      ShiftedBound(x, n - 1, v / 2, m);
    }
  }

  lemma {:induction false} ShiftTwice(x: nat, m: nat, n: nat)
    ensures ShiftRight(x, m + n) == ShiftRight(ShiftRight(x, m), n)
    ensures ShiftLeft(x, m + n) == ShiftLeft(ShiftLeft(x, n), m)
  {
    if m > 0 {
      ShiftTwice(x / 2, m - 1, n);
      ShiftTwice(x, m - 1, n);
    }
  }

  lemma {:induction false} ShiftAdds(a: nat, b: nat, n: nat)
    ensures ShiftLeft(a + b, n) == ShiftLeft(a, n) + ShiftLeft(b, n)
  {
    if n > 0 {
      ShiftAdds(a, b, n - 1);
    }
  }

  /** What a shift leaves of a number of n + 1 bits is its top bit. */
  lemma {:induction false} TopBit(x: nat, n: nat)
    requires x < 2 * Pow2(n)
    ensures ShiftRight(x, n) == if x >= Pow2(n) then 1 else 0
  {
    if n > 0 {
      TopBit(x / 2, n - 1);
    }
  }

  lemma WordPowers()
    ensures Pow2(31) == 0x8000_0000 && Pow2(32) == 0x1_0000_0000
  {
    assert Pow2(8) == 0x100;
    assert Pow2(16) == 0x1_0000;
    assert Pow2(24) == 0x100_0000;
  }

  // ---- Division ----

  lemma BigMultiple(k: int, m: int)
    requires m > 0 && k >= 1
    ensures k * m >= m
  {
  }

  /** The only multiple of m between -m and m is zero. */
  lemma SmallMultiple(k: int, m: int)
    requires m > 0 && -m < k * m < m
    ensures k == 0
  {
    if k >= 1 {
      BigMultiple(k, m);
    } else if k <= -1 {
      BigMultiple(-k, m);
    }
  }

  /** Quotient and remainder are the only ones. */
  lemma DivisionIsUnique(x: int, d: int, q: int, r: int)
    requires d > 0 && x == q * d + r && 0 <= r < d
    ensures x / d == q && x % d == r
  {
    var k := x / d - q;
    assert x == (x / d) * d + x % d;
    assert k * d == (x / d) * d - q * d;
    SmallMultiple(k, d);
  }
}
