/** Powers of two and the bitwise operators the address code uses, on non-negative numbers. */
module Bits {

  function Pow2(n: nat): (p: nat)
    ensures p > 0
  {
    if n == 0 then 1 else 2 * Pow2(n - 1)
  }

  /** a & b, bit by bit. */
  function And(a: nat, b: nat): nat {
    if a == 0 || b == 0 then 0 else (a % 2) * (b % 2) + 2 * And(a / 2, b / 2)
  }

  /** And never exceeds its operand. */
  lemma {:induction false} AndBelow(a: nat, b: nat)
    ensures And(a, b) <= a
  {
    if a > 0 && b > 0 {
      AndBelow(a / 2, b / 2);
      assert (a % 2) * (b % 2) <= a % 2 by {
        if a % 2 == 0 { } else { }
      }
    }
  }

  /** a & ~b: b's ones cleared. */
  function AndNot(a: nat, b: nat): nat {
    AndBelow(a, b);
    a - And(a, b)
  }

  /** a << n. */
  function ShiftLeft(a: nat, n: nat): nat { a * Pow2(n) }

  /** a >> n. */
  function ShiftRight(a: nat, n: nat): (q: nat)
    ensures q == a / Pow2(n)
  {
    Quotient(a, Pow2(n))
  }

  function Quotient(a: nat, m: nat): nat
    requires m > 0
  {
    a / m
  }

  /** ~a, within the given width. */
  function Not(a: nat, width: nat): nat
    requires a < Pow2(width)
  {
    Pow2(width) - 1 - a
  }

  lemma Pow2Values()
    ensures Pow2(8) == 0x100 && Pow2(16) == 0x10000 && Pow2(24) == 0x1000000 && Pow2(32) == 0x100000000
  {
    assert Pow2(8) == 0x100;
    assert Pow2(16) == 0x10000;
    assert Pow2(24) == 0x1000000;
  }

  lemma {:induction false} Pow2Add(m: nat, n: nat)
    ensures Pow2(m + n) == Pow2(m) * Pow2(n)
  {
    if m > 0 {
      Pow2Add(m - 1, n);
      assert Pow2(m + n) == 2 * Pow2(m - 1 + n);
      assert Pow2(m) * Pow2(n) == 2 * (Pow2(m - 1) * Pow2(n));
    }
  }

  lemma {:induction false} Pow2Monotone(m: nat, n: nat)
    requires m <= n
    ensures Pow2(m) <= Pow2(n)
  {
    Pow2Add(m, n - m);
    assert Pow2(m) * Pow2(n - m) >= Pow2(m) * 1;
  }

  lemma Pow2Step(k: nat)
    requires k > 0
    ensures Pow2(k) == 2 * Pow2(k - 1)
  {
  }

  lemma Pow2Zero()
    ensures Pow2(0) == 1
  {
  }

  lemma AndZero(a: nat)
    ensures And(a, 0) == And(0, a) == 0
  {
  }

  /** An even mask ignores the last bit, an odd one keeps it. */
  lemma AndEven(a: nat, half: nat)
    ensures And(a, 2 * half) == 2 * And(a / 2, half)
  {
    assert (2 * half) / 2 == half && (2 * half) % 2 == 0;
  }

  lemma AndOdd(a: nat, half: nat)
    ensures And(a, 2 * half + 1) == a % 2 + 2 * And(a / 2, half)
  {
    assert (2 * half + 1) / 2 == half && (2 * half + 1) % 2 == 1;
    AndZero(half);
  }

  /** Masking with 2^k - 1 keeps the remainder by 2^k. */
  lemma {:induction false} AndLowMask(a: nat, k: nat)
    ensures And(a, Pow2(k) - 1) == a % Pow2(k)
    decreases k
  {
    hide And, Pow2;
    if k == 0 {
      Pow2Zero();
      AndZero(a);
      RemainderUnique(a, 1, a, 0);
    } else {
      Pow2Step(k);
      AndLowMask(a / 2, k - 1);
      AndOdd(a, Pow2(k - 1) - 1);
      HalveRemainder(a, Pow2(k - 1));
    }
  }

  /** Masking with the ones from bit k up to bit n clears the remainder by 2^k. */
  lemma {:induction false} AndHighMask(a: nat, k: nat, n: nat)
    requires k <= n && a < Pow2(n)
    ensures Pow2(k) <= Pow2(n) && And(a, Pow2(n) - Pow2(k)) == a - a % Pow2(k)
    decreases k
  {
    hide And, Pow2;
    Pow2Monotone(k, n);
    if k == 0 {
      Pow2Zero();
      AndLowMask(a, n);
      RemainderUnique(a, Pow2(n), 0, a);
      RemainderUnique(a, 1, a, 0);
    } else {
      Pow2Step(k);
      Pow2Step(n);
      var half, top := Pow2(k - 1), Pow2(n - 1);
      Pow2Monotone(k - 1, n - 1);
      AndHighMask(a / 2, k - 1, n - 1);
      AndEven(a, top - half);
      HalveRemainder(a, half);
      assert Pow2(n) - Pow2(k) == 2 * (top - half);
    }
  }

  lemma HalveRemainder(a: nat, half: nat)
    requires half > 0
    ensures a % (2 * half) == a % 2 + 2 * (a / 2 % half)
  {
    var q, r := a / 2 / half, a / 2 % half;
    assert a / 2 == half * q + r;
    assert a == 2 * half * q + (2 * r + a % 2) by {
      assert a == 2 * (half * q + r) + a % 2;
    }
    RemainderUnique(a, 2 * half, q, 2 * r + a % 2);
  }

  /** a = m * q + r with 0 <= r < m determines both parts. */
  lemma RemainderUnique(a: nat, m: nat, q: int, r: nat)
    requires r < m && a == m * q + r
    ensures a / m == q && a % m == r
  {
    var d := a / m - q;
    assert a == m * (a / m) + a % m;
    assert m * (a / m) == m * q + m * d;
    assert 0 - m < m * d < m;
    assert d >= 1 ==> m * d >= m;
    assert d <= -1 ==> m * d <= 0 - m;
  }

  lemma QuotientParts(x: nat, m: nat) returns (q: nat, r: nat)
    requires m > 0
    ensures q == x / m && r == x % m && r < m && x == m * q + r
  {
    q, r := x / m, x % m;
  }

  /** m * q + r shifted up by low with d below it: its quotient and remainder by low * m. */
  lemma Regroup(q: nat, r: nat, d: nat, low: nat, m: nat)
    requires d < low && r < m
    ensures (m * q + r) * low + d == (low * m) * q + (r * low + d)
    ensures 0 <= r * low + d < low * m
    ensures r * low + d == 0 <==> r == 0 && d == 0
  {
    Distribute(m * q, r, low);
    Associate(low, m, q);
    Monotone(r + 1, m, low);
    Distribute(r, 1, low);
    if r >= 1 { Monotone(1, r, low); }
  }

  lemma Distribute(a: nat, b: nat, c: nat)
    ensures (a + b) * c == a * c + b * c
  {
  }

  lemma Associate(a: nat, b: nat, c: nat)
    ensures (b * c) * a == (a * b) * c
  {
  }

  lemma Monotone(a: nat, b: nat, c: nat)
    requires a <= b
    ensures a * c <= b * c
  {
  }

  /** Dropping at least all of d from x * low + d, for d below low. */
  lemma DropAll(x: nat, d: nat, low: nat, m: nat)
    requires d < low && m > 0
    ensures low * m > 0 && (x * low + d) / (low * m) == x / m
  {
    var q, r := QuotientParts(x, m);
    Regroup(q, r, d, low, m);
    RemainderUnique(x * low + d, low * m, q, r * low + d);
  }

  /** Dropping only part of d from x * (high * m) + d. */
  lemma DropPart(x: nat, d: nat, high: nat, m: nat)
    requires m > 0
    ensures (x * (high * m) + d) / m == x * high + d / m
  {
    var q, r := QuotientParts(d, m);
    assert x * (high * m) + d == m * (x * high + q) + r by {
      assert x * (high * m) == m * (x * high);
      assert m * (x * high + q) == m * (x * high) + m * q;
    }
    RemainderUnique(x * (high * m) + d, m, x * high + q, r);
  }

  /** The digits of a two-digit number determine it and are determined by it. */
  lemma TwoDigits(x: nat, d: nat, y: nat, e: nat, b: nat)
    requires d < b && e < b
    ensures x * b + d == y * b + e <==> x == y && d == e
  {
    if x * b + d == y * b + e {
      RemainderUnique(x * b + d, b, x, d);
      RemainderUnique(x * b + d, b, y, e);
    }
  }

  /** Two numbers in one block of `size` from a multiple of it have its quotient. */
  lemma SameBlock(base: nat, x: nat, size: nat)
    requires size > 0 && base % size == 0
    ensures base <= x < base + size <==> x / size == base / size
  {
    var q, r := QuotientParts(base, size);
    var p, s := QuotientParts(x, size);
    if base <= x < base + size {
      RemainderUnique(x, size, q, x - base);
    }
  }
}
