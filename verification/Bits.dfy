/** Powers of two and the division laws that prefix nesting rests on. */
module Bits {
  type Byte = n: nat | n < 256

  function Pow2(n: nat): (p: nat)
    ensures p >= 1
  {
    if n == 0 then 1 else 2 * Pow2(n - 1)
  }

  /** x without its k low bits. */
  function Drop(x: nat, k: nat): nat {
    Quotient(x, Pow2(k))
  }

  function Quotient(x: nat, d: nat): nat
    requires d >= 1
  {
    x / d
  }

  lemma {:induction false} Pow2Adds(m: nat, n: nat)
    ensures Pow2(m + n) == Pow2(m) * Pow2(n)
  {
    if m != 0 {
      Pow2Adds(m - 1, n);
      assert Pow2(m - 1 + n) == Pow2(m - 1) * Pow2(n);
      assert 2 * (Pow2(m - 1) * Pow2(n)) == (2 * Pow2(m - 1)) * Pow2(n);
    }
  }

  /** A quotient is fixed by the bounds it lies between. */
  lemma QuotientUnique(x: int, d: int, q: int)
    requires d > 0 && q * d <= x < q * d + d
    ensures x / d == q && x % d == x - q * d
  {
    var e := x / d;
    assert x == e * d + x % d;
    assert (e + 1) * d == e * d + d && (q + 1) * d == q * d + d;
    if e < q {
      MulMonotone(e + 1, q, d);
    } else if e > q {
      MulMonotone(q + 1, e, d);
    }
  }

  lemma MulMonotone(a: int, b: int, d: int)
    requires a <= b && d >= 0
    ensures a * d <= b * d
  {
    assert (b - a) * d >= 0;
    assert (b - a) * d == b * d - a * d;
  }

  lemma DivDiv(x: nat, a: nat, b: nat)
    requires a > 0 && b > 0
    ensures a * b > 0 && (x / a) / b == x / (a * b)
  {
    var y := x / a;
    var q := y / b;
    assert x == y * a + x % a;
    assert y == q * b + y % b;
    assert a * b > 0;
    assert q * (a * b) == (q * b) * a by { assert (q * b) * a == q * (b * a); }
    assert y * a == (q * b) * a + (y % b) * a by { assert y * a == (q * b + y % b) * a; }
    assert (y % b) * a <= (b - 1) * a by { MulMonotone(y % b, b - 1, a); }
    assert (b - 1) * a == a * b - a;
    assert (y % b) * a >= 0 by { MulMonotone(0, y % b, a); }
    QuotientUnique(x, a * b, q);
  }

  /** Dropping j low bits and then i more drops i + j. */
  lemma DropDrop(x: nat, i: nat, j: nat)
    ensures (x / Pow2(j)) / Pow2(i) == x / Pow2(i + j)
  {
    DivDiv(x, Pow2(j), Pow2(i));
    Pow2Adds(i, j);
    assert Pow2(j) * Pow2(i) == Pow2(i) * Pow2(j);
  }

  /** Values sharing a longer prefix share every shorter one. */
  lemma PrefixNests(x: nat, y: nat, i: nat, j: nat)
    requires i <= j && x / Pow2(i) == y / Pow2(i)
    ensures x / Pow2(j) == y / Pow2(j)
  {
    DropDrop(x, j - i, i);
    DropDrop(y, j - i, i);
  }

  lemma OddAndEven(t: nat, half: nat)
    requires half > 0
    ensures (t * (2 * half)) / half == 2 * t
    ensures (t * (2 * half) + half) / half == 2 * t + 1
  {
    assert t * (2 * half) == (2 * t) * half;
    assert (2 * t + 1) * half == (2 * t) * half + half;
    QuotientUnique(t * (2 * half), half, 2 * t);
    QuotientUnique(t * (2 * half) + half, half, 2 * t + 1);
  }

  /** Below a power of two there is room for one more step after any multiple of a smaller one. */
  lemma NextMultipleFits(t: nat, b: nat, c: nat)
    requires t * Pow2(c) < Pow2(b + c)
    ensures t * Pow2(c) + Pow2(c) <= Pow2(b + c)
  {
    Pow2Adds(b, c);
    if t >= Pow2(b) {
      MulMonotone(Pow2(b), t, Pow2(c));
    }
    MulMonotone(t + 1, Pow2(b), Pow2(c));
    assert (t + 1) * Pow2(c) == t * Pow2(c) + Pow2(c);
  }

  lemma Step8(n: nat)
    ensures Pow2(n + 8) == 0x100 * Pow2(n)
  {
    assert Pow2(n + 4) == 2 * Pow2(n + 3) == 4 * Pow2(n + 2) == 8 * Pow2(n + 1) == 16 * Pow2(n);
    assert Pow2(n + 8) == 2 * Pow2(n + 7) == 4 * Pow2(n + 6) == 8 * Pow2(n + 5) == 16 * Pow2(n + 4);
  }

  lemma Step32(n: nat, m: nat)
    requires m == n + 32
    ensures Pow2(m) == 0x1_0000_0000 * Pow2(n)
  {
    Step8(n);
    Step8(n + 8);
    Step8(n + 16);
    Step8(n + 24);
  }

  lemma FromZero(z: nat, a: nat)
    requires z == 0 && a == 32
    ensures Pow2(a) == 0x1_0000_0000
    ensures Pow2(a + 32) == 0x1_0000_0000_0000_0000
    ensures Pow2(a + 96) == 0x1_0000_0000_0000_0000_0000_0000_0000_0000
  {
    Step32(z, a);
    Step32(a, a + 32);
    Step32(a + 32, a + 64);
    Step32(a + 64, a + 96);
  }

  /** How many values a word of 32, 64 or 128 bits has. */
  function Space(w: nat): nat {
    if w == 32 then 0x1_0000_0000
    else if w == 64 then 0x1_0000_0000_0000_0000
    else 0x1_0000_0000_0000_0000_0000_0000_0000_0000
  }

  lemma WordSpace(w: nat)
    requires w == 32 || w == 64 || w == 128
    ensures Pow2(w) == Space(w)
  {
    FromZero(0, 32);
  }
}
