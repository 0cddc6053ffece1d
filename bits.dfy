/** Integer helpers for the index arithmetic of the oracle: powers of two,
    Python's bitwise `^` on non-negative integers, and single binary digits. */
module Bits {

  /** `2 ** k`, which is also `1 << k`. */
  function Pow2(k: nat): (p: nat)
    ensures p >= 1
  {
    if k == 0 then 1 else 2 * Pow2(k - 1)
  }

  /** Python's `a ^ b` on non-negative integers: bitwise exclusive or.
      It never exceeds `a + b`. */
  function Xor(a: nat, b: nat): (r: nat)
    ensures r <= a + b
    decreases a + b
  {
    if a == 0 then b
    else if b == 0 then a
    else 2 * Xor(a / 2, b / 2) + (a + b) % 2
  }

  /** Binary digit `j` of `x`, counted from the least significant digit 0:
      Python's `(x >> j) & 1`. */
  function Bit(x: nat, j: nat): (b: nat)
    ensures b < 2
  {
    if j == 0 then x % 2 else Bit(x / 2, j - 1)
  }

  /** Digit `j` of `a ^ b` is the sum of the digits `j` of `a` and `b`,
      modulo 2: `Xor` is the bitwise exclusive or. */
  lemma {:induction false} XorBit(a: nat, b: nat, j: nat)
    ensures Bit(Xor(a, b), j) == (Bit(a, j) + Bit(b, j)) % 2
  {
    if a == 0 || b == 0 {
      BitOfZero(j);
    } else {
      var r := Xor(a / 2, b / 2);
      var c := (a + b) % 2;
      var x := 2 * r + c;
      assert Xor(a, b) == x;
      HalveOdd(r, c);
      if j == 0 {
        ParityOfSum(a, b);
        assert Bit(x, 0) == c;
      } else {
        assert Bit(x, j) == Bit(r, j - 1);
        XorBit(a / 2, b / 2, j - 1);
        assert Bit(a, j) == Bit(a / 2, j - 1) && Bit(b, j) == Bit(b / 2, j - 1);
      }
    }
  }

  lemma HalveOdd(r: nat, c: nat)
    requires c < 2
    ensures (2 * r + c) % 2 == c && (2 * r + c) / 2 == r
  {
  }

  lemma ParityOfSum(a: nat, b: nat)
    ensures (a + b) % 2 == (a % 2 + b % 2) % 2
  {
    assert a == 2 * (a / 2) + a % 2 && b == 2 * (b / 2) + b % 2;
  }

  /** Every digit of 0 is 0. */
  lemma {:induction false} BitOfZero(j: nat)
    ensures Bit(0, j) == 0
  {
    if j > 0 {
      BitOfZero(j - 1);
    }
  }

  /** Flips digit `n` of an index below `2^(n+1)`: adds `2^n` when that digit
      is 0 and subtracts it when it is 1. */
  function FlipAncilla(n: nat, i: nat): nat
  {
    if i < Pow2(n) then i + Pow2(n) else i - Pow2(n)
  }

  /** Exclusive or with `2^n` flips digit `n` of an index below `2^(n+1)`. */
  lemma {:induction false} XorHighBit(n: nat, i: nat)
    requires i < Pow2(n + 1)
    ensures Xor(i, Pow2(n)) == FlipAncilla(n, i)
  {
    if n == 0 {
      assert Pow2(1) == 2;
    } else if i > 0 {
      var q := Pow2(n - 1);
      assert Pow2(n) == 2 * q && Pow2(n + 1) == 4 * q;
      XorHighBit(n - 1, i / 2);
      XorOfDouble(i, q);
    }
  }

  /** One step of `Xor` against an even power. */
  lemma XorOfDouble(i: nat, q: nat)
    requires i > 0 && q > 0
    ensures Xor(i, 2 * q) == 2 * Xor(i / 2, q) + i % 2
  {
    var p := 2 * q;
    assert p / 2 == q && (i + p) % 2 == i % 2;
    assert Xor(i, p) == 2 * Xor(i / 2, p / 2) + (i + p) % 2;
  }

  /** Below `2^(m+1)`, digit `m` tells whether the number reaches `2^m`. */
  lemma {:induction false} TopBit(x: nat, m: nat)
    requires x < Pow2(m + 1)
    ensures Bit(x, m) == if x < Pow2(m) then 0 else 1
  {
    if m > 0 {
      assert Pow2(m + 1) == 2 * Pow2(m) && Pow2(m) == 2 * Pow2(m - 1);
      TopBit(x / 2, m - 1);
    }
  }

  /** Adding `2^m` leaves every digit below `m` unchanged. */
  lemma {:induction false} BitBelowAdd(x: nat, m: nat, j: nat)
    requires j < m
    ensures Bit(x + Pow2(m), j) == Bit(x, j)
  {
    assert Pow2(m) == 2 * Pow2(m - 1);
    if j > 0 {
      assert (x + Pow2(m)) / 2 == x / 2 + Pow2(m - 1);
      BitBelowAdd(x / 2, m - 1, j - 1);
    }
  }

  /** An index below `2^(m+1)` without its digit `m`. */
  function LowPart(m: nat, x: nat): nat
  {
    if x < Pow2(m) then x else x - Pow2(m)
  }

  /** Dropping digit `m` keeps the digits below it. */
  lemma BitOfLowPart(m: nat, x: nat, j: nat)
    requires j < m
    ensures Bit(LowPart(m, x), j) == Bit(x, j)
  {
    if x >= Pow2(m) {
      BitBelowAdd(x - Pow2(m), m, j);
    }
  }

  /** Two numbers below `2^n` with the same `n` low digits are equal. */
  lemma {:induction false} BitsDetermine(x: nat, y: nat, n: nat)
    requires x < Pow2(n) && y < Pow2(n)
    requires forall j :: 0 <= j < n ==> Bit(x, j) == Bit(y, j)
    ensures x == y
  {
    if n > 0 {
      assert Pow2(n) == 2 * Pow2(n - 1);
      forall j | 0 <= j < n - 1
        ensures Bit(x / 2, j) == Bit(y / 2, j)
      {
        assert Bit(x, j + 1) == Bit(y, j + 1);
      }
      BitsDetermine(x / 2, y / 2, n - 1);
      assert Bit(x, 0) == Bit(y, 0);
    }
  }

  /** The input part `i % 2^n` of an index below `2^(n+1)` is its low part. */
  lemma ModBelowDouble(n: nat, i: nat)
    requires i < Pow2(n + 1)
    ensures i % Pow2(n) == LowPart(n, i)
  {
    var p := Pow2(n);
    assert Pow2(n + 1) == 2 * p;
    ModBelowTwice(i, p);
  }

  lemma ModBelowTwice(x: nat, p: nat)
    requires 0 < p && x < 2 * p
    ensures x % p == if x < p then x else x - p
  {
    if x >= p {
      var d := x / p;
      assert x == d * p + x % p;
      assert 0 < d * p < 2 * p;
      assert d == 1;
    }
  }
}
