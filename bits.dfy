/**
 * The bit operations the assembler uses, on non-negative integers.
 *
 * `x & (2^k - 1)` on a two's-complement integer is the Euclidean remainder
 * `x % 2^k` (Dafny's `%`), `x << k` is `x * 2^k`, and `Or` is bitwise OR
 * defined bit by bit. The lemmas say when OR is plain addition (the fields
 * do not overlap) and that OR never needs more bits than its operands.
 */
module Bits {

  function Pow2(k: nat): (r: nat)
    ensures r >= 1
  {
    if k == 0 then 1 else 2 * Pow2(k - 1)
  }

  /** The powers the instruction layout uses. */
  lemma Pow2Values()
    ensures Pow2(4) == 16 && Pow2(8) == 256 && Pow2(12) == 4096
  {
    assert Pow2(2) == 4;
    assert Pow2(4) == 16;
    assert Pow2(6) == 64;
    assert Pow2(8) == 256;
    assert Pow2(10) == 1024;
  }

  /** `x & (2^k - 1)` for a two's-complement integer `x`. */
  function LowBits(x: int, k: nat): (r: nat)
    ensures r < Pow2(k)
  {
    x % Pow2(k)
  }

  /** `x << k`. */
  function ShiftLeft(x: nat, k: nat): nat
  {
    x * Pow2(k)
  }

  /** Bitwise OR: lowest bits first. */
  function Or(a: nat, b: nat): nat
    decreases a + b
  {
    if a == 0 then b
    else if b == 0 then a
    else 2 * Or(a / 2, b / 2) + (if a % 2 == 1 || b % 2 == 1 then 1 else 0)
  }

  /** Zero is the identity of OR on both sides. */
  lemma OrZero(a: nat)
    ensures Or(a, 0) == a && Or(0, a) == a
  {
  }

  /** ORing a value below 2^k into a value shifted left by k is addition: the bits do not overlap. */
  lemma {:induction false} OrDisjoint(a: nat, b: nat, k: nat)
    requires b < Pow2(k)
    ensures Or(ShiftLeft(a, k), b) == ShiftLeft(a, k) + b
  {
    if k == 0 {
      assert b == 0;
    } else {
      var h := ShiftLeft(a, k - 1);
      assert ShiftLeft(a, k) == 2 * h;
      if h != 0 && b != 0 {
        OrDisjoint(a, b / 2, k - 1);
      }
    }
  }

  /** OR of two values below 2^k stays below 2^k. */
  lemma {:induction false} OrBelow(a: nat, b: nat, k: nat)
    requires a < Pow2(k) && b < Pow2(k)
    ensures Or(a, b) < Pow2(k)
  {
    if k > 0 && a != 0 && b != 0 {
      OrBelow(a / 2, b / 2, k - 1);
    }
  }

  /** OR with a value below 2^k leaves every bit from k upwards as it was. */
  lemma {:induction false} OrKeepsHighBits(a: nat, b: nat, k: nat)
    requires b < Pow2(k)
    ensures Or(a, b) / Pow2(k) == a / Pow2(k)
  {
    if a == 0 {
      DivUnique(b, Pow2(k), 0, b);
      DivUnique(0, Pow2(k), 0, 0);
    } else if k > 0 && b != 0 {
      var m := Pow2(k - 1);
      OrKeepsHighBits(a / 2, b / 2, k - 1);
      var o := Or(a / 2, b / 2);
      var bit := if a % 2 == 1 || b % 2 == 1 then 1 else 0;
      assert Or(a, b) == 2 * o + bit;
      HalveDiv(o, bit, m);
      assert Or(a, b) / Pow2(k) == (a / 2) / m;
      HalveDiv(a / 2, a % 2, m);
      assert a == 2 * (a / 2) + a % 2;
    }
  }

  /** Dividing 2x + c by 2m, for a bit c, is dividing x by m. */
  lemma HalveDiv(x: nat, c: nat, m: nat)
    requires c < 2 && m > 0
    ensures (2 * x + c) / (2 * m) == x / m
  {
    var q, r := x / m, x % m;
    assert 2 * x + c == q * (2 * m) + (2 * r + c);
    DivUnique(2 * x + c, 2 * m, q, 2 * r + c);
  }

  /** The quotient is the only q with n == q * d + r and 0 <= r < d. */
  lemma DivUnique(n: int, d: int, q: int, r: int)
    requires d > 0 && 0 <= r < d && n == q * d + r
    ensures n / d == q
  {
    var q', r' := n / d, n % d;
    if q' > q {
      MulAtLeast(q' - q, d);
    } else if q' < q {
      MulAtLeast(q - q', d);
    }
  }

  lemma MulAtLeast(x: int, d: int)
    requires x >= 1 && d > 0
    ensures x * d >= d
  {
  }
}
