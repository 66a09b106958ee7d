/** Unsigned machine arithmetic on natural numbers: powers of two, masking and
    bitwise OR, together with the packing law used for notification payloads. */
module Bits {

  const TWO_16: nat := 0x1_0000
  const TWO_32: nat := 0x1_0000_0000
  const TWO_48: nat := 0x1_0000_0000_0000
  const TWO_64: nat := 0x1_0000_0000_0000_0000

  /** A 64-bit quad word. */
  type Word = w: nat | w < TWO_64

  function Pow2(k: nat): (p: nat)
    ensures p > 0
  {
    if k == 0 then 1 else 2 * Pow2(k - 1)
  }

  /** Bitwise OR of two unsigned numbers, bit by bit from the least significant. */
  function Or(a: nat, b: nat): nat
    decreases a + b
  {
    if a == 0 && b == 0 then 0
    else 2 * Or(a / 2, b / 2) + (if a % 2 == 1 || b % 2 == 1 then 1 else 0)
  }

  /** Bitwise AND of two unsigned numbers. */
  function And(a: nat, b: nat): nat
    decreases a + b
  {
    if a == 0 && b == 0 then 0
    else 2 * And(a / 2, b / 2) + (if a % 2 == 1 && b % 2 == 1 then 1 else 0)
  }

  /** Bit i of an unsigned number. */
  predicate Bit(x: nat, i: nat) {
    if i == 0 then x % 2 == 1 else Bit(x / 2, i - 1)
  }

  /** Both operations work on each bit alone. */
  lemma {:induction false} OrByBits(a: nat, b: nat, i: nat)
    ensures Bit(Or(a, b), i) <==> Bit(a, i) || Bit(b, i)
    decreases i
  {
    assert Or(a, b) / 2 == Or(a / 2, b / 2);
    if i > 0 {
      OrByBits(a / 2, b / 2, i - 1);
    }
  }

  lemma {:induction false} AndByBits(a: nat, b: nat, i: nat)
    ensures Bit(And(a, b), i) <==> Bit(a, i) && Bit(b, i)
    decreases i
  {
    assert And(a, b) / 2 == And(a / 2, b / 2);
    if i > 0 {
      AndByBits(a / 2, b / 2, i - 1);
    }
  }

  /** OR-ing a number into the zero bits of a left-shifted one is addition. */
  lemma {:induction false} OrOfShifted(high: nat, k: nat, low: nat)
    requires low < Pow2(k)
    ensures Or(high * Pow2(k), low) == high * Pow2(k) + low
    decreases k, high
  {
    if k == 0 {
      assert high * Pow2(0) == high && low == 0;
      if high > 0 {
        OrOfShifted(high / 2, 0, 0);
        assert high / 2 * Pow2(0) == high / 2;
      }
    } else {
      var half := high * Pow2(k - 1);
      assert high * Pow2(k) == 2 * half;
      assert (2 * half) / 2 == half && (2 * half) % 2 == 0;
      OrOfShifted(high, k - 1, low / 2);
    }
  }

  /** AND-ing with a mask of k ones keeps the value modulo 2^k. */
  lemma {:induction false} AndOfMask(x: nat, k: nat)
    ensures And(x, Pow2(k) - 1) == x % Pow2(k)
    decreases k, x
  {
    if k == 0 {
      AndWithZero(x);
    } else {
      AndOfMask(x / 2, k - 1);
      var p := Pow2(k - 1);
      assert (2 * p - 1) / 2 == p - 1 && (2 * p - 1) % 2 == 1;
      ModOfHalf(x, p);
    }
  }

  lemma {:induction false} AndWithZero(x: nat)
    ensures And(x, 0) == 0
  {
    if x > 0 {
      AndWithZero(x / 2);
    }
  }

  lemma ModOfHalf(x: nat, p: nat)
    requires p > 0
    ensures x % (2 * p) == 2 * (x / 2 % p) + x % 2
  {
    var q, r := x / 2 / p, x / 2 % p;
    assert x / 2 == q * p + r;
    var low := 2 * r + x % 2;
    assert x == q * (2 * p) + low;
    ModIsUnique(x, 2 * p, q, low);
  }

  lemma ModIsUnique(x: nat, m: nat, q: nat, r: nat)
    requires m > 0 && x == q * m + r && r < m
    ensures x % m == r
  {
    var d := x / m - q;
    assert x == (x / m) * m + x % m;
    assert d * m == r - x % m;
    MultipleBounds(d, m);
  }

  lemma MultipleBounds(d: int, m: nat)
    ensures d >= 1 ==> d * m >= m
    ensures d <= -1 ==> d * m + m <= 0
  {
  }

  /** A total kept in 64-bit counters: right up to their width always, and
      exactly right as long as it fits. */
  predicate Balanced(counted: nat, total: nat) {
    && counted % TWO_64 == total % TWO_64
    && (total < TWO_64 ==> counted == total)
  }

  /** One of three summands may be reduced to the width of the counters. */
  lemma ReduceSummand(a: nat, b: nat, c: nat, total: nat)
    requires Balanced(a + b + c, total)
    ensures Balanced(a + b % TWO_64 + c, total)
  {
    var q := b / TWO_64;
    assert a + b + c == (a + b % TWO_64 + c) + q * TWO_64;
  }

  lemma AddBoth(counted: nat, total: nat, more: nat)
    requires Balanced(counted, total)
    ensures Balanced(counted + more, total + more)
  {
  }

  lemma PowersOfTwo()
    ensures Pow2(16) == TWO_16 && Pow2(32) == TWO_32 && Pow2(48) == TWO_48 && Pow2(64) == TWO_64
  {
    assert Pow2(8) == 256;
    assert Pow2(16) == TWO_16;
    assert Pow2(24) == 0x100_0000;
    assert Pow2(32) == TWO_32;
    assert Pow2(40) == 0x100_0000_0000;
    assert Pow2(48) == TWO_48;
    assert Pow2(56) == 0x100_0000_0000_0000;
    assert Pow2(64) == TWO_64;
  }
}
