/**
 * Python's bitwise operators on non-negative ints, defined bit by bit, and
 * the arithmetic they reduce to on the operands the frame decoder uses.
 */
module Bits {

  function Pow2(k: nat): (r: nat)
    ensures r >= 1
  {
    if k == 0 then 1 else 2 * Pow2(k - 1)
  }

  /** `a & b` */
  function BitAnd(a: nat, b: nat): nat
    decreases a
  {
    if a == 0 || b == 0 then 0
    else 2 * BitAnd(a / 2, b / 2) + (if a % 2 == 1 && b % 2 == 1 then 1 else 0)
  }

  /** `a | b` */
  function BitOr(a: nat, b: nat): nat
    decreases a + b
  {
    if a == 0 then b
    else if b == 0 then a
    else 2 * BitOr(a / 2, b / 2) + (if a % 2 == 1 || b % 2 == 1 then 1 else 0)
  }

  /** `a << k` */
  function ShiftLeft(a: nat, k: nat): nat
  {
    if k == 0 then a else 2 * ShiftLeft(a, k - 1)
  }

  /** Masking with k one-bits keeps the remainder modulo 2^k. */
  lemma {:induction false} AndMask(n: nat, k: nat)
    ensures BitAnd(n, Pow2(k) - 1) == n % Pow2(k)
  {
    if k == 0 || n == 0 {
    } else {
      var m := Pow2(k - 1);
      assert (Pow2(k) - 1) / 2 == m - 1 && (Pow2(k) - 1) % 2 == 1;
      AndMask(n / 2, k - 1);
      assert BitAnd(n, Pow2(k) - 1) == 2 * ((n / 2) % m) + n % 2;
      HalveMod(n, m);
    }
  }

  /** Shifting left by k multiplies by 2^k. */
  lemma {:induction false} ShiftLeftIsMul(a: nat, k: nat)
    ensures ShiftLeft(a, k) == a * Pow2(k)
  {
    if k > 0 { ShiftLeftIsMul(a, k - 1); }
  }

  /** Or-ing a value below 2^k into a multiple of 2^k is addition. */
  lemma {:induction false} OrDisjoint(hi: nat, lo: nat, k: nat)
    requires lo < Pow2(k)
    ensures BitOr(hi * Pow2(k), lo) == hi * Pow2(k) + lo
  {
    var a := hi * Pow2(k);
    if a == 0 || lo == 0 {
    } else {
      assert k > 0;
      var m := Pow2(k - 1);
      assert a == 2 * (hi * m);
      assert a / 2 == hi * m && a % 2 == 0;
      OrDisjoint(hi, lo / 2, k - 1);
    }
  }

  lemma HalveMod(n: nat, m: nat)
    requires m >= 1
    ensures 2 * ((n / 2) % m) + n % 2 == n % (2 * m)
  {
    var q, r := (n / 2) / m, (n / 2) % m;
    assert n / 2 == m * q + r;
    assert n == (2 * m) * q + (2 * r + n % 2) by {
      assert n == 2 * (n / 2) + n % 2;
      assert 2 * (m * q) == (2 * m) * q;
    }
    ModUnique(n, 2 * m, q, 2 * r + n % 2);
  }

  /** The remainder is determined by any decomposition n == d*q + s with 0 <= s < d. */
  lemma ModUnique(n: nat, d: nat, q: int, s: int)
    requires d >= 1 && n == d * q + s && 0 <= s < d
    ensures n % d == s
  {
    var q', s' := n / d, n % d;
    assert d * q' + s' == d * q + s;
    if q' != q {
      var x := if q' > q then q' - q else q - q';
      assert d * x == (if q' > q then d * q' - d * q else d * q - d * q');
      MulAtLeast(d, x);
    }
  }

  lemma MulAtLeast(d: int, x: nat)
    requires d >= 1 && x >= 1
    ensures d * x >= d
  {
  }
}
