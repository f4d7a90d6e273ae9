/** The bit operations of the source on unsigned numbers of any width, bit by bit. */
module Bits {

  function Pow2(k: nat): (p: nat)
    ensures p > 0
  {
    if k == 0 then 1 else 2 * Pow2(k - 1)
  }

  lemma {:induction false} Pow2Sum(j: nat, k: nat)
    ensures Pow2(j + k) == Pow2(j) * Pow2(k)
  {
    if j == 0 {
    } else {
      Pow2Sum(j - 1, k);
      assert Pow2(j + k) == 2 * (Pow2(j - 1) * Pow2(k)) == (2 * Pow2(j - 1)) * Pow2(k);
    }
  }

  /** `a | b` */
  function Or(a: nat, b: nat): nat {
    if a == 0 && b == 0 then 0
    else (if a % 2 == 1 || b % 2 == 1 then 1 else 0) + 2 * Or(a / 2, b / 2)
  }

  /** `a & b` */
  function And(a: nat, b: nat): nat {
    if a == 0 || b == 0 then 0
    else (if a % 2 == 1 && b % 2 == 1 then 1 else 0) + 2 * And(a / 2, b / 2)
  }

  /** `a << k`, before any truncation */
  function Shl(a: nat, k: nat): nat {
    a * Pow2(k)
  }

  lemma {:induction false} OrWithZero(b: nat)
    ensures Or(0, b) == b
  {
    if b == 0 {
    } else {
      OrWithZero(b / 2);
    }
  }

  /** Fields that do not overlap are put together by `|` as by `+`. */
  lemma {:induction false} OrOfFields(a: nat, b: nat, k: nat)
    requires a < Pow2(k)
    ensures Or(a, Shl(b, k)) == a + Shl(b, k)
  {
    if k == 0 {
      OrWithZero(b);
    } else {
      var half := Shl(b, k - 1);
      assert Shl(b, k) == 2 * half;
      assert a / 2 < Pow2(k - 1);
      OrOfFields(a / 2, b, k - 1);
    }
  }

  /** The low bits of a number are its remainder. */
  lemma {:induction false} AndOfLowBits(a: nat, k: nat)
    ensures And(a, Pow2(k) - 1) == a % Pow2(k)
  {
    if k == 0 {
    } else if a == 0 {
    } else {
      var p := Pow2(k - 1);
      AndOfLowBits(a / 2, k - 1);
      assert (Pow2(k) - 1) / 2 == p - 1 && (Pow2(k) - 1) % 2 == 1;
      HalfRemainder(a, p);
    }
  }

  lemma HalfRemainder(a: nat, p: nat)
    requires p > 0
    ensures a % (2 * p) == a % 2 + 2 * ((a / 2) % p)
  {
    var q, r := (a / 2) / p, (a / 2) % p;
    var low := a % 2 + 2 * r;
    assert a == a % 2 + 2 * (q * p + r);
    assert a == q * (2 * p) + low && 0 <= low < 2 * p;
    RemainderIs(a, 2 * p, q, low);
  }

  lemma RemainderIs(a: nat, m: nat, q: nat, r: nat)
    requires m > 0 && a == q * m + r && r < m
    ensures a % m == r
  {
    var d := a / m - q;
    assert a == (a / m) * m + a % m;
    assert d * m == r - a % m;
  }

  lemma AndWithEven(a: nat, m: nat)
    ensures And(a, 2 * m) == 2 * And(a / 2, m)
  {
  }

  lemma Pow2Grows(k: nat, n: nat)
    requires k <= n
    ensures Pow2(k) <= Pow2(n)
    decreases n - k
  {
    if k < n {
      Pow2Grows(k + 1, n);
    }
  }

  /** Clearing the low bits of a number subtracts its remainder. */
  lemma {:induction false} AndOfHighBits(a: nat, k: nat, n: nat)
    requires k <= n && a < Pow2(n)
    ensures Pow2(k) <= Pow2(n)
    ensures And(a, Pow2(n) - Pow2(k)) == a - a % Pow2(k)
    decreases k
  {
    Pow2Grows(k, n);
    if k == 0 {
      AndOfLowBits(a, n);
      RemainderIs(a, Pow2(n), 0, a);
    } else {
      var x, p, m := a / 2, Pow2(k - 1), Pow2(n - 1) - Pow2(k - 1);
      AndOfHighBits(x, k - 1, n - 1);
      assert Pow2(n) - Pow2(k) == 2 * m;
      AndWithEven(a, m);
      HalfRemainder(a, p);
    }
  }
}
