/** The bit operators of C on unsigned values. */
module Bits {

  function Power(k: nat): (r: nat)
    ensures r >= 1
  {
    if k == 0 then 1 else 2 * Power(k - 1)
  }

  /** x << k, where nothing is shifted out. */
  function ShiftLeft(x: nat, k: nat): nat {
    x * Power(k)
  }

  /** x >> k */
  function ShiftRight(x: nat, k: nat): nat {
    if k == 0 then x else ShiftRight(x / 2, k - 1)
  }

  /** x & y, bit by bit. */
  function And(x: nat, y: nat): nat {
    if x == 0 || y == 0 then 0 else (if x % 2 == 1 && y % 2 == 1 then 1 else 0) + 2 * And(x / 2, y / 2)
  }

  /** x | y, bit by bit. */
  function Or(x: nat, y: nat): nat {
    if x == 0 then y else if y == 0 then x else (if x % 2 == 1 || y % 2 == 1 then 1 else 0) + 2 * Or(x / 2, y / 2)
  }

  lemma {:induction false} ShiftRightIs(x: nat, k: nat)
    ensures ShiftRight(x, k) == x / Power(k)
  {
    if k > 0 {
      ShiftRightIs(x / 2, k - 1);
      HalfFirst(x, Power(k - 1));
    }
  }

  lemma HalfFirst(x: nat, p: nat)
    requires p >= 1
    ensures x / 2 / p == x / (2 * p)
  {
    RemainderStep(x, p);
    assert x == 2 * p * (x / (2 * p)) + x % (2 * p);
    assert x / 2 == p * (x / 2 / p) + x / 2 % p;
    var a: int, b: int := x / 2 / p, x / (2 * p);
    assert p * a == p * b by {
      assert 2 * (p * b) == 2 * p * b;
    }
    Multiple(p, a - b, p * a, p * b);
  }

  /** A multiple of d nearer to zero than d is zero. */
  lemma Multiple(d: int, e: int, x: int, y: int)
    requires -d < x - y < d && x - y == d * e
    ensures e == 0
  {
    assert e >= 1 ==> d * e >= d;
    assert e <= -1 ==> d * e <= -d;
  }

  /** Masking with k ones keeps the remainder. */
  lemma {:induction false} MaskIsRemainder(x: nat, k: nat, m: nat)
    requires m == Power(k) - 1
    ensures And(x, m) == x % Power(k)
  {
    if k > 0 {
      var p := Power(k - 1);
      MaskIsRemainder(x / 2, k - 1, p - 1);
      RemainderStep(x, p);
      assert m / 2 == p - 1 && m % 2 == 1;
    }
  }

  lemma RemainderStep(x: nat, p: nat)
    requires p >= 1
    ensures x % (2 * p) == x % 2 + 2 * (x / 2 % p)
  {
    var q, r := x / 2 / p, x / 2 % p;
    assert x / 2 == p * q + r && x == 2 * (x / 2) + x % 2;
    assert x == (2 * p) * q + (2 * r + x % 2) by {
      assert 2 * (p * q) == (2 * p) * q;
    }
    RemainderOf(x, 2 * p, q, 2 * r + x % 2);
  }

  lemma RemainderOf(x: nat, d: nat, q: nat, r: nat)
    requires r < d && x == d * q + r
    ensures x % d == r
  {
    assert x == d * (x / d) + x % d;
    Multiple(d, q - x / d, d * q, d * (x / d));
  }

  /** Or of fields that do not overlap is their sum. */
  lemma {:induction false} OrIsSum(x: nat, y: nat, k: nat)
    requires y < Power(k)
    ensures Or(ShiftLeft(x, k), y) == ShiftLeft(x, k) + y
  {
    if k > 0 {
      OrIsSum(x, y / 2, k - 1);
      ShiftStep(x, k);
      OrEven(ShiftLeft(x, k - 1), y);
    }
  }

  lemma ShiftStep(x: nat, k: nat)
    requires k > 0
    ensures ShiftLeft(x, k) == 2 * ShiftLeft(x, k - 1)
  {
    assert x * (2 * Power(k - 1)) == 2 * (x * Power(k - 1));
  }

  lemma OrEven(h: nat, y: nat)
    requires Or(h, y / 2) == h + y / 2
    ensures Or(2 * h, y) == 2 * h + y
  {
    if h > 0 && y > 0 {
      assert 2 * h / 2 == h && 2 * h % 2 == 0;
    }
  }
}
