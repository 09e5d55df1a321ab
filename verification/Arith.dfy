// Multiples, quotients and remainders by a variable.
module Arith {
  lemma Grow(d: int, n: nat)
    requires d >= 1
    ensures n <= d * n
  {}

  lemma SmallMultiple(n: int, d: int)
    requires -n < n * d < n
    ensures d == 0
  {
    assert d >= 1 ==> n * d >= n;
    assert d <= -1 ==> n * d <= -n;
  }

  // Quotient and remainder are what they are.
  lemma Remainder(p: nat, n: nat, q: int, r: nat)
    requires n > 0 && p == n * q + r && r < n
    ensures p % n == r && p / n == q
  {
    assert p == n * (p / n) + p % n;
    assert n * (q - p / n) == p % n - r;
    SmallMultiple(n, q - p / n);
  }

  // Two multiples less than n apart are one.
  lemma SameMultiple(n: nat, a: nat, b: nat)
    requires n > 0 && a % n == 0 && b % n == 0 && a <= b < a + n
    ensures a == b
  {
    assert a == n * (a / n) && b == n * (b / n);
    assert n * (b / n - a / n) == b - a;
    SmallMultiple(n, b / n - a / n);
  }

  // The next multiple is n further on, and no multiple lies between.
  lemma NextMultiple(n: nat, a: nat, top: nat)
    requires n > 0 && a % n == 0 && top % n == 0 && a < top
    ensures a + n <= top && (a + n) % n == 0
  {
    var q, r := a / n, top / n;
    assert a == n * q && top == n * r;
    assert n * (r - q) == top - a;
    assert r - q <= 0 ==> n * (r - q) <= 0;
    Grow(r - q, n);
    assert (r - q) * n == n * (r - q);
    assert a + n == n * (q + 1);
    Remainder(a + n, n, q + 1, 0);
  }

  lemma MultipleOfMultiple(b: nat, outer: nat, inner: nat)
    requires outer > 0 && inner > 0 && b % outer == 0 && outer % inner == 0
    ensures b % inner == 0
  {
    var q, m := b / outer, outer / inner;
    assert b == outer * q && outer == inner * m;
    assert b == inner * (m * q);
    Remainder(b, inner, m * q, 0);
  }

  lemma SumMultiple(a: nat, b: nat, n: nat)
    requires n > 0 && a % n == 0 && b % n == 0
    ensures (a + b) % n == 0
  {
    var q, r := a / n, b / n;
    assert a == n * q && b == n * r;
    assert a + b == n * (q + r);
    Remainder(a + b, n, q + r, 0);
  }

  // Of the multiples of n every other one is a multiple of 2n.
  lemma EvenMultiple(h: nat, n: nat)
    requires n > 0 && h % n == 0
    ensures (h / n) % 2 == 0 <==> h % (2 * n) == 0
    ensures (h / n) % 2 != 0 ==> h >= n && (h - n) % (2 * n) == 0
  {
    var q := h / n;
    assert h == n * q;
    var e := q / 2;
    assert (2 * n) * e == n * (2 * e);
    if q % 2 == 0 {
      assert q == 2 * e;
      Remainder(h, 2 * n, e, 0);
    } else {
      assert q == 2 * e + 1;
      assert n * q == n * (2 * e) + n;
      Remainder(h, 2 * n, e, n);
      Remainder(h - n, 2 * n, e, 0);
    }
  }
}
