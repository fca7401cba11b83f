/** Division facts that the solver needs spelled out. */
module Arith {
  function Min(a: nat, b: nat): nat { if a < b then a else b }

  lemma MulBounds(m: nat, k: int)
    ensures k >= 1 ==> m * k >= m
    ensures k <= -1 ==> m * k + m <= 0
  {}

  /** Quotient and remainder are the only pair with `v == m * q + r` and `r < m`. */
  lemma DivModUnique(v: nat, m: nat, q: int, r: nat)
    requires v == m * q + r && r < m
    ensures v / m == q && v % m == r
  {
    var k := q - v / m;
    assert m * k == m * q - m * (v / m);
    MulBounds(m, k);
  }

  /** Division by a product can be done in two steps. */
  lemma DivInSteps(v: nat, c: nat, d: nat)
    requires 0 < c && 0 < d
    ensures 0 < c * d && v / c / d == v / (c * d)
  {
    var n, r := v / c, v % c;
    var x, y := n / d, n % d;
    DivInStepsAux(v, c, d, n, r, x, y);
    MulBounds(d, c);
    DivModUnique(v, c * d, x, c * y + r);
  }

  lemma DivInStepsAux(v: nat, c: nat, d: nat, n: nat, r: nat, x: nat, y: nat)
    requires v == c * n + r && r < c && n == d * x + y && y < d
    ensures v == (c * d) * x + (c * y + r)
    ensures 0 <= c * y + r < c * d
  {
    assert c * n == c * (d * x) + c * y;
    assert c * (d * x) == (c * d) * x;
    assert c * d == c * y + c * (d - y);
    MulBounds(c, d - y);
  }

  /** The remainder by a product, digit by digit. */
  lemma ModInSteps(v: nat, c: nat, d: nat)
    requires 0 < c && 0 < d
    ensures 0 < c * d && v % (c * d) == (v / c % d) * c + v % c
  {
    var n, r := v / c, v % c;
    var x, y := n / d, n % d;
    DivInStepsAux(v, c, d, n, r, x, y);
    MulBounds(d, c);
    DivModUnique(v, c * d, x, c * y + r);
  }

  // Named quotient and remainder, so that proofs can treat them as symbols.

  function Div(n: nat, c: nat): nat
    requires c > 0
  {
    n / c
  }

  function Mod(n: nat, c: nat): nat
    requires c > 0
  {
    n % c
  }

  lemma DivBound(n: nat, p: nat, c: nat)
    requires n < p * c
    ensures c > 0 && Div(n, c) < p && Mod(n, c) < c
  {}

  lemma DivSmall(n: nat, c: nat)
    requires n < c
    ensures Div(n, c) == 0 && Mod(n, c) == n
  {}

  lemma DivDrop(n: nat, c: nat)
    requires 0 < c <= n
    ensures Div(n, c) == Div(n - c, c) + 1 && Mod(n - c, c) == Mod(n, c)
  {
    var q := n / c;
    assert n - c == c * (q - 1) + n % c by { assert c * (q - 1) == c * q - c; }
    DivModUnique(n - c, c, q - 1, n % c);
  }

  /** Position `k` in a row of items of `c * b` bytes, seen as items of `b` bytes. */
  lemma NestedIndex(k: nat, b: nat, c: nat)
    requires b > 0 && c > 0
    ensures c * b > 0
    ensures Div(k, c * b) == Div(Div(k, b), c)
    ensures Div(Mod(k, c * b), b) == Mod(Div(k, b), c)
    ensures Mod(Mod(k, c * b), b) == Mod(k, b)
  {
    DivInSteps(k, b, c);
    ModInSteps(k, b, c);
    assert b * c == c * b;
    var y := k / b % c;
    DivModUnique(k % (c * b), b, y, k % b);
  }

  lemma DivShift(k: nat, a: nat, b: nat)
    requires b > 0
    ensures Div(a * b + k, b) == a + Div(k, b) && Mod(a * b + k, b) == Mod(k, b)
  {
    var q := k / b;
    assert a * b + k == b * (a + q) + k % b by { assert b * (a + q) == b * a + b * q; }
    DivModUnique(a * b + k, b, a + q, k % b);
  }

  lemma Distribute(a: nat, c: nat, b: nat)
    ensures (a + c) * b == a * b + c * b
  {}
}
