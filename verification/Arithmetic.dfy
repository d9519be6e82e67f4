/** Products, quotients and powers of two, for the modules that compute with them. */
module Arithmetic {

  function Pow2(n: nat): (r: nat)
    ensures r > n
  {
    if n == 0 then 1 else 2 * Pow2(n - 1)
  }

  lemma MulFarFromZero(d: int, e: int)
    requires d > 0
    ensures e >= 1 ==> d * e >= d && d * e >= e
    ensures e <= -1 ==> d * e <= -d
  {
  }

  lemma MulNonNegative(a: nat, b: nat)
    ensures a * b >= 0
  {
  }

  function Product(a: nat, b: nat): (r: nat)
    ensures r == a * b
  {
    MulNonNegative(a, b);
    a * b
  }

  lemma Associate(a: int, b: int, c: int)
    ensures a * b * c == a * (b * c)
  {
  }

  lemma {:induction false} Pow2Add(a: nat, b: nat)
    ensures Pow2(a + b) == Pow2(a) * Pow2(b)
  {
    if a > 0 {
      Pow2Add(a - 1, b);
      assert Pow2(a + b) == 2 * Pow2(a - 1 + b);
      Associate(2, Pow2(a - 1), Pow2(b));
    } else {
      assert Pow2(0) == 1;
    }
  }

  lemma Pow2Mono(a: nat, b: nat)
    requires a <= b
    ensures Pow2(a) <= Pow2(b)
  {
    hide Pow2;
    Pow2Add(a, b - a);
    MulFarFromZero(Pow2(a), Pow2(b - a));
  }

  lemma Distribute(a: int, b: int, c: int)
    ensures (a - b) * c == a * c - b * c
  {
  }

  lemma MulMono(a: int, b: int, d: nat)
    requires d > 0
    ensures a < b ==> a * d + d <= b * d
    ensures a >= b ==> a * d >= b * d
  {
    if a < b {
      MulFarFromZero(d, b - a);
      assert d * (b - a) == b * d - a * d;
    } else if a > b {
      MulFarFromZero(d, a - b);
      assert d * (a - b) == a * d - b * d;
    }
  }

  lemma DivBounds(n: int, d: nat)
    requires d > 0
    ensures d * (n / d) <= n < d * (n / d) + d
  {
  }

  function Quotient(n: nat, d: nat): (q: nat)
    requires d > 0
    ensures q == n / d && q <= n
  {
    DivAtMost(n, d);
    n / d
  }

  lemma DivAtMost(n: nat, d: nat)
    requires d > 0
    ensures 0 <= n / d <= n
  {
    DivBounds(n, d);
    MulFarFromZero(d, n / d);
  }

  lemma DivUnique(n: int, d: nat, q: int, r: int)
    requires d > 0 && 0 <= r < d && n == d * q + r
    ensures n / d == q && n % d == r
  {
    var e := n / d - q;
    assert d * e == r - n % d;
    MulFarFromZero(d, e);
  }

  lemma DivDiv(v: nat, a: nat, b: nat)
    requires a > 0 && b > 0
    ensures v / a / b == v / (a * b)
  {
    var q, r := v / a, v % a;
    var q', r' := q / b, q % b;
    assert v == a * q + r && q == b * q' + r';
    assert a * (b * q' + r') + r == a * b * q' + (a * r' + r);
    MulNonNegative(a, r');
    MulMono(r', b, a);
    assert a * r' + r < a * b by {
      assert r' * a + a <= b * a;
    }
    DivUnique(v, a * b, q', a * r' + r);
  }
}
