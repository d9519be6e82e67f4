/** Numbers written in a base, most significant digit first. */
module Numerals {
  import opened Arithmetic

  function Pow(base: nat, n: nat): nat {
    if n == 0 then 1 else Product(base, Pow(base, n - 1))
  }

  predicate Digits(s: seq<nat>, base: nat) {
    forall i :: 0 <= i < |s| ==> s[i] < base
  }

  function Number(s: seq<nat>, base: nat): nat {
    if s == [] then 0
    else
      var k := |s| - 1;
      Product(Number(s[..k], base), base) + s[k]
  }

  lemma {:induction false} PowAdd(base: nat, a: nat, b: nat)
    ensures Pow(base, a + b) == Pow(base, a) * Pow(base, b)
  {
    if a > 0 {
      PowAdd(base, a - 1, b);
      Associate(base, Pow(base, a - 1), Pow(base, b));
    }
  }

  lemma PowNext(base: nat, n: nat)
    ensures Pow(base, n + 1) == base * Pow(base, n)
  {
  }

  lemma {:induction false} PowPositive(base: nat, n: nat)
    requires base > 0
    ensures Pow(base, n) > 0
  {
    if n > 0 {
      PowPositive(base, n - 1);
      MulFarFromZero(base, Pow(base, n - 1));
    }
  }

  lemma {:induction false} PowMonoBase(a: nat, b: nat, n: nat)
    requires a <= b
    ensures Pow(a, n) <= Pow(b, n)
    ensures a < b && n > 0 ==> Pow(a, n) < Pow(b, n)
  {
    if n > 0 {
      PowMonoBase(a, b, n - 1);
      PowStep(a, b, Pow(a, n - 1), Pow(b, n - 1));
      if a < b {
        PowPositive(b, n - 1);
      }
    }
  }

  lemma PowStep(a: nat, b: nat, p: nat, q: nat)
    requires a <= b && p <= q
    ensures a * p <= b * q
    ensures a < b && q > 0 ==> a * p < b * q
  {
    MulNonNegative(b - a, q);
    MulNonNegative(a, q - p);
    Distribute(b, a, q);
    assert a * (q - p) == a * q - a * p;
    if a < b && q > 0 {
      MulFarFromZero(q, b - a);
    }
  }

  lemma {:induction false} PowMonoExp(b: nat, m: nat, n: nat)
    requires b > 0 && m <= n
    ensures Pow(b, m) <= Pow(b, n)
  {
    PowAdd(b, m, n - m);
    PowPositive(b, m);
    PowPositive(b, n - m);
    MulFarFromZero(Pow(b, m), Pow(b, n - m));
  }

  lemma {:induction false} PowPow(b: nat, m: nat, n: nat)
    ensures Pow(Pow(b, m), n) == Pow(b, Product(m, n))
  {
    hide Product;
    if n == 0 {
      assert Pow(b, 0) == 1;
    } else {
      PowPow(b, m, n - 1);
      PowAdd(b, m, Product(m, n - 1));
      assert m * n == m + m * (n - 1);
    }
  }

  /**
    Numerals of `m` digits in base `a` fit into `l` digits in base `b`, if the
    ratio of the lengths is at least that of one pair of powers.
   */
  lemma LengthSuffices(a: nat, b: nat, q: nat, p: nat, m: nat, l: nat)
    requires a > 0 && b > 0 && q > 0 && Pow(a, q) <= Pow(b, p) && Product(p, m) <= Product(q, l)
    ensures Pow(a, m) <= Pow(b, l)
  {
    hide Pow, Product;
    PowPow(a, q, m);
    PowPow(b, p, m);
    PowMonoBase(Pow(a, q), Pow(b, p), m);
    PowMonoExp(b, Product(p, m), Product(q, l));
    PowPow(a, m, q);
    PowPow(b, l, q);
    assert Product(q, m) == Product(m, q) && Product(q, l) == Product(l, q);
    if Pow(a, m) > Pow(b, l) {
      PowMonoBase(Pow(b, l), Pow(a, m), q);
    }
  }

  /** The weight of the first digit. */
  lemma {:induction false} NumberHead(s: seq<nat>, base: nat)
    requires s != []
    ensures Number(s, base) == s[0] * Pow(base, |s| - 1) + Number(s[1..], base)
  {
    var k := |s| - 1;
    if k > 0 {
      NumberHead(s[..k], base);
      assert s[..k][1..] == s[1..][..k - 1];
      HeadStep(s[0], Pow(base, k - 1), Number(s[1..k], base), base);
    } else {
      assert s[..k] == [] && s[1..] == [];
      assert Number([], base) == 0 && Pow(base, 0) == 1;
    }
  }

  lemma HeadStep(d: int, p: int, n: int, base: int)
    ensures (d * p + n) * base == d * (base * p) + n * base
  {
  }

  lemma {:induction false} NumberBound(s: seq<nat>, base: nat)
    requires Digits(s, base) && base > 0
    ensures Number(s, base) < Pow(base, |s|)
  {
    if s != [] {
      var k := |s| - 1;
      NumberBound(s[..k], base);
      MulMono(Number(s[..k], base), Pow(base, k), base);
    }
  }

  // ---------------------------------------------------------------------------
  // Without leading zeros
  // ---------------------------------------------------------------------------

  /** The shortest numeral. */
  function Shortest(n: nat, base: nat): seq<nat>
    requires base > 1
  {
    if n == 0 then []
    else
      Smaller(n, base);
      Shortest(n / base, base) + [n % base]
  }

  lemma Smaller(n: nat, base: nat)
    requires base > 1 && n > 0
    ensures 0 <= n / base < n
  {
    DivBounds(n, base);
    MulFarFromZero(base, n / base);
    if n / base >= 1 {
      assert base * (n / base) >= 2 * (n / base) by {
        MulMono(2, base, n / base);
      }
    }
  }

  lemma {:induction false} ShortestIs(n: nat, base: nat)
    requires base > 1
    ensures Number(Shortest(n, base), base) == n && Digits(Shortest(n, base), base)
    ensures Shortest(n, base) != [] ==> Shortest(n, base)[0] != 0
  {
    if n > 0 {
      Smaller(n, base);
      ShortestIs(n / base, base);
      var s, r := Shortest(n / base, base), n % base;
      NumberLast(s, r, base);
      Remainder(n, base);
      assert s == [] ==> Number(s, base) == 0;
    }
  }

  lemma NumberLast(s: seq<nat>, d: nat, base: nat)
    ensures Number(s + [d], base) == Number(s, base) * base + d
  {
    assert (s + [d])[..|s|] == s;
  }

  lemma Remainder(n: nat, d: nat)
    requires d > 0
    ensures n == n / d * d + n % d && 0 <= n % d < d
    ensures n / d == 0 ==> n % d == n
  {
    assert n == d * (n / d) + n % d;
    if n / d == 0 {
      MulNonNegative(d, n / d);
    }
  }

  /** A numeral that does not start with zero is the shortest one for its number. */
  lemma {:induction false} ShortestUnique(s: seq<nat>, base: nat)
    requires base > 1 && Digits(s, base) && (s != [] ==> s[0] != 0)
    ensures Shortest(Number(s, base), base) == s
    ensures s != [] ==> Number(s, base) > 0
  {
    if s != [] {
      var k := |s| - 1;
      ShortestUnique(s[..k], base);
      var n := Number(s[..k], base);
      MulFarFromZero(base, n);
      DivUnique(n * base + s[k], base, n, s[k]);
      assert s[..k] + [s[k]] == s;
    }
  }

  /** How many zeros a numeral starts with. */
  function Zeros(s: seq<nat>): (z: nat)
    ensures z <= |s| && (forall i :: 0 <= i < z ==> s[i] == 0) && (z < |s| ==> s[z] != 0)
  {
    if s == [] || s[0] != 0 then 0 else 1 + Zeros(s[1..])
  }

  lemma {:induction false} ZerosUnique(s: seq<nat>, z: nat)
    requires z <= |s| && (forall i :: 0 <= i < z ==> s[i] == 0) && (z < |s| ==> s[z] != 0)
    ensures Zeros(s) == z
  {
    if s != [] && z > 0 {
      ZerosUnique(s[1..], z - 1);
    }
  }

  lemma {:induction false} LeadingZeros(s: seq<nat>, z: nat, base: nat)
    requires z <= |s| && forall i :: 0 <= i < z ==> s[i] == 0
    ensures Number(s, base) == Number(s[z..], base)
  {
    if z > 0 {
      NumberHead(s, base);
      LeadingZeros(s[1..], z - 1, base);
      assert s[1..][z - 1..] == s[z..];
    }
  }

  /** Stripping a numeral of its leading zeros gives the shortest one. */
  lemma StripIsShortest(s: seq<nat>, base: nat)
    requires base > 1 && Digits(s, base)
    ensures s[Zeros(s)..] == Shortest(Number(s, base), base)
  {
    LeadingZeros(s, Zeros(s), base);
    ShortestUnique(s[Zeros(s)..], base);
  }

  // ---------------------------------------------------------------------------
  // Changing the base in place
  // ---------------------------------------------------------------------------

  /** The carry loops of base58.cpp: multiply the numeral by `mult` and add `carry`, from the last digit on. */
  method MulAdd(d: array<nat>, base: nat, mult: nat, start: nat) returns (carry: nat)
    requires base > 0 && Digits(d[..], base)
    modifies d
    ensures Digits(d[..], base)
    ensures carry * Pow(base, d.Length) + Number(d[..], base) == Number(old(d[..]), base) * mult + start
  {
    hide Pow, Number;
    carry := start;
    var i := d.Length;
    ghost var was := d[..];
    Empty(base);
    assert d[d.Length..] == [] && was[|was|..] == [];
    while i > 0
      invariant 0 <= i <= d.Length && d[..i] == was[..i] && Digits(d[..], base)
      invariant carry * Pow(base, d.Length - i) + Number(d[i..], base) == Number(was[i..], base) * mult + start
    {
      i := i - 1;
      ghost var rest := d[i + 1..];
      MulNonNegative(mult, d[i]);
      carry := carry + mult * d[i];
      var n := carry;
      DivBounds(n, base);
      d[i] := n % base;
      carry := Quotient(n, base);
      MulAddStep(was[i..], d[i..], base, mult, n);
    }
    assert d[0..] == d[..] && was[0..] == was;
  }

  lemma Empty(base: nat)
    ensures Number([], base) == 0 && Pow(base, 0) == 1
  {
  }

  lemma MulAddStep(s: seq<nat>, t: seq<nat>, base: nat, mult: nat, n: nat)
    requires base > 0 && |s| == |t| > 0 && n >= mult * s[0] && t[0] == n % base
    ensures
      var p := Pow(base, |s| - 1);
      n / base * Pow(base, |s|) + Number(t, base) - Number(s, base) * mult
        == (n - mult * s[0]) * p + Number(t[1..], base) - Number(s[1..], base) * mult
  {
    hide Number, Pow, Product;
    NumberHead(s, base);
    NumberHead(t, base);
    PowNext(base, |s| - 1);
    var p, q := Pow(base, |s| - 1), n / base;
    assert n == base * q + t[0];
    MulAddArith(q, base, p, t[0], s[0], mult, Number(s[1..], base));
  }

  lemma MulAddArith(q: int, base: int, p: int, r: int, d: int, mult: int, rest: int)
    ensures q * (base * p) + r * p == (base * q + r) * p
    ensures (d * p + rest) * mult == mult * d * p + rest * mult
    ensures (base * q + r - mult * d) * p == (base * q + r) * p - mult * d * p
  {
  }
}
