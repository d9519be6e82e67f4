/** Numbers as sequences of 32-bit limbs, least significant first, and the bit operations on a limb. */
module Limbs {
  import opened Arithmetic

  const BASE: nat := 0x1_0000_0000

  type Limb = n: nat | n < BASE

  /** The range of the 64-bit intermediate results. */
  type Double = n: nat | n < BASE * BASE

  /** The weight of limb `i`. */
  function Weight(i: nat): (r: nat)
    ensures r > 0
  {
    Pow2(32 * i)
  }

  function Value(ds: seq<Limb>): nat {
    if ds == [] then 0
    else
      var k := |ds| - 1;
      Value(ds[..k]) + Product(ds[k], Weight(k))
  }

  lemma Pow2Of32()
    ensures Pow2(32) == BASE
  {
    assert Pow2(4) == 16;
    Pow2Add(4, 4);
    Pow2Add(8, 8);
    Pow2Add(16, 16);
  }

  lemma WeightNext(i: nat)
    ensures Weight(i + 1) == BASE * Weight(i)
  {
    hide Pow2;
    Pow2Of32();
    Pow2Add(32, 32 * i);
    assert 32 * (i + 1) == 32 + 32 * i;
  }

  lemma WeightAdd(i: nat, j: nat)
    ensures Weight(i + j) == Weight(i) * Weight(j)
  {
    hide Pow2;
    Pow2Add(32 * i, 32 * j);
    assert 32 * (i + j) == 32 * i + 32 * j;
  }

  lemma ValueNext(ds: seq<Limb>, i: nat)
    requires i < |ds|
    ensures Value(ds[..i + 1]) == Value(ds[..i]) + ds[i] * Weight(i)
  {
    assert ds[..i + 1][..i] == ds[..i];
  }

  lemma {:induction false} ValueUpdate(ds: seq<Limb>, i: nat, d: Limb)
    requires i < |ds|
    ensures Value(ds[i := d]) == Value(ds) + (d - ds[i]) * Weight(i)
  {
    hide Weight;
    var k := |ds| - 1;
    if i == k {
      assert ds[i := d][..k] == ds[..k];
      Distribute(d, ds[i], Weight(i));
    } else {
      ValueUpdate(ds[..k], i, d);
      assert ds[i := d][..k] == ds[..k][i := d];
    }
  }

  lemma {:induction false} ValueBound(ds: seq<Limb>)
    ensures Value(ds) < Weight(|ds|)
  {
    hide Weight;
    if ds == [] {
      WeightZero();
    } else {
      var k := |ds| - 1;
      ValueBound(ds[..k]);
      WeightNext(k);
      MulMono(ds[k], BASE, Weight(k));
    }
  }

  lemma WeightZero()
    ensures Weight(0) == 1
  {
    assert Pow2(0) == 1;
  }

  /** A number is its low limbs and, scaled up, its high limbs. */
  lemma {:induction false} ValueSplit(ds: seq<Limb>, n: nat)
    requires n <= |ds|
    ensures Value(ds) == Value(ds[..n]) + Weight(n) * Value(ds[n..])
  {
    hide Weight, Value;
    if n == |ds| {
      assert ds[..n] == ds && ds[n..] == [];
      NoLimbs();
    } else {
      var k := |ds| - 1;
      var w, v, h, d := Weight(n), Weight(k - n), Value(ds[n..k]), ds[k];
      ValueSplit(ds[..k], n);
      assert ds[..k][..n] == ds[..n] && ds[..k][n..] == ds[n..k];
      ValueNext(ds, k);
      assert ds[..k + 1] == ds;
      ValueNext(ds[n..], k - n);
      assert ds[n..][..k - n] == ds[n..k] && ds[n..][..k - n + 1] == ds[n..];
      WeightAdd(n, k - n);
      SplitStep(w, v, h, d);
    }
  }

  lemma NoLimbs()
    ensures Value([]) == 0
  {
  }

  lemma SplitStep(w: int, v: int, h: int, d: int)
    ensures w * h + d * (w * v) == w * (h + d * v)
  {
  }

  lemma {:induction false} ValueOfZeros(ds: seq<Limb>)
    requires forall i :: 0 <= i < |ds| ==> ds[i] == 0
    ensures Value(ds) == 0
  {
    if ds != [] {
      ValueOfZeros(ds[..|ds| - 1]);
    }
  }

  // ---------------------------------------------------------------------------
  // Bits
  // ---------------------------------------------------------------------------

  /** `x | y`, bit by bit. */
  function Or(x: nat, y: nat): nat {
    if x == 0 && y == 0 then 0
    else 2 * Or(x / 2, y / 2) + if x % 2 == 1 || y % 2 == 1 then 1 else 0
  }

  lemma {:induction false} OrZero(x: nat)
    ensures Or(x, 0) == x && Or(0, x) == x
  {
    if x > 0 {
      OrZero(x / 2);
    }
  }

  /** Where the bits do not overlap, `|` is `+`. */
  lemma {:induction false} OrDisjoint(x: nat, y: nat, s: nat)
    requires x < Pow2(s) && y % Pow2(s) == 0
    ensures Or(x, y) == x + y && Or(y, x) == x + y
  {
    if s == 0 {
      assert x == 0;
      OrZero(y);
    } else if x == 0 && y == 0 {
    } else {
      var p := Pow2(s - 1);
      HalfMultiple(y, p);
      OrDisjoint(x / 2, y / 2, s - 1);
    }
  }

  lemma HalfMultiple(y: nat, p: nat)
    requires p > 0 && y % (2 * p) == 0
    ensures y % 2 == 0 && (y / 2) % p == 0
  {
    var q := y / (2 * p);
    assert y == 2 * p * q;
    Associate(2, p, q);
    DivUnique(y, 2, p * q, 0);
    DivUnique(p * q, p, q, 0);
  }
}
