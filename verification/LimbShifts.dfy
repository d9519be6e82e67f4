/** One round of the shifting loops of arith_uint256.cpp, on values. */
module LimbShifts {
  import opened Arithmetic
  import opened Limbs

  lemma Pow2Parts(s: nat)
    requires s <= 32
    ensures Pow2(s) * Pow2(32 - s) == BASE
  {
    hide Pow2;
    Pow2Add(s, 32 - s);
    Pow2Of32();
  }

  lemma Pow2Zero()
    ensures Pow2(0) == 1
  {
  }

  /** `d >> (32 - s)`: what `d << s` loses at the top. */
  function High(d: Limb, s: nat): (r: Limb)
    requires s <= 32
    ensures r < Pow2(s) && r * Pow2(32 - s) <= d < r * Pow2(32 - s) + Pow2(32 - s)
  {
    HighBound(d, s);
    d / Pow2(32 - s)
  }

  lemma HighBound(d: Limb, s: nat)
    requires s <= 32
    ensures
      var r := d / Pow2(32 - s);
      0 <= r < Pow2(s) && r <= d && r * Pow2(32 - s) <= d < r * Pow2(32 - s) + Pow2(32 - s)
  {
    hide Pow2;
    Pow2Parts(s);
    var P, Q := Pow2(s), Pow2(32 - s);
    var r := d / Q;
    DivBounds(d, Q);
    MulMono(P, r, Q);
    MulFarFromZero(Q, r);
  }

  /** `d << s` in 32 bits. */
  function Low(d: Limb, s: nat): (r: Limb)
    requires s <= 32
    ensures High(d, s) * BASE + r == d * Pow2(s)
    ensures r % Pow2(s) == 0 && r + Pow2(s) <= BASE
  {
    LowParts(d, s);
    d * Pow2(s) % BASE
  }

  lemma LowParts(d: Limb, s: nat)
    requires s <= 32
    ensures
      var r := d * Pow2(s) % BASE;
      High(d, s) * BASE + r == d * Pow2(s) && r % Pow2(s) == 0 && r + Pow2(s) <= BASE
  {
    hide Pow2;
    Pow2Parts(s);
    var P, Q := Pow2(s), Pow2(32 - s);
    var hi, r := d / Q, d % Q;
    SplitProduct(d, Q, P, hi, r);
    DivUnique(d * P, BASE, hi, P * r);
    DivUnique(P * r, P, r, 0);
  }

  lemma SplitProduct(d: nat, q: nat, p: nat, hi: int, r: int)
    requires q > 0 && p > 0 && hi == d / q && r == d % q && p * q == BASE
    ensures d * p == BASE * hi + p * r && 0 <= p * r && p * r + p <= BASE
  {
    assert d == q * hi + r;
    assert (q * hi + r) * p == p * q * hi + p * r;
    MulMono(r, q, p);
    MulNonNegative(p, r);
  }

  /** Or-ing in bits above those that are there. */
  lemma OrAbove(x: nat, y: nat, s: nat)
    requires x < Pow2(s) && y % Pow2(s) == 0 && y + Pow2(s) <= BASE
    ensures Or(x, y) == x + y < BASE
  {
    OrDisjoint(x, y, s);
  }

  // ---------------------------------------------------------------------------
  // To the left
  // ---------------------------------------------------------------------------

  /** After `p` limbs of the result: nothing is above place `p`, and only carried bits are there. */
  ghost predicate LeftDone(ds: seq<Limb>, p: nat, s: nat) {
    && (forall j :: p < j < |ds| ==> ds[j] == 0)
    && (p < |ds| ==> ds[p] < Pow2(s))
  }

  /** Limb `d` at place `p`, and what does not fit there one place further up. */
  ghost function LeftPlaced(ds: seq<Limb>, d: Limb, p: nat, s: nat): seq<Limb>
    requires s < 32 && LeftDone(ds, p, s)
  {
    if p + 1 < |ds| then ds[p + 1 := High(d, s)][p := ds[p] + Low(d, s)]
    else if p < |ds| then ds[p := ds[p] + Low(d, s)]
    else ds
  }

  lemma LeftStep(ds: seq<Limb>, d: Limb, p: nat, s: nat) returns (lost: nat)
    requires s < 32 && LeftDone(ds, p, s)
    ensures LeftDone(LeftPlaced(ds, d, p, s), p + 1, s)
    ensures Value(LeftPlaced(ds, d, p, s)) + lost * Weight(|ds|) == Value(ds) + d * Pow2(s) * Weight(p)
  {
    hide Weight, Value, Pow2, High, Low;
    var hi, lo := High(d, s), Low(d, s);
    if p + 1 < |ds| {
      lost := 0;
      ValueUpdate(ds, p + 1, hi);
      ValueUpdate(ds[p + 1 := hi], p, ds[p] + lo);
      WeightNext(p);
      LeftSum(hi, lo, Weight(p), d * Pow2(s));
    } else if p < |ds| {
      lost := hi;
      ValueUpdate(ds, p, ds[p] + lo);
      WeightNext(p);
      LeftSum(hi, lo, Weight(p), d * Pow2(s));
    } else {
      MulNonNegative(d, Pow2(s));
      MulNonNegative(d * Pow2(s), Weight(p - |ds|));
      lost := d * Pow2(s) * Weight(p - |ds|);
      WeightAdd(p - |ds|, |ds|);
      Associate(d * Pow2(s), Weight(p - |ds|), Weight(|ds|));
    }
  }

  lemma LeftSum(hi: int, lo: int, w: int, n: int)
    requires hi * BASE + lo == n
    ensures hi * (BASE * w) + lo * w == n * w
  {
    Associate(hi, BASE, w);
    assert (hi * BASE + lo) * w == hi * BASE * w + lo * w;
  }

  // ---------------------------------------------------------------------------
  // To the right
  // ---------------------------------------------------------------------------

  ghost predicate Zero(ds: seq<Limb>) {
    forall i :: 0 <= i < |ds| ==> ds[i] == 0
  }

  /** After `t` limbs of the result: nothing is at place `t` or above, and the last limb has room for low bits. */
  ghost predicate RightDone(ds: seq<Limb>, t: nat, u: nat) {
    && (forall j :: t <= j < |ds| ==> ds[j] == 0)
    && (0 < t <= |ds| ==> ds[t - 1] < Pow2(u))
  }

  /** Limb `d` at place `t`, and its low bits one place further down. */
  ghost function RightPlaced(ds: seq<Limb>, d: Limb, t: int, u: nat): seq<Limb>
    requires u <= 32 && t < |ds| && (t >= 0 ==> RightDone(ds, t, u))
  {
    if t < 0 then ds
    else if t == 0 then ds[0 := High(d, u)]
    else ds[t - 1 := ds[t - 1] + Low(d, u)][t := High(d, u)]
  }

  lemma RightPlace(ds: seq<Limb>, d: Limb, t: nat, u: nat)
    requires u <= 32 && 0 < t < |ds| && RightDone(ds, t, u)
    ensures RightDone(RightPlaced(ds, d, t, u), t + 1, u)
    ensures Value(RightPlaced(ds, d, t, u)) * Pow2(32 - u) == Value(ds) * Pow2(32 - u) + d * Weight(t)
  {
    hide Weight, Value, Pow2, High, Low;
    var hi, lo, a, w := High(d, u), Low(d, u), ds[t - 1], Weight(t - 1);
    var mid := ds[t - 1 := a + lo];
    ValueUpdate(ds, t - 1, a + lo);
    ValueUpdate(mid, t, hi);
    WeightNext(t - 1);
    PlaceSum(a, lo, hi, mid[t], w, d * Pow2(u));
    Pow2Parts(u);
    RightSum(Value(ds), d, Pow2(u), w, Pow2(32 - u));
  }

  lemma PlaceSum(a: int, lo: int, hi: int, z: int, w: int, n: int)
    requires hi * BASE + lo == n && z == 0
    ensures (a + lo - a) * w + (hi - z) * (BASE * w) == n * w
  {
    LeftSum(hi, lo, w, n);
    assert a + lo - a == lo && hi - z == hi;
  }

  lemma RightFirst(ds: seq<Limb>, d: Limb, s: nat) returns (rest: nat)
    requires s < 32 && |ds| > 0 && Zero(ds)
    ensures
      var after := RightPlaced(ds, d, 0, 32 - s);
      RightDone(after, 1, 32 - s) && rest < Pow2(s) && Value(after) * Pow2(s) + rest == Value([d])
  {
    hide Weight, Value, Pow2, High;
    ValueUpdate(ds, 0, High(d, 32 - s));
    ValueOfZeros(ds);
    WeightZero();
    ValueNext([d], 0);
    assert [d][..1] == [d] && [d][..0] == [];
    NoLimbs();
    rest := d - High(d, 32 - s) * Pow2(s);
  }

  /** The result so far, times 2^s, plus what fell off at the bottom is the limbs seen from the `k`th on. */
  ghost predicate RightSoFar(x: seq<Limb>, ds: seq<Limb>, i: nat, k: nat, s: nat, rest: nat)
    requires i <= |x| && s < 32
  {
    && (i <= k ==> Zero(ds))
    && (i > k ==> RightDone(ds, i - k, 32 - s) && Value(ds) * Pow2(s) + rest == Value(x[k..i]))
  }

  lemma RightStep(x: seq<Limb>, ds: seq<Limb>, i: nat, k: nat, s: nat, rest: nat) returns (rest': nat)
    requires i < |x| == |ds| && s < 32 && rest < Pow2(s) && RightSoFar(x, ds, i, k, s, rest)
    ensures i >= k ==> RightDone(ds, i - k, 32 - s)
    ensures rest' < Pow2(s) && RightSoFar(x, RightPlaced(ds, x[i], i - k, 32 - s), i + 1, k, s, rest')
  {
    hide Weight, Value, Pow2, High, Low, RightPlaced;
    rest' := rest;
    if i == k {
      rest' := RightFirst(ds, x[i], s);
      assert x[k..i + 1] == [x[i]];
    } else if i > k {
      RightPlace(ds, x[i], i - k, 32 - s);
      ValueNext(x[k..], i - k);
      assert x[k..][..i - k] == x[k..i] && x[k..][..i - k + 1] == x[k..i + 1];
    } else {
      NotYet(ds, x[i], i - k, 32 - s);
    }
  }

  lemma NotYet(ds: seq<Limb>, d: Limb, t: int, u: nat)
    requires u <= 32 && t < 0
    ensures RightPlaced(ds, d, t, u) == ds
  {
  }

  /** With no bits to carry nothing is carried. */
  lemma NothingLost(d: Limb, s: nat)
    requires s <= 32
    ensures s == 0 ==> High(d, s) == 0
    ensures s == 32 ==> Low(d, s) == 0
  {
    hide Pow2;
    Pow2Zero();
    Pow2Of32();
  }

  lemma RightSum(v: int, d: int, p: int, w: int, q: int)
    requires p * q == BASE
    ensures (v + d * p * w) * q == v * q + d * (BASE * w)
  {
    assert d * p * w * q == d * (p * q * w);
  }
}
