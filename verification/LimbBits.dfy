/** Comparing numbers limb by limb, finding their highest bit, and setting a bit. */
module LimbBits {
  import opened Arithmetic
  import opened Limbs

  /** The highest limb that differs decides. */
  lemma HigherLimb(x: seq<Limb>, y: seq<Limb>, i: nat)
    requires i < |x| == |y| && x[i + 1..] == y[i + 1..] && x[i] < y[i]
    ensures Value(x) < Value(y)
  {
    hide Weight, Value;
    ValueSplit(x, i + 1);
    ValueSplit(y, i + 1);
    ValueNext(x, i);
    ValueNext(y, i);
    ValueBound(x[..i]);
    MulMono(x[i], y[i], Weight(i));
  }

  // ---------------------------------------------------------------------------
  // The highest bit
  // ---------------------------------------------------------------------------

  /** `bits` is the position of the highest bit set, plus one, or zero if there is none. */
  ghost predicate IsBits(n: nat, bits: nat) {
    if bits == 0 then n == 0 else Pow2(bits - 1) <= n < Pow2(bits)
  }

  /** `x & 1 << b` for a number with nothing above bit `b`. */
  lemma TopBitSet(x: nat, b: nat)
    requires x < Pow2(b + 1)
    ensures x / Pow2(b) % 2 == 1 <==> Pow2(b) <= x
  {
    hide Pow2;
    Pow2Double(b);
    var p := Pow2(b);
    if x < p {
      DivUnique(x, p, 0, x);
    } else {
      DivUnique(x, p, 1, x - p);
    }
  }

  lemma Pow2Double(b: nat)
    ensures Pow2(b + 1) == 2 * Pow2(b)
  {
  }

  lemma Pow2One()
    ensures Pow2(0) == 1 && Pow2(1) == 2
  {
  }

  /** The inner loop of `bits`. */
  method TopBit(x: Limb) returns (bits: nat)
    requires x > 0
    ensures 1 <= bits <= 32 && IsBits(x, bits)
  {
    hide Pow2;
    Pow2Of32();
    bits := 31;
    while bits > 0
      invariant bits <= 31 && x < Pow2(bits + 1)
    {
      TopBitSet(x, bits);
      if x / Pow2(bits) % 2 == 1 {
        return bits + 1;
      }
      bits := bits - 1;
    }
    Pow2One();
    bits := 1;
  }

  /** The highest bit of a number is that of its highest limb. */
  lemma BitsOfLimbs(ds: seq<Limb>, pos: nat, bits: nat)
    requires pos < |ds| && 1 <= bits && IsBits(ds[pos], bits) && forall j :: pos < j < |ds| ==> ds[j] == 0
    ensures IsBits(Value(ds), 32 * pos + bits)
  {
    hide Value, Pow2;
    ValueSplit(ds, pos + 1);
    ValueOfZeros(ds[pos + 1..]);
    ValueNext(ds, pos);
    ValueBound(ds[..pos]);
    var w := Weight(pos);
    Pow2Add(32 * pos, bits);
    Pow2Add(32 * pos, bits - 1);
    TimesMono(Pow2(bits - 1), ds[pos], Pow2(bits), w);
  }

  lemma TimesMono(a: nat, d: nat, b: nat, w: nat)
    requires a <= d < b && w > 0
    ensures w * a <= d * w && d * w + w <= w * b
  {
    MulMono(d, a, w);
    MulMono(d, b, w);
  }

  // ---------------------------------------------------------------------------
  // Setting bits from the top down
  // ---------------------------------------------------------------------------

  /** The lowest `n` bits are zero. */
  ghost predicate ClearBelow(ds: seq<Limb>, n: nat) {
    && (forall j :: 0 <= j < n / 32 && j < |ds| ==> ds[j] == 0)
    && (n / 32 < |ds| ==> ds[n / 32] % Pow2(n % 32) == 0)
  }

  lemma MultipleOfHalf(d: nat, t: nat)
    requires d % Pow2(t + 1) == 0
    ensures d % Pow2(t) == 0 && (d + Pow2(t)) % Pow2(t) == 0
  {
    hide Pow2;
    Pow2Double(t);
    var p, q := Pow2(t), d / Pow2(t + 1);
    assert d == 2 * p * q;
    assert 2 * p * q == p * (2 * q);
    DivUnique(d, p, 2 * q, 0);
    assert d + p == p * (2 * q + 1);
    DivUnique(d + p, p, 2 * q + 1, 0);
  }

  /** A limb with its lowest `t + 1` bits clear, which for `t == 31` are all of them. */
  lemma SetBitInLimb(d: Limb, t: nat)
    requires t < 32 && (if t == 31 then d == 0 else d % Pow2(t + 1) == 0)
    ensures d + Pow2(t) < BASE && Or(d, Pow2(t)) == d + Pow2(t) && (d + Pow2(t)) % Pow2(t) == 0 && d % Pow2(t) == 0
  {
    hide Pow2, Or;
    Pow2Of32();
    Pow2Double(t);
    assert t == 31 ==> d % Pow2(32) == 0;
    MultipleOfHalf(d, t);
    OrDisjoint(Pow2(t), d, t + 1);
    if t < 31 {
      RoomAbove(d, t + 1);
    }
  }

  /** A multiple of 2^s below 2^32 leaves room for the bits below. */
  lemma RoomAbove(d: Limb, s: nat)
    requires s <= 32 && d % Pow2(s) == 0
    ensures d + Pow2(s) <= BASE
  {
    hide Pow2;
    Pow2Add(s, 32 - s);
    Pow2Of32();
    var p, q, m := Pow2(s), d / Pow2(s), Pow2(32 - s);
    assert d == p * q;
    assert p * q == q * p && p * m == m * p;
    MulMono(q, m, p);
    MulMono(m, q, p);
  }

  lemma ClearNext(ds: seq<Limb>, shift: nat)
    requires shift / 32 < |ds| && ClearBelow(ds, shift + 1)
    ensures
      var w, t := shift / 32, shift % 32;
      && (if t == 31 then ds[w] == 0 else ds[w] % Pow2(t + 1) == 0)
      && ds[w] + Pow2(t) < BASE && Or(ds[w], Pow2(t)) == ds[w] + Pow2(t)
      && ClearBelow(ds, shift) && ClearBelow(ds[w := ds[w] + Pow2(t)], shift)
      && Value(ds[w := ds[w] + Pow2(t)]) == Value(ds) + Pow2(shift)
  {
    hide Pow2, Value, Or, Weight;
    var w, t := shift / 32, shift % 32;
    if t == 31 {
      assert (shift + 1) / 32 == w + 1;
    } else {
      assert (shift + 1) / 32 == w && (shift + 1) % 32 == t + 1;
    }
    SetBitInLimb(ds[w], t);
    ValueUpdate(ds, w, ds[w] + Pow2(t));
    BitWeight(w, t);
    assert shift == 32 * w + t;
  }

  lemma BitWeight(w: nat, t: nat)
    ensures Pow2(t) * Weight(w) == Pow2(32 * w + t)
  {
    hide Pow2;
    Pow2Add(t, 32 * w);
  }
}
