/**
  `base_uint<256>` of arith_uint256.h and arith_uint256.cpp: arithmetic on eight
  32-bit limbs, with every operation proved against the integers modulo 2^256.
  The types `Limb` and `Double` make sure that nothing overflows on the way.
 */
module ArithUint256 {
  import opened Arithmetic
  import opened LimbBits
  import opened Limbs
  import opened LimbShifts

  const WIDTH: nat := 8

  /** 2^256 */
  function Modulus(): (r: nat)
    ensures r > 0
  {
    Weight(WIDTH)
  }

  class BaseUint {
    const pn: array<Limb>

    ghost predicate Valid() {
      pn.Length == WIDTH
    }

    /** The number represented. */
    ghost function Num(): nat
      reads pn
    {
      Value(pn[..])
    }

    /** Different objects have their own limbs. */
    ghost predicate Apart(b: BaseUint) {
      b != this ==> b.pn != pn
    }

    constructor (b: Double)
      ensures Valid() && fresh(pn) && Num() == b
    {
      pn := new Limb[WIDTH](_ => 0);
      new;
      pn[0] := b % BASE;
      pn[1] := b / BASE;
      TwoLimbs(pn[..]);
    }

    /** `operator=` for a 64-bit number. */
    method Assign(b: Double)
      requires Valid()
      modifies pn
      ensures Num() == b
    {
      Clear();
      pn[0] := b % BASE;
      pn[1] := b / BASE;
      TwoLimbs(pn[..]);
    }

    /** `GetLow64`. */
    method GetLow64() returns (r: Double)
      requires Valid()
      ensures Num() < BASE * BASE ==> r == Num()
    {
      LowLimbs(pn[..]);
      r := pn[0] + pn[1] * BASE;
    }

    constructor Copy(b: BaseUint)
      requires b.Valid()
      ensures Valid() && fresh(pn) && pn[..] == b.pn[..]
    {
      pn := new Limb[WIDTH](i requires 0 <= i < WIDTH && b.Valid() reads b.pn => b.pn[i]);
      new;
      assert pn[..] == b.pn[..];
    }

    // -------------------------------------------------------------------------
    // Addition
    // -------------------------------------------------------------------------

    /** `operator+=`, also for `x += x`. */
    method AddAssign(b: BaseUint)
      requires Valid() && b.Valid() && Apart(b)
      modifies pn
      ensures Num() == (old(Num()) + old(b.Num())) % Modulus()
    {
      hide Weight, Value;
      ghost var x, y := pn[..], b.pn[..];
      var carry: Double := 0;
      ValueStart(x);
      ValueStart(y);
      for i := 0 to WIDTH
        invariant carry <= 1 && pn[i..] == x[i..] && b.pn[i..] == y[i..]
        invariant Value(pn[..i]) + carry * Weight(i) == Value(x[..i]) + Value(y[..i])
      {
        var n: Double := carry + pn[i] + b.pn[i];
        ghost var low := pn[..i];
        pn[i] := n % BASE;
        AddStep(low, pn[..i + 1], x, y, i, carry, n);
        carry := n / BASE;
      }
      assert pn[..WIDTH] == pn[..] && x[..WIDTH] == x && y[..WIDTH] == y;
      Reduce(pn[..], carry, Value(x) + Value(y));
    }

    /** `operator++`: the carry runs on as long as limbs wrap around. */
    method Increment()
      requires Valid()
      modifies pn
      ensures Num() == (old(Num()) + 1) % Modulus()
    {
      hide Weight, Value;
      ghost var total := Num() + 1;
      WeightZero();
      var i := 0;
      pn[i] := (pn[i] + 1) % BASE;
      IncrementStep(old(pn[..]), pn[..], 0, total);
      while pn[i] == 0 && i < WIDTH - 1
        invariant 0 <= i < WIDTH
        invariant Value(pn[..]) + (if pn[i] == 0 then Weight(i + 1) else 0) == total
      {
        i := i + 1;
        ghost var before := pn[..];
        pn[i] := (pn[i] + 1) % BASE;
        IncrementStep(before, pn[..], i, total);
      }
      Reduce(pn[..], if pn[i] == 0 then 1 else 0, total);
    }

    /** Unary `operator-`. */
    method Negate() returns (ret: BaseUint)
      requires Valid()
      ensures fresh(ret) && fresh(ret.pn) && ret.Valid() && ret.Num() == (0 - Num()) % Modulus()
    {
      hide Weight, Value;
      ret := new BaseUint(0);
      ghost var x := pn[..];
      ValueStart(x);
      ValueStart(ret.pn[..]);
      WeightZero();
      for i := 0 to WIDTH
        invariant fresh(ret) && fresh(ret.pn) && ret.Valid()
        invariant Value(ret.pn[..i]) + Value(x[..i]) == Weight(i) - 1
      {
        ghost var low := ret.pn[..i];
        ret.pn[i] := BASE - 1 - pn[i];
        ComplementStep(low, ret.pn[..i + 1], x, i);
      }
      assert ret.pn[..WIDTH] == ret.pn[..] && x[..WIDTH] == x;
      ret.Increment();
      Complemented(Modulus(), Num());
    }

    /** `operator-=`, also for `x -= x`. */
    method SubAssign(b: BaseUint)
      requires Valid() && b.Valid() && Apart(b)
      modifies pn
      ensures Num() == (old(Num()) - old(b.Num())) % Modulus()
    {
      hide Weight, Value;
      ghost var x: int, y: int := Num(), b.Num();
      var neg := b.Negate();
      AddAssign(neg);
      ModAdd(x, -y, Modulus());
    }

    // -------------------------------------------------------------------------
    // Multiplication
    // -------------------------------------------------------------------------

    /** `operator*=` with a 32-bit factor. */
    method MulAssign32(b32: Limb)
      requires Valid()
      modifies pn
      ensures Num() == old(Num()) * b32 % Modulus()
    {
      hide Weight, Value;
      ghost var x := pn[..];
      var carry: Double := 0;
      ValueStart(x);
      for i := 0 to WIDTH
        invariant carry < BASE && pn[i..] == x[i..]
        invariant Value(pn[..i]) + carry * Weight(i) == Value(x[..i]) * b32
      {
        ProductFits(b32, pn[i], carry, 0);
        var n: Double := carry + b32 * pn[i];
        ghost var low := pn[..i];
        pn[i] := n % BASE;
        ScaleStep(low, pn[..i + 1], x, i, b32, carry, n);
        carry := n / BASE;
      }
      assert pn[..WIDTH] == pn[..] && x[..WIDTH] == x;
      MulNonNegative(Value(x), b32);
      Reduce(pn[..], carry, Value(x) * b32);
    }

    /** One row of the schoolbook multiplication: add `aj` times `b`, shifted by `j` limbs. */
    method AddRow(b: BaseUint, aj: Limb, j: nat) returns (ghost lost: nat)
      requires Valid() && b.Valid() && Apart(b) && j < WIDTH
      requires b == this ==> Zero(pn[..])
      modifies pn
      ensures Num() + lost * Weight(WIDTH) == old(Num()) + aj * (Weight(j) * old(b.Num()))
      ensures b == this ==> Zero(pn[..])
    {
      hide Weight, Value;
      ghost var x, y := pn[..], b.pn[..];
      var carry: Limb := 0;
      ValueStart(y);
      RowStart(aj, Weight(j), Weight(0 + j));
      var i := 0;
      while i + j < WIDTH
        invariant i + j <= WIDTH && pn[i + j..] == x[i + j..] && b.pn[..] == y
        invariant b == this ==> carry == 0 && Zero(pn[..])
        invariant Value(pn[..]) + carry * Weight(i + j) == Value(x) + aj * (Weight(j) * Value(y[..i]))
      {
        ProductFits(aj, b.pn[i], carry, pn[i + j]);
        var n: Double := carry + pn[i + j] + aj * b.pn[i];
        ghost var before := pn[..];
        if b == this {
          TimesZero(aj);
        }
        pn[i + j] := n % BASE;
        RowStep(before, pn[..], Value(x), y, i, j, aj, carry, n);
        carry := n / BASE;
        i := i + 1;
      }
      lost := RowEnd(y, j, aj, carry);
    }

    /**
      `operator*=` with another number: exact modulo 2^256 for different operands. The first thing
      it does is to clear its own limbs, so `x *= x` gives zero.
     */
    method MulAssign(b: BaseUint)
      requires Valid() && b.Valid() && Apart(b)
      modifies pn
      ensures b != this ==> Num() == old(Num()) * old(b.Num()) % Modulus()
      ensures b == this ==> Num() == 0
    {
      hide Weight, Value;
      var a := new BaseUint.Copy(this);
      ghost var x := pn[..];
      Clear();
      ghost var y := b.pn[..];
      ghost var lost: nat := 0;
      ValueStart(x);
      for j := 0 to WIDTH
        invariant a.pn[..] == x && b.pn[..] == y && (b == this ==> Zero(pn[..]))
        invariant Num() + lost * Weight(WIDTH) == Value(x[..j]) * Value(y)
      {
        ghost var before := Num();
        ghost var more := AddRow(b, a.pn[j], j);
        RowAdded(x, j, before, Num(), lost, more, Value(y));
        lost := lost + more;
      }
      assert x[..WIDTH] == x;
      MulNonNegative(Value(x), Value(y));
      Reduce(pn[..], lost, Value(x) * Value(y));
      if b == this {
        ValueOfZeros(pn[..]);
      }
    }

    /** `*this = 0`. */
    method Clear()
      requires Valid()
      modifies pn
      ensures Zero(pn[..]) && Num() == 0
    {
      hide Value;
      for i := 0 to WIDTH
        invariant forall k :: 0 <= k < i ==> pn[k] == 0
      {
        pn[i] := 0;
      }
      ValueOfZeros(pn[..]);
    }

    // -------------------------------------------------------------------------
    // Shifts
    // -------------------------------------------------------------------------

    /** A round of `operator<<=`: limb `d` goes to place `p`, its top bits one place up. */
    method LeftRound(d: Limb, p: nat, s: nat)
      requires Valid() && s < 32 && LeftDone(pn[..], p, s)
      modifies pn
      ensures pn[..] == LeftPlaced(old(pn[..]), d, p, s)
    {
      hide Pow2, High, Low, Or;
      NothingLost(d, s);
      OrZero(High(d, s));
      if p < WIDTH {
        OrAbove(pn[p], Low(d, s), s);
      }
      if p + 1 < WIDTH && s != 0 {
        pn[p + 1] := Or(pn[p + 1], High(d, s));
      }
      if p < WIDTH {
        pn[p] := Or(pn[p], Low(d, s));
      }
    }

    /** `operator<<=`. */
    method ShiftLeft(shift: nat)
      requires Valid()
      modifies pn
      ensures Num() == old(Num()) * Pow2(shift) % Modulus()
    {
      hide Weight, Value, Pow2, LeftPlaced;
      var a := new BaseUint.Copy(this);
      ghost var x := pn[..];
      Clear();
      var k, s := shift / 32, shift % 32;
      ghost var lost: nat := 0;
      ValueStart(x);
      for i := 0 to WIDTH
        invariant a.pn[..] == x && LeftDone(pn[..], i + k, s)
        invariant Num() + lost * Weight(WIDTH) == Value(x[..i]) * Pow2(s) * Weight(k)
      {
        ghost var before := pn[..];
        ghost var more := LeftStep(before, x[i], i + k, s);
        LeftRound(a.pn[i], i + k, s);
        LeftAdded(x, i, k, Pow2(s), Value(before), Num(), lost, more);
        lost := lost + more;
      }
      assert x[..WIDTH] == x;
      ShiftIsProduct(Value(x), shift);
      Reduce(pn[..], lost, Value(x) * Pow2(shift));
    }

    /** A round of `operator>>=`: limb `d` goes to place `t`, its low bits one place down. */
    method RightRound(d: Limb, t: int, s: nat)
      requires Valid() && s < 32 && t < WIDTH && (t >= 0 ==> RightDone(pn[..], t, 32 - s))
      modifies pn
      ensures pn[..] == RightPlaced(old(pn[..]), d, t, 32 - s)
    {
      hide Pow2, High, Low, Or;
      var u := 32 - s;
      var hi, lo := High(d, u), Low(d, u);
      NothingLost(d, u);
      OrZero(hi);
      if t > 0 {
        OrAbove(pn[t - 1], lo, u);
        if s != 0 {
          pn[t - 1] := Or(pn[t - 1], lo);
        }
      }
      if t >= 0 {
        pn[t] := Or(pn[t], hi);
      }
    }

    /** `operator>>=`. */
    method ShiftRight(shift: nat)
      requires Valid()
      modifies pn
      ensures Num() == old(Num()) / Pow2(shift)
    {
      hide Weight, Value, Pow2, RightPlaced;
      var a := new BaseUint.Copy(this);
      ghost var x := pn[..];
      Clear();
      var k, s := shift / 32, shift % 32;
      ghost var rest: nat := 0;
      for i := 0 to WIDTH
        invariant a.pn[..] == x && rest < Pow2(s) && RightSoFar(x, pn[..], i, k, s, rest)
      {
        rest := RightStep(x, pn[..], i, k, s, rest);
        RightRound(a.pn[i], i - k, s);
      }
      ShiftedRight(x, pn[..], shift, rest);
    }

    // -------------------------------------------------------------------------
    // Comparison and division
    // -------------------------------------------------------------------------

    /** `CompareTo`. */
    method CompareTo(b: BaseUint) returns (r: int)
      requires Valid() && b.Valid()
      ensures r == if Num() < b.Num() then -1 else if Num() > b.Num() then 1 else 0
    {
      hide Value;
      var i := WIDTH;
      while i > 0
        invariant 0 <= i <= WIDTH && pn[i..] == b.pn[i..]
      {
        i := i - 1;
        if pn[i] < b.pn[i] {
          HigherLimb(pn[..], b.pn[..], i);
          return -1;
        }
        if pn[i] > b.pn[i] {
          HigherLimb(b.pn[..], pn[..], i);
          return 1;
        }
      }
      assert pn[..] == b.pn[..];
      r := 0;
    }

    /** `bits`. */
    method Bits() returns (bits: nat)
      requires Valid()
      ensures bits <= 32 * WIDTH && IsBits(Num(), bits)
    {
      hide Value;
      var pos := WIDTH;
      while pos > 0
        invariant 0 <= pos <= WIDTH && forall j :: pos <= j < WIDTH ==> pn[j] == 0
      {
        pos := pos - 1;
        if pn[pos] != 0 {
          var top := TopBit(pn[pos]);
          BitsOfLimbs(pn[..], pos, top);
          return 32 * pos + top;
        }
      }
      ValueOfZeros(pn[..]);
      bits := 0;
    }

    /** `pn[shift / 32] |= (1 << (shift & 31))` for a bit that is not set, nor any below it. */
    method SetBit(shift: nat)
      requires Valid() && shift < 32 * WIDTH && ClearBelow(pn[..], shift + 1)
      modifies pn
      ensures ClearBelow(pn[..], shift) && Num() == old(Num()) + Pow2(shift)
    {
      hide Value, Pow2, Or;
      ClearNext(pn[..], shift);
      pn[shift / 32] := Or(pn[shift / 32], Pow2(shift % 32));
      assert pn[..] == old(pn[..])[shift / 32 := old(pn[..])[shift / 32] + Pow2(shift % 32)];
    }

    /** One round of the division loop. */
    method DivRound(num: BaseUint, div: BaseUint, shift: nat, ghost n: nat, ghost d: nat)
      requires Valid() && num.Valid() && div.Valid() && shift < 32 * WIDTH
      requires pn != num.pn && pn != div.pn && num.pn != div.pn
      requires DivInvariant(n, d, Num(), num.Num(), shift + 1) && div.Num() == d * Pow2(shift) && ClearBelow(pn[..], shift + 1)
      modifies pn, num.pn, div.pn
      ensures DivInvariant(n, d, Num(), num.Num(), shift) && ClearBelow(pn[..], shift)
      ensures shift > 0 ==> div.Num() == d * Pow2(shift - 1)
    {
      hide Value, Pow2, Or, Weight, ClearBelow, DivInvariant;
      ClearNext(pn[..], shift);
      DivStep(n, d, Num(), num.Num(), shift);
      ValueBound(num.pn[..]);
      var c := num.CompareTo(div);
      if c >= 0 {
        SmallMod(num.Num() - div.Num(), Modulus());
        num.SubAssign(div);
        SetBit(shift);
      }
      HalveShifted(d, shift);
      div.ShiftRight(1);
    }

    /**
      `operator/=`: the quotient, with the remainder in `num`. A zero divisor is an error, and leaves
      the number at zero. `x /= x` is fine, as both operands are copied first.
     */
    method DivAssign(b: BaseUint) returns (ok: bool, ghost rest: nat)
      requires Valid() && b.Valid() && Apart(b)
      modifies pn
      ensures ok <==> old(b.Num()) != 0
      ensures !ok ==> Num() == 0
      ensures ok ==> Num() == old(Num()) / old(b.Num()) && rest == old(Num()) % old(b.Num())
    {
      hide Value, Pow2, ClearBelow, DivInvariant;
      ghost var n, d := Num(), b.Num();
      var div := new BaseUint.Copy(b);
      var num := new BaseUint.Copy(this);
      Clear();
      rest := n;
      var numBits := num.Bits();
      var divBits := div.Bits();
      if divBits == 0 {
        return false, n;
      }
      if divBits > numBits {
        SmallerBits(n, d, numBits, divBits);
        return true, n;
      }
      var shift: int := numBits - divBits;
      Aligned(n, d, numBits, divBits);
      div.ShiftLeft(shift);
      AllClear(pn[..], shift + 1);
      while shift >= 0
        invariant -1 <= shift < 32 * WIDTH && num.Valid() && div.Valid() && fresh(num.pn) && fresh(div.pn) && num.pn != div.pn
        invariant DivInvariant(n, d, Num(), num.Num(), shift + 1) && ClearBelow(pn[..], shift + 1)
        invariant shift >= 0 ==> div.Num() == d * Pow2(shift)
        decreases shift + 1
      {
        DivRound(num, div, shift, n, d);
        shift := shift - 1;
      }
      DivDone(n, d, Num(), num.Num());
      ok, rest := true, num.Num();
    }
  }

  lemma LeftAdded(x: seq<Limb>, i: nat, k: nat, p: nat, before: nat, after: nat, lost: nat, more: nat)
    requires i < |x| && before + lost * Weight(WIDTH) == Value(x[..i]) * p * Weight(k)
    requires after + more * Weight(WIDTH) == before + x[i] * p * Weight(i + k)
    ensures after + (lost + more) * Weight(WIDTH) == Value(x[..i + 1]) * p * Weight(k)
  {
    hide Weight, Value;
    ValueNext(x, i);
    WeightAdd(i, k);
    LeftProduct(Value(x[..i]), x[i], Weight(i), p, Weight(k));
    RowSum(lost, more, Weight(WIDTH), 0, 0, 0, 0);
  }

  lemma LeftProduct(v: int, d: int, w: int, p: int, u: int)
    ensures (v + d * w) * p * u == v * p * u + d * p * (w * u)
  {
  }

  lemma ShiftWeight(shift: nat)
    ensures Pow2(shift) == Pow2(shift % 32) * Weight(shift / 32)
  {
    hide Pow2;
    Pow2Add(shift % 32, 32 * (shift / 32));
    assert shift == shift % 32 + 32 * (shift / 32);
  }

  lemma ShiftIsProduct(v: nat, shift: nat)
    ensures v * Pow2(shift % 32) * Weight(shift / 32) == v * Pow2(shift)
    ensures v * Pow2(shift) >= 0
  {
    hide Pow2, Weight;
    ShiftWeight(shift);
    Associate(v, Pow2(shift % 32), Weight(shift / 32));
    MulNonNegative(v, Pow2(shift));
  }

  lemma ShiftedRight(x: seq<Limb>, ds: seq<Limb>, shift: nat, rest: nat)
    requires |x| == |ds| == WIDTH && rest < Pow2(shift % 32) && RightSoFar(x, ds, WIDTH, shift / 32, shift % 32, rest)
    ensures Value(ds) == Value(x) / Pow2(shift)
  {
    hide Weight, Value, Pow2;
    var k, s := shift / 32, shift % 32;
    ShiftWeight(shift);
    if k >= WIDTH {
      ValueOfZeros(ds);
      ShiftedOut(x, k, Pow2(s));
    } else {
      assert x[k..WIDTH] == x[k..];
      ShiftedWithin(x, k, Pow2(s), Value(ds), rest);
    }
  }

  lemma ShiftedOut(x: seq<Limb>, k: nat, p: nat)
    requires |x| == WIDTH <= k && p > 0
    ensures Value(x) / (p * Weight(k)) == 0
  {
    hide Weight, Value;
    ValueBound(x);
    WeightAdd(WIDTH, k - WIDTH);
    MulFarFromZero(Weight(WIDTH), Weight(k - WIDTH));
    MulFarFromZero(p, Weight(k));
    DivUnique(Value(x), p * Weight(k), 0, Value(x));
  }

  lemma ShiftedWithin(x: seq<Limb>, k: nat, p: nat, v: nat, rest: nat)
    requires k <= |x| && rest < p && v * p + rest == Value(x[k..])
    ensures Value(x) / (p * Weight(k)) == v
  {
    hide Weight, Value;
    ValueSplit(x, k);
    ValueBound(x[..k]);
    RightWhole(v, p, rest, Weight(k), Value(x[..k]));
    DivUnique(Value(x), p * Weight(k), v, Weight(k) * rest + Value(x[..k]));
  }

  lemma RightWhole(v: nat, p: nat, rest: nat, w: nat, low: nat)
    requires rest < p && low < w
    ensures low + w * (v * p + rest) == p * w * v + (w * rest + low)
    ensures 0 <= w * rest + low < p * w
  {
    MulNonNegative(w, rest);
    MulMono(rest, p, w);
  }

  /** `q` is the quotient down to bit `bits`, and `r` what is left of the number. */
  ghost predicate DivInvariant(n: nat, d: nat, q: nat, r: nat, bits: nat) {
    n == q * d + r && r < d * Pow2(bits)
  }

  lemma DivStep(n: nat, d: nat, q: nat, r: nat, shift: nat)
    requires DivInvariant(n, d, q, r, shift + 1)
    ensures r >= d * Pow2(shift) ==> DivInvariant(n, d, q + Pow2(shift), r - d * Pow2(shift), shift)
    ensures r < d * Pow2(shift) ==> DivInvariant(n, d, q, r, shift)
  {
    hide Pow2;
    Pow2Double(shift);
    var p := Pow2(shift);
    assert d * (2 * p) == 2 * (d * p);
    assert (q + p) * d == q * d + d * p;
  }

  lemma SmallMod(x: int, m: nat)
    requires x < m
    ensures 0 <= x ==> x % m == x
  {
    if 0 <= x {
      DivUnique(x, m, 0, x);
    }
  }

  lemma HalveShifted(d: nat, shift: nat)
    ensures shift > 0 ==> d * Pow2(shift) / Pow2(1) == d * Pow2(shift - 1)
  {
    hide Pow2;
    if shift > 0 {
      Pow2Double(shift - 1);
      Pow2One();
      var p := Pow2(shift - 1);
      assert d * (2 * p) == 2 * (d * p);
      DivUnique(d * Pow2(shift), 2, d * p, 0);
    }
  }

  lemma SmallerBits(n: nat, d: nat, numBits: nat, divBits: nat)
    requires IsBits(n, numBits) && IsBits(d, divBits) && divBits > numBits
    ensures n < d && 0 == n / d && n == n % d
  {
    hide Pow2;
    Pow2Mono(numBits, divBits - 1);
    DivUnique(n, d, 0, n);
  }

  /** Shifting the divisor up to the number of bits of the dividend does not overflow. */
  lemma Aligned(n: nat, d: nat, numBits: nat, divBits: nat)
    requires IsBits(n, numBits) && IsBits(d, divBits) && 0 < divBits <= numBits <= 32 * WIDTH
    ensures
      var shift := numBits - divBits;
      d * Pow2(shift) % Modulus() == d * Pow2(shift) && DivInvariant(n, d, 0, n, shift + 1)
  {
    hide Pow2;
    var shift := numBits - divBits;
    Pow2Add(divBits, shift);
    Pow2Add(divBits - 1, shift + 1);
    Pow2Mono(numBits, 32 * WIDTH);
    MulMono(d, Pow2(divBits), Pow2(shift));
    MulMono(d, Pow2(divBits - 1), Pow2(shift + 1));
    MulNonNegative(d, Pow2(shift));
    assert Modulus() == Pow2(32 * WIDTH);
    SmallMod(d * Pow2(shift), Modulus());
  }

  lemma AllClear(ds: seq<Limb>, bits: nat)
    requires Zero(ds)
    ensures ClearBelow(ds, bits)
  {
    hide Pow2;
    DivUnique(0, Pow2(bits % 32), 0, 0);
  }

  lemma DivDone(n: nat, d: nat, q: nat, r: nat)
    requires DivInvariant(n, d, q, r, 0)
    ensures q == n / d && r == n % d
  {
    Pow2Zero();
    DivUnique(n, d, q, r);
  }

  lemma TimesZero(a: int)
    ensures a * 0 == 0
  {
  }

  lemma RowStart(a: int, w: int, v: int)
    ensures a * (w * 0) == 0 && 0 * v == 0
  {
  }

  lemma RowStep(before: seq<Limb>, after: seq<Limb>, start: nat, y: seq<Limb>, i: nat, j: nat, aj: nat, carry: nat, n: nat)
    requires i + j < |before| && i < |y| && n == carry + before[i + j] + aj * y[i] && after == before[i + j := n % BASE]
    requires Value(before) + carry * Weight(i + j) == start + aj * (Weight(j) * Value(y[..i]))
    ensures Value(after) + n / BASE * Weight(i + j + 1) == start + aj * (Weight(j) * Value(y[..i + 1]))
  {
    hide Weight, Value;
    ValueNext(y, i);
    ValueUpdate(before, i + j, after[i + j]);
    WeightNext(i + j);
    WeightAdd(i, j);
    Carried(n, Weight(i + j));
    Distribute(n % BASE, before[i + j], Weight(i + j));
    DistributeSum(carry, before[i + j], aj * y[i], Weight(i + j));
    RowDistribute(aj, Weight(j), Value(y[..i]), y[i], Weight(i));
  }

  lemma RowDistribute(a: int, w: int, v: int, d: int, u: int)
    ensures a * (w * (v + d * u)) == a * (w * v) + a * d * (u * w)
  {
  }

  /** What the row leaves out is a multiple of 2^256. */
  lemma RowEnd(y: seq<Limb>, j: nat, aj: nat, carry: nat) returns (lost: nat)
    requires |y| == WIDTH && j <= WIDTH
    ensures carry * Weight(WIDTH) + aj * (Weight(j) * Value(y)) == lost * Weight(WIDTH) + aj * (Weight(j) * Value(y[..WIDTH - j]))
  {
    hide Weight, Value;
    var k := WIDTH - j;
    ValueSplit(y, k);
    WeightAdd(k, j);
    var high := Value(y[k..]);
    MulNonNegative(aj, high);
    lost := carry + aj * high;
    RowLost(aj, Weight(j), Weight(k), Value(y[..k]), high, carry);
  }

  lemma RowLost(a: int, w: int, u: int, low: int, high: int, carry: int)
    ensures a * (w * (low + u * high)) == a * (w * low) + a * high * (u * w)
    ensures (carry + a * high) * (u * w) == carry * (u * w) + a * high * (u * w)
  {
  }

  lemma RowAdded(x: seq<Limb>, j: nat, before: nat, after: nat, lost: nat, more: nat, y: nat)
    requires j < |x| && before + lost * Weight(WIDTH) == Value(x[..j]) * y
    requires after + more * Weight(WIDTH) == before + x[j] * (Weight(j) * y)
    ensures after + (lost + more) * Weight(WIDTH) == Value(x[..j + 1]) * y
  {
    hide Weight, Value;
    ValueNext(x, j);
    RowSum(lost, more, Weight(WIDTH), Value(x[..j]), x[j], Weight(j), y);
  }

  lemma RowSum(lost: int, more: int, m: int, v: int, d: int, w: int, y: int)
    ensures (lost + more) * m == lost * m + more * m
    ensures (v + d * w) * y == v * y + d * (w * y)
  {
  }

  lemma IncrementStep(before: seq<Limb>, after: seq<Limb>, i: nat, total: nat)
    requires i < |before| && after == before[i := if before[i] == BASE - 1 then 0 else before[i] + 1]
    requires Value(before) + Weight(i) == total
    ensures Value(after) + (if after[i] == 0 then Weight(i + 1) else 0) == total
  {
    hide Weight, Value;
    ValueUpdate(before, i, after[i]);
    WeightNext(i);
    IncrementArith(after[i], before[i], Weight(i));
  }

  lemma IncrementArith(a: int, b: int, w: int)
    requires 0 <= b < BASE && a == if b == BASE - 1 then 0 else b + 1
    ensures (a - b) * w + (if a == 0 then BASE * w else 0) == w
  {
    if a == 0 {
      assert (0 - (BASE - 1)) * w + BASE * w == w;
    } else {
      assert a - b == 1;
    }
  }

  lemma ComplementStep(low: seq<Limb>, next: seq<Limb>, x: seq<Limb>, i: nat)
    requires i < |x| && |low| == i && next == low + [BASE - 1 - x[i]] && Value(low) + Value(x[..i]) == Weight(i) - 1
    ensures Value(next) + Value(x[..i + 1]) == Weight(i + 1) - 1
  {
    hide Weight, Value;
    ValueNext(x, i);
    ValueNext(next, i);
    assert next[..i] == low && next[..i + 1] == next;
    WeightNext(i);
    DistributeSum(BASE - 1 - x[i], x[i], 1, Weight(i));
  }

  lemma Complemented(m: nat, x: nat)
    requires x < m
    ensures (m - 1 - x + 1) % m == (0 - x) % m
  {
    DivUnique(0 - x, m, if x == 0 then 0 else -1, if x == 0 then 0 else m - x);
    DivUnique(m - x, m, if x == 0 then 1 else 0, if x == 0 then 0 else m - x);
  }

  lemma ModAdd(x: int, y: int, m: nat)
    requires m > 0
    ensures (x + y % m) % m == (x + y) % m
  {
    var q := y / m;
    assert y == m * q + y % m;
    DivBounds(x + y % m, m);
    var p, r := (x + y % m) / m, (x + y % m) % m;
    assert x + y == m * (p + q) + r;
    DivUnique(x + y, m, p + q, r);
  }

  /** A product of limbs and two more limbs fit in 64 bits, and leave a carry of 32 bits. */
  lemma ProductFits(a: Limb, b: Limb, carry: Limb, c: Limb)
    ensures carry + c + a * b < BASE * BASE
  {
    var m := BASE - 1;
    assert a * b <= m * m by {
      LimbProduct(a, b);
    }
  }

  lemma LimbProduct(a: Limb, b: Limb)
    ensures 0 <= a * b <= (BASE - 1) * (BASE - 1)
  {
    MulNonNegative(a, b);
    MulNonNegative(BASE - 1 - a, b);
    MulNonNegative(BASE - 1, BASE - 1 - b);
    Distribute(BASE - 1, a, b);
    assert (BASE - 1) * (BASE - 1 - b) == (BASE - 1) * (BASE - 1) - (BASE - 1) * b;
  }

  lemma ScaleStep(low: seq<Limb>, next: seq<Limb>, x: seq<Limb>, i: nat, b: nat, carry: nat, n: nat)
    requires i < |x| && |low| == i && n == carry + b * x[i] && next == low + [n % BASE]
    requires Value(low) + carry * Weight(i) == Value(x[..i]) * b
    ensures Value(next) + n / BASE * Weight(i + 1) == Value(x[..i + 1]) * b
  {
    hide Weight, Value;
    ValueNext(x, i);
    ValueNext(next, i);
    assert next[..i] == low && next[..i + 1] == next;
    WeightNext(i);
    Carried(n, Weight(i));
    ScaleDistribute(b, carry, x[i], Weight(i), Value(x[..i]));
  }

  lemma ScaleDistribute(b: int, carry: int, x: int, w: int, v: int)
    ensures (carry + b * x) * w == carry * w + b * x * w
    ensures (v + x * w) * b == v * b + b * x * w
  {
  }

  lemma TwoLimbs(ds: seq<Limb>)
    requires |ds| == WIDTH && forall i :: 2 <= i < WIDTH ==> ds[i] == 0
    ensures Value(ds) == ds[0] + BASE * ds[1]
  {
    hide Weight;
    ValueSplit(ds, 2);
    ValueOfZeros(ds[2..]);
    ValueNext(ds, 0);
    ValueNext(ds, 1);
    WeightNext(0);
    WeightZero();
    assert ds[..0] == [];
  }

  lemma LowLimbs(ds: seq<Limb>)
    requires |ds| == WIDTH
    ensures Value(ds) < BASE * BASE ==> Value(ds) == ds[0] + ds[1] * BASE
  {
    hide Weight, Value;
    ValueSplit(ds, 2);
    ValueNext(ds, 0);
    ValueNext(ds, 1);
    WeightNext(0);
    WeightNext(1);
    WeightZero();
    ValueStart(ds);
    MulFarFromZero(Weight(2), Value(ds[2..]));
  }

  lemma ValueStart(ds: seq<Limb>)
    ensures Value(ds[..0]) == 0
  {
  }

  /** The low half of a double limb stays and the high half is carried. */
  lemma Carried(n: nat, w: nat)
    ensures n % BASE * w + n / BASE * (BASE * w) == n * w
  {
    var q, r := n / BASE, n % BASE;
    assert n == BASE * q + r;
    assert (BASE * q + r) * w == q * (BASE * w) + r * w;
  }

  lemma DistributeSum(a: int, b: int, c: int, w: int)
    ensures (a + b + c) * w == a * w + b * w + c * w
  {
  }

  lemma AddStep(low: seq<Limb>, next: seq<Limb>, x: seq<Limb>, y: seq<Limb>, i: nat, carry: nat, n: nat)
    requires i < |x| == |y| && |low| == i && n == carry + x[i] + y[i] && next == low + [n % BASE]
    requires Value(low) + carry * Weight(i) == Value(x[..i]) + Value(y[..i])
    ensures Value(next) + n / BASE * Weight(i + 1) == Value(x[..i + 1]) + Value(y[..i + 1])
  {
    hide Weight, Value;
    ValueNext(x, i);
    ValueNext(y, i);
    ValueNext(next, i);
    assert next[..i] == low && next[..i + 1] == next;
    WeightNext(i);
    Carried(n, Weight(i));
    DistributeSum(carry, x[i], y[i], Weight(i));
  }

  /** The carry out of the last limb is lost. */
  lemma Reduce(ds: seq<Limb>, carry: nat, total: nat)
    requires |ds| == WIDTH && Value(ds) + carry * Weight(WIDTH) == total
    ensures Value(ds) == total % Modulus()
  {
    hide Weight;
    ValueBound(ds);
    assert Modulus() * carry == carry * Weight(WIDTH);
    DivUnique(total, Modulus(), carry, Value(ds));
  }
}
