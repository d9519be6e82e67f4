/**
  The compact format of difficulty targets (`SetCompact` and `GetCompact` of
  arith_uint256.cpp): one byte of exponent to the base 256, a sign bit and 23
  bits of mantissa.
 */
module Compact {
  import opened Arithmetic
  import opened ArithUint256
  import opened LimbBits
  import opened Limbs

  /** 256^k */
  function Bytes(k: nat): (r: nat)
    ensures r > 0
  {
    Pow2(8 * k)
  }

  const SIGN: nat := 0x800000
  const EXPONENT: nat := 0x1000000

  lemma BytesAre()
    ensures Bytes(0) == 1 && Bytes(1) == 0x100 && Bytes(2) == 0x10000 && Bytes(3) == EXPONENT
  {
    assert Pow2(4) == 16;
    Pow2Add(4, 4);
    Pow2Add(8, 8);
    Pow2Add(8, 16);
  }

  lemma BytesAdd(a: nat, b: nat)
    ensures Bytes(a + b) == Bytes(a) * Bytes(b)
  {
    hide Pow2;
    Pow2Add(8 * a, 8 * b);
    assert 8 * (a + b) == 8 * a + 8 * b;
  }

  // ---------------------------------------------------------------------------
  // Reading
  // ---------------------------------------------------------------------------

  function Exponent(c: Limb): nat {
    c / EXPONENT
  }

  predicate SignBit(c: Limb) {
    c / SIGN % 2 == 1
  }

  /** The mantissa, after the shift to the right for small exponents. */
  function Word(c: Limb): nat {
    if Exponent(c) <= 3 then Quotient(c % SIGN, Bytes(3 - Exponent(c))) else c % SIGN
  }

  /** The number meant, however large. */
  function Meaning(c: Limb): nat {
    if Exponent(c) <= 3 then Word(c) else Product(Word(c), Bytes(Exponent(c) - 3))
  }

  predicate IsNegative(c: Limb) {
    Word(c) != 0 && SignBit(c)
  }

  predicate IsOverflow(c: Limb) {
    && Word(c) != 0
    && (|| Exponent(c) > 34
        || (Word(c) > 0xff && Exponent(c) > 33)
        || (Word(c) > 0xffff && Exponent(c) > 32))
  }

  /** The overflow flag is set exactly if the number meant does not fit in 256 bits. */
  lemma OverflowIsRight(c: Limb)
    ensures IsOverflow(c) <==> Meaning(c) >= Modulus()
  {
    hide Pow2, Bytes, Weight;
    var e, w := Exponent(c), Word(c);
    WordBound(c);
    ModulusIsBytes();
    BytesAre();
    if e <= 3 {
      ScaleUp(1, 3, 32);
    } else if e >= 35 {
      ScaleUp(w, e - 3, e - 3);
      ScaleUp(1, 32, e - 3);
    } else {
      BytesAdd(e - 3, 35 - e);
      assert 35 - e <= 3 ==> e == 32 || e == 33 || e == 34;
      MulMono(w, Bytes(35 - e), Bytes(e - 3));
      if 35 - e > 2 {
        ScaleUp(1, 3, 35 - e);
      }
    }
  }

  lemma ModulusIsBytes()
    ensures Modulus() == Bytes(32)
  {
  }

  lemma WordBound(c: Limb)
    ensures Word(c) < SIGN
  {
    hide Pow2, Bytes;
  }

  lemma ScaleUp(w: nat, a: nat, b: nat)
    requires a <= b
    ensures Bytes(a) <= Bytes(b)
    ensures w >= 1 ==> w * Bytes(b) >= Bytes(b)
    ensures w == 0 ==> w * Bytes(b) == 0
  {
    hide Pow2, Bytes;
    BytesAdd(a, b - a);
    MulFarFromZero(Bytes(a), Bytes(b - a));
    MulFarFromZero(Bytes(b), w);
  }

  // ---------------------------------------------------------------------------
  // Writing
  // ---------------------------------------------------------------------------

  /** The position of the highest bit set, plus one. */
  function BitCount(v: nat): nat {
    if v == 0 then 0 else 1 + BitCount(v / 2)
  }

  lemma {:induction false} BitCountIs(v: nat)
    ensures IsBits(v, BitCount(v))
  {
    if v > 0 {
      BitCountIs(v / 2);
    }
  }

  lemma BitsUnique(v: nat, a: nat, b: nat)
    requires IsBits(v, a) && IsBits(v, b)
    ensures a == b
  {
    hide Pow2;
    if a < b {
      Pow2Mono(a, b - 1);
    } else if b < a {
      Pow2Mono(b, a - 1);
    }
  }

  function ByteCount(v: nat): nat {
    (BitCount(v) + 7) / 8
  }

  /** A number has as many bytes as it needs. */
  lemma ByteBounds(v: nat)
    ensures v < Bytes(ByteCount(v))
    ensures v == 0 <==> ByteCount(v) == 0
    ensures v > 0 ==> Bytes(ByteCount(v) - 1) <= v
  {
    hide Pow2;
    BitCountIs(v);
    var b, n := BitCount(v), ByteCount(v);
    Pow2Mono(b, 8 * n);
    if v > 0 {
      Pow2Mono(8 * (n - 1), b - 1);
    } else {
      BytesAre();
    }
  }

  /** The three highest bytes. */
  function Top(v: nat): nat {
    var n := ByteCount(v);
    if n <= 3 then Product(v, Bytes(3 - n)) else Quotient(v, Bytes(n - 3))
  }

  lemma TopBound(v: nat)
    ensures Top(v) < EXPONENT
    ensures v > 0 ==> 0x10000 <= Top(v)
  {
    hide Pow2, Bytes, ByteCount;
    var n := ByteCount(v);
    ByteBounds(v);
    BytesAre();
    if n <= 3 {
      BytesAdd(n, 3 - n);
      MulMono(v, Bytes(n), Bytes(3 - n));
      if v > 0 {
        BytesAdd(n - 1, 3 - n);
        MulMono(v, Bytes(n - 1), Bytes(3 - n));
      }
    } else {
      BytesAdd(3, n - 3);
      BytesAdd(2, n - 3);
      var q := v / Bytes(n - 3);
      DivBounds(v, Bytes(n - 3));
      MulMono(Bytes(3), q, Bytes(n - 3));
      MulMono(q, Bytes(2), Bytes(n - 3));
    }
  }

  /** Where the sign bit would be hit, one byte less is kept. */
  function Mantissa(v: nat): (m: nat)
    ensures m < SIGN
  {
    TopBound(v);
    if Top(v) >= SIGN then Top(v) / 0x100 else Top(v)
  }

  function Size(v: nat): nat {
    ByteCount(v) + if Top(v) >= SIGN then 1 else 0
  }

  lemma SizeBound(v: nat)
    requires v < Modulus()
    ensures Size(v) <= 33
  {
    hide Pow2, Bytes, Top, ByteCount;
    var n := ByteCount(v);
    ByteBounds(v);
    ModulusIsBytes();
    if n > 32 {
      ScaleUp(1, 32, n - 1);
    }
  }

  /** `GetCompact`. */
  function CompactOf(v: nat, fNegative: bool): Limb
    requires v < Modulus()
  {
    SizeBound(v);
    Mantissa(v) + Size(v) * EXPONENT + if fNegative && Mantissa(v) != 0 then SIGN else 0
  }

  /** Reading the fields back. */
  lemma Fields(v: nat, fNegative: bool)
    requires v < Modulus()
    ensures
      var c := CompactOf(v, fNegative);
      Exponent(c) == Size(v) && c % SIGN == Mantissa(v) && (SignBit(c) <==> fNegative && Mantissa(v) != 0)
  {
    hide Mantissa, Size;
    SizeBound(v);
    var m, e := Mantissa(v), Size(v);
    var s := if fNegative && m != 0 then 1 else 0;
    var c := CompactOf(v, fNegative);
    assert c == m + e * EXPONENT + s * SIGN;
    assert c / SIGN == 2 * e + s;
  }

  /** The bytes that the compact form drops. */
  function Dropped(v: nat): nat {
    if Size(v) <= 3 then 0 else Size(v) - 3
  }

  lemma Cancel(q: nat, p: nat)
    requires p > 0
    ensures q * p / p == q
  {
    DivUnique(q * p, p, q, 0);
  }

  /** `v` without its lowest bytes. */
  function Cut(v: nat, p: nat): nat
    requires p > 0
  {
    Product(Quotient(v, p), p)
  }

  /** Mantissa times power is the number without the bytes dropped. */
  lemma MantissaScaled(v: nat)
    ensures Size(v) > 3 ==> Mantissa(v) * Bytes(Size(v) - 3) == Cut(v, Bytes(Size(v) - 3))
    ensures Size(v) <= 3 ==> Mantissa(v) / Bytes(3 - Size(v)) == v
  {
    hide Pow2, Bytes, ByteCount;
    var n := ByteCount(v);
    BytesAre();
    if Top(v) < SIGN {
      if n <= 3 {
        Cancel(v, Bytes(3 - n));
      }
    } else if n <= 2 {
      BytesAdd(2 - n, 1);
      Associate(v, Bytes(2 - n), 0x100);
      MulNonNegative(v, Bytes(2 - n));
      Cancel(v * Bytes(2 - n), 0x100);
      Cancel(v, Bytes(2 - n));
    } else if n > 3 {
      BytesAdd(n - 3, 1);
      DivDiv(v, Bytes(n - 3), 0x100);
    }
  }

  /** Reading back what was written gives the number without the bytes dropped. */
  lemma WriteRead(v: nat, fNegative: bool)
    requires v < Modulus()
    ensures Meaning(CompactOf(v, fNegative)) == Cut(v, Bytes(Dropped(v)))
  {
    hide Pow2, Bytes, Mantissa, Size, CompactOf;
    Fields(v, fNegative);
    MantissaScaled(v);
    BytesAre();
  }

  /** The compact form is a lower bound, less than one unit of its last place away. */
  lemma CompactAccuracy(v: nat, fNegative: bool)
    requires v < Modulus()
    ensures
      var c := CompactOf(v, fNegative);
      Meaning(c) <= v < Meaning(c) + Bytes(if Exponent(c) <= 3 then 0 else Exponent(c) - 3)
  {
    hide Pow2, Bytes, Mantissa, Size, CompactOf;
    Fields(v, fNegative);
    WriteRead(v, fNegative);
    DivBounds(v, Bytes(Dropped(v)));
  }

  /** The mantissa of a number other than zero is as large as it can be. */
  lemma Normalised(v: nat, fNegative: bool)
    requires v < Modulus()
    ensures v > 0 ==> CompactOf(v, fNegative) % SIGN >= 0x8000
    ensures v == 0 ==> CompactOf(v, fNegative) == 0
  {
    hide Pow2, Bytes, Size, CompactOf;
    Fields(v, fNegative);
    TopBound(v);
    if v == 0 {
      NoBytes();
      ZeroCode(fNegative);
    }
  }

  lemma NoBytes()
    ensures ByteCount(0) == 0
  {
  }

  lemma ZeroCode(fNegative: bool)
    ensures CompactOf(0, fNegative) == 0
  {
    hide Pow2, Bytes;
    NoBytes();
    assert Top(0) == 0;
  }

  /** A mantissa with an exponent is the beginning of a number, up to the first digit that does not fit. */
  predicate Leads(m: nat, e: nat, v: nat) {
    0x8000 <= m < SIGN && m * Bytes(e) <= v * Bytes(3) < (m + 1) * Bytes(e)
  }

  /** The compact form has the highest digits of the number. */
  lemma CompactLeads(v: nat, fNegative: bool)
    requires 0 < v < Modulus()
    ensures Leads(CompactOf(v, fNegative) % SIGN, Exponent(CompactOf(v, fNegative)), v)
  {
    hide Pow2, Bytes, Mantissa, Size, CompactOf;
    Fields(v, fNegative);
    Normalised(v, fNegative);
    MantissaDigits(v);
  }

  lemma MantissaDigits(v: nat)
    ensures Mantissa(v) * Bytes(Size(v)) <= v * Bytes(3) < (Mantissa(v) + 1) * Bytes(Size(v))
  {
    hide Pow2, Bytes, ByteCount, Top;
    var m, e := Mantissa(v), Size(v);
    MantissaScaled(v);
    if e > 3 {
      BytesAdd(e - 3, 3);
      CutBounds(v, Bytes(e - 3), m);
      ScaleBoth(m, Bytes(e - 3), Bytes(3), v);
    } else {
      hide Mantissa, Size;
      SmallDigits(v);
      MulMono(m, m + 1, Bytes(e));
    }
  }

  lemma CutBounds(v: nat, p: nat, m: nat)
    requires p > 0 && m * p == Cut(v, p)
    ensures m * p <= v < (m + 1) * p
  {
    DivBounds(v, p);
    assert p * (v / p) == v / p * p && (m + 1) * p == m * p + p;
  }

  lemma ScaleBoth(m: nat, p: nat, b: nat, v: nat)
    requires b > 0 && m * p <= v < (m + 1) * p
    ensures m * (p * b) <= v * b < (m + 1) * (p * b)
  {
    Associate(m, p, b);
    Associate(m + 1, p, b);
    MulMono(v, m * p, b);
    MulMono(v, (m + 1) * p, b);
  }

  lemma SmallDigits(v: nat)
    requires Size(v) <= 3
    ensures Mantissa(v) * Bytes(Size(v)) == v * Bytes(3)
  {
    hide Pow2, Bytes, ByteCount;
    var n := ByteCount(v);
    BytesAre();
    BytesAdd(3 - n, n);
    if Top(v) < SIGN {
      Associate(v, Bytes(3 - n), Bytes(n));
    } else {
      BytesAdd(2 - n, 1);
      BytesAdd(2 - n, n + 1);
      Associate(v, Bytes(2 - n), 0x100);
      MulNonNegative(v, Bytes(2 - n));
      Cancel(v * Bytes(2 - n), 0x100);
      Associate(v, Bytes(2 - n), Bytes(n + 1));
    }
  }

  /** A longer number leads with a larger one. */
  lemma LeadsLength(m: nat, e: nat, m': nat, e': nat, v: nat)
    requires Leads(m, e, v) && Leads(m', e', v)
    ensures e' <= e
  {
    hide Pow2, Bytes;
    if e < e' {
      BytesAre();
      BytesAdd(1, e' - e - 1);
      BytesAdd(e' - e, e);
      MulFarFromZero(0x100, Bytes(e' - e - 1));
      Associate(0x8000, Bytes(e' - e), Bytes(e));
      MulMono(0x8000 * Bytes(e' - e), SIGN, Bytes(e));
      MulMono(m', 0x8000, Bytes(e'));
      MulMono(SIGN, m + 1, Bytes(e));
    }
  }

  /** Only one mantissa with one exponent leads a number, so the compact form is the only normalised one. */
  lemma LeadsOnce(m: nat, e: nat, m': nat, e': nat, v: nat)
    requires Leads(m, e, v) && Leads(m', e', v)
    ensures m == m' && e == e'
  {
    hide Pow2, Bytes;
    LeadsLength(m, e, m', e', v);
    LeadsLength(m', e', m, e, v);
    if m < m' {
      MulMono(m', m + 1, Bytes(e));
    } else if m' < m {
      MulMono(m, m' + 1, Bytes(e));
    }
  }

  /** No number that has a compact form lies between what the compact form means and the number itself. */
  lemma CompactBest(v: nat, fNegative: bool, d: Limb)
    requires v < Modulus() && Meaning(d) <= v
    ensures Meaning(d) <= Meaning(CompactOf(v, fNegative))
  {
    hide Pow2, Bytes, Mantissa, Size, CompactOf;
    WriteRead(v, fNegative);
    BytesAre();
    var k := Dropped(v);
    if k > 0 {
      var w := Word(d);
      WordBound(d);
      if Exponent(d) >= 3 + k {
        BytesAdd(Exponent(d) - 3 - k, k);
        Associate(w, Bytes(Exponent(d) - 3 - k), Bytes(k));
        MulNonNegative(w, Bytes(Exponent(d) - 3 - k));
        CutIsLargest(v, Bytes(k), w * Bytes(Exponent(d) - 3 - k));
      } else {
        BelowCut(v, w, if Exponent(d) <= 3 then 0 else Exponent(d) - 3);
        assert Meaning(d) == w * Bytes(if Exponent(d) <= 3 then 0 else Exponent(d) - 3);
      }
    } else {
      assert Cut(v, 1) == v;
    }
  }

  lemma CutIsLargest(v: nat, p: nat, q: nat)
    requires p > 0 && q * p <= v
    ensures q * p <= Cut(v, p)
  {
    DivBounds(v, p);
    MulMono(q, v / p + 1, p);
    MulMono(v / p, q, p);
    assert p * (v / p) == v / p * p && (v / p + 1) * p == v / p * p + p;
  }

  /** A mantissa with fewer bytes behind it is below what is kept. */
  lemma BelowCut(v: nat, w: nat, j: nat)
    requires w < SIGN && j < Dropped(v)
    ensures w * Bytes(j) <= Cut(v, Bytes(Dropped(v)))
  {
    hide Pow2, Bytes, ByteCount;
    var k := Dropped(v);
    var m := Mantissa(v);
    MantissaScaled(v);
    DroppedBytes(v);
    TopBound(v);
    BytesAre();
    BytesAdd(j, k - j);
    BytesAdd(1, k - j - 1);
    MulFarFromZero(0x100, Bytes(k - j - 1));
    assert m >= 0x8000;
    Associate(m, Bytes(k - j), Bytes(j));
    MulMono(m, 0x8000, Bytes(k - j));
    MulMono(m * Bytes(k - j), w, Bytes(j));
    assert Bytes(j) * Bytes(k - j) == Bytes(k - j) * Bytes(j);
  }

  /** An encoding never overflows, and is negative exactly if that was asked for and it does not mean zero. */
  lemma CompactFlags(v: nat, fNegative: bool)
    requires v < Modulus()
    ensures
      var c := CompactOf(v, fNegative);
      !IsOverflow(c) && (IsNegative(c) <==> fNegative && Meaning(c) != 0)
  {
    hide Pow2, Bytes, Mantissa, Size, CompactOf, IsOverflow;
    var c := CompactOf(v, fNegative);
    CompactAccuracy(v, fNegative);
    OverflowIsRight(c);
    Fields(v, fNegative);
    if Exponent(c) <= 3 {
      assert c % SIGN == 0 ==> Word(c) == 0;
    } else {
      ScaleUp(Word(c), 0, Exponent(c) - 3);
    }
  }

  /** Cutting off low bytes keeps the highest bit, as long as it is not among them. */
  lemma CutKeepsBits(v: nat, k: nat)
    requires v > 0 && 8 * k < BitCount(v)
    ensures BitCount(Cut(v, Bytes(k))) == BitCount(v)
  {
    hide Pow2, BitCount;
    var b, p := BitCount(v), Bytes(k);
    BitCountIs(v);
    Pow2Add(8 * k, b - 1 - 8 * k);
    CutAtLeast(v, p, Pow2(b - 1 - 8 * k));
    var w := Cut(v, p);
    BitCountIs(w);
    BitsUnique(w, BitCount(w), b);
  }

  lemma CutAtLeast(v: nat, p: nat, u: nat)
    requires p > 0 && p * u <= v
    ensures p * u <= Cut(v, p) <= v
  {
    DivBounds(v, p);
    MulMono(v / p, u, p);
    assert p * u == u * p && p * (v / p) == v / p * p;
  }

  /** How many bytes are dropped, and that the highest bit is not in them. */
  lemma DroppedBytes(v: nat)
    requires Dropped(v) > 0
    ensures v > 0 && 8 * Dropped(v) < BitCount(v)
    ensures ByteCount(v) >= 3
  {
    hide Pow2, Bytes, Top;
    TopBound(v);
  }

  lemma CutTop(v: nat)
    requires Dropped(v) > 0
    ensures
      var w := Cut(v, Bytes(Dropped(v)));
      Mantissa(w) == Mantissa(v) && Size(w) == Size(v)
  {
    hide Pow2, Bytes, BitCount;
    var n, k := ByteCount(v), Dropped(v);
    DroppedBytes(v);
    CutKeepsBits(v, k);
    MantissaScaled(v);
    BytesAre();
    var m, w := Mantissa(v), Cut(v, Bytes(k));
    assert ByteCount(w) == n && w == m * Bytes(k);
    if Top(v) < SIGN {
      Cancel(m, Bytes(k));
      assert Top(w) == m;
    } else {
      assert m >= 0x8000;
      if n > 3 {
        BytesAdd(1, n - 3);
        Associate(m, 0x100, Bytes(n - 3));
        Cancel(m * 0x100, Bytes(n - 3));
      }
      assert Top(w) == m * 0x100;
    }
  }

  /** Encoding again what was read gives the same encoding. */
  lemma CompactStable(v: nat, fNegative: bool)
    requires v < Modulus()
    ensures
      var c := CompactOf(v, fNegative);
      Meaning(c) < Modulus() && CompactOf(Meaning(c), fNegative) == c
  {
    hide Pow2, Bytes, Mantissa, Size, Meaning;
    CompactAccuracy(v, fNegative);
    WriteRead(v, fNegative);
    if Dropped(v) > 0 {
      CutTop(v);
    } else {
      BytesAre();
    }
  }

  /** The two examples of arith_uint256.h. */
  lemma CompactExamples()
    ensures 0x12_3456_0000 < Modulus() && CompactOf(0x12_3456_0000, false) == 0x05123456
    ensures 0xc0_de00_0000 < Modulus() && CompactOf(0xc0_de00_0000, false) == 0x0600c0de
  {
    hide Pow2, Bytes, BitCount;
    BytesAre();
    BytesAdd(2, 3);
    ModulusIsBytes();
    ScaleUp(1, 5, 32);
    FiveBytes(0x12_3456_0000);
    FiveBytes(0xc0_de00_0000);
  }

  lemma FiveBytes(v: nat)
    requires 0x1_0000_0000 <= v < 0x100_0000_0000
    ensures ByteCount(v) == 5
  {
    hide Pow2, Bytes, ByteCount;
    var n := ByteCount(v);
    ByteBounds(v);
    BytesAre();
    BytesAdd(2, 3);
    BytesAdd(2, 2);
    if n > 5 {
      ScaleUp(1, 5, n - 1);
    } else if n < 5 {
      ScaleUp(1, n, 4);
    }
  }

  // ---------------------------------------------------------------------------
  // The methods
  // ---------------------------------------------------------------------------

  method SetCompact(x: BaseUint, nCompact: Limb) returns (fNegative: bool, fOverflow: bool)
    requires x.Valid()
    modifies x.pn
    ensures x.Num() == Meaning(nCompact) % Modulus()
    ensures fNegative == IsNegative(nCompact) && (fOverflow <==> Meaning(nCompact) >= Modulus())
  {
    hide Pow2, Bytes, Modulus;
    var nSize := nCompact / EXPONENT;
    var nWord := nCompact % SIGN;
    if nSize <= 3 {
      nWord := Quotient(nWord, Bytes(3 - nSize));
      SmallIsExact(nCompact);
      x.Assign(nWord);
    } else {
      x.Assign(nWord);
      BytesShift(nSize - 3);
      x.ShiftLeft(8 * (nSize - 3));
    }
    fNegative := nWord != 0 && nCompact / SIGN % 2 == 1;
    fOverflow := nWord != 0 && (nSize > 34 || (nWord > 0xff && nSize > 33) || (nWord > 0xffff && nSize > 32));
    OverflowIsRight(nCompact);
  }

  lemma BytesShift(k: nat)
    ensures Bytes(k) == Pow2(8 * k)
  {
  }

  lemma SmallIsExact(c: Limb)
    requires Exponent(c) <= 3
    ensures Meaning(c) % Modulus() == Meaning(c)
  {
    hide Pow2, Bytes, IsOverflow;
    OverflowIsRight(c);
    NoOverflow(c);
    SmallMod(Meaning(c), Modulus());
  }

  lemma NoOverflow(c: Limb)
    requires Exponent(c) <= 3
    ensures !IsOverflow(c)
  {
  }

  method GetCompact(x: BaseUint, fNegative: bool) returns (c: Limb)
    requires x.Valid()
    ensures x.Num() < Modulus() && c == CompactOf(x.Num(), fNegative)
    ensures x.Num() > 0 ==> Leads(c % SIGN, Exponent(c), x.Num())
  {
    hide Pow2, Bytes, BitCount, Value, Weight;
    ghost var v := x.Num();
    ValueBound(x.pn[..]);
    BitCountIs(v);
    TopBound(v);
    SizeBound(v);
    var bits := x.Bits();
    BitsUnique(v, bits, BitCount(v));
    var nSize := (bits + 7) / 8;
    var nCompact: nat;
    if nSize <= 3 {
      LowBytes(v);
      var low := x.GetLow64();
      nCompact := Product(low, Bytes(3 - nSize));
    } else {
      var bn := new BaseUint.Copy(x);
      BytesShift(nSize - 3);
      bn.ShiftRight(8 * (nSize - 3));
      nCompact := bn.GetLow64();
    }
    assert nCompact == Top(v);
    if nCompact >= SIGN {
      nCompact := nCompact / 0x100;
      nSize := nSize + 1;
    }
    assert nCompact < SIGN && nSize < 256;
    c := nCompact + nSize * EXPONENT;
    c := c + if fNegative && nCompact != 0 then SIGN else 0;
    if v > 0 {
      CompactLeads(v, fNegative);
    }
  }

  /** A target written and read again: the largest number with a compact form that is not above the original, and never flagged. */
  method WriteThenRead(x: BaseUint) returns (y: BaseUint, c: Limb)
    requires x.Valid()
    ensures y.Valid() && y.Num() <= x.Num() < y.Num() + Bytes(if Exponent(c) <= 3 then 0 else Exponent(c) - 3)
    ensures forall d: Limb :: Meaning(d) <= x.Num() ==> Meaning(d) <= y.Num()
    ensures !IsNegative(c) && !IsOverflow(c)
  {
    hide Pow2, Bytes, BitCount, Value, Weight, CompactOf, Meaning, Exponent, IsNegative, IsOverflow;
    c := GetCompact(x, false);
    CompactAccuracy(x.Num(), false);
    CompactFlags(x.Num(), false);
    y := new BaseUint(0);
    SmallMod(Meaning(c), Modulus());
    var fNegative, fOverflow := SetCompact(y, c);
    forall d: Limb | Meaning(d) <= x.Num()
      ensures Meaning(d) <= y.Num()
    {
      CompactBest(x.Num(), false, d);
    }
  }

  lemma LowBytes(v: nat)
    requires ByteCount(v) <= 3
    ensures v < BASE * BASE
  {
    hide Pow2, Bytes, ByteCount;
    ByteBounds(v);
    BytesAre();
  }
}
