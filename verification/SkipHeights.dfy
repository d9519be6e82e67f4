/**
  The heights that a walk back through the skip pointers visits (chain.cpp), and
  how many steps it takes.
 */
module SkipHeights {
  import opened Arithmetic

  /** `n & (n - 1)`: clear the lowest one bit. */
  function InvertLowestOne(n: nat): (r: nat)
    ensures r <= n && (n > 0 ==> r < n)
  {
    if n == 0 then 0
    else if n % 2 == 1 then n - 1
    else
      assert 0 < n / 2 < n;
      2 * InvertLowestOne(n / 2)
  }

  /** The bit that was cleared was a one, and every bit below it was already zero. */
  lemma {:induction false} LowestOne(n: nat) returns (k: nat, m: nat)
    requires n > 0
    ensures n == (2 * m + 1) * Pow2(k) && InvertLowestOne(n) == 2 * m * Pow2(k)
  {
    if n % 2 == 1 {
      k, m := 0, n / 2;
      assert Pow2(0) == 1;
    } else {
      k, m := LowestOne(n / 2);
      DoubleProduct(2 * m + 1, Pow2(k));
      DoubleProduct(2 * m, Pow2(k));
      k := k + 1;
    }
  }

  lemma DoubleProduct(a: int, b: int)
    ensures a * (2 * b) == 2 * (a * b)
  {
  }

  function GetSkipHeight(height: nat): (r: nat)
    ensures height > 0 ==> r < height
  {
    if height < 2 then 0
    else if height % 2 == 1 then InvertLowestOne(InvertLowestOne(height - 1)) + 1
    else InvertLowestOne(height)
  }

  /** Where the walk towards height `t` goes from height `h`. */
  function Next(h: nat, t: nat): (r: nat)
    requires t < h
    ensures t <= r < h
  {
    var skip, skipPrev := GetSkipHeight(h), GetSkipHeight(h - 1);
    if skip == t || (skip > t && !(skipPrev < skip - 2 && skipPrev >= t)) then skip else h - 1
  }

  /** How many steps the walk takes. */
  function Steps(h: nat, t: nat): nat
    requires t <= h
    decreases h
  {
    if h == t then 0 else 1 + Steps(Next(h, t), t)
  }

  // ---------------------------------------------------------------------------
  // Bits
  // ---------------------------------------------------------------------------

  function Ones(n: nat): nat {
    if n == 0 then 0 else n % 2 + Ones(n / 2)
  }

  /** The lowest `m` bits of `x` are zero. */
  predicate Aligned(x: nat, m: nat) {
    m == 0 || (x % 2 == 0 && Aligned(x / 2, m - 1))
  }

  lemma {:induction false} OnesInvert(n: nat)
    requires n > 0
    ensures Ones(n) > 0 && Ones(InvertLowestOne(n)) == Ones(n) - 1
  {
    if n % 2 == 0 {
      OnesInvert(n / 2);
    }
  }

  lemma {:induction false} OnesBound(n: nat, m: nat)
    requires n < Pow2(m)
    ensures Ones(n) <= m
  {
    if n > 0 {
      OnesBound(n / 2, m - 1);
    }
  }

  lemma {:induction false} AllOnes(m: nat)
    ensures Ones(Pow2(m) - 1) == m
  {
    if m > 0 {
      AllOnes(m - 1);
      assert (Pow2(m) - 1) / 2 == Pow2(m - 1) - 1;
    }
  }

  lemma {:induction false} InvertLow(x: nat, m: nat, a: nat)
    requires Aligned(x, m) && 0 < a < Pow2(m)
    ensures InvertLowestOne(x + a) == x + InvertLowestOne(a)
  {
    if a % 2 == 0 {
      InvertLow(x / 2, m - 1, a / 2);
      assert (x + a) / 2 == x / 2 + a / 2;
    }
  }

  lemma {:induction false} InvertTop(x: nat, m: nat)
    requires Aligned(x, m + 1)
    ensures InvertLowestOne(x + Pow2(m)) == x
  {
    if m > 0 {
      InvertTop(x / 2, m - 1);
      assert (x + Pow2(m)) / 2 == x / 2 + Pow2(m - 1);
    }
  }

  lemma {:induction false} AlignedLess(x: nat, m: nat)
    requires Aligned(x, m + 1)
    ensures Aligned(x, m) && Aligned(x + Pow2(m), m)
  {
    if m > 0 {
      AlignedLess(x / 2, m - 1);
      assert (x + Pow2(m)) / 2 == x / 2 + Pow2(m - 1);
    }
  }

  // ---------------------------------------------------------------------------
  // Where the skip pointers of one phase of the walk lead
  // ---------------------------------------------------------------------------

  /**
    The walk from h = x + 2^m + a to t, where x holds the bits above the first at
    which they differ: t has a zero there.
   */
  predicate Phase(x: nat, m: nat, a: nat, t: nat) {
    Aligned(x, m + 1) && a < Pow2(m) && x <= t < x + Pow2(m)
  }

  lemma SkipBase(x: nat, m: nat)
    requires Aligned(x, m + 1) && m > 0
    ensures GetSkipHeight(x + Pow2(m)) == x
  {
    InvertTop(x, m);
  }

  lemma SkipEven(x: nat, m: nat, a: nat)
    requires Aligned(x, m + 1) && 0 < a < Pow2(m) && a % 2 == 0
    ensures GetSkipHeight(x + Pow2(m) + a) == x + Pow2(m) + InvertLowestOne(a)
  {
    AlignedLess(x, m);
    InvertLow(x + Pow2(m), m, a);
  }

  lemma EvenBase(x: nat, m: nat)
    requires Aligned(x, m + 1) && m > 0
    ensures (x + Pow2(m)) % 2 == 0 && x % 2 == 0 && Pow2(m) >= 2
  {
  }

  lemma OnesOdd(a: nat)
    requires a % 2 == 1
    ensures Ones(a) == Ones(a - 1) + 1 && (Ones(a) == 1 <==> a == 1)
  {
    if a > 1 {
      OnesInvert(a - 1);
    }
  }

  lemma SkipOdd(x: nat, m: nat, a: nat)
    requires Aligned(x, m + 1) && a < Pow2(m) && a % 2 == 1
    ensures
      var skip := GetSkipHeight(x + Pow2(m) + a);
      if a == 1 then skip == InvertLowestOne(x) + 1
      else if Ones(a) == 2 then skip == x + 1
      else Ones(a) > 2 && skip == x + Pow2(m) + InvertLowestOne(InvertLowestOne(a - 1)) + 1
  {
    hide Ones, InvertLowestOne, Aligned;
    var b, z := x + Pow2(m), a - 1;
    EvenBase(x, m);
    AlignedLess(x, m);
    InvertTop(x, m);
    OnesOdd(a);
    if z > 0 {
      InvertLow(b, m, z);
      OnesInvert(z);
      var y := InvertLowestOne(z);
      if y > 0 {
        InvertLow(b, m, y);
        OnesInvert(y);
      } else {
        assert Ones(y) == 0 by {
          NoOnes();
        }
      }
    }
  }

  lemma NoOnes()
    ensures Ones(0) == 0
  {
  }

  // ---------------------------------------------------------------------------
  // The bound
  // ---------------------------------------------------------------------------

  /** Enough steps for going on from x + 2^m. */
  function FromBase(m: nat): nat {
    if m < 2 then 1 else FromBase(m - 1) + 2 + (m - 1) / 2
  }

  /** Enough steps from x + 2^m + a to x + 2^m. */
  function ToBase(a: nat): nat {
    if a % 2 == 1 then Ones(a) / 2 + 1
    else if Ones(a) <= 1 || Aligned(a, 3) then Ones(a)
    else (Ones(a) + 1) / 2 + 2
  }

  /** If no bits are left above, one step is saved on the way. */
  function Saved(x: nat, m: nat): nat {
    if x == 0 && m >= 2 then 1 else 0
  }

  function Enough(x: nat, m: nat, a: nat): nat {
    FromBase(m) - Saved(x, m) + ToBase(a)
  }

  lemma {:induction false} FromBaseGrows(k: nat, m: nat)
    requires k <= m
    ensures FromBase(k) <= FromBase(m)
    ensures 1 <= k < m ==> FromBase(k) + 2 + k / 2 <= FromBase(m)
  {
    if k < m {
      FromBaseGrows(k, m - 1);
    }
  }

  lemma OneBack(h: nat)
    ensures Steps(h + 1, h) == 1
  {
    assert Next(h + 1, h) == h;
  }

  /** A skip to x + 1 is taken, whether the walk is to end there or at x. */
  lemma NearBase(x: nat, m: nat, a: nat, t: nat)
    requires Phase(x, m, a, t) && t <= x + 1 && a % 2 == 1
    requires GetSkipHeight(x + Pow2(m) + a) == x + 1 && Ones(a) <= 2
    ensures Steps(x + Pow2(m) + a, t) <= 2
  {
    hide Ones, InvertLowestOne, Aligned, GetSkipHeight;
    var h := x + Pow2(m) + a;
    EvenBase(x, m);
    OnesOdd(a);
    if a == 1 {
      SkipBase(x, m);
    } else {
      SkipEven(x, m, a - 1);
    }
    assert GetSkipHeight(h - 1) >= x;
    assert Next(h, t) == x + 1;
    OneBack(x);
  }

  lemma Doubles(n: nat)
    ensures InvertLowestOne(2 * n) == 2 * InvertLowestOne(n) && Ones(2 * n) == Ones(n)
    ensures InvertLowestOne(2 * n + 1) == 2 * n && Ones(2 * n + 1) == Ones(n) + 1
  {
  }

  lemma Multiples(n: nat)
    ensures InvertLowestOne(2 * n) == 2 * InvertLowestOne(n) && Ones(2 * n) == Ones(n)
    ensures InvertLowestOne(4 * n) == 4 * InvertLowestOne(n) && Ones(4 * n) == Ones(n)
    ensures InvertLowestOne(8 * n) == 8 * InvertLowestOne(n) && Ones(8 * n) == Ones(n)
  {
    hide Ones, InvertLowestOne;
    Doubles(n);
    Doubles(2 * n);
    Doubles(4 * n);
    assert 2 * (2 * n) == 4 * n && 2 * (4 * n) == 8 * n;
  }

  lemma EvenMinus(n: nat)
    requires n % 2 == 0
    ensures InvertLowestOne(n) % 2 == 0
  {
    if n > 0 {
      var half := InvertLowestOne(n / 2);
      assert InvertLowestOne(n) == half + half;
    }
  }

  lemma Eights(a: nat) returns (q: nat)
    requires Aligned(a, 3)
    ensures a == 8 * q && a % 2 == 0
  {
    var b := a / 2;
    var c := b / 2;
    q := c / 2;
    assert a == 2 * b && b == 2 * c && c == 2 * q by {
      assert Aligned(b, 2) && Aligned(c, 1);
    }
  }

  lemma NotEights(a: nat) returns (q: nat)
    requires a % 2 == 0 && !Aligned(a, 3)
    ensures a == 8 * q + 4 || a == 4 * q + 2
  {
    var b := a / 2;
    var c := b / 2;
    q := if b % 2 == 1 then c else c / 2;
    assert a == 2 * b && b == 2 * c + b % 2;
    assert b % 2 == 0 ==> c == 2 * q + 1 by {
      assert Aligned(a, 3) == Aligned(b, 2);
      assert b % 2 == 0 ==> Aligned(b, 2) == Aligned(c, 1);
      assert Aligned(c / 2, 0);
    }
  }

  lemma {:induction false} AlignedTimes(n: nat, k: nat)
    ensures Aligned(Pow2(k) * n, k)
  {
    if k > 0 {
      AlignedTimes(n, k - 1);
      DoubleProduct(n, Pow2(k - 1));
      assert Pow2(k) * n == 2 * (Pow2(k - 1) * n);
    }
  }

  lemma AlignedEights(q: nat)
    ensures Aligned(8 * q, 3)
  {
    AlignedTimes(q, 3);
    assert Pow2(3) == 8;
  }

  lemma EightMinus(n: nat)
    requires Aligned(n, 3)
    ensures Aligned(InvertLowestOne(n), 3)
  {
    hide InvertLowestOne, Ones, Aligned;
    var q := Eights(n);
    Multiples(q);
    AlignedEights(InvertLowestOne(q));
  }

  /** Below a multiple of eight, the height before skips less far. */
  lemma SkipPrevEight(a: nat, q: nat)
    requires a == 8 * q > 0
    ensures InvertLowestOne(a) <= a - 8
    ensures InvertLowestOne(InvertLowestOne(a - 2)) == a - 8 && Ones(a - 1) > 2
  {
    hide Ones, InvertLowestOne;
    Multiples(q);
    Doubles(q - 1);
    Doubles(2 * q - 1);
    Doubles(4 * q - 1);
    Multiples(2 * q - 1);
    assert 2 * (q - 1) + 1 == 2 * q - 1 && 2 * (2 * q - 1) + 1 == 4 * q - 1;
    assert a - 2 == 2 * (4 * q - 1) && 2 * (4 * q - 2) == 4 * (2 * q - 1);
  }

  /** Otherwise the height before skips further, if there are two ones to clear. */
  ghost predicate Detours(a: nat)
    requires a >= 2
  {
    && Ones(a - 2) <= Ones(a) <= Ones(a - 2) + 1
    && InvertLowestOne(a) % 2 == 0
    && (Ones(a - 2) >= 2 ==> InvertLowestOne(InvertLowestOne(a - 2)) + 3 < InvertLowestOne(a))
  }

  lemma SkipPrevOther(a: nat)
    requires a % 2 == 0 && !Aligned(a, 3)
    ensures Detours(a)
  {
    hide Ones, InvertLowestOne, Detours, Aligned;
    var q := NotEights(a);
    if a == 4 * q + 2 {
      SkipPrevTwo(a, q);
    } else {
      SkipPrevFour(a, q);
    }
  }

  lemma SkipPrevTwo(a: nat, q: nat)
    requires a == 4 * q + 2
    ensures Detours(a)
  {
    hide Ones, InvertLowestOne;
    assert a == 2 * (2 * q + 1);
    NoOnes();
    Doubles(2 * q + 1);
    Doubles(q);
    Multiples(q);
  }

  lemma SkipPrevFour(a: nat, q: nat)
    requires a == 8 * q + 4
    ensures Detours(a)
  {
    hide Ones, InvertLowestOne;
    assert a == 4 * (2 * q + 1) && a - 2 == 2 * (4 * q + 1) && 2 * (2 * q) + 1 == 4 * q + 1;
    NoOnes();
    Multiples(2 * q + 1);
    Doubles(q);
    Doubles(2 * q);
    Doubles(4 * q + 1);
    Multiples(q);
  }

  /** From a multiple of eight the skip is taken. */
  lemma EightJump(x: nat, m: nat, a: nat, t: nat)
    requires Phase(x, m, a, t) && a > 0 && Aligned(a, 3)
    ensures Next(x + Pow2(m) + a, t) == x + Pow2(m) + InvertLowestOne(a)
  {
    hide Ones, InvertLowestOne, Aligned, GetSkipHeight, Pow2;
    var q := Eights(a);
    SkipEven(x, m, a);
    SkipOdd(x, m, a - 1);
    SkipPrevEight(a, q);
    assert GetSkipHeight(x + Pow2(m) + a - 1) >= x + Pow2(m) + InvertLowestOne(a) - 2;
  }

  /** From an odd height the skip is taken, if it does not lead out of the phase. */
  lemma OddJump(x: nat, m: nat, a: nat, t: nat) returns (a': nat)
    requires Phase(x, m, a, t) && a % 2 == 1 && Ones(a) > 2
    ensures a' < a && a' % 2 == 1 && Ones(a') == Ones(a) - 2
    ensures Next(x + Pow2(m) + a, t) == x + Pow2(m) + a'
  {
    hide Ones, InvertLowestOne, Aligned, GetSkipHeight;
    EvenBase(x, m);
    SkipOdd(x, m, a);
    OnesOdd(a);
    NoOnes();
    SkipEven(x, m, a - 1);
    var y := InvertLowestOne(a - 1);
    OnesInvert(a - 1);
    OnesInvert(y);
    EvenMinus(a - 1);
    EvenMinus(y);
    a' := InvertLowestOne(y) + 1;
    OnesOdd(a');
  }

  /** From an even height: down within the phase, unless the walk is nearly over. */
  lemma EvenStep(x: nat, m: nat, a: nat, t: nat) returns (a': nat)
    requires Phase(x, m, a, t) && a % 2 == 0 && a > 0
    ensures a' < a
    ensures Steps(x + Pow2(m) + a, t) <= 3 || (Next(x + Pow2(m) + a, t) == x + Pow2(m) + a' && ToBase(a') < ToBase(a))
  {
    hide Ones, InvertLowestOne, Aligned, GetSkipHeight;
    var h := x + Pow2(m) + a;
    EvenBase(x, m);
    SkipEven(x, m, a);
    SkipOdd(x, m, a - 1);
    OnesInvert(a);
    OnesOdd(a - 1);
    EvenMinus(a);
    if Aligned(a, 3) {
      a' := InvertLowestOne(a);
      EightJump(x, m, a, t);
      EightMinus(a);
    } else {
      SkipPrevOther(a);
      if Ones(a - 2) >= 2 {
        assert Next(h, t) == h - 1;
        a' := a - 1;
      } else if Next(h, t) == h - 1 {
        a' := a - 1;
        BackToBase(x, m, a, t);
      } else {
        a' := InvertLowestOne(a);
        NoOnes();
      }
    }
  }

  lemma InvertFar(x: nat, m: nat)
    requires Aligned(x, m + 1) && m > 0 && x > 0
    ensures InvertLowestOne(x) + 1 < x
  {
    var y := x / 2;
    var z := y / 2;
    assert x == 2 * y && y == 2 * z by {
      assert Aligned(y, m);
    }
    hide InvertLowestOne, Ones, Aligned;
    Doubles(y);
    Doubles(z);
  }

  lemma BackToBase(x: nat, m: nat, a: nat, t: nat)
    requires Phase(x, m, a, t) && a % 2 == 0 && a > 0 && Ones(a - 2) <= 1 && !Aligned(a, 3)
    requires Next(x + Pow2(m) + a, t) == x + Pow2(m) + a - 1
    ensures Steps(x + Pow2(m) + a, t) <= 3
  {
    hide Ones, InvertLowestOne, Aligned, GetSkipHeight;
    EvenBase(x, m);
    SkipEven(x, m, a);
    SkipOdd(x, m, a - 1);
    OnesOdd(a - 1);
    SkipPrevOther(a);
    if a == 2 && x > 0 {
      InvertFar(x, m);
    } else {
      if a == 2 {
        InvertZero();
      }
      NearBase(x, m, a - 1, t);
    }
  }

  lemma InvertZero()
    ensures InvertLowestOne(0) == 0
  {
  }

  /** From an odd height likewise. */
  lemma OddStep(x: nat, m: nat, a: nat, t: nat) returns (a': nat)
    requires Phase(x, m, a, t) && a % 2 == 1
    ensures a' < a
    ensures Steps(x + Pow2(m) + a, t) <= 2 || (Next(x + Pow2(m) + a, t) == x + Pow2(m) + a' && ToBase(a') < ToBase(a))
  {
    hide Ones, InvertLowestOne, Aligned, GetSkipHeight;
    var b := x + Pow2(m);
    var h := b + a;
    EvenBase(x, m);
    SkipOdd(x, m, a);
    OnesOdd(a);
    InvertZero();
    NoOnes();
    if Ones(a) > 2 {
      a' := OddJump(x, m, a, t);
    } else if t <= x + 1 && GetSkipHeight(h) == x + 1 {
      a' := a - 1;
      NearBase(x, m, a, t);
    } else {
      a' := a - 1;
      if a == 1 && x > 0 {
        InvertFar(x, m);
      }
      assert Next(h, t) == h - 1;
    }
  }

  /** The top of the block below x + 2^m is again the top of a phase, if the walk does not end there. */
  lemma {:induction false} Split(x: nat, m: nat, t: nat) returns (x': nat, m': nat)
    requires Aligned(x, m) && x <= t < x + Pow2(m) - 1
    ensures m' < m && Phase(x', m', Pow2(m') - 1, t) && x' + 2 * Pow2(m') == x + Pow2(m)
    ensures if x' == x then m' == m - 1 else x' > x && m' + 1 < m
    decreases m
  {
    if t < x + Pow2(m - 1) {
      x', m' := x, m - 1;
    } else {
      AlignedLess(x, m - 1);
      x', m' := Split(x + Pow2(m - 1), m - 1, t);
    }
  }

  lemma Continue(x: nat, m: nat, x': nat, m': nat)
    requires m >= 2 && (if x' == x then m' == m - 1 else x' > x && m' + 1 < m)
    requires !(x == 0 == x' && m == 2)
    ensures 1 + Enough(x', m', Pow2(m') - 1) <= Enough(x, m, 0)
  {
    AllOnes(m');
    assert if m' > 0 then (Pow2(m') - 1) % 2 == 1 else Pow2(m') == 1;
    hide Ones, Pow2, Aligned;
    NoOnes();
    FromBaseGrows(m', m);
    FromBaseGrows(m', m - 1);
    FromBaseGrows(2, m);
  }

  lemma BaseStep(x: nat, m: nat, t: nat)
    requires Phase(x, m, 0, t) && m > 0
    ensures Next(x + Pow2(m), t) == if t == x then x else x + Pow2(m) - 1
  {
    hide InvertLowestOne, Aligned;
    EvenBase(x, m);
    SkipBase(x, m);
  }

  lemma FromThree()
    ensures Steps(3, 1) == 1 && Enough(0, 2, 0) == 2 && Pow2(1) == 2 && Pow2(2) == 4
  {
    assert InvertLowestOne(2) == 0;
    assert GetSkipHeight(3) == 1;
    assert Next(3, 1) == 1;
  }

  /** The walk from x + 2^m + a to any t that has a zero in place of 2^m takes no more steps than enough. */
  lemma {:induction false} Walk(x: nat, m: nat, a: nat, t: nat)
    requires Phase(x, m, a, t)
    ensures Steps(x + Pow2(m) + a, t) <= Enough(x, m, a)
    decreases m, 1, a
  {
    hide Ones, Aligned, ToBase, Next;
    if a > 0 {
      var a';
      if a % 2 == 0 {
        a' := EvenStep(x, m, a, t);
      } else {
        a' := OddStep(x, m, a, t);
      }
      Walk(x, m, a', t);
      LeastEnough(x, m, a);
    } else if m == 0 {
      LeastEnough(x, m, a);
      OneBack(x);
    } else {
      WalkBase(x, m, t);
    }
  }

  lemma LeastEnough(x: nat, m: nat, a: nat)
    requires a < Pow2(m)
    ensures Enough(x, m, a) >= 1
    ensures a > 0 ==> Enough(x, m, a) >= 2
    ensures a > 0 && a % 2 == 0 ==> Enough(x, m, a) >= 3
  {
    if m >= 2 {
      FromBaseGrows(2, m);
    }
    if a > 0 {
      OnesInvert(a);
    }
  }

  lemma {:induction false} WalkBase(x: nat, m: nat, t: nat)
    requires Phase(x, m, 0, t) && m > 0
    ensures Steps(x + Pow2(m), t) <= Enough(x, m, 0)
    decreases m, 0, 0
  {
    hide Aligned, Next, Enough, Pow2;
    var b := x + Pow2(m);
    BaseStep(x, m, t);
    LeastEnough(x, m, 0);
    FromThree();
    if x < t < b - 1 {
      AlignedLess(x, m);
      var x', m' := Split(x, m, t);
      if !(x == 0 == x' && m == 2) {
        Walk(x', m', Pow2(m') - 1, t);
        Continue(x, m, x', m');
      }
    }
  }

  // ---------------------------------------------------------------------------
  // From any height to any other
  // ---------------------------------------------------------------------------

  /** Any two heights differ first in some bit. */
  lemma {:induction false} TopBit(h: nat, t: nat) returns (x: nat, m: nat, a: nat)
    requires t < h
    ensures Phase(x, m, a, t) && h == x + Pow2(m) + a
  {
    if h / 2 == t / 2 {
      x, m, a := t, 0, 0;
    } else {
      x, m, a := TopBit(h / 2, t / 2);
      x, m, a := 2 * x, m + 1, 2 * a + h % 2;
    }
  }

  lemma {:induction false} AlignedLarge(x: nat, m: nat)
    requires Aligned(x, m) && x > 0
    ensures x >= Pow2(m)
  {
    if m > 0 {
      AlignedLarge(x / 2, m - 1);
    }
  }

  lemma Eighth(m: nat)
    requires m >= 3
    ensures Pow2(m) == 8 * Pow2(m - 3)
  {
    assert Pow2(m) == 2 * Pow2(m - 1) && Pow2(m - 1) == 2 * Pow2(m - 2) && Pow2(m - 2) == 2 * Pow2(m - 3);
  }

  lemma OnesEven(a: nat, m: nat)
    requires a < Pow2(m) && a % 2 == 0
    ensures if m == 0 then a == 0 else Ones(a) < m
  {
    if m > 0 {
      OnesBound(a / 2, m - 1);
      assert Ones(a) == Ones(a / 2);
    }
  }

  lemma OnesEight(a: nat, m: nat)
    requires a < Pow2(m) && Aligned(a, 3)
    ensures if m < 3 then a == 0 else Ones(a) + 3 <= m
  {
    hide Ones, Aligned;
    var q := Eights(a);
    if m >= 3 {
      hide Pow2;
      Eighth(m);
      Multiples(q);
      OnesBound(q, m - 3);
    }
  }

  lemma ToBaseBound(a: nat, m: nat)
    requires a < Pow2(m)
    ensures ToBase(a) <= m / 2 + 2 || ToBase(a) + 3 <= m
    ensures m == 0 ==> ToBase(a) == 0
  {
    OnesBound(a, m);
    if a % 2 == 0 {
      hide Ones, Pow2, Aligned;
      NoOnes();
      OnesEven(a, m);
      if Aligned(a, 3) {
        OnesEight(a, m);
      }
    }
  }

  lemma SquareStep(m: nat)
    ensures m * m == (m - 1) * (m - 1) + 2 * m - 1
  {
  }

  lemma Halves(m: nat)
    requires m > 0
    ensures 4 * ((m - 1) / 2) == 2 * m - 2 - (if m % 2 == 0 then 2 else 0)
    ensures m % 2 == 0 <==> (m - 1) % 2 == 1
  {
  }

  lemma {:induction false} FromBaseSquare(m: nat)
    requires m > 0
    ensures 4 * FromBase(m) == m * m + 6 * m - 3 - (if m % 2 == 0 then 1 else 0)
  {
    if m > 1 {
      FromBaseSquare(m - 1);
      SquareStep(m);
      Halves(m);
    }
  }

  lemma {:induction false} SquareGrows(m: nat, k: nat)
    requires m < k
    ensures m * m + 2 * m + 1 <= k * k
  {
    if m + 1 < k {
      SquareGrows(m, k - 1);
    }
    SquareStep(k);
  }

  lemma {:induction false} Pow2Strict(m: nat, k: nat)
    requires Pow2(m) < Pow2(k)
    ensures m < k
  {
    if m > 0 && k > 0 {
      Pow2Strict(m - 1, k - 1);
    }
  }

  lemma BoundSum(m: nat, k: nat, f: nat, v: nat, mm: nat, kk: nat)
    requires m < k && mm + 2 * m + 1 <= kk
    requires if m == 0 then f == 1 && v == 0 else 4 * f <= mm + 6 * m - 3 && (v <= m / 2 + 2 || v + 3 <= m)
    ensures 4 * (f + v) <= kk + 8 * k
  {
  }

  lemma EnoughSquare(x: nat, m: nat, a: nat, k: nat)
    requires a < Pow2(m) && m < k
    ensures 4 * Enough(x, m, a) <= k * k + 8 * k
  {
    hide ToBase, Pow2;
    ToBaseBound(a, m);
    SquareGrows(m, k);
    if m > 0 {
      hide FromBase;
      FromBaseSquare(m);
    }
    BoundSum(m, k, FromBase(m), ToBase(a), m * m, k * k);
  }

  /** Between heights of at most `k` bits the walk takes at most k^2/4 + 2k steps. */
  lemma StepsBound(h: nat, t: nat, k: nat)
    requires t <= h < Pow2(k)
    ensures 4 * Steps(h, t) <= k * k + 8 * k
  {
    hide Steps, Pow2, Aligned, Enough;
    if t < h {
      var x, m, a := TopBit(h, t);
      Walk(x, m, a, t);
      Pow2Strict(m, k);
      EnoughSquare(x, m, a, k);
    } else {
      NoSteps(h);
    }
  }

  lemma FromBaseValues()
    ensures FromBase(16) == 87 && FromBase(17) == 97 && FromBase(18) == 107
  {
    FromBaseSquare(16);
    FromBaseSquare(17);
    FromBaseSquare(18);
  }

  lemma Large(x: nat, m: nat, a: nat)
    requires Aligned(x, m + 1) && m >= 17 && x + Pow2(m) + a <= Pow2(18)
    ensures x == 0 && (m == 17 || (m == 18 && a == 0))
  {
    hide Pow2, Aligned;
    Doubled(m);
    Doubled(18);
    Doubled(17);
    Pow2Strict(m, 19);
    if x > 0 {
      AlignedLarge(x, m + 1);
    }
  }

  lemma Doubled(m: nat)
    ensures Pow2(m + 1) == 2 * Pow2(m)
  {
  }

  /** Up to height 2^18 the documented 110 steps are enough. */
  lemma DocumentedSteps(h: nat, t: nat)
    requires t <= h <= Pow2(18)
    ensures Steps(h, t) <= 110
  {
    hide Aligned, Steps, FromBase, Pow2, Ones, InvertLowestOne, GetSkipHeight, ToBase;
    FromBaseValues();
    if t < h {
      var x, m, a := TopBit(h, t);
      Walk(x, m, a, t);
      ToBaseBound(a, m);
      if m < 17 {
        FromBaseGrows(m, 16);
      } else {
        Large(x, m, a);
        ToBaseBound(0, 0);
      }
    } else {
      NoSteps(h);
    }
  }

  lemma NoSteps(h: nat)
    ensures Steps(h, h) == 0
  {
  }

  // ---------------------------------------------------------------------------
  // The walks that take longest
  // ---------------------------------------------------------------------------

  lemma {:induction false} AlignedZero(m: nat)
    ensures Aligned(0, m)
  {
    if m > 0 {
      AlignedZero(m - 1);
    }
  }

  lemma PhaseToTwo(m: nat, a: nat)
    requires m >= 2 && a < Pow2(m)
    ensures Phase(0, m, a, 2)
  {
    AlignedZero(m + 1);
  }

  lemma SingleOne(m: nat, a: nat)
    requires m >= 2 && 0 < a < Pow2(m) && a % 2 == 0 && Ones(a) == 1
    ensures Next(Pow2(m) + a, 2) == Pow2(m)
  {
    hide Ones, InvertLowestOne, Aligned, GetSkipHeight, Pow2;
    PhaseToTwo(m, a);
    OnesInvert(a);
    if InvertLowestOne(a) > 0 {
      OnesInvert(InvertLowestOne(a));
    }
    if Aligned(a, 3) {
      EightJump(0, m, a, 2);
    } else {
      SkipEven(0, m, a);
      SkipOdd(0, m, a - 1);
      SkipPrevOther(a);
      OnesOdd(a - 1);
      InvertZero();
    }
  }

  /** On the way to height 2, what is enough from an odd height is needed. */
  lemma {:induction false} OddExact(m: nat, a: nat)
    requires m >= 2 && a < Pow2(m) && a % 2 == 1
    ensures Steps(Pow2(m) + a, 2) == Ones(a) / 2 + 1 + Steps(Pow2(m), 2)
    decreases a
  {
    hide Ones, InvertLowestOne, Aligned, GetSkipHeight;
    PhaseToTwo(m, a);
    OnesOdd(a);
    if Ones(a) > 2 {
      var a' := OddJump(0, m, a, 2);
      OddExact(m, a');
    } else {
      SkipOdd(0, m, a);
      InvertZero();
      NoOnes();
      assert Next(Pow2(m) + a, 2) == Pow2(m) + a - 1;
      if a > 1 {
        SingleOne(m, a - 1);
      }
    }
  }

  lemma {:induction false} EightExact(m: nat, a: nat)
    requires m >= 2 && a < Pow2(m) && Aligned(a, 3)
    ensures Steps(Pow2(m) + a, 2) == Ones(a) + Steps(Pow2(m), 2)
    decreases a
  {
    hide Ones, InvertLowestOne, Aligned, Next;
    NoOnes();
    if a > 0 {
      PhaseToTwo(m, a);
      EightJump(0, m, a, 2);
      EightMinus(a);
      OnesInvert(a);
      EightExact(m, InvertLowestOne(a));
    }
  }

  /** From one power of two to the next lower one. */
  lemma BaseToBase(m: nat)
    requires m > 2
    ensures Pow2(m - 1) > 2 && Steps(Pow2(m), 2) == 2 + (m - 1) / 2 + Steps(Pow2(m - 1), 2)
  {
    hide Ones, Aligned, Next, Phase, Pow2;
    Doubled(m - 1);
    Doubled(m - 2);
    PhaseToTwo(m, 0);
    BaseStep(0, m, 2);
    AllOnes(m - 1);
    OddExact(m - 1, Pow2(m - 1) - 1);
  }

  lemma FromFour()
    ensures Pow2(2) == 4 && Steps(4, 2) == 2
  {
    hide Next;
    FromThree();
    PhaseToTwo(2, 0);
    BaseStep(0, 2, 2);
    OneBack(2);
  }

  /** And the number of steps from a power of two grows with the square of its exponent. */
  lemma {:induction false} BaseExact(m: nat)
    requires m >= 2
    ensures Pow2(m) > 2 && Steps(Pow2(m), 2) == FromBase(m) - 1
  {
    hide Steps, Pow2;
    if m == 2 {
      FromFour();
    } else {
      BaseToBase(m);
      BaseExact(m - 1);
    }
  }

  lemma EightBelow(m: nat)
    requires m >= 3
    ensures Pow2(m) >= 8 && Aligned(Pow2(m) - 8, 3) && Ones(Pow2(m) - 8) == m - 3
  {
    hide Ones, Pow2;
    Eighth(m);
    Multiples(Pow2(m - 3) - 1);
    AlignedEights(Pow2(m - 3) - 1);
    AllOnes(m - 3);
    assert Pow2(m) - 8 == 8 * (Pow2(m - 3) - 1);
  }

  /** The walk from 2^(m+1) - 8 to 2, exactly: no bound linear in the number of bits holds. */
  lemma LongestWalk(m: nat)
    requires m >= 3
    ensures Pow2(m + 1) >= 16
    ensures 4 * Steps(Pow2(m + 1) - 8, 2) == m * m + 10 * m - 19 - (if m % 2 == 0 then 1 else 0)
  {
    hide Ones, Aligned, Steps, FromBase, Pow2;
    Doubled(m);
    EightBelow(m);
    EightExact(m, Pow2(m) - 8);
    BaseExact(m);
    FromBaseSquare(m);
  }

  /** The documented maximum is reached. */
  lemma MaximumReached()
    ensures Pow2(18) >= 10 && Steps(Pow2(18) - 8, 2) == 110
  {
    hide Steps, Pow2;
    LongestWalk(17);
  }
}
