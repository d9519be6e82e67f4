/**
  `CCoins::Serialize` and `CCoins::Unserialize` of coins.h: a header code, a
  bit mask of the unspent outputs, the unspent outputs and the height.
 */
module CoinsRecord {
  import opened Arithmetic
  import opened Coins
  import opened CoinsCodec

  // ---------------------------------------------------------------------------
  // The bit mask
  // ---------------------------------------------------------------------------

  /** Eight flags in a byte, the first in the lowest bit. */
  function ByteOf(flags: seq<bool>): (r: nat)
    requires |flags| <= 8
    ensures |flags| == 8 ==> r < 256
  {
    FlagsBound(flags);
    FlagSum(flags)
  }

  function FlagSum(flags: seq<bool>): nat {
    if flags == [] then 0 else (if flags[0] then 1 else 0) + 2 * FlagSum(flags[1..])
  }

  lemma FlagsBound(flags: seq<bool>)
    ensures |flags| == 0 ==> FlagSum(flags) < 1
    ensures |flags| == 1 ==> FlagSum(flags) < 2
    ensures |flags| == 2 ==> FlagSum(flags) < 4
    ensures |flags| == 3 ==> FlagSum(flags) < 8
    ensures |flags| == 4 ==> FlagSum(flags) < 16
    ensures |flags| == 5 ==> FlagSum(flags) < 32
    ensures |flags| == 6 ==> FlagSum(flags) < 64
    ensures |flags| == 7 ==> FlagSum(flags) < 128
    ensures |flags| == 8 ==> FlagSum(flags) < 256
  {
    if flags != [] {
      FlagsBound(flags[1..]);
    }
  }

  /** The lowest `k` bits of a byte. */
  function FlagsOf(ch: nat, k: nat): (f: seq<bool>)
    ensures |f| == k
  {
    if k == 0 then [] else [ch % 2 == 1] + FlagsOf(ch / 2, k - 1)
  }

  lemma {:induction false} FlagsBack(flags: seq<bool>)
    ensures FlagsOf(FlagSum(flags), |flags|) == flags
  {
    if flags != [] {
      FlagsBack(flags[1..]);
    }
  }

  /** Whether an output can be spent, for the eight outputs of mask byte `b`. */
  function MaskFlags(c: Coins, b: nat): (f: seq<bool>)
    ensures |f| == 8 && forall i :: 0 <= i < 8 ==> f[i] == c.IsAvailable(2 + 8 * b + i)
  {
    seq(8, i requires 0 <= i < 8 => c.IsAvailable(2 + 8 * b + i))
  }

  function MaskByte(c: Coins, b: nat): Byte {
    ByteOf(MaskFlags(c, b))
  }

  function MaskBytes(c: Coins, n: nat): (s: seq<Byte>)
    ensures |s| == n
  {
    seq(n, b requires 0 <= b < n => MaskByte(c, b))
  }

  function NonZero(s: seq<Byte>): nat {
    if s == [] then 0 else NonZero(s[..|s| - 1]) + if s[|s| - 1] != 0 then 1 else 0
  }

  /** `CalcMaskSize`: one more than the last byte, of the first `n`, that is not zero. */
  function MaskSize(c: Coins, n: nat): (r: nat)
    ensures r <= n && (r > 0 ==> MaskByte(c, r - 1) != 0)
    ensures forall b :: r <= b < n ==> MaskByte(c, b) == 0
  {
    if n == 0 then 0 else if MaskByte(c, n - 1) != 0 then n else MaskSize(c, n - 1)
  }

  /** How many mask bytes the outputs could need. */
  function MaskLimit(c: Coins): nat {
    if |c.vout| <= 2 then 0 else (|c.vout| - 2 + 7) / 8
  }

  function Mask(c: Coins): seq<Byte> {
    MaskBytes(c, MaskSize(c, MaskLimit(c)))
  }

  // ---------------------------------------------------------------------------
  // Writing
  // ---------------------------------------------------------------------------

  /** What is written of one output. */
  function WriteOne(K: Keys, c: Coins, i: nat): seq<Byte>
    requires Writable(c)
  {
    if c.IsAvailable(i) then WriteOut(K, c.vout[i]) else []
  }

  /** Of the first `n` outputs, those that can be spent. */
  function WriteOuts(K: Keys, c: Coins, n: nat): seq<Byte>
    requires Writable(c)
  {
    if n == 0 then []
    else WriteOuts(K, c, n - 1) + WriteOne(K, c, n - 1)
  }

  const I32: int := 0x8000_0000

  /** Height, version and number of outputs are numbers of 32 bits; spent outputs are as `SetNull` leaves them, the others fit. */
  predicate Writable(c: Coins) {
    && c.nHeight < I32 && -I32 <= c.nVersion < I32 && |c.vout| < I32
    && forall i :: 0 <= i < |c.vout| ==> c.vout[i] == NULL_OUT || OutFits(c.vout[i])
  }

  function HeaderCode(c: Coins): int {
    var fFirst, fSecond := c.IsAvailable(0), c.IsAvailable(1);
    8 * (NonZero(Mask(c)) - if fFirst || fSecond then 0 else 1)
    + (if c.fCoinBase then 1 else 0) + (if fFirst then 2 else 0) + (if fSecond then 4 else 0)
  }

  function Serialize(K: Keys, c: Coins): seq<Byte>
    requires Writable(c)
  {
    WriteVar(c.nVersion) + (WriteVar(HeaderCode(c) % U32) + WriteBody(K, c))
  }

  // ---------------------------------------------------------------------------
  // Reading
  // ---------------------------------------------------------------------------

  /** Mask bytes are read until the given number of them is not zero. */
  function ReadMask(nMaskCode: nat, s: seq<Byte>): Read<seq<bool>>
    decreases |s|
  {
    if nMaskCode == 0 then Got([], s)
    else if s == [] then Fail
    else
      match ReadMask(if s[0] != 0 then nMaskCode - 1 else nMaskCode, s[1..])
      case Fail => Fail
      case Got(flags, rest) => Got(FlagsOf(s[0], 8) + flags, rest)
  }

  function ReadOuts(K: Keys, vAvail: seq<bool>, s: seq<Byte>): Read<seq<TxOut>> {
    if vAvail == [] then Got([], s)
    else
      match ReadOuts(K, vAvail[..|vAvail| - 1], s)
      case Fail => Fail
      case Got(vout, rest) =>
        if vAvail[|vAvail| - 1] then
          match ReadOut(K, rest)
          case Fail => Fail
          case Got(out, rest') => Got(vout + [out], rest')
        else
          Got(vout + [NULL_OUT], rest)
  }

  /** The part after the header: mask, outputs and height. */
  function ReadBody(K: Keys, nVersion: int, nCode: nat, s: seq<Byte>): Read<Coins> {
    match ReadMask(nCode / 8 + if nCode / 2 % 4 != 0 then 0 else 1, s)
    case Fail => Fail
    case Got(flags, s1) =>
      match ReadOuts(K, [nCode / 2 % 2 == 1, nCode / 4 % 2 == 1] + flags, s1)
      case Fail => Fail
      case Got(vout, s2) =>
        match ReadVarInto(U32, s2)
        case Fail => Fail
        case Got(nHeight, s3) => Got(Coins(nCode % 2 == 1, vout, nHeight, nVersion).Cleanup(), s3)
  }

  function Unserialize(K: Keys, s: seq<Byte>): Read<Coins> {
    match ReadVarInto(U32, s)
    case Fail => Fail
    case Got(nVersion, s1) =>
      match ReadVarInto(U32, s1)
      case Fail => Fail
      case Got(nCode, s2) => ReadBody(K, nVersion, nCode, s2)
  }

  // ---------------------------------------------------------------------------
  // Round trip
  // ---------------------------------------------------------------------------

  lemma {:induction false} NonZeroHead(s: seq<Byte>)
    requires s != []
    ensures NonZero(s) == (if s[0] != 0 then 1 else 0) + NonZero(s[1..])
  {
    var k := |s| - 1;
    if k > 0 {
      NonZeroHead(s[..k]);
      assert s[..k][1..] == s[1..][..k - 1];
    }
  }

  function AllFlags(s: seq<Byte>): (f: seq<bool>)
    ensures |f| == 8 * |s|
  {
    if s == [] then [] else FlagsOf(s[0], 8) + AllFlags(s[1..])
  }

  /** The mask ends where its last byte that is not zero is read. */
  lemma {:induction false} MaskBack(s: seq<Byte>, t: seq<Byte>)
    requires s == [] || s[|s| - 1] != 0
    ensures ReadMask(NonZero(s), s + t) == Got(AllFlags(s), t)
    ensures s != [] ==> NonZero(s) > 0
  {
    if s == [] {
      assert s + t == t;
    } else {
      NonZeroHead(s);
      MaskBack(s[1..], t);
      assert (s + t)[1..] == s[1..] + t;
    }
  }

  lemma {:induction false} AllFlagsAt(s: seq<Byte>, j: nat)
    requires j < 8 * |s|
    ensures AllFlags(s)[j] == FlagsOf(s[j / 8], 8)[j % 8]
  {
    hide FlagsOf;
    if j >= 8 {
      AllFlagsAt(s[1..], j - 8);
      assert (j - 8) / 8 == j / 8 - 1 && (j - 8) % 8 == j % 8;
    }
  }

  /** The flags read are those of the outputs from the third on. */
  lemma MaskIsRight(c: Coins)
    ensures
      var flags := AllFlags(Mask(c));
      && (forall j :: 0 <= j < |flags| ==> flags[j] == c.IsAvailable(2 + j))
      && (forall i :: i >= 2 + |flags| ==> !c.IsAvailable(i))
  {
    hide AllFlags, Mask;
    var flags := AllFlags(Mask(c));
    forall j | 0 <= j < |flags|
      ensures flags[j] == c.IsAvailable(2 + j)
    {
      MaskFlag(c, j);
    }
    forall i | i >= 2 + |flags|
      ensures !c.IsAvailable(i)
    {
      BeyondMask(c, i);
    }
  }

  lemma MaskFlag(c: Coins, j: nat)
    requires j < 8 * |Mask(c)|
    ensures AllFlags(Mask(c))[j] == c.IsAvailable(2 + j)
  {
    hide AllFlags, FlagsOf;
    var b, p := j / 8, j % 8;
    AllFlagsAt(Mask(c), j);
    FlagsBack(MaskFlags(c, b));
    assert MaskFlags(c, b)[p] == c.IsAvailable(2 + 8 * b + p);
  }

  lemma BeyondMask(c: Coins, i: nat)
    requires i >= 2 + 8 * |Mask(c)|
    ensures !c.IsAvailable(i)
  {
    hide FlagsOf;
    if i < |c.vout| {
      var b, p := (i - 2) / 8, (i - 2) % 8;
      assert |Mask(c)| <= b < MaskLimit(c);
      FlagsBack(MaskFlags(c, b));
      NoFlags(MaskByte(c, b), 8, p);
      assert MaskFlags(c, b)[p] == c.IsAvailable(2 + 8 * b + p);
    }
  }

  lemma {:induction false} NoFlags(ch: nat, k: nat, p: nat)
    requires p < k
    ensures ch == 0 ==> !FlagsOf(ch, k)[p]
  {
    if p > 0 {
      NoFlags(ch / 2, k - 1, p - 1);
    }
  }

  /** The first `n` outputs, with the others set to null. */
  function Restored(c: Coins, n: nat): (r: seq<TxOut>)
    ensures |r| == n && forall i :: 0 <= i < n ==> r[i] == if c.IsAvailable(i) then c.vout[i] else NULL_OUT
  {
    seq(n, i requires 0 <= i < n => if c.IsAvailable(i) then c.vout[i] else NULL_OUT)
  }

  lemma OneBack(K: Keys, c: Coins, i: nat, t: seq<Byte>)
    requires KeyLaw(K) && Writable(c) && c.IsAvailable(i)
    ensures ReadOut(K, WriteOne(K, c, i) + t) == Got(c.vout[i], t)
  {
    hide KeyLaw, ReadOut, WriteOut, Compress64;
    OutRoundTrip(K, c.vout[i], t);
  }

  lemma RestoredNext(c: Coins, n: nat)
    ensures Restored(c, n + 1) == Restored(c, n) + [if c.IsAvailable(n) then c.vout[n] else NULL_OUT]
  {
    hide Restored;
  }

  lemma {:induction false} OutsBack(K: Keys, c: Coins, vAvail: seq<bool>, t: seq<Byte>)
    requires KeyLaw(K) && Writable(c) && forall i :: 0 <= i < |vAvail| ==> vAvail[i] == c.IsAvailable(i)
    ensures ReadOuts(K, vAvail, WriteOuts(K, c, |vAvail|) + t) == Got(Restored(c, |vAvail|), t)
  {
    hide KeyLaw, ReadOut, WriteOne, Writable, Restored;
    var n := |vAvail|;
    if n == 0 {
      assert WriteOuts(K, c, 0) + t == t;
    } else {
      var last := WriteOne(K, c, n - 1);
      assert WriteOuts(K, c, n) + t == WriteOuts(K, c, n - 1) + (last + t);
      OutsBack(K, c, vAvail[..n - 1], last + t);
      RestoredNext(c, n - 1);
      if c.IsAvailable(n - 1) {
        OneBack(K, c, n - 1, t);
      } else {
        NothingWritten(K, c, n - 1);
        assert last + t == t;
      }
    }
  }

  lemma NothingWritten(K: Keys, c: Coins, i: nat)
    requires Writable(c) && !c.IsAvailable(i)
    ensures WriteOne(K, c, i) == []
  {
  }

  lemma {:induction false} WriteOutsStop(K: Keys, c: Coins, m: nat, n: nat)
    requires Writable(c) && m <= n && forall i :: i >= m ==> !c.IsAvailable(i)
    ensures WriteOuts(K, c, n) == WriteOuts(K, c, m)
  {
    hide Writable, WriteOne;
    if m < n {
      NothingWritten(K, c, n - 1);
      WriteOutsStop(K, c, m, n - 1);
    }
  }

  /** How many outputs are written does not matter, as long as the ones left out are spent. */
  lemma SameOuts(K: Keys, c: Coins, n: nat)
    requires Writable(c) && forall i :: i >= n ==> !c.IsAvailable(i)
    ensures WriteOuts(K, c, |c.vout|) == WriteOuts(K, c, n)
  {
    if n <= |c.vout| {
      WriteOutsStop(K, c, n, |c.vout|);
    } else {
      WriteOutsStop(K, c, |c.vout|, n);
    }
  }

  lemma CleanAtMost(c: Coins, d: Coins)
    requires forall i :: c.IsAvailable(i) ==> d.IsAvailable(i)
    ensures |c.Cleanup().vout| <= |d.Cleanup().vout|
  {
    hide Coins.Cleanup;
    var n := |c.Cleanup().vout|;
    if n > 0 {
      assert c.Cleanup().vout[n - 1] == c.vout[n - 1];
      assert c.IsAvailable(n - 1);
    }
  }

  /** Restoring the outputs and dropping the spent ones at the end is cleaning up. */
  lemma RestoredIsClean(c: Coins, n: nat)
    requires Writable(c) && forall i :: i >= n ==> !c.IsAvailable(i)
    ensures c.(vout := Restored(c, n)).Cleanup() == c.Cleanup()
  {
    hide Coins.Cleanup, Restored;
    var r := c.(vout := Restored(c, n));
    assert forall i :: 0 <= i < n && c.IsAvailable(i) ==> Restored(c, n)[i] == c.vout[i];
    assert forall i :: c.IsAvailable(i) <==> r.IsAvailable(i);
    CleanAtMost(c, r);
    CleanAtMost(r, c);
    var a, b := r.Cleanup().vout, c.Cleanup().vout;
    forall i | 0 <= i < |a|
      ensures a[i] == b[i]
    {
      assert a[i] == Restored(c, n)[i] && b[i] == c.vout[i];
    }
  }

  /** What a reader takes from the header code. */
  predicate CodeFor(c: Coins, n: nat) {
    && (n % 2 == 1 <==> c.fCoinBase)
    && (n / 2 % 2 == 1 <==> c.IsAvailable(0)) && (n / 4 % 2 == 1 <==> c.IsAvailable(1))
    && NonZero(Mask(c)) == n / 8 + if n / 2 % 4 != 0 then 0 else 1
  }

  /** Not everything is spent, so the header code can tell which byte counts are meant. */
  lemma HeaderIsRight(c: Coins)
    requires !c.IsPruned()
    ensures HeaderCode(c) >= 0 && CodeFor(c, HeaderCode(c))
  {
    hide NonZero, Mask;
    var fFirst, fSecond, k := c.IsAvailable(0), c.IsAvailable(1), NonZero(Mask(c));
    if !fFirst && !fSecond {
      MaskIsRight(c);
      var i :| 0 <= i < |c.vout| && !c.vout[i].IsNull();
      assert c.IsAvailable(i);
      MaskEnds(c);
      MaskBack(Mask(c), []);
    }
    HeaderArith(k - if fFirst || fSecond then 0 else 1, c.fCoinBase, fFirst, fSecond);
  }

  lemma HeaderArith(high: nat, a: bool, b: bool, c: bool)
    ensures
      var n := 8 * high + (if a then 1 else 0) + (if b then 2 else 0) + if c then 4 else 0;
      && n / 8 == high && (n % 2 == 1 <==> a) && (n / 2 % 2 == 1 <==> b) && (n / 4 % 2 == 1 <==> c)
      && (n / 2 % 4 != 0 <==> b || c)
  {
    var low := (if a then 1 else 0) + (if b then 2 else 0) + if c then 4 else 0;
    LowBits(high, low);
  }

  lemma LowBits(high: nat, low: nat)
    requires low < 8
    ensures
      var n := 8 * high + low;
      n / 8 == high && n % 2 == low % 2 && n / 2 % 2 == low / 2 % 2 && n / 4 % 2 == low / 4 && n / 2 % 4 == low / 2
  {
    var n, half, quarter := 8 * high + low, 4 * high + low / 2, 2 * high + low / 4;
    DivUnique(n, 8, high, low);
    DivUnique(n, 2, half, low % 2);
    DivUnique(n, 4, quarter, low % 4);
    DivUnique(half, 2, quarter, low / 2 % 2);
    DivUnique(half, 4, high, low / 2);
    DivUnique(quarter, 2, high, low / 4);
  }

  function WriteBody(K: Keys, c: Coins): seq<Byte>
    requires Writable(c)
  {
    Mask(c) + (WriteOuts(K, c, |c.vout|) + WriteVar(c.nHeight))
  }

  lemma BodyRoundTrip(K: Keys, c: Coins, nVersion: int, nCode: nat, t: seq<Byte>)
    requires KeyLaw(K) && Writable(c)
    requires CodeFor(c, nCode)
    ensures ReadBody(K, nVersion, nCode, WriteBody(K, c) + t) == Got(c.Cleanup().(nVersion := nVersion), t)
  {
    hide KeyLaw, ReadVar, WriteVar, ReadMask, ReadOuts, WriteOuts, Mask, Restored, NonZero, Coins.Cleanup, AllFlags, Writable;
    var vAvail := [c.IsAvailable(0), c.IsAvailable(1)] + AllFlags(Mask(c));
    var n := |vAvail|;
    var s3 := WriteVar(c.nHeight) + t;
    var s2 := WriteOuts(K, c, |c.vout|) + s3;
    assert WriteBody(K, c) + t == Mask(c) + s2;
    MaskEnds(c);
    MaskBack(Mask(c), s2);
    MaskIsRight(c);
    SameOuts(K, c, n);
    OutsBack(K, c, vAvail, s3);
    NumbersFit(c);
    ReadWriteInto(U32, c.nHeight, t);
    RestoredIsClean(c, n);
    CleanupVersion(c.(vout := Restored(c, n)), nVersion);
  }

  /**
    Reading a record that is not fully spent gives it back, without the spent
    outputs at its end, and with only seven bits of a negative version.
   */
  lemma SerializeRoundTrip(K: Keys, c: Coins, t: seq<Byte>)
    requires KeyLaw(K) && Writable(c) && !c.IsPruned()
    ensures Unserialize(K, Serialize(K, c) + t) ==
      Got(c.Cleanup().(nVersion := if c.nVersion >= 0 then c.nVersion else c.nVersion % 128), t)
  {
    hide KeyLaw, ReadVar, ReadVarInto, WriteVar, ReadBody, WriteBody, HeaderCode, CodeFor, Mask, NonZero, Coins.Cleanup, Writable;
    NumbersFit(c);
    var s3 := WriteBody(K, c) + t;
    var s2 := WriteVar(HeaderCode(c)) + s3;
    HeaderIsRight(c);
    HeaderFits(c);
    assert Serialize(K, c) + t == WriteVar(c.nVersion) + s2;
    ReadWriteInto(U32, c.nVersion, s2);
    ReadWriteInto(U32, HeaderCode(c), s3);
    BodyRoundTrip(K, c, if c.nVersion >= 0 then c.nVersion else c.nVersion % 128, HeaderCode(c), t);
  }

  lemma NumbersFit(c: Coins)
    requires Writable(c)
    ensures c.nHeight < U32 && c.nVersion < U32 && |c.vout| < I32
  {
  }

  /** The header code is a number of 32 bits. */
  lemma HeaderFits(c: Coins)
    requires |c.vout| < I32
    ensures HeaderCode(c) < U32
  {
    hide MaskByte, NonZero;
    NonZeroAtMost(Mask(c));
  }

  lemma {:induction false} NonZeroAtMost(s: seq<Byte>)
    ensures NonZero(s) <= |s|
  {
    if s != [] {
      NonZeroAtMost(s[..|s| - 1]);
    }
  }

  lemma MaskEnds(c: Coins)
    ensures Mask(c) == [] || Mask(c)[|Mask(c)| - 1] != 0
  {
  }

  lemma {:induction false} CleanupVersion(c: Coins, v: int)
    ensures c.(nVersion := v).Cleanup() == c.Cleanup().(nVersion := v)
    decreases |c.vout|
  {
    if |c.vout| > 0 && c.vout[|c.vout| - 1].IsNull() {
      CleanupVersion(c.(vout := c.vout[..|c.vout| - 1]), v);
    }
  }

  /** A record as the database holds it survives exactly if its version is not negative. */
  lemma RecoveredIff(K: Keys, c: Coins, t: seq<Byte>)
    requires KeyLaw(K) && Writable(c) && !c.IsPruned() && c.IsClean()
    ensures Unserialize(K, Serialize(K, c) + t) == Got(c, t) <==> c.nVersion >= 0
  {
    hide KeyLaw, Unserialize, Serialize;
    SerializeRoundTrip(K, c, t);
    CleanupIdempotent(c);
  }

  // ---------------------------------------------------------------------------
  // The documented example
  // ---------------------------------------------------------------------------

  /** Pay to the hash of a public key. */
  function PayTo(key: seq<Byte>): seq<Byte> {
    [OP_DUP, OP_HASH160, 20] + key + [OP_EQUALVERIFY, OP_CHECKSIG]
  }

  lemma ExampleNumbers()
    ensures WriteVar(1) == [0x01] && WriteVar(4) == [0x04] && WriteVar(600) == [0x83, 0x58]
    ensures WriteVar(203998) == [0x8b, 0xb8, 0x5e]
  {
    hide VarHigh, WriteVar;
    WrittenLast(0, 1);
    WrittenLast(0, 4);
    HighNext(0, 0x83);
    WrittenLast(4, 0x58);
    HighNext(0, 0x8b);
    HighNext(12, 0xb8);
    WrittenLast(1593, 0x5e);
  }

  lemma ExampleAmount()
    ensures CompressAmount(60000000000) == 600
  {
    hide CompressAmount;
    CompressInverts(600);
    assert DecompressAmount(600) == 60000000000;
  }

  lemma ExampleOut(K: Keys, key: seq<Byte>)
    requires |key| == 20
    ensures OutFits(TxOut(60000000000, PayTo(key)))
    ensures WriteOut(K, TxOut(60000000000, PayTo(key))) == [0x83, 0x58, 0x00] + key
  {
    hide WriteVar, CompressAmount;
    ExampleNumbers();
    ExampleAmount();
    assert PayTo(key)[3..23] == key;
  }

  /** The first of the two records written out in coins.h: 600 coins at the second place. */
  lemma RecordExample(K: Keys, key: seq<Byte>)
    requires |key| == 20
    ensures
      var c := Coins(false, [NULL_OUT, TxOut(60000000000, PayTo(key))], 203998, 1);
      Writable(c) && Serialize(K, c) == [0x01, 0x04, 0x83, 0x58, 0x00] + key + [0x8b, 0xb8, 0x5e]
  {
    hide WriteVar, WriteOut, OutFits, PayTo;
    var c := Coins(false, [NULL_OUT, TxOut(60000000000, PayTo(key))], 203998, 1);
    ExampleOut(K, key);
    ExampleNumbers();
    assert Mask(c) == [];
    assert HeaderCode(c) == 4;
    assert WriteOuts(K, c, 1) == [];
    assert WriteOuts(K, c, 2) == [0x83, 0x58, 0x00] + key;
  }
}
