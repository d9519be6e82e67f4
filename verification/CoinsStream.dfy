/**
  The loops that write a coins record to a stream and read it back: refinements
  of the functions in `CoinsCodec` and `CoinsRecord`.
 */
module CoinsStream {
  import opened Arithmetic
  import opened Coins
  import opened CoinsCodec
  import opened CoinsRecord
  import opened Limbs

  // ---------------------------------------------------------------------------
  // Amounts
  // ---------------------------------------------------------------------------

  /** `CompressAmount`, which wraps after the divisions. */
  method CompressAmountLoop(amount: nat) returns (x: nat)
    requires amount < U64
    ensures x == Compress64(amount)
  {
    if amount == 0 {
      return 0;
    }
    var n, e := amount, 0;
    while n % 10 == 0 && e < 9
      invariant n > 0 && 0 <= e <= 9
      invariant Stripped(n, e) == Stripped(amount, 0) && Tens(n, e) == Tens(amount, 0)
      decreases 9 - e
    {
      n, e := n / 10, e + 1;
    }
    ScaleStripped(amount, 0);
    if e < 9 {
      var d := n % 10;
      assert 1 <= d <= 9;
      n := n / 10;
      x := Wrap(1 + (n * 9 + d - 1) * 10 + e, U64);
    } else {
      x := Wrap(1 + (n - 1) * 10 + 9, U64);
    }
  }

  /** `DecompressAmount`: what wraps in one round of the loop makes no difference to the next. */
  method DecompressAmountLoop(x: nat) returns (n: nat)
    requires x < U64
    ensures n == Decompress64(x)
  {
    hide Scale, Wrap;
    if x == 0 {
      WrapZero(U64);
      return 0;
    }
    var e, q := (x - 1) % 10, (x - 1) / 10;
    n := if e < 9 then q / 9 * 10 + (q % 9 + 1) else q + 1;
    ghost var whole: nat := n;
    WrapSmall(n, U64);
    while e != 0
      invariant e >= 0 && Scale(whole, e) == DecompressAmount(x) && n == Wrap(whole, U64)
    {
      ScaleNext(whole, e);
      WrapDigit(whole, 10, 0, U64);
      whole := whole * 10;
      n, e := Wrap(n * 10, U64), e - 1;
    }
    ScaleNone(whole);
  }

  lemma ScaleNext(n: nat, e: nat)
    requires e > 0
    ensures Scale(n, e) == Scale(n * 10, e - 1)
  {
  }

  lemma WrapZero(m: nat)
    requires m > 0
    ensures Wrap(0, m) == 0
  {
  }

  lemma WrapSmall(n: nat, m: nat)
    requires n < m
    ensures Wrap(n, m) == n
  {
  }

  lemma WrapDigit(n: nat, k: nat, d: nat, m: nat)
    requires m > 0
    ensures Wrap(Wrap(n, m) * k + d, m) == Wrap(n * k + d, m)
  {
    var q, r := n / m, n % m;
    DivBounds(n, m);
    assert n == m * q + r;
    assert n * k == m * (q * k) + r * k by {
      Associate(m, q, k);
    }
    WrapMore(r * k + d, q * k, m);
  }

  lemma WrapMore(n: nat, q: nat, m: nat)
    requires m > 0
    ensures (m * q + n) % m == n % m
  {
    var p, r := n / m, n % m;
    DivBounds(n, m);
    assert m * q + n == m * (q + p) + r;
    DivUnique(m * q + n, m, q + p, r);
  }

  // ---------------------------------------------------------------------------
  // The mask
  // ---------------------------------------------------------------------------

  lemma {:induction false} FlagSumNext(flags: seq<bool>, i: nat)
    requires i < |flags|
    ensures FlagSum(flags[..i + 1]) == FlagSum(flags[..i]) + (if flags[i] then Pow2(i) else 0)
    ensures FlagSum(flags[..i]) < Pow2(i)
  {
    if i == 0 {
      assert flags[..0] == [] && flags[..1] == [flags[0]] && flags[..1][1..] == [];
      assert Pow2(0) == 1;
    } else {
      FlagSumNext(flags[1..], i - 1);
      assert flags[..i + 1][1..] == flags[1..][..i] && flags[..i][1..] == flags[1..][..i - 1];
    }
  }

  /** A mask byte, built bit by bit. */
  method BuildMaskByte(c: Coins, b: nat) returns (chAvail: Byte)
    ensures chAvail == MaskByte(c, b)
  {
    hide Pow2, FlagSum;
    ghost var flags := MaskFlags(c, b);
    var ch: nat := 0;
    NoFlagSum(flags);
    for i := 0 to 8
      invariant ch == FlagSum(flags[..i])
    {
      FlagSumNext(flags, i);
      assert flags[i] == c.IsAvailable(2 + b * 8 + i);
      if 2 + b * 8 + i < |c.vout| && !c.vout[2 + b * 8 + i].IsNull() {
        DivUnique(Pow2(i), Pow2(i), 1, 0);
        OrDisjoint(ch, Pow2(i), i);
        ch := Or(ch, Pow2(i));
      }
    }
    assert flags[..8] == flags;
    FlagsBound(flags);
    chAvail := ch;
  }

  lemma NoFlagSum(flags: seq<bool>)
    ensures FlagSum(flags[..0]) == 0
  {
  }

  /** `CalcMaskSize`. */
  method CalcMaskSize(c: Coins) returns (nBytes: nat, nNonzeroBytes: nat)
    ensures nBytes == |Mask(c)| && nNonzeroBytes == NonZero(Mask(c))
  {
    hide MaskByte;
    var nLastUsedByte := 0;
    nNonzeroBytes := 0;
    var b := 0;
    while 2 + b * 8 < |c.vout|
      invariant b <= MaskLimit(c) && nLastUsedByte == MaskSize(c, b)
      invariant nNonzeroBytes == NonZero(MaskBytes(c, nLastUsedByte))
    {
      var chAvail := BuildMaskByte(c, b);
      if chAvail != 0 {
        NextNonZero(c, nLastUsedByte, b);
        nLastUsedByte := b + 1;
        nNonzeroBytes := nNonzeroBytes + 1;
      }
      b := b + 1;
    }
    nBytes := nLastUsedByte;
  }

  /** The zero bytes in between do not count. */
  lemma {:induction false} NextNonZero(c: Coins, m: nat, b: nat)
    requires m <= b && (forall j :: m <= j < b ==> MaskByte(c, j) == 0) && MaskByte(c, b) != 0
    ensures NonZero(MaskBytes(c, b + 1)) == NonZero(MaskBytes(c, m)) + 1
  {
    hide MaskByte;
    SkipZeros(c, m, b);
    assert MaskBytes(c, b + 1)[..b] == MaskBytes(c, b);
  }

  lemma {:induction false} SkipZeros(c: Coins, m: nat, b: nat)
    requires m <= b && (forall j :: m <= j < b ==> MaskByte(c, j) == 0)
    ensures NonZero(MaskBytes(c, b)) == NonZero(MaskBytes(c, m))
  {
    hide MaskByte;
    if m < b {
      SkipZeros(c, m, b - 1);
      assert MaskBytes(c, b)[..b - 1] == MaskBytes(c, b - 1);
    }
  }

  // ---------------------------------------------------------------------------
  // The stream
  // ---------------------------------------------------------------------------

  /** What was read before, followed by what is still to be read. */
  ghost function After<T>(done: seq<T>, r: Read<seq<T>>): Read<seq<T>> {
    match r
    case Fail => Fail
    case Got(v, rest) => Got(done + v, rest)
  }

  lemma {:induction false} FlagAt(ch: nat, k: nat, p: nat)
    requires p < k
    ensures FlagsOf(ch, k)[p] <==> ch / Pow2(p) % 2 == 1
  {
    if p == 0 {
      assert Pow2(0) == 1;
    } else {
      FlagAt(ch / 2, k - 1, p - 1);
      DivDiv(ch, 2, Pow2(p - 1));
    }
  }

  /** The loop over the bits of a mask byte. */
  method UnpackByte(chAvail: Byte) returns (flags: seq<bool>)
    ensures flags == FlagsOf(chAvail, 8)
  {
    hide FlagsOf, Pow2;
    flags := [];
    for p := 0 to 8
      invariant flags == FlagsOf(chAvail, 8)[..p]
    {
      var f := chAvail / Pow2(p) % 2 == 1;
      FlagAt(chAvail, 8, p);
      assert FlagsOf(chAvail, 8)[..p + 1] == FlagsOf(chAvail, 8)[..p] + [f];
      flags := flags + [f];
    }
  }

  class DataStream {
    var data: seq<Byte>

    constructor ()
      ensures data == []
    {
      data := [];
    }

    /** `WriteVarInt`: digits are produced from the last to the first. */
    method WriteVarInt(number: int)
      modifies this
      ensures data == old(data) + WriteVar(number)
    {
      var n, tmp := number, [];
      while true
        invariant tmp == [] ==> n == number
        invariant tmp != [] ==> n >= 0 && WriteVar(number) == VarHigh(n) + tmp
        decreases n
      {
        ghost var was := tmp;
        var d: Byte := n % 128 + if tmp != [] then 128 else 0;
        tmp := [d] + tmp;
        if n <= 0x7f {
          assert was != [] ==> VarHigh(n) == [d];
          break;
        }
        assert was != [] ==> VarHigh(n) + was == VarHigh(n / 128 - 1) + tmp;
        n := n / 128 - 1;
      }
      data := data + tmp;
    }

    /** `ReadVarInt` into an unsigned type that wraps at `width`; the end of the data is an exception. */
    method ReadVarInt(width: nat) returns (ok: bool, n: nat)
      requires width > 0
      modifies this
      ensures match ReadVarInto(width, old(data)) case Fail => !ok case Got(v, rest) => ok && n == v && data == rest
      ensures n < width
    {
      hide Wrap;
      n := 0;
      WrapZero(width);
      ghost var whole: nat := 0;
      while true
        invariant n == Wrap(whole, width) && ReadVarFrom(whole, data) == ReadVar(old(data))
        decreases |data|
      {
        if data == [] {
          return false, 0;
        }
        var chData := data[0];
        data := data[1..];
        WrapDigit(whole, 128, chData % 128, width);
        whole := whole * 128 + chData % 128;
        n := Wrap(n * 128 + chData % 128, width);
        if chData >= 128 {
          WrapDigit(whole, 1, 1, width);
          whole := whole + 1;
          n := Wrap(n + 1, width);
        } else {
          return true, n;
        }
      }
    }

    method Write(s: seq<Byte>)
      modifies this
      ensures data == old(data) + s
    {
      data := data + s;
    }

    method ReadExactly(n: nat) returns (ok: bool, v: seq<Byte>)
      modifies this
      ensures match ReadBytes(n, old(data)) case Fail => !ok case Got(w, rest) => ok && v == w && data == rest
    {
      if |data| < n {
        return false, [];
      }
      ok, v, data := true, data[..n], data[n..];
    }

    /** `CScriptCompressor::Serialize`. */
    method WriteScriptCompressed(K: Keys, script: seq<Byte>)
      modifies this
      ensures data == old(data) + WriteScript(K, script)
    {
      var compr := CompressScript(K, script);
      if compr.Some? {
        Write(compr.value);
        return;
      }
      WriteVarInt((|script| + SPECIAL_SCRIPTS) % U32);
      Write(script);
    }

    /** `CScriptCompressor::Unserialize`. */
    method ReadScriptCompressed(K: Keys) returns (ok: bool, script: seq<Byte>)
      modifies this
      ensures match ReadScript(K, old(data)) case Fail => !ok case Got(v, rest) => ok && script == v && data == rest
    {
      hide ReadVarInto, ReadBytes, DecompressScript;
      script := [];
      var nSize;
      ok, nSize := ReadVarInt(U32);
      if !ok {
        return;
      }
      if nSize < SPECIAL_SCRIPTS {
        var v;
        ReadBytesLength(SpecialSize(nSize), data);
        ok, v := ReadExactly(SpecialSize(nSize));
        if ok {
          script := DecompressScript(K, nSize, v);
        }
      } else {
        ok, script := ReadExactly(nSize - SPECIAL_SCRIPTS);
      }
    }

    /** `CTxOutCompressor`, writing. */
    method WriteTxOut(K: Keys, out: TxOut)
      requires 0 <= out.nValue < U64
      modifies this
      ensures data == old(data) + WriteOut(K, out)
    {
      hide WriteVar, WriteScript;
      var nVal := CompressAmountLoop(out.nValue);
      WriteVarInt(nVal);
      WriteScriptCompressed(K, out.script);
    }

    /** `CTxOutCompressor`, reading. */
    method ReadTxOut(K: Keys) returns (ok: bool, out: TxOut)
      modifies this
      ensures match ReadOut(K, old(data)) case Fail => !ok case Got(v, rest) => ok && out == v && data == rest
    {
      hide ReadVarInto, ReadScript, Decompress64;
      out := NULL_OUT;
      var nVal;
      ok, nVal := ReadVarInt(U64);
      if !ok {
        return;
      }
      var nValue := DecompressAmountLoop(nVal);
      var script;
      ok, script := ReadScriptCompressed(K);
      out := TxOut(Signed64(nValue), script);
    }

    /** `CCoins::Serialize`. */
    method WriteCoins(K: Keys, c: Coins)
      requires Writable(c) && !c.IsPruned()
      modifies this
      ensures data == old(data) + Serialize(K, c)
    {
      hide WriteVar, WriteOut, Mask, NonZero;
      ghost var s0 := data;
      var nMaskSize, nMaskCode := CalcMaskSize(c);
      var fFirst, fSecond := |c.vout| > 0 && !c.vout[0].IsNull(), |c.vout| > 1 && !c.vout[1].IsNull();
      HeaderIsRight(c);
      var nCode := (8 * (nMaskCode - if fFirst || fSecond then 0 else 1)
        + (if c.fCoinBase then 1 else 0) + (if fFirst then 2 else 0) + (if fSecond then 4 else 0)) % U32;
      assert nCode == HeaderCode(c) % U32;
      WriteVarInt(c.nVersion);
      WriteVarInt(nCode);
      WriteMaskBytes(c, nMaskSize);
      WriteUnspent(K, c);
      WriteVarInt(c.nHeight);
      SerializeParts(K, c, s0);
    }

    method WriteMaskBytes(c: Coins, nMaskSize: nat)
      requires nMaskSize == |Mask(c)|
      modifies this
      ensures data == old(data) + Mask(c)
    {
      hide MaskByte;
      for b := 0 to nMaskSize
        invariant data == old(data) + Mask(c)[..b]
      {
        var chAvail := BuildMaskByte(c, b);
        assert Mask(c)[..b + 1] == Mask(c)[..b] + [chAvail];
        data := data + [chAvail];
      }
      assert Mask(c)[..nMaskSize] == Mask(c);
    }

    method WriteUnspent(K: Keys, c: Coins)
      requires Writable(c)
      modifies this
      ensures data == old(data) + WriteOuts(K, c, |c.vout|)
    {
      hide WriteOut;
      for i := 0 to |c.vout|
        invariant data == old(data) + WriteOuts(K, c, i)
      {
        if !c.vout[i].IsNull() {
          WriteTxOut(K, c.vout[i]);
        }
      }
    }

    /** The mask loop of `CCoins::Unserialize`. */
    method ReadMaskBytes(maskCode: nat) returns (ok: bool, vAvail: seq<bool>)
      modifies this
      ensures match ReadMask(maskCode, old(data)) case Fail => !ok case Got(v, rest) => ok && vAvail == v && data == rest
    {
      hide FlagsOf;
      vAvail := [];
      var nMaskCode := maskCode;
      AfterNone(ReadMask(maskCode, data));
      while nMaskCode > 0
        invariant After(vAvail, ReadMask(nMaskCode, data)) == ReadMask(maskCode, old(data))
        decreases |data|
      {
        if data == [] {
          return false, [];
        }
        var chAvail := data[0];
        var flags := UnpackByte(chAvail);
        AfterBoth(vAvail, flags, ReadMask(if chAvail != 0 then nMaskCode - 1 else nMaskCode, data[1..]));
        vAvail := vAvail + flags;
        data := data[1..];
        if chAvail != 0 {
          nMaskCode := nMaskCode - 1;
        }
      }
      ok := true;
    }

    /** The output loop of `CCoins::Unserialize`. */
    method ReadUnspent(K: Keys, vAvail: seq<bool>) returns (ok: bool, vout: seq<TxOut>)
      modifies this
      ensures match ReadOuts(K, vAvail, old(data)) case Fail => !ok case Got(v, rest) => ok && vout == v && data == rest
    {
      hide ReadOut;
      vout := [];
      for i := 0 to |vAvail|
        invariant ReadOuts(K, vAvail[..i], old(data)) == Got(vout, data)
      {
        assert vAvail[..i + 1][..i] == vAvail[..i];
        var out := NULL_OUT;
        if vAvail[i] {
          ok, out := ReadTxOut(K);
          if !ok {
            FailsAt(K, vAvail, i + 1, old(data));
            return;
          }
        }
        vout := vout + [out];
      }
      assert vAvail[..|vAvail|] == vAvail;
      ok := true;
    }

    /** `CCoins::Unserialize`. */
    method ReadCoins(K: Keys) returns (ok: bool, c: Coins)
      modifies this
      ensures match Unserialize(K, old(data)) case Fail => !ok case Got(v, rest) => ok && c == v && data == rest
    {
      hide ReadVarInto, ReadMask, ReadOuts;
      c := NO_COINS;
      var nVersion, nCode, flags, vout, nHeight;
      ok, nVersion := ReadVarInt(U32);
      if !ok {
        return;
      }
      ok, nCode := ReadVarInt(U32);
      if !ok {
        return;
      }
      var nMaskCode := nCode / 8 + if nCode / 2 % 4 != 0 then 0 else 1;
      ok, flags := ReadMaskBytes(nMaskCode);
      if !ok {
        return;
      }
      ok, vout := ReadUnspent(K, [nCode / 2 % 2 == 1, nCode / 4 % 2 == 1] + flags);
      if !ok {
        return;
      }
      ok, nHeight := ReadVarInt(U32);
      if !ok {
        return;
      }
      c := Coins(nCode % 2 == 1, vout, nHeight, nVersion).Cleanup();
    }
  }

  lemma ReadBytesLength(n: nat, s: seq<Byte>)
    ensures ReadBytes(n, s).Got? ==> |ReadBytes(n, s).value| == n
  {
  }

  lemma SerializeParts(K: Keys, c: Coins, s: seq<Byte>)
    requires Writable(c)
    ensures s + Serialize(K, c) ==
      s + WriteVar(c.nVersion) + WriteVar(HeaderCode(c) % U32) + Mask(c) + WriteOuts(K, c, |c.vout|) + WriteVar(c.nHeight)
  {
    hide WriteVar, WriteOuts, Mask, HeaderCode;
  }

  lemma AfterNone<T>(r: Read<seq<T>>)
    ensures After([], r) == r
  {
    if r.Got? {
      assert [] + r.value == r.value;
    }
  }

  lemma AfterBoth<T>(a: seq<T>, b: seq<T>, r: Read<seq<T>>)
    ensures After(a + b, r) == After(a, After(b, r))
  {
    if r.Got? {
      assert a + b + r.value == a + (b + r.value);
    }
  }

  lemma {:induction false} FailsAt(K: Keys, vAvail: seq<bool>, i: nat, s: seq<Byte>)
    requires i <= |vAvail| && ReadOuts(K, vAvail[..i], s).Fail?
    ensures ReadOuts(K, vAvail, s).Fail?
  {
    hide ReadOut;
    if i == |vAvail| {
      assert vAvail[..i] == vAvail;
    } else {
      var k := |vAvail| - 1;
      assert vAvail[..k][..i] == vAvail[..i];
      FailsAt(K, vAvail[..k], i, s);
    }
  }

  /** Writing a record to a stream and reading it back. */
  method WriteThenRead(K: Keys, c: Coins) returns (ok: bool, back: Coins)
    requires KeyLaw(K) && Writable(c) && !c.IsPruned() && c.IsClean()
    ensures ok && back == c.(nVersion := if c.nVersion >= 0 then c.nVersion else c.nVersion % 128)
  {
    hide KeyLaw, Unserialize, Serialize;
    var stream := new DataStream();
    stream.WriteCoins(K, c);
    SerializeRoundTrip(K, c, []);
    assert Serialize(K, c) + [] == Serialize(K, c) == stream.data;
    CleanupIdempotent(c);
    ok, back := stream.ReadCoins(K);
  }
}
