/**
  The serialized form of a coins record (coins.h, compressor.h, compressor.cpp
  and the variable-length integers of serialize.h): what is written, what is
  read, and that reading undoes writing.
 */
module CoinsCodec {
  import opened Arithmetic
  import opened Coins
  import opened Options

  /** What reading from a stream gives: a value and the rest of the stream, or the end of data. */
  datatype Read<+T> = Got(value: T, rest: seq<Byte>) | Fail

  // ---------------------------------------------------------------------------
  // Variable-length integers
  // ---------------------------------------------------------------------------

  /** The bytes before the last one, most significant first; each has the high bit set. */
  function VarHigh(n: nat): seq<Byte> {
    (if n <= 0x7f then [] else VarHigh(n / 128 - 1)) + [n % 128 + 128]
  }

  /** `WriteVarInt`; a negative number is written as if it were one digit. */
  function WriteVar(n: int): seq<Byte> {
    (if n <= 0x7f then [] else VarHigh(n / 128 - 1)) + [n % 128]
  }

  /** `ReadVarInt` with `n` read so far. */
  function ReadVarFrom(n: nat, s: seq<Byte>): Read<nat>
    decreases |s|
  {
    if s == [] then Fail
    else
      var n' := n * 128 + s[0] % 128;
      if s[0] >= 128 then ReadVarFrom(n' + 1, s[1..]) else Got(n', s[1..])
  }

  /** The number that a sequence of bytes stands for. */
  function ReadVar(s: seq<Byte>): Read<nat> {
    ReadVarFrom(0, s)
  }

  const U32: nat := 0x1_0000_0000
  const U64: nat := 0x1_0000_0000_0000_0000

  /** What is left of a number in an unsigned type. */
  function Wrap(n: nat, width: nat): (r: nat)
    requires width > 0
    ensures r < width
  {
    n % width
  }

  /** `ReadVarInt` into an unsigned type, which wraps at `width`. */
  function ReadVarInto(width: nat, s: seq<Byte>): Read<nat>
    requires width > 0
  {
    match ReadVar(s)
    case Fail => Fail
    case Got(n, rest) => Got(Wrap(n, width), rest)
  }

  lemma ReadLast(n: nat, d: Byte, t: seq<Byte>)
    ensures d < 128 ==> ReadVarFrom(n, [d] + t) == Got(n * 128 + d, t)
    ensures d >= 128 ==> ReadVarFrom(n, [d] + t) == ReadVarFrom(n * 128 + d - 127, t)
  {
    assert ([d] + t)[1..] == t;
  }

  lemma {:induction false} ReadVarHigh(m: nat, t: seq<Byte>)
    ensures ReadVarFrom(0, VarHigh(m) + t) == ReadVarFrom(m + 1, t)
  {
    hide ReadVarFrom, VarHigh;
    var d: Byte := m % 128 + 128;
    VarHighIs(m, d);
    if m <= 0x7f {
      ReadLast(0, d, t);
    } else {
      var high := VarHigh(m / 128 - 1);
      ReadVarHigh(m / 128 - 1, [d] + t);
      assert high + [d] + t == high + ([d] + t);
      ReadLast(m / 128, d, t);
    }
  }

  lemma VarHighIs(m: nat, d: Byte)
    requires d == m % 128 + 128
    ensures VarHigh(m) == (if m <= 0x7f then [] else VarHigh(m / 128 - 1)) + [d]
    ensures m / 128 * 128 + d - 127 == m + 1 && (m <= 0x7f ==> VarHigh(m) == [d])
  {
  }

  /** Reading gives back what was written, but only the lowest seven bits of a negative number. */
  lemma ReadWriteVar(n: int, t: seq<Byte>)
    ensures ReadVar(WriteVar(n) + t) == Got(if n >= 0 then n else n % 128, t)
  {
    hide ReadVarFrom, VarHigh;
    var d: Byte := n % 128;
    if n <= 0x7f {
      assert WriteVar(n) == [d];
      ReadLast(0, d, t);
    } else {
      ReadVarHigh(n / 128 - 1, [d] + t);
      assert WriteVar(n) + t == VarHigh(n / 128 - 1) + ([d] + t);
      ReadLast(n / 128, d, t);
    }
  }

  /** With `m + 1` read so far, what was read before is the high bytes of `m`. */
  lemma {:induction false} ReadIsWritten(a: nat, s: seq<Byte>)
    requires ReadVarFrom(a, s).Got?
    ensures
      var Got(v, t) := ReadVarFrom(a, s);
      (if a == 0 then [] else VarHigh(a - 1)) + s == WriteVar(v) + t
    decreases |s|
  {
    hide VarHigh, WriteVar;
    var d, rest := s[0], s[1..];
    assert s == [d] + rest;
    var high: seq<Byte> := if a == 0 then [] else VarHigh(a - 1);
    assert high + s == high + [d] + rest;
    if d < 128 {
      WrittenLast(a, d);
    } else {
      ReadIsWritten(a * 128 + d - 127, rest);
      HighNext(a, d);
    }
  }

  lemma WrittenLast(a: nat, d: Byte)
    requires d < 128
    ensures WriteVar(a * 128 + d) == (if a == 0 then [] else VarHigh(a - 1)) + [d]
  {
    hide VarHigh;
    assert (a * 128 + d) / 128 == a && (a * 128 + d) % 128 == d;
  }

  lemma HighNext(a: nat, d: Byte)
    requires d >= 128
    ensures VarHigh(a * 128 + d - 128) == (if a == 0 then [] else VarHigh(a - 1)) + [d]
  {
    var m := a * 128 + d - 128;
    assert m / 128 == a && m % 128 == d - 128;
  }

  /** Every number is written in one way only. */
  lemma OneEncoding(s: seq<Byte>)
    requires ReadVar(s).Got?
    ensures s == WriteVar(ReadVar(s).value) + ReadVar(s).rest
  {
    ReadIsWritten(0, s);
    assert [] + s == s;
  }

  /** No redundancy: what is read into a type is the one encoding of what it gives, exactly if the number fits the type. */
  lemma OneEncodingIff(width: nat, s: seq<Byte>)
    requires width > 0 && ReadVar(s).Got?
    ensures
      var Got(n, rest) := ReadVarInto(width, s);
      s == WriteVar(n) + rest <==> ReadVar(s).value < width
  {
    hide ReadVar, WriteVar;
    var Got(n, rest) := ReadVar(s);
    if n < width {
      OneEncoding(s);
    } else if s == WriteVar(n % width) + rest {
      ReadWriteVar(n % width, rest);
    }
  }

  /** Into 32 bits, these five bytes are read as 5, and so is the one byte that 5 is written as. */
  lemma SecondEncoding()
    ensures ReadVarInto(U32, [0x8e, 0xfe, 0xfe, 0xff, 0x05]) == Got(5, []) && WriteVar(5) == [0x05]
  {
    hide ReadVarFrom;
    LongHigh();
    ReadVarHigh(0x1ff_ffff, [0x05]);
    assert VarHigh(0x1ff_ffff) + [0x05] == [0x8e, 0xfe, 0xfe, 0xff, 0x05];
    ReadLast(0x200_0000, 0x05, []);
    assert [0x05] + [] == [0x05 as Byte];
  }

  /** Reading gives back a number that fits, but only the lowest seven bits of a negative one. */
  lemma ReadWriteInto(width: nat, n: int, t: seq<Byte>)
    requires 128 <= width && n < width
    ensures ReadVarInto(width, WriteVar(n) + t) == Got(if n >= 0 then n else n % 128, t)
  {
    hide ReadVar, WriteVar;
    ReadWriteVar(n, t);
  }

  lemma VarSizes(n: nat)
    ensures |WriteVar(n)| == 1 <==> n <= 127
    ensures |WriteVar(n)| == 2 <==> 128 <= n <= 16511
    ensures |WriteVar(n)| == 3 <==> 16512 <= n <= 2113663
  {
    HighSizes(n / 128 - 1);
  }

  lemma HighSizes(m: int)
    ensures m >= 0 ==> |VarHigh(m)| >= 1
    ensures m >= 0 ==> (|VarHigh(m)| == 1 <==> m <= 127) && (|VarHigh(m)| == 2 <==> 128 <= m <= 16511)
  {
    if m > 127 {
      HighSizes(m / 128 - 1);
    }
  }

  /** The documented examples; those for 16511 and 65535 are not what the code writes. */
  lemma VarExamples()
    ensures WriteVar(0) == [0x00] && WriteVar(127) == [0x7f] && WriteVar(128) == [0x80, 0x00] && WriteVar(255) == [0x80, 0x7f]
    ensures WriteVar(256) == [0x81, 0x00] && WriteVar(16383) == [0xfe, 0x7f] && WriteVar(16384) == [0xff, 0x00]
    ensures WriteVar(16511) == [0xff, 0x7f] && WriteVar(65535) == [0x82, 0xfe, 0x7f]
    ensures WriteVar(0x1_0000_0000) == [0x8e, 0xfe, 0xfe, 0xff, 0x00]
  {
    hide VarHigh, WriteVar;
    TwoBytes();
    WrittenLast(0, 0);
    WrittenLast(0, 0x7f);
    ShortHigh();
    HighNext(3, 0xfe);
    WrittenLast(511, 0x7f);
    LongHigh();
    WrittenLast(0x2000000, 0);
  }

  lemma TwoBytes()
    ensures WriteVar(128) == [0x80, 0x00] && WriteVar(255) == [0x80, 0x7f] && WriteVar(256) == [0x81, 0x00]
    ensures WriteVar(16383) == [0xfe, 0x7f] && WriteVar(16384) == [0xff, 0x00] && WriteVar(16511) == [0xff, 0x7f]
  {
    hide VarHigh, WriteVar;
    ShortHigh();
    WrittenLast(1, 0);
    WrittenLast(1, 0x7f);
    WrittenLast(2, 0);
    WrittenLast(127, 0x7f);
    WrittenLast(128, 0);
    WrittenLast(128, 0x7f);
  }

  lemma ShortHigh()
    ensures VarHigh(0) == [0x80] && VarHigh(1) == [0x81] && VarHigh(2) == [0x82] && VarHigh(14) == [0x8e]
    ensures VarHigh(126) == [0xfe] && VarHigh(127) == [0xff]
  {
  }

  lemma LongHigh()
    ensures VarHigh(0x1ff_ffff) == [0x8e, 0xfe, 0xfe, 0xff]
  {
    hide VarHigh;
    ShortHigh();
    HighNext(15, 0xfe);
    HighNext(0x7ff, 0xfe);
    HighNext(0x3ffff, 0xff);
  }

  // ---------------------------------------------------------------------------
  // Amounts
  // ---------------------------------------------------------------------------

  /** How many factors of ten are divided out, at most nine in all. */
  function Tens(n: nat, e: nat): (r: nat)
    requires n > 0 && e <= 9
    ensures e <= r <= 9
    decreases 9 - e
  {
    if n % 10 == 0 && e < 9 then Tens(n / 10, e + 1) else e
  }

  function Code(n: nat, e: nat): nat
    requires n > 0
  {
    if e < 9 && n % 10 > 0 then 1 + (n / 10 * 9 + n % 10 - 1) * 10 + e else 1 + (n - 1) * 10 + 9
  }

  /** What is left after dividing out the factors of ten. */
  function Stripped(n: nat, e: nat): (r: nat)
    requires n > 0 && e <= 9
    ensures r > 0
    decreases 9 - e
  {
    if n % 10 == 0 && e < 9 then Stripped(n / 10, e + 1) else n
  }

  function CompressAmount(n: nat): nat {
    if n == 0 then 0 else Code(Stripped(n, 0), Tens(n, 0))
  }

  function DecompressAmount(x: nat): nat {
    if x == 0 then 0
    else
      var e, q := (x - 1) % 10, (x - 1) / 10;
      Scale(Uncode(q, e), e)
  }

  function Uncode(q: nat, e: nat): nat {
    if e < 9 then q / 9 * 10 + q % 9 + 1 else q + 1
  }

  lemma CodeUncode(n: nat, e: nat)
    requires n > 0 && e <= 9 && (e < 9 ==> n % 10 != 0)
    ensures
      var x := Code(n, e);
      x > 0 && (x - 1) % 10 == e && Uncode((x - 1) / 10, e) == n
  {
    var q := if e < 9 then n / 10 * 9 + n % 10 - 1 else n - 1;
    assert Code(n, e) - 1 == q * 10 + e;
    assert (q * 10 + e) / 10 == q;
    if e < 9 {
      assert q / 9 == n / 10 && q % 9 == n % 10 - 1;
    }
  }

  lemma UncodeCode(q: nat, e: nat)
    requires e <= 9
    ensures Uncode(q, e) > 0 && (e < 9 ==> Uncode(q, e) % 10 != 0) && Code(Uncode(q, e), e) == 1 + q * 10 + e
  {
    if e < 9 {
      var n := Uncode(q, e);
      assert n % 10 == q % 9 + 1 && n / 10 == q / 9;
    }
  }

  /** The loop that multiplies by ten. */
  function Scale(n: nat, e: nat): nat
    decreases e
  {
    if e == 0 then n else Scale(n * 10, e - 1)
  }

  /** Dividing out and multiplying back. */
  lemma {:induction false} ScaleStripped(n: nat, e: nat)
    requires n > 0 && e <= 9
    ensures Scale(Stripped(n, e), Tens(n, e) - e) == n
    ensures Tens(n, e) < 9 ==> Stripped(n, e) % 10 != 0
    decreases 9 - e
  {
    if n % 10 == 0 && e < 9 {
      ScaleStripped(n / 10, e + 1);
      ScaleLast(Stripped(n, e), Tens(n, e) - e - 1);
    }
  }

  lemma {:induction false} ScaleLast(n: nat, e: nat)
    ensures Scale(n, e + 1) == Scale(n, e) * 10
    decreases e
  {
    if e > 0 {
      ScaleLast(n * 10, e - 1);
    }
  }

  lemma {:induction false} StripScaled(n: nat, e: nat, done: nat)
    requires n > 0 && done + e <= 9 && (n % 10 != 0 || done + e == 9)
    ensures Scale(n, e) > 0 && Stripped(Scale(n, e), done) == n && Tens(Scale(n, e), done) == done + e
    decreases e
  {
    hide Scale;
    if e == 0 {
      ScaleNone(n);
    } else {
      ScaleLast(n, e - 1);
      StripScaled(n, e - 1, done + 1);
      assert Scale(n, e) % 10 == 0 && Scale(n, e) / 10 == Scale(n, e - 1);
    }
  }

  lemma ScaleNone(n: nat)
    ensures Scale(n, 0) == n
  {
  }

  /** Compression and decompression of amounts undo each other, on all numbers. */
  lemma AmountRoundTrip(n: nat)
    ensures DecompressAmount(CompressAmount(n)) == n
  {
    hide Scale, Stripped, Tens, Code, Uncode;
    if n > 0 {
      ScaleStripped(n, 0);
      CodeUncode(Stripped(n, 0), Tens(n, 0));
    }
  }

  lemma CompressInverts(x: nat)
    ensures CompressAmount(DecompressAmount(x)) == x
  {
    hide Scale, Stripped, Tens, Code, Uncode;
    if x > 0 {
      var e, q := (x - 1) % 10, (x - 1) / 10;
      UncodeCode(q, e);
      StripScaled(Uncode(q, e), e, 0);
    }
  }

  /** A cent, a coin, fifty coins and all there can be. */
  lemma AmountExamples()
    ensures CompressAmount(1) == 0x1 && CompressAmount(COIN / 100) == 0x7 && CompressAmount(COIN) == 0x9
    ensures CompressAmount(50 * COIN) == 0x32 && CompressAmount(MAX_MONEY) == 0x1406f40
  {
    hide CompressAmount;
    CompressInverts(0x1);
    CompressInverts(0x7);
    CompressInverts(0x9);
    CompressInverts(0x32);
    CompressInverts(0x1406f40);
    assert DecompressAmount(0x1) == 1 && DecompressAmount(0x7) == COIN / 100 && DecompressAmount(0x9) == COIN;
    assert DecompressAmount(0x32) == 50 * COIN && DecompressAmount(0x1406f40) == MAX_MONEY;
  }

  /** The code's functions, in which everything after the divisions wraps at 64 bits. */
  function Compress64(n: nat): (r: nat)
    ensures r < U64
  {
    Wrap(CompressAmount(n), U64)
  }

  function Decompress64(x: nat): (r: nat)
    ensures r < U64
  {
    Wrap(DecompressAmount(x), U64)
  }

  /** Nothing overflows 64 bits for an amount that can exist. */
  lemma AmountFits(n: nat)
    requires MoneyRange(n)
    ensures CompressAmount(n) < U64
  {
    if n > 0 {
      StrippedSmaller(n, 0);
    }
  }

  /** An amount of 64 bits is recovered if its compressed form has no more, as that of all money has. */
  lemma AmountRoundTrip64(n: nat)
    requires n < U64 && CompressAmount(n) < U64
    ensures Decompress64(Compress64(n)) == n
  {
    hide CompressAmount, DecompressAmount;
    AmountRoundTrip(n);
  }

  /** A number is the compressed form of an amount of 64 bits exactly if it stands for one, and is then recovered. */
  lemma AmountBijection(x: nat)
    requires x < U64
    ensures (exists n: nat :: n < U64 && CompressAmount(n) == x) <==> DecompressAmount(x) < U64
    ensures DecompressAmount(x) < U64 ==> Compress64(Decompress64(x)) == x
  {
    hide CompressAmount, DecompressAmount;
    CompressInverts(x);
    if n: nat :| n < U64 && CompressAmount(n) == x {
      AmountRoundTrip(n);
    }
  }

  /** Both directions fail where something wraps: the largest amount of the type, and a number for more than 64 bits. */
  lemma AmountWraps()
    ensures Decompress64(Compress64(0x7fff_ffff_ffff_ffff)) == 10248191152058973120
    ensures Compress64(Decompress64(184467440740)) == 2614035451
  {
    assert Stripped(0x7fff_ffff_ffff_ffff, 0) == 0x7fff_ffff_ffff_ffff && Tens(0x7fff_ffff_ffff_ffff, 0) == 0;
    assert Compress64(0x7fff_ffff_ffff_ffff) == 9223372036854775797;
    Millions(1024819115206086199);
    assert Scale(18446744074, 9) == 18446744074000000000 by {
      Millions(18446744074000);
      assert Scale(18446744074, 9) == Scale(18446744074000, 6);
    }
    assert Decompress64(184467440740) == 290448384;
    assert Stripped(290448384, 0) == 290448384 && Tens(290448384, 0) == 0;
  }

  lemma Millions(n: nat)
    ensures Scale(n, 6) == n * 1000000
  {
    assert Scale(n, 6) == Scale(n * 1000, 3);
    assert Scale(n * 1000, 3) == n * 1000000;
  }

  lemma {:induction false} StrippedSmaller(n: nat, e: nat)
    requires n > 0 && e <= 9
    ensures Stripped(n, e) <= n
    decreases 9 - e
  {
    if n % 10 == 0 && e < 9 {
      StrippedSmaller(n / 10, e + 1);
    }
  }

  // ---------------------------------------------------------------------------
  // Scripts
  // ---------------------------------------------------------------------------

  const OP_DUP: Byte := 0x76
  const OP_EQUAL: Byte := 0x87
  const OP_EQUALVERIFY: Byte := 0x88
  const OP_HASH160: Byte := 0xa9
  const OP_CHECKSIG: Byte := 0xac
  const SPECIAL_SCRIPTS: nat := 6

  /** `CPubKey::IsFullyValid` and `CPubKey::Decompress`. */
  datatype Keys = Keys(isFullyValid: seq<Byte> -> bool, decompress: seq<Byte> -> Option<seq<Byte>>)

  /** A valid uncompressed key is recovered from its first coordinate and the parity of the second. */
  ghost predicate KeyLaw(K: Keys) {
    && (forall k: seq<Byte> :: |k| == 65 && k[0] == 4 && K.isFullyValid(k) ==> K.decompress([2 + k[64] % 2] + k[1..33]) == Some(k))
    && (forall v: seq<Byte> :: K.decompress(v).Some? ==> |K.decompress(v).value| == 65)
  }

  predicate IsToKeyID(s: seq<Byte>) {
    |s| == 25 && s[0] == OP_DUP && s[1] == OP_HASH160 && s[2] == 20 && s[23] == OP_EQUALVERIFY && s[24] == OP_CHECKSIG
  }

  predicate IsToScriptID(s: seq<Byte>) {
    |s| == 23 && s[0] == OP_HASH160 && s[1] == 20 && s[22] == OP_EQUAL
  }

  predicate IsToShortKey(s: seq<Byte>) {
    |s| == 35 && s[0] == 33 && s[34] == OP_CHECKSIG && (s[1] == 2 || s[1] == 3)
  }

  predicate IsToLongKey(K: Keys, s: seq<Byte>) {
    |s| == 67 && s[0] == 65 && s[66] == OP_CHECKSIG && s[1] == 4 && K.isFullyValid(s[1..66])
  }

  /** `CScriptCompressor::Compress`: the kind of script and what is variable in it. */
  function CompressScript(K: Keys, s: seq<Byte>): Option<seq<Byte>> {
    if IsToKeyID(s) then Some([0] + s[3..23])
    else if IsToScriptID(s) then Some([1] + s[2..22])
    else if IsToShortKey(s) then Some([s[1]] + s[2..34])
    else if IsToLongKey(K, s) then Some([4 + s[65] % 2] + s[2..34])
    else None
  }

  function SpecialSize(nSize: nat): nat {
    if nSize <= 1 then 20 else if nSize <= 5 then 32 else 0
  }

  /** `CScriptCompressor::Decompress`; the script stays empty if the key does not decompress. */
  function DecompressScript(K: Keys, nSize: nat, v: seq<Byte>): seq<Byte>
    requires nSize < SPECIAL_SCRIPTS && |v| == SpecialSize(nSize)
  {
    if nSize == 0 then [OP_DUP, OP_HASH160, 20] + v + [OP_EQUALVERIFY, OP_CHECKSIG]
    else if nSize == 1 then [OP_HASH160, 20] + v + [OP_EQUAL]
    else if nSize <= 3 then [33, nSize] + v + [OP_CHECKSIG]
    else
      match K.decompress([nSize - 2] + v)
      case Some(key) => [65] + key + [OP_CHECKSIG]
      case None => []
  }

  function WriteScript(K: Keys, s: seq<Byte>): seq<Byte> {
    match CompressScript(K, s)
    case Some(compr) => compr
    case None => WriteVar((|s| + SPECIAL_SCRIPTS) % U32) + s
  }

  /** The special scripts take 21 and 33 bytes, and every other one its length and as many bytes as that takes. */
  lemma ScriptSizes(K: Keys, s: seq<Byte>)
    ensures IsToKeyID(s) || IsToScriptID(s) ==> |WriteScript(K, s)| == 21
    ensures IsToShortKey(s) || IsToLongKey(K, s) ==> |WriteScript(K, s)| == 33
    ensures |s| < 122 && CompressScript(K, s).None? ==> |WriteScript(K, s)| == |s| + 1
    ensures 122 <= |s| < 16506 && CompressScript(K, s).None? ==> |WriteScript(K, s)| == |s| + 2
  {
    hide WriteVar;
    VarSizes((|s| + SPECIAL_SCRIPTS) % U32);
  }

  function ReadBytes(n: nat, s: seq<Byte>): Read<seq<Byte>> {
    if |s| < n then Fail else Got(s[..n], s[n..])
  }

  function ReadScript(K: Keys, s: seq<Byte>): Read<seq<Byte>> {
    match ReadVarInto(U32, s)
    case Fail => Fail
    case Got(nSize, rest) =>
      if nSize < SPECIAL_SCRIPTS then
        match ReadBytes(SpecialSize(nSize), rest)
        case Fail => Fail
        case Got(v, rest') => Got(DecompressScript(K, nSize, v), rest')
      else
        ReadBytes(nSize - SPECIAL_SCRIPTS, rest)
  }

  lemma ReadBytesBack(v: seq<Byte>, t: seq<Byte>)
    ensures ReadBytes(|v|, v + t) == Got(v, t)
  {
    assert (v + t)[..|v|] == v && (v + t)[|v|..] == t;
  }

  /** A special script is told apart by its first byte, which is also a one-byte integer. */
  lemma ReadSpecial(K: Keys, kind: nat, v: seq<Byte>, t: seq<Byte>)
    requires kind < SPECIAL_SCRIPTS && |v| == SpecialSize(kind)
    ensures ReadScript(K, [kind] + v + t) == Got(DecompressScript(K, kind, v), t)
  {
    hide ReadVarFrom, DecompressScript;
    assert [kind] + v + t == [kind] + (v + t);
    ReadLast(0, kind, v + t);
    ReadBytesBack(v, t);
  }

  /** A script is recovered exactly if its length, with the special scripts counted, fits in 32 bits. */
  lemma ScriptRoundTrip(K: Keys, s: seq<Byte>, t: seq<Byte>)
    requires KeyLaw(K)
    ensures ReadScript(K, WriteScript(K, s) + t) == Got(s, t) <==> |s| + SPECIAL_SCRIPTS < U32
  {
    hide ReadScript, KeyLaw;
    if IsToKeyID(s) {
      ReadSpecial(K, 0, s[3..23], t);
      assert [OP_DUP, OP_HASH160, 20] + s[3..23] + [OP_EQUALVERIFY, OP_CHECKSIG] == s;
    } else if IsToScriptID(s) {
      ReadSpecial(K, 1, s[2..22], t);
      assert [OP_HASH160, 20] + s[2..22] + [OP_EQUAL] == s;
    } else if IsToShortKey(s) {
      ReadSpecial(K, s[1], s[2..34], t);
      assert [33, s[1]] + s[2..34] + [OP_CHECKSIG] == s;
    } else if IsToLongKey(K, s) {
      LongKeyBack(K, s);
      ReadSpecial(K, 4 + s[65] % 2, s[2..34], t);
    } else if |s| + SPECIAL_SCRIPTS < U32 {
      PlainScript(K, s, t);
    } else {
      TooLong(K, WriteVar((|s| + SPECIAL_SCRIPTS) % U32) + s + t);
    }
  }

  /** Nothing that is read is as long as that. */
  lemma TooLong(K: Keys, s: seq<Byte>)
    requires KeyLaw(K)
    ensures ReadScript(K, s).Got? ==> |ReadScript(K, s).value| + SPECIAL_SCRIPTS < U32
  {
    hide ReadVar;
  }

  lemma LongKeyBack(K: Keys, s: seq<Byte>)
    requires KeyLaw(K) && IsToLongKey(K, s)
    ensures DecompressScript(K, 4 + s[65] % 2, s[2..34]) == s
  {
    var k := s[1..66];
    assert k[1..33] == s[2..34] && k[64] == s[65];
    assert |k| == 65 && k[0] == 4 && K.isFullyValid(k);
    assert K.decompress([2 + k[64] % 2] + k[1..33]) == Some(k);
    assert [65] + k + [OP_CHECKSIG] == s;
  }

  lemma PlainScript(K: Keys, s: seq<Byte>, t: seq<Byte>)
    requires |s| + SPECIAL_SCRIPTS < U32
    ensures ReadScript(K, WriteVar(|s| + SPECIAL_SCRIPTS) + s + t) == Got(s, t)
  {
    hide ReadVar, WriteVar;
    assert WriteVar(|s| + SPECIAL_SCRIPTS) + s + t == WriteVar(|s| + SPECIAL_SCRIPTS) + (s + t);
    ReadWriteInto(U32, |s| + SPECIAL_SCRIPTS, s + t);
    ReadBytesBack(s, t);
  }

  // ---------------------------------------------------------------------------
  // Outputs
  // ---------------------------------------------------------------------------

  function WriteOut(K: Keys, out: TxOut): seq<Byte>
    requires out.nValue >= 0
  {
    WriteVar(Compress64(out.nValue)) + WriteScript(K, out.script)
  }

  /** A number of 64 bits as a signed one. */
  function Signed64(n: nat): int {
    if n < U64 / 2 then n else n - U64
  }

  function ReadOut(K: Keys, s: seq<Byte>): Read<TxOut> {
    match ReadVarInto(U64, s)
    case Fail => Fail
    case Got(nVal, rest) =>
      match ReadScript(K, rest)
      case Fail => Fail
      case Got(script, rest') => Got(TxOut(Signed64(Decompress64(nVal)), script), rest')
  }

  /** The amount is one of the type, its compressed form has no more than 64 bits, and the script's length fits in 32. */
  predicate OutFits(out: TxOut) {
    0 <= out.nValue < U64 / 2 && CompressAmount(out.nValue) < U64 && |out.script| + SPECIAL_SCRIPTS < U32
  }

  lemma OutRoundTrip(K: Keys, out: TxOut, t: seq<Byte>)
    requires KeyLaw(K) && OutFits(out)
    ensures ReadOut(K, WriteOut(K, out) + t) == Got(out, t)
  {
    hide ReadVar, WriteVar, ReadScript, WriteScript, CompressAmount, DecompressAmount, KeyLaw;
    var n := Compress64(out.nValue);
    assert WriteOut(K, out) + t == WriteVar(n) + (WriteScript(K, out.script) + t);
    ReadWriteInto(U64, n, WriteScript(K, out.script) + t);
    ScriptRoundTrip(K, out.script, t);
    AmountRoundTrip64(out.nValue);
  }

  /** Every output with money and a script of a transaction fits. */
  lemma MoneyFits(out: TxOut)
    requires MoneyRange(out.nValue) && |out.script| <= MAX_BLOCK_SIZE
    ensures OutFits(out)
  {
    AmountFits(out.nValue);
  }
}
