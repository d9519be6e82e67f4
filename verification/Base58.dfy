/**
  Base58 and Base58Check of base58.cpp: in-place conversion between base 256 and
  base 58, with leading zero bytes written as leading '1's.
 */
module Base58 {
  import opened Arithmetic
  import Coins
  import opened Numerals
  import opened Options

  // ---------------------------------------------------------------------------
  // The alphabet
  // ---------------------------------------------------------------------------

  function Letters(first: char, last: char): string
    requires first <= last <= 'z'
  {
    seq((last as int) - (first as int) + 1, i requires 0 <= i <= (last as int) - (first as int) => (first as int + i) as char)
  }

  /** All digits and letters except "0", "I", "O" and "l". */
  const ALPHABET: string :=
    Letters('1', '9') + Letters('A', 'H') + Letters('J', 'N') + Letters('P', 'Z') + Letters('a', 'k') + Letters('m', 'z')

  lemma AlphabetAscends()
    ensures |ALPHABET| == 58 && ALPHABET[0] == '1'
    ensures forall i, j :: 0 <= i < j < 58 ==> ALPHABET[i] < ALPHABET[j]
    ensures forall i :: 0 <= i < 58 ==> !IsSpace(ALPHABET[i])
  {
  }

  predicate IsSpace(c: char) {
    c == ' ' || ('\t' <= c <= '\r')
  }

  /** `strchr` on the alphabet. */
  function IndexOf(c: char): (r: int)
    ensures -1 <= r < |ALPHABET|
    ensures r == -1 <==> c !in ALPHABET
    ensures r >= 0 ==> ALPHABET[r] == c
  {
    FindFrom(c, 0)
  }

  function FindFrom(c: char, i: nat): (r: int)
    requires i <= |ALPHABET| && c !in ALPHABET[..i]
    ensures -1 <= r < |ALPHABET|
    ensures r == -1 <==> c !in ALPHABET
    ensures r >= 0 ==> ALPHABET[r] == c
    decreases |ALPHABET| - i
  {
    if i == |ALPHABET| then -1
    else if ALPHABET[i] == c then i
    else FindFrom(c, i + 1)
  }

  predicate Spelled(s: string) {
    forall i :: 0 <= i < |s| ==> s[i] in ALPHABET
  }

  function Indices(s: string): (d: seq<nat>)
    requires Spelled(s)
    ensures |d| == |s| && Digits(d, 58)
  {
    AlphabetAscends();
    seq(|s|, i requires 0 <= i < |s| => IndexOf(s[i]))
  }

  function Spell(d: seq<nat>): (s: string)
    requires Digits(d, 58)
    ensures |s| == |d| && Spelled(s)
  {
    AlphabetAscends();
    seq(|d|, i requires 0 <= i < |d| => ALPHABET[d[i]])
  }

  lemma SpellIndices(s: string)
    requires Spelled(s)
    ensures Spell(Indices(s)) == s
  {
  }

  lemma IndicesSpell(d: seq<nat>)
    requires Digits(d, 58)
    ensures Indices(Spell(d)) == d
  {
    AlphabetAscends();
    forall i | 0 <= i < |d|
      ensures IndexOf(ALPHABET[d[i]]) == d[i]
    {
      var j := IndexOf(ALPHABET[d[i]]);
      assert ALPHABET[j] == ALPHABET[d[i]];
    }
  }

  // ---------------------------------------------------------------------------
  // What the conversions compute
  // ---------------------------------------------------------------------------

  function Repeat<T>(x: T, n: nat): (s: seq<T>)
    ensures |s| == n && forall i :: 0 <= i < n ==> s[i] == x
  {
    seq(n, _ => x)
  }

  /** The same number in another base, with the same number of leading zeros. */
  function Convert(d: seq<nat>, from: nat, to: nat): seq<nat>
    requires to > 1
  {
    Repeat(0, Zeros(d)) + Shortest(Number(d, from), to)
  }

  lemma ConvertIs(d: seq<nat>, from: nat, to: nat)
    requires to > 1
    ensures Digits(Convert(d, from, to), to)
    ensures Zeros(Convert(d, from, to)) == Zeros(d) && Number(Convert(d, from, to), to) == Number(d, from)
  {
    var z, s := Zeros(d), Shortest(Number(d, from), to);
    var c := Repeat(0, z) + s;
    ShortestIs(Number(d, from), to);
    ZerosUnique(c, z);
    LeadingZeros(c, z, to);
    assert c[z..] == s;
  }

  /** Converting there and back gives the same numeral. */
  lemma ConvertInverts(d: seq<nat>, from: nat, to: nat)
    requires from > 1 && to > 1 && Digits(d, from)
    ensures Convert(Convert(d, from, to), to, from) == d
  {
    ConvertIs(d, from, to);
    StripIsShortest(d, from);
    assert Repeat(0, Zeros(d)) == d[..Zeros(d)];
  }

  function Encode(b: seq<Coins.Byte>): string {
    ConvertIs(b, 256, 58);
    Spell(Convert(b, 256, 58))
  }

  /** The characters before the first space. */
  function Word(s: string): (w: string)
    ensures w <= s && (forall i :: 0 <= i < |w| ==> !IsSpace(w[i])) && (|w| < |s| ==> IsSpace(s[|w|]))
  {
    if s == "" || IsSpace(s[0]) then "" else [s[0]] + Word(s[1..])
  }

  function SkipSpaces(s: string): (t: string)
    ensures |t| <= |s| && s[|s| - |t|..] == t && (t != "" ==> !IsSpace(t[0]))
  {
    if s != "" && IsSpace(s[0]) then SkipSpaces(s[1..]) else s
  }

  /** One word of the alphabet, with spaces around it. */
  predicate Accepted(s: string) {
    var t := SkipSpaces(s);
    Spelled(Word(t)) && SkipSpaces(t[|Word(t)|..]) == ""
  }

  function Decode(s: string): Option<seq<nat>> {
    if Accepted(s) then Some(Convert(Indices(Word(SkipSpaces(s))), 58, 256)) else None
  }

  // ---------------------------------------------------------------------------
  // Round trips
  // ---------------------------------------------------------------------------

  lemma {:induction false} OneWord(s: string)
    requires forall i :: 0 <= i < |s| ==> !IsSpace(s[i])
    ensures Word(s) == s && SkipSpaces(s) == s
  {
    if s != "" {
      OneWord(s[1..]);
    }
  }

  lemma SpelledIsWord(s: string)
    requires Spelled(s)
    ensures Word(s) == s && SkipSpaces(s) == s
  {
    AlphabetAscends();
    forall i | 0 <= i < |s|
      ensures !IsSpace(s[i])
    {
      var j := IndexOf(s[i]);
    }
    OneWord(s);
  }

  /** Every byte string is recovered from its encoding. */
  lemma DecodeEncode(b: seq<Coins.Byte>)
    ensures Decode(Encode(b)) == Some(b)
  {
    hide Word, SkipSpaces, Convert;
    ConvertIs(b, 256, 58);
    var d := Convert(b, 256, 58);
    SpelledIsWord(Spell(d));
    assert Spell(d)[|Spell(d)|..] == "";
    SpelledIsWord("");
    IndicesSpell(d);
    ConvertInverts(b, 256, 58);
  }

  lemma DecodedBytes(s: string)
    requires Decode(s).Some?
    ensures Digits(Decode(s).value, 256)
  {
    ConvertIs(Indices(Word(SkipSpaces(s))), 58, 256);
  }

  /** Every accepted string is, up to the spaces around it, the encoding of what it decodes to. */
  lemma EncodeDecode(s: string)
    requires Decode(s).Some?
    ensures Digits(Decode(s).value, 256) && Encode(Decode(s).value) == Word(SkipSpaces(s))
  {
    hide Word, SkipSpaces, Convert, Spell, Indices;
    DecodedBytes(s);
    var d := Indices(Word(SkipSpaces(s)));
    ConvertInverts(d, 58, 256);
    SpellIndices(Word(SkipSpaces(s)));
  }

  lemma EncodeDecodeWord(s: string)
    requires Decode(s).Some? && forall i :: 0 <= i < |s| ==> !IsSpace(s[i])
    ensures Digits(Decode(s).value, 256) && Encode(Decode(s).value) == s
  {
    hide Word, SkipSpaces, Decode, Encode;
    EncodeDecode(s);
    OneWord(s);
  }

  // ---------------------------------------------------------------------------
  // The buffers are large enough
  // ---------------------------------------------------------------------------

  /** 256^8 is at most 58^11. */
  lemma EncodeRatio()
    ensures Pow(256, 8) <= Pow(58, 11)
  {
    assert Pow(256, 2) == 0x1_0000 && Pow(58, 2) == 3364;
    PowAdd(256, 2, 2);
    PowAdd(256, 4, 4);
    PowAdd(58, 2, 2);
    PowAdd(58, 4, 4);
    PowAdd(58, 8, 2);
    PowNext(58, 10);
  }

  lemma Times(base: nat, m: nat, n: nat, x: nat, y: nat)
    requires Pow(base, m) == x && Pow(base, n) == y
    ensures Pow(base, m + n) == x * y
  {
    PowAdd(base, m, n);
  }

  lemma Small()
    ensures Pow(256, 2) == 0x1_0000 && Pow(58, 2) == 3364 && Pow(58, 3) == 195112
  {
    assert Pow(256, 1) == 256 && Pow(58, 1) == 58;
  }

  lemma Pow58()
    ensures Pow(58, 71) ==
      72342179355466901471258927612150153907721848234316445933056526044582001260898145151856420451025374266490194231296 * 2207984167552
  {
    hide Pow;
    Small();
    Times(58, 2, 2, 3364, 3364);
    Times(58, 4, 3, 11316496, 195112);
    Times(58, 4, 4, 11316496, 11316496);
    Times(58, 8, 8, 128063081718016, 128063081718016);
    Times(58, 16, 16, 16400152899115243850138976256, 16400152899115243850138976256);
    Times(58, 32, 32, 268965015114358137726910587140455987105619365599731777536, 268965015114358137726910587140455987105619365599731777536);
    Times(58, 64, 7, 72342179355466901471258927612150153907721848234316445933056526044582001260898145151856420451025374266490194231296, 2207984167552);
  }

  lemma Pow256()
    ensures Pow(256, 52) ==
      0x1_00000000_00000000_00000000_00000000_00000000_00000000_00000000_00000000_00000000_00000000_00000000_00000000_00000000
  {
    hide Pow;
    Small();
    Times(256, 2, 2, 0x1_0000, 0x1_0000);
    Times(256, 4, 4, 0x1_00000000, 0x1_00000000);
    Times(256, 8, 8, 0x1_00000000_00000000, 0x1_00000000_00000000);
    Times(256, 16, 4, 0x1_00000000_00000000_00000000_00000000, 0x1_00000000);
    Times(256, 16, 16, 0x1_00000000_00000000_00000000_00000000, 0x1_00000000_00000000_00000000_00000000);
    Times(256, 32, 20, 0x1_00000000_00000000_00000000_00000000_00000000_00000000_00000000_00000000, 0x1_00000000_00000000_00000000_00000000_00000000);
  }

  /** 58^71 is at most 256^52. */
  lemma DecodeRatio()
    ensures Pow(58, 71) <= Pow(256, 52)
  {
    hide Pow;
    Pow58();
    Pow256();
  }

  function EncodeSize(n: nat): nat {
    n * 138 / 100 + 1
  }

  function DecodeSize(n: nat): nat {
    n * 733 / 1000 + 1
  }

  lemma EncodeRoom(n: nat)
    ensures Pow(256, n) <= Pow(58, EncodeSize(n))
  {
    hide Pow;
    EncodeRatio();
    LengthSuffices(256, 58, 8, 11, n, EncodeSize(n));
  }

  lemma DecodeRoom(n: nat)
    ensures Pow(58, n) <= Pow(256, DecodeSize(n))
  {
    hide Pow;
    DecodeRatio();
    LengthSuffices(58, 256, 71, 52, n, DecodeSize(n));
  }

  /** The buffer is sized by the whole string, of which the digits are a part. */
  lemma DecodeRoomFor(n: nat, m: nat)
    requires n <= m
    ensures Pow(58, n) <= Pow(256, DecodeSize(m))
  {
    hide Pow;
    DecodeRoom(n);
    PowMonoExp(256, DecodeSize(n), DecodeSize(m));
  }

  // ---------------------------------------------------------------------------
  // The methods
  // ---------------------------------------------------------------------------

  /** If the whole numeral fits in the buffer, nothing is carried out of it. */
  lemma NoCarry(carry: nat, n: nat, room: nat, total: nat)
    requires carry * room + n == total < room
    ensures carry == 0
  {
    MulFarFromZero(room, carry);
  }

  /** One more digit, and what room that needs. */
  lemma NextDigit(d: seq<nat>, from: nat, i: nat, base: nat, room: nat)
    requires from > 0 && base > 0 && Digits(d, from) && i < |d| && Pow(from, |d|) <= Pow(base, room)
    ensures Number(d[..i], from) * from + d[i] == Number(d[..i + 1], from) < Pow(base, room)
  {
    hide Pow;
    assert d[..i + 1] == d[..i] + [d[i]];
    NumberLast(d[..i], d[i], from);
    NumberBound(d[..i + 1], from);
    PowMonoExp(from, i + 1, |d|);
  }

  /** The conversion loop of encoding, with a buffer that is large enough. */
  method ConvertLoop(d: seq<nat>, from: nat, to: nat, size: nat) returns (buffer: array<nat>)
    requires from > 0 && to > 1 && Digits(d, from) && Pow(from, |d|) <= Pow(to, size)
    ensures fresh(buffer) && buffer.Length == size && Digits(buffer[..], to) && Number(buffer[..], to) == Number(d, from)
  {
    hide Pow, Number;
    buffer := new nat[size](_ => 0);
    ZeroBuffer(buffer[..], to);
    assert d[..0] == [];
    Empty(from);
    for i := 0 to |d|
      invariant fresh(buffer) && buffer.Length == size && Digits(buffer[..], to)
      invariant Number(buffer[..], to) == Number(d[..i], from)
    {
      NextDigit(d, from, i, to, size);
      var carry := MulAdd(buffer, to, from, d[i]);
      NoCarry(carry, Number(buffer[..], to), Pow(to, size), Number(d[..i + 1], from));
      assert carry == 0;
    }
    assert d[..|d|] == d;
  }

  lemma ZeroBuffer(s: seq<nat>, base: nat)
    requires forall i :: 0 <= i < |s| ==> s[i] == 0
    ensures Number(s, base) == 0
  {
    LeadingZeros(s, |s|, base);
    assert s[|s|..] == [];
  }

  /** Skip zeros and count them. */
  method CountZeros(s: seq<nat>) returns (z: nat)
    ensures z == Zeros(s)
  {
    z := 0;
    while z < |s| && s[z] == 0
      invariant z <= |s| && forall i :: 0 <= i < z ==> s[i] == 0
    {
      z := z + 1;
    }
    ZerosUnique(s, z);
  }

  /** A buffer with the right number in it, stripped, and with the zeros in front, is the converted numeral. */
  lemma Stripped(d: seq<nat>, zeroes: nat, buffer: seq<nat>, from: nat, to: nat)
    requires to > 1 && zeroes == Zeros(d) && Digits(buffer, to) && Number(buffer, to) == Number(d[zeroes..], from)
    ensures Repeat(0, zeroes) + buffer[Zeros(buffer)..] == Convert(d, from, to)
  {
    hide Number, Shortest, Zeros;
    LeadingZeros(d, zeroes, from);
    StripIsShortest(buffer, to);
  }

  /** Skip leading zeros of the buffer and copy the rest behind those counted. */
  method CopyResult(buffer: array<nat>, zeroes: nat, ghost d: seq<nat>, ghost from: nat, ghost to: nat) returns (r: seq<nat>)
    requires to > 1 && zeroes == Zeros(d) && Digits(buffer[..], to) && Number(buffer[..], to) == Number(d[zeroes..], from)
    ensures r == Convert(d, from, to)
  {
    hide Convert, Zeros, Number;
    var skip := CountZeros(buffer[..]);
    assert buffer[..][skip..] == buffer[skip..];
    Stripped(d, zeroes, buffer[..], from, to);
    r := Repeat(0, zeroes) + buffer[skip..];
  }

  method EncodeBase58(b: seq<Coins.Byte>) returns (str: string)
    ensures str == Encode(b)
  {
    hide Pow, Number, Zeros, Convert;
    var zeroes := CountZeros(b);
    EncodeRoom(|b| - zeroes);
    var buffer := ConvertLoop(b[zeroes..], 256, 58, EncodeSize(|b| - zeroes));
    var b58 := CopyResult(buffer, zeroes, b, 256, 58);
    ConvertIs(b, 256, 58);
    str := Spell(b58);
  }

  predicate LeadingOnes(s: string, z: nat) {
    z <= |s| && (forall i :: 0 <= i < z ==> s[i] == '1') && (z < |s| ==> s[z] != '1')
  }

  /** Skip and count leading '1's. */
  method CountOnes(s: string) returns (z: nat)
    ensures LeadingOnes(s, z)
  {
    z := 0;
    while z < |s| && s[z] == '1'
      invariant z <= |s| && forall i :: 0 <= i < z ==> s[i] == '1'
    {
      z := z + 1;
    }
  }

  /** Only '1' stands for zero. */
  lemma OneIsZero(c: char)
    ensures IndexOf(c) == 0 <==> c == '1'
  {
    AlphabetAscends();
    if c == '1' {
      assert ALPHABET[IndexOf(c)] == ALPHABET[0];
    }
  }

  lemma WordStep(s: string)
    requires s != "" && !IsSpace(s[0])
    ensures Word(s) == [s[0]] + Word(s[1..])
  {
  }

  /** The word starts with the '1's, which are its leading zeros. */
  lemma {:induction false} WordAfterOnes(s: string, z: nat)
    requires z <= |s| && (forall i :: 0 <= i < z ==> s[i] == '1')
    ensures Word(s) == s[..z] + Word(s[z..])
  {
    hide Word;
    if z == 0 {
      assert s[z..] == s && s[..z] == "";
    } else {
      WordStep(s);
      WordAfterOnes(s[1..], z - 1);
      assert s[1..][z - 1..] == s[z..] && s[..z] == [s[0]] + s[1..][..z - 1];
    }
  }

  lemma ZerosAreOnes(s: string, z: nat)
    requires LeadingOnes(s, z)
    ensures z <= |s| && s[|Word(s)|..] == s[z..][|Word(s[z..])|..]
    ensures Spelled(Word(s)) <==> Spelled(Word(s[z..]))
    ensures Spelled(Word(s)) ==> Zeros(Indices(Word(s))) == z && Indices(Word(s))[z..] == Indices(Word(s[z..]))
  {
    hide Word, IndexOf, Zeros;
    WordAfterOnes(s, z);
    OneIsZero('1');
    var w, t := Word(s), Word(s[z..]);
    assert forall i :: z <= i < |w| ==> w[i] == t[i - z];
    assert forall i :: 0 <= i < |t| ==> t[i] == w[i + z];
    if Spelled(w) {
      if z < |w| {
        OneIsZero(w[z]);
      }
      ZerosUnique(Indices(w), z);
      assert Indices(w)[z..] == Indices(t);
    }
  }

  lemma IndicesNext(w: string, i: nat)
    requires i < |w| && Spelled(w[..i]) && w[i] in ALPHABET
    ensures Spelled(w[..i + 1]) && Indices(w[..i + 1]) == Indices(w[..i]) + [IndexOf(w[i])]
  {
    hide IndexOf;
    var d, e := Indices(w[..i + 1]), Indices(w[..i]);
    assert d[i] == IndexOf(w[i]);
    assert d[..i] == e;
    assert d == d[..i] + [d[i]];
  }

  /** "b256 = b256 * 58 + ch", with room for the digits of the whole string: nothing is carried out. */
  method PushDigit(b256: array<nat>, ghost d: seq<nat>, ghost length: nat, ch: nat)
    requires Digits(d, 58) && ch < 58 && |d| < length && b256.Length == DecodeSize(length)
    requires Digits(b256[..], 256) && Number(b256[..], 256) == Number(d, 58)
    modifies b256
    ensures Digits(b256[..], 256) && Number(b256[..], 256) == Number(d + [ch], 58)
  {
    hide Pow, Number, DecodeSize;
    ghost var next := d + [ch];
    DecodeRoomFor(|next|, length);
    NextDigit(next, 58, |d|, 256, b256.Length);
    assert next[..|d|] == d && next[..|next|] == next;
    var carry := MulAdd(b256, 256, 58, ch);
    NoCarry(carry, Number(b256[..], 256), Pow(256, b256.Length), Number(next, 58));
    assert carry == 0;
  }

  /**
    The loop over the characters, up to the first space: the buffer is sized by
    the string, and whatever the string is, also one that is rejected at a later
    character, nothing is ever carried out of the buffer.
   */
  method DecodeLoop(s: string) returns (ok: bool, b256: array<nat>, rest: string)
    ensures fresh(b256) && (ok <==> Spelled(Word(s)))
    ensures ok ==> Digits(b256[..], 256) && Number(b256[..], 256) == Number(Indices(Word(s)), 58) && rest == s[|Word(s)|..]
  {
    hide Word, Number, DecodeSize, Indices, IndexOf, Spelled;
    b256 := new nat[DecodeSize(|s|)](_ => 0);
    StartDigits(Word(s), b256[..]);
    rest := s;
    while rest != "" && !IsSpace(rest[0])
      invariant fresh(b256) && b256.Length == DecodeSize(|s|)
      invariant |rest| <= |s| && rest == s[|s| - |rest|..] && |s| - |rest| <= |Word(s)| && Spelled(Word(s)[..|s| - |rest|])
      invariant Digits(b256[..], 256) && Number(b256[..], 256) == Number(Indices(Word(s)[..|s| - |rest|]), 58)
      decreases |rest|
    {
      ghost var i := |s| - |rest|;
      assert i < |Word(s)| && Word(s)[i] == rest[0];
      var ch := IndexOf(rest[0]);
      if ch == -1 {
        NotSpelled(Word(s), i);
        return false, b256, rest;
      }
      IndicesNext(Word(s), i);
      PushDigit(b256, Indices(Word(s)[..i]), |s|, ch);
      rest := rest[1..];
    }
    assert Word(s)[..|s| - |rest|] == Word(s);
    ok := true;
  }

  lemma StartDigits(w: string, s: seq<nat>)
    requires forall i :: 0 <= i < |s| ==> s[i] == 0
    ensures Spelled(w[..0]) && Digits(s, 256) && Number(s, 256) == Number(Indices(w[..0]), 58)
  {
    hide Number;
    ZeroBuffer(s, 256);
    assert Indices(w[..0]) == [];
    Empty(58);
  }

  lemma NotSpelled(w: string, i: nat)
    requires i < |w| && w[i] !in ALPHABET
    ensures !Spelled(w)
  {
  }

  method DecodeBase58(psz: string) returns (r: Option<seq<nat>>)
    ensures r == Decode(psz)
  {
    hide Convert, Decode, Indices, Word, SkipSpaces, Spelled, Number, Zeros, Shortest, LeadingOnes;
    DecodeCases(psz);
    var s := SkipSpaces(psz);
    var zeroes := CountOnes(s);
    ZerosAreOnes(s, zeroes);
    var ok, b256, rest := DecodeLoop(s[zeroes..]);
    if !ok {
      return None;
    }
    rest := SkipSpaces(rest);
    if rest != "" {
      return None;
    }
    var vch := CopyResult(b256, zeroes, Indices(Word(s)), 58, 256);
    r := Some(vch);
  }

  lemma DecodeCases(psz: string)
    ensures
      var s := SkipSpaces(psz);
      Decode(psz) ==
        if Spelled(Word(s)) && SkipSpaces(s[|Word(s)|..]) == "" then Some(Convert(Indices(Word(s)), 58, 256)) else None
  {
    hide Word, SkipSpaces, Indices, Convert;
  }

  // ---------------------------------------------------------------------------
  // With a checksum
  // ---------------------------------------------------------------------------

  /** A hash of byte strings, of which the first four bytes are used. */
  ghost predicate IsHash(Hash: seq<nat> -> seq<nat>) {
    forall x :: |Hash(x)| == 32 && Digits(Hash(x), 256)
  }

  function EncodeCheck(Hash: seq<nat> -> seq<nat>, b: seq<Coins.Byte>): string
    requires |Hash(b)| == 32 && Digits(Hash(b), 256)
  {
    Encode(b + Hash(b)[..4])
  }

  /** Take the checksum off, if it is right. */
  function Unchecked(Hash: seq<nat> -> seq<nat>, v: seq<nat>): Option<seq<nat>>
    requires IsHash(Hash)
  {
    if |v| < 4 then None
    else
      var n := |v| - 4;
      if Hash(v[..n])[..4] == v[n..] then Some(v[..n]) else None
  }

  function DecodeCheck(Hash: seq<nat> -> seq<nat>, s: string): Option<seq<nat>>
    requires IsHash(Hash)
  {
    match Decode(s)
    case None => None
    case Some(v) => Unchecked(Hash, v)
  }

  /** Every byte string is recovered from its encoding. */
  lemma CheckRoundTrip(Hash: seq<nat> -> seq<nat>, b: seq<Coins.Byte>)
    requires IsHash(Hash)
    ensures DecodeCheck(Hash, EncodeCheck(Hash, b)) == Some(b)
  {
    hide Decode, Encode;
    var v: seq<Coins.Byte> := b + Hash(b)[..4];
    DecodeEncode(v);
    assert v[..|b|] == b && v[|b|..] == Hash(b)[..4];
  }

  /** Whatever is accepted is, up to spaces, the encoding of what it decodes to. */
  lemma CheckAccepts(Hash: seq<nat> -> seq<nat>, s: string)
    requires IsHash(Hash) && DecodeCheck(Hash, s).Some?
    ensures Digits(DecodeCheck(Hash, s).value, 256) && EncodeCheck(Hash, DecodeCheck(Hash, s).value) == Word(SkipSpaces(s))
  {
    hide Decode, Encode, Word, SkipSpaces;
    EncodeDecode(s);
    var v := Decode(s).value;
    var n := |v| - 4;
    assert v == v[..n] + v[n..];
  }
}
