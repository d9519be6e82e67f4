/**
  Partial Merkle trees of merkleblock.h and merkleblock.cpp (BIP 37, section
  "Partial Merkle branch format"): a block's txids are reduced to the hashes and
  flag bits needed to prove that some of them are in the block.
 */
module PartialMerkle {
  import opened Arithmetic
  import Coins
  import opened Sequences

  /** A 256-bit digest; zero is the null digest that stands for failure. */
  type Digest = nat

  const NULL: Digest := 0

  /** The double hash of two concatenated digests. */
  type Combine = (Digest, Digest) -> Digest

  ghost predicate Injective(H: Combine) {
    forall a, b, c, d {:trigger H(a, b), H(c, d)} :: H(a, b) == H(c, d) ==> a == c && b == d
  }

  // ---------------------------------------------------------------------------
  // The shape of the tree
  // ---------------------------------------------------------------------------

  /** `CalcTreeWidth`: the number of nodes at a height. */
  function Width(n: nat, h: nat): int {
    (n + Pow2(h) - 1) / Pow2(h)
  }

  /** A node exists exactly when its first leaf does. */
  lemma NodeExists(n: nat, h: nat, pos: nat)
    ensures pos < Width(n, h) <==> pos * Pow2(h) < n
  {
    var p := Pow2(h);
    var w := Width(n, h);
    DivBounds(n + p - 1, p);
    MulMono(pos, w, p);
    assert p * w == w * p;
  }

  lemma ChildLeaf(h: nat, pos: nat)
    requires h > 0
    ensures (2 * pos) * Pow2(h - 1) == pos * Pow2(h)
    ensures (2 * pos + 1) * Pow2(h - 1) == pos * Pow2(h) + Pow2(h - 1)
    ensures (pos + 1) * Pow2(h) == pos * Pow2(h) + Pow2(h)
  {
  }

  /** The left child of a node exists; the right one may not. */
  lemma LeftChild(n: nat, h: nat, pos: nat)
    requires h > 0 && pos < Width(n, h)
    ensures 2 * pos < Width(n, h - 1)
  {
    NodeExists(n, h, pos);
    NodeExists(n, h - 1, 2 * pos);
    ChildLeaf(h, pos);
  }

  /** `CalcHash`: the digest of a node, the left child doing duty for a missing right one. */
  function CalcHash(H: Combine, txids: seq<Digest>, h: nat, pos: nat): Digest
    requires pos < Width(|txids|, h)
    decreases h
  {
    if h == 0 then
      NodeExists(|txids|, 0, pos);
      txids[pos]
    else
      LeftChild(|txids|, h, pos);
      var left := CalcHash(H, txids, h - 1, 2 * pos);
      var right := if 2 * pos + 1 < Width(|txids|, h - 1) then CalcHash(H, txids, h - 1, 2 * pos + 1) else left;
      H(left, right)
  }

  /** The first leaf below a node. */
  function LeafStart(h: nat, pos: nat): nat {
    pos * Pow2(h)
  }

  /** One past the last leaf below a node. */
  function LeafEnd(n: nat, h: nat, pos: nat): (r: nat)
    ensures r <= n
  {
    if (pos + 1) * Pow2(h) < n then (pos + 1) * Pow2(h) else n
  }

  /** The leaves of a node are those of its children. */
  lemma ChildLeaves(n: nat, h: nat, pos: nat)
    requires h > 0 && pos < Width(n, h)
    ensures LeafStart(h - 1, 2 * pos) == LeafStart(h, pos) < LeafEnd(n, h, pos) <= n
    ensures 2 * pos + 1 < Width(n, h - 1) ==> LeafEnd(n, h - 1, 2 * pos) == LeafStart(h - 1, 2 * pos + 1)
    ensures 2 * pos + 1 < Width(n, h - 1) ==> LeafStart(h, pos) < LeafStart(h - 1, 2 * pos + 1) < LeafEnd(n, h, pos)
    ensures 2 * pos + 1 < Width(n, h - 1) ==> LeafEnd(n, h - 1, 2 * pos + 1) == LeafEnd(n, h, pos)
    ensures 2 * pos + 1 >= Width(n, h - 1) ==> LeafEnd(n, h - 1, 2 * pos) == LeafEnd(n, h, pos) == n
  {
    NodeExists(n, h, pos);
    NodeExists(n, h - 1, 2 * pos + 1);
    ChildLeaf(h, pos);
    ChildLeaf(h, pos + 1);
  }

  lemma LeafAt(n: nat, pos: nat)
    requires pos < Width(n, 0)
    ensures LeafStart(0, pos) == pos < n && LeafEnd(n, 0, pos) == pos + 1
  {
    NodeExists(n, 0, pos);
  }

  predicate AnyMatch(match_: seq<bool>, lo: nat, hi: nat)
    requires hi <= |match_|
  {
    exists i :: lo <= i < hi && match_[i]
  }

  // ---------------------------------------------------------------------------
  // Encoding
  // ---------------------------------------------------------------------------

  datatype Encoded = Encoded(bits: seq<bool>, hashes: seq<Digest>)

  /** What `TraverseAndBuild` appends for one node. */
  function Build(H: Combine, txids: seq<Digest>, match_: seq<bool>, h: nat, pos: nat): (e: Encoded)
    requires |match_| == |txids| && pos < Width(|txids|, h)
    decreases h
  {
    var parent := AnyMatch(match_, LeafStart(h, pos), LeafEnd(|txids|, h, pos));
    if h == 0 || !parent then Encoded([parent], [CalcHash(H, txids, h, pos)])
    else
      LeftChild(|txids|, h, pos);
      var left := Build(H, txids, match_, h - 1, 2 * pos);
      if 2 * pos + 1 < Width(|txids|, h - 1) then
        var right := Build(H, txids, match_, h - 1, 2 * pos + 1);
        Encoded([true] + left.bits + right.bits, left.hashes + right.hashes)
      else
        Encoded([true] + left.bits, left.hashes)
  }

  // ---------------------------------------------------------------------------
  // Decoding
  // ---------------------------------------------------------------------------

  /** What `TraverseAndExtract` returns and how far it got; `places` are the leaves the matches were read at. */
  datatype Decoded = Decoded(hash: Digest, nBits: nat, nHash: nat, matches: seq<Digest>, places: seq<nat>, bad: bool)

  function Extract(H: Combine, n: nat, bits: seq<bool>, hashes: seq<Digest>, h: nat, pos: nat, nBits: nat, nHash: nat): (d: Decoded)
    ensures |d.matches| == |d.places|
    decreases h
  {
    if nBits >= |bits| then Decoded(NULL, nBits, nHash, [], [], true)
    else
      var parent := bits[nBits];
      if h == 0 || !parent then
        if nHash >= |hashes| then Decoded(NULL, nBits + 1, nHash, [], [], true)
        else
          var found := h == 0 && parent;
          Decoded(hashes[nHash], nBits + 1, nHash + 1, if found then [hashes[nHash]] else [], if found then [pos] else [], false)
      else
        var left := Extract(H, n, bits, hashes, h - 1, 2 * pos, nBits + 1, nHash);
        if 2 * pos + 1 < Width(n, h - 1) then
          var right := Extract(H, n, bits, hashes, h - 1, 2 * pos + 1, left.nBits, left.nHash);
          Decoded(H(left.hash, right.hash), right.nBits, right.nHash, left.matches + right.matches, left.places + right.places,
                  left.bad || right.bad || right.hash == left.hash)
        else
          left.(hash := H(left.hash, left.hash))
  }

  lemma ExtractNothing(H: Combine, n: nat, bits: seq<bool>, hashes: seq<Digest>, h: nat, pos: nat, nBits: nat, nHash: nat)
    requires nBits >= |bits|
    ensures Extract(H, n, bits, hashes, h, pos, nBits, nHash) == Decoded(NULL, nBits, nHash, [], [], true)
  {
  }

  lemma ExtractLeaf(H: Combine, n: nat, bits: seq<bool>, hashes: seq<Digest>, h: nat, pos: nat, nBits: nat, nHash: nat)
    requires nBits < |bits| && (h == 0 || !bits[nBits])
    ensures
      var found := h == 0 && bits[nBits];
      Extract(H, n, bits, hashes, h, pos, nBits, nHash) ==
        if nHash >= |hashes| then Decoded(NULL, nBits + 1, nHash, [], [], true)
        else Decoded(hashes[nHash], nBits + 1, nHash + 1, if found then [hashes[nHash]] else [], if found then [pos] else [], false)
  {
  }

  lemma ExtractInner(H: Combine, n: nat, bits: seq<bool>, hashes: seq<Digest>, h: nat, pos: nat, nBits: nat, nHash: nat)
    requires nBits < |bits| && h > 0 && bits[nBits]
    ensures
      var left := Extract(H, n, bits, hashes, h - 1, 2 * pos, nBits + 1, nHash);
      var right := Extract(H, n, bits, hashes, h - 1, 2 * pos + 1, left.nBits, left.nHash);
      Extract(H, n, bits, hashes, h, pos, nBits, nHash) ==
        if 2 * pos + 1 < Width(n, h - 1) then
          Decoded(H(left.hash, right.hash), right.nBits, right.nHash, left.matches + right.matches, left.places + right.places,
                  left.bad || right.bad || right.hash == left.hash)
        else left.(hash := H(left.hash, left.hash))
  {
    hide Width;
  }

  // ---------------------------------------------------------------------------
  // Soundness
  // ---------------------------------------------------------------------------

  /** Every match is the txid at the leaf it was read at, between two leaves and in order. */
  ghost predicate MatchesReal(txids: seq<Digest>, lo: nat, hi: nat, d: Decoded) {
    && |d.matches| == |d.places| && hi <= |txids|
    && (forall i :: 0 <= i < |d.places| ==> lo <= d.places[i] < hi && d.matches[i] == txids[d.places[i]])
    && (forall i, j :: 0 <= i < j < |d.places| ==> d.places[i] < d.places[j])
  }

  lemma JoinReal(txids: seq<Digest>, lo: nat, mid: nat, hi: nat, left: Decoded, right: Decoded, d: Decoded)
    requires MatchesReal(txids, lo, mid, left) && MatchesReal(txids, mid, hi, right) && lo <= mid <= hi
    requires d.matches == left.matches + right.matches && d.places == left.places + right.places
    ensures MatchesReal(txids, lo, hi, d)
  {
  }

  lemma SameReal(txids: seq<Digest>, lo: nat, hi: nat, c: Decoded, d: Decoded)
    requires MatchesReal(txids, lo, hi, c) && d.matches == c.matches && d.places == c.places
    ensures MatchesReal(txids, lo, hi, d)
  {
  }

  lemma LeafHash(H: Combine, txids: seq<Digest>, pos: nat)
    requires pos < Width(|txids|, 0)
    ensures pos < |txids| && CalcHash(H, txids, 0, pos) == txids[pos]
  {
    NodeExists(|txids|, 0, pos);
  }

  lemma HashParts(H: Combine, txids: seq<Digest>, h: nat, pos: nat, left: Digest, right: Digest)
    requires Injective(H) && h > 0 && pos < Width(|txids|, h) && H(left, right) == CalcHash(H, txids, h, pos)
    ensures 2 * pos < Width(|txids|, h - 1) && left == CalcHash(H, txids, h - 1, 2 * pos)
    ensures 2 * pos + 1 < Width(|txids|, h - 1) ==> right == CalcHash(H, txids, h - 1, 2 * pos + 1)
  {
    LeftChild(|txids|, h, pos);
  }

  /**
    Whatever bits and hashes arrive: if they decode to the digest a node of the
    real tree has, then every extracted match is the txid at the leaf it was
    read at, and the leaves come in order.
   */
  lemma {:induction false} ExtractSound(H: Combine, txids: seq<Digest>, bits: seq<bool>, hashes: seq<Digest>,
                                        h: nat, pos: nat, nBits: nat, nHash: nat)
    requires Injective(H) && pos < Width(|txids|, h)
    requires
      var d := Extract(H, |txids|, bits, hashes, h, pos, nBits, nHash);
      !d.bad && d.hash == CalcHash(H, txids, h, pos)
    ensures MatchesReal(txids, LeafStart(h, pos), LeafEnd(|txids|, h, pos), Extract(H, |txids|, bits, hashes, h, pos, nBits, nHash))
    decreases h
  {
    hide LeafStart, LeafEnd, Width, Pow2, CalcHash, Injective;
    var n := |txids|;
    var d := Extract(H, n, bits, hashes, h, pos, nBits, nHash);
    if h == 0 {
      LeafAt(n, pos);
      LeafHash(H, txids, pos);
    } else {
      ChildLeaves(n, h, pos);
      if bits[nBits] {
        hide MatchesReal;
        var left := Extract(H, n, bits, hashes, h - 1, 2 * pos, nBits + 1, nHash);
        if 2 * pos + 1 < Width(n, h - 1) {
          var right := Extract(H, n, bits, hashes, h - 1, 2 * pos + 1, left.nBits, left.nHash);
          HashParts(H, txids, h, pos, left.hash, right.hash);
          ExtractSound(H, txids, bits, hashes, h - 1, 2 * pos, nBits + 1, nHash);
          ExtractSound(H, txids, bits, hashes, h - 1, 2 * pos + 1, left.nBits, left.nHash);
          JoinReal(txids, LeafStart(h, pos), LeafStart(h - 1, 2 * pos + 1), LeafEnd(n, h, pos), left, right, d);
        } else {
          HashParts(H, txids, h, pos, left.hash, left.hash);
          ExtractSound(H, txids, bits, hashes, h - 1, 2 * pos, nBits + 1, nHash);
          SameReal(txids, LeafStart(h, pos), LeafEnd(n, h, pos), left, d);
        }
      }
    }
  }

  // ---------------------------------------------------------------------------
  // Round trip
  // ---------------------------------------------------------------------------

  /** The matched leaves between two leaves, in order. */
  function Matched(match_: seq<bool>, lo: nat, hi: nat): (r: seq<nat>)
    requires hi <= |match_|
    ensures forall i :: 0 <= i < |r| ==> lo <= r[i] < hi
    decreases hi
  {
    if hi <= lo then [] else Matched(match_, lo, hi - 1) + if match_[hi - 1] then [hi - 1] else []
  }

  function Pick(txids: seq<Digest>, places: seq<nat>): (r: seq<Digest>)
    requires forall i :: 0 <= i < |places| ==> places[i] < |txids|
    ensures |r| == |places|
  {
    seq(|places|, i requires 0 <= i < |places| => txids[places[i]])
  }

  lemma {:induction false} MatchedSplit(match_: seq<bool>, lo: nat, mid: nat, hi: nat)
    requires lo <= mid <= hi <= |match_|
    ensures Matched(match_, lo, hi) == Matched(match_, lo, mid) + Matched(match_, mid, hi)
    decreases hi
  {
    if mid < hi {
      MatchedSplit(match_, lo, mid, hi - 1);
    } else {
      assert Matched(match_, mid, hi) == [];
    }
  }

  lemma {:induction false} NoneMatched(match_: seq<bool>, lo: nat, hi: nat)
    requires hi <= |match_|
    ensures AnyMatch(match_, lo, hi) <==> Matched(match_, lo, hi) != []
    decreases hi
  {
    if lo < hi {
      NoneMatched(match_, lo, hi - 1);
      assert AnyMatch(match_, lo, hi) <==> AnyMatch(match_, lo, hi - 1) || match_[hi - 1];
    }
  }

  /** Different nodes of one height have different digests, by their first leaves. */
  lemma {:induction false} DifferentHashes(H: Combine, txids: seq<Digest>, h: nat, a: nat, b: nat)
    requires Injective(H) && Distinct(txids) && a < b < Width(|txids|, h)
    ensures CalcHash(H, txids, h, a) != CalcHash(H, txids, h, b)
    decreases h
  {
    if h == 0 {
      LeafHash(H, txids, a);
      LeafHash(H, txids, b);
    } else {
      LeftChild(|txids|, h, a);
      LeftChild(|txids|, h, b);
      DifferentHashes(H, txids, h - 1, 2 * a, 2 * b);
    }
  }

  /** `part` is what `all` holds from index `at` on. */
  ghost predicate Sits<T>(all: seq<T>, at: nat, part: seq<T>) {
    at + |part| <= |all| && all[at..at + |part|] == part
  }

  lemma SitsParts<T>(all: seq<T>, at: nat, a: seq<T>, b: seq<T>)
    requires Sits(all, at, a + b)
    ensures Sits(all, at, a) && Sits(all, at + |a|, b)
  {
    assert all[at..at + |a|] == (a + b)[..|a|] == a;
    assert all[at + |a|..at + |a| + |b|] == (a + b)[|a|..] == b;
  }

  /** What decoding the encoding of a node gives. */
  ghost predicate DecodesTo(H: Combine, txids: seq<Digest>, match_: seq<bool>, h: nat, pos: nat, nBits: nat, nHash: nat, d: Decoded)
    requires |match_| == |txids| && pos < Width(|txids|, h)
  {
    var e := Build(H, txids, match_, h, pos);
    var places := Matched(match_, LeafStart(h, pos), LeafEnd(|txids|, h, pos));
    d == Decoded(CalcHash(H, txids, h, pos), nBits + |e.bits|, nHash + |e.hashes|, Pick(txids, places), places, false)
  }

  /** Decoding what was encoded gives back the node's digest and exactly the matches below it, and uses up exactly its part. */
  lemma {:induction false} BuildExtract(H: Combine, txids: seq<Digest>, match_: seq<bool>, bits: seq<bool>, hashes: seq<Digest>,
                                        h: nat, pos: nat, nBits: nat, nHash: nat)
    requires Injective(H) && Distinct(txids) && |match_| == |txids| && pos < Width(|txids|, h)
    requires Sits(bits, nBits, Build(H, txids, match_, h, pos).bits) && Sits(hashes, nHash, Build(H, txids, match_, h, pos).hashes)
    ensures DecodesTo(H, txids, match_, h, pos, nBits, nHash, Extract(H, |txids|, bits, hashes, h, pos, nBits, nHash))
    decreases h
  {
    hide LeafStart, LeafEnd, Width, Pow2, CalcHash, Injective, Distinct, AnyMatch, Matched, Sits, Build, Extract;
    var n := |txids|;
    if h == 0 {
      BuildExtractTxid(H, txids, match_, bits, hashes, pos, nBits, nHash);
    } else if !AnyMatch(match_, LeafStart(h, pos), LeafEnd(n, h, pos)) {
      BuildExtractHidden(H, txids, match_, bits, hashes, h, pos, nBits, nHash);
    } else {
      LeftChild(n, h, pos);
      BuildParts(H, txids, match_, bits, hashes, h, pos, nBits, nHash);
      BuildExtract(H, txids, match_, bits, hashes, h - 1, 2 * pos, nBits + 1, nHash);
      if 2 * pos + 1 < Width(n, h - 1) {
        var left := Extract(H, n, bits, hashes, h - 1, 2 * pos, nBits + 1, nHash);
        BuildExtract(H, txids, match_, bits, hashes, h - 1, 2 * pos + 1, left.nBits, left.nHash);
        DifferentHashes(H, txids, h - 1, 2 * pos, 2 * pos + 1);
        BuildExtractJoin(H, txids, match_, bits, hashes, h, pos, nBits, nHash);
      } else {
        BuildExtractOnly(H, txids, match_, bits, hashes, h, pos, nBits, nHash);
      }
    }
  }

  /** Where the parts of an expanded node's encoding sit. */
  lemma BuildParts(H: Combine, txids: seq<Digest>, match_: seq<bool>, bits: seq<bool>, hashes: seq<Digest>,
                   h: nat, pos: nat, nBits: nat, nHash: nat)
    requires |match_| == |txids| && h > 0 && pos < Width(|txids|, h) && 2 * pos < Width(|txids|, h - 1)
    requires AnyMatch(match_, LeafStart(h, pos), LeafEnd(|txids|, h, pos))
    requires Sits(bits, nBits, Build(H, txids, match_, h, pos).bits) && Sits(hashes, nHash, Build(H, txids, match_, h, pos).hashes)
    ensures nBits < |bits| && Sits(bits, nBits, [true])
    ensures
      var l := Build(H, txids, match_, h - 1, 2 * pos);
      && Sits(bits, nBits + 1, l.bits) && Sits(hashes, nHash, l.hashes)
      && (2 * pos + 1 < Width(|txids|, h - 1) ==>
            var r := Build(H, txids, match_, h - 1, 2 * pos + 1);
            Sits(bits, nBits + 1 + |l.bits|, r.bits) && Sits(hashes, nHash + |l.hashes|, r.hashes))
  {
    hide LeafStart, LeafEnd, Width, Pow2, CalcHash, AnyMatch, Sits, Build;
    BuildExpanded(H, txids, match_, h, pos);
    var l := Build(H, txids, match_, h - 1, 2 * pos);
    if 2 * pos + 1 < Width(|txids|, h - 1) {
      var r := Build(H, txids, match_, h - 1, 2 * pos + 1);
      SitsParts(bits, nBits, [true], l.bits + r.bits);
      SitsParts(bits, nBits + 1, l.bits, r.bits);
      SitsParts(hashes, nHash, l.hashes, r.hashes);
    } else {
      SitsParts(bits, nBits, [true], l.bits);
    }
    SitsIn(bits, nBits, [true]);
  }

  lemma BuildLeaf(H: Combine, txids: seq<Digest>, match_: seq<bool>, h: nat, pos: nat)
    requires |match_| == |txids| && pos < Width(|txids|, h)
    requires h == 0 || !AnyMatch(match_, LeafStart(h, pos), LeafEnd(|txids|, h, pos))
    ensures Build(H, txids, match_, h, pos) ==
      Encoded([AnyMatch(match_, LeafStart(h, pos), LeafEnd(|txids|, h, pos))], [CalcHash(H, txids, h, pos)])
  {
  }

  lemma BuildExpanded(H: Combine, txids: seq<Digest>, match_: seq<bool>, h: nat, pos: nat)
    requires |match_| == |txids| && h > 0 && pos < Width(|txids|, h) && 2 * pos < Width(|txids|, h - 1)
    requires AnyMatch(match_, LeafStart(h, pos), LeafEnd(|txids|, h, pos))
    ensures
      var e, l := Build(H, txids, match_, h, pos), Build(H, txids, match_, h - 1, 2 * pos);
      if 2 * pos + 1 < Width(|txids|, h - 1) then
        var r := Build(H, txids, match_, h - 1, 2 * pos + 1);
        e.bits == [true] + (l.bits + r.bits) && e.hashes == l.hashes + r.hashes
      else
        e.bits == [true] + l.bits && e.hashes == l.hashes
  {
    hide LeafStart, LeafEnd, Width, Pow2, CalcHash, AnyMatch;
    if 2 * pos + 1 < Width(|txids|, h - 1) {
      var l, r := Build(H, txids, match_, h - 1, 2 * pos), Build(H, txids, match_, h - 1, 2 * pos + 1);
      assert [true] + l.bits + r.bits == [true] + (l.bits + r.bits);
    }
  }

  lemma SitsIn<T>(all: seq<T>, at: nat, part: seq<T>)
    requires Sits(all, at, part)
    ensures at + |part| <= |all|
  {
  }

  /** A txid is one bit and one hash. */
  lemma BuildExtractTxid(H: Combine, txids: seq<Digest>, match_: seq<bool>, bits: seq<bool>, hashes: seq<Digest>,
                         pos: nat, nBits: nat, nHash: nat)
    requires |match_| == |txids| && pos < Width(|txids|, 0)
    requires Sits(bits, nBits, Build(H, txids, match_, 0, pos).bits) && Sits(hashes, nHash, Build(H, txids, match_, 0, pos).hashes)
    ensures DecodesTo(H, txids, match_, 0, pos, nBits, nHash, Extract(H, |txids|, bits, hashes, 0, pos, nBits, nHash))
  {
    hide CalcHash, LeafStart, LeafEnd, Width, Pow2, Matched, AnyMatch, Build;
    BuildLeaf(H, txids, match_, 0, pos);
    var e := Build(H, txids, match_, 0, pos);
    assert bits[nBits] == bits[nBits..nBits + 1][0] == e.bits[0];
    assert hashes[nHash] == hashes[nHash..nHash + 1][0] == e.hashes[0];
    LeafAt(|txids|, pos);
    LeafHash(H, txids, pos);
    OneLeaf(match_, pos);
  }

  lemma OneLeaf(match_: seq<bool>, pos: nat)
    requires pos < |match_|
    ensures AnyMatch(match_, pos, pos + 1) <==> match_[pos]
    ensures Matched(match_, pos, pos + 1) == if match_[pos] then [pos] else []
  {
    assert Matched(match_, pos, pos) == [];
  }

  /** So is a subtree without a match. */
  lemma BuildExtractHidden(H: Combine, txids: seq<Digest>, match_: seq<bool>, bits: seq<bool>, hashes: seq<Digest>,
                           h: nat, pos: nat, nBits: nat, nHash: nat)
    requires |match_| == |txids| && h > 0 && pos < Width(|txids|, h)
    requires !AnyMatch(match_, LeafStart(h, pos), LeafEnd(|txids|, h, pos))
    requires Sits(bits, nBits, Build(H, txids, match_, h, pos).bits) && Sits(hashes, nHash, Build(H, txids, match_, h, pos).hashes)
    ensures DecodesTo(H, txids, match_, h, pos, nBits, nHash, Extract(H, |txids|, bits, hashes, h, pos, nBits, nHash))
  {
    hide CalcHash, LeafStart, LeafEnd, Width, Pow2, Matched;
    var e := Build(H, txids, match_, h, pos);
    assert bits[nBits] == bits[nBits..nBits + 1][0] == e.bits[0];
    assert hashes[nHash] == hashes[nHash..nHash + 1][0] == e.hashes[0];
    NoneMatched(match_, LeafStart(h, pos), LeafEnd(|txids|, h, pos));
  }

  lemma BuildExtractJoin(H: Combine, txids: seq<Digest>, match_: seq<bool>, bits: seq<bool>, hashes: seq<Digest>,
                         h: nat, pos: nat, nBits: nat, nHash: nat)
    requires |match_| == |txids| && h > 0 && pos < Width(|txids|, h) && 2 * pos < Width(|txids|, h - 1) && 2 * pos + 1 < Width(|txids|, h - 1)
    requires AnyMatch(match_, LeafStart(h, pos), LeafEnd(|txids|, h, pos))
    requires nBits < |bits| && Sits(bits, nBits, [true])
    requires
      var left := Extract(H, |txids|, bits, hashes, h - 1, 2 * pos, nBits + 1, nHash);
      && DecodesTo(H, txids, match_, h - 1, 2 * pos, nBits + 1, nHash, left)
      && DecodesTo(H, txids, match_, h - 1, 2 * pos + 1, left.nBits, left.nHash,
                   Extract(H, |txids|, bits, hashes, h - 1, 2 * pos + 1, left.nBits, left.nHash))
    requires CalcHash(H, txids, h - 1, 2 * pos) != CalcHash(H, txids, h - 1, 2 * pos + 1)
    ensures DecodesTo(H, txids, match_, h, pos, nBits, nHash, Extract(H, |txids|, bits, hashes, h, pos, nBits, nHash))
  {
    hide LeafStart, LeafEnd, Width, Pow2, AnyMatch, Matched, Build, Extract;
    var n := |txids|;
    ChildLeaves(n, h, pos);
    BuildExpanded(H, txids, match_, h, pos);
    assert bits[nBits] == bits[nBits..nBits + 1][0];
    ExtractInner(H, n, bits, hashes, h, pos, nBits, nHash);
    MatchedSplit(match_, LeafStart(h, pos), LeafStart(h - 1, 2 * pos + 1), LeafEnd(n, h, pos));
    var left := Extract(H, n, bits, hashes, h - 1, 2 * pos, nBits + 1, nHash);
    var right := Extract(H, n, bits, hashes, h - 1, 2 * pos + 1, left.nBits, left.nHash);
    var places := Matched(match_, LeafStart(h, pos), LeafEnd(n, h, pos));
    assert Pick(txids, left.places) + Pick(txids, right.places) == Pick(txids, places);
  }

  lemma BuildExtractOnly(H: Combine, txids: seq<Digest>, match_: seq<bool>, bits: seq<bool>, hashes: seq<Digest>,
                         h: nat, pos: nat, nBits: nat, nHash: nat)
    requires |match_| == |txids| && h > 0 && pos < Width(|txids|, h) && 2 * pos < Width(|txids|, h - 1) && 2 * pos + 1 >= Width(|txids|, h - 1)
    requires AnyMatch(match_, LeafStart(h, pos), LeafEnd(|txids|, h, pos))
    requires nBits < |bits| && Sits(bits, nBits, [true])
    requires DecodesTo(H, txids, match_, h - 1, 2 * pos, nBits + 1, nHash, Extract(H, |txids|, bits, hashes, h - 1, 2 * pos, nBits + 1, nHash))
    ensures DecodesTo(H, txids, match_, h, pos, nBits, nHash, Extract(H, |txids|, bits, hashes, h, pos, nBits, nHash))
  {
    hide LeafStart, LeafEnd, Width, Pow2, AnyMatch, Matched;
    ChildLeaves(|txids|, h, pos);
    assert bits[nBits] == bits[nBits..nBits + 1][0];
  }

  // ---------------------------------------------------------------------------
  // Size of the encoding
  // ---------------------------------------------------------------------------

  /** How many expanded nodes below this one have an only child. */
  function OnlyChildren(match_: seq<bool>, h: nat, pos: nat): nat
    requires pos < Width(|match_|, h)
    decreases h
  {
    var n := |match_|;
    if h == 0 || !AnyMatch(match_, LeafStart(h, pos), LeafEnd(n, h, pos)) then 0
    else
      LeftChild(n, h, pos);
      if 2 * pos + 1 < Width(n, h - 1) then OnlyChildren(match_, h - 1, 2 * pos) + OnlyChildren(match_, h - 1, 2 * pos + 1)
      else 1 + OnlyChildren(match_, h - 1, 2 * pos)
  }

  /** At most one hash per leaf, and twice as many bits less one, plus one for every expanded node with an only child. */
  lemma {:induction false} EncodedSize(H: Combine, txids: seq<Digest>, match_: seq<bool>, h: nat, pos: nat)
    requires |match_| == |txids| && pos < Width(|txids|, h)
    ensures
      var e := Build(H, txids, match_, h, pos);
      && 1 <= |e.hashes| <= LeafEnd(|txids|, h, pos) - LeafStart(h, pos)
      && |e.bits| == 2 * |e.hashes| - 1 + OnlyChildren(match_, h, pos)
    decreases h
  {
    hide LeafStart, LeafEnd, Width, Pow2, CalcHash, AnyMatch;
    var n := |txids|;
    if h == 0 {
      LeafAt(n, pos);
    } else {
      ChildLeaves(n, h, pos);
      LeftChild(n, h, pos);
      if AnyMatch(match_, LeafStart(h, pos), LeafEnd(n, h, pos)) {
        EncodedSize(H, txids, match_, h - 1, 2 * pos);
        if 2 * pos + 1 < Width(n, h - 1) {
          EncodedSize(H, txids, match_, h - 1, 2 * pos + 1);
        }
      }
    }
  }

  /** Only the last node of a level can have an only child, so every other node has none below it. */
  lemma {:induction false} InnerNodesFull(match_: seq<bool>, h: nat, pos: nat)
    requires pos + 1 < Width(|match_|, h)
    ensures OnlyChildren(match_, h, pos) == 0
    decreases h
  {
    hide LeafStart, LeafEnd, Width, Pow2, AnyMatch;
    var n := |match_|;
    if h > 0 {
      LeftChild(n, h, pos);
      LeftChild(n, h, pos + 1);
      InnerNodesFull(match_, h - 1, 2 * pos);
      InnerNodesFull(match_, h - 1, 2 * pos + 1);
    }
  }

  lemma {:induction false} OnlyChildrenBound(match_: seq<bool>, h: nat, pos: nat)
    requires pos < Width(|match_|, h)
    ensures OnlyChildren(match_, h, pos) <= h
    decreases h
  {
    hide LeafStart, LeafEnd, Width, Pow2, AnyMatch;
    var n := |match_|;
    if h > 0 {
      LeftChild(n, h, pos);
      OnlyChildrenBound(match_, h - 1, 2 * pos);
      if 2 * pos + 1 < Width(n, h - 1) {
        InnerNodesFull(match_, h - 1, 2 * pos);
        OnlyChildrenBound(match_, h - 1, 2 * pos + 1);
      }
    }
  }

  /** A level of odd width whose last node's parent covers a match. */
  ghost predicate OddEdge(match_: seq<bool>, k: nat) {
    && k > 0 && Width(|match_|, k) > 0 && Width(|match_|, k - 1) % 2 == 1
    && AnyMatch(match_, LeafStart(k, Width(|match_|, k) - 1), |match_|)
  }

  lemma WidthHalves(n: nat, h: nat)
    requires h > 0
    ensures Width(n, h) == (Width(n, h - 1) + 1) / 2
    ensures Width(n, h - 1) >= 0 && Width(n, h) >= 0
  {
    var w, v := Width(n, h), Width(n, h - 1);
    WidthNonNegative(n, h);
    WidthNonNegative(n, h - 1);
    if w > 0 {
      LeftChild(n, h, w - 1);
    }
    NodeExists(n, h, w);
    NodeExists(n, h - 1, 2 * w);
    ChildLeaf(h, w);
  }

  lemma WidthNonNegative(n: nat, h: nat)
    ensures Width(n, h) >= 0
  {
    var p := Pow2(h);
    DivBounds(n + p - 1, p);
    MulMono(0, Width(n, h), p);
    assert p * Width(n, h) == Width(n, h) * p;
    MulMono(Width(n, h), 0, p);
  }

  /** There is an only child among the expanded nodes exactly when some level has an odd edge. */
  lemma {:induction false} OnlyChildExists(match_: seq<bool>, h: nat)
    requires Width(|match_|, h) > 0
    ensures OnlyChildren(match_, h, Width(|match_|, h) - 1) > 0 <==> exists k :: 1 <= k <= h && OddEdge(match_, k)
    decreases h
  {
    hide LeafStart, LeafEnd, Width, Pow2, AnyMatch;
    var n := |match_|;
    if h > 0 {
      var pos := Width(n, h) - 1;
      LeftChild(n, h, pos);
      WidthHalves(n, h);
      ChildLeaves(n, h, pos);
      LastLeafEnd(n, h);
      OnlyChildExists(match_, h - 1);
      EdgeMonotone(match_, h);
      if Width(n, h - 1) % 2 == 0 {
        InnerNodesFull(match_, h - 1, 2 * pos);
      }
      assert OddEdge(match_, h) <==> Width(n, h - 1) % 2 == 1 && AnyMatch(match_, LeafStart(h, pos), n);
    }
  }

  lemma LastLeafEnd(n: nat, h: nat)
    requires Width(n, h) > 0
    ensures LeafEnd(n, h, Width(n, h) - 1) == n
  {
    NodeExists(n, h, Width(n, h));
  }

  /** A match under a lower edge is under every higher one. */
  lemma EdgeMonotone(match_: seq<bool>, h: nat)
    requires h > 0 && Width(|match_|, h) > 0
    ensures forall k :: 1 <= k < h && OddEdge(match_, k) ==> AnyMatch(match_, LeafStart(h, Width(|match_|, h) - 1), |match_|)
  {
    forall k | 1 <= k < h && OddEdge(match_, k)
      ensures AnyMatch(match_, LeafStart(h, Width(|match_|, h) - 1), |match_|)
    {
      EdgeStarts(|match_|, k, h);
    }
  }

  lemma {:induction false} EdgeStarts(n: nat, k: nat, h: nat)
    requires k <= h && Width(n, k) > 0 && Width(n, h) > 0
    ensures LeafStart(h, Width(n, h) - 1) <= LeafStart(k, Width(n, k) - 1)
    decreases h
  {
    hide LeafStart, LeafEnd, Width, Pow2;
    if k < h {
      WidthHalves(n, h);
      EdgeStarts(n, k, h - 1);
      ChildLeaves(n, h, Width(n, h) - 1);
    }
  }

  // ---------------------------------------------------------------------------
  // The whole tree
  // ---------------------------------------------------------------------------

  lemma WidthShrinks(n: nat, h: nat)
    requires Width(n, h) > 1
    ensures 0 < Width(n, h + 1) < Width(n, h)
  {
    WidthHalves(n, h + 1);
  }

  function HeightFrom(n: nat, h: nat): (r: nat)
    ensures r >= h && Width(n, r) <= 1
    ensures Width(n, h) > 0 ==> Width(n, r) == 1
    ensures forall k :: h <= k < r ==> Width(n, k) > 1
    decreases Width(n, h)
  {
    if Width(n, h) > 1 then
      WidthShrinks(n, h);
      HeightFrom(n, h + 1)
    else h
  }

  /** The height of the tree: the first level with at most one node. */
  function TreeHeight(n: nat): nat {
    HeightFrom(n, 0)
  }

  method CalcTreeHeight(n: nat) returns (h: nat)
    ensures h == TreeHeight(n)
  {
    h := 0;
    while Width(n, h) > 1
      invariant HeightFrom(n, h) == TreeHeight(n)
      decreases Width(n, h)
    {
      WidthShrinks(n, h);
      h := h + 1;
    }
  }

  lemma RootExists(n: nat)
    requires n > 0
    ensures Width(n, TreeHeight(n)) == 1 && LeafStart(TreeHeight(n), 0) == 0 && LeafEnd(n, TreeHeight(n), 0) == n
  {
    NodeExists(n, 0, 0);
    assert Width(n, 0) > 0;
    LastLeafEnd(n, TreeHeight(n));
  }

  /** The root of the full tree over a list of txids. */
  function MerkleRoot(H: Combine, txids: seq<Digest>): Digest
    requires txids != []
  {
    RootExists(|txids|);
    CalcHash(H, txids, TreeHeight(|txids|), 0)
  }

  /** The encoding the constructor makes. */
  function Encode(H: Combine, txids: seq<Digest>, match_: seq<bool>): Encoded
    requires txids != [] && |match_| == |txids|
  {
    RootExists(|txids|);
    Build(H, txids, match_, TreeHeight(|txids|), 0)
  }

  /** `ExtractMatches`: the root, or null on failure, and the matches. */
  function Decode(H: Combine, n: nat, bits: seq<bool>, hashes: seq<Digest>): (Digest, seq<Digest>) {
    if n == 0 || n > Coins.MAX_BLOCK_SIZE / 60 || |hashes| > n || |bits| < |hashes| then (NULL, [])
    else
      var d := Extract(H, n, bits, hashes, TreeHeight(n), 0, 0, 0);
      if d.bad || (d.nBits + 7) / 8 != (|bits| + 7) / 8 || d.nHash != |hashes| then (NULL, d.matches)
      else (d.hash, d.matches)
  }

  /** The places the matches were read at. */
  function DecodePlaces(H: Combine, n: nat, bits: seq<bool>, hashes: seq<Digest>): seq<nat> {
    Extract(H, n, bits, hashes, TreeHeight(n), 0, 0, 0).places
  }

  /**
    Soundness, for arbitrary bits and hashes: if decoding succeeds with the root
    of a real list of as many txids, every match is the txid at the leaf it was
    read at, and no leaf is reported twice.
   */
  lemma DecodeSound(H: Combine, txids: seq<Digest>, bits: seq<bool>, hashes: seq<Digest>)
    requires Injective(H) && txids != [] && MerkleRoot(H, txids) != NULL
    requires Decode(H, |txids|, bits, hashes).0 == MerkleRoot(H, txids)
    ensures
      var matches, places := Decode(H, |txids|, bits, hashes).1, DecodePlaces(H, |txids|, bits, hashes);
      && |matches| == |places|
      && (forall i :: 0 <= i < |places| ==> places[i] < |txids| && matches[i] == txids[places[i]])
      && (forall i, j :: 0 <= i < j < |places| ==> places[i] < places[j])
  {
    hide Extract, CalcHash;
    RootExists(|txids|);
    ExtractSound(H, txids, bits, hashes, TreeHeight(|txids|), 0, 0, 0);
  }

  /** More bits and hashes behind those that were read make no difference to what was read. */
  lemma {:induction false} ExtractMore(H: Combine, n: nat, bits: seq<bool>, hashes: seq<Digest>, bits': seq<bool>, hashes': seq<Digest>,
                                       h: nat, pos: nat, nBits: nat, nHash: nat)
    requires bits <= bits' && hashes <= hashes' && !Extract(H, n, bits, hashes, h, pos, nBits, nHash).bad
    ensures Extract(H, n, bits', hashes', h, pos, nBits, nHash) == Extract(H, n, bits, hashes, h, pos, nBits, nHash)
    decreases h
  {
    hide Extract, Width;
    if nBits >= |bits| {
      ExtractNothing(H, n, bits, hashes, h, pos, nBits, nHash);
    } else if h == 0 || !bits[nBits] {
      ExtractLeaf(H, n, bits, hashes, h, pos, nBits, nHash);
      ExtractLeaf(H, n, bits', hashes', h, pos, nBits, nHash);
    } else {
      ExtractInner(H, n, bits, hashes, h, pos, nBits, nHash);
      ExtractInner(H, n, bits', hashes', h, pos, nBits, nHash);
      ExtractMore(H, n, bits, hashes, bits', hashes', h - 1, 2 * pos, nBits + 1, nHash);
      if 2 * pos + 1 < Width(n, h - 1) {
        var left := Extract(H, n, bits, hashes, h - 1, 2 * pos, nBits + 1, nHash);
        ExtractMore(H, n, bits, hashes, bits', hashes', h - 1, 2 * pos + 1, left.nBits, left.nHash);
      }
    }
  }

  /** Nothing can be put behind what decodes: one more hash, or one more byte of bits, and it does not. */
  lemma NothingToSpare(H: Combine, n: nat, bits: seq<bool>, hashes: seq<Digest>, bits': seq<bool>, hashes': seq<Digest>)
    requires bits <= bits' && hashes <= hashes' && Decode(H, n, bits, hashes).0 != NULL
    requires |hashes'| > |hashes| || (|bits'| + 7) / 8 != (|bits| + 7) / 8
    ensures Decode(H, n, bits', hashes').0 == NULL
  {
    hide Extract, HeightFrom;
    ExtractMore(H, n, bits, hashes, bits', hashes', TreeHeight(n), 0, 0, 0);
  }

  lemma TwoLeaves()
    ensures Width(2, 0) == 2 && TreeHeight(2) == 1
  {
    assert Width(2, 0) == 2 && Width(2, 1) == 1;
  }

  /** A block of one transaction twice is not taken for two, whatever is selected. */
  lemma TwinsRefused(H: Combine, a: Digest, bits: seq<bool>)
    requires bits != [] && bits[0]
    ensures Decode(H, 2, bits, [a, a]).0 == NULL
  {
    hide Extract, Width, HeightFrom;
    TwoLeaves();
    ExtractInner(H, 2, bits, [a, a], 1, 0, 0, 0);
    if |bits| == 1 {
      ExtractNothing(H, 2, bits, [a, a], 0, 0, 1, 0);
    } else {
      ExtractLeaf(H, 2, bits, [a, a], 0, 0, 1, 0);
      if |bits| == 2 {
        ExtractNothing(H, 2, bits, [a, a], 0, 1, 2, 1);
      } else {
        ExtractLeaf(H, 2, bits, [a, a], 0, 1, 2, 1);
      }
    }
  }

  /** The bits of an encoding after a trip through bytes: padded with zeros to a multiple of eight. */
  function Padded(bits: seq<bool>): (r: seq<bool>)
    ensures |r| == (|bits| + 7) / 8 * 8 && r[..|bits|] == bits
  {
    bits + seq((|bits| + 7) / 8 * 8 - |bits|, _ => false)
  }

  lemma PaddedBytes(n: nat)
    ensures ((n + 7) / 8 * 8 + 7) / 8 == (n + 7) / 8 && (n + 7) / 8 * 8 >= n
  {
  }

  /**
    Round trip: for any distinct txids that fit in a block and any selection,
    the padded encoding decodes to the root of the full tree and exactly the
    selected txids, in order.
   */
  lemma DecodeEncode(H: Combine, txids: seq<Digest>, match_: seq<bool>)
    requires Injective(H) && Distinct(txids) && |match_| == |txids| && 0 < |txids| <= Coins.MAX_BLOCK_SIZE / 60
    ensures
      var e := Encode(H, txids, match_);
      Decode(H, |txids|, Padded(e.bits), e.hashes) == (MerkleRoot(H, txids), Pick(txids, Matched(match_, 0, |txids|)))
  {
    hide Extract, Build, CalcHash, Matched, Width, Pow2, LeafStart, LeafEnd, Padded, TreeHeight, DecodesTo, Pick, Injective, Distinct;
    var h, e := TreeHeight(|txids|), Encode(H, txids, match_);
    RootExists(|txids|);
    EncodedSize(H, txids, match_, h, 0);
    PaddedBytes(|e.bits|);
    RootDecodes(H, txids, match_);
  }

  lemma RootDecodes(H: Combine, txids: seq<Digest>, match_: seq<bool>)
    requires Injective(H) && Distinct(txids) && |match_| == |txids| && 0 < |txids|
    ensures
      var e, places := Encode(H, txids, match_), Matched(match_, 0, |txids|);
      Extract(H, |txids|, Padded(e.bits), e.hashes, TreeHeight(|txids|), 0, 0, 0) ==
      Decoded(MerkleRoot(H, txids), |e.bits|, |e.hashes|, Pick(txids, places), places, false)
  {
    hide Extract, Build, CalcHash, Matched, Width, Pow2, LeafStart, LeafEnd, Padded, TreeHeight;
    var h, e := TreeHeight(|txids|), Encode(H, txids, match_);
    RootExists(|txids|);
    assert Padded(e.bits)[0..|e.bits|] == e.bits && e.hashes[0..|e.hashes|] == e.hashes;
    BuildExtract(H, txids, match_, Padded(e.bits), e.hashes, h, 0, 0, 0);
  }

  /** At most one hash per transaction; the bit count is exact. */
  lemma EncodeSize(H: Combine, txids: seq<Digest>, match_: seq<bool>)
    requires |match_| == |txids| && txids != []
    ensures
      var e := Encode(H, txids, match_);
      var only := (RootExists(|txids|); OnlyChildren(match_, TreeHeight(|txids|), 0));
      && 1 <= |e.hashes| <= |txids|
      && |e.bits| == 2 * |e.hashes| - 1 + only
      && only <= TreeHeight(|txids|)
  {
    RootExists(|txids|);
    EncodedSize(H, txids, match_, TreeHeight(|txids|), 0);
    OnlyChildrenBound(match_, TreeHeight(|txids|), 0);
  }

  /**
    The documented bound of 2N-1 bits for N hashes (merkleblock.h, line 47)
    holds exactly when no level of odd width has a match under the parent of
    its last node.
   */
  lemma DocumentedBound(H: Combine, txids: seq<Digest>, match_: seq<bool>)
    requires |match_| == |txids| && txids != []
    ensures
      var e := Encode(H, txids, match_);
      |e.bits| <= 2 * |e.hashes| - 1 <==> forall k :: 1 <= k <= TreeHeight(|txids|) ==> !OddEdge(match_, k)
  {
    RootExists(|txids|);
    EncodeSize(H, txids, match_);
    OnlyChildExists(match_, TreeHeight(|txids|));
  }

  /** Three transactions with the last one selected need four bits for two hashes. */
  lemma DocumentedBoundFails(H: Combine)
    ensures
      var e := Encode(H, [1, 2, 3], [false, false, true]);
      |e.bits| > 2 * |e.hashes| - 1
  {
    var m := [false, false, true];
    assert Width(3, 0) == 3 && Pow2(1) == 2 && Width(3, 1) == 2;
    assert TreeHeight(3) >= 1 by { assert Width(3, 0) > 1; }
    assert LeafStart(1, 1) == 2 && m[2];
    assert OddEdge(m, 1);
    DocumentedBound(H, [1, 2, 3], m);
  }

  // ---------------------------------------------------------------------------
  // Flag bits in bytes
  // ---------------------------------------------------------------------------

  /** `1 << i` */
  function Mask(i: nat): bv8
    requires i < 8
  {
    [1, 2, 4, 8, 16, 32, 64, 128][i]
  }

  predicate BitOf(b: bv8, i: nat)
    requires i < 8
  {
    b & Mask(i) != 0
  }

  lemma MaskSet(b: bv8, m: bv8, k: bv8)
    requires m in {1, 2, 4, 8, 16, 32, 64, 128} && k in {1, 2, 4, 8, 16, 32, 64, 128}
    ensures (b | m) & k != 0 <==> b & k != 0 || m == k
  {
  }

  lemma SetBit(b: bv8, i: nat, j: nat)
    requires i < 8 && j < 8
    ensures BitOf(b | Mask(i), j) <==> BitOf(b, j) || i == j
  {
    MaskSet(b, Mask(i), Mask(j));
  }

  /** The write loop: bit `p` goes to bit `p % 8` of byte `p / 8`. */
  method PackBits(bits: seq<bool>) returns (bytes: seq<bv8>)
    ensures |bytes| == (|bits| + 7) / 8
    ensures forall p :: 0 <= p < 8 * |bytes| ==> (BitOf(bytes[p / 8], p % 8) <==> Padded(bits)[p])
  {
    bytes := seq((|bits| + 7) / 8, _ => 0);
    for p := 0 to |bits|
      invariant |bytes| == (|bits| + 7) / 8
      invariant forall q :: 0 <= q < 8 * |bytes| ==> (BitOf(bytes[q / 8], q % 8) <==> q < p && bits[q])
    {
      ghost var before := bytes;
      if bits[p] {
        bytes := bytes[p / 8 := bytes[p / 8] | Mask(p % 8)];
      }
      forall q | 0 <= q < 8 * |bytes|
        ensures BitOf(bytes[q / 8], q % 8) <==> q < p + 1 && bits[q]
      {
        SetBit(before[p / 8], p % 8, q % 8);
      }
    }
  }

  /** The read loop. */
  method UnpackBits(bytes: seq<bv8>) returns (bits: seq<bool>)
    ensures |bits| == 8 * |bytes|
    ensures forall p :: 0 <= p < |bits| ==> (bits[p] <==> BitOf(bytes[p / 8], p % 8))
  {
    bits := [];
    for p := 0 to 8 * |bytes|
      invariant |bits| == p
      invariant forall q :: 0 <= q < p ==> (bits[q] <==> BitOf(bytes[q / 8], q % 8))
    {
      bits := bits + [bytes[p / 8] & Mask(p % 8) != 0];
    }
  }

  // ---------------------------------------------------------------------------
  // CPartialMerkleTree
  // ---------------------------------------------------------------------------

  class CPartialMerkleTree {
    var nTransactions: nat
    var vBits: seq<bool>
    var vHash: seq<Digest>
    var fBad: bool

    /** Encode a selection of txids. */
    constructor (H: Combine, txids: seq<Digest>, match_: seq<bool>)
      requires txids != [] && |match_| == |txids|
      ensures nTransactions == |txids| && !fBad
      ensures vBits == Encode(H, txids, match_).bits && vHash == Encode(H, txids, match_).hashes
    {
      nTransactions, fBad, vBits, vHash := |txids|, false, [], [];
      new;
      var h := CalcTreeHeight(nTransactions);
      RootExists(nTransactions);
      TraverseAndBuild(H, h, 0, txids, match_);
    }

    /** Read from the wire; the flag bits come in whole bytes. */
    constructor FromWire(n: nat, hashes: seq<Digest>, bytes: seq<bv8>)
      ensures nTransactions == n && vHash == hashes && !fBad
      ensures |vBits| == 8 * |bytes| && forall p :: 0 <= p < |vBits| ==> (vBits[p] <==> BitOf(bytes[p / 8], p % 8))
    {
      nTransactions, vHash, fBad := n, hashes, false;
      var bits := UnpackBits(bytes);
      vBits := bits;
    }

    method TraverseAndBuild(H: Combine, h: nat, pos: nat, txids: seq<Digest>, match_: seq<bool>)
      requires nTransactions == |txids| == |match_| && pos < Width(|txids|, h)
      modifies this`vBits, this`vHash
      ensures vBits == old(vBits) + Build(H, txids, match_, h, pos).bits
      ensures vHash == old(vHash) + Build(H, txids, match_, h, pos).hashes
      decreases h
    {
      hide Width, Pow2, LeafStart, LeafEnd, AnyMatch, CalcHash, Build;
      ghost var bits, hashes := vBits, vHash;
      var parent := ParentOfMatch(match_, LeafStart(h, pos), LeafEnd(nTransactions, h, pos));
      vBits := vBits + [parent];
      if h == 0 || !parent {
        BuildLeaf(H, txids, match_, h, pos);
        vHash := vHash + [CalcHash(H, txids, h, pos)];
      } else {
        LeftChild(nTransactions, h, pos);
        TraverseAndBuild(H, h - 1, 2 * pos, txids, match_);
        BuildExpanded(H, txids, match_, h, pos);
        ghost var left := Build(H, txids, match_, h - 1, 2 * pos);
        assert vBits == bits + ([true] + left.bits);
        if 2 * pos + 1 < Width(nTransactions, h - 1) {
          TraverseAndBuild(H, h - 1, 2 * pos + 1, txids, match_);
          ghost var right := Build(H, txids, match_, h - 1, 2 * pos + 1);
          assert vBits == bits + ([true] + (left.bits + right.bits));
          assert vHash == hashes + (left.hashes + right.hashes);
        }
      }
    }

    /** The traversal that consumes bits and hashes; it carries on after a failure, as the source does. */
    method TraverseAndExtract(H: Combine, h: nat, pos: nat, nBitsUsed: nat, nHashUsed: nat, vMatch: seq<Digest>)
      returns (hash: Digest, nBits: nat, nHash: nat, found: seq<Digest>)
      modifies this`fBad
      ensures
        var d := Extract(H, nTransactions, vBits, vHash, h, pos, nBitsUsed, nHashUsed);
        && hash == d.hash && nBits == d.nBits && nHash == d.nHash && found == vMatch + d.matches
        && fBad == (old(fBad) || d.bad)
      decreases h
    {
      hide Width, Pow2, Extract;
      nBits, nHash, found := nBitsUsed, nHashUsed, vMatch;
      if nBits >= |vBits| {
        ExtractNothing(H, nTransactions, vBits, vHash, h, pos, nBits, nHash);
        fBad := true;
        return NULL, nBits, nHash, found;
      }
      var parent := vBits[nBits];
      nBits := nBits + 1;
      if h == 0 || !parent {
        ExtractLeaf(H, nTransactions, vBits, vHash, h, pos, nBitsUsed, nHash);
        if nHash >= |vHash| {
          fBad := true;
          return NULL, nBits, nHash, found;
        }
        hash := vHash[nHash];
        nHash := nHash + 1;
        if h == 0 && parent {
          found := found + [hash];
        }
      } else {
        ExtractInner(H, nTransactions, vBits, vHash, h, pos, nBitsUsed, nHash);
        var left;
        left, nBits, nHash, found := TraverseAndExtract(H, h - 1, 2 * pos, nBits, nHash, found);
        var right := left;
        if 2 * pos + 1 < Width(nTransactions, h - 1) {
          right, nBits, nHash, found := TraverseAndExtract(H, h - 1, 2 * pos + 1, nBits, nHash, found);
          if right == left {
            fBad := true;
          }
          ghost var l := Extract(H, nTransactions, vBits, vHash, h - 1, 2 * pos, nBitsUsed + 1, nHashUsed);
          ghost var r := Extract(H, nTransactions, vBits, vHash, h - 1, 2 * pos + 1, l.nBits, l.nHash);
          assert found == vMatch + (l.matches + r.matches);
        }
        hash := H(left, right);
      }
    }

    /** `ExtractMatches`; a tree that was found bad before stays bad. */
    method ExtractMatches(H: Combine) returns (root: Digest, vMatch: seq<Digest>)
      modifies this`fBad
      ensures old(fBad) ==> root == NULL
      ensures !old(fBad) ==> (root, vMatch) == Decode(H, nTransactions, vBits, vHash)
    {
      hide Extract, Width;
      if nTransactions == 0 || nTransactions > Coins.MAX_BLOCK_SIZE / 60 {
        return NULL, [];
      }
      if |vHash| > nTransactions || |vBits| < |vHash| {
        return NULL, [];
      }
      var h := CalcTreeHeight(nTransactions);
      var nBits, nHash;
      root, nBits, nHash, vMatch := TraverseAndExtract(H, h, 0, 0, 0, []);
      assert forall m: seq<Digest> :: [] + m == m;
      if fBad || (nBits + 7) / 8 != (|vBits| + 7) / 8 || nHash != |vHash| {
        root := NULL;
      }
    }
  }

  /** The loop that looks for a match below a node. */
  method ParentOfMatch(match_: seq<bool>, lo: nat, hi: nat) returns (any: bool)
    requires hi <= |match_|
    ensures any <==> AnyMatch(match_, lo, hi)
  {
    any := false;
    var p := lo;
    while p < hi
      invariant lo <= p && (p <= hi || p == lo)
      invariant any <==> exists i :: lo <= i < p && i < hi && match_[i]
    {
      any := any || match_[p];
      p := p + 1;
    }
  }

  /**
    A filtered block's journey: encode a selection, pack the flag bits, unpack
    them on the other side, extract. The receiver gets the real root and exactly
    the selected txids.
   */
  method SendAndReceive(H: Combine, txids: seq<Digest>, match_: seq<bool>) returns (root: Digest, vMatch: seq<Digest>)
    requires Injective(H) && Distinct(txids) && |match_| == |txids| && 0 < |txids| <= Coins.MAX_BLOCK_SIZE / 60
    ensures root == MerkleRoot(H, txids) && vMatch == Pick(txids, Matched(match_, 0, |txids|))
  {
    hide Decode, Encode;
    var sent := new CPartialMerkleTree(H, txids, match_);
    var bytes := PackBits(sent.vBits);
    var got := new CPartialMerkleTree.FromWire(sent.nTransactions, sent.vHash, bytes);
    assert got.vBits == Padded(sent.vBits);
    DecodeEncode(H, txids, match_);
    root, vMatch := got.ExtractMatches(H);
  }
}
