/**
  The size that merkleblock.h guarantees for a serialized partial Merkle tree:
  which of its bounds hold for all transactions and selections, and exactly when
  the others do.
 */
module MerkleSize {
  import opened Arithmetic
  import Coins
  import opened PartialMerkle

  // ---------------------------------------------------------------------------
  // The number of hashes
  // ---------------------------------------------------------------------------

  lemma TwoParts(a: nat, b: nat, h: nat)
    requires h > 0 && a + b > 0
    ensures 1 + a * (h - 1) + (1 + b * (h - 1)) <= 1 + (a + b) * h
  {
    assert (a + b) * h == a * (h - 1) + b * (h - 1) + a + b;
  }

  lemma OnePart(a: nat, h: nat)
    requires h > 0
    ensures 1 + a * (h - 1) <= 1 + a * h
  {
    assert a * h == a * (h - 1) + a;
  }

  /** Every match costs at most one hash per level on top of the first one. */
  lemma {:induction false} HashesPerMatch(H: Combine, txids: seq<Digest>, match_: seq<bool>, h: nat, pos: nat)
    requires |match_| == |txids| && pos < Width(|txids|, h)
    ensures |Build(H, txids, match_, h, pos).hashes| <= 1 + |Matched(match_, LeafStart(h, pos), LeafEnd(|txids|, h, pos))| * h
    decreases h
  {
    hide LeafStart, LeafEnd, Width, Pow2, CalcHash, AnyMatch, Matched, Build;
    var n := |txids|;
    var lo, hi := LeafStart(h, pos), LeafEnd(n, h, pos);
    NoneMatched(match_, lo, hi);
    if h == 0 || !AnyMatch(match_, lo, hi) {
      BuildLeaf(H, txids, match_, h, pos);
      MulNonNegative(|Matched(match_, lo, hi)|, h);
    } else {
      LeftChild(n, h, pos);
      ChildLeaves(n, h, pos);
      BuildExpanded(H, txids, match_, h, pos);
      HashesPerMatch(H, txids, match_, h - 1, 2 * pos);
      if 2 * pos + 1 < Width(n, h - 1) {
        HashesPerMatch(H, txids, match_, h - 1, 2 * pos + 1);
        var mid := LeafStart(h - 1, 2 * pos + 1);
        MatchedSplit(match_, lo, mid, hi);
        TwoParts(|Matched(match_, lo, mid)|, |Matched(match_, mid, hi)|, h);
      } else {
        OnePart(|Matched(match_, lo, hi)|, h);
      }
    }
  }

  /** Both documented bounds on the number of hashes hold, for all transactions and selections. */
  lemma HashesBound(H: Combine, txids: seq<Digest>, match_: seq<bool>)
    requires |match_| == |txids| && txids != []
    ensures
      var n := |Encode(H, txids, match_).hashes|;
      n <= |txids| && n <= 1 + |Matched(match_, 0, |txids|)| * TreeHeight(|txids|)
  {
    hide Build, Matched, Width, LeafStart, LeafEnd, HeightFrom;
    RootExists(|txids|);
    EncodeSize(H, txids, match_);
    HashesPerMatch(H, txids, match_, TreeHeight(|txids|), 0);
  }

  // ---------------------------------------------------------------------------
  // The number of bits
  // ---------------------------------------------------------------------------

  /** On how many levels, up to height `h`, an odd edge has a match above it. */
  ghost function OddEdges(match_: seq<bool>, h: nat): (r: nat)
    ensures r <= h
  {
    if h == 0 then 0 else OddEdges(match_, h - 1) + if OddEdge(match_, h) then 1 else 0
  }

  lemma {:induction false} NoOddEdges(match_: seq<bool>, h: nat)
    requires forall k :: 1 <= k <= h ==> !OddEdge(match_, k)
    ensures OddEdges(match_, h) == 0
  {
    if h > 0 {
      NoOddEdges(match_, h - 1);
    }
  }

  /** The only children among the expanded nodes are those at odd edges with a match above them. */
  lemma {:induction false} OnlyChildCount(match_: seq<bool>, h: nat)
    requires Width(|match_|, h) > 0
    ensures OnlyChildren(match_, h, Width(|match_|, h) - 1) == OddEdges(match_, h)
    decreases h
  {
    hide LeafStart, LeafEnd, Width, Pow2, AnyMatch;
    var n := |match_|;
    if h > 0 {
      var pos := Width(n, h) - 1;
      LeftChild(n, h, pos);
      WidthHalves(n, h);
      ChildLeaves(n, h, pos);
      LastLeafEnd(n, h);
      OnlyChildCount(match_, h - 1);
      EdgeMonotone(match_, h);
      if Width(n, h - 1) % 2 == 0 {
        InnerNodesFull(match_, h - 1, 2 * pos);
      }
      assert OddEdge(match_, h) <==> Width(n, h - 1) % 2 == 1 && AnyMatch(match_, LeafStart(h, pos), n);
      if !AnyMatch(match_, LeafStart(h, pos), n) {
        NoOddEdges(match_, h);
      }
    }
  }

  lemma BitCount(H: Combine, txids: seq<Digest>, match_: seq<bool>)
    requires |match_| == |txids| && txids != []
    ensures
      var e := Encode(H, txids, match_);
      |e.bits| == 2 * |e.hashes| - 1 + OddEdges(match_, TreeHeight(|txids|)) && |e.hashes| >= 1
  {
    hide Build, Width, HeightFrom, OnlyChildren, OddEdges;
    RootExists(|txids|);
    EncodeSize(H, txids, match_);
    OnlyChildCount(match_, TreeHeight(|txids|));
  }

  // ---------------------------------------------------------------------------
  // The serialized size
  // ---------------------------------------------------------------------------

  function FlagBytes(e: Encoded): nat {
    (|e.bits| + 7) / 8
  }

  /** Transaction count, hashes and flag bytes, the last two with their counts. */
  function WireSize(e: Encoded): nat {
    4 + Coins.CompactSize(|e.hashes|) + 32 * |e.hashes| + Coins.CompactSize(FlagBytes(e)) + FlagBytes(e)
  }

  /** 10 + ceil(32.25 N) */
  function PromisedSize(n: nat): nat {
    10 + 32 * n + (n + 3) / 4
  }

  /** A tree over as many transactions as a block may have is at most fifteen levels high. */
  lemma LowTree(n: nat)
    requires 0 < n <= Coins.MAX_BLOCK_SIZE / 60
    ensures TreeHeight(n) <= 15
  {
    assert Pow2(5) == 32;
    assert Pow2(10) == 1024;
    assert Pow2(15) == 32768;
    assert Width(n, 15) == 1;
  }

  /** The sum behind the bound, for `n` hashes and `only` bits more than 2n - 1. */
  lemma SizeSum(n: nat, only: nat)
    requires 1 <= n <= Coins.MAX_BLOCK_SIZE / 60 && only <= 15
    ensures
      var bytes := (2 * n - 1 + only + 7) / 8;
      4 + Coins.CompactSize(n) + 32 * n + Coins.CompactSize(bytes) + bytes <= PromisedSize(n) <==>
        bytes < 253 || (2 * n + 6) % 8 + only < 8
  {
    var bytes, q := (2 * n + 6 + only) / 8, (2 * n + 6) / 8;
    assert (n + 3) / 4 == q;
    assert q <= bytes <= q + 2;
    assert bytes == q <==> (2 * n + 6) % 8 + only < 8;
  }

  /**
    The documented size holds exactly if there are fewer than 253 flag bytes, or
    the bits for only children fit in what rounding up leaves of the last byte.
   */
  lemma SizeBound(H: Combine, txids: seq<Digest>, match_: seq<bool>)
    requires |match_| == |txids| && 0 < |txids| <= Coins.MAX_BLOCK_SIZE / 60
    ensures
      var e := Encode(H, txids, match_);
      WireSize(e) <= PromisedSize(|e.hashes|) <==>
        FlagBytes(e) < 253 || (2 * |e.hashes| + 6) % 8 + OddEdges(match_, TreeHeight(|txids|)) < 8
  {
    hide Encode, OddEdges, HeightFrom, Coins.CompactSize;
    var e, only := Encode(H, txids, match_), OddEdges(match_, TreeHeight(|txids|));
    BitCount(H, txids, match_);
    LowTree(|txids|);
    HashesBound(H, txids, match_);
    assert FlagBytes(e) == (2 * |e.hashes| - 1 + only + 7) / 8;
    SizeSum(|e.hashes|, only);
  }

  // ---------------------------------------------------------------------------
  // A tree that is larger
  // ---------------------------------------------------------------------------

  predicate AllTrue(match_: seq<bool>) {
    forall i :: 0 <= i < |match_| ==> match_[i]
  }

  /** If everything is selected, every transaction has a hash. */
  lemma {:induction false} AllHashes(H: Combine, txids: seq<Digest>, match_: seq<bool>, h: nat, pos: nat)
    requires |match_| == |txids| && pos < Width(|txids|, h) && AllTrue(match_)
    ensures |Build(H, txids, match_, h, pos).hashes| == LeafEnd(|txids|, h, pos) - LeafStart(h, pos)
    decreases h
  {
    hide LeafStart, LeafEnd, Width, Pow2, CalcHash, Build;
    var n := |txids|;
    if h == 0 {
      LeafAt(n, pos);
      BuildLeaf(H, txids, match_, h, pos);
    } else {
      LeftChild(n, h, pos);
      ChildLeaves(n, h, pos);
      assert match_[LeafStart(h, pos)];
      BuildExpanded(H, txids, match_, h, pos);
      AllHashes(H, txids, match_, h - 1, 2 * pos);
      if 2 * pos + 1 < Width(n, h - 1) {
        AllHashes(H, txids, match_, h - 1, 2 * pos + 1);
      }
    }
  }

  /** And every level of odd width has an odd edge. */
  lemma OddWidth(match_: seq<bool>, k: nat)
    requires AllTrue(match_) && match_ != [] && k > 0
    ensures OddEdge(match_, k) <==> Width(|match_|, k - 1) % 2 == 1
  {
    hide Width, LeafStart, Pow2;
    var n := |match_|;
    WidthPositive(n, k);
    LastLeafStarts(n, k);
    assert match_[LeafStart(k, Width(n, k) - 1)];
  }

  lemma WidthPositive(n: nat, h: nat)
    requires n > 0
    ensures Width(n, h) > 0
  {
    NodeExists(n, h, 0);
  }

  lemma LastLeafStarts(n: nat, h: nat)
    requires Width(n, h) > 0
    ensures LeafStart(h, Width(n, h) - 1) < n
  {
    NodeExists(n, h, Width(n, h) - 1);
  }

  /** The widths of the levels over 1028 transactions. */
  lemma Widths()
    ensures Width(1028, 0) == 1028 && Width(1028, 1) == 514 && Width(1028, 2) == 257 && Width(1028, 3) == 129
    ensures Width(1028, 4) == 65 && Width(1028, 5) == 33 && Width(1028, 6) == 17 && Width(1028, 7) == 9
    ensures Width(1028, 8) == 5 && Width(1028, 9) == 3 && Width(1028, 10) == 2 && Width(1028, 11) == 1
  {
    assert Width(1028, 0) == 1028;
    hide Width;
    WidthHalves(1028, 1);
    WidthHalves(1028, 2);
    WidthHalves(1028, 3);
    WidthHalves(1028, 4);
    WidthHalves(1028, 5);
    WidthHalves(1028, 6);
    WidthHalves(1028, 7);
    WidthHalves(1028, 8);
    WidthHalves(1028, 9);
    WidthHalves(1028, 10);
    WidthHalves(1028, 11);
  }

  lemma OneLevel(match_: seq<bool>, h: nat)
    requires h > 0
    ensures OddEdges(match_, 0) == 0
    ensures OddEdges(match_, h) == OddEdges(match_, h - 1) + if OddEdge(match_, h) then 1 else 0
  {
    hide OddEdge;
  }

  /** Eight of the levels below the root of 1028 transactions have an odd width. */
  lemma EightOddEdges(match_: seq<bool>)
    requires |match_| == 1028 && AllTrue(match_)
    ensures OddEdges(match_, 11) == 8
  {
    hide Width, OddEdge, OddEdges;
    Widths();
    forall k | 1 <= k <= 11
      ensures OddEdge(match_, k) <==> Width(1028, k - 1) % 2 == 1
    {
      OddWidth(match_, k);
    }
    assert OddEdges(match_, 2) == 0 by {
      OneLevel(match_, 1);
      OneLevel(match_, 2);
    }
    assert OddEdges(match_, 6) == 4 by {
      OneLevel(match_, 3);
      OneLevel(match_, 4);
      OneLevel(match_, 5);
      OneLevel(match_, 6);
    }
    assert OddEdges(match_, 10) == 8 by {
      OneLevel(match_, 7);
      OneLevel(match_, 8);
      OneLevel(match_, 9);
      OneLevel(match_, 10);
    }
    OneLevel(match_, 11);
  }

  /** With 1028 transactions, all selected, the documented size is exceeded. */
  lemma LargerThanPromised(H: Combine, txids: seq<Digest>, match_: seq<bool>)
    requires |txids| == |match_| == 1028 && AllTrue(match_)
    ensures
      var e := Encode(H, txids, match_);
      |e.hashes| == 1028 && WireSize(e) > PromisedSize(1028)
  {
    hide Build, OddEdges, Width, LeafStart, LeafEnd, HeightFrom, AllTrue, Coins.CompactSize;
    var e := Encode(H, txids, match_);
    Widths();
    RootExists(1028);
    assert TreeHeight(1028) == 11;
    EncodeSize(H, txids, match_);
    AllHashes(H, txids, match_, 11, 0);
    EightOddEdges(match_);
    BitCount(H, txids, match_);
    SizeBound(H, txids, match_);
  }
}
