/**
  The Merkle root of a block, `CBlock::BuildMerkleTree` of primitives/block.cpp,
  and what its flag for duplicated transactions (CVE-2012-2459) finds out.
 */
module MerkleTree {
  import opened Arithmetic
  import opened PartialMerkle

  // ---------------------------------------------------------------------------
  // Level by level
  // ---------------------------------------------------------------------------

  /** The next level: neighbours are hashed together, a last one without a neighbour with itself. */
  function Level(H: Combine, s: seq<Digest>): (r: seq<Digest>)
    ensures |r| == (|s| + 1) / 2
  {
    seq((|s| + 1) / 2, i requires 0 <= i < (|s| + 1) / 2 => H(s[2 * i], s[if 2 * i + 1 < |s| then 2 * i + 1 else 2 * i]))
  }

  function Root(H: Combine, s: seq<Digest>): Digest
    decreases |s|
  {
    if s == [] then NULL else if |s| == 1 then s[0] else Root(H, Level(H, s))
  }

  /** Two identical digests at the end of a level. */
  predicate Twins(s: seq<Digest>) {
    |s| > 1 && |s| % 2 == 0 && s[|s| - 2] == s[|s| - 1]
  }

  /** What the flag means. */
  predicate Mutated(H: Combine, s: seq<Digest>)
    decreases |s|
  {
    |s| > 1 && (Twins(s) || Mutated(H, Level(H, s)))
  }

  /** Identical digests at the end of a level that has others too. */
  predicate Doubled(H: Combine, s: seq<Digest>)
    decreases |s|
  {
    |s| > 2 && (Twins(s) || Doubled(H, Level(H, s)))
  }

  /** The two halves of the tree are the same. */
  predicate SameHalves(H: Combine, s: seq<Digest>)
    decreases |s|
  {
    if |s| <= 2 then Twins(s) else SameHalves(H, Level(H, s))
  }

  /** Txids are not digests of two others. */
  ghost predicate Leaves(H: Combine, s: seq<Digest>) {
    s != [] && forall i, a, b :: 0 <= i < |s| ==> s[i] != H(a, b)
  }

  lemma {:induction false} MutatedCases(H: Combine, s: seq<Digest>)
    ensures Mutated(H, s) <==> Doubled(H, s) || SameHalves(H, s)
    decreases |s|
  {
    if |s| > 1 {
      MutatedCases(H, Level(H, s));
    }
  }

  // ---------------------------------------------------------------------------
  // The root determines the transactions
  // ---------------------------------------------------------------------------

  /** `k` levels up. */
  function Up(H: Combine, s: seq<Digest>, k: nat): (r: seq<Digest>)
    ensures s != [] ==> r != []
  {
    if k == 0 then s else Level(H, Up(H, s, k - 1))
  }

  function Depth(H: Combine, s: seq<Digest>): nat
    decreases |s|
  {
    if |s| <= 1 then 0 else 1 + Depth(H, Level(H, s))
  }

  lemma {:induction false} UpShift(H: Combine, s: seq<Digest>, k: nat)
    ensures Up(H, s, k + 1) == Up(H, Level(H, s), k)
  {
    hide Level;
    if k > 0 {
      UpShift(H, s, k - 1);
    }
  }

  lemma {:induction false} RootIsTop(H: Combine, s: seq<Digest>)
    requires s != []
    ensures |Up(H, s, Depth(H, s))| == 1 && Root(H, s) == Up(H, s, Depth(H, s))[0]
    decreases |s|
  {
    hide Level, Up;
    if |s| > 1 {
      RootIsTop(H, Level(H, s));
      UpShift(H, s, Depth(H, Level(H, s)));
    } else {
      UpNone(H, s);
    }
  }

  lemma UpNone(H: Combine, s: seq<Digest>)
    ensures Up(H, s, 0) == s
  {
  }

  /** The first digest above the leaves is that of two others. */
  lemma UpFirst(H: Combine, s: seq<Digest>, k: nat) returns (b: Digest)
    requires s != []
    ensures Up(H, s, k + 1)[0] == H(Up(H, s, k)[0], b)
  {
    hide Up;
    UpNext(H, s, k);
    var u := Up(H, s, k);
    b := u[if 1 < |u| then 1 else 0];
    assert Level(H, u)[0] == H(u[2 * 0], b);
  }

  lemma UpNext(H: Combine, s: seq<Digest>, k: nat)
    ensures Up(H, s, k + 1) == Level(H, Up(H, s, k))
  {
  }

  /** With the same root, the first digests are the same at every level, counted from the top. */
  lemma {:induction false} FirstAgree(H: Combine, s: seq<Digest>, t: seq<Digest>)
    requires Injective(H) && s != [] && t != [] && Root(H, s) == Root(H, t) && Depth(H, s) <= Depth(H, t)
    ensures s[0] == Up(H, t, Depth(H, t) - Depth(H, s))[0]
    decreases |s|
  {
    hide Level, Up;
    if |s| == 1 {
      RootIsTop(H, t);
    } else {
      FirstAgree(H, Level(H, s), t);
      var b := UpFirst(H, t, Depth(H, t) - Depth(H, s));
      UpNone(H, s);
      UpNext(H, s, 0);
      var c := UpFirst(H, s, 0);
    }
  }

  lemma SameDepth(H: Combine, s: seq<Digest>, t: seq<Digest>)
    requires Injective(H) && Leaves(H, s) && t != [] && Root(H, s) == Root(H, t)
    ensures Depth(H, t) <= Depth(H, s)
  {
    hide Level, Up, Root, Depth;
    if Depth(H, t) > Depth(H, s) {
      FirstAgree(H, s, t);
      var b := UpFirst(H, t, Depth(H, t) - Depth(H, s) - 1);
    }
  }

  /** A level determines the one below it, up to twins at the end. */
  lemma LevelDetermines(H: Combine, s: seq<Digest>, t: seq<Digest>)
    requires Injective(H) && |s| > 1 && |t| > 1 && Level(H, s) == Level(H, t)
    ensures |s| == |t| ==> s == t
    ensures |s| < |t| ==> Twins(t)
  {
    forall i | 0 <= i < |s| && i < |t|
      ensures s[i] == t[i]
    {
      var j := i / 2;
      assert Level(H, s)[j] == Level(H, t)[j];
      assert s[2 * j] == t[2 * j];
    }
    if |s| < |t| {
      var j := |s| / 2;
      assert Level(H, s)[j] == Level(H, t)[j];
    }
  }

  lemma {:induction false} UndoubledAgree(H: Combine, s: seq<Digest>, t: seq<Digest>)
    requires Injective(H) && s != [] && t != [] && Root(H, s) == Root(H, t) && Depth(H, s) == Depth(H, t)
    requires !Doubled(H, s) && !Doubled(H, t)
    ensures s == t
    decreases |s|
  {
    if |s| > 1 {
      UndoubledAgree(H, Level(H, s), Level(H, t));
      LevelDetermines(H, s, t);
      LevelDetermines(H, t, s);
    }
  }

  /** Of all lists with one root, only one has no doubled end. */
  lemma RootDetermines(H: Combine, s: seq<Digest>, t: seq<Digest>)
    requires Injective(H) && Leaves(H, s) && Leaves(H, t) && Root(H, s) == Root(H, t)
    requires !Doubled(H, s) && !Doubled(H, t)
    ensures s == t
  {
    SameDepth(H, s, t);
    SameDepth(H, t, s);
    UndoubledAgree(H, s, t);
  }

  // ---------------------------------------------------------------------------
  // What is flagged
  // ---------------------------------------------------------------------------

  lemma LevelWithoutTwin(H: Combine, s: seq<Digest>)
    requires Twins(s)
    ensures Level(H, s[..|s| - 1]) == Level(H, s)
  {
  }

  lemma LevelPrefix(H: Combine, s: seq<Digest>, m: nat)
    requires 2 * m <= |s|
    ensures Level(H, s[..2 * m]) == Level(H, s)[..m]
  {
  }

  /** A doubled end can be left out without changing the root. */
  lemma {:induction false} DoubledIsLonger(H: Combine, s: seq<Digest>) returns (n: nat)
    requires Doubled(H, s)
    ensures 1 < n < |s| && Root(H, s[..n]) == Root(H, s)
    decreases |s|
  {
    hide Level;
    if Twins(s) {
      n := |s| - 1;
      LevelWithoutTwin(H, s);
    } else {
      var m := DoubledIsLonger(H, Level(H, s));
      n := 2 * m;
      LevelPrefix(H, s, m);
    }
  }

  /** Every list has the list it was made from: a part of it with the same root and no doubled end. */
  lemma {:induction false} Original(H: Combine, s: seq<Digest>) returns (n: nat)
    requires s != []
    ensures 0 < n <= |s| && Root(H, s[..n]) == Root(H, s) && !Doubled(H, s[..n])
    decreases |s|
  {
    if Doubled(H, s) {
      var m := DoubledIsLonger(H, s);
      n := Original(H, s[..m]);
      assert s[..m][..n] == s[..n];
    } else {
      n := |s|;
      assert s[..n] == s;
    }
  }

  /** A shorter list of transactions has the same root. */
  ghost predicate HasShorter(H: Combine, s: seq<Digest>) {
    exists t :: Leaves(H, t) && |t| < |s| && Root(H, t) == Root(H, s)
  }

  lemma LeavesPrefix(H: Combine, s: seq<Digest>, n: nat)
    requires Leaves(H, s) && 0 < n <= |s|
    ensures Leaves(H, s[..n])
  {
  }

  /**
    The flag is set exactly for lists that are longer than another one with the
    same root, and for those whose two halves are the same.
   */
  lemma MutatedIff(H: Combine, s: seq<Digest>)
    requires Injective(H) && Leaves(H, s)
    ensures Doubled(H, s) <==> HasShorter(H, s)
    ensures Mutated(H, s) <==> HasShorter(H, s) || SameHalves(H, s)
  {
    MutatedCases(H, s);
    if Doubled(H, s) {
      var n := DoubledIsLonger(H, s);
      LeavesPrefix(H, s, n);
      assert Leaves(H, s[..n]) && |s[..n]| < |s|;
    } else if HasShorter(H, s) {
      var t :| Leaves(H, t) && |t| < |s| && Root(H, t) == Root(H, s);
      var n := Original(H, t);
      LeavesPrefix(H, t, n);
      RootDetermines(H, s, t[..n]);
      assert false;
    }
  }

  /** Two lists that pass the check against the same root are the same: nothing can be changed without changing the root. */
  lemma CheckedRootDetermines(H: Combine, s: seq<Digest>, t: seq<Digest>)
    requires Injective(H) && Leaves(H, s) && Leaves(H, t) && Root(H, s) == Root(H, t)
    ensures !Mutated(H, s) && !Mutated(H, t) ==> s == t
    ensures s != t ==> Mutated(H, s) || Mutated(H, t)
  {
    MutatedCases(H, s);
    MutatedCases(H, t);
    if !Doubled(H, s) && !Doubled(H, t) {
      RootDetermines(H, s, t);
    }
  }

  // ---------------------------------------------------------------------------
  // The same root as that of partial trees
  // ---------------------------------------------------------------------------

  lemma {:induction false} UpWidth(H: Combine, s: seq<Digest>, h: nat)
    ensures |Up(H, s, h)| == Width(|s|, h)
  {
    hide Level, Width;
    if h > 0 {
      UpWidth(H, s, h - 1);
      WidthHalves(|s|, h);
    } else {
      BottomWidth(|s|);
    }
  }

  lemma BottomWidth(n: nat)
    ensures Width(n, 0) == n
  {
  }

  lemma {:induction false} UpIsCalcHash(H: Combine, s: seq<Digest>, h: nat, pos: nat)
    requires pos < Width(|s|, h)
    ensures pos < |Up(H, s, h)| && Up(H, s, h)[pos] == CalcHash(H, s, h, pos)
    decreases h
  {
    hide Width, Up;
    UpWidth(H, s, h);
    if h == 0 {
      UpNone(H, s);
      NodeExists(|s|, 0, pos);
    } else {
      UpNext(H, s, h - 1);
      UpWidth(H, s, h - 1);
      LeftChild(|s|, h, pos);
      UpIsCalcHash(H, s, h - 1, 2 * pos);
      if 2 * pos + 1 < Width(|s|, h - 1) {
        UpIsCalcHash(H, s, h - 1, 2 * pos + 1);
      }
      LevelAt(H, Up(H, s, h - 1), pos);
    }
  }

  lemma LevelAt(H: Combine, s: seq<Digest>, i: nat)
    requires i < |Level(H, s)|
    ensures 2 * i < |s| && Level(H, s)[i] == H(s[2 * i], if 2 * i + 1 < |s| then s[2 * i + 1] else s[2 * i])
  {
  }

  lemma {:induction false} DepthIsHeight(H: Combine, s: seq<Digest>, k: nat)
    requires s != []
    ensures k + Depth(H, Up(H, s, k)) == HeightFrom(|s|, k)
    decreases |Up(H, s, k)|
  {
    hide Level, Width;
    UpWidth(H, s, k);
    if |Up(H, s, k)| > 1 {
      UpNext(H, s, k);
      DepthIsHeight(H, s, k + 1);
      WidthShrinks(|s|, k);
    }
  }

  /** Level by level and node by node, the root is the same. */
  lemma RootIsMerkleRoot(H: Combine, s: seq<Digest>)
    requires s != []
    ensures Root(H, s) == MerkleRoot(H, s)
  {
    hide Level, Up, Width, CalcHash, Depth, Root, HeightFrom;
    RootIsTop(H, s);
    UpNone(H, s);
    DepthIsHeight(H, s, 0);
    RootExists(|s|);
    UpIsCalcHash(H, s, TreeHeight(|s|), 0);
  }

  // ---------------------------------------------------------------------------
  // BuildMerkleTree
  // ---------------------------------------------------------------------------

  /** The inner loop: one more level is put behind the one of `nSize` digests at `j`. */
  method PushLevel(H: Combine, vMerkleTree: seq<Digest>, j: nat, nSize: nat) returns (r: seq<Digest>, twins: bool)
    requires j + nSize == |vMerkleTree| && nSize > 1
    ensures r == vMerkleTree + Level(H, vMerkleTree[j..]) && twins == Twins(vMerkleTree[j..])
  {
    hide Level;
    ghost var s := vMerkleTree[j..];
    r, twins := vMerkleTree, false;
    var i := 0;
    while i < nSize
      invariant i <= nSize + 1 && i % 2 == 0 && i / 2 <= |Level(H, s)| && r == vMerkleTree + Level(H, s)[..i / 2]
      invariant twins == (Twins(s) && i >= nSize)
    {
      var i2 := if i + 1 < nSize - 1 then i + 1 else nSize - 1;
      if i2 == i + 1 && i2 + 1 == nSize && r[j + i] == r[j + i2] {
        twins := true;
      }
      LevelAt(H, s, i / 2);
      r := r + [H(r[j + i], r[j + i2])];
      i := i + 2;
    }
    assert Level(H, s)[..i / 2] == Level(H, s);
  }

  /** `BuildMerkleTree`. */
  method BuildMerkleTree(H: Combine, txids: seq<Digest>) returns (root: Digest, mutated: bool)
    ensures root == Root(H, txids) && mutated == Mutated(H, txids)
  {
    hide Level, Twins;
    var vMerkleTree := txids;
    var j: nat, nSize: nat := 0, |txids|;
    mutated := false;
    assert vMerkleTree[0..] == txids;
    while nSize > 1
      invariant j + nSize == |vMerkleTree| && (if txids == [] then vMerkleTree == [] else nSize > 0)
      invariant Root(H, vMerkleTree[j..]) == Root(H, txids)
      invariant mutated || Mutated(H, vMerkleTree[j..]) <==> Mutated(H, txids)
      decreases nSize
    {
      ghost var s := vMerkleTree[j..];
      var twins;
      vMerkleTree, twins := PushLevel(H, vMerkleTree, j, nSize);
      mutated := mutated || twins;
      j := j + nSize;
      nSize := (nSize + 1) / 2;
      assert vMerkleTree[j..] == Level(H, s);
    }
    assert vMerkleTree != [] ==> vMerkleTree[j..] == [vMerkleTree[j]];
    root := if vMerkleTree == [] then NULL else vMerkleTree[|vMerkleTree| - 1];
  }

  /** The Merkle part of `CheckBlock`. */
  method CheckMerkleRoot(H: Combine, txids: seq<Digest>, hashMerkleRoot: Digest) returns (ok: bool)
    ensures ok <==> hashMerkleRoot == Root(H, txids) && !Mutated(H, txids)
  {
    var root, mutated := BuildMerkleTree(H, txids);
    ok := hashMerkleRoot == root && !mutated;
  }
}
