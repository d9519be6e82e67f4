/**
  Best-chain selection of main.cpp: which blocks are linked to genesis, which of
  them are candidates for the tip, and how the active chain is moved to the best
  candidate. Block validity is a fixed predicate, and each section under
  `cs_main` is one call.
 */
module ChainSelection {
  import opened BlockTree
  import opened Options

  // ---------------------------------------------------------------------------
  // What the globals hold at one moment
  // ---------------------------------------------------------------------------

  /** `nChainTx` is kept for the blocks where it is not zero. */
  datatype State = State(
    tree: Tree,
    haveData: set<Id>,
    failed: set<Id>,
    nTx: map<Id, nat>,
    chainTx: map<Id, nat>,
    seqId: map<Id, nat>,
    candidates: set<Id>,
    unlinked: set<(Id, Id)>,
    tip: Option<Id>)

  type Validity = Id -> bool

  function SeqOf(seqId: map<Id, nat>, b: Id): nat {
    if b in seqId then seqId[b] else 0
  }

  /** `CBlockIndexWorkComparator`: less work, or later received, or the higher address. */
  predicate Less(t: Tree, seqId: map<Id, nat>, a: Id, b: Id)
    requires a in t && b in t
  {
    if t[a].work != t[b].work then t[a].work < t[b].work
    else if SeqOf(seqId, a) != SeqOf(seqId, b) then SeqOf(seqId, a) > SeqOf(seqId, b)
    else a > b
  }

  ghost predicate AllValid(t: Tree, valid: Validity, b: Id)
    requires Wf(t) && b in t
  {
    forall a :: a in Path(t, b) ==> valid(a)
  }

  ghost predicate Unfailed(t: Tree, failed: set<Id>, b: Id)
    requires Wf(t) && b in t
  {
    forall a :: a in Path(t, b) ==> a !in failed
  }

  // ---------------------------------------------------------------------------
  // The invariant
  // ---------------------------------------------------------------------------

  ghost predicate Domains(st: State) {
    && Skips(st.tree)
    && st.haveData <= st.tree.Keys
    && st.failed <= st.tree.Keys
    && st.candidates <= st.chainTx.Keys <= st.haveData <= st.nTx.Keys
    && (st.tip.Some? ==> st.tip.value in st.tree)
  }

  /** `b` has its data and so does every block below it, as far as `nChainTx` tells. */
  ghost predicate LinkOk(st: State, b: Id)
    requires Domains(st) && b in st.haveData
  {
    && st.nTx[b] > 0
    && match st.tree[b].prev
       case None => b in st.chainTx && st.chainTx[b] == st.nTx[b]
       case Some(p) =>
         if p in st.chainTx then b in st.chainTx && st.chainTx[b] == st.chainTx[p] + st.nTx[b]
         else b !in st.chainTx && ((p, b) in st.unlinked || (p in st.failed && p !in st.haveData))
  }

  ghost predicate UnlinkedOk(st: State, p: Id, b: Id)
    requires Domains(st)
  {
    b in st.haveData && st.tree[b].prev == Some(p) && p !in st.chainTx
  }

  /** What `nChainTx` and `mapBlocksUnlinked` say about the data that has arrived. */
  ghost predicate Links(st: State) {
    && Domains(st)
    && (forall b {:trigger LinkOk(st, b)} :: b in st.haveData ==> LinkOk(st, b))
    && (forall p, b {:trigger UnlinkedOk(st, p, b)} :: (p, b) in st.unlinked ==> UnlinkedOk(st, p, b))
    && (forall b :: b in st.failed && b in st.haveData ==> b in st.chainTx)
  }

  /** Only blocks with an invalid block on their branch are ever marked failed. */
  ghost predicate FailedJustly(st: State, valid: Validity)
    requires Domains(st)
  {
    forall b :: b in st.failed ==> !AllValid(st.tree, valid, b)
  }

  /** Fully linked, and no block on its branch is marked failed. */
  ghost predicate Eligible(st: State, b: Id)
    requires Domains(st)
  {
    b in st.chainTx && Unfailed(st.tree, st.failed, b)
  }

  /** A candidate that can never fail beats `b`. */
  ghost predicate Beaten(st: State, valid: Validity, b: Id)
    requires Domains(st) && b in st.tree
  {
    exists g :: g in st.candidates && AllValid(st.tree, valid, g) && Less(st.tree, st.seqId, b, g)
  }

  /** Pruning has lost nothing: whoever is eligible is a candidate or safely beaten by one. */
  ghost predicate Complete(st: State, valid: Validity)
    requires Domains(st)
  {
    forall b :: b in st.chainTx && b !in st.candidates && Eligible(st, b) ==> Beaten(st, valid, b)
  }

  ghost predicate TipOk(st: State, valid: Validity)
    requires Domains(st)
  {
    st.tip.Some? ==> st.tip.value in st.chainTx && AllValid(st.tree, valid, st.tip.value)
  }

  ghost predicate Inv(st: State, valid: Validity) {
    Links(st) && FailedJustly(st, valid) && Complete(st, valid) && TipOk(st, valid)
  }

  /** Sequence ids tell the blocks that have arrived apart. */
  ghost predicate SeqOk(seqId: map<Id, nat>, haveData: set<Id>) {
    && seqId.Keys == haveData
    && forall a, b :: a in seqId && b in seqId && a != b ==> seqId[a] != seqId[b]
  }

  /** Every sequence id has been given out. */
  ghost predicate SeqBelow(seqId: map<Id, nat>, next: nat) {
    forall b :: b in seqId ==> seqId[b] < next
  }

  /** Ids are kept, and a block that has just been stored has a higher one than all that were there. */
  ghost predicate Numbered(seqId: map<Id, nat>, haveData: set<Id>, seqId': map<Id, nat>, haveData': set<Id>, b: Id) {
    && seqId.Keys == haveData && seqId'.Keys == haveData'
    && (forall x :: x in seqId ==> x in seqId' && seqId'[x] == seqId[x])
    && (b in seqId' && b !in seqId ==> forall x :: x in seqId ==> seqId[x] < seqId'[b])
  }

  lemma SameNumbers(seqId: map<Id, nat>, haveData: set<Id>, b: Id)
    requires SeqOk(seqId, haveData)
    ensures Numbered(seqId, haveData, seqId, haveData, b)
  {
  }

  lemma SeqNext(seqId: map<Id, nat>, haveData: set<Id>, next: nat, b: Id)
    requires SeqOk(seqId, haveData) && SeqBelow(seqId, next) && b !in haveData
    ensures SeqOk(seqId[b := next], haveData + {b}) && SeqBelow(seqId[b := next], next + 1)
    ensures Numbered(seqId, haveData, seqId[b := next], haveData + {b}, b)
  {
  }

  /** Block `m` comes before block `b`: it has more work, or as much and was received earlier. */
  predicate Preferred(st: State, m: Id, b: Id) {
    && m in st.tree && b in st.tree && m in st.seqId && b in st.seqId
    && (st.tree[m].work > st.tree[b].work || (st.tree[m].work == st.tree[b].work && st.seqId[m] < st.seqId[b]))
  }

  /** The tip comes before every other fully linked block without a failed ancestor. */
  ghost predicate BestTip(st: State)
    requires Domains(st)
  {
    forall b :: b in st.chainTx && Eligible(st, b) ==> st.tip.Some? && (b == st.tip.value || Preferred(st, st.tip.value, b))
  }

  // ---------------------------------------------------------------------------
  // Facts about branches
  // ---------------------------------------------------------------------------

  lemma BranchOf(t: Tree, a: Id, b: Id)
    requires Wf(t) && b in t && a in Path(t, b)
    ensures a in t && forall x :: x in Path(t, a) ==> x in Path(t, b)
  {
    var i :| 0 <= i < |Path(t, b)| && Path(t, b)[i] == a;
    PathPrefix(t, b, i);
  }

  lemma ValidBelow(t: Tree, valid: Validity, a: Id, b: Id)
    requires Wf(t) && b in t && a in Path(t, b) && AllValid(t, valid, b)
    ensures a in t && AllValid(t, valid, a)
  {
    BranchOf(t, a, b);
  }

  /** A block whose branch is valid is never marked failed, nor is any block below it. */
  lemma ValidUnfailed(st: State, valid: Validity, b: Id)
    requires Domains(st) && FailedJustly(st, valid) && b in st.tree && AllValid(st.tree, valid, b)
    ensures Unfailed(st.tree, st.failed, b)
  {
    forall a | a in Path(st.tree, b)
      ensures a !in st.failed
    {
      ValidBelow(st.tree, valid, a, b);
    }
  }

  lemma {:induction false} LinkedBelow(st: State, a: Id, b: Id)
    requires Links(st) && b in st.chainTx && a in Path(st.tree, b)
    ensures a in st.chainTx
    decreases st.tree[b].height
  {
    PathPrev(st.tree, b);
    assert LinkOk(st, b);
    if a != b {
      LinkedBelow(st, a, st.tree[b].prev.value);
    }
  }

  /**
    `nChainTx` is not zero exactly when the block and all blocks below it have
    their data, whatever order the data came in.
   */
  lemma {:induction false} LinkedIffAllData(st: State, b: Id)
    requires Links(st) && b in st.tree
    ensures b in st.chainTx <==> forall a :: a in Path(st.tree, b) ==> a in st.haveData
    decreases st.tree[b].height
  {
    var path := Path(st.tree, b);
    PathPrev(st.tree, b);
    if st.tree[b].prev.Some? {
      LinkedIffAllData(st, st.tree[b].prev.value);
      assert path == Path(st.tree, st.tree[b].prev.value) + [b];
    }
    assert b in path;
    if b in st.haveData {
      assert LinkOk(st, b);
    }
  }

  ghost function SumTx(nTx: map<Id, nat>, bs: seq<Id>): nat
    requires forall b :: b in bs ==> b in nTx
  {
    if bs == [] then 0 else SumTx(nTx, bs[..|bs| - 1]) + nTx[bs[|bs| - 1]]
  }

  /** ... and then it is the number of transactions on the branch. */
  lemma {:induction false} ChainTxIsTotal(st: State, b: Id)
    requires Links(st) && b in st.chainTx
    ensures forall a :: a in Path(st.tree, b) ==> a in st.nTx
    ensures st.chainTx[b] == SumTx(st.nTx, Path(st.tree, b))
    decreases st.tree[b].height
  {
    var path := Path(st.tree, b);
    LinkedIffAllData(st, b);
    PathPrev(st.tree, b);
    assert LinkOk(st, b);
    if st.tree[b].prev.Some? {
      var p := st.tree[b].prev.value;
      ChainTxIsTotal(st, p);
      assert path[..|path| - 1] == Path(st.tree, p);
    } else {
      assert path[..0] == [];
    }
  }

  /** Every other block with data waits under its parent, unless the parent can never get its own. */
  lemma WaitingBlocks(st: State, b: Id)
    requires Links(st) && b in st.haveData && b !in st.chainTx
    ensures st.tree[b].prev.Some?
    ensures (st.tree[b].prev.value, b) in st.unlinked || st.tree[b].prev.value in st.failed - st.haveData
  {
    assert LinkOk(st, b);
  }

  // ---------------------------------------------------------------------------
  // The comparator
  // ---------------------------------------------------------------------------

  lemma LessTrans(t: Tree, q: map<Id, nat>, a: Id, b: Id, c: Id)
    requires a in t && b in t && c in t && Less(t, q, a, b) && Less(t, q, b, c)
    ensures Less(t, q, a, c)
  {
  }

  ghost predicate IsMax(t: Tree, q: map<Id, nat>, s: set<Id>, m: Id)
    requires s <= t.Keys
  {
    m in s && forall c :: c in s ==> c == m || Less(t, q, c, m)
  }

  ghost predicate IsMin(t: Tree, q: map<Id, nat>, s: set<Id>, m: Id)
    requires s <= t.Keys
  {
    m in s && forall c :: c in s ==> c == m || Less(t, q, m, c)
  }

  /** `rbegin` of the candidate set. */
  method Last(t: Tree, q: map<Id, nat>, s: set<Id>) returns (m: Id)
    requires s <= t.Keys && s != {}
    ensures IsMax(t, q, s, m)
  {
    m :| m in s;
    var rest := s - {m};
    while rest != {}
      invariant rest <= s && m in s && m !in rest
      invariant forall c :: c in s && c !in rest ==> c == m || Less(t, q, c, m)
      decreases rest
    {
      var c :| c in rest;
      if Less(t, q, m, c) {
        m := c;
      }
      rest := rest - {c};
    }
  }

  /** `begin` of the candidate set. */
  method First(t: Tree, q: map<Id, nat>, s: set<Id>) returns (m: Id)
    requires s <= t.Keys && s != {}
    ensures IsMin(t, q, s, m)
  {
    m :| m in s;
    var rest := s - {m};
    while rest != {}
      invariant rest <= s && m in s && m !in rest
      invariant forall c :: c in s && c !in rest ==> c == m || Less(t, q, m, c)
      decreases rest
    {
      var c :| c in rest;
      if Less(t, q, c, m) {
        m := c;
      }
      rest := rest - {c};
    }
  }

  /** The loop of `PruneBlockIndexCandidates`: erase from the front while worse than the tip. */
  method EraseWorse(t: Tree, q: map<Id, nat>, s: set<Id>, tip: Id) returns (c: set<Id>)
    requires s <= t.Keys && tip in t
    ensures c <= s && forall x :: x in s ==> (x in c <==> !Less(t, q, x, tip))
  {
    c := s;
    while c != {}
      invariant c <= s && forall x :: x in s && x !in c ==> Less(t, q, x, tip)
      decreases c
    {
      var first := First(t, q, c);
      if !Less(t, q, first, tip) {
        break;
      }
      c := c - {first};
    }
  }

  // ---------------------------------------------------------------------------
  // What each change keeps
  // ---------------------------------------------------------------------------

  /** Marking a linked block with an invalid branch, and dropping it from the candidates. */
  lemma FailKeeps(st: State, valid: Validity, b: Id)
    requires Inv(st, valid) && b in st.chainTx && !AllValid(st.tree, valid, b)
    ensures Inv(st.(failed := st.failed + {b}, candidates := st.candidates - {b}), valid)
  {
    var st' := st.(failed := st.failed + {b}, candidates := st.candidates - {b});
    LinksFail(st, st');
    forall x | x in st'.chainTx && x !in st'.candidates && Eligible(st', x)
      ensures Beaten(st', valid, x)
    {
      assert x in Path(st.tree, x);
      assert Eligible(st, x) && x != b;
      assert Beaten(st, valid, x);
    }
  }

  lemma LinksFail(st: State, st': State)
    requires Links(st) && st' == st.(failed := st'.failed, candidates := st'.candidates)
    requires st.failed <= st'.failed <= st.tree.Keys && st'.candidates <= st.candidates
    requires forall b :: b in st'.failed - st.failed && b in st.haveData ==> b in st.chainTx
    ensures Links(st')
  {
    forall b | b in st'.haveData
      ensures LinkOk(st', b)
    {
      assert LinkOk(st, b);
    }
    forall p, b | (p, b) in st'.unlinked
      ensures UnlinkedOk(st', p, b)
    {
      assert UnlinkedOk(st, p, b);
    }
  }

  /** A block whose data is refused is marked failed before it ever has data. */
  lemma RejectKeeps(st: State, valid: Validity, b: Id)
    requires Inv(st, valid) && b in st.tree && b !in st.haveData && !valid(b)
    ensures Inv(st.(failed := st.failed + {b}), valid)
  {
    var st' := st.(failed := st.failed + {b});
    assert b in Path(st.tree, b);
    LinksFail(st, st');
    forall x | x in st'.chainTx && x !in st'.candidates && Eligible(st', x)
      ensures Beaten(st', valid, x)
    {
      assert Eligible(st, x);
      assert Beaten(st, valid, x);
    }
  }

  lemma LinksSubset(st: State, c: set<Id>, tip: Option<Id>)
    requires Links(st) && c <= st.candidates && (tip.Some? ==> tip.value in st.tree)
    ensures Links(st.(candidates := c, tip := tip))
  {
    var st' := st.(candidates := c, tip := tip);
    forall b | b in st'.haveData
      ensures LinkOk(st', b)
    {
      assert LinkOk(st, b);
    }
    forall p, b | (p, b) in st'.unlinked
      ensures UnlinkedOk(st', p, b)
    {
      assert UnlinkedOk(st, p, b);
    }
  }

  /** Moving the tip along valid, linked blocks touches nothing else. */
  lemma TipKeeps(st: State, valid: Validity, tip: Option<Id>)
    requires Inv(st, valid) && (tip.Some? ==> tip.value in st.chainTx && AllValid(st.tree, valid, tip.value))
    ensures Inv(st.(tip := tip), valid)
  {
    var st' := st.(tip := tip);
    LinksSubset(st, st.candidates, tip);
    assert st' == st.(candidates := st.candidates, tip := tip);
    forall x | x in st'.chainTx && x !in st'.candidates && Eligible(st', x)
      ensures Beaten(st', valid, x)
    {
      assert Eligible(st, x) && Beaten(st, valid, x);
    }
  }

  /** Whatever is worse than a valid tip may go, and something always stays. */
  lemma PruneKeeps(st: State, valid: Validity, c: set<Id>)
    requires Inv(st, valid) && st.tip.Some? && c <= st.candidates
    requires forall x :: x in st.candidates ==> (x in c <==> !Less(st.tree, st.seqId, x, st.tip.value))
    ensures Inv(st.(candidates := c), valid) && c != {}
  {
    var st' := st.(candidates := c);
    var tip := st.tip.value;
    LinksSubset(st, c, st.tip);
    assert st' == st.(candidates := c, tip := st.tip);
    // some candidate that can never fail is at least as good as the tip
    ValidUnfailed(st, valid, tip);
    var g := tip;
    if tip !in st.candidates {
      assert Eligible(st, tip) && Beaten(st, valid, tip);
      g :| g in st.candidates && AllValid(st.tree, valid, g) && Less(st.tree, st.seqId, tip, g);
    }
    assert g in c;
    forall x | x in st'.chainTx && x !in st'.candidates && Eligible(st', x)
      ensures Beaten(st', valid, x)
    {
      assert Eligible(st, x);
      PrunedIsBeaten(st, valid, c, x, g);
    }
  }

  lemma PrunedIsBeaten(st: State, valid: Validity, c: set<Id>, x: Id, g: Id)
    requires Inv(st, valid) && st.tip.Some? && c <= st.candidates && x in st.chainTx && x !in c && Eligible(st, x)
    requires forall y :: y in st.candidates ==> (y in c <==> !Less(st.tree, st.seqId, y, st.tip.value))
    requires g in c && AllValid(st.tree, valid, g)
    ensures exists h :: h in c && AllValid(st.tree, valid, h) && Less(st.tree, st.seqId, x, h)
  {
    var tip := st.tip.value;
    if x in st.candidates {
      assert Less(st.tree, st.seqId, x, g);
    } else {
      assert Beaten(st, valid, x);
      var h :| h in st.candidates && AllValid(st.tree, valid, h) && Less(st.tree, st.seqId, x, h);
      assert h in c || Less(st.tree, st.seqId, x, g);
    }
  }

  /** Block `m` comes before every other fully linked block without a failed ancestor. */
  ghost predicate NoneBetter(st: State, m: Id)
    requires Domains(st)
  {
    m in st.tree && forall b :: b in st.chainTx && Eligible(st, b) ==> b == m || Preferred(st, m, b)
  }

  lemma LessIsPreferred(st: State, a: Id, b: Id)
    requires SeqOk(st.seqId, st.haveData) && a in st.haveData && b in st.haveData && st.haveData <= st.tree.Keys
    ensures a != b ==> (Less(st.tree, st.seqId, a, b) <==> Preferred(st, b, a))
  {
  }

  /** The greatest candidate has most work and, of those with as much, was received first. */
  lemma MaxIsFirst(st: State, m: Id)
    requires Domains(st) && SeqOk(st.seqId, st.haveData) && IsMax(st.tree, st.seqId, st.candidates, m)
    ensures forall c :: c in st.candidates && c != m ==> Preferred(st, m, c)
  {
    forall c | c in st.candidates && c != m
      ensures Preferred(st, m, c)
    {
      LessIsPreferred(st, c, m);
    }
  }

  /** The greatest candidate comes before every other eligible block, pruned ones included. */
  lemma MaxIsBest(st: State, valid: Validity, m: Id)
    requires Inv(st, valid) && SeqOk(st.seqId, st.haveData) && IsMax(st.tree, st.seqId, st.candidates, m)
    ensures NoneBetter(st, m)
  {
    forall b | b in st.chainTx && Eligible(st, b) && b != m
      ensures Preferred(st, m, b)
    {
      if b !in st.candidates {
        assert Beaten(st, valid, b);
        var g :| g in st.candidates && AllValid(st.tree, valid, g) && Less(st.tree, st.seqId, b, g);
        assert g == m || Less(st.tree, st.seqId, g, m);
      }
      LessIsPreferred(st, b, m);
    }
  }

  /** Nothing to do: no candidate, or the tip is the greatest. */
  lemma TopIsBest(st: State, valid: Validity)
    requires Inv(st, valid) && SeqOk(st.seqId, st.haveData)
    requires st.candidates == {} || (st.tip.Some? && IsMax(st.tree, st.seqId, st.candidates, st.tip.value))
    ensures BestTip(st)
  {
    hide FailedJustly, TipOk, Preferred, SeqOk, Skips;
    if st.candidates != {} {
      MaxIsBest(st, valid, st.tip.value);
    }
  }

  /** A valid tip is given up only for a block that comes before it. */
  lemma TargetIsPreferred(st: State, valid: Validity, m: Id)
    requires Inv(st, valid) && NoneBetter(st, m) && st.tip.Some? && st.tip != Some(m)
    ensures Preferred(st, m, st.tip.value)
  {
    hide Complete, Preferred, Skips, LinkOk, UnlinkedOk;
    ValidUnfailed(st, valid, st.tip.value);
    assert Eligible(st, st.tip.value);
  }

  /** Marking more blocks leaves fewer to compare with. */
  lemma NoneBetterKept(st: State, st': State, m: Id)
    requires Domains(st) && Domains(st') && NoneBetter(st, m)
    requires st'.tree == st.tree && st'.chainTx == st.chainTx && st'.seqId == st.seqId && st.failed <= st'.failed
    ensures NoneBetter(st', m)
  {
    forall b | b in st'.chainTx && Eligible(st', b) && b != m
      ensures Preferred(st', m, b)
    {
      assert Unfailed(st.tree, st.failed, b);
      assert Eligible(st, b);
    }
  }

  // ---------------------------------------------------------------------------
  // Linking blocks whose data has arrived
  // ---------------------------------------------------------------------------

  /** A block of the worklist: its parent is linked and it is about to be. */
  ghost predicate QueuedOk(st: State, b: Id)
    requires Domains(st) && b in st.haveData
  {
    && st.nTx[b] > 0 && b !in st.chainTx
    && (st.tree[b].prev.Some? ==> st.tree[b].prev.value in st.chainTx)
  }

  ghost predicate PendingPair(st: State, w: set<Id>, p: Id, b: Id)
    requires Domains(st)
  {
    b in st.haveData && st.tree[b].prev == Some(p) && (p in st.chainTx <==> b in w)
  }

  /** `Links`, except that the blocks in `w` still have to be linked. */
  ghost predicate Pending(st: State, w: set<Id>) {
    && Domains(st) && w <= st.haveData
    && (forall b {:trigger QueuedOk(st, b)} :: b in w ==> QueuedOk(st, b))
    && (forall b {:trigger LinkOk(st, b)} :: b in st.haveData - w ==> LinkOk(st, b))
    && (forall p, b {:trigger PendingPair(st, w, p, b)} :: (p, b) in st.unlinked ==> PendingPair(st, w, p, b))
    && (forall b :: b in st.failed && b in st.haveData ==> b in st.chainTx)
  }

  function Children(unlinked: set<(Id, Id)>, p: Id): set<Id> {
    set e | e in unlinked && e.0 == p :: e.1
  }

  lemma PendingNone(st: State)
    ensures Pending(st, {}) <==> Links(st)
  {
    if Pending(st, {}) {
      forall p, b | (p, b) in st.unlinked
        ensures UnlinkedOk(st, p, b)
      {
        assert PendingPair(st, {}, p, b);
      }
    }
    if Links(st) {
      forall p, b | (p, b) in st.unlinked
        ensures PendingPair(st, {}, p, b)
      {
        assert UnlinkedOk(st, p, b);
      }
    }
  }

  function ChainTxBelow(st: State, b: Id): nat
    requires b in st.tree
  {
    if st.tree[b].prev.Some? && st.tree[b].prev.value in st.chainTx then st.chainTx[st.tree[b].prev.value] else 0
  }

  /** The state after `c` has been linked and made a candidate. */
  function LinkedState(st: State, c: Id): State
    requires c in st.tree && c in st.nTx
  {
    st.(chainTx := st.chainTx[c := ChainTxBelow(st, c) + st.nTx[c]], candidates := st.candidates + {c})
  }

  /** Nothing waits for `c` any more. */
  ghost predicate Dequeued(st: State, c: Id)
    requires c in st.tree
  {
    st.tree[c].prev.Some? ==> (st.tree[c].prev.value, c) !in st.unlinked
  }

  /** Linking one block makes the blocks that wait under it ready. */
  lemma LinkOne(st: State, w: set<Id>, c: Id)
    requires Pending(st, w) && c in w && Dequeued(st, c)
    ensures Pending(LinkedState(st, c), w - {c} + Children(st.unlinked, c))
  {
    var st', w' := LinkedState(st, c), w - {c} + Children(st.unlinked, c);
    assert QueuedOk(st, c);
    PathPrev(st.tree, c);
    forall b | b in w'
      ensures b in st'.haveData && QueuedOk(st', b)
    {
      LinkOneQueued(st, w, c, b);
    }
    forall b | b in st'.haveData - w'
      ensures LinkOk(st', b)
    {
      LinkOneLinked(st, w, c, b);
    }
    forall p, b | (p, b) in st'.unlinked
      ensures PendingPair(st', w', p, b)
    {
      assert PendingPair(st, w, p, b);
      if b in Children(st.unlinked, c) {
        assert PendingPair(st, w, c, b);
      }
    }
  }

  lemma LinkOneQueued(st: State, w: set<Id>, c: Id, b: Id)
    requires Pending(st, w) && c in w && Domains(LinkedState(st, c)) && b in w - {c} + Children(st.unlinked, c)
    ensures b in st.haveData && QueuedOk(LinkedState(st, c), b)
  {
    assert QueuedOk(st, c);
    if b in Children(st.unlinked, c) {
      assert PendingPair(st, w, c, b);
      PathPrev(st.tree, b);
      assert b !in w;
      assert LinkOk(st, b);
    } else {
      assert QueuedOk(st, b);
    }
  }

  lemma LinkOneLinked(st: State, w: set<Id>, c: Id, b: Id)
    requires Pending(st, w) && c in w && Domains(LinkedState(st, c))
    requires b in st.haveData - (w - {c} + Children(st.unlinked, c))
    ensures LinkOk(LinkedState(st, c), b)
  {
    PathPrev(st.tree, b);
    assert QueuedOk(st, c);
    if b != c {
      assert b !in w;
      assert LinkOk(st, b);
      assert b !in Children(st.unlinked, c);
      assert (c, b) !in st.unlinked;
    }
  }

  lemma LinkKeeps(st: State, valid: Validity, c: Id)
    requires Domains(st) && c in st.haveData && Domains(LinkedState(st, c))
    requires FailedJustly(st, valid) && Complete(st, valid) && TipOk(st, valid)
    ensures var st' := LinkedState(st, c); FailedJustly(st', valid) && Complete(st', valid) && TipOk(st', valid)
  {
    var st' := LinkedState(st, c);
    forall x | x in st'.chainTx && x !in st'.candidates && Eligible(st', x)
      ensures Beaten(st', valid, x)
    {
      assert Eligible(st, x) && Beaten(st, valid, x);
    }
  }

  /** Taking a pair out of the multimap once its child is on the worklist. */
  lemma DequeuePair(st: State, w: set<Id>, p: Id, b: Id)
    requires Pending(st, w) && b in w
    ensures Pending(st.(unlinked := st.unlinked - {(p, b)}), w)
  {
    var st' := st.(unlinked := st.unlinked - {(p, b)});
    forall x | x in w
      ensures QueuedOk(st', x)
    {
      assert QueuedOk(st, x);
    }
    forall x | x in st'.haveData - w
      ensures LinkOk(st', x)
    {
      assert LinkOk(st, x);
    }
    forall q, x | (q, x) in st'.unlinked
      ensures PendingPair(st', w, q, x)
    {
      assert PendingPair(st, w, q, x);
    }
  }

  lemma RestKept(st: State, st': State, valid: Validity)
    requires Domains(st) && Domains(st') && st' == st.(unlinked := st'.unlinked)
    requires FailedJustly(st, valid) && Complete(st, valid) && TipOk(st, valid)
    ensures FailedJustly(st', valid) && Complete(st', valid) && TipOk(st', valid)
  {
    forall x | x in st'.chainTx && x !in st'.candidates && Eligible(st', x)
      ensures Beaten(st', valid, x)
    {
      assert Eligible(st, x) && Beaten(st, valid, x);
    }
  }

  /** The bookkeeping for data that has just arrived, before anything is linked. */
  function Arrived(st: State, b: Id, nTx: nat, id: nat): State {
    st.(haveData := st.haveData + {b}, nTx := st.nTx[b := nTx], seqId := st.seqId[b := id])
  }

  lemma ArrivedKeeps(st: State, valid: Validity, b: Id, nTx: nat, id: nat)
    requires Inv(st, valid) && b in st.tree && b !in st.haveData
    ensures
      var st' := Arrived(st, b, nTx, id);
      Domains(st') && FailedJustly(st', valid) && Complete(st', valid) && TipOk(st', valid)
  {
    var st' := Arrived(st, b, nTx, id);
    forall x | x in st'.chainTx && x !in st'.candidates && Eligible(st', x)
      ensures Beaten(st', valid, x)
    {
      assert Eligible(st, x) && Beaten(st, valid, x);
      var g :| g in st.candidates && AllValid(st.tree, valid, g) && Less(st.tree, st.seqId, x, g);
      assert Less(st'.tree, st'.seqId, x, g);
    }
  }

  lemma ArrivedPending(st: State, b: Id, nTx: nat, id: nat)
    requires Links(st) && b in st.tree && b !in st.haveData && b !in st.failed && nTx > 0
    requires st.tree[b].prev.Some? ==> st.tree[b].prev.value in st.chainTx
    ensures Pending(Arrived(st, b, nTx, id), {b})
  {
    var st' := Arrived(st, b, nTx, id);
    ArrivedOthers(st, b, nTx, id);
    assert QueuedOk(st', b);
    forall q, x | (q, x) in st'.unlinked
      ensures PendingPair(st', {b}, q, x)
    {
      assert UnlinkedOk(st, q, x);
    }
  }

  lemma ArrivedOthers(st: State, b: Id, nTx: nat, id: nat)
    requires Links(st) && b in st.tree && b !in st.haveData && b !in st.failed
    ensures
      var st' := Arrived(st, b, nTx, id);
      Domains(st') && forall x :: x in st.haveData ==> LinkOk(st', x)
  {
    var st' := Arrived(st, b, nTx, id);
    forall x | x in st.haveData
      ensures LinkOk(st', x)
    {
      assert LinkOk(st, x);
    }
  }

  lemma ArrivedWaits(st: State, b: Id, nTx: nat, id: nat, st': State)
    requires Links(st) && b in st.tree && b !in st.haveData && b !in st.failed && nTx > 0
    requires st.tree[b].prev.Some? && st.tree[b].prev.value !in st.chainTx
    requires
      var p := st.tree[b].prev.value;
      st' == if p in st.failed then Arrived(st, b, nTx, id) else Arrived(st, b, nTx, id).(unlinked := st.unlinked + {(p, b)})
    ensures Links(st')
  {
    var p := st.tree[b].prev.value;
    ArrivedOthers(st, b, nTx, id);
    PathPrev(st.tree, b);
    assert Domains(st');
    assert b !in st'.chainTx;
    assert LinkOk(st', b);
    forall x | x in st'.haveData
      ensures LinkOk(st', x)
    {
      if x != b {
        assert LinkOk(Arrived(st, b, nTx, id), x);
      }
    }
    forall q, x | (q, x) in st'.unlinked
      ensures UnlinkedOk(st', q, x)
    {
      if (q, x) in st.unlinked {
        assert UnlinkedOk(st, q, x);
      }
    }
  }

  /** The tree has grown, and the known blocks are as they were. */
  ghost predicate Grown(t: Tree, u: Tree) {
    && Skips(t) && Skips(u) && t.Keys <= u.Keys
    && forall x :: x in t ==> u[x] == t[x] && Path(u, x) == Path(t, x)
  }

  lemma HeaderLinks(st: State, u: Tree)
    requires Links(st) && Grown(st.tree, u)
    ensures Links(st.(tree := u))
  {
    var st' := st.(tree := u);
    forall b | b in st'.haveData
      ensures LinkOk(st', b)
    {
      assert LinkOk(st, b);
    }
    forall p, b | (p, b) in st'.unlinked
      ensures UnlinkedOk(st', p, b)
    {
      assert UnlinkedOk(st, p, b);
    }
  }

  lemma HeaderBeaten(st: State, valid: Validity, u: Tree, x: Id)
    requires Domains(st) && Domains(st.(tree := u)) && Grown(st.tree, u) && x in st.tree && Beaten(st, valid, x)
    ensures Beaten(st.(tree := u), valid, x)
  {
    var g :| g in st.candidates && AllValid(st.tree, valid, g) && Less(st.tree, st.seqId, x, g);
    assert AllValid(u, valid, g) && Less(u, st.seqId, x, g);
  }

  /** A new header changes nothing about the blocks that are known. */
  lemma HeaderKeeps(st: State, valid: Validity, u: Tree)
    requires Inv(st, valid) && Grown(st.tree, u)
    ensures Inv(st.(tree := u), valid)
  {
    hide LinkOk, UnlinkedOk, SkipOk, NodeOk;
    var st' := st.(tree := u);
    HeaderLinks(st, u);
    forall x | x in st'.chainTx && x !in st'.candidates && Eligible(st', x)
      ensures Beaten(st', valid, x)
    {
      assert Eligible(st, x);
      HeaderBeaten(st, valid, u, x);
    }
    forall b | b in st'.failed
      ensures !AllValid(st'.tree, valid, b)
    {
      assert !AllValid(st.tree, valid, b);
    }
  }
}
