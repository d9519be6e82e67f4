/**
  The globals of main.cpp that hold the block index and the candidate set, and
  the functions that update them. Module `ChainSelection` says what every one of
  these functions keeps.
 */
module ChainActivation {
  import opened BlockTree
  import opened ChainSelection
  import opened Options
  import opened Sequences

  /** How connecting or disconnecting one block can end; its data may have been corrupted on disk. */
  datatype Outcome = Ok | Invalid | Corrupt | SystemError

  /** How one section under the lock ends: nothing to do, a step towards the best candidate, or a system error. */
  datatype SectionEnd = Nothing | Stepped(target: Id) | Failed

  /** How many more times the disk will fail, and a block's data will turn out to be corrupted; as often as one likes, but not for ever. */
  datatype Faults = Faults(disk: nat, data: nat)

  /** Every fault is one less to come. */
  predicate FaultsLeft(f: Faults, f': Faults, r: Outcome) {
    match r
    case Ok => f' == f
    case Invalid => f' == f
    case Corrupt => f'.disk == f.disk && f'.data < f.data
    case SystemError => f'.disk < f.disk && f'.data <= f.data
  }

  /** Whether a block's header is accepted. */
  predicate HeaderAccepted(st: State, genesis: Id, b: Id, prev: Id, headerOk: bool) {
    if b in st.tree then b !in st.failed
    else headerOk && (b == genesis || (prev in st.tree && prev !in st.failed))
  }

  /** What an arriving block changes: a new header is put on top of its parent, data is stored or the block marked, and the tip stays. */
  ghost predicate BlockDone(st: State, st': State, genesis: Id, b: Id, prev: Id, proof: nat, headerOk: bool, blockOk: bool,
                            corrupt: bool, diskOk: bool, ok: bool) {
    var header, rejected := HeaderAccepted(st, genesis, b, prev, headerOk), !blockOk && !corrupt && b !in st.haveData;
    && (ok <==> header && (b in st.haveData || (blockOk && diskOk)))
    && st'.haveData == st.haveData + (if ok then {b} else {})
    && st'.failed == st.failed + (if header && rejected then {b} else {})
    && st'.tree.Keys == st.tree.Keys + (if header then {b} else {})
    && (forall x :: x in st.tree ==> x in st'.tree && st'.tree[x] == st.tree[x])
    && (header && b !in st.tree ==>
          && st'.tree[b].prev == (if b == genesis then None else Some(prev))
          && st'.tree[b].work == (if b == genesis then 0 else st.tree[prev].work) + proof)
    && st'.tip == st.tip && st.candidates <= st'.candidates
    && Numbered(st.seqId, st.haveData, st'.seqId, st'.haveData, b)
  }

  class ChainState {
    /** Whether `ConnectBlock` accepts a block on top of its parent. */
    const valid: Validity
    const genesis: Id
    const chainActive: CChain

    var tree: Tree
    var haveData: set<Id>
    var failed: set<Id>
    var nTx: map<Id, nat>
    var chainTx: map<Id, nat>
    var seqId: map<Id, nat>
    var candidates: set<Id>
    var unlinked: set<(Id, Id)>
    var nextSeqId: nat

    var faults: Faults

    function Now(): State
      reads this, chainActive
    {
      State(tree, haveData, failed, nTx, chainTx, seqId, candidates, unlinked, chainActive.Tip())
    }

    ghost predicate Valid()
      reads this, chainActive
    {
      && Inv(Now(), valid)
      && SeqOk(seqId, haveData) && SeqBelow(seqId, nextSeqId)
      && IsChain(tree, chainActive.vChain)
      && (tree == map[] || genesis in tree)
    }

    constructor (valid: Validity, genesis: Id, faults: Faults)
      ensures Valid() && this.valid == valid && this.genesis == genesis && fresh(chainActive)
      ensures tree == map[] && haveData == {} && seqId == map[] && failed == {} && chainActive.Tip() == None && this.faults == faults
    {
      this.valid := valid;
      this.genesis := genesis;
      this.faults := faults;
      chainActive := new CChain();
      tree, haveData, failed, nTx, chainTx, seqId := map[], {}, {}, map[], map[], map[];
      candidates, unlinked, nextSeqId := {}, {}, 1;
    }

    // -------------------------------------------------------------------------
    // Headers and data arrive
    // -------------------------------------------------------------------------

    /** `AcceptBlockHeader`; `headerOk` is the verdict of the header checks. */
    method AcceptBlockHeader(b: Id, prev: Id, proof: nat, headerOk: bool) returns (ok: bool)
      requires Valid() && proof > 0
      modifies this`tree
      ensures Valid() && Now() == old(Now()).(tree := tree)
      ensures forall x :: x in old(tree) ==> x in tree && tree[x] == old(tree[x])
      ensures b in old(tree) ==> tree == old(tree) && (ok <==> b !in failed)
      ensures b !in old(tree) ==> (ok <==> headerOk && (b == genesis || (prev in old(tree) && prev !in failed)))
      ensures b !in old(tree) ==> tree.Keys == old(tree.Keys) + if ok then {b} else {}
      ensures b !in old(tree) && ok ==>
        && tree[b].prev == (if b == genesis then None else Some(prev))
        && tree[b].work == (if b == genesis then 0 else old(tree)[prev].work) + proof
      ensures ok ==> b in tree && b !in failed
    {
      hide SeqOk, SeqBelow, Inv, IsChain, Skips, Wf, Path;
      TreeKnown(Now(), valid);
      if b in tree {
        return b !in failed;
      }
      var parent: Option<Id> := None;
      if b != genesis {
        if prev !in tree || prev in failed {
          return false;
        }
        parent := Some(prev);
      }
      if !headerOk {
        return false;
      }
      var u := AddToBlockIndex(tree, b, parent, proof);
      HeaderAdded(Now(), valid, u, chainActive.vChain);
      tree := u;
      ok := true;
    }

    /** Mark a block whose data has not been stored. */
    method Reject(b: Id)
      requires Valid() && b in tree && b !in haveData && !valid(b)
      modifies this`failed
      ensures Valid() && failed == old(failed) + {b}
    {
      RejectKeeps(Now(), valid, b);
      failed := failed + {b};
    }

    /** `AcceptBlock`: `blockOk` is the verdict of the context-free checks, `corrupt` that it may be the data's fault. */
    method AcceptBlock(b: Id, prev: Id, proof: nat, headerOk: bool, txs: nat, blockOk: bool, corrupt: bool) returns (ok: bool)
      requires Valid() && proof > 0 && (blockOk ==> txs > 0)
      requires !blockOk && !corrupt ==> !valid(b)
      modifies this
      ensures Valid() && BlockDone(old(Now()), Now(), genesis, b, prev, proof, headerOk, blockOk, corrupt, faults == old(faults), ok)
      ensures faults == old(faults) || FaultsLeft(old(faults), faults, SystemError)
      ensures ok && b !in old(haveData) ==> b in nTx && nTx[b] == txs
    {
      hide Inv, IsChain, SeqOk, SeqBelow, Numbered;
      SameNumbers(seqId, haveData, b);
      ok := AcceptBlockHeader(b, prev, proof, headerOk);
      if !ok || b in haveData {
        return;
      }
      if !blockOk {
        if !corrupt {
          Reject(b);
        }
        return false;
      }
      var diskFails: bool := *;
      if diskFails && faults.disk > 0 {
        faults := faults.(disk := faults.disk - 1);
        return false;
      }
      ReceivedBlockTransactions(b, txs);
    }

    /**
      `ReceivedBlockTransactions`: link the block if its parent is linked, and
      then, with a worklist, every block that was waiting for it.
     */
    method ReceivedBlockTransactions(b: Id, txs: nat)
      requires Valid() && b in tree && b !in haveData && b !in failed && txs > 0
      modifies this`haveData, this`nTx, this`chainTx, this`seqId, this`candidates, this`unlinked, this`nextSeqId
      ensures Valid() && haveData == old(haveData) + {b} && nTx == old(nTx)[b := txs]
      ensures old(candidates) <= candidates && Numbered(old(seqId), old(haveData), seqId, haveData, b)
    {
      hide SeqOk, SeqBelow, Numbered;
      ghost var before := Now();
      ArrivedKeeps(before, valid, b, txs, nextSeqId);
      SeqNext(seqId, haveData, nextSeqId, b);
      nTx := nTx[b := txs];
      haveData := haveData + {b};
      seqId := seqId[b := nextSeqId];
      nextSeqId := nextSeqId + 1;
      ghost var now := Now();
      assert now == Arrived(before, b, txs, old(nextSeqId));
      var prev := tree[b].prev;
      if prev.None? || prev.value in chainTx {
        ArrivedPending(before, b, txs, old(nextSeqId));
        ArrivedDequeued(before, b);
        WorklistStart(now, valid, b);
        LinkWaiting(b);
      } else {
        if prev.value !in failed {
          unlinked := unlinked + {(prev.value, b)};
        }
        ArrivedWaits(before, b, txs, old(nextSeqId), Now());
        RestKept(now, Now(), valid);
      }
    }

    /** The worklist of `ReceivedBlockTransactions`. */
    method LinkWaiting(b: Id)
      requires Worklist(Now(), valid, [b])
      requires IsChain(tree, chainActive.vChain) && (tree == map[] || genesis in tree)
      requires SeqOk(seqId, haveData) && SeqBelow(seqId, nextSeqId)
      modifies this`chainTx, this`candidates, this`unlinked
      ensures Valid() && old(candidates) <= candidates
    {
      hide Worklist, IsChain;
      var queue := [b];
      while queue != []
        invariant Worklist(Now(), valid, queue) && chainActive.Tip() == old(chainActive.Tip())
        invariant old(candidates) <= candidates
        decreases haveData - chainTx.Keys
      {
        queue := LinkFirst(queue);
      }
      WorklistEnd(Now(), valid);
    }

    /** One round: link the first block and queue those that waited under it. */
    method LinkFirst(q: seq<Id>) returns (queue: seq<Id>)
      requires Worklist(Now(), valid, q) && q != []
      modifies this`chainTx, this`candidates, this`unlinked
      ensures Worklist(Now(), valid, queue)
      ensures old(candidates) <= candidates
      ensures haveData - chainTx.Keys < old(haveData - chainTx.Keys)
    {
      hide Pending, Complete, FailedJustly, TipOk, Domains;
      ghost var st := Now();
      WorklistLink(st, valid, q);
      var c := q[0];
      chainTx := chainTx[c := (if tree[c].prev.Some? then chainTx[tree[c].prev.value] else 0) + nTx[c]];
      candidates := candidates + {c};
      assert Now() == LinkedState(st, c);
      queue := TakeChildren(c, q[1..]);
      assert c in old(haveData - chainTx.Keys) && c !in haveData - chainTx.Keys;
    }

    /** Move the blocks that waited under `c` to the worklist. */
    method TakeChildren(c: Id, q: seq<Id>) returns (queue: seq<Id>)
      requires Expanding(Now(), valid, c, q)
      modifies this`unlinked
      ensures Worklist(Now(), valid, queue)
    {
      hide Pending, Complete, FailedJustly, TipOk, Domains;
      queue := q;
      while Children(unlinked, c) != {}
        invariant Expanding(Now(), valid, c, queue)
        decreases unlinked
      {
        var e :| e in unlinked && e.0 == c;
        ghost var st := Now();
        ExpandOne(st, valid, c, queue, e.1);
        queue := queue + [e.1];
        unlinked := unlinked - {e};
        assert Now() == st.(unlinked := st.unlinked - {(c, e.1)});
      }
      assert Members(queue) + Children(unlinked, c) == Members(queue);
    }

    // -------------------------------------------------------------------------
    // The best candidate
    // -------------------------------------------------------------------------

    /** The walk of `FindMostWorkChain` from a candidate towards the active chain. */
    method FirstFailed(c: Id) returns (r: Option<Id>)
      requires Valid() && c in chainTx
      ensures r.None? ==> Unfailed(tree, failed, c)
      ensures r.Some? ==> r.value in failed && r.value in Path(tree, c)
    {
      hide Complete, FailedJustly, TipOk, SkipOk;
      ghost var path := Path(tree, c);
      var test := Some(c);
      ghost var h: int := tree[c].height;
      while test.Some? && !chainActive.Contains(tree, test.value)
        invariant -1 <= h < |path| && test == AtHeight(tree, c, h)
        invariant forall i :: h < i < |path| ==> path[i] !in failed
        decreases h
      {
        LinkedBelow(Now(), test.value, c);
        // The assertions of lines 2116 and 2117.
        assert test.value in haveData;
        assert test.value in chainTx;
        if test.value in failed {
          return test;
        }
        PathStep(tree, c, h);
        test := tree[test.value].prev;
        h := h - 1;
      }
      if test.Some? {
        ActiveUnfailed(Now(), valid, chainActive.vChain, c, h);
      }
      r := None;
    }

    method MarkFailed(ghost c: Id, ghost h: nat, walk: Id, ghost k: nat)
      requires Valid() && c in chainTx && k <= h <= tree[c].height && walk == Path(tree, c)[h]
      requires Path(tree, c)[k] in failed
      modifies this`failed, this`candidates
      ensures Valid() && failed == old(failed) + {walk} && candidates == old(candidates) - {walk}
    {
      ghost var st := Now();
      DoomedBelow(st, valid, c, h, k);
      FailKeeps(st, valid, walk);
      failed := failed + {walk};
      candidates := candidates - {walk};
      assert Now() == st.(failed := st.failed + {walk}, candidates := st.candidates - {walk});
    }

    /** Mark the blocks above a failed one, and drop all of them from the candidates. */
    method DropFailed(c: Id, bad: Id)
      requires Valid() && Wf(tree) && c in tree && c in chainTx && c in candidates && bad in failed && bad in Path(tree, c)
      modifies this`failed, this`candidates
      ensures Valid() && old(failed) <= failed && candidates < old(candidates)
      ensures forall b :: b in old(candidates) && b !in candidates ==> b in failed
    {
      hide Inv, IsChain;
      ghost var path := Path(tree, c);
      ghost var k :| 0 <= k < |path| && path[k] == bad;
      var walk := c;
      ghost var h := tree[c].height;
      while walk != bad
        invariant Valid() && k <= h < |path| && walk == path[h]
        invariant bad in failed && old(failed) <= failed && candidates <= old(candidates)
        invariant forall b :: b in old(candidates) && b !in candidates ==> b in failed
        invariant walk != c ==> c !in candidates
        decreases h
      {
        MarkFailed(c, h, walk, k);
        PathStep(tree, c, h);
        walk := tree[walk].prev.value;
        h := h - 1;
      }
      MarkFailed(c, h, bad, k);
    }

    /** `FindMostWorkChain`: the best candidate that has no failed ancestor. */
    method FindMostWorkChain() returns (m: Option<Id>)
      requires Valid()
      modifies this`failed, this`candidates
      ensures Valid() && old(failed) <= failed && candidates <= old(candidates)
      ensures forall b :: b in old(candidates) && b !in candidates ==> b in failed
      ensures m.None? ==> candidates == {}
      ensures m.Some? ==> IsMax(tree, seqId, candidates, m.value) && Unfailed(tree, failed, m.value)
      ensures m.Some? ==> forall c :: c in candidates && c != m.value ==> Preferred(Now(), m.value, c)
    {
      while candidates != {}
        invariant Valid() && old(failed) <= failed && candidates <= old(candidates)
        invariant forall b :: b in old(candidates) && b !in candidates ==> b in failed
        decreases candidates
      {
        var c := Last(tree, seqId, candidates);
        var bad := FirstFailed(c);
        if bad.None? {
          MaxIsFirst(Now(), c);
          return Some(c);
        }
        DropFailed(c, bad.value);
      }
      m := None;
    }

    /** `PruneBlockIndexCandidates`: the set is never left empty. */
    method PruneBlockIndexCandidates()
      requires Valid() && chainActive.Tip().Some?
      modifies this`candidates
      ensures Valid() && candidates <= old(candidates) && candidates != {}
      ensures forall x :: x in old(candidates) ==> x in tree && (x in candidates <==> !Less(tree, seqId, x, chainActive.Tip().value))
    {
      var tip := chainActive.Tip().value;
      ghost var st := Now();
      var c := EraseWorse(tree, seqId, candidates, tip);
      PruneKeeps(st, valid, c);
      candidates := c;
      assert Now() == st.(candidates := c);
    }

    // -------------------------------------------------------------------------
    // Moving the tip
    // -------------------------------------------------------------------------

    method MoveTip(tip: Option<Id>)
      requires Valid() && (tip.Some? ==> tip.value in chainTx && AllValid(tree, valid, tip.value))
      modifies chainActive
      ensures Valid() && chainActive.Tip() == tip
    {
      ghost var st := Now();
      TipKeeps(st, valid, tip);
      chainActive.SetTip(tree, tip);
      assert Now() == st.(tip := tip);
    }

    method DisconnectTip() returns (r: Outcome)
      requires Valid() && chainActive.Tip().Some?
      modifies chainActive, this`faults
      ensures Valid() && (r.Ok? || r.SystemError?) && FaultsLeft(old(faults), faults, r)
      ensures chainActive.Tip() == if r.Ok? then tree[old(chainActive.Tip()).value].prev else old(chainActive.Tip())
    {
      var tip := chainActive.Tip().value;
      var diskFails: bool := *;
      if diskFails && faults.disk > 0 {
        faults := faults.(disk := faults.disk - 1);
        return SystemError;
      }
      BelowTip(Now(), valid);
      MoveTip(tree[tip].prev);
      r := Ok;
    }

    /** `ConnectTip` with `InvalidBlockFound`. The precondition is the assertion of line 2037. */
    method ConnectTip(b: Id) returns (r: Outcome)
      requires Valid() && b in chainTx && tree[b].prev == chainActive.Tip()
      modifies chainActive, this`failed, this`candidates, this`faults
      ensures Valid()
      ensures r.Ok? ==> valid(b) && chainActive.Tip() == Some(b) && failed == old(failed) && candidates == old(candidates)
      ensures r.Invalid? ==> !valid(b) && failed == old(failed) + {b} && candidates == old(candidates) - {b}
      ensures !r.Ok? ==> chainActive.Tip() == old(chainActive.Tip())
      ensures r.SystemError? || r.Corrupt? ==> failed == old(failed) && candidates == old(candidates)
      ensures FaultsLeft(old(faults), faults, r)
    {
      var diskFails: bool := *;
      if diskFails && faults.disk > 0 {
        faults := faults.(disk := faults.disk - 1);
        return SystemError;
      }
      var corrupt: bool := *;
      if corrupt && faults.data > 0 {
        faults := faults.(data := faults.data - 1);
        return Corrupt;
      }
      AboveTip(Now(), valid, b);
      if valid(b) {
        MoveTip(Some(b));
        r := Ok;
      } else {
        ghost var st := Now();
        FailKeeps(st, valid, b);
        failed := failed + {b};
        candidates := candidates - {b};
        assert Now() == st.(failed := st.failed + {b}, candidates := st.candidates - {b});
        r := Invalid;
      }
    }

    /** Disconnect active blocks down to the fork; `k` blocks are shared with the new branch. */
    method DisconnectTo(fork: Option<Id>, ghost m: Id, ghost k: nat) returns (ok: bool)
      requires Valid() && Wf(tree) && m in tree && k == Common(Somes(Path(tree, m)), chainActive.vChain)
      requires fork == AtHeight(tree, m, k - 1)
      modifies chainActive, this`faults
      ensures Valid() && (ok ==> chainActive.Tip() == fork) && FaultsLeft(old(faults), faults, if ok then Ok else SystemError)
    {
      hide Inv, Common, AtHeight, IsChain;
      ghost var path := chainActive.vChain;
      ForkIs(tree, path, m, k);
      ghost var top: int := |path| - 1;
      while chainActive.Tip().Some? && chainActive.Tip() != fork
        invariant Valid() && k - 1 <= top < |path| && faults == old(faults)
        invariant chainActive.Tip() == if top < 0 then None else path[top]
        decreases top
      {
        assert top >= k;
        StepDown(tree, path, top);
        var r := DisconnectTip();
        if !r.Ok? {
          return false;
        }
        top := top - 1;
      }
      ok := true;
    }

    /**
      Connect the blocks of one batch, lowest first, pruning after each, until
      one is invalid or the tip has more work than the old tip had.
     */
    method ConnectBatch(batch: seq<Id>, oldTip: Option<Id>, ghost m: Id, ghost h: int, ghost target: nat)
      returns (r: Outcome, go: bool)
      requires Valid() && Wf(tree) && m in tree && m in chainTx && -1 <= h < target <= tree[m].height && chainActive.Tip() == AtHeight(tree, m, h)
      requires oldTip.Some? ==> oldTip.value in tree
      requires IsBatch(tree, m, h, target, batch)
      modifies chainActive, this`failed, this`candidates, this`faults
      ensures Valid() && candidates <= old(candidates) && old(failed) <= failed
      ensures r.Invalid? ==> !go && exists b :: b in Path(tree, m) && b in failed
      ensures FaultsLeft(old(faults), faults, r) && (go ==> r.Ok?)
      ensures r.Ok? || r.Corrupt? ==> failed == old(failed) && (m in old(candidates) ==> m in candidates)
      ensures r.Ok? && go ==> chainActive.Tip() == AtHeight(tree, m, target)
      ensures r.Ok? && !go ==> chainActive.Tip().Some? && chainActive.Tip().value in Path(tree, m)
      ensures r.Ok? && !go ==> oldTip.None? || tree[chainActive.Tip().value].work > tree[oldTip.value].work
    {
      hide Valid;
      r, go := Ok, true;
      var i := |batch|;
      while i > 0
        invariant Valid() && 0 <= i <= |batch| && r.Ok? && go
        invariant chainActive.Tip() == AtHeight(tree, m, target - i)
        invariant failed == old(failed) && candidates <= old(candidates) && (m in old(candidates) ==> m in candidates)
        invariant faults == old(faults)
        decreases i
      {
        i := i - 1;
        r := ConnectNext(batch[i], m, target - i);
        if !r.Ok? {
          return r, false;
        }
        if oldTip.None? || tree[batch[i]].work > tree[oldTip.value].work {
          return r, false;
        }
      }
    }

    /** Connect the block at height `h` of the branch of `m`, and prune. */
    method ConnectNext(b: Id, ghost m: Id, ghost h: nat) returns (r: Outcome)
      requires Valid() && Wf(tree) && m in tree && m in chainTx && h <= tree[m].height && b == Path(tree, m)[h]
      requires chainActive.Tip() == AtHeight(tree, m, h - 1)
      modifies chainActive, this`failed, this`candidates, this`faults
      ensures Valid() && candidates <= old(candidates) && old(failed) <= failed
      ensures b in tree && b in Path(tree, m)
      ensures r.Invalid? ==> b in failed
      ensures r.Ok? ==> chainActive.Tip() == Some(b)
      ensures r.Ok? || r.Corrupt? ==> failed == old(failed) && (m in old(candidates) ==> m in candidates)
      ensures FaultsLeft(old(faults), faults, r)
    {
      hide Links, Complete, FailedJustly, TipOk, IsChain;
      BatchBlock(Now(), valid, m, h, b);
      r := ConnectTip(b);
      if r.Ok? {
        PruneBlockIndexCandidates();
      }
    }

    /** List the next blocks to connect, at most 32 of them. */
    method NextBatch(m: Id, h: int) returns (batch: seq<Id>, target: nat)
      requires Skips(tree) && m in tree && -1 <= h < tree[m].height
      ensures h < target <= tree[m].height && target <= h + 32 && (target < h + 32 ==> target == tree[m].height)
      ensures IsBatch(tree, m, h, target, batch)
    {
      hide FewSteps, Path;
      target := if h + 32 < tree[m].height then h + 32 else tree[m].height;
      batch := [];
      var iter, _ := GetAncestor(tree, m, target);
      while iter.Some? && tree[iter.value].height != h
        invariant h <= target - |batch| && iter == AtHeight(tree, m, target - |batch|)
        invariant forall i :: 0 <= i < |batch| ==> batch[i] == Path(tree, m)[target - i]
        decreases target - |batch|
      {
        batch := batch + [iter.value];
        PathStep(tree, m, target - |batch| + 1);
        iter := tree[iter.value].prev;
      }
    }

    /** What a step towards `m` achieved: a newly failed block, or a tip on the way to `m` that is better than before, or no more than a fault. */
    ghost predicate Progress(m: Id, oldTip: Option<Id>, oldFailed: set<Id>, oldFaults: Faults)
      requires Wf(tree) && m in tree && (oldTip.Some? ==> oldTip.value in tree)
      reads this, chainActive
    {
      || faults.data < oldFaults.data
      || oldFailed < failed
      || (failed == oldFailed && chainActive.Tip() == Some(m))
      || (failed == oldFailed && chainActive.Tip().Some? && chainActive.Tip().value in tree &&
          (oldTip.None? || tree[chainActive.Tip().value].work > tree[oldTip.value].work))
    }

    /** `ActivateBestChainStep`: make some progress towards `m`; the invariant holds even after a half-failed reorganisation. */
    method ActivateBestChainStep(m: Id) returns (ok: bool)
      requires Valid() && m in candidates && Unfailed(tree, failed, m)
      modifies chainActive, this`failed, this`candidates, this`faults
      ensures Valid() && candidates <= old(candidates) && old(failed) <= failed
      ensures ok ==> Progress(m, old(chainActive.Tip()), old(failed), old(faults))
      ensures if ok then faults.disk == old(faults.disk) && faults.data <= old(faults.data) else FaultsLeft(old(faults), faults, SystemError)
      ensures ok && failed == old(failed) ==> m in candidates
    {
      var oldTip := chainActive.Tip();
      var fork := chainActive.FindFork(tree, m);
      ghost var k := Common(Somes(Path(tree, m)), chainActive.vChain);
      ok := DisconnectTo(fork, m, k);
      if !ok {
        return;
      }
      var h := if fork.Some? then tree[fork.value].height else -1;
      ok := ConnectTowards(m, h, oldTip);
    }

    /** The outer loop of `ActivateBestChainStep`, batch by batch. */
    method ConnectTowards(m: Id, start: int, oldTip: Option<Id>) returns (ok: bool)
      requires Valid() && Skips(tree) && m in tree && m in chainTx && m in candidates
      requires -1 <= start <= tree[m].height && chainActive.Tip() == AtHeight(tree, m, start)
      requires (oldTip.Some? ==> oldTip.value in tree) && Unfailed(tree, failed, m)
      modifies chainActive, this`failed, this`candidates, this`faults
      ensures Valid() && candidates <= old(candidates) && old(failed) <= failed
      ensures ok ==> Progress(m, oldTip, old(failed), old(faults))
      ensures if ok then faults.disk == old(faults.disk) && faults.data <= old(faults.data) else FaultsLeft(old(faults), faults, SystemError)
      ensures ok && failed == old(failed) ==> m in candidates
    {
      hide Valid;
      var h, go := start, true;
      while go && h != tree[m].height
        invariant Valid() && -1 <= h <= tree[m].height && candidates <= old(candidates) && old(failed) <= failed
        invariant go ==> chainActive.Tip() == AtHeight(tree, m, h) && failed == old(failed)
        invariant failed == old(failed) ==> m in candidates
        invariant !go ==> Progress(m, oldTip, old(failed), old(faults))
        invariant faults.disk == old(faults.disk) && faults.data <= old(faults.data) && (go ==> faults == old(faults))
        decreases go, tree[m].height - h
      {
        var batch, target := NextBatch(m, h);
        var r;
        r, go := ConnectBatch(batch, oldTip, m, h, target);
        if r.SystemError? {
          return false;
        }
        h := target;
      }
      ok := true;
    }

    // -------------------------------------------------------------------------
    // ActivateBestChain
    // -------------------------------------------------------------------------

    /** One section under the lock. The block it steps towards is at least as good as every other. */
    method ActivateSection() returns (r: SectionEnd)
      requires Valid()
      modifies chainActive, this`failed, this`candidates, this`faults
      ensures Valid() && candidates <= old(candidates) && old(failed) <= failed
      ensures r.Nothing? ==> BestTip(Now()) && chainActive.Tip() == old(chainActive.Tip()) && faults == old(faults)
      ensures r.Failed? ==> FaultsLeft(old(faults), faults, SystemError)
      ensures r.Stepped? ==> NoneBetter(Now(), r.target) && faults.disk == old(faults.disk) && faults.data <= old(faults.data)
      ensures r.Stepped? && old(chainActive.Tip()).Some? ==> Preferred(Now(), r.target, old(chainActive.Tip()).value)
      ensures r.Stepped? ==>
        || faults.data < old(faults.data) || chainActive.Tip() == Some(r.target)
        || Closer(tree, failed, chainActive.Tip(), old(failed), old(chainActive.Tip()))
    {
      hide Complete, FailedJustly, TipOk, IsChain, NoneBetter, BestTip, IsMax, SeqOk;
      var m := FindMostWorkChain();
      if m.None? || m == chainActive.Tip() {
        TopIsBest(Now(), valid);
        return Nothing;
      }
      MaxIsBest(Now(), valid, m.value);
      ghost var st := Now();
      if st.tip.Some? {
        TargetIsPreferred(st, valid, m.value);
      }
      var ok := ActivateBestChainStep(m.value);
      if !ok {
        return Failed;
      }
      NoneBetterKept(st, Now(), m.value);
      r := Stepped(m.value);
    }

    /**
      `ActivateBestChain`. When it returns true, no fully linked block without a
      failed ancestor has more work than the tip. It returns, because every
      section either marks a block as failed or leaves fewer better blocks, if
      it does not come upon corrupted data; and it fails only if the disk does.
     */
    method ActivateBestChain() returns (ok: bool)
      requires Valid()
      modifies chainActive, this`failed, this`candidates, this`faults
      ensures Valid() && old(failed) <= failed
      ensures ok ==> BestTip(Now())
      ensures !ok ==> faults.disk < old(faults.disk)
    {
      hide Complete, FailedJustly, TipOk, IsChain, BestTip, Skips;
      ok := false;
      var error := false;
      while !ok && !error
        invariant Valid() && old(failed) <= failed
        invariant ok ==> BestTip(Now())
        invariant if error then faults.disk < old(faults.disk) else faults.disk == old(faults.disk)
        decreases !ok && !error, faults.data, tree.Keys - failed, BetterThan(tree, chainActive.Tip())
      {
        ghost var failed0, tip0, data0 := failed, chainActive.Tip(), faults.data;
        var r := ActivateSection();
        error := r.Failed?;
        ok := r.Nothing? || (r.Stepped? && chainActive.Tip() == Some(r.target));
        if r.Stepped? && ok {
          TargetIsBest(Now(), r.target);
        }
        if !ok && !error && faults.data == data0 {
          CloserDecreases(tree, failed, chainActive.Tip(), failed0, tip0);
        }
      }
    }
  }

  // ---------------------------------------------------------------------------
  // What the sections rely on
  // ---------------------------------------------------------------------------

  lemma TreeKnown(st: State, valid: Validity)
    requires Inv(st, valid)
    ensures Skips(st.tree) && Wf(st.tree) && st.failed <= st.tree.Keys
  {
  }

  lemma HeaderAdded(st: State, valid: Validity, u: Tree, c: seq<Option<Id>>)
    requires Inv(st, valid) && Grown(st.tree, u) && IsChain(st.tree, c)
    ensures Inv(st.(tree := u), valid) && IsChain(u, c)
  {
    hide Inv, IsChain;
    HeaderKeeps(st, valid, u);
    ChainKept(st.tree, u, c);
  }

  lemma TargetIsBest(st: State, m: Id)
    requires Links(st) && NoneBetter(st, m) && st.tip == Some(m)
    ensures BestTip(st)
  {
    hide Skips, Eligible;
  }

  ghost function BetterThan(t: Tree, tip: Option<Id>): set<Id> {
    set b | b in t && (tip.None? || tip.value !in t || t[b].work > t[tip.value].work)
  }

  /** A section that is not the last one marks a block or moves to a tip with more work. */
  ghost predicate Closer(t: Tree, failed: set<Id>, tip: Option<Id>, failed0: set<Id>, tip0: Option<Id>) {
    || (failed0 < failed <= t.Keys)
    || (failed == failed0 && tip.Some? && tip.value in t && tip.value in BetterThan(t, tip0))
  }

  lemma CloserDecreases(t: Tree, failed: set<Id>, tip: Option<Id>, failed0: set<Id>, tip0: Option<Id>)
    requires Closer(t, failed, tip, failed0, tip0) && failed0 <= failed
    ensures
      || t.Keys - failed < t.Keys - failed0
      || (t.Keys - failed == t.Keys - failed0 && BetterThan(t, tip) < BetterThan(t, tip0))
  {
    if failed0 < failed {
      var b :| b in failed && b !in failed0;
      assert b in t.Keys - failed0 && b !in t.Keys - failed;
    } else {
      assert tip.value in BetterThan(t, tip0) && tip.value !in BetterThan(t, tip);
    }
  }

  /** The blocks of the branch of `m` from height `target` down to just above `h`. */
  ghost predicate IsBatch(t: Tree, m: Id, h: int, target: nat, batch: seq<Id>)
    requires Wf(t) && m in t && -1 <= h <= target <= t[m].height
  {
    |batch| == target - h && forall i :: 0 <= i < |batch| ==> batch[i] == Path(t, m)[target - i]
  }

  /** What connecting the block at height `h` of a branch needs to know. */
  lemma BatchBlock(st: State, valid: Validity, m: Id, h: nat, b: Id)
    requires Inv(st, valid) && m in st.chainTx && h <= st.tree[m].height && b == Path(st.tree, m)[h]
    ensures b in st.chainTx && b in Path(st.tree, m) && st.tree[b].prev == AtHeight(st.tree, m, h - 1)
    ensures m != b ==> st.tree[b].work < st.tree[m].work
  {
    LinkedBelow(st, b, m);
    PathStep(st.tree, m, h);
    WorkGrows(st.tree, m, h);
  }

  lemma {:induction false} WorkGrows(t: Tree, m: Id, h: nat)
    requires Wf(t) && m in t && h <= t[m].height
    ensures Path(t, m)[h] != m ==> t[Path(t, m)[h]].work < t[m].work
    decreases t[m].height
  {
    if h < t[m].height {
      assert NodeOk(t, m);
      WorkGrows(t, t[m].prev.value, h);
    }
  }

  /** The block below a valid tip is a valid tip. */
  lemma BelowTip(st: State, valid: Validity)
    requires Inv(st, valid) && st.tip.Some?
    ensures
      var prev := st.tree[st.tip.value].prev;
      prev.Some? ==> prev.value in st.chainTx && AllValid(st.tree, valid, prev.value)
  {
    var tip := st.tip.value;
    PathPrev(st.tree, tip);
    if st.tree[tip].prev.Some? {
      var p := st.tree[tip].prev.value;
      assert Path(st.tree, p)[|Path(st.tree, p)| - 1] == p;
      assert p in Path(st.tree, tip);
      LinkedBelow(st, p, tip);
      ValidBelow(st.tree, valid, p, tip);
    }
  }

  /** A block on top of a valid tip has a valid branch exactly when it is valid itself. */
  lemma AboveTip(st: State, valid: Validity, b: Id)
    requires Inv(st, valid) && b in st.tree && st.tree[b].prev == st.tip
    ensures AllValid(st.tree, valid, b) <==> valid(b)
  {
    PathPrev(st.tree, b);
    var path := Path(st.tree, b);
    if st.tip.Some? {
      assert path == Path(st.tree, st.tip.value) + [b];
    } else {
      assert path == [b];
    }
  }

  lemma StepDown(t: Tree, v: seq<Option<Id>>, top: nat)
    requires IsChain(t, v) && top < |v|
    ensures v[top].Some? && v[top].value in t
    ensures t[v[top].value].prev == if top == 0 then None else v[top - 1]
  {
    PathStep(t, v[|v| - 1].value, top);
  }

  lemma ForkShared(t: Tree, v: seq<Option<Id>>, m: Id, k: nat)
    requires IsChain(t, v) && m in t && k == Common(Somes(Path(t, m)), v)
    ensures k > 0 ==> v[k - 1] == Some(Path(t, m)[k - 1])
    ensures forall i :: k <= i < |v| ==> v[i].Some? && (i < |Path(t, m)| ==> v[i] != Some(Path(t, m)[i]))
  {
    var p := Somes(Path(t, m));
    assert k > 0 ==> p[..k][k - 1] == v[..k][k - 1];
    forall i | k <= i < |v| && i < |p|
      ensures v[i] != p[i]
    {
      if v[i] == p[i] {
        ChainAt(t, v, m, i, k);
      }
    }
  }

  /** The fork is the last block shared. */
  lemma ForkIs(t: Tree, v: seq<Option<Id>>, m: Id, k: nat)
    requires IsChain(t, v) && m in t && k == Common(Somes(Path(t, m)), v)
    ensures k <= |v| && k - 1 <= t[m].height && AtHeight(t, m, k - 1) == if k == 0 then None else v[k - 1]
    ensures forall i :: 0 <= i < |v| ==> v[i].Some?
  {
    ForkShared(t, v, m, k);
  }

  ghost function AtHeight(t: Tree, b: Id, h: int): Option<Id>
    requires Wf(t) && b in t && h <= t[b].height
  {
    if h < 0 then None else Some(Path(t, b)[h])
  }

  /** What is on the active chain has not failed. */
  lemma ActiveUnfailed(st: State, valid: Validity, v: seq<Option<Id>>, c: Id, h: nat)
    requires Inv(st, valid) && IsChain(st.tree, v) && c in st.tree && h <= st.tree[c].height
    requires st.tip == if v == [] then None else v[|v| - 1]
    requires h < |v| && v[h] == Some(Path(st.tree, c)[h])
    requires forall i :: h < i <= st.tree[c].height ==> Path(st.tree, c)[i] !in st.failed
    ensures Unfailed(st.tree, st.failed, c)
  {
    var tip := st.tip.value;
    ValidUnfailed(st, valid, tip);
    KeptPrefix(st.tree, v, c, h);
    forall i | 0 <= i <= h
      ensures Path(st.tree, c)[i] !in st.failed
    {
      assert v[i] == v[..h + 1][i] == Somes(Path(st.tree, c))[..h + 1][i];
      assert Path(st.tree, tip)[i] in Path(st.tree, tip);
    }
  }

  /** A block above a failed one has an invalid branch too. */
  lemma DoomedBelow(st: State, valid: Validity, c: Id, h: nat, k: nat)
    requires Inv(st, valid) && c in st.chainTx && k <= h <= st.tree[c].height
    requires Path(st.tree, c)[k] in st.failed
    ensures Path(st.tree, c)[h] in st.chainTx && !AllValid(st.tree, valid, Path(st.tree, c)[h])
  {
    var b, bad := Path(st.tree, c)[h], Path(st.tree, c)[k];
    PathPrefix(st.tree, c, h);
    assert Path(st.tree, b)[k] == bad;
    LinkedBelow(st, b, c);
    if AllValid(st.tree, valid, b) {
      ValidBelow(st.tree, valid, bad, b);
    }
  }

  ghost predicate RestOk(st: State, valid: Validity) {
    Domains(st) && FailedJustly(st, valid) && Complete(st, valid) && TipOk(st, valid)
  }

  ghost predicate AllDequeued(st: State, q: seq<Id>) {
    forall x :: x in q ==> x in st.tree && Dequeued(st, x)
  }

  /** The blocks on the worklist are exactly those still to be linked. */
  ghost predicate Worklist(st: State, valid: Validity, q: seq<Id>) {
    && RestOk(st, valid) && Pending(st, Members(q))
    && Distinct(q) && AllDequeued(st, q)
  }

  /** `c` is linked; the blocks that waited under it are partly on the worklist and partly still in the multimap. */
  ghost predicate Expanding(st: State, valid: Validity, c: Id, q: seq<Id>) {
    && RestOk(st, valid) && Pending(st, Members(q) + Children(st.unlinked, c))
    && Distinct(q) && AllDequeued(st, q) && c in st.chainTx
  }

  lemma ArrivedDequeued(st: State, b: Id)
    requires Links(st) && b in st.tree && b !in st.haveData
    ensures Dequeued(st, b)
  {
    assert forall p :: (p, b) in st.unlinked ==> UnlinkedOk(st, p, b);
  }

  lemma WorklistStart(st: State, valid: Validity, b: Id)
    requires RestOk(st, valid) && Pending(st, {b}) && Dequeued(st, b)
    ensures Worklist(st, valid, [b])
  {
    assert Members([b]) == {b};
  }

  lemma WorklistEnd(st: State, valid: Validity)
    requires Worklist(st, valid, [])
    ensures Inv(st, valid)
  {
    assert Members<Id>([]) == {};
    PendingNone(st);
  }

  lemma WorklistLink(st: State, valid: Validity, q: seq<Id>)
    requires Worklist(st, valid, q) && q != []
    ensures q[0] in st.haveData && q[0] in st.tree && q[0] in st.nTx && q[0] !in st.chainTx
    ensures st.tree[q[0]].prev.Some? ==> st.tree[q[0]].prev.value in st.chainTx
    ensures Expanding(LinkedState(st, q[0]), valid, q[0], q[1..])
  {
    var c := q[0];
    var w := Members(q);
    assert c in w && QueuedOk(st, c);
    LinkOne(st, w, c);
    LinkKeeps(st, valid, c);
    assert w - {c} == Members(q[1..]);
  }

  lemma ExpandOne(st: State, valid: Validity, c: Id, q: seq<Id>, b: Id)
    requires Expanding(st, valid, c, q) && (c, b) in st.unlinked
    ensures Expanding(st.(unlinked := st.unlinked - {(c, b)}), valid, c, q + [b])
  {
    var st' := st.(unlinked := st.unlinked - {(c, b)});
    var w := Members(q) + Children(st.unlinked, c);
    assert b in Children(st.unlinked, c);
    DequeuePair(st, w, c, b);
    RestKept(st, st', valid);
    assert PendingPair(st, w, c, b);
    assert Members(q + [b]) == Members(q) + {b};
    assert Children(st.unlinked, c) == Children(st'.unlinked, c) + {b};
    assert w == Members(q + [b]) + Children(st'.unlinked, c);
  }

  /** The vector stays a branch of the tree when the tree grows. */
  lemma ChainKept(t: Tree, u: Tree, c: seq<Option<Id>>)
    requires IsChain(t, c) && Wf(u) && t.Keys <= u.Keys
    requires forall x :: x in t ==> Path(u, x) == Path(t, x)
    ensures IsChain(u, c)
  {
  }
}
