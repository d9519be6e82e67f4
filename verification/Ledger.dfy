/**
  What connecting transactions and blocks comes to, said without the code that
  does it: which outputs are unspent, with which contents, and since when.
 */
module Ledger {
  import opened Coins
  import opened Options
  import Supply
  import opened Undo

  // ---------------------------------------------------------------------------
  // Outputs made and spent
  // ---------------------------------------------------------------------------

  /** A transaction makes this output, for somebody to spend. */
  predicate Makes(tx: Tx, p: OutPoint) {
    p.hash == tx.txid && p.n < |tx.vout| && !tx.vout[p.n].IsUnspendable()
  }

  predicate Spends(tx: Tx, p: OutPoint) {
    !tx.IsCoinBase() && SpendsFrom(tx.vin, p)
  }

  predicate MadeIn(txs: seq<Tx>, p: OutPoint) {
    exists i :: 0 <= i < |txs| && Makes(txs[i], p)
  }

  predicate SpentIn(txs: seq<Tx>, p: OutPoint) {
    exists i :: 0 <= i < |txs| && Spends(txs[i], p)
  }

  /** An unspent output with its contents, the height it was made at, and whether a coinbase made it. */
  predicate Holds(v: View, p: OutPoint, out: TxOut, h: nat, coinbase: bool) {
    Unspent(v, p) && v[p.hash].vout[p.n] == out && v[p.hash].nHeight == h && v[p.hash].fCoinBase == coinbase
  }

  // ---------------------------------------------------------------------------
  // One transaction
  // ---------------------------------------------------------------------------

  /** Where an output stands: everything a record says about it. */
  predicate SameCoin(v: View, w: View, p: OutPoint)
    requires Unspent(v, p)
  {
    Holds(w, p, v[p.hash].vout[p.n], v[p.hash].nHeight, v[p.hash].fCoinBase)
  }

  lemma SpendOneIs(v: View, q: OutPoint, p: OutPoint)
    requires Unspent(v, q)
    ensures Unspent(SpendOne(v, q), p) <==> Unspent(v, p) && p != q
    ensures Unspent(v, p) && p != q ==> SameCoin(v, SpendOne(v, q), p)
  {
    SpendOneSpends(v, q, p);
    if Unspent(v, p) && p != q {
      SpendKeepsOthers(v, q, p);
    }
  }

  lemma SpendsFromNext(ins: seq<TxIn>, p: OutPoint)
    requires ins != []
    ensures SpendsFrom(ins, p) <==> SpendsFrom(ins[..|ins| - 1], p) || ins[|ins| - 1].prevout == p
  {
    var k := |ins| - 1;
    if SpendsFrom(ins, p) {
      SpendsFromLast(ins, p);
    }
    if SpendsFrom(ins[..k], p) {
      var i :| 0 <= i < k && ins[..k][i].prevout == p;
      assert ins[i].prevout == p;
    }
  }

  /** Spending takes away exactly what the inputs refer to. */
  lemma {:induction false} SpendAllIs(v: View, ins: seq<TxIn>, p: OutPoint)
    requires SpendAll(v, ins).Some?
    ensures Unspent(SpendAll(v, ins).value.0, p) <==> Unspent(v, p) && !SpendsFrom(ins, p)
    ensures Unspent(v, p) && !SpendsFrom(ins, p) ==> SameCoin(v, SpendAll(v, ins).value.0, p)
  {
    hide SpendOne, SpendsFrom, Unspent, UndoFor;
    if ins == [] {
      NothingSpent(p);
    } else {
      var k := |ins| - 1;
      SpendAllIs(v, ins[..k], p);
      SpendOneIs(SpendAll(v, ins[..k]).value.0, ins[k].prevout, p);
      SpendsFromNext(ins, p);
    }
  }

  lemma NothingSpent(p: OutPoint)
    ensures !SpendsFrom([], p)
  {
  }

  /** Adding a transaction adds exactly the outputs it makes. */
  lemma AddIs(v: View, tx: Tx, h: nat, p: OutPoint)
    requires tx.txid !in v && GoodOutputs(tx)
    ensures
      var w := Put(v, tx.txid, FromTx(tx, h));
      && (Unspent(w, p) <==> Unspent(v, p) || Makes(tx, p))
      && (Makes(tx, p) ==> Holds(w, p, tx.vout[p.n], h, tx.IsCoinBase()))
      && (Unspent(v, p) ==> SameCoin(v, w, p))
  {
    hide FromTx;
    FromTxHolds(tx, h);
    var c := FromTx(tx, h);
    if p.hash == tx.txid {
      assert c.IsAvailable(p.n) <==> Makes(tx, p);
      assert c.IsAvailable(p.n) ==> !c.IsPruned();
    }
  }

  /** What one iteration of `ConnectBlock` does to one output. */
  lemma ConnectTxIs(s: Progress, tx: Tx, h: nat, rules: Rules, p: OutPoint)
    requires ConnectTx(s, tx, h, rules).Some? && CheckTransaction(tx) && tx.txid !in s.view && Wf(s.view)
    ensures
      var w := ConnectTx(s, tx, h, rules).value.view;
      && (Unspent(w, p) <==> (Unspent(s.view, p) && !Spends(tx, p)) || Makes(tx, p))
      && (Makes(tx, p) ==> !Spends(tx, p) && Holds(w, p, tx.vout[p.n], h, tx.IsCoinBase()))
      && (Unspent(s.view, p) && !Spends(tx, p) ==> SameCoin(s.view, w, p))
      && (Spends(tx, p) ==> Unspent(s.view, p))
  {
    hide SpendAll, FromTx, Put, Wf, CheckInputs, SumsInRange, SpendsFrom, SpentOutputs;
    CheckedOutputsGood(tx);
    if tx.IsCoinBase() {
      AddIs(s.view, tx, h, p);
    } else {
      SpendAllIs(s.view, tx.vin, p);
      SpendAllWf(s.view, tx.vin);
      AddIs(SpendAll(s.view, tx.vin).value.0, tx, h, p);
      FoundBefore(s.view, tx.vin, p);
    }
  }

  lemma FoundBefore(v: View, ins: seq<TxIn>, p: OutPoint)
    requires AllUnspent(v, ins)
    ensures SpendsFrom(ins, p) ==> Unspent(v, p)
  {
  }

  // ---------------------------------------------------------------------------
  // The transactions of a block
  // ---------------------------------------------------------------------------

  /** Transactions that connect one after the other, none of them there before. */
  ghost predicate Connected(v: View, txs: seq<Tx>, h: nat, rules: Rules) {
    && Wf(v) && h >= 1 && Checked(txs) && NoOverwrite(v, txs) && DistinctTxids(txs, |txs|)
    && ConnectTxs(v, txs, h, rules).Some?
  }

  /** The unspent outputs after them. */
  ghost function After(v: View, txs: seq<Tx>, h: nat, rules: Rules): View
    requires Connected(v, txs, h, rules)
  {
    ConnectTxs(v, txs, h, rules).value.view
  }

  lemma ConnectedPrefix(v: View, txs: seq<Tx>, h: nat, rules: Rules, k: nat)
    requires Connected(v, txs, h, rules) && k <= |txs|
    ensures Connected(v, txs[..k], h, rules)
  {
    hide ConnectTxs, Wf, CheckTransaction;
    ConnectTxsPrefix(v, txs, k, h, rules);
  }

  lemma MadeNext(txs: seq<Tx>, p: OutPoint)
    requires txs != []
    ensures MadeIn(txs, p) <==> MadeIn(txs[..|txs| - 1], p) || Makes(txs[|txs| - 1], p)
  {
    hide Makes;
    var k := |txs| - 1;
    if MadeIn(txs[..k], p) {
      var i :| 0 <= i < k && Makes(txs[..k][i], p);
      assert Makes(txs[i], p);
    }
    if MadeIn(txs, p) && !Makes(txs[k], p) {
      var i :| 0 <= i < |txs| && Makes(txs[i], p);
      assert Makes(txs[..k][i], p);
    }
  }

  lemma SpentNext(txs: seq<Tx>, p: OutPoint)
    requires txs != []
    ensures SpentIn(txs, p) <==> SpentIn(txs[..|txs| - 1], p) || Spends(txs[|txs| - 1], p)
  {
    hide Spends;
    var k := |txs| - 1;
    if SpentIn(txs[..k], p) {
      var i :| 0 <= i < k && Spends(txs[..k][i], p);
      assert Spends(txs[i], p);
    }
    if SpentIn(txs, p) && !Spends(txs[k], p) {
      var i :| 0 <= i < |txs| && Spends(txs[i], p);
      assert Spends(txs[..k][i], p);
    }
  }

  /** Whatever is spent was there before, or made by one of the transactions. */
  lemma SpentWasThere(v: View, txs: seq<Tx>, h: nat, rules: Rules, p: OutPoint)
    requires Connected(v, txs, h, rules) && SpentIn(txs, p)
    ensures p.hash in v || Made(txs, p.hash)
  {
    hide ConnectTxs, Wf, CheckTransaction, ConnectTx;
    var i :| 0 <= i < |txs| && Spends(txs[i], p);
    StepAt(v, txs, h, rules, i);
    var s := ConnectTxs(v, txs[..i], h, rules).value;
    ConnectTxIs(s, txs[i], h, rules, p);
    ConnectTxsWf(v, txs[..i], h, rules);
    if p.hash !in v {
      var e :| 0 <= e < i && txs[..i][e].txid == p.hash;
      assert txs[e].txid == p.hash;
    }
  }

  /** The step of transaction `i`, as it was taken. */
  lemma StepAt(v: View, txs: seq<Tx>, h: nat, rules: Rules, i: nat)
    requires Connected(v, txs, h, rules) && i < |txs|
    ensures Connected(v, txs[..i], h, rules)
    ensures
      var s := ConnectTxs(v, txs[..i], h, rules).value;
      && Wf(s.view) && txs[i].txid !in s.view && CheckTransaction(txs[i])
      && ConnectTx(s, txs[i], h, rules).Some? && ConnectTx(s, txs[i], h, rules) == ConnectTxs(v, txs[..i + 1], h, rules)
  {
    hide ConnectTxs, Wf, CheckTransaction, ConnectTx;
    ConnectedPrefix(v, txs, h, rules, i);
    ConnectTxsPrefix(v, txs, i + 1, h, rules);
    ConnectTxsNext(v, txs, i, h, rules);
    NotThereYet(v, txs, i, h, rules);
  }

  /**
    After any transactions that connect, an output is unspent exactly if it was
    before or one of them makes it, and none of them spends it. What was there
    is as it was, and what is new is as it was declared.
   */
  lemma {:induction false} UnspentIff(v: View, txs: seq<Tx>, h: nat, rules: Rules, p: OutPoint)
    requires Connected(v, txs, h, rules)
    ensures
      var w := After(v, txs, h, rules);
      && (Unspent(w, p) <==> (Unspent(v, p) || MadeIn(txs, p)) && !SpentIn(txs, p))
      && (Unspent(v, p) && !SpentIn(txs, p) ==> SameCoin(v, w, p))
    decreases |txs|
  {
    hide ConnectTx, Wf, CheckTransaction, Makes, Spends, MadeIn, SpentIn, Made;
    if txs == [] {
      NothingDone(v, p);
    } else {
      var k := |txs| - 1;
      assert txs[..k + 1] == txs;
      StepAt(v, txs, h, rules, k);
      UnspentIff(v, txs[..k], h, rules, p);
      ConnectTxIs(ConnectTxs(v, txs[..k], h, rules).value, txs[k], h, rules, p);
      MadeNext(txs, p);
      SpentNext(txs, p);
      if Makes(txs[k], p) && SpentIn(txs[..k], p) {
        SpentWasThere(v, txs[..k], h, rules, p);
        MadeTooLate(v, txs, h, rules, k, p);
      }
    }
  }

  lemma NothingDone(v: View, p: OutPoint)
    ensures !MadeIn([], p) && !SpentIn([], p) && (Unspent(v, p) ==> SameCoin(v, v, p))
  {
  }

  lemma MadeTooLate(v: View, txs: seq<Tx>, h: nat, rules: Rules, k: nat, p: OutPoint)
    requires Connected(v, txs, h, rules) && k < |txs| && Makes(txs[k], p)
    ensures p.hash !in v && !Made(txs[..k], p.hash)
  {
    hide ConnectTxs, Wf, CheckTransaction;
    assert forall e :: 0 <= e < k ==> txs[..k][e].txid == txs[e].txid;
  }

  /** What is new and not spent is as it was declared. */
  lemma {:induction false} NewIs(v: View, txs: seq<Tx>, h: nat, rules: Rules, i: nat, p: OutPoint)
    requires Connected(v, txs, h, rules) && i < |txs| && Makes(txs[i], p) && !SpentIn(txs, p)
    ensures Holds(After(v, txs, h, rules), p, txs[i].vout[p.n], h, txs[i].IsCoinBase())
    decreases |txs|
  {
    hide ConnectTx, Wf, CheckTransaction, Spends, SpentIn;
    var k := |txs| - 1;
    assert txs[..k + 1] == txs;
    StepAt(v, txs, h, rules, k);
    SpentNext(txs, p);
    ConnectTxIs(ConnectTxs(v, txs[..k], h, rules).value, txs[k], h, rules, p);
    if i < k {
      assert txs[..k][i] == txs[i];
      NewIs(v, txs[..k], h, rules, i, p);
    }
  }

  /** The signature operations of transactions that connect stay within the limit of a block. */
  lemma {:induction false} SigOpsWithin(v: View, txs: seq<Tx>, h: nat, rules: Rules)
    requires ConnectTxs(v, txs, h, rules).Some?
    ensures ConnectTxs(v, txs, h, rules).value.nSigOps <= MAX_BLOCK_SIGOPS
  {
    hide CheckInputs, SpentOutputs, SpendAll, FromTx, Put;
    if txs != [] {
      var k := |txs| - 1;
      SigOpsWithin(v, txs[..k], h, rules);
    }
  }

  // ---------------------------------------------------------------------------
  // The blocks of a chain
  // ---------------------------------------------------------------------------

  lemma BlockConnected(v: View, block: seq<Tx>, h: nat, rules: Rules)
    requires Wf(v) && h >= 1 && Collisionless(block) && ConnectBlock(v, block, h, rules).Some?
    ensures Connected(v, block, h, rules)
    ensures ConnectBlock(v, block, h, rules).value.0 == After(v, block, h, rules)
    ensures block != [] && block[0].IsCoinBase() && forall i :: 1 <= i < |block| ==> !block[i].IsCoinBase()
  {
    hide ConnectTxs, Wf, CheckTransaction;
    ConnectedTxidsDistinct(v, block, h, rules, |block|);
  }

  lemma ReplayWf(chain: seq<Supply.Link>, rules: Rules)
    requires Supply.Replay(chain, rules).Some?
    ensures Wf(Supply.Replay(chain, rules).value)
  {
    hide Supply.Replay, Wf;
    Supply.ReplayInv(chain, rules);
  }

  /** The block was connected to `v`, and leads to `w`. */
  ghost predicate Leads(v: View, block: seq<Tx>, h: nat, rules: Rules, w: View) {
    && Connected(v, block, h, rules) && After(v, block, h, rules) == w
    && block != [] && block[0].IsCoinBase() && forall i :: 1 <= i < |block| ==> !block[i].IsCoinBase()
  }

  /** The top block of a chain was connected to what the chain below it leads to. */
  lemma TopConnected(chain: seq<Supply.Link>, rules: Rules, w: View) returns (v: View)
    requires chain != [] && Supply.Replay(chain, rules) == Some(w)
    ensures
      var k := |chain| - 1;
      Supply.Replay(chain[..k], rules) == Some(v) && Leads(v, chain[k].block, k + 1, rules, w)
  {
    hide ConnectBlock, Connected, Collisionless, After, Wf;
    var k := |chain| - 1;
    v := Supply.Replay(chain[..k], rules).value;
    ReplayWf(chain[..k], rules);
    BlockConnected(v, chain[k].block, k + 1, rules);
  }

  /** The block at height `h`. */
  function BlockAt(chain: seq<Supply.Link>, h: nat): seq<Tx>
    requires 1 <= h <= |chain|
  {
    chain[h - 1].block
  }

  /** The block at height `j` makes an output, and no block from there on spends it. */
  ghost predicate MadeForGood(chain: seq<Supply.Link>, j: nat, p: OutPoint) {
    1 <= j <= |chain| && MadeIn(BlockAt(chain, j), p) && forall k :: j <= k <= |chain| ==> !SpentIn(BlockAt(chain, k), p)
  }

  lemma MadeForGoodNext(chain: seq<Supply.Link>, j: nat, p: OutPoint)
    requires chain != []
    ensures
      var k := |chain| - 1;
      && (MadeForGood(chain, j, p) <==>
            !SpentIn(chain[k].block, p) && if j == k + 1 then MadeIn(chain[k].block, p) else MadeForGood(chain[..k], j, p))
      && (MadeForGood(chain[..k], j, p) ==> j <= k)
  {
    hide MadeIn, SpentIn;
    var k := |chain| - 1;
    forall i | 1 <= i <= k
      ensures BlockAt(chain[..k], i) == BlockAt(chain, i)
    {
    }
    assert BlockAt(chain, k + 1) == chain[k].block;
    if MadeForGood(chain, j, p) {
      forall i | j <= i <= k
        ensures !SpentIn(BlockAt(chain[..k], i), p)
      {
        assert !SpentIn(BlockAt(chain, i), p);
      }
    }
  }

  /**
    The unspent outputs of a chain, said without replaying it: those that some
    block makes and no block from there on spends, and the record of each has
    the height of that block.
   */
  lemma {:induction false} ChainUnspentIff(chain: seq<Supply.Link>, rules: Rules, p: OutPoint)
    requires Supply.Replay(chain, rules).Some?
    ensures
      var v := Supply.Replay(chain, rules).value;
      && (Unspent(v, p) <==> exists j :: MadeForGood(chain, j, p))
      && forall j :: MadeForGood(chain, j, p) ==> Unspent(v, p) && v[p.hash].nHeight == j
    decreases |chain|
  {
    hide Supply.Replay, Connected, After, MadeIn, SpentIn, MadeForGood;
    if chain == [] {
      NothingMade(rules, p);
    } else {
      var k := |chain| - 1;
      var below, block := chain[..k], chain[k].block;
      var v := TopConnected(chain, rules, Supply.Replay(chain, rules).value);
      ChainUnspentIff(below, rules, p);
      UnspentIff(v, block, k + 1, rules, p);
      if MadeIn(block, p) {
        MadeHere(v, block, k + 1, rules, p);
      }
      forall j: nat
        ensures MadeForGood(chain, j, p) <==> !SpentIn(block, p) && if j == k + 1 then MadeIn(block, p) else MadeForGood(below, j, p)
        ensures MadeForGood(below, j, p) ==> j <= k
      {
        MadeForGoodNext(chain, j, p);
      }
      assert MadeForGood(chain, k + 1, p) <==> !SpentIn(block, p) && MadeIn(block, p);
    }
  }

  lemma NothingMade(rules: Rules, p: OutPoint)
    ensures Supply.Replay([], rules) == Some(map[]) && forall j :: !MadeForGood([], j, p)
  {
  }

  lemma MadeHere(v: View, block: seq<Tx>, h: nat, rules: Rules, p: OutPoint)
    requires Connected(v, block, h, rules) && MadeIn(block, p)
    ensures !Unspent(v, p)
    ensures
      var w := After(v, block, h, rules);
      !SpentIn(block, p) ==> Unspent(w, p) && w[p.hash].nHeight == h
  {
    hide ConnectTxs, SpentIn;
    var i :| 0 <= i < |block| && Makes(block[i], p);
    assert block[i].txid !in v;
    if !SpentIn(block, p) {
      NewIs(v, block, h, rules, i, p);
    }
  }

  // ---------------------------------------------------------------------------
  // Coinbases mature
  // ---------------------------------------------------------------------------

  /** The maturity rule, at one input. */
  lemma SpentIsMature(s: Progress, tx: Tx, h: nat, rules: Rules, p: OutPoint)
    requires ConnectTx(s, tx, h, rules).Some? && Spends(tx, p)
    ensures Unspent(s.view, p) && (s.view[p.hash].fCoinBase ==> h - s.view[p.hash].nHeight >= 100)
  {
    hide SpendAll, FromTx, Put, SumsInRange, SpentOutputs;
    var i :| 0 <= i < |tx.vin| && tx.vin[i].prevout == p;
    assert Unspent(s.view, tx.vin[i].prevout);
  }

  /** No transaction of a block at height `h` spends a coinbase output made less than 100 blocks below it, or in the block itself. */
  lemma NotYetSpent(v: View, block: seq<Tx>, h: nat, rules: Rules, p: OutPoint)
    requires Connected(v, block, h, rules) && block != [] && block[0].IsCoinBase()
    requires Makes(block[0], p) || (Unspent(v, p) && v[p.hash].fCoinBase && h - v[p.hash].nHeight < 100)
    ensures !SpentIn(block, p)
  {
    hide Wf, Checked, NoOverwrite, DistinctTxids, ConnectTxs, ConnectTx, MadeIn, Makes;
    if SpentIn(block, p) {
      var i := FirstSpends(block, p);
      StepAt(v, block, h, rules, i);
      var s := ConnectTxs(v, block[..i], h, rules).value;
      SpentIsMature(s, block[i], h, rules, p);
      UnspentIff(v, block[..i], h, rules, p);
      if Makes(block[0], p) {
        assert block[..i][0] == block[0];
        NewIs(v, block[..i], h, rules, 0, p);
      }
    }
  }

  /** The first transaction to spend an output; it is not the coinbase. */
  lemma {:induction false} FirstSpends(block: seq<Tx>, p: OutPoint) returns (i: nat)
    requires SpentIn(block, p) && block != [] && block[0].IsCoinBase()
    ensures 0 < i < |block| && Spends(block[i], p) && !SpentIn(block[..i], p)
  {
    hide SpendsFrom;
    var k := |block| - 1;
    SpentNext(block, p);
    if SpentIn(block[..k], p) {
      i := FirstSpends(block[..k], p);
      assert block[..k][..i] == block[..i];
    } else {
      i := k;
    }
  }

  /** An output of the coinbase at height `j` is unspent at least until there are 100 blocks on top of it. */
  lemma {:induction false} CoinbaseWaits(chain: seq<Supply.Link>, rules: Rules, j: nat, p: OutPoint)
    requires Supply.Replay(chain, rules).Some? && 1 <= j <= |chain| < j + 100
    requires BlockAt(chain, j) != [] && Makes(BlockAt(chain, j)[0], p)
    ensures
      var v := Supply.Replay(chain, rules).value;
      Unspent(v, p) && v[p.hash].nHeight == j && v[p.hash].fCoinBase
    decreases |chain|
  {
    hide Supply.Replay, Connected, After, SpentIn, Makes;
    var k := |chain| - 1;
    var v := TopConnected(chain, rules, Supply.Replay(chain, rules).value);
    var block := chain[k].block;
    if j < |chain| {
      assert BlockAt(chain[..k], j) == BlockAt(chain, j);
      CoinbaseWaits(chain[..k], rules, j, p);
    }
    NotYetSpent(v, block, k + 1, rules, p);
    if j < |chain| {
      UnspentIff(v, block, k + 1, rules, p);
    } else {
      NewIs(v, block, k + 1, rules, 0, p);
    }
  }

  /** So it is in every run of connects and disconnects. */
  lemma MaturityInRuns(actions: seq<Supply.Action>, rules: Rules, j: nat, p: OutPoint)
    requires Supply.NoCollisions(actions)
    requires
      var s := Supply.Run(actions, rules);
      1 <= j <= |s.chain| < j + 100 && BlockAt(s.chain, j) != [] && Makes(BlockAt(s.chain, j)[0], p)
    ensures Unspent(Supply.Run(actions, rules).view, p)
  {
    hide Supply.Run, Supply.Replay, Makes;
    Supply.SupplyBound(actions, rules);
    CoinbaseWaits(Supply.Run(actions, rules).chain, rules, j, p);
  }

  /** And in every run the unspent outputs are those that were made on the active chain and not spent since. */
  lemma UnspentInRuns(actions: seq<Supply.Action>, rules: Rules, p: OutPoint)
    requires Supply.NoCollisions(actions)
    ensures
      var s := Supply.Run(actions, rules);
      Unspent(s.view, p) <==> exists j :: MadeForGood(s.chain, j, p)
  {
    hide Supply.Run, Supply.Replay, MadeForGood;
    Supply.SupplyBound(actions, rules);
    ChainUnspentIff(Supply.Run(actions, rules).chain, rules, p);
  }
}
