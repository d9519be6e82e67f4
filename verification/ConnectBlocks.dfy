/**
  The loops of main.cpp over the layered coins cache, proved against module
  `Undo`: whatever is cached where, a layer's contents move exactly as the plain
  maps do.
 */
module ConnectBlocks {
  import opened Coins
  import opened CoinsCache
  import opened Options
  import opened Undo

  // ---------------------------------------------------------------------------
  // Context-free checks
  // ---------------------------------------------------------------------------

  lemma SumValuesNext(outs: seq<TxOut>, i: nat)
    requires i < |outs|
    ensures SumValues(outs[..i + 1]) == SumValues(outs[..i]) + outs[i].nValue
  {
    assert outs[..i + 1][..i] == outs[..i];
  }

  /** The output loop of `CheckTransaction`, also `GetValueOut` with its range checks. */
  method CheckOutputs(outs: seq<TxOut>) returns (ok: bool, total: int)
    ensures ok <==> SumsInRange(outs)
    ensures ok ==> total == SumValues(outs)
  {
    hide SumValues;
    total := 0;
    NoOutputs(outs);
    for i := 0 to |outs|
      invariant total == SumValues(outs[..i])
      invariant forall j :: 0 <= j < i ==> InRangeAt(outs, j)
    {
      SumValuesNext(outs, i);
      total := total + outs[i].nValue;
      if !MoneyRange(outs[i].nValue) || !MoneyRange(total) {
        assert !InRangeAt(outs, i);
        return false, total;
      }
    }
    assert outs[..|outs|] == outs;
    ok := true;
  }

  lemma NoOutputs(outs: seq<TxOut>)
    ensures SumValues(outs[..0]) == 0
  {
  }

  /** The duplicate-input loop of `CheckTransaction`. */
  method CheckDistinctInputs(tx: Tx) returns (ok: bool)
    ensures ok <==> DistinctInputs(tx)
  {
    var seen: set<OutPoint> := {};
    for i := 0 to |tx.vin|
      invariant seen == set j | 0 <= j < i :: tx.vin[j].prevout
      invariant forall j, k :: 0 <= j < k < i ==> tx.vin[j].prevout != tx.vin[k].prevout
    {
      if tx.vin[i].prevout in seen {
        return false;
      }
      seen := seen + {tx.vin[i].prevout};
    }
    ok := true;
  }

  method CheckTransactionLoop(tx: Tx) returns (ok: bool)
    ensures ok <==> CheckTransaction(tx)
  {
    if tx.vin == [] || tx.vout == [] {
      return false;
    }
    if TxSize(tx) > MAX_BLOCK_SIZE {
      return false;
    }
    var total;
    ok, total := CheckOutputs(tx.vout);
    if !ok {
      return;
    }
    ok := CheckDistinctInputs(tx);
    if !ok {
      return;
    }
    if tx.IsCoinBase() {
      return 2 <= |tx.vin[0].scriptSig| <= 100;
    }
    for i := 0 to |tx.vin|
      invariant forall j :: 0 <= j < i ==> !tx.vin[j].prevout.IsNull()
    {
      if tx.vin[i].prevout.IsNull() {
        return false;
      }
    }
  }

  method CheckBlockLoop(block: seq<Tx>, rules: Rules) returns (ok: bool)
    ensures ok <==> CheckBlock(block, rules)
  {
    hide CheckTransaction, TxsSize, LegacySigOps;
    if block == [] || |block| > MAX_BLOCK_SIZE || BlockSize(block) > MAX_BLOCK_SIZE {
      return false;
    }
    if !block[0].IsCoinBase() {
      return false;
    }
    for i := 1 to |block|
      invariant forall j :: 1 <= j < i ==> !block[j].IsCoinBase()
    {
      if block[i].IsCoinBase() {
        return false;
      }
    }
    for i := 0 to |block|
      invariant forall j :: 0 <= j < i ==> CheckTransaction(block[j])
    {
      ok := CheckTransactionLoop(block[i]);
      if !ok {
        return;
      }
    }
    var nSigOps := CountSigOps(block, rules);
    ok := nSigOps <= MAX_BLOCK_SIGOPS;
  }

  /** The signature-operation loop of `CheckBlock`. */
  method CountSigOps(block: seq<Tx>, rules: Rules) returns (nSigOps: nat)
    ensures nSigOps == LegacySigOps(block, rules.legacySigOps)
  {
    nSigOps := 0;
    for i := 0 to |block|
      invariant nSigOps == LegacySigOps(block[..i], rules.legacySigOps)
    {
      assert block[..i + 1][..i] == block[..i];
      nSigOps := nSigOps + rules.legacySigOps(block[i]);
    }
    assert block[..|block|] == block;
  }

  // ---------------------------------------------------------------------------
  // Inputs
  // ---------------------------------------------------------------------------

  method HaveInputsLoop(view: CoinsViewCache, tx: Tx) returns (ok: bool)
    requires view.Valid() && !view.hasModifier
    modifies view.Repr
    ensures view.Kept() && view.Contents() == old(view.Contents())
    ensures ok <==> HaveInputs(view.Contents(), tx)
  {
    for i := 0 to |tx.vin|
      invariant view.Kept() && view.Contents() == old(view.Contents())
      invariant forall j :: 0 <= j < i ==> Unspent(view.Contents(), tx.vin[j].prevout)
    {
      var p := tx.vin[i].prevout;
      var found, coins := view.AccessCoins(p.hash);
      if !found || !coins.IsAvailable(p.n) {
        return false;
      }
      assert !coins.IsPruned();
    }
    ok := true;
  }

  ghost function SpentUpTo(v: View, ins: seq<TxIn>, i: nat): seq<TxOut>
    requires AllUnspent(v, ins) && i <= |ins|
  {
    if i == 0 then []
    else
      var p := ins[i - 1].prevout;
      SpentUpTo(v, ins, i - 1) + [v[p.hash].vout[p.n]]
  }

  lemma {:induction false} SpentUpToPrefix(v: View, ins: seq<TxIn>, i: nat)
    requires AllUnspent(v, ins) && i <= |ins|
    ensures AllUnspent(v, ins[..i]) && SpentUpTo(v, ins, i) == SpentOutputs(v, ins[..i])
  {
    if i > 0 {
      SpentUpToPrefix(v, ins, i - 1);
      assert ins[..i][..i - 1] == ins[..i - 1];
    }
  }

  /** One more input. */
  lemma InputNext(v: View, ins: seq<TxIn>, i: nat, h: nat)
    requires i < |ins| && AllUnspent(v, ins)
    ensures
      var p := ins[i].prevout;
      && Unspent(v, p) && SpentUpTo(v, ins, i + 1) == SpentUpTo(v, ins, i) + [v[p.hash].vout[p.n]]
      && (Matured(v, ins, i + 1, h) <==> Matured(v, ins, i, h) && (v[p.hash].fCoinBase ==> h - v[p.hash].nHeight >= COINBASE_MATURITY))
  {
    assert Unspent(v, ins[i].prevout);
  }

  lemma NoInputs(v: View, ins: seq<TxIn>, h: nat)
    requires AllUnspent(v, ins)
    ensures SpentUpTo(v, ins, 0) == [] && Matured(v, ins, 0, h)
  {
  }

  lemma CheckInputsMeans(v: View, tx: Tx, h: nat, rules: Rules)
    requires HaveInputs(v, tx)
    ensures
      var spent := SpentOutputs(v, tx.vin);
      CheckInputs(v, tx, h, rules) <==>
        && Matured(v, tx.vin, |tx.vin|, h) && SumsInRange(spent)
        && SumValues(spent) >= SumValues(tx.vout) && MoneyRange(SumValues(spent) - SumValues(tx.vout))
        && rules.scripts(tx, spent)
  {
    hide SpentOutputs, Matured, SumsInRange, SumValues;
  }

  method AccessInput(view: CoinsViewCache, p: OutPoint) returns (coins: Coins)
    requires view.Valid() && !view.hasModifier && Unspent(view.Contents(), p)
    modifies view.Repr
    ensures view.Kept() && view.Contents() == old(view.Contents())
    ensures coins == view.Contents()[p.hash] && p.n < |coins.vout|
  {
    var found;
    found, coins := view.AccessCoins(p.hash);
  }

  /** The input loop of `CheckInputs`, gathering what is spent. */
  method GatherInputs(view: CoinsViewCache, tx: Tx, h: nat) returns (mature: bool, spent: seq<TxOut>)
    requires view.Valid() && !view.hasModifier && HaveInputs(view.Contents(), tx)
    modifies view.Repr
    ensures view.Kept() && view.Contents() == old(view.Contents())
    ensures spent == SpentOutputs(view.Contents(), tx.vin)
    ensures mature <==> Matured(view.Contents(), tx.vin, |tx.vin|, h)
  {
    hide SpentOutputs, SpentUpTo, Matured, Unspent;
    ghost var v := view.Contents();
    mature, spent := true, [];
    NoInputs(v, tx.vin, h);
    for i := 0 to |tx.vin|
      invariant view.Kept() && view.Contents() == v
      invariant spent == SpentUpTo(v, tx.vin, i)
      invariant mature <==> Matured(v, tx.vin, i, h)
    {
      var p := tx.vin[i].prevout;
      InputNext(v, tx.vin, i, h);
      var coins := AccessInput(view, p);
      mature := mature && (coins.fCoinBase ==> h - coins.nHeight >= COINBASE_MATURITY);
      spent := spent + [coins.vout[p.n]];
    }
    SpentUpToPrefix(v, tx.vin, |tx.vin|);
    assert tx.vin[..|tx.vin|] == tx.vin;
  }

  method CheckInputsLoop(view: CoinsViewCache, tx: Tx, h: nat, rules: Rules) returns (ok: bool, fee: int)
    requires view.Valid() && !view.hasModifier && HaveInputs(view.Contents(), tx) && SumsInRange(tx.vout)
    modifies view.Repr
    ensures view.Kept() && view.Contents() == old(view.Contents())
    ensures ok <==> CheckInputs(view.Contents(), tx, h, rules)
    ensures ok ==> fee == Fee(view.Contents(), tx)
  {
    hide SpentOutputs, CheckInputs;
    var mature, spent := GatherInputs(view, tx, h);
    CheckInputsMeans(view.Contents(), tx, h, rules);
    var inRange, valueIn := CheckOutputs(spent);
    var outOk, valueOut := CheckOutputs(tx.vout);
    fee := valueIn - valueOut;
    ok := mature && inRange && valueIn >= valueOut && MoneyRange(fee) && rules.scripts(tx, spent);
  }

  // ---------------------------------------------------------------------------
  // UpdateCoins
  // ---------------------------------------------------------------------------

  lemma SpendAllNext(v: View, ins: seq<TxIn>, i: nat)
    requires i < |ins| && SpendAll(v, ins[..i + 1]).Some?
    ensures SpendAll(v, ins[..i]).Some? && Unspent(SpendAll(v, ins[..i]).value.0, ins[i].prevout)
    ensures
      var (w, undo) := SpendAll(v, ins[..i]).value;
      SpendAll(v, ins[..i + 1]).value == (SpendOne(w, ins[i].prevout), undo + [UndoFor(w[ins[i].prevout.hash], ins[i].prevout.n)])
  {
    assert ins[..i + 1][..i] == ins[..i];
  }

  lemma {:induction false} SpendAllPrefix(v: View, ins: seq<TxIn>, i: nat)
    requires i <= |ins| && SpendAll(v, ins).Some?
    ensures SpendAll(v, ins[..i]).Some?
    decreases |ins|
  {
    hide SpendOne, UndoFor, Unspent;
    if i < |ins| {
      SpendAllPrefix(v, ins[..|ins| - 1], i);
      assert ins[..|ins| - 1][..i] == ins[..i];
    } else {
      assert ins[..i] == ins;
    }
  }

  /** One input of `UpdateCoins`. */
  method SpendInput(view: CoinsViewCache, p: OutPoint) returns (undo: InUndo)
    requires view.Valid() && !view.hasModifier && Unspent(view.Contents(), p)
    modifies view.Repr
    ensures view.BaseKept() && !view.hasModifier && view.hashBlock == old(view.hashBlock)
    ensures view.Contents() == SpendOne(old(view.Contents()), p)
    ensures undo == UndoFor(old(view.Contents())[p.hash], p.n)
  {
    ghost var v := view.Contents();
    var coins := view.ModifyCoins(p.hash);
    assert coins == v[p.hash] && coins.IsAvailable(p.n);
    undo := InUndo(coins.vout[p.n], false, 0, 0);
    var spent := Spend(coins, p.n);
    if |spent.vout| == 0 {
      undo := undo.(nHeight := spent.nHeight, fCoinBase := spent.fCoinBase, nVersion := spent.nVersion);
    }
    CleanupIdempotent(spent);
    view.EndModifier(spent);
  }

  method UpdateCoinsLoop(tx: Tx, view: CoinsViewCache, h: nat) returns (txundo: TxUndo)
    requires view.Valid() && !view.hasModifier && UpdateCoins(view.Contents(), tx, h).Some?
    modifies view.Repr
    ensures view.BaseKept() && !view.hasModifier && view.hashBlock == old(view.hashBlock)
    ensures UpdateCoins(old(view.Contents()), tx, h) == Some((view.Contents(), txundo))
  {
    hide SpendOne, UndoFor, Unspent;
    ghost var v := view.Contents();
    txundo := [];
    if !tx.IsCoinBase() {
      for i := 0 to |tx.vin|
        invariant view.BaseKept() && !view.hasModifier && view.hashBlock == old(view.hashBlock)
        invariant SpendAll(v, tx.vin[..i]) == Some((view.Contents(), txundo))
      {
        SpendAllPrefix(v, tx.vin, i + 1);
        SpendAllNext(v, tx.vin, i);
        var undo := SpendInput(view, tx.vin[i].prevout);
        txundo := txundo + [undo];
      }
      assert tx.vin[..|tx.vin|] == tx.vin;
    }
    var coins := view.ModifyCoins(tx.txid);
    CleanupIdempotent(FromTx(tx, h));
    view.EndModifier(FromTx(tx, h));
  }

  // ---------------------------------------------------------------------------
  // ConnectBlock
  // ---------------------------------------------------------------------------

  /** The signature operations of a transaction together with the outputs it spends stay within the limit. */
  predicate FewSigOps(v: View, tx: Tx, legacy: nat, rules: Rules)
    requires HaveInputs(v, tx)
  {
    legacy + rules.p2shSigOps(tx, SpentOutputs(v, tx.vin)) <= MAX_BLOCK_SIGOPS
  }

  /** `GetP2SHSigOpCount`, added to the signature operations so far. */
  method AddSigOps(view: CoinsViewCache, tx: Tx, legacy: nat, rules: Rules) returns (nSigOps: nat)
    requires view.Valid() && !view.hasModifier && HaveInputs(view.Contents(), tx)
    modifies view.Repr
    ensures view.Kept() && view.Contents() == old(view.Contents())
    ensures nSigOps == legacy + rules.p2shSigOps(tx, SpentOutputs(view.Contents(), tx.vin))
  {
    hide SpentOutputs;
    var mature, spent := GatherInputs(view, tx, 0);
    nSigOps := legacy + rules.p2shSigOps(tx, spent);
  }

  /** Check and apply a transaction that is not a coinbase; `legacy` counts the signature operations with its own scripts. */
  method ConnectSpend(view: CoinsViewCache, tx: Tx, h: nat, rules: Rules, legacy: nat)
    returns (ok: bool, txundo: TxUndo, fee: int, nSigOps: nat)
    requires view.Valid() && !view.hasModifier && CheckTransaction(tx) && !tx.IsCoinBase()
    modifies view.Repr
    ensures view.BaseKept() && !view.hasModifier && view.hashBlock == old(view.hashBlock)
    ensures ok <==>
      var v := old(view.Contents());
      HaveInputs(v, tx) && FewSigOps(v, tx, legacy, rules) && CheckInputs(v, tx, h, rules)
    ensures ok ==> fee == Fee(old(view.Contents()), tx)
    ensures ok ==> nSigOps == legacy + rules.p2shSigOps(tx, SpentOutputs(old(view.Contents()), tx.vin))
    ensures ok ==> UpdateCoins(old(view.Contents()), tx, h) == Some((view.Contents(), txundo))
  {
    hide SpentOutputs, CheckInputs, HaveInputs, SpendAll, SumsInRange, Unspent;
    txundo, fee, nSigOps := [], 0, 0;
    ok := HaveInputsLoop(view, tx);
    if !ok {
      return;
    }
    nSigOps := AddSigOps(view, tx, legacy, rules);
    if nSigOps > MAX_BLOCK_SIGOPS {
      return false, txundo, fee, nSigOps;
    }
    ok, fee := CheckInputsLoop(view, tx, h, rules);
    if ok {
      InputsSpendable(view.Contents(), tx, h);
      txundo := UpdateCoinsLoop(tx, view, h);
    }
  }

  lemma InputsSpendable(v: View, tx: Tx, h: nat)
    requires CheckTransaction(tx) && HaveInputs(v, tx)
    ensures UpdateCoins(v, tx, h).Some?
  {
    SpendAllSucceeds(v, tx.vin);
  }

  lemma ConnectTxCoinBase(s: Progress, tx: Tx, h: nat, rules: Rules, w: View, txundo: TxUndo)
    requires tx.IsCoinBase() && UpdateCoins(s.view, tx, h) == Some((w, txundo))
    requires s.nSigOps + rules.legacySigOps(tx) <= MAX_BLOCK_SIGOPS
    ensures ConnectTx(s, tx, h, rules) == Some(s.(view := w, nSigOps := s.nSigOps + rules.legacySigOps(tx)))
  {
  }

  lemma ConnectTxFails(s: Progress, tx: Tx, h: nat, rules: Rules)
    requires
      var legacy := s.nSigOps + rules.legacySigOps(tx);
      || legacy > MAX_BLOCK_SIGOPS
      || (!tx.IsCoinBase() && !(HaveInputs(s.view, tx) && FewSigOps(s.view, tx, legacy, rules) && CheckInputs(s.view, tx, h, rules)))
    ensures ConnectTx(s, tx, h, rules) == None
  {
  }

  lemma ConnectTxSpend(s: Progress, tx: Tx, h: nat, rules: Rules, w: View, txundo: TxUndo)
    requires !tx.IsCoinBase() && HaveInputs(s.view, tx) && CheckInputs(s.view, tx, h, rules)
    requires UpdateCoins(s.view, tx, h) == Some((w, txundo)) && FewSigOps(s.view, tx, s.nSigOps + rules.legacySigOps(tx), rules)
    ensures
      var nSigOps := s.nSigOps + rules.legacySigOps(tx) + rules.p2shSigOps(tx, SpentOutputs(s.view, tx.vin));
      ConnectTx(s, tx, h, rules) == Some(Progress(w, s.undo + [txundo], s.fees + Fee(s.view, tx), nSigOps))
  {
  }

  /** One iteration of `ConnectBlock`'s loop. */
  method ConnectTxStep(view: CoinsViewCache, tx: Tx, h: nat, rules: Rules, undo: seq<TxUndo>, fees: int, nSigOps: nat)
    returns (ok: bool, undo': seq<TxUndo>, fees': int, nSigOps': nat)
    requires view.Valid() && !view.hasModifier && CheckTransaction(tx)
    modifies view.Repr
    ensures view.BaseKept() && !view.hasModifier && view.hashBlock == old(view.hashBlock)
    ensures ConnectTx(Progress(old(view.Contents()), undo, fees, nSigOps), tx, h, rules)
         == if ok then Some(Progress(view.Contents(), undo', fees', nSigOps')) else None
  {
    hide ConnectTx, CheckInputs, HaveInputs, SpendAll, CheckTransaction, FewSigOps, SpentOutputs;
    ghost var s := Progress(view.Contents(), undo, fees, nSigOps);
    undo', fees', nSigOps' := undo, fees, nSigOps + rules.legacySigOps(tx);
    if nSigOps' > MAX_BLOCK_SIGOPS {
      ConnectTxFails(s, tx, h, rules);
      ok := false;
    } else if tx.IsCoinBase() {
      assert UpdateCoins(view.Contents(), tx, h).Some?;
      var txundo := UpdateCoinsLoop(tx, view, h);
      ConnectTxCoinBase(s, tx, h, rules, view.Contents(), txundo);
      ok := true;
    } else {
      var txundo, fee;
      ok, txundo, fee, nSigOps' := ConnectSpend(view, tx, h, rules, nSigOps');
      if ok {
        ConnectTxSpend(s, tx, h, rules, view.Contents(), txundo);
        undo', fees' := undo + [txundo], fees + fee;
      } else {
        ConnectTxFails(s, tx, h, rules);
      }
    }
  }

  /** The BIP30 loop. */
  method NoOverwriteLoop(view: CoinsViewCache, block: seq<Tx>) returns (ok: bool)
    requires view.Valid() && !view.hasModifier
    modifies view.Repr
    ensures view.Kept() && view.Contents() == old(view.Contents())
    ensures ok <==> NoOverwrite(view.Contents(), block)
  {
    for i := 0 to |block|
      invariant view.Kept() && view.Contents() == old(view.Contents())
      invariant forall j :: 0 <= j < i ==> block[j].txid !in view.Contents()
    {
      var found, coins := view.AccessCoins(block[i].txid);
      if found && !coins.IsPruned() {
        return false;
      }
    }
    ok := true;
  }

  lemma ConnectTxsExtend(v: View, txs: seq<Tx>, k: nat, h: nat, rules: Rules)
    requires k < |txs| && ConnectTxs(v, txs[..k], h, rules).Some?
    ensures ConnectTxs(v, txs[..k + 1], h, rules) == ConnectTx(ConnectTxs(v, txs[..k], h, rules).value, txs[k], h, rules)
    ensures ConnectTxs(v, txs[..k + 1], h, rules).None? ==> ConnectTxs(v, txs, h, rules).None?
  {
    assert txs[..k + 1][..k] == txs[..k];
    if ConnectTxs(v, txs, h, rules).Some? {
      ConnectTxsPrefix(v, txs, k + 1, h, rules);
    }
  }

  method ConnectTxsLoop(view: CoinsViewCache, block: seq<Tx>, h: nat, rules: Rules)
    returns (ok: bool, undo: seq<TxUndo>, fees: int, nSigOps: nat)
    requires view.Valid() && !view.hasModifier && Checked(block)
    modifies view.Repr
    ensures view.BaseKept() && !view.hasModifier && view.hashBlock == old(view.hashBlock)
    ensures ConnectTxs(old(view.Contents()), block, h, rules)
         == if ok then Some(Progress(view.Contents(), undo, fees, nSigOps)) else None
  {
    ghost var v := view.Contents();
    hide ConnectTx, CheckTransaction;
    ok, undo, fees, nSigOps := true, [], 0, 0;
    var i := 0;
    while i < |block|
      invariant 0 <= i <= |block|
      invariant view.BaseKept() && !view.hasModifier && view.hashBlock == old(view.hashBlock)
      invariant ConnectTxs(v, block[..i], h, rules) == Some(Progress(view.Contents(), undo, fees, nSigOps))
    {
      ConnectTxsExtend(v, block, i, h, rules);
      ok, undo, fees, nSigOps := ConnectTxStep(view, block[i], h, rules, undo, fees, nSigOps);
      if !ok {
        return;
      }
      i := i + 1;
    }
    assert block[..i] == block;
    ok := true;
  }

  /**
    `ConnectBlock` above genesis. On success the layer stands for the connected
    view and carries the block's hash; on failure the caller drops the layer,
    and nothing below it has changed.
   */
  method ConnectBlockLoop(view: CoinsViewCache, block: seq<Tx>, h: nat, hash: Hash, hashPrev: Hash, rules: Rules)
    returns (ok: bool, undo: seq<TxUndo>)
    requires view.Valid() && !view.hasModifier && view.BestBlock() == hashPrev
    modifies view.Repr
    ensures view.BaseKept() && !view.hasModifier
    ensures ok <==> ConnectBlock(old(view.Contents()), block, h, rules).Some?
    ensures ok ==> ConnectBlock(old(view.Contents()), block, h, rules) == Some((view.Contents(), undo))
    ensures ok ==> view.hashBlock == hash
  {
    hide ConnectTxs;
    undo := [];
    ok := CheckBlockLoop(block, rules);
    if !ok {
      return;
    }
    var best := view.GetBestBlock();
    assert best == hashPrev;
    ok := NoOverwriteLoop(view, block);
    if !ok {
      return;
    }
    var fees, nSigOps;
    ok, undo, fees, nSigOps := ConnectTxsLoop(view, block, h, rules);
    if !ok {
      return;
    }
    var outOk, paid := CheckOutputs(block[0].vout);
    assert CheckTransaction(block[0]);
    if paid > BlockValue(h, fees) {
      return false, undo;
    }
    view.SetBestBlock(hash);
  }

  // ---------------------------------------------------------------------------
  // DisconnectBlock
  // ---------------------------------------------------------------------------

  /** Check and remove a transaction's outputs. */
  method RemoveOutputs(view: CoinsViewCache, tx: Tx, h: nat) returns (clean: bool)
    requires view.Valid() && !view.hasModifier
    modifies view.Repr
    ensures view.BaseKept() && !view.hasModifier && view.hashBlock == old(view.hashBlock)
    ensures clean <==> OutputsMatch(Lookup(old(view.Contents()), tx.txid), tx, h)
    ensures view.Contents() == old(view.Contents()) - {tx.txid}
  {
    ghost var v := view.Contents();
    var coins := view.ModifyCoins(tx.txid);
    var outs := coins.ClearUnspendable();
    var expected := FromTx(tx, h);
    if expected.nVersion < 0 {
      outs := outs.(nVersion := expected.nVersion);
    }
    clean := outs.SameAs(expected);
    MatchSpent(coins, tx, h);
    view.EndModifier(NO_COINS);
  }

  /** Two fully spent records match the same transactions. */
  lemma MatchSpent(c: Coins, tx: Tx, h: nat)
    requires c.IsClean()
    ensures c.IsPruned() ==> OutputsMatch(c, tx, h) == OutputsMatch(NO_COINS, tx, h)
  {
    CleanPrunedIsEmpty(FromTx(tx, h));
    if c.IsPruned() {
      CleanPrunedIsEmpty(c);
    }
  }

  /** Restore one input; carries on after a mismatch, as the source does, but remembers it. */
  method RestoreInput(view: CoinsViewCache, p: OutPoint, undo: InUndo) returns (clean: bool)
    requires view.Valid() && !view.hasModifier
    modifies view.Repr
    ensures view.BaseKept() && !view.hasModifier && view.hashBlock == old(view.hashBlock)
    ensures RestoreOne(old(view.Contents()), p, undo) == if clean then Some(view.Contents()) else None
  {
    ghost var v := view.Contents();
    clean := true;
    var coins := view.ModifyCoins(p.hash);
    if undo.nHeight != 0 {
      if !coins.IsPruned() {
        clean := false;
      }
      coins := Coins(undo.fCoinBase, [], undo.nHeight, undo.nVersion);
    } else if coins.IsPruned() {
      clean := false;
    }
    if coins.IsAvailable(p.n) {
      clean := false;
    }
    coins := coins.(vout := Place(coins.vout, p.n, undo.txout));
    view.EndModifier(coins);
  }

  /** The inner loop of `DisconnectBlock`, last input first. */
  method RestoreInputs(view: CoinsViewCache, ins: seq<TxIn>, undo: TxUndo) returns (clean: bool)
    requires view.Valid() && !view.hasModifier && |undo| == |ins|
    modifies view.Repr
    ensures view.BaseKept() && !view.hasModifier && view.hashBlock == old(view.hashBlock)
    ensures clean ==> RestoreAll(old(view.Contents()), ins, undo) == Some(view.Contents())
    ensures !clean ==> RestoreAll(old(view.Contents()), ins, undo) == None
  {
    ghost var v := view.Contents();
    clean := true;
    var j := |ins|;
    assert ins[..j] == ins && undo[..j] == undo;
    while j > 0
      invariant 0 <= j <= |ins|
      invariant view.BaseKept() && !view.hasModifier && view.hashBlock == old(view.hashBlock)
      invariant RestoreAll(v, ins, undo) == if clean then RestoreAll(view.Contents(), ins[..j], undo[..j]) else None
    {
      j := j - 1;
      ghost var w := view.Contents();
      var one := RestoreInput(view, ins[j].prevout, undo[j]);
      RestoreAllNext(w, ins, undo, j);
      clean := clean && one;
    }
  }

  lemma RestoreAllNext(v: View, ins: seq<TxIn>, undo: TxUndo, j: nat)
    requires j < |ins| == |undo|
    ensures RestoreAll(v, ins[..j + 1], undo[..j + 1]) ==
      match RestoreOne(v, ins[j].prevout, undo[j]) case None => None case Some(w) => RestoreAll(w, ins[..j], undo[..j])
  {
    assert ins[..j + 1][..j] == ins[..j] && undo[..j + 1][..j] == undo[..j];
  }

  /** One iteration of the outer loop of `DisconnectBlock`; `ok` is false on inconsistent sizes. */
  method DisconnectTxStep(view: CoinsViewCache, tx: Tx, undo: TxUndo, h: nat, first: bool) returns (ok: bool, clean: bool)
    requires view.Valid() && !view.hasModifier
    modifies view.Repr
    ensures view.BaseKept() && !view.hasModifier && view.hashBlock == old(view.hashBlock)
    ensures ok <==> first || |undo| == |tx.vin|
    ensures DisconnectTx(old(view.Contents()), tx, undo, h, first) == if ok && clean then Some(view.Contents()) else None
  {
    ok := true;
    clean := RemoveOutputs(view, tx, h);
    if !first {
      if |undo| != |tx.vin| {
        return false, clean;
      }
      var inputs := RestoreInputs(view, tx.vin, undo);
      clean := clean && inputs;
    }
  }

  ghost function UndoOf(undo: seq<TxUndo>, k: nat): seq<TxUndo>
    requires k <= |undo| + 1
  {
    if k == 0 then [] else undo[..k - 1]
  }

  lemma DisconnectTxsNext(v: View, txs: seq<Tx>, undo: seq<TxUndo>, h: nat, k: nat)
    requires |undo| + 1 == |txs| && k < |txs|
    ensures DisconnectTxs(v, txs[..k + 1], UndoOf(undo, k + 1), h) ==
      match DisconnectTx(v, txs[k], if k == 0 then [] else undo[k - 1], h, k == 0)
      case None => None
      case Some(w) => DisconnectTxs(w, txs[..k], UndoOf(undo, k), h)
  {
    assert txs[..k + 1][..k] == txs[..k];
    if k > 0 {
      assert UndoOf(undo, k + 1)[..k - 1] == UndoOf(undo, k);
    }
  }

  /**
    `DisconnectBlock`: `ok && clean` exactly when the replay of the undo data
    finds everything as it should be, and then the layer stands for the result.
   */
  method DisconnectBlockLoop(view: CoinsViewCache, block: seq<Tx>, undo: seq<TxUndo>, h: nat, hash: Hash, hashPrev: Hash)
    returns (ok: bool, clean: bool)
    requires view.Valid() && !view.hasModifier && view.BestBlock() == hash
    modifies view.Repr
    ensures view.BaseKept() && !view.hasModifier
    ensures DisconnectBlock(old(view.Contents()), block, undo, h) == if ok && clean then Some(view.Contents()) else None
    ensures ok ==> view.hashBlock == hashPrev
  {
    clean := true;
    var best := view.GetBestBlock();
    assert best == hash;
    if |undo| + 1 != |block| {
      return false, false;
    }
    ok, clean := DisconnectTxsLoop(view, block, undo, h);
    if ok {
      view.SetBestBlock(hashPrev);
    }
  }

  /** The outer loop of `DisconnectBlock`, last transaction first. */
  method DisconnectTxsLoop(view: CoinsViewCache, block: seq<Tx>, undo: seq<TxUndo>, h: nat) returns (ok: bool, clean: bool)
    requires view.Valid() && !view.hasModifier && |undo| + 1 == |block|
    modifies view.Repr
    ensures view.BaseKept() && !view.hasModifier
    ensures DisconnectTxs(old(view.Contents()), block, undo, h) == if ok && clean then Some(view.Contents()) else None
  {
    hide DisconnectTx;
    ghost var v := view.Contents();
    ok, clean := true, true;
    var k := |block|;
    assert block[..k] == block && UndoOf(undo, k) == undo;
    while k > 0
      invariant 0 <= k <= |block|
      invariant view.BaseKept() && !view.hasModifier
      invariant DisconnectTxs(v, block, undo, h) == if clean then DisconnectTxs(view.Contents(), block[..k], UndoOf(undo, k), h) else None
    {
      k := k - 1;
      DisconnectTxsNext(view.Contents(), block, undo, h, k);
      var one;
      ok, one := DisconnectTxStep(view, block[k], if k == 0 then [] else undo[k - 1], h, k == 0);
      clean := clean && one;
      if !ok {
        return;
      }
    }
    ok := true;
  }

  // ---------------------------------------------------------------------------
  // ConnectTip and DisconnectTip
  // ---------------------------------------------------------------------------

  /** Apply a block atomically to the cache at the tip, through a layer of its own. */
  method ConnectTip(tip: CoinsViewCache, block: seq<Tx>, h: nat, hash: Hash, hashPrev: Hash, rules: Rules)
    returns (ok: bool, undo: seq<TxUndo>)
    requires tip.Valid() && !tip.hasModifier && hash != 0 && tip.BestBlock() == hashPrev
    modifies tip.Repr
    ensures tip.Valid() && !tip.hasModifier
    ensures ok <==> ConnectBlock(old(tip.Contents()), block, h, rules).Some?
    ensures ok ==> ConnectBlock(old(tip.Contents()), block, h, rules) == Some((tip.Contents(), undo)) && tip.BestBlock() == hash
    ensures !ok ==> tip.Contents() == old(tip.Contents()) && tip.BestBlock() == old(tip.BestBlock())
  {
    var view := new CoinsViewCache(Cached(tip));
    ok, undo := ConnectBlockLoop(view, block, h, hash, hashPrev, rules);
    if ok {
      view.Flush();
    }
    assert view.base.Valid() && view.base == Cached(tip);
  }

  method DisconnectTip(tip: CoinsViewCache, block: seq<Tx>, undo: seq<TxUndo>, h: nat, hash: Hash, hashPrev: Hash)
    returns (ok: bool)
    requires tip.Valid() && !tip.hasModifier && hashPrev != 0 && tip.BestBlock() == hash
    modifies tip.Repr
    ensures tip.Valid() && !tip.hasModifier
    ensures DisconnectBlock(old(tip.Contents()), block, undo, h) == if ok then Some(tip.Contents()) else None
    ensures ok ==> tip.BestBlock() == hashPrev
    ensures !ok ==> tip.Contents() == old(tip.Contents()) && tip.BestBlock() == old(tip.BestBlock())
  {
    var view := new CoinsViewCache(Cached(tip));
    var clean;
    ok, clean := DisconnectBlockLoop(view, block, undo, h, hash, hashPrev);
    ok := ok && clean;
    if ok {
      view.Flush();
    }
    assert view.base.Valid() && view.base == Cached(tip);
  }

  /**
    A reorganisation that connects a block and then disconnects it leaves the
    tip standing for exactly the unspent outputs it stood for before, through
    a layer of its own and a write-back in each direction.
   */
  method ConnectThenDisconnect(tip: CoinsViewCache, block: seq<Tx>, h: nat, hash: Hash, hashPrev: Hash, rules: Rules)
    returns (connected: bool)
    requires tip.Valid() && !tip.hasModifier && hash != 0 && hashPrev != 0 && tip.BestBlock() == hashPrev
    requires Wf(tip.Contents()) && h >= 1 && Collisionless(block)
    modifies tip.Repr
    ensures tip.Valid() && !tip.hasModifier
    ensures connected <==> ConnectBlock(old(tip.Contents()), block, h, rules).Some?
    ensures tip.Contents() == old(tip.Contents()) && tip.BestBlock() == hashPrev
  {
    ghost var v := tip.Contents();
    var undo;
    connected, undo := ConnectTip(tip, block, h, hash, hashPrev, rules);
    if connected {
      DisconnectInvertsConnect(v, block, h, rules);
      var ok := DisconnectTip(tip, block, undo, h, hash, hashPrev);
    }
  }
}
