/**
  How much money can exist. The duplicate-input check of `CheckTransaction`,
  the in-not-below-out check of `CheckInputs` and the coinbase limit of
  `ConnectBlock` together bound the total unspent value by the subsidies of the
  active chain, over every run of connects and disconnects.
 */
module Supply {
  import opened Arithmetic
  import opened Coins
  import opened Options
  import opened Undo

  // ---------------------------------------------------------------------------
  // Value of a record and of a view
  // ---------------------------------------------------------------------------

  function OutValue(o: TxOut): int {
    if o.IsNull() then 0 else o.nValue
  }

  function OutsValue(outs: seq<TxOut>): int {
    if outs == [] then 0 else OutsValue(outs[..|outs| - 1]) + OutValue(outs[|outs| - 1])
  }

  ghost function Total(v: View): int
    decreases |v|
  {
    if v == map[] then 0
    else
      var id :| id in v;
      assert |(v - {id}).Keys| < |v.Keys| by { assert (v - {id}).Keys == v.Keys - {id}; }
      OutsValue(v[id].vout) + Total(v - {id})
  }

  /** The total does not depend on the order in which records are added up. */
  lemma {:induction false} TotalWithout(v: View, id: Hash)
    requires id in v
    ensures Total(v) == OutsValue(v[id].vout) + Total(v - {id})
    decreases |v|
  {
    var first :| first in v && Total(v) == OutsValue(v[first].vout) + Total(v - {first});
    if first != id {
      var rest := v - {first};
      assert rest.Keys == v.Keys - {first};
      assert |rest.Keys| < |v.Keys|;
      TotalWithout(rest, id);
      assert (v - {id}).Keys == v.Keys - {id} && |(v - {id}).Keys| < |v.Keys|;
      TotalWithout(v - {id}, first);
      assert rest - {id} == (v - {id}) - {first};
    }
  }

  lemma TotalPut(v: View, id: Hash, c: Coins)
    requires c.IsClean()
    ensures Total(Put(v, id, c)) == Total(v - {id}) + OutsValue(c.vout)
  {
    CleanPrunedIsEmpty(c);
    if !c.IsPruned() {
      TotalWithout(v[id := c], id);
      assert v[id := c] - {id} == v - {id};
    }
  }

  lemma {:induction false} OutsValueUpdate(outs: seq<TxOut>, n: nat, o: TxOut)
    requires n < |outs|
    ensures OutsValue(outs[n := o]) == OutsValue(outs) - OutValue(outs[n]) + OutValue(o)
  {
    var k := |outs| - 1;
    if n == k {
      assert outs[n := o][..k] == outs[..k];
    } else {
      OutsValueUpdate(outs[..k], n, o);
      assert outs[n := o][..k] == outs[..k][n := o];
    }
  }

  lemma {:induction false} OutsValueCleanup(c: Coins)
    ensures OutsValue(c.Cleanup().vout) == OutsValue(c.vout)
    decreases |c.vout|
  {
    if |c.vout| > 0 && c.vout[|c.vout| - 1].IsNull() {
      OutsValueCleanup(c.(vout := c.vout[..|c.vout| - 1]));
    }
  }

  lemma SpendValue(c: Coins, n: nat)
    requires c.IsAvailable(n)
    ensures OutsValue(Spend(c, n).vout) == OutsValue(c.vout) - c.vout[n].nValue
  {
    OutsValueUpdate(c.vout, n, NULL_OUT);
    OutsValueCleanup(c.(vout := c.vout[n := NULL_OUT]));
  }

  lemma SpendOneTotal(v: View, p: OutPoint)
    requires Unspent(v, p)
    ensures Total(SpendOne(v, p)) == Total(v) - v[p.hash].vout[p.n].nValue
  {
    SpendValue(v[p.hash], p.n);
    TotalPut(v, p.hash, Spend(v[p.hash], p.n));
    TotalWithout(v, p.hash);
  }

  /** Spending a transaction's inputs removes exactly what they are worth. */
  lemma {:induction false} SpendAllTotal(v: View, ins: seq<TxIn>)
    requires AllUnspent(v, ins) && SpendAll(v, ins).Some?
    requires forall i, j :: 0 <= i < j < |ins| ==> ins[i].prevout != ins[j].prevout
    ensures Total(SpendAll(v, ins).value.0) == Total(v) - SumValues(SpentOutputs(v, ins))
  {
    if ins != [] {
      var k := |ins| - 1;
      var p := ins[k].prevout;
      SpendAllTotal(v, ins[..k]);
      SpendAllKeeps(v, ins[..k], p);
      SpendOneTotal(SpendAll(v, ins[..k]).value.0, p);
      assert SpentOutputs(v, ins)[..k] == SpentOutputs(v, ins[..k]);
    }
  }

  /** What the outputs that nobody can spend are worth. */
  function Burnt(outs: seq<TxOut>): int {
    if outs == [] then 0
    else Burnt(outs[..|outs| - 1]) + if outs[|outs| - 1].IsUnspendable() then outs[|outs| - 1].nValue else 0
  }

  function BurntIn(txs: seq<Tx>): int {
    if txs == [] then 0 else BurntIn(txs[..|txs| - 1]) + Burnt(txs[|txs| - 1].vout)
  }

  function Spendable(outs: seq<TxOut>): (kept: seq<TxOut>)
    ensures |kept| == |outs|
  {
    seq(|outs|, i requires 0 <= i < |outs| => if outs[i].IsUnspendable() then NULL_OUT else outs[i])
  }

  lemma {:induction false} SpendableValue(outs: seq<TxOut>)
    requires forall i :: 0 <= i < |outs| ==> MoneyRange(outs[i].nValue)
    ensures OutsValue(Spendable(outs)) + Burnt(outs) == SumValues(outs)
  {
    if outs != [] {
      var k := |outs| - 1;
      SpendableValue(outs[..k]);
      assert Spendable(outs)[..k] == Spendable(outs[..k]);
    }
  }

  lemma {:induction false} BurntInRange(outs: seq<TxOut>)
    requires forall i :: 0 <= i < |outs| ==> MoneyRange(outs[i].nValue)
    ensures Burnt(outs) >= 0
  {
    if outs != [] {
      BurntInRange(outs[..|outs| - 1]);
    }
  }

  lemma BurntByOne(tx: Tx)
    requires CheckTransaction(tx)
    ensures Burnt(tx.vout) >= 0
  {
    forall i | 0 <= i < |tx.vout|
      ensures MoneyRange(tx.vout[i].nValue)
    {
      assert InRangeAt(tx.vout, i);
    }
    BurntInRange(tx.vout);
  }

  lemma {:induction false} BurntNotNegative(txs: seq<Tx>)
    requires Checked(txs)
    ensures BurntIn(txs) >= 0
  {
    hide CheckTransaction;
    if txs != [] {
      BurntNotNegative(txs[..|txs| - 1]);
      BurntByOne(txs[|txs| - 1]);
    }
  }

  /** A transaction adds what it declares, except for what it burns. */
  lemma FromTxValue(tx: Tx, h: nat)
    requires GoodOutputs(tx)
    ensures OutsValue(FromTx(tx, h).vout) + Burnt(tx.vout) == SumValues(tx.vout)
  {
    hide OutsValue, Burnt, SumValues, Coins.Cleanup;
    var c := Coins(tx.IsCoinBase(), tx.vout, h, tx.nVersion);
    var kept := seq(|c.vout|, i requires 0 <= i < |c.vout| => if c.vout[i].IsUnspendable() then NULL_OUT else c.vout[i]);
    assert kept == Spendable(tx.vout);
    SpendableValue(tx.vout);
    OutsValueCleanup(c.(vout := kept));
  }

  // ---------------------------------------------------------------------------
  // One block
  // ---------------------------------------------------------------------------

  lemma AddTotal(v: View, tx: Tx, h: nat)
    requires CheckTransaction(tx) && tx.txid !in v
    ensures Total(Put(v, tx.txid, FromTx(tx, h))) + Burnt(tx.vout) == Total(v) + SumValues(tx.vout)
  {
    CheckedOutputsGood(tx);
    FromTxValue(tx, h);
    TotalPut(v, tx.txid, FromTx(tx, h));
    assert v - {tx.txid} == v;
  }

  /** A transaction that is not a coinbase costs the view its fee and what it burns. */
  lemma UpdateCoinsTotal(v: View, tx: Tx, h: nat)
    requires Wf(v) && CheckTransaction(tx) && tx.txid !in v && !tx.IsCoinBase()
    requires HaveInputs(v, tx) && UpdateCoins(v, tx, h).Some?
    ensures Total(UpdateCoins(v, tx, h).value.0) + Fee(v, tx) + Burnt(tx.vout) == Total(v)
  {
    SpendAllTotal(v, tx.vin);
    SpendAllWf(v, tx.vin);
    AddTotal(SpendAll(v, tx.vin).value.0, tx, h);
  }

  lemma ConnectTxTotal(s: Progress, tx: Tx, h: nat, rules: Rules)
    requires CheckTransaction(tx) && tx.txid !in s.view && Wf(s.view) && ConnectTx(s, tx, h, rules).Some?
    ensures
      var t := ConnectTx(s, tx, h, rules).value;
      && t.fees >= s.fees
      && Total(t.view) + t.fees + Burnt(tx.vout) == Total(s.view) + s.fees + if tx.IsCoinBase() then SumValues(tx.vout) else 0
  {
    if tx.IsCoinBase() {
      AddTotal(s.view, tx, h);
    } else {
      UpdateCoinsTotal(s.view, tx, h);
    }
  }

  /** Nothing is lost: what was unspent and what the coinbase pays is unspent, left as fees, or burnt. */
  lemma {:induction false} ConnectTxsTotal(v: View, txs: seq<Tx>, h: nat, rules: Rules)
    requires Wf(v) && h >= 1 && Shaped(txs) && NoOverwrite(v, txs) && DistinctTxids(txs, |txs|)
    requires ConnectTxs(v, txs, h, rules).Some?
    ensures
      var s := ConnectTxs(v, txs, h, rules).value;
      s.fees >= 0 && Total(s.view) + s.fees + BurntIn(txs) == Total(v) + SumValues(txs[0].vout)
    decreases |txs|
  {
    hide ConnectTx, Wf, CheckTransaction, Total, Burnt, SumValues;
    var k := |txs| - 1;
    NotThereYet(v, txs, k, h, rules);
    ConnectTxTotal(ConnectTxs(v, txs[..k], h, rules).value, txs[k], h, rules);
    if k > 0 {
      PrefixChecked(v, txs, k);
      ConnectTxsTotal(v, txs[..k], h, rules);
    } else {
      assert txs[..k] == [];
    }
  }

  /** The fees of transactions that are not coinbases are exactly what leaves the total without being burnt. */
  lemma {:induction false} FeesFromTotal(v: View, txs: seq<Tx>, h: nat, rules: Rules)
    requires Wf(v) && h >= 1 && Checked(txs) && NoOverwrite(v, txs) && DistinctTxids(txs, |txs|)
    requires (forall i :: 0 <= i < |txs| ==> !txs[i].IsCoinBase()) && ConnectTxs(v, txs, h, rules).Some?
    ensures
      var s := ConnectTxs(v, txs, h, rules).value;
      s.fees >= 0 && Total(s.view) + s.fees + BurntIn(txs) == Total(v)
    decreases |txs|
  {
    hide ConnectTx, Wf, CheckTransaction, Total, Burnt, SumValues;
    if txs != [] {
      var k := |txs| - 1;
      NotThereYet(v, txs, k, h, rules);
      ConnectTxTotal(ConnectTxs(v, txs[..k], h, rules).value, txs[k], h, rules);
      FeesFromTotal(v, txs[..k], h, rules);
    }
  }

  /**
    The limit on what the coinbase may claim is exactly that the block creates no
    more than its subsidy, counting what it burns.
   */
  lemma ConnectsIffWithinSubsidy(v: View, block: seq<Tx>, h: nat, rules: Rules)
    requires Connects(v, block, h, rules) && CheckBlock(block, rules)
    ensures
      var w := ConnectTxs(v, block, h, rules).value.view;
      && (ConnectBlock(v, block, h, rules).Some? <==> Total(w) + BurntIn(block) <= Total(v) + Subsidy(h))
      && (ConnectBlock(v, block, h, rules).Some? ==> ConnectBlock(v, block, h, rules).value.0 == w)
  {
    hide ConnectTxs, Wf, CheckTransaction, Total, Subsidy;
    ConnectedTxidsDistinct(v, block, h, rules, |block|);
    ConnectTxsTotal(v, block, h, rules);
  }

  /** A connected block creates no more than its subsidy. */
  lemma ConnectBlockTotal(v: View, block: seq<Tx>, h: nat, rules: Rules)
    requires Wf(v) && h >= 1 && Collisionless(block) && ConnectBlock(v, block, h, rules).Some?
    ensures Total(ConnectBlock(v, block, h, rules).value.0) + BurntIn(block) <= Total(v) + Subsidy(h) && BurntIn(block) >= 0
  {
    hide ConnectTxs, Wf, CheckTransaction, Total, Subsidy;
    ConnectsIffWithinSubsidy(v, block, h, rules);
    BurntNotNegative(block);
  }

  // ---------------------------------------------------------------------------
  // The subsidy schedule
  // ---------------------------------------------------------------------------

  /** The subsidies of the blocks at heights 1 to `n`. */
  function SubsidySum(n: nat): nat {
    if n == 0 then 0 else SubsidySum(n - 1) + Subsidy(n)
  }

  lemma {:induction false} HalveStep(amount: nat, times: nat)
    ensures Halve(amount, times + 1) == Halve(amount, times) / 2
    decreases times
  {
    if times > 0 {
      HalveStep(amount / 2, times - 1);
    }
  }

  /** Halving is dividing by a power of two. */
  lemma {:induction false} HalveIs(amount: nat, times: nat)
    ensures amount < Pow2(times) <==> Halve(amount, times) == 0
  {
    if times > 0 {
      HalveIs(amount / 2, times - 1);
    }
  }

  lemma FirstSubsidySize()
    ensures Pow2(33) <= GENESIS_SUBSIDY * COIN < Pow2(34)
  {
    assert Pow2(11) == 2048;
    assert Pow2(22) == 2048 * 2048 by {
      Pow2Add(11, 11);
    }
    Pow2Add(11, 22);
  }

  /** The subsidy is paid in exactly 34 eras: whoever cuts it off after 64 cuts off nothing. */
  lemma SubsidyEnds(h: nat)
    ensures Subsidy(h) > 0 <==> h < 34 * HALVING_INTERVAL
  {
    hide Pow2, Halve;
    var era := h / HALVING_INTERVAL;
    FirstSubsidySize();
    HalveIs(GENESIS_SUBSIDY * COIN, era);
    if era < 34 {
      Pow2Mono(era, 33);
    } else {
      Pow2Mono(34, era);
    }
  }

  /** Every 210000 blocks the subsidy is cut in half. */
  lemma HalvingLaw(h: nat)
    ensures Subsidy(h + HALVING_INTERVAL) == Subsidy(h) / 2
  {
    hide Halve;
    var era := h / HALVING_INTERVAL;
    assert (h + HALVING_INTERVAL) / HALVING_INTERVAL == era + 1;
    if era >= 63 {
      SubsidyEnds(h);
    } else {
      HalveStep(GENESIS_SUBSIDY * COIN, era);
    }
  }

  /** What has been paid out, plus what an era could pay over the rest of two eras. */
  function Committed(paid: int, s: nat, interval: nat, i: nat): int {
    paid + s * (2 * interval - i - 1)
  }

  lemma NextInEra(paid: int, sub: nat, s: nat, interval: nat, i: nat)
    requires sub <= s
    ensures Committed(paid + sub, s, interval, i + 1) <= Committed(paid, s, interval, i)
  {
    assert s * (2 * interval - i - 1) == s * (2 * interval - (i + 1) - 1) + s;
  }

  lemma NextEra(paid: int, sub: nat, t: nat, s: nat, interval: nat)
    requires sub <= s && 2 * s <= t && interval > 0
    ensures Committed(paid + sub, s, interval, 0) <= Committed(paid, t, interval, interval - 1)
  {
    assert s * (2 * interval - 1) + s == 2 * s * interval;
    assert 2 * s * interval <= t * interval;
    assert t * (2 * interval - (interval - 1) - 1) == t * interval;
  }

  lemma DivStep(n: nat, d: nat)
    requires n > 0 && d > 1
    ensures n % d == 0 ==> (n - 1) / d == n / d - 1 && (n - 1) % d == d - 1
    ensures n % d != 0 ==> (n - 1) / d == n / d && (n - 1) % d == n % d - 1
  {
    var q, r := n / d, n % d;
    assert n == d * q + r;
    if r == 0 {
      assert n - 1 == d * (q - 1) + (d - 1);
      DivUnique(n - 1, d, q - 1, d - 1);
    } else {
      DivUnique(n - 1, d, q, r - 1);
    }
  }

  function EraSubsidy(n: nat): nat {
    Halve(GENESIS_SUBSIDY * COIN, n / HALVING_INTERVAL)
  }

  /** Halving at every era keeps the commitment from growing. */
  lemma {:induction false} SubsidySumCommitted(n: nat)
    ensures Committed(SubsidySum(n), EraSubsidy(n), HALVING_INTERVAL, n % HALVING_INTERVAL)
         <= Committed(0, GENESIS_SUBSIDY * COIN, HALVING_INTERVAL, 0)
  {
    if n > 0 {
      SubsidySumCommitted(n - 1);
      DivStep(n, HALVING_INTERVAL);
      var s, t := EraSubsidy(n), EraSubsidy(n - 1);
      var paid, sub := SubsidySum(n - 1), Subsidy(n);
      assert sub <= s;
      if n % HALVING_INTERVAL == 0 {
        HalveStep(GENESIS_SUBSIDY * COIN, n / HALVING_INTERVAL - 1);
        NextEra(paid, sub, t, s, HALVING_INTERVAL);
      } else {
        NextInEra(paid, sub, s, HALVING_INTERVAL, n % HALVING_INTERVAL - 1);
      }
    }
  }

  const SUPPLY_LIMIT: int := 2 * GENESIS_SUBSIDY * COIN * HALVING_INTERVAL

  lemma SubsidySumBelowLimit(n: nat)
    ensures SubsidySum(n) < SUPPLY_LIMIT
  {
    SubsidySumCommitted(n);
    var s, i := EraSubsidy(n), n % HALVING_INTERVAL;
    MulNonNegative(s, 2 * HALVING_INTERVAL - i - 1);
  }

  // ---------------------------------------------------------------------------
  // Every run of connects and disconnects
  // ---------------------------------------------------------------------------

  /** A connected block with the undo data that was written for it. */
  datatype Link = Link(block: seq<Tx>, undo: seq<TxUndo>)

  /** The unspent outputs and the active chain above genesis. */
  datatype State = State(view: View, chain: seq<Link>)

  datatype Action = Connect(block: seq<Tx>) | Disconnect

  const GENESIS: State := State(map[], [])

  /** `ConnectTip` and `DisconnectTip`; a block that does not connect changes nothing. */
  function Step(s: State, a: Action, rules: Rules): State {
    var top := |s.chain|;
    match a
    case Connect(block) =>
      (match ConnectBlock(s.view, block, top + 1, rules)
       case None => s
       case Some((w, undo)) => State(w, s.chain + [Link(block, undo)]))
    case Disconnect =>
      if top == 0 then s
      else
        match DisconnectBlock(s.view, s.chain[top - 1].block, s.chain[top - 1].undo, top)
        case None => s
        case Some(w) => State(w, s.chain[..top - 1])
  }

  function Run(actions: seq<Action>, rules: Rules): State {
    if actions == [] then GENESIS
    else Step(Run(actions[..|actions| - 1], rules), actions[|actions| - 1], rules)
  }

  /** The unspent outputs a chain leads to when its blocks are simply connected in order. */
  function Replay(chain: seq<Link>, rules: Rules): Option<View> {
    if chain == [] then Some(map[])
    else
      var k := |chain| - 1;
      match Replay(chain[..k], rules)
      case None => None
      case Some(v) =>
        match ConnectBlock(v, chain[k].block, k + 1, rules)
        case None => None
        case Some((w, undo)) => if undo == chain[k].undo && Collisionless(chain[k].block) then Some(w) else None
  }

  /** What every reachable state satisfies. */
  ghost predicate Inv(s: State, rules: Rules) {
    && Replay(s.chain, rules) == Some(s.view)
    && Wf(s.view)
    && Total(s.view) <= SubsidySum(|s.chain|)
  }

  lemma {:induction false} ReplayInv(chain: seq<Link>, rules: Rules)
    requires Replay(chain, rules).Some?
    ensures Inv(State(Replay(chain, rules).value, chain), rules)
    decreases |chain|
  {
    hide ConnectBlock, DisconnectBlock, Collisionless, Wf, Total, Subsidy;
    if chain == [] {
      NothingThere();
    } else {
      var k := |chain| - 1;
      ReplayInv(chain[..k], rules);
      var v := Replay(chain[..k], rules).value;
      DisconnectInvertsConnect(v, chain[k].block, k + 1, rules);
      ConnectBlockTotal(v, chain[k].block, k + 1, rules);
    }
  }

  lemma NothingThere()
    ensures Wf(map[]) && Total(map[]) == 0
  {
  }

  /** The top block of a replayed chain can always be disconnected, back to the chain below it. */
  lemma TopDisconnects(s: State, rules: Rules)
    requires Replay(s.chain, rules) == Some(s.view) && s.chain != []
    ensures
      var k := |s.chain| - 1;
      && Replay(s.chain[..k], rules).Some?
      && DisconnectBlock(s.view, s.chain[k].block, s.chain[k].undo, k + 1) == Replay(s.chain[..k], rules)
  {
    hide ConnectBlock, DisconnectBlock, Collisionless, Wf, Total;
    var k := |s.chain| - 1;
    ReplayInv(s.chain[..k], rules);
    DisconnectInvertsConnect(Replay(s.chain[..k], rules).value, s.chain[k].block, k + 1, rules);
  }

  lemma StepInv(s: State, a: Action, rules: Rules)
    requires Inv(s, rules) && (a.Connect? ==> Collisionless(a.block))
    ensures Inv(Step(s, a, rules), rules)
  {
    hide ConnectBlock, DisconnectBlock, Collisionless, Wf, Total;
    var t := Step(s, a, rules);
    if a.Connect? && t != s {
      assert t.chain[..|s.chain|] == s.chain;
    } else if a.Disconnect? && s.chain != [] {
      TopDisconnects(s, rules);
    }
    assert Replay(t.chain, rules) == Some(t.view);
    ReplayInv(t.chain, rules);
  }

  ghost predicate NoCollisions(actions: seq<Action>) {
    forall i :: 0 <= i < |actions| && actions[i].Connect? ==> Collisionless(actions[i].block)
  }

  lemma {:induction false} RunInv(actions: seq<Action>, rules: Rules)
    requires NoCollisions(actions)
    ensures Inv(Run(actions, rules), rules)
  {
    if actions != [] {
      var k := |actions| - 1;
      RunInv(actions[..k], rules);
      StepInv(Run(actions[..k], rules), actions[k], rules);
    }
  }

  /**
    In every run the unspent outputs are those of the active chain alone,
    whatever was connected and disconnected on the way; their total is at most
    the subsidies of that chain; and the tip can be disconnected cleanly.
   */
  lemma SupplyBound(actions: seq<Action>, rules: Rules)
    requires NoCollisions(actions)
    ensures
      var s := Run(actions, rules);
      && Replay(s.chain, rules) == Some(s.view)
      && Wf(s.view)
      && Total(s.view) <= SubsidySum(|s.chain|) < SUPPLY_LIMIT
      && (s.chain != [] ==> |Step(s, Disconnect, rules).chain| == |s.chain| - 1)
  {
    RunInv(actions, rules);
    var s := Run(actions, rules);
    SubsidySumBelowLimit(|s.chain|);
    if s.chain != [] {
      TopDisconnects(s, rules);
    }
  }

  // ---------------------------------------------------------------------------
  // The cap of MAX_MONEY
  // ---------------------------------------------------------------------------

  lemma FirstEras(h: nat)
    ensures h < HALVING_INTERVAL ==> Subsidy(h) == GENESIS_SUBSIDY * COIN
    ensures HALVING_INTERVAL <= h < 2 * HALVING_INTERVAL ==> Subsidy(h) == GENESIS_SUBSIDY * COIN / 2
  {
    if h >= HALVING_INTERVAL && h < 2 * HALVING_INTERVAL {
      assert h / HALVING_INTERVAL == 1;
      assert Halve(GENESIS_SUBSIDY * COIN, 1) == Halve(GENESIS_SUBSIDY * COIN / 2, 0);
    }
  }

  lemma {:induction false} FirstEraSum(n: nat)
    requires n < HALVING_INTERVAL
    ensures SubsidySum(n) == n * (GENESIS_SUBSIDY * COIN)
  {
    hide Subsidy;
    if n > 0 {
      FirstEraSum(n - 1);
      FirstEras(n);
    }
  }

  lemma {:induction false} SubsidySumGrows(m: nat, n: nat)
    requires m <= n
    ensures SubsidySum(m) <= SubsidySum(n)
  {
    hide Subsidy;
    if m < n {
      SubsidySumGrows(m, n - 1);
    }
  }

  /** How many blocks above genesis it takes until all the money that may exist is paid out. */
  const CAP_HEIGHT: nat := HALVING_INTERVAL + 1

  lemma SumsAtCap()
    ensures SubsidySum(CAP_HEIGHT) == MAX_MONEY < SubsidySum(CAP_HEIGHT + 1)
  {
    hide Subsidy;
    var k := HALVING_INTERVAL - 1;
    FirstEraSum(k);
    FirstEras(k + 1);
    FirstEras(k + 2);
    FirstEras(k + 3);
    assert SubsidySum(k + 1) == SubsidySum(k) + Subsidy(k + 1);
    assert SubsidySum(k + 2) == SubsidySum(k + 1) + Subsidy(k + 2);
    assert SubsidySum(k + 3) == SubsidySum(k + 2) + Subsidy(k + 3);
  }

  /** The subsidies keep within `MAX_MONEY` exactly for the first 210001 blocks above genesis. */
  lemma CapIff(n: nat)
    ensures SubsidySum(n) <= MAX_MONEY <==> n <= CAP_HEIGHT
  {
    hide SubsidySum;
    SumsAtCap();
    if n <= CAP_HEIGHT {
      SubsidySumGrows(n, CAP_HEIGHT);
    } else {
      SubsidySumGrows(CAP_HEIGHT + 1, n);
    }
  }

  /** So in every run no more than `MAX_MONEY` is unspent while the chain is no longer than that. */
  lemma SupplyCap(actions: seq<Action>, rules: Rules)
    requires NoCollisions(actions) && |Run(actions, rules).chain| <= CAP_HEIGHT
    ensures Total(Run(actions, rules).view) <= MAX_MONEY
  {
    hide Run, SubsidySum, Total;
    SupplyBound(actions, rules);
    CapIff(|Run(actions, rules).chain|);
  }

  /** There is room for all that the next block may pay while the chain is shorter than that. */
  lemma RoomForNext(actions: seq<Action>, s: State, rules: Rules)
    requires NoCollisions(actions) && s == Run(actions, rules) && |s.chain| < CAP_HEIGHT
    ensures Wf(s.view) && Total(s.view) + Subsidy(|s.chain| + 1) <= MAX_MONEY
  {
    hide Run, Total, Subsidy, Wf;
    SupplyBound(actions, rules);
    CapIff(|s.chain| + 1);
  }

  // ---------------------------------------------------------------------------
  // The bound is reached
  // ---------------------------------------------------------------------------

  /** The coinbase of a block at height `h` that claims all of its subsidy. */
  function Reward(h: nat): Tx {
    Tx(h, 1, [TxIn(OutPoint(0, NULL_INDEX), [0, 0])], [TxOut(Subsidy(h), [])])
  }

  /** Blocks at heights 1 to `n` with nothing but such a coinbase. */
  function Mine(n: nat): (actions: seq<Action>)
    ensures |actions| == n
  {
    if n == 0 then [] else Mine(n - 1) + [Connect([Reward(n)])]
  }

  /** Rules under which scripts accept and have no signature operations. */
  function NoScripts(): Rules {
    Rules((tx, spent) => true, tx => 0, (tx, spent) => 0, tx => true)
  }

  lemma RewardChecks(h: nat)
    ensures CheckTransaction(Reward(h)) && SumValues(Reward(h).vout) == Subsidy(h) && Reward(h).IsCoinBase()
    ensures WithinLimits([Reward(h)], NoScripts())
  {
    hide Subsidy, SumValues, InsSize, OutsSize, TxsSize, LegacySigOps, TxSize;
    var tx := Reward(h);
    SubsidyInRange(h);
    OneOutput(tx.vout[0]);
    assert tx.vout[..1] == tx.vout && InRangeAt(tx.vout, 0);
    RewardSize(h);
  }

  lemma OneOutput(o: TxOut)
    ensures SumValues([o]) == o.nValue && OutsSize([o]) == 8 + CompactSize(|o.script|) + |o.script| && OutsValue([o]) == OutValue(o)
  {
    assert [o][..0] == [];
  }

  lemma RewardSize(h: nat)
    ensures TxSize(Reward(h)) < 100 && TxsSize([Reward(h)]) == TxSize(Reward(h)) && LegacySigOps([Reward(h)], NoScripts().legacySigOps) == 0
  {
    hide Subsidy, OutsSize, InsSize;
    var tx := Reward(h);
    OneOutput(tx.vout[0]);
    OneInput(tx.vin[0]);
    assert [tx][..0] == [];
  }

  lemma OneInput(i: TxIn)
    ensures InsSize([i]) == 36 + CompactSize(|i.scriptSig|) + |i.scriptSig| + 4
  {
    assert [i][..0] == [];
  }

  lemma SubsidyInRange(h: nat)
    ensures 0 <= Subsidy(h) <= GENESIS_SUBSIDY * COIN
  {
  }

  lemma RewardKept(h: nat)
    ensures FromTx(Reward(h), h).vout == Reward(h).vout
  {
    hide Subsidy;
    SubsidyInRange(h);
    FromTxHolds(Reward(h), h);
    assert FromTx(Reward(h), h).IsAvailable(0);
  }

  lemma RewardConnects(v: View, h: nat)
    requires h !in v
    ensures
      var b := ConnectBlock(v, [Reward(h)], h, NoScripts());
      b.Some? && b.value.0 == Put(v, h, FromTx(Reward(h), h))
  {
    hide Subsidy, CheckTransaction, FromTx, Put, WithinLimits, SumValues, ConnectTxs, Reward;
    RewardChecks(h);
    RewardTxid(h);
    OnlyCoinbase(v, Reward(h), h, NoScripts());
  }

  lemma RewardTxid(h: nat)
    ensures Reward(h).txid == h
  {
  }

  lemma RewardAdds(v: View, h: nat)
    requires h !in v
    ensures Total(Put(v, h, FromTx(Reward(h), h))) == Total(v) + Subsidy(h)
    ensures forall id :: id in Put(v, h, FromTx(Reward(h), h)) ==> id in v || id == h
  {
    hide Subsidy, Total;
    SubsidyInRange(h);
    RewardKept(h);
    TotalPut(v, h, FromTx(Reward(h), h));
    assert v - {h} == v;
    OneOutput(Reward(h).vout[0]);
  }

  /** With such blocks, all that the subsidies allow is there. */
  lemma {:induction false} MinedTotal(n: nat)
    ensures
      var s := Run(Mine(n), NoScripts());
      |s.chain| == n && Total(s.view) == SubsidySum(n) && forall id :: id in s.view ==> id <= n
  {
    hide Subsidy, ConnectBlock, Total, Put, FromTx, Reward;
    if n == 0 {
      NothingThere();
    } else {
      MinedTotal(n - 1);
      var s := Run(Mine(n - 1), NoScripts());
      assert Mine(n)[..n - 1] == Mine(n - 1);
      RewardConnects(s.view, n);
      RewardAdds(s.view, n);
    }
  }

  lemma {:induction false} MinedDistinct(n: nat)
    ensures NoCollisions(Mine(n))
  {
    if n > 0 {
      MinedDistinct(n - 1);
    }
  }

  /** So the total can go beyond `MAX_MONEY` exactly in chains longer than that. */
  lemma CapExceeded(n: nat)
    ensures NoCollisions(Mine(n)) && |Run(Mine(n), NoScripts()).chain| == n
    ensures Total(Run(Mine(n), NoScripts()).view) > MAX_MONEY <==> n > CAP_HEIGHT
  {
    hide Run, Mine, SubsidySum, Total, NoCollisions;
    MinedTotal(n);
    MinedDistinct(n);
    CapIff(n);
  }

  lemma BlockFeesBound(v: View, block: seq<Tx>, h: nat, rules: Rules)
    requires Connects(v, block, h, rules)
    ensures
      var s := ConnectTxs(v, block, h, rules).value;
      Wf(s.view) && 0 <= s.fees && 0 <= Total(s.view) && Total(s.view) + s.fees <= Total(v) + MAX_MONEY
  {
    hide ConnectTxs, Wf, SumsInRange, NoOverwrite, Total;
    ConnectedTxidsDistinct(v, block, h, rules, |block|);
    ConnectTxsTotal(v, block, h, rules);
    BurntNotNegative(block);
    ConnectTxsWf(v, block, h, rules);
    TotalNonNegative(ConnectTxs(v, block, h, rules).value.view);
    DeclaredInRange(block[0]);
  }

  lemma DeclaredInRange(tx: Tx)
    requires CheckTransaction(tx)
    ensures MoneyRange(SumValues(tx.vout))
  {
    assert tx.vout[..|tx.vout| - 1 + 1] == tx.vout;
    assert InRangeAt(tx.vout, |tx.vout| - 1);
  }

  lemma {:induction false} SpentNonNegative(v: View, ins: seq<TxIn>)
    requires Wf(v) && AllUnspent(v, ins)
    ensures SumValues(SpentOutputs(v, ins)) >= 0
  {
    if ins != [] {
      var k := |ins| - 1;
      SpentNonNegative(v, ins[..k]);
      assert SpentOutputs(v, ins)[..k] == SpentOutputs(v, ins[..k]);
      UnspentInRange(v, ins[k].prevout);
    }
  }

  lemma UnspentInRange(v: View, p: OutPoint)
    requires Wf(v) && Unspent(v, p)
    ensures v[p.hash].vout[p.n].nValue >= 0
  {
    assert GoodOut(v[p.hash].vout[p.n]);
  }

  /** `GetValueIn` of a checked transaction is part of the money there is. */
  lemma ValueInBound(v: View, tx: Tx)
    requires Wf(v) && CheckTransaction(tx) && HaveInputs(v, tx)
    ensures 0 <= SumValues(SpentOutputs(v, tx.vin)) <= Total(v)
  {
    hide Wf, Total, SpendAll, SumsInRange, SumValues, SpentOutputs;
    SpentNonNegative(v, tx.vin);
    SpendAllSucceeds(v, tx.vin);
    SpendAllTotal(v, tx.vin);
    SpendAllWf(v, tx.vin);
    TotalNonNegative(SpendAll(v, tx.vin).value.0);
  }

  /** The loop of `ConnectBlock` has got as far as transaction `k` and finds the inputs of that one. */
  ghost predicate AtFee(v: View, block: seq<Tx>, h: nat, rules: Rules, k: nat) {
    && CheckBlock(block, rules) && NoOverwrite(v, block) && Collisionless(block) && 1 <= k < |block|
    && ConnectTxs(v, block[..k], h, rules).Some? && HaveInputs(ConnectTxs(v, block[..k], h, rules).value.view, block[k])
  }

  lemma PrefixConnects(v: View, block: seq<Tx>, h: nat, rules: Rules, k: nat)
    requires Wf(v) && h >= 1 && AtFee(v, block, h, rules, k)
    ensures Connects(v, block[..k], h, rules) && CheckTransaction(block[k])
  {
    hide ConnectTxs, Wf, CheckTransaction;
  }

  /** The sum so far, what the transaction spends, and the sum with its fee all fit in 64 bits. */
  ghost predicate FeeFits(v: View, block: seq<Tx>, h: nat, rules: Rules, k: nat)
    requires AtFee(v, block, h, rules, k)
  {
    var t := ConnectTxs(v, block[..k], h, rules).value;
    && 0 <= t.fees < SUPPLY_LIMIT + MAX_MONEY
    && 0 <= SumValues(SpentOutputs(t.view, block[k].vin)) < SUPPLY_LIMIT + MAX_MONEY
    && -MAX_MONEY <= t.fees + Fee(t.view, block[k]) < SUPPLY_LIMIT + MAX_MONEY < 0x7fff_ffff_ffff_ffff
  }

  lemma FeeBound(v: View, block: seq<Tx>, h: nat, rules: Rules, k: nat)
    requires Wf(v) && h >= 1 && Total(v) < SUPPLY_LIMIT && AtFee(v, block, h, rules, k)
    ensures FeeFits(v, block, h, rules, k)
  {
    hide ConnectTxs, Wf, Total, CheckTransaction, SpentOutputs, SumValues, CheckBlock, NoOverwrite, Connects;
    PrefixConnects(v, block, h, rules, k);
    BlockFeesBound(v, block[..k], h, rules);
    ValueInBound(ConnectTxs(v, block[..k], h, rules).value.view, block[k]);
    DeclaredInRange(block[k]);
  }

  /**
    The fee `ConnectBlock` adds for a transaction comes out of existing money,
    also where `CheckInputs` refuses it right afterwards, so no step of its
    64-bit sum can overflow in any reachable state.
   */
  lemma FeesWithinSupply(actions: seq<Action>, s: State, block: seq<Tx>, rules: Rules, k: nat)
    requires NoCollisions(actions) && s == Run(actions, rules) && AtFee(s.view, block, |s.chain| + 1, rules, k)
    ensures FeeFits(s.view, block, |s.chain| + 1, rules, k)
  {
    hide Run, AtFee, FeeFits, Wf, Total, Replay, SubsidySum, NoCollisions;
    SupplyBound(actions, rules);
    FeeBound(s.view, block, |s.chain| + 1, rules, k);
  }

  lemma {:induction false} OutsValueNonNegative(outs: seq<TxOut>)
    requires forall i :: 0 <= i < |outs| ==> GoodOut(outs[i])
    ensures OutsValue(outs) >= 0
  {
    if outs != [] {
      OutsValueNonNegative(outs[..|outs| - 1]);
    }
  }

  lemma {:induction false} TotalNonNegative(v: View)
    requires Wf(v)
    ensures Total(v) >= 0
    decreases |v|
  {
    if v != map[] {
      var id :| id in v;
      TotalWithout(v, id);
      assert (v - {id}).Keys == v.Keys - {id} && |(v - {id}).Keys| < |v.Keys|;
      OutsValueNonNegative(v[id].vout);
      TotalNonNegative(v - {id});
    }
  }
}
