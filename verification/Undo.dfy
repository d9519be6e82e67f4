/**
  What connecting and disconnecting transactions does to the unspent outputs:
  `UpdateCoins` with its compact undo records, and the replay of those records
  in reverse by `DisconnectBlock`. Everything here is about plain maps; module
  `ConnectBlocks` proves the loops over the layered cache against it.
 */
module Undo {
  import opened Coins
  import opened Options

  /** `CTxInUndo`: metadata is only kept when the spent output was the last one (nHeight != 0). */
  datatype InUndo = InUndo(txout: TxOut, fCoinBase: bool, nHeight: nat, nVersion: int)

  type TxUndo = seq<InUndo>

  // ---------------------------------------------------------------------------
  // Well-formed views
  // ---------------------------------------------------------------------------

  predicate GoodOut(o: TxOut) {
    o == NULL_OUT || MoneyRange(o.nValue)
  }

  /** Something is unspent, spent slots hold the null output, and the coins were made above genesis. */
  predicate GoodCoins(c: Coins) {
    && c.vout != [] && c.IsClean() && c.nHeight >= 1
    && forall i :: 0 <= i < |c.vout| ==> GoodOut(c.vout[i])
  }

  ghost predicate Wf(v: View) {
    forall id :: id in v ==> GoodCoins(v[id])
  }

  // ---------------------------------------------------------------------------
  // One output
  // ---------------------------------------------------------------------------

  /** `CCoins::Spend` on an output that is there. */
  function Spend(c: Coins, n: nat): Coins
    requires c.IsAvailable(n)
  {
    c.(vout := c.vout[n := NULL_OUT]).Cleanup()
  }

  function UndoFor(c: Coins, n: nat): InUndo
    requires c.IsAvailable(n)
  {
    if Spend(c, n).vout == [] then InUndo(c.vout[n], c.fCoinBase, c.nHeight, c.nVersion)
    else InUndo(c.vout[n], false, 0, 0)
  }

  /** `vout.resize(n+1)` if shorter, then `vout[n] = o`. */
  function Place(s: seq<TxOut>, n: nat, o: TxOut): (t: seq<TxOut>)
    ensures |t| == if n < |s| then |s| else n + 1
    ensures forall i :: 0 <= i < |t| ==> t[i] == if i == n then o else if i < |s| then s[i] else NULL_OUT
  {
    if n < |s| then s[n := o] else s + seq(n - |s|, _ => NULL_OUT) + [o]
  }

  /** Restoring one input; None when `DisconnectBlock` would find the undo data unclean. */
  function RestoreCoins(present: bool, c: Coins, n: nat, undo: InUndo): Option<Coins> {
    if undo.nHeight != 0 then
      if present then None
      else Some(Coins(undo.fCoinBase, Place([], n, undo.txout), undo.nHeight, undo.nVersion).Cleanup())
    else
      if !present || c.IsAvailable(n) then None
      else Some(c.(vout := Place(c.vout, n, undo.txout)).Cleanup())
  }

  function RestoreOne(v: View, p: OutPoint, undo: InUndo): Option<View> {
    match RestoreCoins(p.hash in v, Lookup(v, p.hash), p.n, undo)
    case None => None
    case Some(c) => Some(Put(v, p.hash, c))
  }

  function SpendOne(v: View, p: OutPoint): View
    requires Unspent(v, p)
  {
    Put(v, p.hash, Spend(v[p.hash], p.n))
  }

  /** The record that spending leaves, padded and refilled, is the record before. */
  lemma RestoreSpent(c: Coins, n: nat)
    requires GoodCoins(c) && c.IsAvailable(n)
    ensures
      var s := Spend(c, n);
      && s.IsClean() && (s.vout == [] <==> s.IsPruned())
      && RestoreCoins(s.vout != [], if s.vout == [] then NO_COINS else s, n, UndoFor(c, n)) == Some(c)
  {
    var blank := c.(vout := c.vout[n := NULL_OUT]);
    var s := blank.Cleanup();
    CleanPrunedIsEmpty(s);
    // every slot that was dropped from the end held the null output already
    forall i | |s.vout| <= i < |c.vout| && i != n
      ensures c.vout[i] == NULL_OUT
    {
      assert blank.vout[i].IsNull() && GoodOut(c.vout[i]);
    }
    assert n == |c.vout| - 1 || s.vout == blank.vout;
    assert Place(s.vout, n, c.vout[n]) == c.vout;
    CleanupIdempotent(c);
    assert s == c.(vout := s.vout);
    assert s.(vout := c.vout) == c;
  }

  lemma RestoreOneInverts(v: View, p: OutPoint)
    requires Wf(v) && Unspent(v, p)
    ensures RestoreOne(SpendOne(v, p), p, UndoFor(v[p.hash], p.n)) == Some(v)
  {
    hide Coins.Cleanup, Place, RestoreCoins, UndoFor, Spend;
    var c := v[p.hash];
    RestoreSpent(c, p.n);
    var s, u := Spend(c, p.n), SpendOne(v, p);
    if s.vout == [] {
      assert u == v - {p.hash};
    } else {
      assert u == v[p.hash := s];
    }
    CleanPrunedIsEmpty(c);
    assert Put(u, p.hash, c) == v;
  }

  lemma SpendOneWf(v: View, p: OutPoint)
    requires Wf(v) && Unspent(v, p)
    ensures Wf(SpendOne(v, p))
  {
    RestoreSpent(v[p.hash], p.n);
  }

  // ---------------------------------------------------------------------------
  // One transaction
  // ---------------------------------------------------------------------------

  /** Spend inputs in order; None where `UpdateCoins` would hit its `assert(false)`. */
  function SpendAll(v: View, ins: seq<TxIn>): Option<(View, TxUndo)> {
    if ins == [] then Some((v, []))
    else
      var k := |ins| - 1;
      var p := ins[k].prevout;
      match SpendAll(v, ins[..k])
      case None => None
      case Some((w, undo)) =>
        if Unspent(w, p) then Some((SpendOne(w, p), undo + [UndoFor(w[p.hash], p.n)])) else None
  }

  /** Restore inputs, last one first. */
  function RestoreAll(v: View, ins: seq<TxIn>, undo: TxUndo): Option<View>
    requires |ins| == |undo|
    decreases |ins|
  {
    if ins == [] then Some(v)
    else
      var k := |ins| - 1;
      match RestoreOne(v, ins[k].prevout, undo[k])
      case None => None
      case Some(w) => RestoreAll(w, ins[..k], undo[..k])
  }

  /** `UpdateCoins`: spend what the inputs refer to, then add the outputs. */
  function UpdateCoins(v: View, tx: Tx, h: nat): Option<(View, TxUndo)> {
    if tx.IsCoinBase() then Some((Put(v, tx.txid, FromTx(tx, h)), []))
    else
      match SpendAll(v, tx.vin)
      case None => None
      case Some((w, undo)) => Some((Put(w, tx.txid, FromTx(tx, h)), undo))
  }

  /** The comparison `DisconnectBlock` makes before it removes a transaction's outputs. */
  predicate OutputsMatch(found: Coins, tx: Tx, h: nat) {
    var outs := found.ClearUnspendable();
    var expected := FromTx(tx, h);
    (if expected.nVersion < 0 then outs.(nVersion := expected.nVersion) else outs).SameAs(expected)
  }

  /** Undoing one transaction; None when sizes disagree or anything is found unclean. */
  function DisconnectTx(v: View, tx: Tx, undo: TxUndo, h: nat, first: bool): Option<View> {
    if !OutputsMatch(Lookup(v, tx.txid), tx, h) then None
    else if first then Some(v - {tx.txid})
    else if |undo| != |tx.vin| then None
    else RestoreAll(v - {tx.txid}, tx.vin, undo)
  }

  lemma {:induction false} SpendAllWf(v: View, ins: seq<TxIn>)
    requires Wf(v) && SpendAll(v, ins).Some?
    ensures Wf(SpendAll(v, ins).value.0) && |SpendAll(v, ins).value.1| == |ins|
    ensures SpendAll(v, ins).value.0.Keys <= v.Keys
  {
    if ins != [] {
      var k := |ins| - 1;
      SpendAllWf(v, ins[..k]);
      SpendOneWf(SpendAll(v, ins[..k]).value.0, ins[k].prevout);
    }
  }

  /** The reverse replay of a transaction's undo records restores every input exactly. */
  lemma {:induction false} RestoreAllInverts(v: View, ins: seq<TxIn>)
    requires Wf(v) && SpendAll(v, ins).Some?
    ensures
      var (w, undo) := SpendAll(v, ins).value;
      |undo| == |ins| && RestoreAll(w, ins, undo) == Some(v)
  {
    if ins != [] {
      var k := |ins| - 1;
      var (w, undo) := SpendAll(v, ins[..k]).value;
      SpendAllWf(v, ins[..k]);
      RestoreOneInverts(w, ins[k].prevout);
      RestoreAllInverts(v, ins[..k]);
      assert SpendAll(v, ins).value.1[..k] == undo;
    }
  }

  predicate GoodOutputs(tx: Tx) {
    forall i :: 0 <= i < |tx.vout| ==> MoneyRange(tx.vout[i].nValue)
  }

  /** What a transaction adds is well formed, and clearing it again changes nothing. */
  lemma FromTxGood(tx: Tx, h: nat)
    requires GoodOutputs(tx) && h >= 1
    ensures !FromTx(tx, h).IsPruned() ==> GoodCoins(FromTx(tx, h))
    ensures FromTx(tx, h).ClearUnspendable() == FromTx(tx, h)
  {
    var c := FromTx(tx, h);
    var cleared := seq(|c.vout|, i requires 0 <= i < |c.vout| => if c.vout[i].IsUnspendable() then NULL_OUT else c.vout[i]);
    assert cleared == c.vout;
    CleanupIdempotent(c);
    CleanPrunedIsEmpty(c);
  }

  lemma UpdateCoinsWf(v: View, tx: Tx, h: nat)
    requires Wf(v) && GoodOutputs(tx) && h >= 1 && UpdateCoins(v, tx, h).Some?
    ensures Wf(UpdateCoins(v, tx, h).value.0)
    ensures UpdateCoins(v, tx, h).value.0.Keys <= v.Keys + {tx.txid}
  {
    FromTxGood(tx, h);
    if !tx.IsCoinBase() {
      SpendAllWf(v, tx.vin);
    }
  }

  /** Disconnecting a transaction undoes `UpdateCoins`, provided its txid was not already there. */
  lemma DisconnectTxInverts(v: View, tx: Tx, h: nat)
    requires Wf(v) && GoodOutputs(tx) && h >= 1 && tx.txid !in v && UpdateCoins(v, tx, h).Some?
    ensures
      var (w, undo) := UpdateCoins(v, tx, h).value;
      DisconnectTx(w, tx, undo, h, tx.IsCoinBase()) == Some(v)
  {
    var (w, undo) := UpdateCoins(v, tx, h).value;
    FromTxGood(tx, h);
    var spent := v;
    if !tx.IsCoinBase() {
      spent := SpendAll(v, tx.vin).value.0;
      SpendAllWf(v, tx.vin);
      RestoreAllInverts(v, tx.vin);
    }
    RemoveAdded(spent, tx, h);
  }

  lemma RemoveAdded(v: View, tx: Tx, h: nat)
    requires GoodOutputs(tx) && h >= 1 && tx.txid !in v
    ensures
      var w := Put(v, tx.txid, FromTx(tx, h));
      OutputsMatch(Lookup(w, tx.txid), tx, h) && w - {tx.txid} == v
  {
    FromTxGood(tx, h);
    var c := FromTx(tx, h);
    if c.IsPruned() {
      assert NO_COINS.ClearUnspendable() == NO_COINS;
    }
  }

  // ---------------------------------------------------------------------------
  // A block
  // ---------------------------------------------------------------------------

  function SumValues(outs: seq<TxOut>): int {
    if outs == [] then 0 else SumValues(outs[..|outs| - 1]) + outs[|outs| - 1].nValue
  }

  predicate AllUnspent(v: View, ins: seq<TxIn>) {
    forall i :: 0 <= i < |ins| ==> Unspent(v, ins[i].prevout)
  }

  /** The outputs that inputs refer to, as they stand in the view. */
  function SpentOutputs(v: View, ins: seq<TxIn>): (outs: seq<TxOut>)
    requires AllUnspent(v, ins)
    ensures |outs| == |ins|
  {
    if ins == [] then []
    else
      var k := |ins| - 1;
      var p := ins[k].prevout;
      assert Unspent(v, p);
      SpentOutputs(v, ins[..k]) + [v[p.hash].vout[p.n]]
  }

  predicate HaveInputs(v: View, tx: Tx) {
    AllUnspent(v, tx.vin)
  }

  predicate InRangeAt(outs: seq<TxOut>, i: nat)
    requires i < |outs|
  {
    MoneyRange(outs[i].nValue) && MoneyRange(SumValues(outs[..i + 1]))
  }

  /** Each value, and each partial sum, is a valid amount of money. */
  predicate SumsInRange(outs: seq<TxOut>) {
    forall i :: 0 <= i < |outs| ==> InRangeAt(outs, i)
  }

  predicate DistinctInputs(tx: Tx) {
    forall i, j :: 0 <= i < j < |tx.vin| ==> tx.vin[i].prevout != tx.vin[j].prevout
  }

  predicate CheckTransaction(tx: Tx) {
    && tx.vin != [] && tx.vout != [] && TxSize(tx) <= MAX_BLOCK_SIZE
    && SumsInRange(tx.vout)
    && DistinctInputs(tx)
    && if tx.IsCoinBase() then 2 <= |tx.vin[0].scriptSig| <= 100
       else forall i :: 0 <= i < |tx.vin| ==> !tx.vin[i].prevout.IsNull()
  }

  const MAX_BLOCK_SIGOPS: nat := MAX_BLOCK_SIZE / 50

  /**
    What the code asks of scripts: whether they accept the outputs spent, and how
    many signature operations they have by themselves and, for those that pay to
    a script hash, with the outputs spent.
   */
  datatype Rules = Rules(
    scripts: (Tx, seq<TxOut>) -> bool,
    legacySigOps: Tx -> nat,
    p2shSigOps: (Tx, seq<TxOut>) -> nat,
    isFinal: Tx -> bool)

  /** The signature operations of scripts by themselves. */
  function LegacySigOps(txs: seq<Tx>, count: Tx -> nat): nat {
    if txs == [] then 0 else LegacySigOps(txs[..|txs| - 1], count) + count(txs[|txs| - 1])
  }

  predicate WithinLimits(block: seq<Tx>, rules: Rules) {
    |block| <= MAX_BLOCK_SIZE && BlockSize(block) <= MAX_BLOCK_SIZE && LegacySigOps(block, rules.legacySigOps) <= MAX_BLOCK_SIGOPS
  }

  /** `CheckBlock`, apart from the header and the Merkle root. */
  predicate CheckBlock(block: seq<Tx>, rules: Rules) {
    Shaped(block) && WithinLimits(block, rules)
  }

  /** One coinbase, in front, and checked transactions. */
  predicate Shaped(block: seq<Tx>) {
    && block != [] && block[0].IsCoinBase()
    && (forall i :: 1 <= i < |block| ==> !block[i].IsCoinBase())
    && forall i :: 0 <= i < |block| ==> CheckTransaction(block[i])
  }

  const COINBASE_MATURITY: nat := 100

  /** The maturity rule over the first `n` inputs. */
  predicate Matured(v: View, ins: seq<TxIn>, n: nat, h: nat)
    requires n <= |ins| && AllUnspent(v, ins)
  {
    forall j :: 0 <= j < n ==> var c := v[ins[j].prevout.hash]; c.fCoinBase ==> h - c.nHeight >= COINBASE_MATURITY
  }

  /** `CheckInputs`: maturity, amounts, fee and scripts. */
  predicate CheckInputs(v: View, tx: Tx, h: nat, rules: Rules)
    requires HaveInputs(v, tx)
  {
    var spent := SpentOutputs(v, tx.vin);
    && Matured(v, tx.vin, |tx.vin|, h)
    && SumsInRange(spent)
    && SumValues(spent) >= SumValues(tx.vout)
    && MoneyRange(SumValues(spent) - SumValues(tx.vout))
    && rules.scripts(tx, spent)
  }

  function Fee(v: View, tx: Tx): int
    requires HaveInputs(v, tx)
  {
    SumValues(SpentOutputs(v, tx.vin)) - SumValues(tx.vout)
  }

  /** The state of `ConnectBlock`'s loop. */
  datatype Progress = Progress(view: View, undo: seq<TxUndo>, fees: int, nSigOps: nat)

  /** One iteration of `ConnectBlock`'s loop; None where it returns false. */
  function ConnectTx(s: Progress, tx: Tx, h: nat, rules: Rules): Option<Progress> {
    var legacy := s.nSigOps + rules.legacySigOps(tx);
    if legacy > MAX_BLOCK_SIGOPS then None
    else if tx.IsCoinBase() then
      Some(s.(view := Put(s.view, tx.txid, FromTx(tx, h)), nSigOps := legacy))
    else if !HaveInputs(s.view, tx) then None
    else
      var nSigOps := legacy + rules.p2shSigOps(tx, SpentOutputs(s.view, tx.vin));
      if nSigOps > MAX_BLOCK_SIGOPS || !CheckInputs(s.view, tx, h, rules) then None
      else
        match UpdateCoins(s.view, tx, h)
        case None => None
        case Some((w, undo)) => Some(Progress(w, s.undo + [undo], s.fees + Fee(s.view, tx), nSigOps))
  }

  /** `ConnectBlock`'s loop over the transactions. */
  function ConnectTxs(v: View, txs: seq<Tx>, h: nat, rules: Rules): Option<Progress> {
    if txs == [] then Some(Progress(v, [], 0, 0))
    else
      var k := |txs| - 1;
      match ConnectTxs(v, txs[..k], h, rules)
      case None => None
      case Some(s) => ConnectTx(s, txs[k], h, rules)
  }

  /** BIP30: no transaction of the block still has something unspent. */
  predicate NoOverwrite(v: View, block: seq<Tx>) {
    forall i :: 0 <= i < |block| ==> block[i].txid !in v
  }

  const GENESIS_SUBSIDY: nat := 100
  const HALVING_INTERVAL: nat := 210000

  function Halve(amount: nat, times: nat): (r: nat)
    ensures r <= amount
  {
    if times == 0 then amount else Halve(amount / 2, times - 1)
  }

  function Subsidy(h: nat): nat {
    if h / HALVING_INTERVAL >= 64 then 0 else Halve(GENESIS_SUBSIDY * COIN, h / HALVING_INTERVAL)
  }

  /** `GetBlockValue`. */
  function BlockValue(h: nat, fees: int): int {
    Subsidy(h) + fees
  }

  /** `ConnectBlock` above genesis: the new view and the undo data of all but the coinbase. */
  function ConnectBlock(v: View, block: seq<Tx>, h: nat, rules: Rules): Option<(View, seq<TxUndo>)> {
    if !CheckBlock(block, rules) || !NoOverwrite(v, block) then None
    else
      match ConnectTxs(v, block, h, rules)
      case None => None
      case Some(s) =>
        if SumValues(block[0].vout) > BlockValue(h, s.fees) then None else Some((s.view, s.undo))
  }

  /** The reverse loop of `DisconnectBlock` over the first transactions of a block. */
  function DisconnectTxs(v: View, txs: seq<Tx>, undo: seq<TxUndo>, h: nat): Option<View>
    requires |txs| > 0 ==> |undo| == |txs| - 1
    decreases |txs|
  {
    if txs == [] then Some(v)
    else
      var k := |txs| - 1;
      match DisconnectTx(v, txs[k], if k == 0 then [] else undo[k - 1], h, k == 0)
      case None => None
      case Some(w) => DisconnectTxs(w, txs[..k], if k == 0 then [] else undo[..k - 1], h)
  }

  function DisconnectBlock(v: View, block: seq<Tx>, undo: seq<TxUndo>, h: nat): Option<View> {
    if |undo| + 1 != |block| then None else DisconnectTxs(v, block, undo, h)
  }

  // ---------------------------------------------------------------------------
  // Scripts may be checked later
  // ---------------------------------------------------------------------------

  /** The same rules with all scripts left to be checked later, as with more than one thread. */
  function Deferred(rules: Rules): Rules {
    rules.(scripts := (tx, spent) => true)
  }

  /** The scripts left over all accept: what waiting for the queue of script checks finds out. */
  predicate ScriptsPass(v: View, txs: seq<Tx>, h: nat, rules: Rules) {
    if txs == [] then true
    else
      var k := |txs| - 1;
      ScriptsPass(v, txs[..k], h, rules) &&
      match ConnectTxs(v, txs[..k], h, Deferred(rules))
      case None => false
      case Some(s) => txs[k].IsCoinBase() || (HaveInputs(s.view, txs[k]) && rules.scripts(txs[k], SpentOutputs(s.view, txs[k].vin)))
  }

  lemma ConnectTxDeferred(s: Progress, tx: Tx, h: nat, rules: Rules)
    ensures ConnectTx(s, tx, h, rules) ==
      var t := ConnectTx(s, tx, h, Deferred(rules));
      if t.Some? && (tx.IsCoinBase() || rules.scripts(tx, SpentOutputs(s.view, tx.vin))) then t else None
  {
    hide Matured, SumsInRange, SumValues, SpentOutputs, SpendAll, FromTx, Put;
  }

  lemma {:induction false} ConnectTxsDeferred(v: View, txs: seq<Tx>, h: nat, rules: Rules)
    ensures ConnectTxs(v, txs, h, rules) == if ScriptsPass(v, txs, h, rules) then ConnectTxs(v, txs, h, Deferred(rules)) else None
  {
    hide ConnectTx, SpentOutputs, HaveInputs;
    if txs != [] {
      var k := |txs| - 1;
      ConnectTxsDeferred(v, txs[..k], h, rules);
      var s := ConnectTxs(v, txs[..k], h, Deferred(rules));
      if s.Some? {
        ConnectTxDeferred(s.value, txs[k], h, rules);
        InputsNeeded(s.value, txs[k], h, Deferred(rules));
      }
    }
  }

  lemma InputsNeeded(s: Progress, tx: Tx, h: nat, rules: Rules)
    ensures ConnectTx(s, tx, h, rules).Some? ==> tx.IsCoinBase() || HaveInputs(s.view, tx)
  {
  }

  /** Leaving the scripts of a block to the end, and waiting for them, accepts the same blocks with the same result. */
  lemma DeferredChecks(v: View, block: seq<Tx>, h: nat, rules: Rules)
    ensures ConnectBlock(v, block, h, rules) == if ScriptsPass(v, block, h, rules) then ConnectBlock(v, block, h, Deferred(rules)) else None
  {
    hide ConnectTxs, ScriptsPass, Shaped, NoOverwrite;
    ConnectTxsDeferred(v, block, h, rules);
  }

  // ---------------------------------------------------------------------------
  // What the checks give
  // ---------------------------------------------------------------------------

  lemma CheckedOutputsGood(tx: Tx)
    requires CheckTransaction(tx)
    ensures GoodOutputs(tx)
  {
    forall i | 0 <= i < |tx.vout|
      ensures MoneyRange(tx.vout[i].nValue)
    {
      assert InRangeAt(tx.vout, i);
    }
  }

  /**
    The `assert(false)` in `UpdateCoins` is unreachable: inputs that are all
    unspent and pairwise different can be spent one after the other.
   */
  lemma {:induction false} SpendAllSucceeds(v: View, ins: seq<TxIn>)
    requires AllUnspent(v, ins)
    requires forall i, j :: 0 <= i < j < |ins| ==> ins[i].prevout != ins[j].prevout
    ensures SpendAll(v, ins).Some?
  {
    if ins != [] {
      var k := |ins| - 1;
      SpendAllSucceeds(v, ins[..k]);
      SpendAllKeeps(v, ins[..k], ins[k].prevout);
    }
  }

  lemma {:induction false} SpendAllKeeps(v: View, ins: seq<TxIn>, p: OutPoint)
    requires SpendAll(v, ins).Some? && Unspent(v, p) && forall i :: 0 <= i < |ins| ==> ins[i].prevout != p
    ensures var w := SpendAll(v, ins).value.0; Unspent(w, p) && w[p.hash].vout[p.n] == v[p.hash].vout[p.n]
  {
    if ins != [] {
      var k := |ins| - 1;
      SpendAllKeeps(v, ins[..k], p);
      SpendKeepsOthers(SpendAll(v, ins[..k]).value.0, ins[k].prevout, p);
    }
  }

  lemma SpendKeepsOthers(v: View, q: OutPoint, p: OutPoint)
    requires Unspent(v, q) && Unspent(v, p) && p != q
    ensures Unspent(SpendOne(v, q), p) && SpendOne(v, q)[p.hash].vout[p.n] == v[p.hash].vout[p.n]
  {
    if p.hash == q.hash {
      var blank := v[q.hash].(vout := v[q.hash].vout[q.n := NULL_OUT]);
      assert !blank.vout[p.n].IsNull();
    }
  }

  // ---------------------------------------------------------------------------
  // No two transactions of a connected block share a txid
  // ---------------------------------------------------------------------------

  /** Hash collisions do not happen: a txid determines the transaction. */
  predicate Collisionless(block: seq<Tx>) {
    forall i, j :: 0 <= i < j < |block| && block[i].txid == block[j].txid ==> block[i] == block[j]
  }

  /** The first `k` transactions have different txids. */
  predicate DistinctTxids(txs: seq<Tx>, k: nat)
    requires k <= |txs|
  {
    forall i, j :: 0 <= i < j < k ==> txs[i].txid != txs[j].txid
  }

  predicate SpendsFrom(ins: seq<TxIn>, p: OutPoint) {
    exists i :: 0 <= i < |ins| && ins[i].prevout == p
  }

  predicate Checked(txs: seq<Tx>) {
    forall i :: 0 <= i < |txs| ==> CheckTransaction(txs[i])
  }

  predicate Made(txs: seq<Tx>, id: Hash) {
    exists i :: 0 <= i < |txs| && txs[i].txid == id
  }

  lemma SpendOneSpends(v: View, q: OutPoint, p: OutPoint)
    requires Unspent(v, q)
    ensures Unspent(SpendOne(v, q), p) ==> Unspent(v, p) && p != q
  {
  }

  lemma SpendsFromLast(ins: seq<TxIn>, p: OutPoint)
    requires ins != [] && SpendsFrom(ins, p)
    ensures SpendsFrom(ins[..|ins| - 1], p) || ins[|ins| - 1].prevout == p
  {
    var i :| 0 <= i < |ins| && ins[i].prevout == p;
    if i < |ins| - 1 {
      assert ins[..|ins| - 1][i].prevout == p;
    }
  }

  /** Spending only ever removes outputs, and it removes each input's. */
  lemma {:induction false} SpendAllSpends(v: View, ins: seq<TxIn>, p: OutPoint)
    requires SpendAll(v, ins).Some? && Unspent(SpendAll(v, ins).value.0, p)
    ensures Unspent(v, p) && !SpendsFrom(ins, p)
  {
    if ins != [] {
      var k := |ins| - 1;
      SpendOneSpends(SpendAll(v, ins[..k]).value.0, ins[k].prevout, p);
      SpendAllSpends(v, ins[..k], p);
      if SpendsFrom(ins, p) {
        SpendsFromLast(ins, p);
      }
    }
  }

  lemma ConnectTxWf(s: Progress, tx: Tx, h: nat, rules: Rules)
    requires Wf(s.view) && h >= 1 && CheckTransaction(tx) && ConnectTx(s, tx, h, rules).Some?
    ensures Wf(ConnectTx(s, tx, h, rules).value.view)
    ensures ConnectTx(s, tx, h, rules).value.view.Keys <= s.view.Keys + {tx.txid}
  {
    CheckedOutputsGood(tx);
    FromTxGood(tx, h);
    if !tx.IsCoinBase() {
      UpdateCoinsWf(s.view, tx, h);
    }
  }

  lemma {:induction false} ConnectTxsWf(v: View, txs: seq<Tx>, h: nat, rules: Rules)
    requires Wf(v) && h >= 1 && Checked(txs) && ConnectTxs(v, txs, h, rules).Some?
    ensures Wf(ConnectTxs(v, txs, h, rules).value.view)
    ensures forall id :: id in ConnectTxs(v, txs, h, rules).value.view ==> id in v || Made(txs, id)
  {
    if txs != [] {
      var k := |txs| - 1;
      ConnectTxsWf(v, txs[..k], h, rules);
      var s := ConnectTxs(v, txs[..k], h, rules).value;
      ConnectTxWf(s, txs[k], h, rules);
      forall id | id in ConnectTxs(v, txs, h, rules).value.view
        ensures id in v || Made(txs, id)
      {
        if id in s.view && id !in v {
          var i :| 0 <= i < k && txs[..k][i].txid == id;
          assert txs[i].txid == id;
        } else if id !in s.view {
          assert txs[k].txid == id;
        }
      }
    }
  }

  lemma {:induction false} ConnectTxsPrefix(v: View, txs: seq<Tx>, k: nat, h: nat, rules: Rules)
    requires k <= |txs| && ConnectTxs(v, txs, h, rules).Some?
    ensures ConnectTxs(v, txs[..k], h, rules).Some?
    decreases |txs|
  {
    if k == |txs| {
      assert txs[..k] == txs;
    } else {
      var m := |txs| - 1;
      ConnectTxsPrefix(v, txs[..m], k, h, rules);
      assert txs[..m][..k] == txs[..k];
    }
  }

  lemma StepStaysSpent(s: Progress, tx: Tx, h: nat, rules: Rules, p: OutPoint)
    requires ConnectTx(s, tx, h, rules).Some? && tx.txid != p.hash
    requires !Unspent(s.view, p) || (!tx.IsCoinBase() && SpendsFrom(tx.vin, p))
    ensures !Unspent(ConnectTx(s, tx, h, rules).value.view, p)
  {
    if !tx.IsCoinBase() {
      var w := SpendAll(s.view, tx.vin).value.0;
      if Unspent(w, p) {
        SpendAllSpends(s.view, tx.vin, p);
      }
    }
  }

  lemma OnlyCoinbase(v: View, cb: Tx, h: nat, rules: Rules)
    requires cb.IsCoinBase() && rules.legacySigOps(cb) <= MAX_BLOCK_SIGOPS
    ensures ConnectTxs(v, [cb], h, rules) == Some(Progress(Put(v, cb.txid, FromTx(cb, h)), [], 0, rules.legacySigOps(cb)))
  {
    assert [cb][..0] == [];
  }

  lemma ConnectTxsNext(v: View, txs: seq<Tx>, k: nat, h: nat, rules: Rules)
    requires k < |txs| && ConnectTxs(v, txs[..k + 1], h, rules).Some?
    ensures ConnectTxs(v, txs[..k], h, rules).Some?
    ensures ConnectTxs(v, txs[..k + 1], h, rules) == ConnectTx(ConnectTxs(v, txs[..k], h, rules).value, txs[k], h, rules)
  {
    assert txs[..k + 1][..k] == txs[..k];
  }

  /** An output spent by transaction `i` stays spent while nobody makes its txid again. */
  lemma {:induction false} StaysSpent(v: View, txs: seq<Tx>, k: nat, h: nat, rules: Rules, i: nat, p: OutPoint)
    requires i < k <= |txs| && ConnectTxs(v, txs[..k], h, rules).Some?
    requires !txs[i].IsCoinBase() && SpendsFrom(txs[i].vin, p)
    requires forall m :: i <= m < k ==> txs[m].txid != p.hash
    ensures !Unspent(ConnectTxs(v, txs[..k], h, rules).value.view, p)
  {
    ConnectTxsNext(v, txs, k - 1, h, rules);
    if i < k - 1 {
      StaysSpent(v, txs, k - 1, h, rules, i, p);
    }
    StepStaysSpent(ConnectTxs(v, txs[..k - 1], h, rules).value, txs[k - 1], h, rules, p);
  }

  /** What the checks before and inside `ConnectBlock`'s loop establish. */
  ghost predicate Connects(v: View, block: seq<Tx>, h: nat, rules: Rules) {
    && Wf(v) && h >= 1 && Shaped(block) && NoOverwrite(v, block) && Collisionless(block)
    && ConnectTxs(v, block, h, rules).Some?
  }

  /** The view transaction `k` is applied to. */
  ghost function ViewAt(v: View, block: seq<Tx>, h: nat, rules: Rules, k: nat): View
    requires k <= |block| && Connects(v, block, h, rules)
  {
    ConnectTxsPrefix(v, block, k, h, rules);
    ConnectTxs(v, block[..k], h, rules).value.view
  }

  /** A transaction that is not a coinbase found its inputs unspent. */
  lemma InputsThere(v: View, block: seq<Tx>, h: nat, rules: Rules, k: nat)
    requires k < |block| && Connects(v, block, h, rules)
    ensures block[k].IsCoinBase() || HaveInputs(ViewAt(v, block, h, rules, k), block[k])
  {
    ConnectTxsPrefix(v, block, k + 1, h, rules);
    ConnectTxsNext(v, block, k, h, rules);
  }

  /** Whatever is in the view when transaction `i` is applied is not made again before transaction `k`. */
  lemma NotMadeAgain(v: View, block: seq<Tx>, h: nat, rules: Rules, i: nat, k: nat, id: Hash, m: nat)
    requires i <= m < k <= |block| && Connects(v, block, h, rules) && DistinctTxids(block, k)
    requires id in ViewAt(v, block, h, rules, i)
    ensures block[m].txid != id
  {
    ConnectTxsPrefix(v, block, i, h, rules);
    ConnectTxsWf(v, block[..i], h, rules);
    if id !in v {
      var e :| 0 <= e < i && block[..i][e].txid == id;
      assert block[e].txid == id;
    }
  }

  /** Transaction `k` cannot repeat transaction `i`: its first input is gone by then. */
  lemma NoRepeat(v: View, block: seq<Tx>, h: nat, rules: Rules, i: nat, k: nat)
    requires i < k < |block| && Connects(v, block, h, rules) && DistinctTxids(block, k)
    ensures block[i].txid != block[k].txid
  {
    if block[i].txid == block[k].txid {
      var tx := block[k];
      assert block[i] == tx && !tx.IsCoinBase() && CheckTransaction(tx);
      var p := tx.vin[0].prevout;
      InputsThere(v, block, h, rules, i);
      InputsThere(v, block, h, rules, k);
      forall m | i <= m < k
        ensures block[m].txid != p.hash
      {
        NotMadeAgain(v, block, h, rules, i, k, p.hash, m);
      }
      ConnectTxsPrefix(v, block, k, h, rules);
      assert SpendsFrom(tx.vin, p);
      StaysSpent(v, block, k, h, rules, i, p);
    }
  }

  lemma {:induction false} ConnectedTxidsDistinct(v: View, block: seq<Tx>, h: nat, rules: Rules, k: nat)
    requires k <= |block| && Connects(v, block, h, rules)
    ensures DistinctTxids(block, k)
  {
    hide Connects;
    if k > 0 {
      ConnectedTxidsDistinct(v, block, h, rules, k - 1);
      forall i | 0 <= i < k - 1
        ensures block[i].txid != block[k - 1].txid
      {
        NoRepeat(v, block, h, rules, i, k - 1);
      }
    }
  }

  // ---------------------------------------------------------------------------
  // Disconnecting a block undoes connecting it
  // ---------------------------------------------------------------------------

  /** Nothing of a transaction is in the view it is applied to. */
  lemma NotThereYet(v: View, txs: seq<Tx>, k: nat, h: nat, rules: Rules)
    requires Wf(v) && h >= 1 && Checked(txs) && NoOverwrite(v, txs) && k < |txs| && DistinctTxids(txs, |txs|)
    requires ConnectTxs(v, txs[..k], h, rules).Some?
    ensures txs[k].txid !in ConnectTxs(v, txs[..k], h, rules).value.view
    ensures Wf(ConnectTxs(v, txs[..k], h, rules).value.view)
  {
    ConnectTxsWf(v, txs[..k], h, rules);
    assert !Made(txs[..k], txs[k].txid) by {
      assert forall e :: 0 <= e < k ==> txs[..k][e].txid == txs[e].txid;
    }
  }

  lemma PrefixChecked(v: View, txs: seq<Tx>, k: nat)
    requires Shaped(txs) && NoOverwrite(v, txs) && DistinctTxids(txs, |txs|) && 0 < k <= |txs|
    ensures Shaped(txs[..k]) && NoOverwrite(v, txs[..k]) && DistinctTxids(txs[..k], k)
  {
  }

  /** Undoing one iteration of `ConnectBlock`'s loop. */
  lemma DisconnectStep(s: Progress, tx: Tx, h: nat, rules: Rules)
    requires Wf(s.view) && h >= 1 && CheckTransaction(tx) && tx.txid !in s.view
    requires ConnectTx(s, tx, h, rules).Some?
    ensures
      var t := ConnectTx(s, tx, h, rules).value;
      if tx.IsCoinBase() then
        t.undo == s.undo && DisconnectTx(t.view, tx, [], h, true) == Some(s.view)
      else
        && |t.undo| == |s.undo| + 1 && t.undo[..|s.undo|] == s.undo
        && DisconnectTx(t.view, tx, t.undo[|s.undo|], h, false) == Some(s.view)
  {
    CheckedOutputsGood(tx);
    DisconnectTxInverts(s.view, tx, h);
  }

  lemma {:induction false} DisconnectTxsInverts(v: View, txs: seq<Tx>, h: nat, rules: Rules)
    requires Wf(v) && h >= 1 && Shaped(txs) && NoOverwrite(v, txs) && DistinctTxids(txs, |txs|)
    requires ConnectTxs(v, txs, h, rules).Some?
    ensures
      var s := ConnectTxs(v, txs, h, rules).value;
      |s.undo| == |txs| - 1 && DisconnectTxs(s.view, txs, s.undo, h) == Some(v)
    decreases |txs|
  {
    hide ConnectTx, Wf, CheckTransaction, DisconnectTx, NoOverwrite;
    var k := |txs| - 1;
    var s := ConnectTxs(v, txs[..k], h, rules).value;
    NotThereYet(v, txs, k, h, rules);
    DisconnectStep(s, txs[k], h, rules);
    if k > 0 {
      PrefixChecked(v, txs, k);
      DisconnectTxsInverts(v, txs[..k], h, rules);
    } else {
      assert txs[..k] == [];
    }
  }

  /**
    Connecting a block and replaying its undo data in reverse gives back exactly
    the unspent outputs from before, and nothing is ever reported unclean. This
    includes outputs made and fully spent inside the block.
   */
  lemma DisconnectInvertsConnect(v: View, block: seq<Tx>, h: nat, rules: Rules)
    requires Wf(v) && h >= 1 && Collisionless(block)
    requires ConnectBlock(v, block, h, rules).Some?
    ensures
      var (w, undo) := ConnectBlock(v, block, h, rules).value;
      Wf(w) && DisconnectBlock(w, block, undo, h) == Some(v)
  {
    ConnectedTxidsDistinct(v, block, h, rules, |block|);
    DisconnectTxsInverts(v, block, h, rules);
    ConnectTxsWf(v, block, h, rules);
  }
}
