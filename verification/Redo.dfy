/**
  The other direction of undoing: whenever `DisconnectBlock` finds nothing
  unclean, adding the transactions again gives back the unspent outputs it
  started from, and the undo data it was given.
 */
module Redo {
  import opened Coins
  import opened Options
  import opened Undo

  /** Undo data as it is written: an output that could be spent, and no more than that unless it was the last one. */
  predicate GoodUndo(u: InUndo) {
    && MoneyRange(u.txout.nValue) && !u.txout.IsUnspendable()
    && (u.nHeight == 0 ==> !u.fCoinBase && u.nVersion == 0)
  }

  predicate GoodUndos(undo: TxUndo) {
    forall i :: 0 <= i < |undo| ==> GoodUndo(undo[i])
  }

  /** Nothing is stored that nobody can spend. */
  predicate Tidy(c: Coins) {
    forall i :: 0 <= i < |c.vout| ==> !c.vout[i].IsUnspendable()
  }

  ghost predicate TidyView(v: View) {
    Wf(v) && forall id :: id in v ==> Tidy(v[id])
  }

  // ---------------------------------------------------------------------------
  // One output
  // ---------------------------------------------------------------------------

  /** Cleaning up drops exactly what was put behind a clean record. */
  lemma CleanupDropsPadding(c: Coins, d: Coins)
    requires c.IsClean() && c.vout != [] && |c.vout| <= |d.vout| && d == c.(vout := d.vout)
    requires d.vout[..|c.vout|] == c.vout && forall i :: |c.vout| <= i < |d.vout| ==> d.vout[i].IsNull()
    ensures d.Cleanup() == c
  {
    hide Coins.Cleanup;
    var r := d.Cleanup();
    var k := |c.vout|;
    assert d.vout[..k][k - 1] == c.vout[k - 1];
    assert |r.vout| >= k;
    assert r.vout == c.vout;
  }

  lemma CleanupDropsAll(d: Coins)
    requires d.IsPruned()
    ensures d.Cleanup().vout == []
  {
    hide Coins.Cleanup;
    CleanPrunedIsEmpty(d.Cleanup());
  }

  /** A restored output that was the last one of its record. */
  lemma SpendOnly(n: nat, u: InUndo)
    requires GoodUndo(u) && u.nHeight != 0
    ensures
      var r := RestoreCoins(false, NO_COINS, n, u).value;
      && GoodCoins(r) && Tidy(r) && r.IsAvailable(n) && Spend(r, n).vout == [] && UndoFor(r, n) == u
  {
    hide Coins.Cleanup;
    var r := Coins(u.fCoinBase, Place([], n, u.txout), u.nHeight, u.nVersion);
    CleanupIdempotent(r);
    CleanupDropsAll(r.(vout := r.vout[n := NULL_OUT]));
  }

  /** A restored output of a record that is still there. */
  lemma SpendOneOf(c: Coins, n: nat, u: InUndo)
    requires GoodCoins(c) && Tidy(c) && !c.IsAvailable(n) && GoodUndo(u) && u.nHeight == 0
    ensures
      var r := RestoreCoins(true, c, n, u).value;
      && GoodCoins(r) && Tidy(r) && r.IsAvailable(n) && Spend(r, n) == c && UndoFor(r, n) == u
  {
    hide Coins.Cleanup, Place;
    var r := c.(vout := Place(c.vout, n, u.txout));
    CleanupIdempotent(r);
    var blank := r.(vout := r.vout[n := NULL_OUT]);
    assert n < |c.vout| ==> GoodOut(c.vout[n]);
    assert blank.vout[..|c.vout|] == c.vout;
    CleanupDropsPadding(c, blank);
  }

  /** Spending what was restored gives back the view and the undo record. */
  lemma SpendRestored(v: View, p: OutPoint, u: InUndo)
    requires TidyView(v) && GoodUndo(u) && RestoreOne(v, p, u).Some?
    ensures
      var w := RestoreOne(v, p, u).value;
      TidyView(w) && Unspent(w, p) && SpendOne(w, p) == v && UndoFor(w[p.hash], p.n) == u
  {
    hide Coins.Cleanup, Spend, UndoFor, GoodUndo, Place;
    if u.nHeight != 0 {
      SpendOnly(p.n, u);
      var r := RestoreCoins(false, NO_COINS, p.n, u).value;
      assert RestoreCoins(p.hash in v, Lookup(v, p.hash), p.n, u) == Some(r);
      assert v[p.hash := r] - {p.hash} == v;
    } else {
      var c := v[p.hash];
      SpendOneOf(c, p.n, u);
      var r := RestoreCoins(true, c, p.n, u).value;
      CleanPrunedIsEmpty(c);
      assert v[p.hash := r][p.hash := c] == v;
    }
  }

  // ---------------------------------------------------------------------------
  // Transactions
  // ---------------------------------------------------------------------------

  /** Spending all inputs that were restored, first one first, undoes the restoring, last one first. */
  lemma {:induction false} SpendAllRestored(v: View, ins: seq<TxIn>, undo: TxUndo)
    requires TidyView(v) && |undo| == |ins| && GoodUndos(undo) && RestoreAll(v, ins, undo).Some?
    ensures
      var w := RestoreAll(v, ins, undo).value;
      TidyView(w) && SpendAll(w, ins) == Some((v, undo))
    decreases |ins|
  {
    hide TidyView, GoodUndo, RestoreOne, SpendOne, UndoFor, Unspent;
    if ins != [] {
      var k := |ins| - 1;
      SpendRestored(v, ins[k].prevout, undo[k]);
      var x := RestoreOne(v, ins[k].prevout, undo[k]).value;
      SpendAllRestored(x, ins[..k], undo[..k]);
      assert undo[..k] + [undo[k]] == undo;
    }
  }

  lemma TidyIsCleared(c: Coins)
    requires c.IsClean() && Tidy(c)
    ensures c.ClearUnspendable() == c
  {
    var kept := seq(|c.vout|, i requires 0 <= i < |c.vout| => if c.vout[i].IsUnspendable() then NULL_OUT else c.vout[i]);
    assert kept == c.vout;
    CleanupIdempotent(c);
  }

  /** The outputs found are those that adding the transaction would make. */
  lemma FoundIsMade(w: View, tx: Tx, h: nat)
    requires TidyView(w) && tx.nVersion >= 0 && OutputsMatch(Lookup(w, tx.txid), tx, h)
    ensures Put(w - {tx.txid}, tx.txid, FromTx(tx, h)) == w && TidyView(w - {tx.txid})
  {
    hide FromTx, Coins.Cleanup;
    var found := Lookup(w, tx.txid);
    TidyIsCleared(found);
    FromTxHolds(tx, h);
    if tx.txid in w {
      CleanPrunedIsEmpty(found);
      assert FromTx(tx, h) == found;
      assert (w - {tx.txid})[tx.txid := found] == w;
    } else {
      assert FromTx(tx, h).IsPruned();
      assert w - {tx.txid} == w;
    }
  }

  /** Whenever a transaction was undone cleanly, adding it again is the inverse. */
  lemma RedoTx(w: View, tx: Tx, undo: TxUndo, h: nat)
    requires TidyView(w) && tx.nVersion >= 0 && GoodUndos(undo) && (tx.IsCoinBase() ==> undo == [])
    requires DisconnectTx(w, tx, undo, h, tx.IsCoinBase()).Some?
    ensures
      var v := DisconnectTx(w, tx, undo, h, tx.IsCoinBase()).value;
      TidyView(v) && UpdateCoins(v, tx, h) == Some((w, undo))
  {
    hide TidyView, GoodUndos, FromTx, Put, OutputsMatch;
    FoundIsMade(w, tx, h);
    if !tx.IsCoinBase() {
      SpendAllRestored(w - {tx.txid}, tx.vin, undo);
    }
  }

  /** `UpdateCoins` for one transaction after the other. */
  function UpdateAll(v: View, txs: seq<Tx>, h: nat): Option<(View, seq<TxUndo>)> {
    if txs == [] then Some((v, []))
    else
      var k := |txs| - 1;
      match UpdateAll(v, txs[..k], h)
      case None => None
      case Some((w, undo)) =>
        match UpdateCoins(w, txs[k], h)
        case None => None
        case Some((x, u)) => Some((x, if k == 0 then [] else undo + [u]))
  }

  /** A coinbase in front and nowhere else, with undo data for the others. */
  ghost predicate Undoable(txs: seq<Tx>, undo: seq<TxUndo>) {
    && (txs != [] ==> |undo| == |txs| - 1 && txs[0].IsCoinBase())
    && (txs == [] ==> undo == [])
    && (forall i :: 1 <= i < |txs| ==> !txs[i].IsCoinBase())
    && (forall i :: 0 <= i < |txs| ==> txs[i].nVersion >= 0)
    && (forall i :: 0 <= i < |undo| ==> GoodUndos(undo[i]))
  }

  /**
    If the reverse loop of `DisconnectBlock` finds nothing unclean, the block can
    be added again to what it leaves, which gives the unspent outputs and the
    undo data it started from.
   */
  lemma {:induction false} RedoBlock(w: View, txs: seq<Tx>, undo: seq<TxUndo>, h: nat)
    requires TidyView(w) && Undoable(txs, undo) && DisconnectTxs(w, txs, undo, h).Some?
    ensures
      var v := DisconnectTxs(w, txs, undo, h).value;
      TidyView(v) && UpdateAll(v, txs, h) == Some((w, undo))
    decreases |txs|
  {
    hide TidyView, GoodUndos, DisconnectTx, UpdateCoins, Undoable;
    UndoableSize(txs, undo);
    if txs != [] {
      var k := |txs| - 1;
      var u := if k == 0 then [] else undo[k - 1];
      var rest := if k == 0 then [] else undo[..k - 1];
      UndoableRest(txs, undo);
      RedoTx(w, txs[k], u, h);
      var x := DisconnectTx(w, txs[k], u, h, k == 0).value;
      RedoBlock(x, txs[..k], rest, h);
    }
  }

  lemma UndoableSize(txs: seq<Tx>, undo: seq<TxUndo>)
    requires Undoable(txs, undo)
    ensures if txs == [] then undo == [] else |undo| == |txs| - 1
  {
  }

  lemma UndoableRest(txs: seq<Tx>, undo: seq<TxUndo>)
    requires Undoable(txs, undo) && txs != [] && |undo| == |txs| - 1
    ensures
      var k := |txs| - 1;
      var u, rest := if k == 0 then [] else undo[k - 1], if k == 0 then [] else undo[..k - 1];
      && Undoable(txs[..k], rest) && GoodUndos(u) && txs[k].nVersion >= 0
      && txs[k].IsCoinBase() == (k == 0) && undo == (if k == 0 then [] else rest + [u])
  {
    hide GoodUndos;
    NothingToUndo();
  }

  lemma NothingToUndo()
    ensures GoodUndos([])
  {
  }
}
