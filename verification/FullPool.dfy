/**
  What the assembler must take: a transaction that pays its way is passed over
  only for lack of room, and a pool that fits and has no conflicts goes into the
  block as a whole.
 */
module FullPool {
  import opened Arithmetic
  import opened BlockAssembler
  import opened Coins
  import opened Ledger
  import opened Options
  import opened Sequences
  import opened Undo

  // ---------------------------------------------------------------------------
  // What inputs refer to
  // ---------------------------------------------------------------------------

  /** The outputs that inputs refer to, from the chain or the pool, before anything is selected. */
  function Refs(pool: Pool, v: View, ins: seq<TxIn>): (outs: seq<TxOut>)
    ensures |outs| == |ins|
  {
    if ins == [] then []
    else
      var k := |ins| - 1;
      Refs(pool, v, ins[..k]) + [match RefOut(pool, v, ins[k].prevout) case None => TxOut(0, []) case Some(o) => o]
  }

  lemma {:induction false} TotalInIs(pool: Pool, v: View, ins: seq<TxIn>)
    ensures TotalIn(pool, v, ins) == SumValues(Refs(pool, v, ins))
  {
    hide RefOut;
    if ins != [] {
      var k := |ins| - 1;
      var outs := Refs(pool, v, ins);
      TotalInIs(pool, v, ins[..k]);
      assert outs[..k] == Refs(pool, v, ins[..k]) && outs[k].nValue == RefValue(pool, v, ins[k].prevout);
    }
  }

  /** What has been selected connects one after the other. */
  lemma SelectedConnect(pool: Pool, v: View, h: nat, R: Rules, sel: seq<Hash>, s: Progress)
    requires PoolOk(pool, v) && Selection(pool, v, h, R, sel, s) && Wf(v) && h >= 1
    ensures Connected(v, Txs(pool, sel), h, R) && After(v, Txs(pool, sel), h, R) == s.view
    ensures forall i :: 0 <= i < |sel| ==> Txs(pool, sel)[i].txid == sel[i] && sel[i] !in v
  {
    hide ConnectTxs, Parents, CheckTransaction, Wf;
  }

  /** An output unspent at some turn is the one referred to from the beginning. */
  lemma RefIs(pool: Pool, v: View, h: nat, R: Rules, sel: seq<Hash>, s: Progress, p: OutPoint)
    requires PoolOk(pool, v) && Selection(pool, v, h, R, sel, s) && Wf(v) && h >= 1 && Unspent(s.view, p)
    ensures RefOut(pool, v, p) == Some(s.view[p.hash].vout[p.n])
  {
    hide ConnectTxs, Parents, CheckTransaction, Wf, PoolOk, After, Connected, Makes, SpentIn;
    var txs := Txs(pool, sel);
    SelectedConnect(pool, v, h, R, sel, s);
    UnspentIff(v, txs, h, R, p);
    if !Unspent(v, p) {
      var i :| 0 <= i < |txs| && Makes(txs[i], p);
      NewIs(v, txs, h, R, i, p);
      MadeByPool(txs[i], p);
    }
  }

  lemma MadeByPool(tx: Tx, p: OutPoint)
    requires Makes(tx, p)
    ensures p.hash == tx.txid && p.n < |tx.vout|
  {
  }

  lemma {:induction false} RefsAre(pool: Pool, v: View, h: nat, R: Rules, sel: seq<Hash>, s: Progress, ins: seq<TxIn>)
    requires PoolOk(pool, v) && Selection(pool, v, h, R, sel, s) && Wf(v) && h >= 1 && AllUnspent(s.view, ins)
    ensures SpentOutputs(s.view, ins) == Refs(pool, v, ins)
  {
    hide Selection, PoolOk, Wf, RefOut;
    if ins != [] {
      var k := |ins| - 1;
      RefsAre(pool, v, h, R, sel, s, ins[..k]);
      assert Unspent(s.view, ins[k].prevout);
      RefIs(pool, v, h, R, sel, s, ins[k].prevout);
    }
  }

  // ---------------------------------------------------------------------------
  // Fee rates
  // ---------------------------------------------------------------------------

  /** Fees that are amounts of money are compared as they should be. */
  lemma FeeRateIs(fee: int, nSize: nat)
    requires MoneyRange(fee) && nSize > 0
    ensures FeeRate(fee, nSize) == fee * 1000 / nSize
  {
    SmallRate(fee * 1000, nSize);
  }

  lemma SmallRate(x: nat, nSize: nat)
    requires x < U64 && nSize > 0
    ensures x % U64 / nSize == x / nSize
  {
    DivUnique(x, U64, 0, x);
  }

  /** But a fee that its user has made negative ranks above every other. */
  lemma NegativeFeeFirst(fee: int, other: int, nSize: nat)
    requires -MAX_MONEY <= fee < 0 && MoneyRange(other) && 0 < nSize <= MAX_BLOCK_SIZE
    ensures FeeRate(fee, nSize) > FeeRate(other, nSize)
  {
    FeeRateIs(other, nSize);
    var a, b := fee * 1000 + U64, other * 1000;
    assert fee * 1000 % U64 == a;
    assert a >= b + MAX_BLOCK_SIZE;
    QuotientLess(a, b, nSize);
  }

  lemma QuotientLess(a: nat, b: nat, n: nat)
    requires n > 0 && a >= b + n
    ensures a / n > b / n
  {
    DivBounds(a, n);
    DivBounds(b, n);
    MulMono(b / n, a / n, n);
    assert n * (a / n) == a / n * n && n * (b / n) == b / n * n;
  }

  /** A transaction at its turn. */
  ghost predicate Turn(pool: Pool, v: View, h: nat, R: Rules, P: Policy, nBlockMaxSize: nat, before: seq<Round>, r: Round) {
    PoolOk(pool, v) && Wf(v) && h >= 1 && RoundOk(pool, v, h, R, P, nBlockMaxSize, before, r)
  }

  /** The rate a transaction is ranked by is that of the fee it pays, if its user has not changed it. */
  lemma RateIsFee(pool: Pool, v: View, h: nat, R: Rules, P: Policy, nBlockMaxSize: nat, before: seq<Round>, r: Round)
    requires Turn(pool, v, h, R, P, nBlockMaxSize, before, r) && r.id in pool && P.feeDelta(r.id) == 0
    requires HaveInputs(r.s.view, pool[r.id]) && MoneyRange(Fee(r.s.view, pool[r.id]))
    ensures TxSize(pool[r.id]) > 0 && RankOf(pool, v, P, r.id).feeRate == Fee(r.s.view, pool[r.id]) * 1000 / TxSize(pool[r.id])
  {
    hide Selection, PoolOk, Wf, Taken, ByFee, Highest, TxSize, FeeRate, TotalIn, SpentOutputs;
    var tx := pool[r.id];
    RefsAre(pool, v, h, R, TakenIds(before), r.s, tx.vin);
    TotalInIs(pool, v, tx.vin);
    RankIs(pool, v, P, r.id);
    FeeRateIs(Fee(r.s.view, tx), TxSize(tx));
  }

  /** A transaction that pays the relay fee is taken at its turn exactly if there is room and the rules for blocks accept it. */
  lemma PayingIsTaken(pool: Pool, v: View, h: nat, R: Rules, P: Policy, nBlockMaxSize: nat, before: seq<Round>, r: Round)
    requires Turn(pool, v, h, R, P, nBlockMaxSize, before, r) && r.id in pool && P.feeDelta(r.id) == 0
    requires HaveInputs(r.s.view, pool[r.id]) && MoneyRange(Fee(r.s.view, pool[r.id])) && TxSize(pool[r.id]) > 0
    requires Fee(r.s.view, pool[r.id]) * 1000 / TxSize(pool[r.id]) >= P.minRelayTxFee
    ensures
      var tx := pool[r.id];
      r.taken <==>
        && r.size + TxSize(tx) < nBlockMaxSize
        && ConnectTx(r.s, tx, h, R).Some? && COINBASE_SIGOPS + ConnectTx(r.s, tx, h, R).value.nSigOps < MAX_BLOCK_SIGOPS
  {
    hide Selection, PoolOk, Wf, ByFee, Highest, TxSize, RankOf, SpentOutputs, ConnectTx;
    RateIsFee(pool, v, h, R, P, nBlockMaxSize, before, r);
  }

  /** And one that does not is passed over once the block is sorted by fee and large enough. */
  lemma FreeIsPassed(pool: Pool, v: View, h: nat, R: Rules, P: Policy, nBlockMaxSize: nat, before: seq<Round>, r: Round)
    requires Turn(pool, v, h, R, P, nBlockMaxSize, before, r) && r.id in pool && P.feeDelta(r.id) == 0 && P.priorityDelta(r.id) <= 0.0
    requires HaveInputs(r.s.view, pool[r.id]) && MoneyRange(Fee(r.s.view, pool[r.id])) && TxSize(pool[r.id]) > 0
    requires Fee(r.s.view, pool[r.id]) * 1000 / TxSize(pool[r.id]) < P.minRelayTxFee
    requires r.byFee && r.size + TxSize(pool[r.id]) >= P.nBlockMinSize
    ensures !r.taken
  {
    hide Selection, PoolOk, Wf, ByFee, Highest, TxSize, RankOf, SpentOutputs, ConnectTx;
    RateIsFee(pool, v, h, R, P, nBlockMaxSize, before, r);
  }

  /** While the rest is not sorted by fee, all that was taken has a high priority and fits in the space set aside for that. */
  lemma {:induction false} PriorityArea(pool: Pool, v: View, h: nat, R: Rules, P: Policy, nBlockMaxSize: nat, rounds: seq<Round>)
    requires RoundsOk(pool, v, h, R, P, nBlockMaxSize, rounds) && !ByFee(pool, v, R, P, nBlockMaxSize, rounds)
    ensures forall i :: 0 <= i < |TakenIds(rounds)| ==> TakenIds(rounds)[i] in pool && P.dPriority(TakenIds(rounds)[i]) > 57600000.0
    ensures TakenIds(rounds) != [] ==> COINBASE_SIZE + TxsSize(Txs(pool, TakenIds(rounds))) < P.nBlockPrioritySize
    decreases |rounds|
  {
    hide TxSize, TxsSize, RoundOk, ByFee, Txs;
    if rounds != [] {
      var k := |rounds| - 1;
      var before, r := rounds[..k], rounds[k];
      assert before + [r] == rounds;
      PriorityTurn(pool, v, h, R, P, nBlockMaxSize, before, r);
      RoundsBefore(pool, v, h, R, P, nBlockMaxSize, rounds);
      PriorityArea(pool, v, h, R, P, nBlockMaxSize, before);
      if r.taken {
        TxsNext(pool, TakenIds(before), r.id);
        SizeNext(Txs(pool, TakenIds(before)), pool[r.id]);
      } else {
        assert TakenIds(rounds) == TakenIds(before);
      }
    }
  }

  lemma PriorityTurn(pool: Pool, v: View, h: nat, R: Rules, P: Policy, nBlockMaxSize: nat, before: seq<Round>, r: Round)
    requires RoundOk(pool, v, h, R, P, nBlockMaxSize, before, r) && !ByFee(pool, v, R, P, nBlockMaxSize, before + [r])
    ensures r.id in pool && !ByFee(pool, v, R, P, nBlockMaxSize, before)
    ensures (forall i :: 0 <= i < |TakenIds(before)| ==> TakenIds(before)[i] in pool)
    ensures r.size == COINBASE_SIZE + TxsSize(Txs(pool, TakenIds(before)))
    ensures r.taken ==> r.size + TxSize(pool[r.id]) < P.nBlockPrioritySize && P.dPriority(r.id) > 57600000.0
  {
    hide TxSize, TxsSize, ConnectTx, Skipped, ByFee, FeeRate, TotalIn, AtLeast, Ready, ConnectTxs, Parents;
    ByFeeNext(pool, v, R, P, nBlockMaxSize, before, r);
    RankIs(pool, v, P, r.id);
    if r.taken {
      SigOpsGrow(r.s, pool[r.id], h, R);
    }
  }

  lemma RoundsBefore(pool: Pool, v: View, h: nat, R: Rules, P: Policy, nBlockMaxSize: nat, rounds: seq<Round>)
    requires RoundsOk(pool, v, h, R, P, nBlockMaxSize, rounds) && rounds != []
    ensures RoundsOk(pool, v, h, R, P, nBlockMaxSize, rounds[..|rounds| - 1])
  {
    hide RoundOk;
    var before := rounds[..|rounds| - 1];
    forall i | 0 <= i < |before|
      ensures RoundOk(pool, v, h, R, P, nBlockMaxSize, before[..i], before[i])
    {
      assert before[..i] == rounds[..i];
    }
  }

  // ---------------------------------------------------------------------------
  // Sums over the pool
  // ---------------------------------------------------------------------------

  function SumOf(f: Hash -> nat, ids: seq<Hash>): nat {
    if ids == [] then 0 else SumOf(f, ids[..|ids| - 1]) + f(ids[|ids| - 1])
  }

  lemma {:induction false} SumWithout(f: Hash -> nat, ids: seq<Hash>, j: nat)
    requires j < |ids|
    ensures SumOf(f, ids) == SumOf(f, ids[..j] + ids[j + 1..]) + f(ids[j])
  {
    var k := |ids| - 1;
    if j == k {
      assert ids[..j] + ids[j + 1..] == ids[..k];
    } else {
      SumWithout(f, ids[..k], j);
      var rest := ids[..j] + ids[j + 1..];
      assert rest[..|rest| - 1] == ids[..k][..j] + ids[..k][j + 1..];
    }
  }

  /** A part adds up to no more than the whole. */
  lemma {:induction false} SumOfPart(f: Hash -> nat, part: seq<Hash>, all: seq<Hash>)
    requires Distinct(part) && forall x :: x in part ==> x in all
    ensures SumOf(f, part) <= SumOf(f, all)
  {
    if part != [] {
      var k := |part| - 1;
      assert part[k] in part;
      var j :| 0 <= j < |all| && all[j] == part[k];
      var rest := all[..j] + all[j + 1..];
      forall x | x in part[..k]
        ensures x in rest
      {
        assert x in part && x != part[k];
        var i :| 0 <= i < |all| && all[i] == x;
        assert rest[if i < j then i else i - 1] == x;
      }
      SumOfPart(f, part[..k], rest);
      SumWithout(f, all, j);
    }
  }

  function SizeIn(pool: Pool): Hash -> nat {
    id => if id in pool then TxSize(pool[id]) else 0
  }

  /** The signature operations of a transaction, together with the outputs it refers to. */
  function SigOpsOf(pool: Pool, v: View, R: Rules, id: Hash): nat {
    if id in pool then R.legacySigOps(pool[id]) + R.p2shSigOps(pool[id], Refs(pool, v, pool[id].vin)) else 0
  }

  function SigOpsIn(pool: Pool, v: View, R: Rules): Hash -> nat {
    id => SigOpsOf(pool, v, R, id)
  }

  lemma {:induction false} SizesAdd(pool: Pool, sel: seq<Hash>)
    requires forall i :: 0 <= i < |sel| ==> sel[i] in pool
    ensures TxsSize(Txs(pool, sel)) == SumOf(SizeIn(pool), sel)
  {
    hide TxSize;
    if sel != [] {
      var k := |sel| - 1;
      SizesAdd(pool, sel[..k]);
      assert Txs(pool, sel)[..k] == Txs(pool, sel[..k]);
    }
  }

  lemma SelectionPrefix(pool: Pool, v: View, h: nat, R: Rules, sel: seq<Hash>, s: Progress) returns (t: Progress)
    requires PoolOk(pool, v) && Selection(pool, v, h, R, sel, s) && sel != []
    ensures
      var k := |sel| - 1;
      sel[k] in pool && !pool[sel[k]].IsCoinBase() && Selection(pool, v, h, R, sel[..k], t) && ConnectTx(t, pool[sel[k]], h, R) == Some(s)
  {
    hide ConnectTx, Parents;
    var k := |sel| - 1;
    assert Txs(pool, sel)[..k] == Txs(pool, sel[..k]);
    t := ConnectTxs(v, Txs(pool, sel[..k]), h, R).value;
    forall i | 0 <= i < k
      ensures Parents(v, pool[sel[..k][i]].vin) <= Members(sel[..k][..i])
    {
      assert sel[..k][..i] == sel[..i];
    }
  }

  lemma SigOpsOfOne(s: Progress, tx: Tx, h: nat, R: Rules, s': Progress)
    requires ConnectTx(s, tx, h, R) == Some(s') && !tx.IsCoinBase()
    ensures HaveInputs(s.view, tx) && s'.nSigOps == s.nSigOps + R.legacySigOps(tx) + R.p2shSigOps(tx, SpentOutputs(s.view, tx.vin))
  {
    hide SpendAll, FromTx, Put, SumsInRange, SpentOutputs, CheckInputs;
  }

  /** The signature operations counted are those of all transactions selected. */
  lemma {:induction false} SigOpsAdd(pool: Pool, v: View, h: nat, R: Rules, sel: seq<Hash>, s: Progress)
    requires PoolOk(pool, v) && Selection(pool, v, h, R, sel, s) && Wf(v) && h >= 1
    ensures s.nSigOps == SumOf(SigOpsIn(pool, v, R), sel)
    decreases |sel|
  {
    hide Wf, PoolOk, ConnectTx, ParentsFirst, SpentOutputs, Refs;
    if sel == [] {
      assert Txs(pool, sel) == [];
    } else {
      var k := |sel| - 1;
      var t := SelectionPrefix(pool, v, h, R, sel, s);
      hide Selection;
      SigOpsAdd(pool, v, h, R, sel[..k], t);
      SigOpsOfOne(t, pool[sel[k]], h, R, s);
      RefsAre(pool, v, h, R, sel[..k], t, pool[sel[k]].vin);
    }
  }

  // ---------------------------------------------------------------------------
  // A pool that fits
  // ---------------------------------------------------------------------------

  /** An output that may be spent at height `h`, on the chain and mature, or made by the pool. */
  predicate InputFine(pool: Pool, v: View, h: nat, p: OutPoint) {
    if p.hash in v then Unspent(v, p) && (v[p.hash].fCoinBase ==> h - v[p.hash].nHeight >= 100)
    else p.hash in pool && Makes(pool[p.hash], p)
  }

  /** Everything the rules for blocks ask of one transaction by itself. */
  ghost predicate TxFine(pool: Pool, v: View, h: nat, R: Rules, tx: Tx) {
    var refs := Refs(pool, v, tx.vin);
    && !tx.IsCoinBase() && R.isFinal(tx) && (forall i :: 0 <= i < |tx.vin| ==> InputFine(pool, v, h, tx.vin[i].prevout))
    && SumsInRange(refs) && SumValues(refs) >= SumValues(tx.vout) && MoneyRange(SumValues(refs) - SumValues(tx.vout))
    && R.scripts(tx, refs)
  }

  /** No two transactions of the pool spend the same output. */
  ghost predicate NoConflicts(pool: Pool) {
    forall a, b, p :: a in pool && b in pool && a != b && Spends(pool[a], p) ==> !Spends(pool[b], p)
  }

  /** An input found at the turn of a transaction whose parents are all selected. */
  lemma InputAtTurn(pool: Pool, v: View, h: nat, R: Rules, sel: seq<Hash>, s: Progress, id: Hash, p: OutPoint)
    requires PoolOk(pool, v) && Selection(pool, v, h, R, sel, s) && Wf(v) && h >= 1 && NoConflicts(pool)
    requires id in pool && id !in sel && Parents(v, pool[id].vin) <= Members(sel)
    requires Spends(pool[id], p) && InputFine(pool, v, h, p)
    ensures Unspent(s.view, p) && (s.view[p.hash].fCoinBase ==> h - s.view[p.hash].nHeight >= 100)
  {
    hide ConnectTxs, Parents, CheckTransaction, Wf, PoolOk, After, Connected, Makes, Spends;
    var txs := Txs(pool, sel);
    SelectedConnect(pool, v, h, R, sel, s);
    UnspentIff(v, txs, h, R, p);
    assert !SpentIn(txs, p) by {
      forall i | 0 <= i < |txs|
        ensures !Spends(txs[i], p)
      {
        assert sel[i] in pool && sel[i] != id;
      }
    }
    if p.hash !in v {
      SpendsInput(pool[id], p);
      InViewOrParent(v, pool[id].vin, p);
      var i :| 0 <= i < |sel| && sel[i] == p.hash;
      NewIs(v, txs, h, R, i, p);
    }
  }

  lemma SpendsInput(tx: Tx, p: OutPoint)
    requires Spends(tx, p)
    ensures SpendsFrom(tx.vin, p)
  {
  }

  /** So all inputs are there, mature, and what they were taken for. */
  lemma InputsAtTurn(pool: Pool, v: View, h: nat, R: Rules, sel: seq<Hash>, s: Progress, id: Hash)
    requires PoolOk(pool, v) && Selection(pool, v, h, R, sel, s) && Wf(v) && h >= 1 && NoConflicts(pool)
    requires id in pool && id !in sel && Parents(v, pool[id].vin) <= Members(sel) && TxFine(pool, v, h, R, pool[id])
    ensures HaveInputs(s.view, pool[id]) && CheckInputs(s.view, pool[id], h, R)
    ensures SpentOutputs(s.view, pool[id].vin) == Refs(pool, v, pool[id].vin)
  {
    hide Selection, Parents, Wf, PoolOk, NoConflicts, InputFine, Refs, SumsInRange, SumValues;
    var tx := pool[id];
    forall i | 0 <= i < |tx.vin|
      ensures
        var p := tx.vin[i].prevout;
        Unspent(s.view, p) && (s.view[p.hash].fCoinBase ==> h - s.view[p.hash].nHeight >= 100)
    {
      assert SpendsFrom(tx.vin, tx.vin[i].prevout);
      InputAtTurn(pool, v, h, R, sel, s, id, tx.vin[i].prevout);
    }
    RefsAre(pool, v, h, R, sel, s, tx.vin);
  }

  lemma ConnectsAtTurn(s: Progress, tx: Tx, h: nat, R: Rules)
    requires CheckTransaction(tx) && !tx.IsCoinBase() && HaveInputs(s.view, tx) && CheckInputs(s.view, tx, h, R)
    requires s.nSigOps + R.legacySigOps(tx) + R.p2shSigOps(tx, SpentOutputs(s.view, tx.vin)) <= MAX_BLOCK_SIGOPS
    ensures ConnectTx(s, tx, h, R).Some?
  {
    hide SpentOutputs, SpendAll, FromTx, Put, SumsInRange, CheckInputs;
    SpendAllSucceeds(s.view, tx.vin);
  }

  /** No transaction may be passed over as free. */
  ghost predicate NoneFree(pool: Pool, v: View, P: Policy) {
    forall id :: id in pool ==> RankOf(pool, v, P, id).feeRate >= P.minRelayTxFee || P.priorityDelta(id) > 0.0 || P.feeDelta(id) > 0
  }

  /** The whole pool, listed by `all`, stays within both limits. */
  ghost predicate AllFit(pool: Pool, v: View, R: Rules, nBlockMaxSize: nat, all: seq<Hash>) {
    && Members(all) == pool.Keys
    && COINBASE_SIZE + SumOf(SizeIn(pool), all) < nBlockMaxSize
    && COINBASE_SIGOPS + SumOf(SigOpsIn(pool, v, R), all) < MAX_BLOCK_SIGOPS
  }

  lemma FitsWithNext(pool: Pool, v: View, R: Rules, nBlockMaxSize: nat, all: seq<Hash>, sel: seq<Hash>, id: Hash)
    requires AllFit(pool, v, R, nBlockMaxSize, all) && Distinct(sel) && id !in sel && id in pool && forall i :: 0 <= i < |sel| ==> sel[i] in pool
    ensures COINBASE_SIZE + TxsSize(Txs(pool, sel)) + TxSize(pool[id]) < nBlockMaxSize
    ensures COINBASE_SIGOPS + SumOf(SigOpsIn(pool, v, R), sel) + SigOpsIn(pool, v, R)(id) < MAX_BLOCK_SIGOPS
  {
    hide TxSize, TxsSize, Refs;
    var next := sel + [id];
    DistinctJoin(sel, [id]);
    assert next[..|sel|] == sel;
    forall x | x in next
      ensures x in all
    {
      assert x in Members(all);
    }
    SumOfPart(SizeIn(pool), next, all);
    SumOfPart(SigOpsIn(pool, v, R), next, all);
    SizesAdd(pool, sel);
  }

  /** At its turn, a transaction of such a pool is taken. */
  lemma TakenAtItsTurn(pool: Pool, v: View, h: nat, R: Rules, P: Policy, nBlockMaxSize: nat, all: seq<Hash>, before: seq<Round>, r: Round)
    requires Turn(pool, v, h, R, P, nBlockMaxSize, before, r) && r.id in pool && r.id !in TakenIds(before)
    requires TxFine(pool, v, h, R, pool[r.id]) && NoConflicts(pool) && NoneFree(pool, v, P) && AllFit(pool, v, R, nBlockMaxSize, all)
    ensures r.taken
  {
    hide Wf, NoConflicts, TxFine, AllFit, RankOf, ByFee, TakenIds, Refs, ConnectTx, CheckInputs, SumOf, Parents, TxSize, TxsSize, SpentOutputs;
    var sel, tx, s := TakenIds(before), pool[r.id], r.s;
    NotCoinbase(pool, v, h, R, tx);
    InputsAtTurn(pool, v, h, R, sel, s, r.id);
    FitsWithNext(pool, v, R, nBlockMaxSize, all, sel, r.id);
    SigOpsAdd(pool, v, h, R, sel, s);
    ConnectsAtTurn(s, tx, h, R);
    SigOpsOfOne(s, tx, h, R, ConnectTx(s, tx, h, R).value);
  }

  lemma NotCoinbase(pool: Pool, v: View, h: nat, R: Rules, tx: Tx)
    requires TxFine(pool, v, h, R, tx)
    ensures !tx.IsCoinBase() && R.isFinal(tx)
  {
    hide Refs;
  }

  /** Parents come before children in some order. */
  ghost predicate Acyclic(pool: Pool, v: View, depth: Hash -> nat) {
    forall id, p :: id in pool && p in Parents(v, pool[id].vin) ==> depth(p) < depth(id)
  }

  /** What `Select` and `CreateNewBlock` say of the turns. */
  ghost predicate AllTurns(pool: Pool, v: View, h: nat, R: Rules, P: Policy, nBlockMaxSize: nat, rounds: seq<Round>) {
    && PoolOk(pool, v) && Wf(v) && h >= 1 && RoundsOk(pool, v, h, R, P, nBlockMaxSize, rounds)
    && forall id :: id in Ids(rounds) <==> Ready(pool, v, R, id, Members(TakenIds(rounds)))
  }

  lemma {:induction false} TakenIsSelected(rounds: seq<Round>, i: nat)
    requires i < |rounds| && rounds[i].taken
    ensures rounds[i].id in TakenIds(rounds)
  {
    var k := |rounds| - 1;
    if i < k {
      TakenIsSelected(rounds[..k], i);
    }
  }

  /**
    A pool of fine transactions without conflicts or circles, none of them free,
    that fits as a whole, is selected as a whole.
   */
  lemma {:induction false} WholePool(pool: Pool, v: View, h: nat, R: Rules, P: Policy, nBlockMaxSize: nat, rounds: seq<Round>,
                                     all: seq<Hash>, depth: Hash -> nat, id: Hash)
    requires AllTurns(pool, v, h, R, P, nBlockMaxSize, rounds) && id in pool && Acyclic(pool, v, depth)
    requires (forall x :: x in pool ==> TxFine(pool, v, h, R, pool[x])) && NoConflicts(pool) && NoneFree(pool, v, P)
    requires AllFit(pool, v, R, nBlockMaxSize, all)
    ensures id in TakenIds(rounds)
    decreases depth(id)
  {
    hide Wf, TxFine, NoConflicts, NoneFree, AllFit, RoundOk, TakenIds, Parents;
    forall p | p in Parents(v, pool[id].vin)
      ensures p in Members(TakenIds(rounds))
    {
      assert p in pool.Keys;
      WholePool(pool, v, h, R, P, nBlockMaxSize, rounds, all, depth, p);
    }
    NotCoinbase(pool, v, h, R, pool[id]);
    assert Ready(pool, v, R, id, Members(TakenIds(rounds)));
    assert id in Ids(rounds);
    var i :| 0 <= i < |rounds| && rounds[i].id == id;
    if id in TakenIds(rounds[..i]) {
      TurnsOnce(pool, v, h, R, P, nBlockMaxSize, rounds, i);
    } else {
      TakenAtItsTurn(pool, v, h, R, P, nBlockMaxSize, all, rounds[..i], rounds[i]);
      TakenIsSelected(rounds, i);
    }
  }

  lemma TurnsOnce(pool: Pool, v: View, h: nat, R: Rules, P: Policy, nBlockMaxSize: nat, rounds: seq<Round>, i: nat)
    requires RoundsOk(pool, v, h, R, P, nBlockMaxSize, rounds) && i < |rounds|
    ensures rounds[i].id !in TakenIds(rounds[..i])
  {
    hide Selection, Ready, AtLeast, ByFee, Taken, TakenIds, RankOf;
    assert RoundOk(pool, v, h, R, P, nBlockMaxSize, rounds[..i], rounds[i]);
    if rounds[i].id in TakenIds(rounds[..i]) {
      TakenAtTurn(rounds[..i], rounds[i].id);
    }
  }
}
