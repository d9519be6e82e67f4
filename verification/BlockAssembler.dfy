/**
  `CreateNewBlock` in miner.cpp: the pool is ranked, and in the order of the ranks
  every transaction whose parents are in the block is taken or passed over.
  Priorities are given; fee rates are computed.
 */
module BlockAssembler {
  import opened Coins
  import opened Options
  import opened Sequences
  import Supply
  import opened Undo

  const U64: int := 0x1_0000_0000_0000_0000
  const COINBASE_SIZE: nat := 1000
  const COINBASE_SIGOPS: nat := 100

  type Pool = map<Hash, Tx>

  /** Transactions that may be selected at all. */
  predicate Eligible(pool: Pool, R: Rules, id: Hash) {
    id in pool && !pool[id].IsCoinBase() && R.isFinal(pool[id])
  }

  /** The transactions that inputs refer to and that are not in the view yet. */
  function Parents(v: View, ins: seq<TxIn>): set<Hash> {
    if ins == [] then {}
    else
      var k := |ins| - 1;
      var h := ins[k].prevout.hash;
      Parents(v, ins[..k]) + if h in v then {} else {h}
  }

  /** What the pool guarantees: checked transactions, none of them confirmed, and inputs from the chain or the pool. */
  ghost predicate PoolOk(pool: Pool, v: View) {
    && (forall id :: id in pool ==> pool[id].txid == id && id !in v && CheckTransaction(pool[id]))
    && (forall id :: id in pool ==> Parents(v, pool[id].vin) <= pool.Keys)
  }

  // ---------------------------------------------------------------------------
  // Ranks
  // ---------------------------------------------------------------------------

  /**
    What the block is made by: the priority of each transaction, what its user
    has added to priority and fee, the rate below which a transaction is free,
    and up to which sizes free transactions and those of high priority are taken.
   */
  datatype Policy = Policy(
    dPriority: Hash -> real,
    priorityDelta: Hash -> real,
    feeDelta: Hash -> int,
    minRelayTxFee: int,
    nBlockMinSize: nat,
    nBlockPrioritySize: nat)

  datatype Rank = Rank(dPriority: real, feeRate: int)

  /** The output that an input refers to, from the chain or the pool. */
  function RefOut(pool: Pool, v: View, p: OutPoint): Option<TxOut> {
    if p.hash in v then if p.n < |v[p.hash].vout| then Some(v[p.hash].vout[p.n]) else None
    else if p.hash in pool && p.n < |pool[p.hash].vout| then Some(pool[p.hash].vout[p.n])
    else None
  }

  function RefValue(pool: Pool, v: View, p: OutPoint): int {
    match RefOut(pool, v, p)
    case None => 0
    case Some(o) => o.nValue
  }

  /** What the inputs are worth, before anything is selected. */
  function TotalIn(pool: Pool, v: View, ins: seq<TxIn>): int {
    if ins == [] then 0 else TotalIn(pool, v, ins[..|ins| - 1]) + RefValue(pool, v, ins[|ins| - 1].prevout)
  }

  /** `CFeeRate`: a signed amount is divided by an unsigned size of 64 bits. */
  function FeeRate(nFeePaid: int, nSize: nat): int
    requires nSize > 0
  {
    nFeePaid * 1000 % U64 / nSize
  }

  function RankOf(pool: Pool, v: View, P: Policy, id: Hash): Rank
    requires id in pool
  {
    var tx := pool[id];
    Rank(P.dPriority(id), FeeRate(TotalIn(pool, v, tx.vin) + P.feeDelta(id) - SumValues(tx.vout), TxSize(tx)))
  }

  /** `TxPriorityCompare`. */
  predicate Lower(byFee: bool, a: Rank, b: Rank) {
    if byFee then if a.feeRate == b.feeRate then a.dPriority < b.dPriority else a.feeRate < b.feeRate
    else if a.dPriority == b.dPriority then a.feeRate < b.feeRate
    else a.dPriority < b.dPriority
  }

  /** The higher fee rate or the higher priority comes first, and of equals the higher other one. */
  predicate AtLeast(byFee: bool, a: Rank, b: Rank) {
    if byFee then a.feeRate > b.feeRate || (a.feeRate == b.feeRate && a.dPriority >= b.dPriority)
    else a.dPriority > b.dPriority || (a.dPriority == b.dPriority && a.feeRate >= b.feeRate)
  }

  /** The top of the heap. */
  method Top(vec: seq<Hash>, ranks: map<Hash, Rank>, byFee: bool) returns (k: nat)
    requires vec != [] && forall i :: 0 <= i < |vec| ==> vec[i] in ranks
    ensures k < |vec| && forall i :: 0 <= i < |vec| ==> AtLeast(byFee, ranks[vec[k]], ranks[vec[i]])
  {
    k := 0;
    for n := 0 to |vec|
      invariant k < |vec| && forall i :: 0 <= i < n ==> AtLeast(byFee, ranks[vec[k]], ranks[vec[i]])
      invariant n == 0 ==> k == 0
    {
      if Lower(byFee, ranks[vec[k]], ranks[vec[n]]) {
        k := n;
      }
    }
  }

  // ---------------------------------------------------------------------------
  // Collecting the pool
  // ---------------------------------------------------------------------------

  /** Which transactions wait, for what, and who waits for each. */
  datatype Waiting = Waiting(dependsOn: map<Hash, set<Hash>>, dependers: map<Hash, seq<Hash>>)

  predicate Names(dependers: map<Hash, seq<Hash>>, parent: Hash, child: Hash) {
    parent in dependers && child in dependers[parent]
  }

  /** Every waiting transaction waits for its parents, and is listed under each of them. */
  ghost predicate WaitingOk(w: Waiting, pool: Pool, v: View, R: Rules, done: set<Hash>) {
    && (forall id :: id in w.dependsOn <==> id in done && Eligible(pool, R, id) && Parents(v, pool[id].vin) != {})
    && (forall id :: id in w.dependsOn ==> w.dependsOn[id] == Parents(v, pool[id].vin))
    && (forall p, c {:trigger Names(w.dependers, p, c)} :: Names(w.dependers, p, c) <==> c in w.dependsOn && p in w.dependsOn[c])
  }

  /** `mapDependers[parent].push_back(child)`. */
  function AddName(dependers: map<Hash, seq<Hash>>, parent: Hash, child: Hash): map<Hash, seq<Hash>> {
    dependers[parent := (if parent in dependers then dependers[parent] else []) + [child]]
  }

  lemma NamesAdded(dependers: map<Hash, seq<Hash>>, parent: Hash, child: Hash)
    ensures forall p, c {:trigger Names(AddName(dependers, parent, child), p, c)} ::
      Names(AddName(dependers, parent, child), p, c) <==> Names(dependers, p, c) || (p == parent && c == child)
  {
    var r := AddName(dependers, parent, child);
    forall p, c
      ensures Names(r, p, c) <==> Names(dependers, p, c) || (p == parent && c == child)
    {
      if p == parent && parent !in dependers {
        assert r[p] == [child];
      }
    }
  }

  /** The loop over the inputs of one transaction. */
  method CollectInputs(pool: Pool, v: View, tx: Tx, dependers: map<Hash, seq<Hash>>)
    returns (setDependsOn: set<Hash>, r: map<Hash, seq<Hash>>, nTotalIn: int)
    ensures setDependsOn == Parents(v, tx.vin) && nTotalIn == TotalIn(pool, v, tx.vin)
    ensures forall p, c {:trigger Names(r, p, c)} :: Names(r, p, c) <==> Names(dependers, p, c) || (c == tx.txid && p in setDependsOn)
  {
    setDependsOn, r, nTotalIn := {}, dependers, 0;
    for i := 0 to |tx.vin|
      invariant setDependsOn == Parents(v, tx.vin[..i]) && nTotalIn == TotalIn(pool, v, tx.vin[..i])
      invariant forall p, c {:trigger Names(r, p, c)} :: Names(r, p, c) <==> Names(dependers, p, c) || (c == tx.txid && p in setDependsOn)
    {
      assert tx.vin[..i + 1][..i] == tx.vin[..i];
      var h := tx.vin[i].prevout.hash;
      if h !in v {
        NamesAdded(r, h, tx.txid);
        r := AddName(r, h, tx.txid);
        setDependsOn := setDependsOn + {h};
      }
      nTotalIn := nTotalIn + RefValue(pool, v, tx.vin[i].prevout);
    }
    assert tx.vin[..|tx.vin|] == tx.vin;
  }

  /** Ready from the start: nothing to wait for. */
  ghost predicate Ready(pool: Pool, v: View, R: Rules, id: Hash, selected: set<Hash>) {
    Eligible(pool, R, id) && Parents(v, pool[id].vin) <= selected
  }

  /** Every transaction that may be selected has its rank. */
  ghost predicate Ranked(ranks: map<Hash, Rank>, pool: Pool, v: View, R: Rules, P: Policy, done: set<Hash>) {
    && (forall id :: id in ranks <==> id in done && Eligible(pool, R, id))
    && (forall id :: id in ranks ==> ranks[id] == RankOf(pool, v, P, id))
  }

  /** The first loop of `CreateNewBlock`. */
  method Collect(pool: Pool, v: View, R: Rules, P: Policy) returns (w: Waiting, vec: seq<Hash>, ranks: map<Hash, Rank>)
    requires PoolOk(pool, v)
    ensures WaitingOk(w, pool, v, R, pool.Keys) && Ranked(ranks, pool, v, R, P, pool.Keys)
    ensures Distinct(vec) && forall id :: id in vec <==> Ready(pool, v, R, id, {})
  {
    hide WaitingOk, Parents, Ranked, RankOf, TotalIn, TxSize, FeeRate;
    w, vec, ranks := Waiting(map[], map[]), [], map[];
    NobodyWaits(pool, v, R, P);
    var rest := pool.Keys;
    while rest != {}
      invariant rest <= pool.Keys && WaitingOk(w, pool, v, R, pool.Keys - rest) && Ranked(ranks, pool, v, R, P, pool.Keys - rest)
      invariant Distinct(vec) && forall id :: id in vec <==> id in pool && id !in rest && Ready(pool, v, R, id, {})
    {
      var id :| id in rest;
      assert pool.Keys - (rest - {id}) == pool.Keys - rest + {id};
      if Eligible(pool, R, id) {
        var deps, dependers, nTotalIn := CollectInputs(pool, v, pool[id], w.dependers);
        OneMoreWaits(w, pool, v, R, pool.Keys - rest, id, dependers);
        RankedNext(ranks, pool, v, R, P, pool.Keys - rest, id);
        RankIs(pool, v, P, id);
        nTotalIn := nTotalIn + P.feeDelta(id);
        ranks := ranks[id := Rank(P.dPriority(id), FeeRate(nTotalIn - SumValues(pool[id].vout), TxSize(pool[id])))];
        if deps == {} {
          vec := vec + [id];
          w := w.(dependers := dependers);
        } else {
          w := Waiting(w.dependsOn[id := deps], dependers);
        }
      } else {
        NotWaiting(w, ranks, pool, v, R, P, pool.Keys - rest, id);
      }
      rest := rest - {id};
    }
    assert pool.Keys - rest == pool.Keys;
  }

  lemma RankIs(pool: Pool, v: View, P: Policy, id: Hash)
    requires id in pool
    ensures TxSize(pool[id]) > 0
    ensures RankOf(pool, v, P, id) ==
      Rank(P.dPriority(id), FeeRate(TotalIn(pool, v, pool[id].vin) + P.feeDelta(id) - SumValues(pool[id].vout), TxSize(pool[id])))
  {
  }

  lemma NobodyWaits(pool: Pool, v: View, R: Rules, P: Policy)
    ensures WaitingOk(Waiting(map[], map[]), pool, v, R, pool.Keys - pool.Keys) && Ranked(map[], pool, v, R, P, pool.Keys - pool.Keys)
  {
  }

  lemma NotWaiting(w: Waiting, ranks: map<Hash, Rank>, pool: Pool, v: View, R: Rules, P: Policy, done: set<Hash>, id: Hash)
    requires WaitingOk(w, pool, v, R, done) && Ranked(ranks, pool, v, R, P, done) && !Eligible(pool, R, id)
    ensures WaitingOk(w, pool, v, R, done + {id}) && Ranked(ranks, pool, v, R, P, done + {id})
  {
    hide RankOf, Parents;
  }

  lemma RankedNext(ranks: map<Hash, Rank>, pool: Pool, v: View, R: Rules, P: Policy, done: set<Hash>, id: Hash)
    requires Ranked(ranks, pool, v, R, P, done) && Eligible(pool, R, id)
    ensures Ranked(ranks[id := RankOf(pool, v, P, id)], pool, v, R, P, done + {id})
  {
    hide RankOf;
  }

  lemma OneMoreWaits(w: Waiting, pool: Pool, v: View, R: Rules, done: set<Hash>, id: Hash, dependers: map<Hash, seq<Hash>>)
    requires WaitingOk(w, pool, v, R, done) && id !in done && Eligible(pool, R, id)
    requires forall p, c {:trigger Names(dependers, p, c)} ::
      Names(dependers, p, c) <==> Names(w.dependers, p, c) || (c == id && p in Parents(v, pool[id].vin))
    ensures
      var ps := Parents(v, pool[id].vin);
      WaitingOk(if ps == {} then w.(dependers := dependers) else Waiting(w.dependsOn[id := ps], dependers), pool, v, R, done + {id})
  {
    hide Parents;
  }

  // ---------------------------------------------------------------------------
  // Releasing those that waited
  // ---------------------------------------------------------------------------

  /** What a transaction still waits for once `id` is selected. */
  ghost predicate Released(before: map<Hash, set<Hash>>, after: map<Hash, set<Hash>>, list: seq<Hash>, id: Hash) {
    after.Keys == before.Keys && forall c :: c in before ==> after[c] == if c in list then before[c] - {id} else before[c]
  }

  /** The last loop of a round: a transaction is queued when the last thing it waited for goes, so only once. */
  method Release(dependsOn: map<Hash, set<Hash>>, list: seq<Hash>, id: Hash)
    returns (r: map<Hash, set<Hash>>, queued: seq<Hash>)
    requires forall i :: 0 <= i < |list| ==> list[i] in dependsOn
    ensures Released(dependsOn, r, list, id) && Distinct(queued)
    ensures forall c :: c in queued <==> c in list && dependsOn[c] != {} && dependsOn[c] - {id} == {}
  {
    r, queued := dependsOn, [];
    for i := 0 to |list|
      invariant Released(dependsOn, r, list[..i], id) && Distinct(queued)
      invariant forall c :: c in queued <==> c in list[..i] && dependsOn[c] != {} && dependsOn[c] - {id} == {}
    {
      var c := list[i];
      assert list[..i + 1] == list[..i] + [c];
      if r[c] != {} {
        r := r[c := r[c] - {id}];
        if r[c] == {} {
          queued := queued + [c];
        }
      }
    }
    assert list[..|list|] == list;
  }

  // ---------------------------------------------------------------------------
  // The selection loop
  // ---------------------------------------------------------------------------

  function Txs(pool: Pool, ids: seq<Hash>): (txs: seq<Tx>)
    requires forall i :: 0 <= i < |ids| ==> ids[i] in pool
    ensures |txs| == |ids| && forall i :: 0 <= i < |ids| ==> txs[i] == pool[ids[i]]
  {
    seq(|ids|, i requires 0 <= i < |ids| => pool[ids[i]])
  }

  /** What waits, waits for the parents that have not been selected. */
  ghost predicate WaitsFor(pool: Pool, v: View, dependsOn: map<Hash, set<Hash>>, selected: set<Hash>) {
    forall c :: c in dependsOn ==> c in pool && dependsOn[c] == Parents(v, pool[c].vin) - selected
  }

  /** The queue and what has been taken from it are, without repetition, what is ready. */
  ghost predicate QueueOk(pool: Pool, v: View, R: Rules, vec: seq<Hash>, popped: set<Hash>, selected: set<Hash>) {
    && Distinct(vec)
    && (forall id :: id in vec ==> id !in popped)
    && (forall id :: id in vec || id in popped <==> Ready(pool, v, R, id, selected))
  }

  /** Nothing is selected twice, or before its parents. */
  ghost predicate ParentsFirst(pool: Pool, v: View, sel: seq<Hash>) {
    && Distinct(sel)
    && (forall i :: 0 <= i < |sel| ==> sel[i] in pool)
    && (forall i :: 0 <= i < |sel| ==> Parents(v, pool[sel[i]].vin) <= Members(sel[..i]))
  }

  lemma Subset(a: set<Hash>, b: set<Hash>)
    ensures a <= b <==> a - b == {}
  {
    if a - b == {} {
      forall x | x in a
        ensures x in b
      {
        assert x !in b ==> x in a - b;
      }
    }
  }

  lemma WaitsNext(pool: Pool, v: View, R: Rules, w: Waiting, dependsOn: map<Hash, set<Hash>>, selected: set<Hash>,
                  id: Hash, list: seq<Hash>, after: map<Hash, set<Hash>>)
    requires WaitingOk(w, pool, v, R, pool.Keys) && dependsOn.Keys == w.dependsOn.Keys && WaitsFor(pool, v, dependsOn, selected)
    requires (forall c :: c in list <==> Names(w.dependers, id, c)) && Released(dependsOn, after, list, id)
    ensures WaitsFor(pool, v, after, selected + {id})
  {
    hide Parents;
    forall c | c in after
      ensures c in pool && after[c] == Parents(v, pool[c].vin) - (selected + {id})
    {
      assert c in list <==> Names(w.dependers, id, c);
    }
  }

  /** After a selection, the ones released are exactly those that have become ready. */
  lemma QueueNext(pool: Pool, v: View, R: Rules, w: Waiting, dependsOn: map<Hash, set<Hash>>, selected: set<Hash>,
                  id: Hash, list: seq<Hash>, queued: seq<Hash>, vec: seq<Hash>, popped: set<Hash>)
    requires WaitingOk(w, pool, v, R, pool.Keys) && dependsOn.Keys == w.dependsOn.Keys && WaitsFor(pool, v, dependsOn, selected)
    requires QueueOk(pool, v, R, vec, popped, selected)
    requires forall c :: c in list <==> Names(w.dependers, id, c)
    requires Distinct(queued)
    requires forall c :: c in queued <==> c in list && c in dependsOn && dependsOn[c] != {} && dependsOn[c] - {id} == {}
    ensures QueueOk(pool, v, R, vec + queued, popped, selected + {id})
  {
    hide Parents, Distinct;
    forall x
      ensures x in vec || x in queued || x in popped <==> Ready(pool, v, R, x, selected + {id})
      ensures x in queued ==> !Ready(pool, v, R, x, selected)
    {
      assert x in list <==> Names(w.dependers, id, x);
      if Eligible(pool, R, x) && x in dependsOn {
        var ps := Parents(v, pool[x].vin);
        Subset(ps, selected);
        Subset(ps, selected + {id});
        assert ps - (selected + {id}) == dependsOn[x] - {id};
      }
    }
    DistinctJoin(vec, queued);
  }

  /** A free transaction, once the block is sorted by fee and has reached its minimum size. */
  predicate Skipped(P: Policy, id: Hash, rank: Rank, byFee: bool, sizeAfter: nat) {
    && byFee && sizeAfter >= P.nBlockMinSize && rank.feeRate < P.minRelayTxFee
    && P.priorityDelta(id) <= 0.0 && P.feeDelta(id) <= 0
  }

  /** `AllowFree`. */
  predicate AllowFree(dPriority: real) {
    dPriority > 57600000.0
  }

  /** There is room for the transaction with its own signature operations. */
  predicate Room(tx: Tx, s: Progress, R: Rules, nBlockMaxSize: nat, nBlockSize: nat) {
    nBlockSize + TxSize(tx) < nBlockMaxSize && COINBASE_SIGOPS + s.nSigOps + R.legacySigOps(tx) < MAX_BLOCK_SIGOPS
  }

  /** Whether a transaction is taken at its turn: not passed over as free, within both limits, and accepted by the rules for blocks. */
  predicate Taken(P: Policy, id: Hash, rank: Rank, byFee: bool, tx: Tx, s: Progress, h: nat, R: Rules, nBlockMaxSize: nat, nBlockSize: nat) {
    && nBlockSize + TxSize(tx) < nBlockMaxSize && !Skipped(P, id, rank, byFee, nBlockSize + TxSize(tx))
    && ConnectTx(s, tx, h, R).Some? && COINBASE_SIGOPS + ConnectTx(s, tx, h, R).value.nSigOps < MAX_BLOCK_SIGOPS
  }

  /** Whether the rest is sorted by fee after the turn of a transaction. */
  predicate ByFeeAfter(P: Policy, id: Hash, rank: Rank, byFee: bool, tx: Tx, s: Progress, R: Rules, nBlockMaxSize: nat, nBlockSize: nat) {
    byFee || (Room(tx, s, R, nBlockMaxSize, nBlockSize) && (nBlockSize + TxSize(tx) >= P.nBlockPrioritySize || !AllowFree(rank.dPriority)))
  }

  /** The checks on one transaction, and what selecting it changes. */
  method TryTx(P: Policy, id: Hash, rank: Rank, byFee: bool, tx: Tx, s: Progress, h: nat, R: Rules, nBlockMaxSize: nat, nBlockSize: nat, nBlockSigOps: nat)
    returns (ok: bool, s': Progress, size: nat, sigOps: nat, byFee': bool)
    requires CheckTransaction(tx) && !tx.IsCoinBase() && nBlockSigOps == COINBASE_SIGOPS + s.nSigOps
    ensures ok <==> Taken(P, id, rank, byFee, tx, s, h, R, nBlockMaxSize, nBlockSize)
    ensures byFee' == ByFeeAfter(P, id, rank, byFee, tx, s, R, nBlockMaxSize, nBlockSize)
    ensures ok ==>
      && ConnectTx(s, tx, h, R) == Some(s')
      && size == nBlockSize + TxSize(tx) < nBlockMaxSize
      && sigOps == COINBASE_SIGOPS + s'.nSigOps < MAX_BLOCK_SIGOPS
    ensures !ok ==> s' == s && size == nBlockSize && sigOps == nBlockSigOps
  {
    hide CheckInputs, SpentOutputs, SpendAll, FromTx, Put, SumsInRange, TxSize;
    ok, s', size, sigOps, byFee' := false, s, nBlockSize, nBlockSigOps, byFee;
    var nTxSize := TxSize(tx);
    if nBlockSize + nTxSize >= nBlockMaxSize {
      return;
    }
    var nTxSigOps := R.legacySigOps(tx);
    if nBlockSigOps + nTxSigOps >= MAX_BLOCK_SIGOPS {
      return;
    }
    if byFee && P.priorityDelta(id) <= 0.0 && P.feeDelta(id) <= 0 && rank.feeRate < P.minRelayTxFee && nBlockSize + nTxSize >= P.nBlockMinSize {
      return;
    }
    if !byFee && (nBlockSize + nTxSize >= P.nBlockPrioritySize || !AllowFree(rank.dPriority)) {
      byFee' := true;
    }
    if !HaveInputs(s.view, tx) {
      return;
    }
    nTxSigOps := nTxSigOps + R.p2shSigOps(tx, SpentOutputs(s.view, tx.vin));
    if nBlockSigOps + nTxSigOps >= MAX_BLOCK_SIGOPS {
      return;
    }
    if !CheckInputs(s.view, tx, h, R) {
      return;
    }
    SpendAllSucceeds(s.view, tx.vin);
    var updated := UpdateCoins(s.view, tx, h).value;
    s' := Progress(updated.0, s.undo + [updated.1], s.fees + Fee(s.view, tx), s.nSigOps + nTxSigOps);
    ok, size, sigOps := true, nBlockSize + nTxSize, nBlockSigOps + nTxSigOps;
  }

  /** What has been selected so far. */
  ghost predicate Selection(pool: Pool, v: View, h: nat, R: Rules, sel: seq<Hash>, s: Progress) {
    && ParentsFirst(pool, v, sel)
    && (forall i :: 0 <= i < |sel| ==> Eligible(pool, R, sel[i]))
    && ConnectTxs(v, Txs(pool, sel), h, R) == Some(s)
  }

  /** The totals are right and within the limits. */
  ghost predicate Limits(pool: Pool, nBlockMaxSize: nat, sel: seq<Hash>, s: Progress, nBlockSize: nat, nBlockSigOps: nat) {
    && (forall i :: 0 <= i < |sel| ==> sel[i] in pool)
    && nBlockSize == COINBASE_SIZE + TxsSize(Txs(pool, sel))
    && nBlockSigOps == COINBASE_SIGOPS + s.nSigOps
    && (sel != [] ==> nBlockSize < nBlockMaxSize) && nBlockSigOps < MAX_BLOCK_SIGOPS
  }

  lemma TxsNext(pool: Pool, sel: seq<Hash>, id: Hash)
    requires id in pool && forall i :: 0 <= i < |sel| ==> sel[i] in pool
    ensures Txs(pool, sel + [id]) == Txs(pool, sel) + [pool[id]]
    ensures Txs(pool, sel + [id])[..|sel|] == Txs(pool, sel)
  {
  }

  lemma LimitsNext(pool: Pool, nBlockMaxSize: nat, sel: seq<Hash>, s: Progress, nBlockSize: nat, nBlockSigOps: nat,
                   id: Hash, s': Progress, size: nat, sigOps: nat)
    requires Limits(pool, nBlockMaxSize, sel, s, nBlockSize, nBlockSigOps) && id in pool
    requires size == nBlockSize + TxSize(pool[id]) < nBlockMaxSize && sigOps == COINBASE_SIGOPS + s'.nSigOps < MAX_BLOCK_SIGOPS
    ensures Limits(pool, nBlockMaxSize, sel + [id], s', size, sigOps)
  {
    hide TxSize, Txs, TxsSize;
    TxsNext(pool, sel, id);
    SizeNext(Txs(pool, sel), pool[id]);
  }

  lemma SizeNext(txs: seq<Tx>, tx: Tx)
    ensures TxsSize(txs + [tx]) == TxsSize(txs) + TxSize(tx)
  {
    hide TxSize;
    assert (txs + [tx])[..|txs|] == txs;
  }

  lemma ParentsFirstNext(pool: Pool, v: View, sel: seq<Hash>, id: Hash)
    requires ParentsFirst(pool, v, sel) && id !in sel && id in pool && Parents(v, pool[id].vin) <= Members(sel)
    ensures ParentsFirst(pool, v, sel + [id]) && Members(sel + [id]) == Members(sel) + {id}
  {
    hide Parents;
    var next := sel + [id];
    forall i | 0 <= i < |next|
      ensures Parents(v, pool[next[i]].vin) <= Members(next[..i])
    {
      if i < |sel| {
        assert next[..i] == sel[..i];
      } else {
        assert next[..i] == sel;
      }
    }
  }

  lemma SelectionNext(pool: Pool, v: View, h: nat, R: Rules, sel: seq<Hash>, s: Progress, id: Hash, s': Progress)
    requires Selection(pool, v, h, R, sel, s) && id !in sel && Ready(pool, v, R, id, Members(sel))
    requires ConnectTx(s, pool[id], h, R) == Some(s')
    ensures Selection(pool, v, h, R, sel + [id], s') && Members(sel + [id]) == Members(sel) + {id}
  {
    hide ConnectTx, Parents, Members;
    TxsNext(pool, sel, id);
    ParentsFirstNext(pool, v, sel, id);
  }

  /** Taking any transaction off the queue. */
  lemma QueuePop(pool: Pool, v: View, R: Rules, vec: seq<Hash>, popped: seq<Hash>, selected: set<Hash>, k: nat)
    requires QueueOk(pool, v, R, vec, Members(popped), selected) && k < |vec| && Distinct(popped)
    ensures Distinct(popped + [vec[k]]) && Members(popped + [vec[k]]) == Members(popped) + {vec[k]}
    ensures QueueOk(pool, v, R, vec[..k] + vec[k + 1..], Members(popped + [vec[k]]), selected)
    ensures vec[k] !in Members(popped) && Ready(pool, v, R, vec[k], selected)
  {
    hide Parents;
    MembersAppend(popped, vec[k]);
    QueueWithout(pool, v, R, vec, Members(popped), selected, k);
    DistinctJoin(popped, [vec[k]]);
  }

  lemma QueueWithout(pool: Pool, v: View, R: Rules, vec: seq<Hash>, popped: set<Hash>, selected: set<Hash>, k: nat)
    requires QueueOk(pool, v, R, vec, popped, selected) && k < |vec|
    ensures QueueOk(pool, v, R, vec[..k] + vec[k + 1..], popped + {vec[k]}, selected)
    ensures vec[k] !in popped && Ready(pool, v, R, vec[k], selected)
  {
    var rest := vec[..k] + vec[k + 1..];
    forall i, j | 0 <= i < j < |rest|
      ensures rest[i] != rest[j]
    {
      assert rest[i] == vec[if i < k then i else i + 1] && rest[j] == vec[if j < k then j else j + 1];
    }
    forall x
      ensures x in rest <==> x in vec && x != vec[k]
    {
      if x in vec && x != vec[k] {
        var i :| 0 <= i < |vec| && vec[i] == x;
        assert rest[if i < k then i else i - 1] == x;
      }
      if x in rest {
        var i :| 0 <= i < |rest| && rest[i] == x;
        assert vec[if i < k then i else i + 1] == x;
      }
    }
    assert vec[k] in vec;
  }

  /** A round that selected `id`: release what waited for it. */
  method Enqueue(pool: Pool, v: View, R: Rules, w: Waiting, dependsOn: map<Hash, set<Hash>>, id: Hash, vec: seq<Hash>,
                 ghost selected: set<Hash>, ghost popped: set<Hash>)
    returns (dependsOn': map<Hash, set<Hash>>, vec': seq<Hash>)
    requires WaitingOk(w, pool, v, R, pool.Keys) && dependsOn.Keys == w.dependsOn.Keys && WaitsFor(pool, v, dependsOn, selected)
    requires QueueOk(pool, v, R, vec, popped, selected)
    ensures dependsOn'.Keys == w.dependsOn.Keys && WaitsFor(pool, v, dependsOn', selected + {id})
    ensures QueueOk(pool, v, R, vec', popped, selected + {id})
  {
    hide Parents, QueueOk, WaitsFor;
    var list := if id in w.dependers then w.dependers[id] else [];
    forall c
      ensures c in list <==> Names(w.dependers, id, c)
      ensures c in list ==> c in dependsOn
    {
    }
    var queued;
    dependsOn', queued := Release(dependsOn, list, id);
    WaitsNext(pool, v, R, w, dependsOn, selected, id, list, dependsOn');
    QueueNext(pool, v, R, w, dependsOn, selected, id, list, queued, vec, popped);
    vec' := vec + queued;
  }

  /** The turn of a transaction: how the rest was sorted, the block as it stood, and whether it was taken. */
  datatype Round = Round(id: Hash, byFee: bool, size: nat, s: Progress, taken: bool)

  function Ids(rounds: seq<Round>): (ids: seq<Hash>)
    ensures |ids| == |rounds| && forall i :: 0 <= i < |ids| ==> ids[i] == rounds[i].id
  {
    seq(|rounds|, i requires 0 <= i < |rounds| => rounds[i].id)
  }

  function TakenIds(rounds: seq<Round>): seq<Hash> {
    if rounds == [] then []
    else
      var k := |rounds| - 1;
      TakenIds(rounds[..k]) + if rounds[k].taken then [rounds[k].id] else []
  }

  /** Whether the rest is sorted by fee after some turns. */
  predicate ByFee(pool: Pool, v: View, R: Rules, P: Policy, nBlockMaxSize: nat, before: seq<Round>) {
    if before == [] then P.nBlockPrioritySize == 0
    else
      var r := before[|before| - 1];
      r.id in pool && ByFeeAfter(P, r.id, RankOf(pool, v, P, r.id), r.byFee, pool[r.id], r.s, R, nBlockMaxSize, r.size)
  }

  /** Of all that are ready and had no turn yet, `top` has the highest rank. */
  ghost predicate Highest(pool: Pool, v: View, R: Rules, P: Policy, selected: set<Hash>, popped: seq<Hash>, byFee: bool, top: Hash) {
    && top in pool && top !in popped && Ready(pool, v, R, top, selected)
    && forall id :: id in pool && id !in popped && Ready(pool, v, R, id, selected) ==>
         AtLeast(byFee, RankOf(pool, v, P, top), RankOf(pool, v, P, id))
  }

  /**
    A turn, after some others: it is that of the highest rank among those that
    are ready and had no turn yet, and is used exactly if the rules say so.
   */
  ghost predicate RoundOk(pool: Pool, v: View, h: nat, R: Rules, P: Policy, nBlockMaxSize: nat, before: seq<Round>, r: Round) {
    var sel := TakenIds(before);
    && Selection(pool, v, h, R, sel, r.s) && r.size == COINBASE_SIZE + TxsSize(Txs(pool, sel))
    && Highest(pool, v, R, P, Members(sel), Ids(before), r.byFee, r.id)
    && r.byFee == ByFee(pool, v, R, P, nBlockMaxSize, before)
    && (r.taken <==> Taken(P, r.id, RankOf(pool, v, P, r.id), r.byFee, pool[r.id], r.s, h, R, nBlockMaxSize, r.size))
  }

  ghost predicate RoundsOk(pool: Pool, v: View, h: nat, R: Rules, P: Policy, nBlockMaxSize: nat, rounds: seq<Round>) {
    forall i :: 0 <= i < |rounds| ==> RoundOk(pool, v, h, R, P, nBlockMaxSize, rounds[..i], rounds[i])
  }

  lemma RoundsNext(pool: Pool, v: View, h: nat, R: Rules, P: Policy, nBlockMaxSize: nat, rounds: seq<Round>, r: Round)
    requires RoundsOk(pool, v, h, R, P, nBlockMaxSize, rounds) && RoundOk(pool, v, h, R, P, nBlockMaxSize, rounds, r)
    ensures RoundsOk(pool, v, h, R, P, nBlockMaxSize, rounds + [r])
    ensures TakenIds(rounds + [r]) == TakenIds(rounds) + if r.taken then [r.id] else []
    ensures Ids(rounds + [r]) == Ids(rounds) + [r.id]
  {
    hide RoundOk;
    var next := rounds + [r];
    assert next[..|rounds|] == rounds;
    forall i | 0 <= i < |next|
      ensures RoundOk(pool, v, h, R, P, nBlockMaxSize, next[..i], next[i])
    {
      assert i < |rounds| ==> next[..i] == rounds[..i];
    }
  }

  /** The top of the queue has the highest rank of all that are ready. */
  lemma TopIsHighest(pool: Pool, v: View, R: Rules, P: Policy, ranks: map<Hash, Rank>, vec: seq<Hash>, popped: seq<Hash>, selected: set<Hash>,
                     byFee: bool, k: nat)
    requires Ranked(ranks, pool, v, R, P, pool.Keys) && QueueOk(pool, v, R, vec, Members(popped), selected)
    requires k < |vec| && forall i :: 0 <= i < |vec| ==> vec[i] in ranks
    requires forall i :: 0 <= i < |vec| ==> AtLeast(byFee, ranks[vec[k]], ranks[vec[i]])
    ensures Highest(pool, v, R, P, selected, popped, byFee, vec[k])
  {
    hide Ready, AtLeast, RankOf, Distinct;
    var top := vec[k];
    assert top in vec && top !in Members(popped);
    ReadyInPool(pool, v, R, top, selected);
    forall id | id in pool && id !in popped && Ready(pool, v, R, id, selected)
      ensures AtLeast(byFee, RankOf(pool, v, P, top), RankOf(pool, v, P, id))
    {
      assert id !in Members(popped);
      var i :| 0 <= i < |vec| && vec[i] == id;
      assert ranks[vec[i]] == RankOf(pool, v, P, id) && ranks[top] == RankOf(pool, v, P, top);
    }
  }

  lemma ReadyInPool(pool: Pool, v: View, R: Rules, id: Hash, selected: set<Hash>)
    requires Ready(pool, v, R, id, selected)
    ensures id in pool
  {
  }

  lemma QueuedRanked(pool: Pool, v: View, R: Rules, P: Policy, ranks: map<Hash, Rank>, vec: seq<Hash>, popped: set<Hash>, selected: set<Hash>)
    requires Ranked(ranks, pool, v, R, P, pool.Keys) && QueueOk(pool, v, R, vec, popped, selected)
    ensures forall i :: 0 <= i < |vec| ==> vec[i] in ranks && ranks[vec[i]] == RankOf(pool, v, P, vec[i])
  {
    hide Parents, RankOf, Distinct;
    forall i | 0 <= i < |vec|
      ensures vec[i] in ranks
    {
      assert vec[i] in vec;
    }
  }

  /**
    The selection loop. Everything that becomes ready has exactly one turn, in
    the order of the ranks, and is taken exactly if the rules say so. No output
    is spent twice by what was taken.
   */
  method Select(pool: Pool, v: View, h: nat, R: Rules, P: Policy, nBlockMaxSize: nat)
    returns (sel: seq<Hash>, s: Progress, nBlockSize: nat, nBlockSigOps: nat, ghost rounds: seq<Round>)
    requires PoolOk(pool, v)
    ensures Selection(pool, v, h, R, sel, s) && Limits(pool, nBlockMaxSize, sel, s, nBlockSize, nBlockSigOps)
    ensures RoundsOk(pool, v, h, R, P, nBlockMaxSize, rounds) && sel == TakenIds(rounds)
    ensures Distinct(Ids(rounds)) && forall id :: id in Ids(rounds) <==> Ready(pool, v, R, id, Members(sel))
    ensures SpendsOnce(Txs(pool, sel))
  {
    hide Parents, QueueOk, WaitsFor, WaitingOk, Ranked, RankOf, AtLeast, Highest, ConnectTx, Selection, Limits, Distinct, SpendsOnce, RoundsOk, RoundOk,
         Taken, ByFeeAfter, ByFee, TakenIds, Members, Ids, TxSize, CheckTransaction;
    var w, vec, ranks := Collect(pool, v, R, P);
    var dependsOn, fSortedByFee := w.dependsOn, P.nBlockPrioritySize == 0;
    sel, s, nBlockSize, nBlockSigOps, rounds := [], Progress(v, [], 0, 0), COINBASE_SIZE, COINBASE_SIGOPS, [];
    StartSelecting(pool, v, h, R, P, nBlockMaxSize, w, vec);
    while vec != []
      invariant dependsOn.Keys == w.dependsOn.Keys && WaitsFor(pool, v, dependsOn, Members(sel))
      invariant QueueOk(pool, v, R, vec, Members(Ids(rounds)), Members(sel)) && Distinct(Ids(rounds))
      invariant Members(Ids(rounds)) <= pool.Keys
      invariant Selection(pool, v, h, R, sel, s) && Limits(pool, nBlockMaxSize, sel, s, nBlockSize, nBlockSigOps)
      invariant RoundsOk(pool, v, h, R, P, nBlockMaxSize, rounds) && sel == TakenIds(rounds)
      invariant fSortedByFee == ByFee(pool, v, R, P, nBlockMaxSize, rounds)
      decreases |pool.Keys - Members(Ids(rounds))|
    {
      QueuedRanked(pool, v, R, P, ranks, vec, Members(Ids(rounds)), Members(sel));
      var k := Top(vec, ranks, fSortedByFee);
      var id := vec[k];
      TopIsHighest(pool, v, R, P, ranks, vec, Ids(rounds), Members(sel), fSortedByFee, k);
      QueuePop(pool, v, R, vec, Ids(rounds), Members(sel), k);
      Shrinks(pool.Keys, Members(Ids(rounds)), id);
      NoTurnYet(rounds, id);
      vec := vec[..k] + vec[k + 1..];
      Counted(pool, nBlockMaxSize, sel, s, nBlockSize, nBlockSigOps);
      PoolChecked(pool, v, R, id, Members(sel));
      var ok, s', size, sigOps, byFee := TryTx(P, id, ranks[id], fSortedByFee, pool[id], s, h, R, nBlockMaxSize, nBlockSize, nBlockSigOps);
      ghost var r := Round(id, fSortedByFee, nBlockSize, s, ok);
      RoundIsOk(pool, v, h, R, P, nBlockMaxSize, rounds, sel, r);
      RoundsNext(pool, v, h, R, P, nBlockMaxSize, rounds, r);
      ByFeeNext(pool, v, R, P, nBlockMaxSize, rounds, r);
      fSortedByFee := byFee;
      if ok {
        LimitsNext(pool, nBlockMaxSize, sel, s, nBlockSize, nBlockSigOps, id, s', size, sigOps);
        SelectionNext(pool, v, h, R, sel, s, id, s');
        dependsOn, vec := Enqueue(pool, v, R, w, dependsOn, id, vec, Members(sel), Members(Ids(rounds + [r])));
        sel, s, nBlockSize, nBlockSigOps := sel + [id], s', size, sigOps;
      }
      rounds := rounds + [r];
    }
    QueueEmpty(pool, v, R, Ids(rounds), Members(sel));
    SelectedSpendOnce(pool, v, h, R, sel, s);
  }

  lemma RoundIsOk(pool: Pool, v: View, h: nat, R: Rules, P: Policy, nBlockMaxSize: nat, before: seq<Round>, sel: seq<Hash>, r: Round)
    requires sel == TakenIds(before) && Selection(pool, v, h, R, sel, r.s) && r.size == COINBASE_SIZE + TxsSize(Txs(pool, sel))
    requires Highest(pool, v, R, P, Members(sel), Ids(before), r.byFee, r.id)
    requires r.byFee == ByFee(pool, v, R, P, nBlockMaxSize, before)
    requires r.taken <==> Taken(P, r.id, RankOf(pool, v, P, r.id), r.byFee, pool[r.id], r.s, h, R, nBlockMaxSize, r.size)
    ensures RoundOk(pool, v, h, R, P, nBlockMaxSize, before, r)
  {
    hide ByFee, Taken, TakenIds, RankOf;
  }

  lemma ByFeeNext(pool: Pool, v: View, R: Rules, P: Policy, nBlockMaxSize: nat, before: seq<Round>, r: Round)
    requires r.id in pool
    ensures ByFee(pool, v, R, P, nBlockMaxSize, before + [r]) ==
      ByFeeAfter(P, r.id, RankOf(pool, v, P, r.id), r.byFee, pool[r.id], r.s, R, nBlockMaxSize, r.size)
  {
    hide ByFeeAfter, RankOf;
  }

  /** Whatever was taken had its turn. */
  lemma {:induction false} TakenAtTurn(rounds: seq<Round>, id: Hash)
    requires id in TakenIds(rounds)
    ensures id in Ids(rounds)
  {
    var k := |rounds| - 1;
    if rounds[k].taken && rounds[k].id == id {
      assert Ids(rounds)[k] == id;
    } else {
      TakenAtTurn(rounds[..k], id);
      var i :| 0 <= i < k && Ids(rounds[..k])[i] == id;
      assert Ids(rounds)[i] == id;
    }
  }

  lemma NoTurnYet(rounds: seq<Round>, id: Hash)
    requires id !in Members(Ids(rounds))
    ensures id !in TakenIds(rounds) && id !in Ids(rounds)
  {
    hide TakenIds, Ids;
    if id in TakenIds(rounds) {
      TakenAtTurn(rounds, id);
    }
    assert id in Ids(rounds) ==> id in Members(Ids(rounds));
  }

  lemma PoolChecked(pool: Pool, v: View, R: Rules, id: Hash, selected: set<Hash>)
    requires PoolOk(pool, v) && Ready(pool, v, R, id, selected)
    ensures id in pool && CheckTransaction(pool[id]) && !pool[id].IsCoinBase()
  {
    hide CheckTransaction, Parents;
  }

  lemma Counted(pool: Pool, nBlockMaxSize: nat, sel: seq<Hash>, s: Progress, nBlockSize: nat, nBlockSigOps: nat)
    requires Limits(pool, nBlockMaxSize, sel, s, nBlockSize, nBlockSigOps)
    ensures nBlockSigOps == COINBASE_SIGOPS + s.nSigOps
    ensures (forall i :: 0 <= i < |sel| ==> sel[i] in pool) && nBlockSize == COINBASE_SIZE + TxsSize(Txs(pool, sel))
  {
  }

  lemma Shrinks(all: set<Hash>, popped: set<Hash>, id: Hash)
    requires id in all && id !in popped
    ensures |all - (popped + {id})| < |all - popped|
  {
    assert all - (popped + {id}) == all - popped - {id};
  }

  lemma QueueEmpty(pool: Pool, v: View, R: Rules, popped: seq<Hash>, selected: set<Hash>)
    requires QueueOk(pool, v, R, [], Members(popped), selected)
    ensures forall id :: id in popped <==> Ready(pool, v, R, id, selected)
  {
    hide Ready;
    forall id
      ensures id in popped <==> Ready(pool, v, R, id, selected)
    {
      assert id in popped <==> id in Members(popped);
    }
  }

  lemma StartSelecting(pool: Pool, v: View, h: nat, R: Rules, P: Policy, nBlockMaxSize: nat, w: Waiting, vec: seq<Hash>)
    requires WaitingOk(w, pool, v, R, pool.Keys) && Distinct(vec) && forall id :: id in vec <==> Ready(pool, v, R, id, {})
    ensures WaitsFor(pool, v, w.dependsOn, Members([])) && QueueOk(pool, v, R, vec, Members(Ids([])), Members([])) && Distinct(Ids([]))
    ensures Selection(pool, v, h, R, [], Progress(v, [], 0, 0)) && Limits(pool, nBlockMaxSize, [], Progress(v, [], 0, 0), COINBASE_SIZE, COINBASE_SIGOPS)
    ensures RoundsOk(pool, v, h, R, P, nBlockMaxSize, []) && TakenIds([]) == [] && Members(Ids([])) == {}
    ensures ByFee(pool, v, R, P, nBlockMaxSize, []) == (P.nBlockPrioritySize == 0)
  {
    hide Parents;
    assert Members<Hash>([]) == {};
    assert Ids([]) == [];
    assert Txs(pool, []) == [];
  }

  // ---------------------------------------------------------------------------
  // Nothing is spent twice
  // ---------------------------------------------------------------------------

  /** No output is spent twice, within a transaction or by two of them. */
  ghost predicate SpendsOnce(txs: seq<Tx>) {
    && (forall i :: 0 <= i < |txs| ==> DistinctInputs(txs[i]))
    && (forall i, k, p :: 0 <= i < k < |txs| && SpendsFrom(txs[i].vin, p) ==> !SpendsFrom(txs[k].vin, p))
  }

  /** What an input refers to is in the view or among the parents. */
  lemma {:induction false} InViewOrParent(v: View, ins: seq<TxIn>, p: OutPoint)
    requires SpendsFrom(ins, p)
    ensures p.hash in v || p.hash in Parents(v, ins)
  {
    var k := |ins| - 1;
    SpendsFromLast(ins, p);
    if SpendsFrom(ins[..k], p) {
      InViewOrParent(v, ins[..k], p);
    }
  }

  /** Nothing from place `i` on makes a transaction that the one at `i` spends from. */
  lemma NotMadeLater(pool: Pool, v: View, sel: seq<Hash>, i: nat, m: nat, p: OutPoint)
    requires PoolOk(pool, v) && ParentsFirst(pool, v, sel) && i <= m < |sel| && SpendsFrom(pool[sel[i]].vin, p)
    ensures sel[m] != p.hash
  {
    hide Parents;
    InViewOrParent(v, pool[sel[i]].vin, p);
    if p.hash !in v {
      assert p.hash in Members(sel[..i]);
    }
  }

  lemma FoundUnspent(v: View, txs: seq<Tx>, k: nat, h: nat, rules: Rules, p: OutPoint)
    requires k < |txs| && ConnectTxs(v, txs, h, rules).Some? && !txs[k].IsCoinBase() && SpendsFrom(txs[k].vin, p)
    ensures ConnectTxs(v, txs[..k], h, rules).Some? && Unspent(ConnectTxs(v, txs[..k], h, rules).value.view, p)
  {
    ConnectTxsPrefix(v, txs, k + 1, h, rules);
    ConnectTxsNext(v, txs, k, h, rules);
    SpentIsUnspent(ConnectTxs(v, txs[..k], h, rules).value.view, txs[k], p);
  }

  lemma SpentIsUnspent(v: View, tx: Tx, p: OutPoint)
    requires HaveInputs(v, tx) && SpendsFrom(tx.vin, p)
    ensures Unspent(v, p)
  {
  }

  /** Two selected transactions never spend the same output: after the first it is gone, and nobody makes it again. */
  lemma SelectedSpendOnce(pool: Pool, v: View, h: nat, R: Rules, sel: seq<Hash>, s: Progress)
    requires PoolOk(pool, v) && Selection(pool, v, h, R, sel, s)
    ensures SpendsOnce(Txs(pool, sel))
  {
    hide ConnectTxs, Parents, CheckTransaction, ParentsFirst;
    var txs := Txs(pool, sel);
    forall i, k, p | 0 <= i < k < |sel| && SpendsFrom(txs[i].vin, p)
      ensures !SpendsFrom(txs[k].vin, p)
    {
      SecondSpendFails(pool, v, h, R, sel, s, i, k, p);
    }
    forall i | 0 <= i < |txs|
      ensures DistinctInputs(txs[i])
    {
      assert sel[i] in pool && CheckTransaction(pool[sel[i]]);
      CheckedDistinct(txs[i]);
    }
  }

  lemma CheckedDistinct(tx: Tx)
    requires CheckTransaction(tx)
    ensures DistinctInputs(tx)
  {
  }

  lemma SecondSpendFails(pool: Pool, v: View, h: nat, R: Rules, sel: seq<Hash>, s: Progress, i: nat, k: nat, p: OutPoint)
    requires PoolOk(pool, v) && Selection(pool, v, h, R, sel, s) && i < k < |sel| && SpendsFrom(pool[sel[i]].vin, p)
    ensures !SpendsFrom(pool[sel[k]].vin, p)
  {
    hide ConnectTxs, Parents, CheckTransaction;
    var txs := Txs(pool, sel);
    if SpendsFrom(txs[k].vin, p) {
      FoundUnspent(v, txs, k, h, R, p);
      forall m | i <= m < k
        ensures txs[m].txid != p.hash
      {
        NotMadeLater(pool, v, sel, i, m, p);
      }
      StaysSpent(v, txs, k, h, R, i, p);
    }
  }

  /** A coinbase in front spends nothing that a transaction can spend. */
  lemma CoinbaseSpendsNothing(cb: Tx, txs: seq<Tx>)
    requires cb.IsCoinBase() && SpendsOnce(txs)
    requires forall i :: 0 <= i < |txs| ==> !txs[i].IsCoinBase() && CheckTransaction(txs[i])
    ensures SpendsOnce([cb] + txs)
  {
    var block := [cb] + txs;
    forall i, k, p | 0 <= i < k < |block| && SpendsFrom(block[i].vin, p)
      ensures !SpendsFrom(block[k].vin, p)
    {
      assert block[k] == txs[k - 1];
      assert i > 0 ==> block[i] == txs[i - 1];
    }
  }

  // ---------------------------------------------------------------------------
  // The block connects
  // ---------------------------------------------------------------------------

  predicate Avoids(tx: Tx, id: Hash) {
    tx.txid != id && forall i :: 0 <= i < |tx.vin| ==> tx.vin[i].prevout.hash != id
  }

  lemma {:induction false} SpendAllExtra(v: View, ins: seq<TxIn>, id: Hash, c: Coins)
    requires id !in v && forall i :: 0 <= i < |ins| ==> ins[i].prevout.hash != id
    ensures SpendAll(v[id := c], ins) ==
      match SpendAll(v, ins) case None => None case Some((w, undo)) => Some((w[id := c], undo))
    ensures SpendAll(v, ins).Some? ==> id !in SpendAll(v, ins).value.0
  {
    if ins != [] {
      var k := |ins| - 1;
      SpendAllExtra(v, ins[..k], id, c);
      if SpendAll(v, ins[..k]).Some? {
        var w, p := SpendAll(v, ins[..k]).value.0, ins[k].prevout;
        if Unspent(w, p) {
          SpendOneExtra(w, p, id, c);
        }
      }
    }
  }

  lemma SpendOneExtra(v: View, p: OutPoint, id: Hash, c: Coins)
    requires Unspent(v, p) && p.hash != id && id !in v
    ensures SpendOne(v[id := c], p) == SpendOne(v, p)[id := c] && id !in SpendOne(v, p)
  {
  }

  lemma {:induction false} SpentOutputsExtra(v: View, ins: seq<TxIn>, id: Hash, c: Coins)
    requires forall i :: 0 <= i < |ins| ==> ins[i].prevout.hash != id
    requires AllUnspent(v, ins) && AllUnspent(v[id := c], ins)
    ensures SpentOutputs(v[id := c], ins) == SpentOutputs(v, ins)
  {
    if ins != [] {
      SpentOutputsExtra(v, ins[..|ins| - 1], id, c);
      assert Unspent(v, ins[|ins| - 1].prevout);
    }
  }

  /** The same state with one more record, and some signature operations counted before. */
  function Extra(s: Progress, id: Hash, c: Coins, n: nat): Progress {
    s.(view := s.view[id := c], nSigOps := s.nSigOps + n)
  }

  /** A record that a transaction does not touch makes no difference to it, nor do signature operations within the limit. */
  lemma ConnectTxExtra(s: Progress, tx: Tx, h: nat, rules: Rules, id: Hash, c: Coins, n: nat)
    requires id !in s.view && Avoids(tx, id) && !tx.IsCoinBase() && ConnectTx(s, tx, h, rules).Some?
    requires ConnectTx(s, tx, h, rules).value.nSigOps + n <= MAX_BLOCK_SIGOPS
    ensures
      var t := ConnectTx(s, tx, h, rules).value;
      id !in t.view && ConnectTx(Extra(s, id, c, n), tx, h, rules) == Some(Extra(t, id, c, n))
  {
    hide CheckInputs, SpentOutputs, SpendAll, FromTx, Put;
    var v := s.view;
    CheckInputsExtra(v, tx, h, rules, id, c);
    SpendAllExtra(v, tx.vin, id, c);
    PutExtra(SpendAll(v, tx.vin).value.0, tx.txid, FromTx(tx, h), id, c);
  }

  lemma CheckInputsExtra(v: View, tx: Tx, h: nat, rules: Rules, id: Hash, c: Coins)
    requires Avoids(tx, id) && HaveInputs(v, tx)
    ensures HaveInputs(v[id := c], tx) && Fee(v[id := c], tx) == Fee(v, tx)
    ensures CheckInputs(v[id := c], tx, h, rules) == CheckInputs(v, tx, h, rules)
    ensures SpentOutputs(v[id := c], tx.vin) == SpentOutputs(v, tx.vin)
  {
    hide SpentOutputs, SumsInRange, SumValues;
    forall i | 0 <= i < |tx.vin|
      ensures Unspent(v[id := c], tx.vin[i].prevout) && v[id := c][tx.vin[i].prevout.hash] == v[tx.vin[i].prevout.hash]
    {
      assert Unspent(v, tx.vin[i].prevout);
    }
    SpentOutputsExtra(v, tx.vin, id, c);
  }

  lemma PutExtra(v: View, key: Hash, k: Coins, id: Hash, c: Coins)
    requires key != id && id !in v
    ensures Put(v[id := c], key, k) == Put(v, key, k)[id := c] && id !in Put(v, key, k)
  {
  }

  /** The signature operations counted never get fewer. */
  lemma SigOpsGrow(s: Progress, tx: Tx, h: nat, rules: Rules)
    requires ConnectTx(s, tx, h, rules).Some?
    ensures ConnectTx(s, tx, h, rules).value.nSigOps >= s.nSigOps + rules.legacySigOps(tx)
  {
    hide CheckInputs, SpendAll, FromTx, Put;
  }

  /** The count of `ConnectBlock` covers that of `CheckBlock`. */
  lemma {:induction false} LegacyCounted(v: View, txs: seq<Tx>, h: nat, rules: Rules)
    requires ConnectTxs(v, txs, h, rules).Some?
    ensures LegacySigOps(txs, rules.legacySigOps) <= ConnectTxs(v, txs, h, rules).value.nSigOps
  {
    hide ConnectTx;
    if txs != [] {
      var k := |txs| - 1;
      LegacyCounted(v, txs[..k], h, rules);
      SigOpsGrow(ConnectTxs(v, txs[..k], h, rules).value, txs[k], h, rules);
    }
  }

  /**
    With the coinbase in front, the same transactions connect, with the same
    fees, as long as its signature operations are within the limit too.
   */
  lemma {:induction false} WithCoinbase(v: View, cb: Tx, txs: seq<Tx>, h: nat, rules: Rules)
    requires cb.IsCoinBase() && cb.txid !in v
    requires forall i :: 0 <= i < |txs| ==> !txs[i].IsCoinBase() && Avoids(txs[i], cb.txid)
    requires ConnectTxs(v, txs, h, rules).Some?
    requires ConnectTxs(v, txs, h, rules).value.nSigOps + rules.legacySigOps(cb) <= MAX_BLOCK_SIGOPS
    ensures
      var s := ConnectTxs(v, txs, h, rules).value;
      && cb.txid !in s.view
      && ConnectTxs(v, [cb] + txs, h, rules)
         == Some(s.(view := Put(s.view, cb.txid, FromTx(cb, h)), nSigOps := s.nSigOps + rules.legacySigOps(cb)))
  {
    hide ConnectTx, FromTx, Avoids, Put;
    var c, n := FromTx(cb, h), rules.legacySigOps(cb);
    if txs == [] {
      OnlyCoinbase(v, cb, h, rules);
      assert [cb] + txs == [cb];
    } else {
      var k := |txs| - 1;
      var s := ConnectTxs(v, txs[..k], h, rules).value;
      SigOpsGrow(s, txs[k], h, rules);
      WithCoinbase(v, cb, txs[..k], h, rules);
      assert ([cb] + txs)[..k + 1] == [cb] + txs[..k] && ([cb] + txs)[k + 1] == txs[k];
      CoinbaseApart(s, txs[k], h, rules, cb.txid, c, n);
    }
  }

  /** One transaction with a coinbase in front that it does not touch. */
  lemma CoinbaseApart(s: Progress, tx: Tx, h: nat, rules: Rules, id: Hash, c: Coins, n: nat)
    requires id !in s.view && Avoids(tx, id) && !tx.IsCoinBase() && ConnectTx(s, tx, h, rules).Some?
    requires ConnectTx(s, tx, h, rules).value.nSigOps + n <= MAX_BLOCK_SIGOPS
    ensures
      var t := ConnectTx(s, tx, h, rules).value;
      && id !in t.view
      && ConnectTx(s.(view := Put(s.view, id, c), nSigOps := s.nSigOps + n), tx, h, rules)
         == Some(t.(view := Put(t.view, id, c), nSigOps := t.nSigOps + n))
  {
    hide ConnectTx, Put, Avoids;
    ConnectTxExtra(s, tx, h, rules, id, c, n);
    ConnectTxLater(s, tx, h, rules, n);
    Untouched(s.view, id, c);
    Untouched(ConnectTx(s, tx, h, rules).value.view, id, c);
  }

  lemma ConnectTxLater(s: Progress, tx: Tx, h: nat, rules: Rules, n: nat)
    requires ConnectTx(s, tx, h, rules).Some? && ConnectTx(s, tx, h, rules).value.nSigOps + n <= MAX_BLOCK_SIGOPS
    ensures
      var t := ConnectTx(s, tx, h, rules).value;
      ConnectTx(s.(nSigOps := s.nSigOps + n), tx, h, rules) == Some(t.(nSigOps := t.nSigOps + n))
  {
    hide CheckInputs, SpentOutputs, SpendAll, FromTx, Put;
  }

  lemma Untouched(v: View, id: Hash, c: Coins)
    requires id !in v
    ensures Put(v, id, c) == if c.IsPruned() then v else v[id := c]
  {
    assert v - {id} == v;
  }

  function Coinbase(txid: Hash, nVersion: int, scriptSig: seq<Byte>, script: seq<Byte>, nValue: int): Tx {
    Tx(txid, nVersion, [TxIn(OutPoint(0, NULL_INDEX), scriptSig)], [TxOut(nValue, script)])
  }

  /** "-blockmaxsize", limited to between 1000 and `MAX_BLOCK_SIZE` less 1000. */
  function ClampSize(n: nat): nat {
    if n > MAX_BLOCK_SIZE - 1000 then MAX_BLOCK_SIZE - 1000 else if n < 1000 then 1000 else n
  }

  function Min(a: nat, b: nat): nat {
    if a < b then a else b
  }

  /** "-blockminsize" and "-blockprioritysize" are limited by "-blockmaxsize". */
  function Clamped(P: Policy, nBlockMaxSize: nat): Policy {
    P.(nBlockMinSize := Min(nBlockMaxSize, P.nBlockMinSize), nBlockPrioritySize := Min(nBlockMaxSize, P.nBlockPrioritySize))
  }

  /** The coinbase, with the header and the count of transactions, takes no more than is set aside for it. */
  predicate SmallCoinbase(cb: Tx, R: Rules) {
    BLOCK_HEADER_SIZE + 9 + TxSize(cb) <= 2 * COINBASE_SIZE && R.legacySigOps(cb) <= COINBASE_SIGOPS
  }

  /**
    `CreateNewBlock`: the block it makes is one that `ConnectBlock` accepts,
    size and signature operations included, exactly if its reward is an amount
    of money that can exist; and that it always is while the unspent outputs
    leave room for one more subsidy, which can be told beforehand.
   */
  method CreateNewBlock(pool: Pool, v: View, h: nat, R: Rules, P: Policy, blockMaxSize: nat, cbid: Hash, scriptSig: seq<Byte>, script: seq<Byte>)
    returns (block: seq<Tx>, nFees: int, ghost rounds: seq<Round>)
    requires PoolOk(pool, v) && 2 <= |scriptSig| <= 100
    requires cbid !in v && cbid !in pool && forall id :: id in pool ==> Avoids(pool[id], cbid)
    ensures block != [] && block[0] == Coinbase(cbid, 1, scriptSig, script, BlockValue(h, nFees))
    ensures SmallCoinbase(block[0], R) ==>
      (ConnectBlock(v, block, h, R).Some? <==> MoneyRange(BlockValue(h, nFees)))
    ensures SmallCoinbase(block[0], R) && Wf(v) && h >= 1 && Supply.Total(v) + Subsidy(h) <= MAX_MONEY ==>
      ConnectBlock(v, block, h, R).Some?
    ensures ParentsFirst(pool, v, TakenIds(rounds)) && block[1..] == Txs(pool, TakenIds(rounds)) && SpendsOnce(block)
    ensures RoundsOk(pool, v, h, R, Clamped(P, ClampSize(blockMaxSize)), ClampSize(blockMaxSize), rounds)
    ensures Distinct(Ids(rounds)) && forall id :: id in Ids(rounds) <==> Ready(pool, v, R, id, Members(TakenIds(rounds)))
    ensures TakenIds(rounds) != [] ==> COINBASE_SIZE + TxsSize(block[1..]) < ClampSize(blockMaxSize)
    ensures ConnectTxs(v, block[1..], h, R).Some? && COINBASE_SIGOPS + ConnectTxs(v, block[1..], h, R).value.nSigOps < MAX_BLOCK_SIGOPS
    ensures Wf(v) && h >= 1 ==>
      nFees == Supply.Total(v) - Supply.Total(ConnectTxs(v, block[1..], h, R).value.view) - Supply.BurntIn(block[1..])
  {
    hide ConnectTxs, Parents, SpendsOnce, TxSize, TxsSize, WithinLimits, SmallCoinbase, RoundsOk, TakenIds, Wf, Supply.Total, Supply.BurntIn;
    var nBlockMaxSize := ClampSize(blockMaxSize);
    var sel, s, size, sigOps;
    sel, s, size, sigOps, rounds := Select(pool, v, h, R, Clamped(P, nBlockMaxSize), nBlockMaxSize);
    nFees := s.fees;
    var cb := Coinbase(cbid, 1, scriptSig, script, BlockValue(h, nFees));
    var txs := Txs(pool, sel);
    block := [cb] + txs;
    assert block[1..] == txs;
    if SmallCoinbase(cb, R) {
      FitsInBlock(v, cb, txs, h, R, s);
    }
    if Wf(v) && h >= 1 {
      SelectedFees(pool, v, h, R, sel, s);
    }
    if Wf(v) && h >= 1 && Supply.Total(v) + Subsidy(h) <= MAX_MONEY {
      RewardExists(pool, v, h, R, sel, s);
    }
    RewardRange(cb);
    BlockChecks(cb, txs, v);
    CoinbaseSpendsNothing(cb, txs);
  }

  /** What the limits of the selection leave is enough for a small coinbase. */
  lemma FitsInBlock(v: View, cb: Tx, txs: seq<Tx>, h: nat, R: Rules, s: Progress)
    requires cb.IsCoinBase() && cb.txid !in v && SmallCoinbase(cb, R) && ConnectTxs(v, txs, h, R) == Some(s)
    requires forall i :: 0 <= i < |txs| ==> !txs[i].IsCoinBase() && Avoids(txs[i], cb.txid)
    requires txs != [] ==> COINBASE_SIZE + TxsSize(txs) < MAX_BLOCK_SIZE - 1000
    requires COINBASE_SIGOPS + s.nSigOps < MAX_BLOCK_SIGOPS
    ensures WithinLimits([cb] + txs, R) && TxSize(cb) <= MAX_BLOCK_SIZE
    ensures ConnectTxs(v, [cb] + txs, h, R).Some? && ConnectTxs(v, [cb] + txs, h, R).value.fees == s.fees
  {
    hide ConnectTxs, TxSize, TxsSize, LegacySigOps;
    WithCoinbase(v, cb, txs, h, R);
    LegacyCounted(v, [cb] + txs, h, R);
    SizeWithFirst(cb, txs);
    CountBelowSize([cb] + txs);
    NothingHasNoSize();
  }

  lemma NothingHasNoSize()
    ensures TxsSize([]) == 0
  {
  }

  lemma {:induction false} SizeWithFirst(tx: Tx, txs: seq<Tx>)
    ensures TxsSize([tx] + txs) == TxSize(tx) + TxsSize(txs)
  {
    hide TxSize;
    if txs == [] {
      assert [tx] + txs == [tx] && [tx][..0] == [];
      NothingHasNoSize();
    } else {
      var k := |txs| - 1;
      SizeWithFirst(tx, txs[..k]);
      assert ([tx] + txs)[..k + 1] == [tx] + txs[..k];
    }
  }

  lemma {:induction false} CountBelowSize(txs: seq<Tx>)
    ensures |txs| <= TxsSize(txs)
  {
    if txs != [] {
      CountBelowSize(txs[..|txs| - 1]);
    }
  }

  /** The fees selected are what the transactions take out of the unspent value and do not burn. */
  lemma SelectedFees(pool: Pool, v: View, h: nat, R: Rules, sel: seq<Hash>, s: Progress)
    requires PoolOk(pool, v) && Selection(pool, v, h, R, sel, s) && Wf(v) && h >= 1
    ensures Checked(Txs(pool, sel)) && s.fees >= 0
    ensures Supply.Total(s.view) + s.fees + Supply.BurntIn(Txs(pool, sel)) == Supply.Total(v)
  {
    hide ConnectTxs, Parents, CheckTransaction, Wf, Supply.Total, Supply.BurntIn;
    Supply.FeesFromTotal(v, Txs(pool, sel), h, R);
  }

  /** So with room for the subsidy the reward is in range. */
  lemma RewardExists(pool: Pool, v: View, h: nat, R: Rules, sel: seq<Hash>, s: Progress)
    requires PoolOk(pool, v) && Selection(pool, v, h, R, sel, s) && Wf(v) && h >= 1 && Supply.Total(v) + Subsidy(h) <= MAX_MONEY
    ensures MoneyRange(BlockValue(h, s.fees))
  {
    hide ConnectTxs, Parents, CheckTransaction, Wf, Subsidy, Supply.Total, Supply.BurntIn;
    var txs := Txs(pool, sel);
    SelectedFees(pool, v, h, R, sel, s);
    Supply.BurntNotNegative(txs);
    ConnectTxsWf(v, txs, h, R);
    Supply.TotalNonNegative(s.view);
    Supply.SubsidyInRange(h);
  }

  /** A coinbase in front that pays exactly the subsidy and what the transactions leave makes a block that connects. */
  lemma FullRewardConnects(v: View, cb: Tx, txs: seq<Tx>, h: nat, R: Rules)
    requires Wf(v) && h >= 1 && Checked(txs) && NoOverwrite(v, [cb] + txs) && DistinctTxids(txs, |txs|)
    requires cb.IsCoinBase() && (forall i :: 0 <= i < |txs| ==> !txs[i].IsCoinBase() && Avoids(txs[i], cb.txid))
    requires ConnectTxs(v, txs, h, R).Some? && CheckBlock([cb] + txs, R)
    requires ConnectTxs(v, txs, h, R).value.nSigOps + R.legacySigOps(cb) <= MAX_BLOCK_SIGOPS
    ensures
      var w := ConnectTxs(v, txs, h, R).value.view;
      ConnectBlock(v, [cb] + txs, h, R).Some? <==> SumValues(cb.vout) <= Subsidy(h) + Supply.Total(v) - Supply.Total(w) - Supply.BurntIn(txs)
  {
    hide ConnectTxs, CheckBlock, Wf, Subsidy, Supply.Total, Supply.BurntIn, CheckTransaction;
    assert ([cb] + txs)[0] == cb;
    assert NoOverwrite(v, txs) by {
      assert forall i :: 0 <= i < |txs| ==> txs[i] == ([cb] + txs)[i + 1];
    }
    Supply.FeesFromTotal(v, txs, h, R);
    WithCoinbase(v, cb, txs, h, R);
  }

  lemma RewardRange(cb: Tx)
    requires |cb.vout| == 1
    ensures SumsInRange(cb.vout) <==> MoneyRange(cb.vout[0].nValue)
    ensures SumValues(cb.vout) == cb.vout[0].nValue
  {
    assert cb.vout[..1] == cb.vout && cb.vout[..0] == [];
    assert SumValues([]) == 0;
    assert InRangeAt(cb.vout, 0) <==> MoneyRange(cb.vout[0].nValue);
  }

  lemma BlockChecks(cb: Tx, txs: seq<Tx>, v: View)
    requires cb.IsCoinBase() && cb.txid !in v
    requires forall i :: 0 <= i < |txs| ==> !txs[i].IsCoinBase() && CheckTransaction(txs[i]) && txs[i].txid !in v
    ensures NoOverwrite(v, [cb] + txs) && (Shaped([cb] + txs) <==> CheckTransaction(cb))
  {
    hide CheckTransaction;
    var block := [cb] + txs;
    assert forall i :: 1 <= i < |block| ==> block[i] == txs[i - 1];
    assert block[0] == cb;
  }

  /** No output is spent twice in a block that connects. */
  lemma NoDoubleSpend(v: View, block: seq<Tx>, h: nat, rules: Rules)
    requires Wf(v) && h >= 1 && Collisionless(block) && ConnectBlock(v, block, h, rules).Some?
    ensures SpendsOnce(block)
  {
    hide ConnectTxs, Wf, CheckTransaction;
    ConnectedTxidsDistinct(v, block, h, rules, |block|);
    var txs := block[1..];
    forall i, k, p | 0 <= i < k < |txs| && SpendsFrom(txs[i].vin, p)
      ensures !SpendsFrom(txs[k].vin, p)
    {
      SecondSpendRefused(v, block, h, rules, i + 1, k + 1, p);
    }
    forall i | 0 <= i < |txs|
      ensures DistinctInputs(txs[i])
    {
      CheckedDistinct(txs[i]);
    }
    CoinbaseSpendsNothing(block[0], txs);
    assert [block[0]] + txs == block;
  }

  lemma SecondSpendRefused(v: View, block: seq<Tx>, h: nat, rules: Rules, i: nat, k: nat, p: OutPoint)
    requires Connects(v, block, h, rules) && DistinctTxids(block, |block|)
    requires 0 < i < k < |block| && SpendsFrom(block[i].vin, p)
    ensures !SpendsFrom(block[k].vin, p)
  {
    hide ConnectTxs, Wf;
    if SpendsFrom(block[k].vin, p) {
      FoundUnspent(v, block, i, h, rules, p);
      FoundUnspent(v, block, k, h, rules, p);
      forall m | i <= m < k
        ensures block[m].txid != p.hash
      {
        NotMadeAgain(v, block, h, rules, i, k, p.hash, m);
      }
      StaysSpent(v, block, k, h, rules, i, p);
    }
  }
}
