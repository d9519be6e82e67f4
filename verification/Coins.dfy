/**
  Transactions, their unspent remains (`CCoins`) and the plain map from txid to
  unspent remains that every coins view stands for.
 */
module Coins {

  type Byte = b: int | 0 <= b < 256

  /** A 256-bit hash; zero is the null hash. */
  type Hash = nat

  const NULL_INDEX: nat := 0xffff_ffff
  const OP_RETURN: Byte := 0x6a
  const COIN: int := 100000000
  const MAX_MONEY: int := 21000000 * COIN

  predicate MoneyRange(amount: int) {
    0 <= amount <= MAX_MONEY
  }

  datatype OutPoint = OutPoint(hash: Hash, n: nat) {
    predicate IsNull() {
      hash == 0 && n == NULL_INDEX
    }
  }

  datatype TxIn = TxIn(prevout: OutPoint, scriptSig: seq<Byte>)

  datatype TxOut = TxOut(nValue: int, script: seq<Byte>) {
    predicate IsNull() {
      nValue == -1
    }

    predicate IsUnspendable() {
      script != [] && script[0] == OP_RETURN
    }
  }

  const NULL_OUT: TxOut := TxOut(-1, [])

  datatype Tx = Tx(txid: Hash, nVersion: int, vin: seq<TxIn>, vout: seq<TxOut>) {
    predicate IsCoinBase() {
      |vin| == 1 && vin[0].prevout.IsNull()
    }
  }

  const MAX_BLOCK_SIZE: nat := 1000000

  /** `GetSizeOfCompactSize`. */
  function CompactSize(n: nat): nat {
    if n < 253 then 1 else if n <= 0xffff then 3 else if n <= 0xffff_ffff then 5 else 9
  }

  /** The serialized size of inputs: an outpoint, a script and a sequence number each. */
  function InsSize(ins: seq<TxIn>): nat {
    if ins == [] then 0
    else
      var s := ins[|ins| - 1].scriptSig;
      InsSize(ins[..|ins| - 1]) + 36 + CompactSize(|s|) + |s| + 4
  }

  function OutsSize(outs: seq<TxOut>): nat {
    if outs == [] then 0
    else
      var s := outs[|outs| - 1].script;
      OutsSize(outs[..|outs| - 1]) + 8 + CompactSize(|s|) + |s|
  }

  /** `GetSerializeSize` of a transaction, with its version and lock time. */
  function TxSize(tx: Tx): nat {
    4 + CompactSize(|tx.vin|) + InsSize(tx.vin) + CompactSize(|tx.vout|) + OutsSize(tx.vout) + 4
  }

  function TxsSize(txs: seq<Tx>): nat {
    if txs == [] then 0 else TxsSize(txs[..|txs| - 1]) + TxSize(txs[|txs| - 1])
  }

  const BLOCK_HEADER_SIZE: nat := 80

  /** `GetSerializeSize` of a block. */
  function BlockSize(block: seq<Tx>): nat {
    BLOCK_HEADER_SIZE + CompactSize(|block|) + TxsSize(block)
  }

  datatype Coins = Coins(fCoinBase: bool, vout: seq<TxOut>, nHeight: nat, nVersion: int) {
    predicate IsAvailable(n: nat) {
      n < |vout| && !vout[n].IsNull()
    }

    /** Every output has been spent. */
    predicate IsPruned() {
      forall i :: 0 <= i < |vout| ==> vout[i].IsNull()
    }

    /** Spent outputs at the end have been dropped. */
    predicate IsClean() {
      vout == [] || !vout[|vout| - 1].IsNull()
    }

    /** `CCoins::operator==`: any two fully spent records are equal. */
    predicate SameAs(that: Coins) {
      (IsPruned() && that.IsPruned()) || this == that
    }

    function Cleanup(): (c: Coins)
      ensures c.IsClean() && |c.vout| <= |vout| && c.vout == vout[..|c.vout|]
      ensures forall i :: |c.vout| <= i < |vout| ==> vout[i].IsNull()
      ensures c.IsPruned() == IsPruned()
      ensures c == this.(vout := c.vout)
      decreases |vout|
    {
      if |vout| > 0 && vout[|vout| - 1].IsNull() then
        this.(vout := vout[..|vout| - 1]).Cleanup()
      else
        this
    }

    function ClearUnspendable(): (c: Coins) {
      this.(vout := seq(|vout|, i requires 0 <= i < |vout| => if vout[i].IsUnspendable() then NULL_OUT else vout[i])).Cleanup()
    }
  }

  const NO_COINS: Coins := Coins(false, [], 0, 0)

  /** `CCoins::FromTx`: the spendable outputs of a transaction included at height `h`. */
  function FromTx(tx: Tx, h: nat): (c: Coins)
    ensures c.IsClean()
  {
    Coins(tx.IsCoinBase(), tx.vout, h, tx.nVersion).ClearUnspendable()
  }

  /** A new record holds exactly the spendable outputs, each at its own place, and where it comes from. */
  lemma FromTxHolds(tx: Tx, h: nat)
    ensures
      var c := FromTx(tx, h);
      && c.IsClean() && c.fCoinBase == tx.IsCoinBase() && c.nHeight == h && c.nVersion == tx.nVersion && |c.vout| <= |tx.vout|
      && (forall n: nat :: c.IsAvailable(n) <==> n < |tx.vout| && !tx.vout[n].IsNull() && !tx.vout[n].IsUnspendable())
      && (forall n: nat :: c.IsAvailable(n) ==> c.vout[n] == tx.vout[n])
      && (forall n :: 0 <= n < |c.vout| && c.vout[n] != tx.vout[n] ==> c.vout[n] == NULL_OUT)
  {
    var kept := Coins(tx.IsCoinBase(), seq(|tx.vout|, i requires 0 <= i < |tx.vout| =>
      if tx.vout[i].IsUnspendable() then NULL_OUT else tx.vout[i]), h, tx.nVersion);
    var c := kept.Cleanup();
    assert c == FromTx(tx, h);
    forall n: nat
      ensures c.IsAvailable(n) <==> kept.IsAvailable(n)
    {
      assert n < |c.vout| ==> c.vout[n] == kept.vout[n];
    }
  }

  /** A clean record is fully spent exactly when its output vector is empty. */
  lemma CleanPrunedIsEmpty(c: Coins)
    requires c.IsClean()
    ensures c.IsPruned() <==> c.vout == []
  {
    if c.vout != [] {
      assert !c.vout[|c.vout| - 1].IsNull();
    }
  }

  /** Cleaning up is the identity on a clean record. */
  lemma CleanupIdempotent(c: Coins)
    requires c.IsClean()
    ensures c.Cleanup() == c
  {
  }

  // ---------------------------------------------------------------------------
  // Coins views as plain maps: a fully spent transaction is simply absent.
  // ---------------------------------------------------------------------------

  type View = map<Hash, Coins>

  function Lookup(v: View, id: Hash): Coins {
    if id in v then v[id] else NO_COINS
  }

  /** Store a record, dropping it when nothing in it is unspent. */
  function Put(v: View, id: Hash, c: Coins): (w: View)
  {
    if c.IsPruned() then v - {id} else v[id := c]
  }

  /** The unspent output a point refers to exists in the view. */
  predicate Unspent(v: View, p: OutPoint) {
    p.hash in v && v[p.hash].IsAvailable(p.n)
  }
}
