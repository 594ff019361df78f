/** Transaction records shared by the coin cache and the codecs. */
module Transactions {
  type Byte = b: int | 0 <= b < 256 witness 0
  type Bytes = seq<Byte>

  const OP_RETURN: Byte := 0x6a
  const MAX_SCRIPT_SIZE: nat := 10_000
  const NULL_INDEX: nat := 0xFFFF_FFFF

  const COIN: int := 100_000_000
  const MAX_MONEY: int := 21_000_000 * COIN

  datatype OutPoint = OutPoint(hash: Bytes, n: nat)

  datatype TxIn = TxIn(prevout: OutPoint, scriptSig: Bytes, sequence: nat, witnessStack: seq<Bytes>)

  datatype TxOut = TxOut(value: int, scriptPubkey: Bytes)

  datatype Transaction = Transaction(version: nat, vin: seq<TxIn>, vout: seq<TxOut>, lockTime: nat)

  predicate IsNullOutPoint(o: OutPoint) {
    (forall i :: 0 <= i < |o.hash| ==> o.hash[i] == 0) && o.n == NULL_INDEX
  }

  predicate IsCoinbase(tx: Transaction) {
    |tx.vin| == 1 && IsNullOutPoint(tx.vin[0].prevout)
  }

  /** Provably unspendable: starts with OP_RETURN, or longer than any script may be. */
  predicate IsUnspendable(script: Bytes) {
    (|script| > 0 && script[0] == OP_RETURN) || |script| > MAX_SCRIPT_SIZE
  }
}
