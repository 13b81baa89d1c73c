/** The records of data_structures.h. `Transaction *transactions` and `transactions_per_block`
    are one sequence here: every block the program builds or receives has as many
    transactions as its count says. */
module Data {
  import opened Bytes

  const TX_ID_LEN: nat := 16
  const TXB_ID_LEN: nat := 64
  const HASH_SIZE: nat := 65

  type TxIdField = b: Bytes | |b| == TX_ID_LEN witness Zeros(16)
  type BlockIdField = b: Bytes | |b| == TXB_ID_LEN witness Zeros(64)
  type HashField = b: Bytes | |b| == HASH_SIZE witness Zeros(65)

  /** `value` is the float's 32-bit pattern: it is only ever copied and hashed. */
  datatype Transaction = Transaction(txId: TxIdField, reward: int, value: uint32, timestamp: int)

  datatype Block = Block(
    txbId: BlockIdField,
    previousHash: HashField,
    timestamp: int,
    nonce: uint32,
    transactions: seq<Transaction>)

  /** What a miner writes to the pipe: its id, then the block. */
  datatype Message = Message(minerId: int, block: Block)

  /** A pool entry. `empty` covers both "free" and "reserved". */
  datatype Slot = Slot(tx: Transaction, empty: bool, age: int)

  datatype Config = Config(numMiners: nat, poolSize: nat, perBlock: nat, maxBlocks: nat)

  /** The name under which a transaction is looked up (strcmp on tx_id). */
  function Name(t: Transaction): (s: Bytes)
    ensures 0 !in s
  {
    CString(t.txId)
  }

  const ZERO_TX: Transaction := Transaction(Zeros(16), 0, 0, 0)

  /** The integer fields fit their C types, so that their bytes determine them. */
  predicate SizedTx(t: Transaction) { IsInt32(t.reward) && IsInt64(t.timestamp) }

  predicate Sized(b: Block) {
    && IsInt64(b.timestamp)
    && IsInt32(|b.transactions|)
    && (forall i :: 0 <= i < |b.transactions| ==> SizedTx(b.transactions[i]))
  }
}
