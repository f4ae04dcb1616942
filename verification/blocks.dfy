/** Transactions and the blocks of an account chain. */
module Blocks {
  import opened Wrappers

  type Address = string
  type TxId = string
  type BlockId = string

  /** The `previous` of an account's first block: twenty '0' characters. */
  const GENESIS_SENTINEL: BlockId := "00000000000000000000"

  /** Appended to a transaction id to name the receive block it produces. */
  const RECEIVE_SUFFIX: string := "_recv"

  /** A signed transaction as a client proposes it. `balance` is the sender's
      balance after the transaction, not the amount moved. */
  datatype Transaction = Transaction(
    id: TxId,
    kind: string,
    address: Address,
    receiver: Option<Address>,
    previous: BlockId,
    balance: real,
    signature: string)

  /** A block of an account chain: either a confirmed transaction stored
      verbatim, or the receive block synthesised for its receiver. */
  datatype Block =
    | TxBlock(tx: Transaction)
    | ReceiveBlock(recvId: BlockId, source: TxId, recvPrevious: BlockId, recvBalance: real)
  {
    function Id(): BlockId {
      match this
      case TxBlock(t) => t.id
      case ReceiveBlock(i, _, _, _) => i
    }

    function Previous(): BlockId {
      match this
      case TxBlock(t) => t.previous
      case ReceiveBlock(_, _, p, _) => p
    }

    function Balance(): real {
      match this
      case TxBlock(t) => t.balance
      case ReceiveBlock(_, _, _, b) => b
    }
  }

  /** A transaction names a receiver when its `receiver` is present and
      non-empty (the source tests the value's truthiness). */
  predicate HasReceiver(tx: Transaction) {
    tx.receiver.Some? && tx.receiver.value != ""
  }
}
