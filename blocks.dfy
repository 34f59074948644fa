/**
 The values the ledger stores: transactions, blocks and the `previous_hash`
 field, which holds a hex digest for every sealed block but the integer 1 for
 the genesis block.
 */
module Blocks {

  /** Python's `Optional`, used for the `previous_hash=None` default of `new_block`. */
  datatype Option<+T> = None | Some(value: T)

  /**
   The value of a transaction field: an integer, a string or a number. The ledger never inspects
   these: the reward transaction uses the integer 0 as sender and 1 as amount,
   submitted transactions carry whatever the client sent.
   */
  datatype Value = Int(i: int) | Str(s: string) | Num(r: real)

  datatype Transaction = Transaction(sender: Value, recipient: Value, amount: Value)

  /** The `previous_hash` field: a digest string, or the integer the genesis block carries. */
  datatype HashValue = Digest(hex: string) | Sentinel(n: int)

  /** A sealed block; `timestamp` is the wall-clock float of `time()`, kept without properties. */
  datatype Block = Block(
    index: int,
    timestamp: real,
    transactions: seq<Transaction>,
    proof: int,
    previousHash: HashValue)

  /** Python truthiness of an optional `previous_hash` argument (`None`, `""` and `0` are falsy). */
  predicate Truthy(h: Option<HashValue>)
  {
    match h
    case None => false
    case Some(Digest(s)) => s != ""
    case Some(Sentinel(n)) => n != 0
  }

  /** The block the constructor seals: index 1, proof 0, previous hash the integer 1, no transactions. */
  function Genesis(now: real): (g: Block)
  {
    Block(1, now, [], 0, Sentinel(1))
  }

  /** The reward the miner credits to itself before sealing: sender 0, recipient 'self address', amount 1. */
  function Reward(): (t: Transaction)
  {
    Transaction(Int(0), Str("self address"), Int(1))
  }

  /** Every block's `index` is its 1-based position, as the ledger numbers the blocks it seals itself. */
  predicate NumberedFromOne(chain: seq<Block>)
  {
    forall i :: 0 <= i < |chain| ==> chain[i].index == i + 1
  }

  /** Appending a block numbered one past the end keeps the numbering. */
  lemma NumberedAppend(chain: seq<Block>, b: Block)
    requires NumberedFromOne(chain)
    ensures NumberedFromOne(chain + [b]) <==> b.index == |chain| + 1
  {
    if b.index == |chain| + 1 {
      forall i | 0 <= i < |chain| + 1
        ensures (chain + [b])[i].index == i + 1
      {
        if i < |chain| {
          assert (chain + [b])[i] == chain[i];
        }
      }
    } else {
      assert (chain + [b])[|chain|] == b;
    }
  }
}
