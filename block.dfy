/** The block of block/block.go and the digest of its transaction list. */
module Blocks {
  import opened Bytes
  import opened Transactions

  /** A block as stored in the blocks bucket. Go's Nonce is an int, 64 bits wide. */
  datatype Block = Block(
    timeStamp: Int64,
    prevHash: Bytes,
    transactions: seq<Transaction>,
    hash: Bytes,
    nonce: Int64)

  /** The serialized transactions, one per transaction, in block order. */
  function Serialized(p: Primitives, txs: seq<Transaction>): (r: seq<Bytes>)
    ensures |r| == |txs|
    ensures forall i :: 0 <= i < |txs| ==> r[i] == p.encodeTx(txs[i])
  {
    if txs == [] then [] else Serialized(p, txs[..|txs| - 1]) + [p.encodeTx(txs[|txs| - 1])]
  }

  /** HashTransactions: the Merkle root over the serialized transactions. */
  function HashTransactions(p: Primitives, b: Block): Bytes
  {
    p.merkleRoot(Serialized(p, b.transactions))
  }

  /** The digest depends on the transaction list alone, through the ordered serializations. */
  lemma HashTransactionsOfList(p: Primitives, a: Block, b: Block)
    requires |a.transactions| == |b.transactions|
    requires forall i :: 0 <= i < |a.transactions| ==> p.encodeTx(a.transactions[i]) == p.encodeTx(b.transactions[i])
    ensures HashTransactions(p, a) == HashTransactions(p, b)
  {
    assert Serialized(p, a.transactions) == Serialized(p, b.transactions);
  }
}
