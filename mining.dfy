/** Block construction (block/block.go): a new block is sealed with the result of the
    proof-of-work search over it. The clock is a parameter. */
module Mining {
  import opened Bytes
  import opened Transactions
  import opened Blocks
  import opened ProofOfWork

  /** NewBlock: the block before sealing, with an empty hash and nonce 0, mined and sealed. */
  function NewBlock(p: Primitives, txs: seq<Transaction>, prevHash: Bytes, now: Int64): Block
  {
    var b := Block(now, prevHash, txs, [], 0);
    var (nonce, hash) := Mine(p, b);
    b.(hash := hash, nonce := nonce)
  }

  /** NewBlock keeps the transactions, the previous hash and the time, and seals with
      the pair the search returns for the unsealed block. */
  lemma NewBlockShape(p: Primitives, txs: seq<Transaction>, prevHash: Bytes, now: Int64)
    ensures var b := NewBlock(p, txs, prevHash, now);
      && b.transactions == txs && b.prevHash == prevHash && b.timeStamp == now
      && |b.hash| == 32
      && (b.nonce, b.hash) == Mine(p, Block(now, prevHash, txs, [], 0))
  {
  }

  /** A block sealed with a solving nonce validates, and its hash is below the target. */
  lemma NewBlockValidates(p: Primitives, txs: seq<Transaction>, prevHash: Bytes, now: Int64)
    requires Mine(p, Block(now, prevHash, txs, [], 0)).0 < MaxNonce
    ensures Validate(p, NewBlock(p, txs, prevHash, now))
    ensures BelowTarget(NewBlock(p, txs, prevHash, now).hash)
  {
    var b := Block(now, prevHash, txs, [], 0);
    var (nonce, hash) := Mine(p, b);
    PrepareDataIgnoresSeal(p, b, hash, nonce, nonce);
  }

  /** NewGenesisBlock: a block holding only the coinbase, with an empty previous hash. */
  function NewGenesisBlock(p: Primitives, coinbase: Transaction, now: Int64): (b: Block)
    ensures b.prevHash == [] && b.transactions == [coinbase] && |b.hash| == 32
  {
    NewBlock(p, [coinbase], [], now)
  }
}
