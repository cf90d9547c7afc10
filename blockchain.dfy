/** The chain of block/blockChain.go: the blocks bucket as a map from block hash to
    block together with the value under key "l", the tip cached in the BlockChain value,
    the iterator that walks from the tip to the genesis block, and the queries that walk. */
module Chain {
  import opened Bytes
  import opened Hex
  import opened Outcomes
  import opened Transactions
  import opened Signing
  import opened Blocks
  import opened Mining
  import opened ChainWalk

  /** The text of the genesis block's coinbase input. */
  const GenesisCoinbaseData: Bytes :=
    Ascii("The Times 03/Jan/2009 Chancellor on brink of second bailout for banks")

  /** A wallet: its ECDSA private key and the raw bytes of its public key (X then Y). */
  datatype Wallet = Wallet(privateKey: PrivateKey, publicKey: Bytes)

  class BlockChain {
    /** The hash the BlockChain value caches as its tip. */
    var tip: Bytes
    /** The blocks bucket without its "l" entry: block hash to block. */
    var blocks: map<Bytes, Block>
    /** The value stored under key "l": the hash of the last block added. */
    var lastHash: Bytes
    /** The blocks reachable from the tip, tip first. */
    ghost var chain: seq<Block>

    /** The store holds a chain: each block is stored under its hash, links to the next
        one by PrevHash, and only the last, the genesis block, has an empty PrevHash. */
    ghost predicate Valid()
      reads this
    {
      && |chain| > 0
      && tip == lastHash == chain[0].hash
      && StoredChain(chain, blocks)
    }

    /** The bucket right after the genesis block is written (the creation branch of CreateBlockChain). */
    constructor FromGenesis(genesis: Block)
      requires genesis.prevHash == [] && |genesis.hash| == 32
      ensures Valid()
      ensures blocks == map[genesis.hash := genesis] && lastHash == genesis.hash && tip == genesis.hash
      ensures chain == [genesis]
    {
      blocks := map[genesis.hash := genesis];
      lastHash := genesis.hash;
      tip := genesis.hash;
      chain := [genesis];
    }

    /** AddBlock: mines a block on top of the hash under "l", stores it under its hash and
        points "l" and the tip at it. When the new hash is not already a key, the store
        holds the old chain with the new block in front. */
    method AddBlock(p: Primitives, txs: seq<Transaction>, now: Int64)
      modifies this
      ensures var b := NewBlock(p, txs, old(lastHash), now);
        && blocks == old(blocks)[b.hash := b]
        && lastHash == b.hash && tip == b.hash
        && (old(Valid()) && b.hash !in old(blocks) ==> Valid() && chain == [b] + old(chain))
    {
      var newBlock := NewBlock(p, txs, lastHash, now);
      NewBlockShape(p, txs, lastHash, now);
      if Valid() && newBlock.hash !in blocks {
        StoredChainPush(chain, blocks, newBlock);
        chain := [newBlock] + chain;
      }
      blocks := blocks[newBlock.hash := newBlock];
      lastHash := newBlock.hash;
      tip := newBlock.hash;
    }

    /** What the iterator meets at step i of the walk: the stored block chain[i], and then
        either the genesis block's empty PrevHash or the hash of chain[i + 1]. */
    lemma WalkStep(i: nat)
      requires Valid() && i < |chain|
      ensures chain[i].hash in blocks && blocks[chain[i].hash] == chain[i]
      ensures |chain[i].prevHash| == 0 ==> chain[..i + 1] == chain
      ensures |chain[i].prevHash| != 0 ==> i + 1 < |chain| && chain[i].prevHash == chain[i + 1].hash
      ensures Flatten(chain[..i + 1]) == Flatten(chain[..i]) + chain[i].transactions
    {
      FlattenStep(chain, i);
      if i < |chain| - 1 {
        assert |chain[i].prevHash| == |chain[i + 1].hash| == 32;
      } else {
        assert chain[..i + 1] == chain;
      }
    }

    method Iterator() returns (it: BlockchainIterator)
      ensures fresh(it) && it.bc == this && it.currentHash == tip
    {
      it := new BlockchainIterator(this);
    }

    /** FindTransaction: the first transaction of the walk with the given ID. */
    method FindTransaction(id: Bytes) returns (r: Result<Transaction>)
      requires Valid()
      ensures r == match FindById(Flatten(chain), id)
                   case Some(tx) => Ok(tx)
                   case None => Err(TxNotFound)
    {
      var bci := Iterator();
      var i := 0;
      while true
        invariant fresh(bci) && bci.bc == this
        invariant 0 <= i < |chain| && bci.currentHash == chain[i].hash
        invariant FindById(Flatten(chain[..i]), id) == None
        decreases |chain| - i
      {
        WalkStep(i);
        var res := bci.Next();
        var block := res.value;
        var found := ScanFind(block.transactions, id);
        FindByIdAppend(Flatten(chain[..i]), block.transactions, id);
        if found.Some? {
          ghost var blocks := chain;
          assert blocks == blocks[..i + 1] + blocks[i + 1..];
          FlattenAppend(blocks[..i + 1], blocks[i + 1..]);
          FindByIdAppend(Flatten(chain[..i + 1]), Flatten(chain[i + 1..]), id);
          return Ok(found.value);
        }
        if |block.prevHash| == 0 {
          return Err(TxNotFound);
        }
        i := i + 1;
      }
    }

    /** FindUnspentTransactions: each transaction once per output locked to the key that
        no input of the key, visited earlier in the walk, spends. */
    method FindUnspentTransactions(p: Primitives, pubKeyHash: Bytes) returns (unspentTXs: seq<Transaction>)
      requires Valid()
      ensures unspentTXs == UnspentTxsAfter(p, pubKeyHash, Flatten(chain))
    {
      unspentTXs := [];
      var spentTXOs: SpentMap := map[];
      var bci := Iterator();
      var i := 0;
      while true
        invariant fresh(bci) && bci.bc == this
        invariant 0 <= i < |chain| && bci.currentHash == chain[i].hash
        invariant unspentTXs == UnspentTxsAfter(p, pubKeyHash, Flatten(chain[..i]))
        invariant spentTXOs == SpentAfter(p, InputsOfKey(pubKeyHash), Flatten(chain[..i]))
        decreases |chain| - i
      {
        WalkStep(i);
        var res := bci.Next();
        var block := res.value;
        unspentTXs, spentTXOs := ScanUnspent(p, pubKeyHash, Flatten(chain[..i]), block.transactions, unspentTXs, spentTXOs);
        if |block.prevHash| == 0 {
          return;
        }
        i := i + 1;
      }
    }

    /** FindUTXO: for every transaction ID of the walk, its outputs that no input of a
        non-coinbase transaction visited earlier spends. */
    method FindUTXO(p: Primitives) returns (utxo: UtxoMap)
      requires Valid()
      ensures utxo == UTXOAfter(p, Flatten(chain))
    {
      utxo := map[];
      var spentTXOs: SpentMap := map[];
      var bci := Iterator();
      var i := 0;
      while true
        invariant fresh(bci) && bci.bc == this
        invariant 0 <= i < |chain| && bci.currentHash == chain[i].hash
        invariant utxo == UTXOAfter(p, Flatten(chain[..i]))
        invariant spentTXOs == SpentAfter(p, AllInputs, Flatten(chain[..i]))
        decreases |chain| - i
      {
        WalkStep(i);
        var res := bci.Next();
        var block := res.value;
        utxo, spentTXOs := ScanUtxo(p, Flatten(chain[..i]), block.transactions, utxo, spentTXOs);
        if |block.prevHash| == 0 {
          return;
        }
        i := i + 1;
      }
    }

    /** The chain's FindSpendableOutputs: the greedy selection over the outputs of
        FindUnspentTransactions' list, which it does not check for spends again. */
    method FindSpendableOutputs(p: Primitives, pubKeyHash: Bytes, amount: int)
      returns (accumulation: int, unspendOutputs: map<string, seq<int>>)
      requires Valid()
      ensures var s := Select(Candidates(UnspentTxsAfter(p, pubKeyHash, Flatten(chain))), pubKeyHash, amount);
        accumulation == s.acc && unspendOutputs == Group(s.picks)
    {
      var unspentTr := FindUnspentTransactions(p, pubKeyHash);
      accumulation, unspendOutputs := SelectOutputs(unspentTr, pubKeyHash, amount);
    }

    /** NewUTXOTransaction: spends the outputs the chain's FindSpendableOutputs selects for
        the wallet, one input per selected position in the map's iteration order, pays
        `amount` to `to` and returns any excess to the wallet's own address. */
    method NewUTXOTransaction(p: Primitives, wlt: Wallet, to: Bytes, amount: int) returns (r: Result<Transaction>)
      requires Valid()
      ensures var pubKeyHash := p.hashPubKey(wlt.publicKey);
        var s := Select(Candidates(UnspentTxsAfter(p, pubKeyHash, Flatten(chain))), pubKeyHash, amount);
        exists order :: Enumerates(order, Group(s.picks)) && r == Payment(p, wlt, to, amount, s.acc, Group(s.picks), order)
    {
      var pubKeyHash := p.hashPubKey(wlt.publicKey);
      var acc, validOuts := FindSpendableOutputs(p, pubKeyHash, amount);
      ghost var s := Select(Candidates(UnspentTxsAfter(p, pubKeyHash, Flatten(chain))), pubKeyHash, amount);
      if acc < amount {
        EnumerationExists(validOuts);
        ghost var order :| Enumerates(order, validOuts);
        assert Payment(p, wlt, to, amount, acc, validOuts, order) == Err(NotEnoughFunds);
        return Err(NotEnoughFunds);
      }
      var inputs, order := InputsOf(validOuts, wlt.publicKey);
      var first := NewTxOut(p, amount, to);
      if first.Err? {
        assert PaymentOutputs(p, wlt, to, amount, acc) == Err(first.error);
        return Err(first.error);
      }
      var outputs := [first.value];
      if acc > amount {
        var change := NewTxOut(p, acc - amount, p.addressOf(wlt.publicKey));
        if change.Err? {
          assert PaymentOutputs(p, wlt, to, amount, acc) == Err(change.error);
          return Err(change.error);
        }
        outputs := [first.value, change.value];
        assert PaymentOutputs(p, wlt, to, amount, acc) == Ok([first.value, change.value]);
      } else {
        assert PaymentOutputs(p, wlt, to, amount, acc) == Ok([first.value]);
      }
      r := Ok(SetID(p, Transaction([], inputs, outputs)));
      assert r == Payment(p, wlt, to, amount, acc, validOuts, order);

    }

    /** SignTransactions: looks up every input's transaction on the chain, aborting when
        one is missing, and signs with the map of them keyed by hex ID. */
    method SignTransactions(p: Primitives, tx: Transaction, key: PrivateKey) returns (r: Result<Transaction>)
      requires Valid()
      ensures r == match PrevTxsFor(Flatten(chain), tx.vin)
                   case Err(e) => Err(e)
                   case Ok(prevTxs) => Signed(p, key, tx, prevTxs)
    {
      var prevTxs := CollectPrevTxs(tx.vin);
      if prevTxs.Err? {
        return Err(prevTxs.error);
      }
      r := Sign(p, key, tx, prevTxs.value);
    }

    /** VerifyTransaction: the same lookups, then Verify. */
    method VerifyTransaction(p: Primitives, tx: Transaction) returns (r: Result<bool>)
      requires Valid()
      ensures r == match PrevTxsFor(Flatten(chain), tx.vin)
                   case Err(e) => Err(e)
                   case Ok(prevTxs) => Verified(p, tx, prevTxs)
    {
      var prevTxs := CollectPrevTxs(tx.vin);
      if prevTxs.Err? {
        return Err(prevTxs.error);
      }
      r := Verify(p, tx, prevTxs.value);
    }

    /** The lookup loop shared by SignTransactions and VerifyTransaction. */
    method CollectPrevTxs(vin: seq<TxInput>) returns (r: Result<map<string, Transaction>>)
      requires Valid()
      ensures r == PrevTxsFor(Flatten(chain), vin)
    {
      var prevTxs: map<string, Transaction> := map[];
      for j := 0 to |vin|
        invariant PrevTxsFor(Flatten(chain), vin[..j]) == Ok(prevTxs)
      {
        var input := vin[j];
        assert vin[..j + 1][..j] == vin[..j];
        var prev := FindTransaction(input.txId);
        if prev.Err? {
          PrevTxsForSticky(Flatten(chain), vin, j + 1);
          return Err(prev.error);
        }
        prevTxs := prevTxs[HexEncode(input.txId) := prev.value];
      }
      assert vin[..|vin|] == vin;
      return Ok(prevTxs);
    }
  }

  /** The cursor of a walk: the hash of the next block to read. */
  class BlockchainIterator {
    var currentHash: Bytes
    const bc: BlockChain

    constructor (bc: BlockChain)
      ensures this.bc == bc && currentHash == bc.tip
    {
      this.bc := bc;
      currentHash := bc.tip;
    }

    /** Next: the block stored under the current hash, moving the cursor to its PrevHash.
        Reading a hash that is not a key of the bucket aborts and leaves the cursor. */
    method Next() returns (r: Result<Block>)
      modifies this
      ensures old(currentHash) in bc.blocks ==>
        r == Ok(bc.blocks[old(currentHash)]) && currentHash == bc.blocks[old(currentHash)].prevHash
      ensures old(currentHash) !in bc.blocks ==> r == Err(BlockMissing) && currentHash == old(currentHash)
    {
      if currentHash !in bc.blocks {
        return Err(BlockMissing);
      }
      var block := bc.blocks[currentHash];
      currentHash := block.prevHash;
      return Ok(block);
    }
  }

  /** Whether x is one of xs: the scan of a spentTXOs list. */
  method Contains(xs: seq<int>, x: int) returns (b: bool)
    ensures b <==> x in xs
  {
    for k := 0 to |xs|
      invariant x !in xs[..k]
    {
      assert xs[..k + 1] == xs[..k] + [xs[k]];
      if xs[k] == x {
        return true;
      }
    }
    assert xs[..|xs|] == xs;
    return false;
  }

  /** The input loop of the walks: a non-coinbase transaction's counted inputs are added to spentTXOs. */
  method RecordSpendsOf(p: Primitives, f: SpendFilter, spent: SpentMap, tx: Transaction) returns (s: SpentMap)
    ensures s == RecordSpends(p, f, spent, tx)
  {
    s := spent;
    if !IsCoinbase(tx) {
      for m := 0 to |tx.vin|
        invariant s == RecordInputs(p, f, spent, tx.vin[..m])
      {
        var input := tx.vin[m];
        assert tx.vin[..m + 1][..m] == tx.vin[..m];
        if Counts(p, f, input) {
          var inTxID := HexEncode(input.txId);
          s := s[inTxID := Listed(s, inTxID) + [input.vout]];
        }
      }
      assert tx.vin[..|tx.vin|] == tx.vin;
    }
  }

  /** FindUTXO's output loop: each output whose position is not listed is appended under the key. */
  method AppendSurvivors(u: UtxoMap, key: string, outs: seq<TxOutput>, spent: seq<int>) returns (r: UtxoMap)
    ensures r == Extend(u, key, Survivors(outs, spent))
  {
    r := u;
    for k := 0 to |outs|
      invariant r == Extend(u, key, Survivors(outs[..k], spent))
    {
      assert outs[..k + 1][..k] == outs[..k];
      ghost var before := Survivors(outs[..k], spent);
      assert Survivors(outs[..k + 1], spent) == before + (if k in spent then [] else [outs[k]]);
      var isSpent := Contains(spent, k);
      if !isSpent {
        ExtendStep(u, key, before, outs[k]);
        r := r[key := Outputs(r, key) + [outs[k]]];
      } else {
        assert before + [] == before;
      }
    }
    assert outs[..|outs|] == outs;
  }

  /** FindUnspentTransactions' output loop: the transaction is appended once per
      unlisted output locked to the key. */
  method AppendUnspent(list: seq<Transaction>, tx: Transaction, spent: seq<int>, pubKeyHash: Bytes)
    returns (r: seq<Transaction>)
    ensures r == list + seq(|LockedSurvivors(tx.vout, spent, pubKeyHash)|, _ => tx)
  {
    r := list;
    for k := 0 to |tx.vout|
      invariant r == list + seq(|LockedSurvivors(tx.vout[..k], spent, pubKeyHash)|, _ => tx)
    {
      assert tx.vout[..k + 1][..k] == tx.vout[..k];
      var isSpent := Contains(spent, k);
      if !isSpent && IsLockedWithKey(tx.vout[k], pubKeyHash) {
        r := r + [tx];
      }
    }
    assert tx.vout[..|tx.vout|] == tx.vout;
  }

  /** Visiting transaction j of a block extends the visited walk by it. */
  lemma VisitNext(seen: seq<Transaction>, txs: seq<Transaction>, j: nat)
    requires j < |txs|
    ensures seen + txs[..j + 1] == (seen + txs[..j]) + [txs[j]]
  {
    assert txs[..j + 1] == txs[..j] + [txs[j]];
  }

  /** The transaction loop of FindTransaction over one block. */
  method ScanFind(txs: seq<Transaction>, id: Bytes) returns (found: Option<Transaction>)
    ensures found == FindById(txs, id)
  {
    for j := 0 to |txs|
      invariant FindById(txs[..j], id) == None
    {
      FindByIdAppend(txs[..j], [txs[j]], id);
      assert txs[..j + 1] == txs[..j] + [txs[j]];
      assert [txs[j]][1..] == [];
      if txs[j].id == id {
        FindByIdAppend(txs[..j + 1], txs[j + 1..], id);
        assert txs == txs[..j + 1] + txs[j + 1..];
        return Some(txs[j]);
      }
    }
    assert txs[..|txs|] == txs;
    return None;
  }

  /** The transaction loop of FindUnspentTransactions over one block. */
  method ScanUnspent(p: Primitives, pubKeyHash: Bytes, ghost seen: seq<Transaction>, txs: seq<Transaction>,
                     list: seq<Transaction>, spent: SpentMap)
    returns (list': seq<Transaction>, spent': SpentMap)
    requires list == UnspentTxsAfter(p, pubKeyHash, seen)
    requires spent == SpentAfter(p, InputsOfKey(pubKeyHash), seen)
    ensures list' == UnspentTxsAfter(p, pubKeyHash, seen + txs)
    ensures spent' == SpentAfter(p, InputsOfKey(pubKeyHash), seen + txs)
  {
    list', spent' := list, spent;
    ghost var visited := seen;
    assert seen + txs[..0] == seen;
    for j := 0 to |txs|
      invariant visited == seen + txs[..j]
      invariant list' == UnspentTxsAfter(p, pubKeyHash, visited)
      invariant spent' == SpentAfter(p, InputsOfKey(pubKeyHash), visited)
    {
      var tx := txs[j];
      var txID := HexEncode(tx.id);
      UnspentTxsStep(p, pubKeyHash, visited, tx);
      list' := AppendUnspent(list', tx, Listed(spent', txID), pubKeyHash);
      spent' := RecordSpendsOf(p, InputsOfKey(pubKeyHash), spent', tx);
      VisitNext(seen, txs, j);
      visited := visited + [tx];
    }
    assert txs[..|txs|] == txs;
  }

  /** The transaction loop of FindUTXO over one block. */
  method ScanUtxo(p: Primitives, ghost seen: seq<Transaction>, txs: seq<Transaction>, utxo: UtxoMap, spent: SpentMap)
    returns (utxo': UtxoMap, spent': SpentMap)
    requires utxo == UTXOAfter(p, seen)
    requires spent == SpentAfter(p, AllInputs, seen)
    ensures utxo' == UTXOAfter(p, seen + txs)
    ensures spent' == SpentAfter(p, AllInputs, seen + txs)
  {
    utxo', spent' := utxo, spent;
    ghost var visited := seen;
    assert seen + txs[..0] == seen;
    for j := 0 to |txs|
      invariant visited == seen + txs[..j]
      invariant utxo' == UTXOAfter(p, visited)
      invariant spent' == SpentAfter(p, AllInputs, visited)
    {
      var tx := txs[j];
      var txID := HexEncode(tx.id);
      UtxoStep(p, visited, tx);
      utxo' := AppendSurvivors(utxo', txID, tx.vout, Listed(spent', txID));
      spent' := RecordSpendsOf(p, AllInputs, spent', tx);
      VisitNext(seen, txs, j);
      visited := visited + [tx];
    }
    assert txs[..|txs|] == txs;
  }

  /** The selection loop of the chain's FindSpendableOutputs, with its early exit. */
  method SelectOutputs(unspentTr: seq<Transaction>, pubKeyHash: Bytes, amount: int)
    returns (accumulation: int, unspendOutputs: map<string, seq<int>>)
    ensures var s := Select(Candidates(unspentTr), pubKeyHash, amount);
      accumulation == s.acc && unspendOutputs == Group(s.picks)
  {
    unspendOutputs := map[];
    accumulation := 0;
    ghost var picks: seq<Candidate> := [];
    for t := 0 to |unspentTr|
      invariant Select(Candidates(unspentTr[..t]), pubKeyHash, amount) == Selection(accumulation, picks)
      invariant unspendOutputs == Group(picks)
    {
      var tx := unspentTr[t];
      assert unspentTr[..t + 1][..t] == unspentTr[..t];
      var found;
      accumulation, unspendOutputs, picks, found :=
        SelectFrom(tx, pubKeyHash, amount, Candidates(unspentTr[..t]), accumulation, unspendOutputs, picks);
      if found {
        assert unspentTr == unspentTr[..t + 1] + unspentTr[t + 1..];
        CandidatesAppend(unspentTr[..t + 1], unspentTr[t + 1..]);
        SelectSaturated(Candidates(unspentTr[..t + 1]), Candidates(unspentTr[t + 1..]), pubKeyHash, amount);
        return;
      }
    }
    assert unspentTr[..|unspentTr|] == unspentTr;
  }

  /** The output loop of the selection over one transaction; `found` reports the break. */
  method SelectFrom(tx: Transaction, pubKeyHash: Bytes, amount: int, ghost before: seq<Candidate>,
                    acc: int, grouped: map<string, seq<int>>, ghost picks: seq<Candidate>)
    returns (acc': int, grouped': map<string, seq<int>>, ghost picks': seq<Candidate>, found: bool)
    requires Select(before, pubKeyHash, amount) == Selection(acc, picks) && grouped == Group(picks)
    ensures Select(before + OutputsOf(tx), pubKeyHash, amount) == Selection(acc', picks')
    ensures grouped' == Group(picks')
    ensures found ==> acc' >= amount
  {
    acc', grouped', picks', found := acc, grouped, picks, false;
    var txID := HexEncode(tx.id);
    ghost var outs := OutputsOf(tx);
    ghost var seen := before;
    for outIdx := 0 to |tx.vout|
      invariant before + outs == seen + outs[outIdx..]
      invariant Select(seen, pubKeyHash, amount) == Selection(acc', picks')
      invariant grouped' == Group(picks')
    {
      var out := tx.vout[outIdx];
      ghost var c := Candidate(txID, outIdx, out);
      assert outs[outIdx..] == [c] + outs[outIdx + 1..];
      SelectStep(seen, c, pubKeyHash, amount);
      assert seen + outs[outIdx..] == (seen + [c]) + outs[outIdx + 1..];
      seen := seen + [c];
      if IsLockedWithKey(out, pubKeyHash) && acc' < amount {
        GroupStep(picks', c);
        grouped' := grouped'[txID := Listed(grouped', txID) + [outIdx]];
        acc' := acc' + out.value;
        picks' := picks' + [c];
      }
      if acc' >= amount {
        SelectSaturated(seen, outs[outIdx + 1..], pubKeyHash, amount);
        return acc', grouped', picks', true;
      }
    }
    assert seen + outs[|tx.vout|..] == seen;
  }


  /** The creation branch of CreateBlockChain: a fresh store holding only the genesis block,
      whose one transaction is the coinbase paying the subsidy to `addr` with the genesis text
      as its input data. Locking the coinbase output panics when `addr` is too short. */
  method CreateBlockChain(p: Primitives, addr: Bytes, now: Int64) returns (r: Result<BlockChain>)
    ensures r.Ok? <==> NewCoinbaseTx(p, addr, GenesisCoinbaseData).Ok?
    ensures r.Err? ==> r.error == AddressTooShort
    ensures r.Ok? ==> var genesis := NewGenesisBlock(p, NewCoinbaseTx(p, addr, GenesisCoinbaseData).value, now);
      && fresh(r.value) && r.value.Valid() && r.value.chain == [genesis]
      && r.value.blocks == map[genesis.hash := genesis]
  {
    var cbtx := NewCoinbaseTx(p, addr, GenesisCoinbaseData);
    if cbtx.Err? {
      return Err(cbtx.error);
    }
    var genesis := NewGenesisBlock(p, cbtx.value, now);
    var bc := new BlockChain.FromGenesis(genesis);
    return Ok(bc);
  }

  /** Right after creation, the only unspent outputs are the coinbase's, under its hex ID. */
  lemma GenesisUtxo(p: Primitives, coinbase: Transaction, now: Int64)
    requires IsCoinbase(coinbase) && |coinbase.vout| == 1
    ensures UTXOAfter(p, Flatten([NewGenesisBlock(p, coinbase, now)])) == map[HexEncode(coinbase.id) := coinbase.vout]
  {
    var genesis := NewGenesisBlock(p, coinbase, now);
    assert [genesis][..0] == [];
    assert Flatten([genesis]) == [coinbase];
    var txs := [coinbase];
    assert txs[..0] == [];
    assert Survivors(coinbase.vout, []) == coinbase.vout by {
      assert coinbase.vout[..0] == [];
    }
  }

  /** The walk decides spentness by visiting order: a transaction spending the only output of
      a transaction visited before it in the walk (the two in one block, source first) does
      not hide that output, while in the other order the output is gone. */
  lemma WalkOrderDecidesSpent(p: Primitives, source: Transaction, spender: Transaction, sig: Bytes, pubKey: Bytes)
    requires |source.vout| == 1 && source.id != spender.id
    requires !IsCoinbase(spender) && spender.vin == [TxInput(source.id, 0, sig, pubKey)]
    ensures HexEncode(source.id) in UTXOAfter(p, [source, spender])
    ensures UTXOAfter(p, [source, spender])[HexEncode(source.id)] == source.vout
    ensures HexEncode(source.id) !in UTXOAfter(p, [spender, source])
  {
    var ka, kb := HexEncode(source.id), HexEncode(spender.id);
    if ka == kb {
      HexEncodeInjective(source.id, spender.id);
    }
    var ab, ba := [source, spender], [spender, source];
    assert ab[..1] == [source] && ab[..1][..0] == [] && ba[..1] == [spender] && ba[..1][..0] == [];
    assert Survivors(source.vout, []) == source.vout by {
      assert source.vout[..0] == [];
    }
    assert UTXOAfter(p, [source]) == map[ka := source.vout];
    assert spender.vin[..0] == [];
    assert Counts(p, AllInputs, spender.vin[0]);
    assert RecordInputs(p, AllInputs, map[], spender.vin[..0]) == map[];
    assert Listed(map[], ka) + [0] == [0];
    assert RecordInputs(p, AllInputs, map[], spender.vin) == map[ka := [0]];
    assert [spender][..0] == [];
    assert SpentAfter(p, AllInputs, [spender]) == map[ka := [0]];
    assert Survivors(source.vout, [0]) == [] by {
      assert source.vout[..0] == [];
    }
    assert ka !in UTXOAfter(p, [spender]);
  }

  /** The chain's FindSpendableOutputs takes every locked output of a listed transaction
      without asking whether that output was spent: a transaction listed for its unspent
      output 1 also contributes its spent output 0. */
  lemma SelectionIgnoresSpends(p: Primitives, pubKeyHash: Bytes, source: Transaction, spender: Transaction,
                               sig: Bytes, pubKey: Bytes, amount: int)
    requires |source.vout| == 2 && source.id != spender.id
    requires IsLockedWithKey(source.vout[0], pubKeyHash) && IsLockedWithKey(source.vout[1], pubKeyHash)
    requires 0 < amount && source.vout[0].value < amount
    requires !IsCoinbase(spender) && spender.vin == [TxInput(source.id, 0, sig, pubKey)] && spender.vout == []
    requires p.hashPubKey(pubKey) == pubKeyHash
    ensures UnspentTxsAfter(p, pubKeyHash, [spender, source]) == [source]
    ensures Group(Select(Candidates([source]), pubKeyHash, amount).picks) == map[HexEncode(source.id) := [0, 1]]
  {
    ListedOnceAfterSpend(p, pubKeyHash, source, spender, sig, pubKey);
    SelectTakesBoth(pubKeyHash, source, amount);
  }

  /** A transaction whose output 0 was spent earlier in the walk and whose output 1 was not
      is listed once, for output 1. */
  lemma ListedOnceAfterSpend(p: Primitives, pubKeyHash: Bytes, source: Transaction, spender: Transaction,
                             sig: Bytes, pubKey: Bytes)
    requires |source.vout| == 2
    requires IsLockedWithKey(source.vout[0], pubKeyHash) && IsLockedWithKey(source.vout[1], pubKeyHash)
    requires !IsCoinbase(spender) && spender.vin == [TxInput(source.id, 0, sig, pubKey)] && spender.vout == []
    requires p.hashPubKey(pubKey) == pubKeyHash
    ensures UnspentTxsAfter(p, pubKeyHash, [spender, source]) == [source]
  {
    var key := HexEncode(source.id);
    var f := InputsOfKey(pubKeyHash);
    var outs := source.vout;
    assert UnspentTxsAfter(p, pubKeyHash, [spender]) == [] by {
      UnspentTxsStep(p, pubKeyHash, [], spender);
      assert [] + [spender] == [spender];
    }
    assert SpentAfter(p, f, [spender]) == map[key := [0]] by {
      UnspentTxsStep(p, pubKeyHash, [], spender);
      assert [] + [spender] == [spender];
      assert spender.vin[..0] == [];
      assert Counts(p, f, spender.vin[0]);
      assert RecordInputs(p, f, map[], spender.vin[..0]) == map[];
      assert Listed(map[], key) + [0] == [0];
    }
    assert LockedSurvivors(outs, [0], pubKeyHash) == [outs[1]] by {
      assert outs[..1][..0] == [] && outs[..2] == outs;
      assert LockedSurvivors(outs[..1], [0], pubKeyHash) == [];
    }
    UnspentTxsStep(p, pubKeyHash, [spender], source);
    assert [spender] + [source] == [spender, source];
    assert Listed(map[key := [0]], key) == [0];
    assert seq(1, _ => source) == [source];
  }

  /** With both outputs locked to the key and the first short of the amount, the selection
      over the transaction takes positions 0 and 1. */
  lemma SelectTakesBoth(pubKeyHash: Bytes, source: Transaction, amount: int)
    requires |source.vout| == 2
    requires IsLockedWithKey(source.vout[0], pubKeyHash) && IsLockedWithKey(source.vout[1], pubKeyHash)
    requires 0 < amount && source.vout[0].value < amount
    ensures Group(Select(Candidates([source]), pubKeyHash, amount).picks) == map[HexEncode(source.id) := [0, 1]]
  {
    var key := HexEncode(source.id);
    var outs := source.vout;
    var c0, c1 := Candidate(key, 0, outs[0]), Candidate(key, 1, outs[1]);
    assert Candidates([source]) == [c0, c1] by {
      assert [source][..0] == [];
      assert Candidates([source]) == [] + OutputsOf(source);
    }
    assert Select([c0, c1], pubKeyHash, amount).picks == [c0, c1] by {
      assert [] + [c0] == [c0] && [c0] + [c1] == [c0, c1];
      SelectStep([], c0, pubKeyHash, amount);
      SelectStep([c0], c1, pubKeyHash, amount);
    }
    assert Group([c0, c1]) == map[key := [0, 1]] by {
      assert [] + [c0] == [c0] && [c0] + [c1] == [c0, c1];
      GroupStep([], c0);
      GroupStep([c0], c1);
      assert Listed(map[], key) + [0] == [0];
      assert Listed(map[key := [0]], key) + [1] == [0, 1];
    }
  }

  /** Each block of the chain is stored under its 32-byte hash and links to the next one by
      PrevHash; only the last, the genesis block, has an empty PrevHash. */
  ghost predicate StoredChain(chain: seq<Block>, blocks: map<Bytes, Block>)
    requires |chain| > 0
  {
    && (forall i :: 0 <= i < |chain| ==> |chain[i].hash| == 32)
    && (forall i :: 0 <= i < |chain| ==> chain[i].hash in blocks && blocks[chain[i].hash] == chain[i])
    && (forall i :: 0 <= i < |chain| - 1 ==> chain[i].prevHash == chain[i + 1].hash)
    && chain[|chain| - 1].prevHash == []
  }

  /** Storing a new 32-byte-hash block that links to the front of a stored chain, under a
      hash not yet in use, stores the longer chain. */
  lemma StoredChainPush(chain: seq<Block>, blocks: map<Bytes, Block>, b: Block)
    requires |chain| > 0 && StoredChain(chain, blocks)
    requires b.prevHash == chain[0].hash && |b.hash| == 32 && b.hash !in blocks
    ensures StoredChain([b] + chain, blocks[b.hash := b])
  {
    var c := [b] + chain;
    forall i | 0 <= i < |c|
      ensures c[i].hash in blocks[b.hash := b] && blocks[b.hash := b][c[i].hash] == c[i]
    {
      if i > 0 {
        assert c[i] == chain[i - 1];
      }
    }
    forall i | 0 <= i < |c| - 1
      ensures c[i].prevHash == c[i + 1].hash
    {
      if i > 0 {
        assert c[i] == chain[i - 1];
      }
    }
  }

  // ----- NewUTXOTransaction -----

  /** The input-building loops of NewUTXOTransaction: keys in the map's iteration order, and
      for each key one input per listed position, with the signature left empty. */
  method InputsOf(validOuts: map<string, seq<int>>, pubKey: Bytes) returns (inputs: seq<TxInput>, ghost order: seq<string>)
    ensures Enumerates(order, validOuts)
    ensures inputs == InputsFor(order, validOuts, pubKey)
  {
    inputs := [];
    order := [];
    var remaining := validOuts.Keys;
    while remaining != {}
      invariant remaining <= validOuts.Keys
      invariant forall k :: k in order ==> k in validOuts && k !in remaining
      invariant forall k :: k in validOuts ==> k in remaining || k in order
      invariant forall a, b :: 0 <= a < b < |order| ==> order[a] != order[b]
      invariant inputs == InputsFor(order, validOuts, pubKey)
      decreases |remaining|
    {
      var id :| id in remaining;
      var txID := DecodedId(id);
      var outs := validOuts[id];
      ghost var base := inputs;
      for j := 0 to |outs|
        invariant inputs == base + seq(j, k requires 0 <= k < j => TxInput(txID, outs[k], [], pubKey))
      {
        inputs := inputs + [TxInput(txID, outs[j], [], pubKey)];
      }
      assert (order + [id])[..|order|] == order;
      order := order + [id];
      remaining := remaining - {id};
    }
  }

  /** The ID a key of FindSpendableOutputs' map decodes to (its keys are always hex encodings).
      Go's DecodeString would hand back the bytes decoded before an invalid digit; the fallback
      here is never reached, because DecodedIdOfEncoding shows every such key decodes. */
  function DecodedId(key: string): Bytes
  {
    match HexDecode(key)
    case Some(id) => id
    case None => []
  }

  /** The keys of a map, each once, in some order: Go's map iteration. */
  ghost predicate Enumerates(order: seq<string>, m: map<string, seq<int>>)
  {
    && (forall k :: k in order <==> k in m)
    && (forall a, b :: 0 <= a < b < |order| ==> order[a] != order[b])
  }

  lemma EnumerationExists(m: map<string, seq<int>>)
    ensures exists order :: Enumerates(order, m)
    decreases |m.Keys|
  {
    if m != map[] {
      var k :| k in m;
      var rest := m - {k};
      assert |rest.Keys| < |m.Keys| by {
        assert rest.Keys == m.Keys - {k};
      }
      EnumerationExists(rest);
      var order :| Enumerates(order, rest);
      assert Enumerates(order + [k], m);
    } else {
      assert Enumerates([], m);
    }
  }

  /** The inputs NewUTXOTransaction builds: per key in iteration order, one input per position. */
  function InputsFor(order: seq<string>, m: map<string, seq<int>>, pubKey: Bytes): seq<TxInput>
    requires forall k :: k in order ==> k in m
  {
    if order == [] then []
    else
      var key := order[|order| - 1];
      InputsFor(order[..|order| - 1], m, pubKey)
        + seq(|m[key]|, j requires 0 <= j < |m[key]| => TxInput(DecodedId(key), m[key][j], [], pubKey))
  }

  /** The outputs: `amount` to the recipient, then the excess back to the wallet's address. */
  function PaymentOutputs(p: Primitives, wlt: Wallet, to: Bytes, amount: int, acc: int): Result<seq<TxOutput>>
  {
    match NewTxOut(p, amount, to)
    case Err(e) => Err(e)
    case Ok(first) =>
      if acc > amount then
        match NewTxOut(p, acc - amount, p.addressOf(wlt.publicKey))
        case Err(e) => Err(e)
        case Ok(change) => Ok([first, change])
      else Ok([first])
  }

  /** What NewUTXOTransaction returns for a selection and an iteration order of its map. */
  function Payment(p: Primitives, wlt: Wallet, to: Bytes, amount: int, acc: int, validOuts: map<string, seq<int>>,
                   order: seq<string>): Result<Transaction>
    requires forall k :: k in order ==> k in validOuts
  {
    if acc < amount then Err(NotEnoughFunds)
    else
      match PaymentOutputs(p, wlt, to, amount, acc)
      case Err(e) => Err(e)
      case Ok(outs) => Ok(SetID(p, Transaction([], InputsFor(order, validOuts, wlt.publicKey), outs)))
  }

  /** A payment pays exactly `amount` first, locked to the recipient's address, and its
      outputs add up to the selected total: the change output appears exactly when the total
      exceeds the amount, locked to the wallet's own address. Its inputs are the selected
      positions, key by key in the iteration order. */
  lemma PaymentConservesValue(p: Primitives, wlt: Wallet, to: Bytes, amount: int, acc: int,
                              validOuts: map<string, seq<int>>, order: seq<string>)
    requires forall k :: k in order ==> k in validOuts
    requires Payment(p, wlt, to, amount, acc, validOuts, order).Ok?
    ensures var tx := Payment(p, wlt, to, amount, acc, validOuts, order).value;
      && acc >= amount
      && |tx.vout| == (if acc > amount then 2 else 1)
      && tx.vout[0].value == amount
      && SumValues(tx.vout) == acc
      && |tx.id| == 32
      && tx.vin == InputsFor(order, validOuts, wlt.publicKey)
      && (var d := p.base58Decode(to); tx.vout[0].pubKeyHash == d[1..|d| - 4])
      && (acc > amount ==> var e := p.base58Decode(p.addressOf(wlt.publicKey)); tx.vout[1].pubKeyHash == e[1..|e| - 4])
  {
    var outs := PaymentOutputs(p, wlt, to, amount, acc).value;
    var first := outs[0];
    assert SumValues([first]) == amount by {
      assert [first][..0] == [];
    }
    if acc > amount {
      assert outs[..1] == [first];
      assert SumValues(outs) == amount + (acc - amount);
    }
  }

  /** The payment NewUTXOTransaction builds from the selected outputs has one input per
      selected output, and its inputs are exactly the selected (ID, position) pairs. */
  lemma PaymentSpendsSelection(p: Primitives, wlt: Wallet, to: Bytes, amount: int, acc: int,
                               picks: seq<Candidate>, order: seq<string>, x: TxInput)
    requires Enumerates(order, Group(picks))
    requires Payment(p, wlt, to, amount, acc, Group(picks), order).Ok?
    ensures var tx := Payment(p, wlt, to, amount, acc, Group(picks), order).value;
      && |tx.vin| == |picks|
      && (x in tx.vin <==> exists c :: c in picks && x == TxInput(DecodedId(c.txId), c.index, [], wlt.publicKey))
  {
    PaymentConservesValue(p, wlt, to, amount, acc, Group(picks), order);
    InputsForCount(order, picks, wlt.publicKey);
    PaymentInputsAreSelected(order, picks, wlt.publicKey, x);
  }

  /** Every input spends a selected output, and every selected output is spent by an input. */
  lemma {:induction false} PaymentInputsAreSelected(order: seq<string>, picks: seq<Candidate>, pubKey: Bytes, x: TxInput)
    requires Enumerates(order, Group(picks))
    ensures x in InputsFor(order, Group(picks), pubKey) <==>
      exists c :: c in picks && x == TxInput(DecodedId(c.txId), c.index, [], pubKey)
  {
    var m := Group(picks);
    InputsForIff(order, m, pubKey, x);
    if x in InputsFor(order, m, pubKey) {
      var key, j :| key in order && 0 <= j < |m[key]| && x == TxInput(DecodedId(key), m[key][j], [], pubKey);
      GroupIff(picks, key, m[key][j]);
      assert m[key][j] in Listed(m, key);
    }
    if exists c :: c in picks && x == TxInput(DecodedId(c.txId), c.index, [], pubKey) {
      var c :| c in picks && x == TxInput(DecodedId(c.txId), c.index, [], pubKey);
      GroupIff(picks, c.txId, c.index);
      GroupKeys(picks, c.txId);
      var j :| 0 <= j < |m[c.txId]| && m[c.txId][j] == c.index;
      assert c.txId in order;
    }
  }

  lemma {:induction false} InputsForIff(order: seq<string>, m: map<string, seq<int>>, pubKey: Bytes, x: TxInput)
    requires forall k :: k in order ==> k in m
    ensures x in InputsFor(order, m, pubKey) <==>
      exists key, j :: key in order && 0 <= j < |m[key]| && x == TxInput(DecodedId(key), m[key][j], [], pubKey)
  {
    if order != [] {
      var order' := order[..|order| - 1];
      var key := order[|order| - 1];
      InputsForIff(order', m, pubKey, x);
      assert order == order' + [key];
      var tail := seq(|m[key]|, j requires 0 <= j < |m[key]| => TxInput(DecodedId(key), m[key][j], [], pubKey));
      if x in tail {
        var j :| 0 <= j < |tail| && tail[j] == x;
        assert key in order;
      }
      if exists k, j :: k in order && 0 <= j < |m[k]| && x == TxInput(DecodedId(k), m[k][j], [], pubKey) {
        var k, j :| k in order && 0 <= j < |m[k]| && x == TxInput(DecodedId(k), m[k][j], [], pubKey);
        if k !in order' {
          assert k == key;
          assert x == tail[j];
        }
      }
    }
  }

  /** The number of positions the map lists under the keys of `order`. */
  function ListedCount(order: seq<string>, m: map<string, seq<int>>): nat
  {
    if order == [] then 0 else ListedCount(order[..|order| - 1], m) + |Listed(m, order[|order| - 1])|
  }

  /** How often `key` occurs in `order`. */
  function Occurrences(order: seq<string>, key: string): nat
  {
    if order == [] then 0
    else Occurrences(order[..|order| - 1], key) + (if order[|order| - 1] == key then 1 else 0)
  }

  lemma {:induction false} InputsForLength(order: seq<string>, m: map<string, seq<int>>, pubKey: Bytes)
    requires forall k :: k in order ==> k in m
    ensures |InputsFor(order, m, pubKey)| == ListedCount(order, m)
  {
    if order != [] {
      InputsForLength(order[..|order| - 1], m, pubKey);
    }
  }

  lemma {:induction false} ListedCountEmpty(order: seq<string>)
    ensures ListedCount(order, map[]) == 0
  {
    if order != [] {
      ListedCountEmpty(order[..|order| - 1]);
    }
  }

  /** Listing one more position under `key` adds one per occurrence of `key`. */
  lemma {:induction false} ListedCountStep(order: seq<string>, m: map<string, seq<int>>, key: string, i: int)
    ensures ListedCount(order, m[key := Listed(m, key) + [i]]) == ListedCount(order, m) + Occurrences(order, key)
  {
    if order != [] {
      ListedCountStep(order[..|order| - 1], m, key, i);
    }
  }

  lemma {:induction false} OccursOnce(order: seq<string>, key: string)
    requires forall a, b :: 0 <= a < b < |order| ==> order[a] != order[b]
    ensures Occurrences(order, key) == (if key in order then 1 else 0)
  {
    if order != [] {
      var n := |order| - 1;
      OccursOnce(order[..n], key);
      assert order == order[..n] + [order[n]];
    }
  }

  lemma {:induction false} GroupListedCount(order: seq<string>, picks: seq<Candidate>)
    requires forall a, b :: 0 <= a < b < |order| ==> order[a] != order[b]
    requires forall c :: c in picks ==> c.txId in order
    ensures ListedCount(order, Group(picks)) == |picks|
  {
    if picks == [] {
      ListedCountEmpty(order);
    } else {
      var n := |picks| - 1;
      var c := picks[n];
      assert picks == picks[..n] + [c];
      GroupListedCount(order, picks[..n]);
      GroupStep(picks[..n], c);
      ListedCountStep(order, Group(picks[..n]), c.txId, c.index);
      OccursOnce(order, c.txId);
    }
  }

  /** NewUTXOTransaction builds exactly one input per selected output. */
  lemma InputsForCount(order: seq<string>, picks: seq<Candidate>, pubKey: Bytes)
    requires Enumerates(order, Group(picks))
    ensures |InputsFor(order, Group(picks), pubKey)| == |picks|
  {
    forall c | c in picks
      ensures c.txId in order
    {
      GroupKeys(picks, c.txId);
    }
    InputsForLength(order, Group(picks), pubKey);
    GroupListedCount(order, picks);
  }

  /** Selected candidates name the hex IDs of transactions, which decode back to those IDs. */
  lemma DecodedIdOfEncoding(id: Bytes)
    ensures DecodedId(HexEncode(id)) == id
  {
    HexRoundTrip(id);
  }

  // ----- SignTransactions and VerifyTransaction -----

  /** The map SignTransactions and VerifyTransaction hand on: for each input, the walk's
      transaction with its ID under the hex of that ID; TxNotFound at the first input
      whose transaction is not on the chain. */
  function PrevTxsFor(txs: seq<Transaction>, vin: seq<TxInput>): Result<map<string, Transaction>>
  {
    if vin == [] then Ok(map[])
    else
      match PrevTxsFor(txs, vin[..|vin| - 1])
      case Err(e) => Err(e)
      case Ok(m) =>
        var input := vin[|vin| - 1];
        match FindById(txs, input.txId)
        case None => Err(TxNotFound)
        case Some(prev) => Ok(m[HexEncode(input.txId) := prev])
  }

  lemma {:induction false} PrevTxsForSticky(txs: seq<Transaction>, vin: seq<TxInput>, j: nat)
    requires j <= |vin| && PrevTxsFor(txs, vin[..j]).Err?
    ensures PrevTxsFor(txs, vin) == PrevTxsFor(txs, vin[..j])
    decreases |vin| - j
  {
    if j < |vin| {
      assert vin[..j + 1][..j] == vin[..j];
      PrevTxsForSticky(txs, vin, j + 1);
    } else {
      assert vin[..j] == vin;
    }
  }

  /** The lookups succeed exactly when every input's transaction is on the chain, and then
      each input finds, under the hex of its ID, the first transaction of the walk with that ID. */
  lemma {:induction false} PrevTxsForLookup(txs: seq<Transaction>, vin: seq<TxInput>)
    ensures PrevTxsFor(txs, vin).Ok? <==> forall j :: 0 <= j < |vin| ==> FindById(txs, vin[j].txId).Some?
    ensures PrevTxsFor(txs, vin).Ok? ==>
      forall j :: 0 <= j < |vin| ==> PrevTx(PrevTxsFor(txs, vin).value, vin[j]) == FindById(txs, vin[j].txId).value
  {
    if vin != [] {
      var vin' := vin[..|vin| - 1];
      var input := vin[|vin| - 1];
      PrevTxsForLookup(txs, vin');
      assert forall j :: 0 <= j < |vin'| ==> vin'[j] == vin[j];
      if PrevTxsFor(txs, vin).Ok? {
        var m := PrevTxsFor(txs, vin').value;
        forall j | 0 <= j < |vin| - 1
          ensures PrevTx(PrevTxsFor(txs, vin).value, vin[j]) == FindById(txs, vin[j].txId).value
        {
          if HexEncode(vin[j].txId) == HexEncode(input.txId) {
            HexEncodeInjective(vin[j].txId, input.txId);
          }
        }
      }
    }
  }

  /** The lookups read only the inputs' source IDs. */
  lemma {:induction false} PrevTxsForRefs(txs: seq<Transaction>, a: seq<TxInput>, b: seq<TxInput>)
    requires |a| == |b| && forall j :: 0 <= j < |a| ==> a[j].txId == b[j].txId
    ensures PrevTxsFor(txs, a) == PrevTxsFor(txs, b)
  {
    if a != [] {
      PrevTxsForRefs(txs, a[..|a| - 1], b[..|b| - 1]);
    }
  }

  /** On the chain: a transaction signed by SignTransactions passes VerifyTransaction, under
      the key-pair and signature-width conditions of Signing.SignThenVerify. */
  lemma ChainSignThenVerify(p: Primitives, txs: seq<Transaction>, key: PrivateKey, pub: PublicKey, tx: Transaction)
    requires PrevTxsFor(txs, tx.vin).Ok? && Signed(p, key, tx, PrevTxsFor(txs, tx.vin).value).Ok?
    requires KeyPair(p, key, pub) && SplittableSignatures(p, key)
    requires forall i :: 0 <= i < |tx.vin| ==> SplitHalves(tx.vin[i].pubKey) == (pub.x, pub.y)
    ensures var signed := Signed(p, key, tx, PrevTxsFor(txs, tx.vin).value).value;
      PrevTxsFor(txs, signed.vin) == PrevTxsFor(txs, tx.vin)
      && Verified(p, signed, PrevTxsFor(txs, signed.vin).value) == Ok(true)
  {
    var prevTxs := PrevTxsFor(txs, tx.vin).value;
    var signed := Signed(p, key, tx, prevTxs).value;
    SignedShape(p, key, tx, prevTxs);
    PrevTxsForRefs(txs, signed.vin, tx.vin);
    SignThenVerify(p, key, pub, tx, prevTxs);
  }
}
