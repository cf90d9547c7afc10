# myBitCoin ledger core in Dafny

This project models the ledger logic of myBitCoin, a small Go blockchain, and proves
properties of the model:

- **Transactions** (`transaction.dfy`, module `Transactions`). This covers:
  - the coinbase test and output locking;
  - `NewTxOut`, `NewCoinbaseTx`, `SetID` and `TrimmedCopy`.
- **The signing protocol** (`signing.dfy`, module `Signing`). `Sign` writes one ECDSA
  signature per input. Each signature is over the trimmed copy in which only that input
  carries the public-key hash of the output it spends. `Verify` rebuilds the same payloads
  and splits signatures and keys at half their length.
- **Blocks and proof of work** (`block.dfy`, `pow.dfy`, `mining.dfy`). This covers:
  - the header hashed for a nonce;
  - the target 2^232;
  - the linear nonce search of `Run`, and `Validate`;
  - `NewBlock` and `NewGenesisBlock`.
- **The chain** (`walk.dfy`, `blockchain.dfy`).
  - **Store.** The blocks bucket is a map from hash to block, together with the value under
    key `"l"` and the cached tip. A ghost sequence holds the blocks from tip to genesis.
  - **Iterator.** It walks that sequence.
  - **Backward walks.** `FindTransaction`, `FindUnspentTransactions`, `FindUTXO` and the
    greedy `FindSpendableOutputs` are each specified by a function of the walk's
    transactions: tip first, in block order.
  - **Append.** `AddBlock`.
  - **Payments.** `NewUTXOTransaction`, `SignTransactions` and `VerifyTransaction`.
- **The unspent-output index** (`utxo.dfy`, module `UtxoIndex`). The chainstate bucket is a
  map from transaction ID to outputs. This covers:
  - `Update`, applied block by block;
  - `FindUTXO` and `FindSpendableOutputs` over a cursor;
  - `Reindex`.

Helper modules:

- `bytes.dfy` covers byte strings and Go's `int64`. It also models big-endian reading
  (`big.Int.SetBytes`) and writing (`big.Int.Bytes`).
- `hex.dfy` models `hex.EncodeToString` and `hex.DecodeString`, as well as
  `strconv.FormatInt(n, 16)`.
- `outcomes.dfy` holds `Option`, `Result` and the reasons an operation aborts.

A `log.Panic`, a nil dereference or an out-of-range slice in the Go code becomes an `Err`
carrying a `Failure`.

Foreign primitives are fields of a `Primitives` value passed as a parameter:

- SHA-256 and the Merkle root;
- the gob encoding of a transaction and its `%x` rendering;
- `HashPubKey`, Base58 decoding and the wallet address;
- ECDSA signing and verification.

Every bolt transaction (`db.Update`) is atomic. A panic inside one leaves the bucket as it
was.

Where the code behaves differently from what one might expect, the model follows the code:

- `SetID` hashes the transaction as it stands, including whatever ID it carries. At both
  call sites that ID is empty.
- The index's `FindSpendableOutputs` ignores `amount`. It never stops early and returns
  every output locked to the key.
- `Update` removes an output by its position in the stored record. Earlier spends have
  already compacted that record, so the position is not the output's original index
  (`UtxoIndex.RemovesByPositionNotIndex`).
- `Reindex` is two bolt transactions. When the second one panics, the bucket is left empty.
- The backward walks see a spend only if the spender is visited before its source
  (`Chain.WalkOrderDecidesSpent`).
- The chain's `FindSpendableOutputs` does not check again whether an output was spent
  (`Chain.SelectionIgnoresSpends`).
- Splitting a signature at half its length recovers `(r, s)` only when the cut falls at the
  end of `r.Bytes()`. That holds when both encodings have the same length, or when `s`'s is
  exactly one byte longer (`Signing.SplitRecovers`, `Signing.OneByteLongerRecovers`).
  Otherwise Verify misreads the signature (`Signing.UnequalWidthsMisread`). Public keys are
  split the same way.

## Model

| member | source | states |
|---|---|---|
| Bytes.NatToBytesRoundTrip | transaction/transaction.go:196-198 | Reading back big.Int.Bytes() of n with SetBytes gives n. |
| Bytes.NatToBytesMinimal | transaction/transaction.go:150 | big.Int.Bytes() is empty exactly for zero and otherwise has no leading zero byte. |
| Bytes.BytesToNatAppend | transaction/transaction.go:196-198 | Reading a concatenation shifts the left part by 256 to the power of the right part's length. |
| Bytes.BytesToNatBound | block/pow.go:85-87 | A k-byte reading is below 256^k. |
| Bytes.LeadingByteBound | block/pow.go:85-87 | A reading with a nonzero first byte is at least 256^(k-1). |
| Bytes.Pow2Bytes | block/pow.go:48-50 | 2^(8k) equals 256^k, which relates the target's bit shift to whole bytes. |
| Hex.HexRoundTrip | block/blockChain.go:320-321 | hex.DecodeString of hex.EncodeToString(b) gives back b. |
| Hex.HexEncodeInjective | block/blockChain.go:229 | Distinct IDs get distinct hex keys, so map keys never merge two transactions. |
| Hex.EncodingDecodes | utxo/utxoSet.go:128-132 | Every string that is an encoding decodes, and its decoding re-encodes to it. |
| Hex.NatToHexShape | block/pow.go:68-70 | The base-16 digits are lowercase, nonempty, and have a leading '0' only for zero. |
| Hex.NatToHexRoundTrip | block/pow.go:68-70 | Parsing the digits of n gives n. |
| Hex.IntToHexShape | block/pow.go:68-70 | FormatInt(n, 16) is '-' followed by the digits of -n for negatives, and the digits of n otherwise. |
| Hex.IntToHexRoundTrip | block/pow.go:68-70 | Parsing the rendering of n gives n. |
| Hex.IntToHexInjective | block/pow.go:68-70 | Distinct integers render differently. |
| Transactions.CoinbaseShape | transaction/transaction.go:116-118 | IsCoinbase holds iff the inputs are exactly one {[], -1, any signature, any key}. |
| Transactions.Lock | transaction/transaction.go:59-63 | Lock succeeds iff the decoded address has at least 5 bytes. The address is then its first byte, the new PubKeyHash and a 4-byte tail. The value is unchanged. Otherwise it fails with AddressTooShort. |
| Transactions.LockedToAddress | transaction/transaction.go:59-67 | A locked output is locked with a key iff the key is the decoded address minus its first byte and last 4 bytes. |
| Transactions.NewTxOut | transaction/transaction.go:69-73 | The output carries the given value and succeeds iff the address decodes to at least 5 bytes. It is locked to the decoded address without its version byte and 4-byte checksum. |
| Transactions.SetID | transaction/transaction.go:101-113 | The ID becomes the 32-byte SHA-256 of the encoding of the transaction as given. Inputs and outputs are unchanged. |
| Transactions.NewCoinbaseTx | transaction/transaction.go:88-99 | The single input is {[], -1, nil, data}, or "Reward to '<to>'" when data is empty. The single output is the subsidy 10 locked to `to`. IsCoinbase holds and the ID is 32 bytes. It fails iff `to` is too short. |
| Transactions.TrimmedCopy | transaction/transaction.go:157-172 | Same ID, outputs and number of inputs. Every input keeps TxID and Vout and has an empty Signature and PubKey. |
| Transactions.TrimmedCopyIgnoresWitnesses | transaction/transaction.go:157-172 | Two transactions have equal trimmed copies iff they differ at most in signatures and public keys. |
| Transactions.SumValuesAppend | block/blockChain.go:330-335 | The value of a concatenation of outputs is the sum of the parts. |
| Signing.SplitRecovers | transaction/transaction.go:196-198 | Splitting r.Bytes() ‖ s.Bytes() at len/2 recovers (r, s) iff the cut falls exactly at the end of r's bytes. |
| Signing.EqualWidthsRecover | transaction/transaction.go:196-198 | When both halves have the same width, the split recovers (r, s). |
| Signing.UnequalWidthsMisread | transaction/transaction.go:196-198 | (256, 1) is written as [1,0,1] and read back as (1, 1). |
| Signing.OneByteLongerRecovers | transaction/transaction.go:196-198 | A signature whose s is one byte wider than r, (1, 256), is still read back correctly. |
| Signing.SignedShape | transaction/transaction.go:128-155 | A coinbase is left unchanged. Otherwise signing succeeds iff every referenced transaction is present (non-nil ID) and every Vout is in range. On success only signatures change, so the trimmed copy and the coinbase status are kept. |
| Signing.Sign | transaction/transaction.go:128-155 | The loop produces exactly Signed. Input i is signed over the trimmed copy in which only input i carries the spent output's PubKeyHash. |
| Signing.Verify | transaction/transaction.go:175-216 | The loop returns exactly Verified: true for a coinbase, an abort on a missing or out-of-range reference, and false at the first failing input. |
| Signing.FirstFailureAll | transaction/transaction.go:189-215 | When no input aborts from position i on, the loop answers true iff every input from i on passes. |
| Signing.FirstFailureErr | transaction/transaction.go:189-192 | The loop aborts iff some input has an out-of-range reference and every input before it passed. |
| Signing.VerifiedIffAllInputs | transaction/transaction.go:175-216 | For a non-coinbase with all references present and in range, Verify is true iff every input's signature verifies over its own payload. |
| Signing.SignThenVerify | transaction/transaction.go:128-216 | Under a matching key pair, the signed transaction verifies. This assumes the cut at len/2 falls at the end of r's bytes for every signature, and every input's key splits back to (X, Y). |
| Blocks.Serialized | block/block.go:84-89 | One serialization per transaction, in block order. |
| Blocks.HashTransactionsOfList | block/block.go:84-92 | The digest depends only on the ordered serializations of the transactions. |
| ProofOfWork.PrepareDataIgnoresSeal | block/pow.go:57-66 | The header does not read the block's Hash or Nonce. |
| ProofOfWork.PrepareDataInjective | block/pow.go:57-66 | Different nonces give different headers for the same block. |
| ProofOfWork.BytesToNatZero | block/pow.go:85 | A reading is zero iff every byte is zero. |
| ProofOfWork.BelowPowerIffHighZero | block/pow.go:85-87 | A reading of n bytes is below 256^(n-k) iff its first k bytes are zero. |
| ProofOfWork.BelowTargetIffLeadingZeros | block/pow.go:41-50 | A 32-byte hash is below 2^232 iff its first three bytes (24 bits) are zero. |
| ProofOfWork.FirstSolution | block/pow.go:82-93 | The least nonce from `from` on whose hash is below the target, or MaxInt64 when none below MaxInt64 is. No nonce before it solves. |
| ProofOfWork.Run | block/pow.go:74-95 | The search returns Mine: the least solving nonce and its hash. When none is found, it returns MaxInt64 and the hash for MaxInt64 - 1. |
| ProofOfWork.MineIsLeast | block/pow.go:74-107 | Every nonce below the result fails. A result below MaxInt64 solves, and its hash is below the target. |
| Mining.NewBlockShape | block/block.go:57-64 | NewBlock keeps the transactions, PrevHash and time, and its (Nonce, Hash) is Run's pair for the unsealed block. |
| Mining.NewBlockValidates | block/block.go:57-64 | A block sealed by a successful search validates, and its hash is below the target. |
| Mining.NewGenesisBlock | block/block.go:66-68 | Empty PrevHash, exactly the given coinbase, and a 32-byte hash. |
| ChainWalk.FlattenAppend | block/blockChain.go:150-162 | The walk over two runs of blocks is the concatenation of the walks. |
| ChainWalk.FindByIdAppend | block/blockChain.go:150-158 | Finding in a concatenation searches the first part, then the second. |
| ChainWalk.FindByIdIsFirst | block/blockChain.go:150-164 | Not found iff no transaction has the ID. Otherwise the result is the transaction at the first position with the ID. |
| ChainWalk.RecordInputsIff | block/blockChain.go:190-196 | After recording inputs, an index is listed under a key iff it was already listed or a counted input references (key, index). |
| ChainWalk.SpentIff | block/blockChain.go:247-251 | After the walk, index i is listed under a key iff a counted input of a non-coinbase transaction visited so far references it. |
| ChainWalk.Unlisted | block/blockChain.go:232-240 | The unlisted positions are increasing, below n, and include every position below n that is not listed. |
| ChainWalk.Pick | block/blockChain.go:242-244 | The picked outputs are, in order, the outputs at the given positions. |
| ChainWalk.SurvivorsAtUnlisted | block/blockChain.go:231-245 | The surviving outputs are the outputs at the unlisted positions, in their original order. |
| ChainWalk.SurvivorsOfUnlisted | block/blockChain.go:231-245 | With nothing listed, every output survives. |
| ChainWalk.UtxoStep | block/blockChain.go:228-252 | Visiting one more transaction first appends its survivors under its hex ID, then records its spends. |
| ChainWalk.ExtendAllKeyIff | block/blockChain.go:242-244 | Appending outputs under keys in order: a key is present iff some entry with that key has outputs. |
| ChainWalk.ExtendAllDistinct | block/blockChain.go:242-244 | With pairwise distinct keys, each key holds exactly its own entry's outputs. |
| ChainWalk.UtxoIsExtendAll | block/blockChain.go:220-261 | FindUTXO's map is the in-order append of each visited transaction's survivors under its hex ID. |
| ChainWalk.UtxoKeyIff | block/blockChain.go:242-244 | A key is in FindUTXO's map iff some transaction with that hex ID has a surviving output. |
| ChainWalk.UtxoOfDistinct | block/blockChain.go:220-261 | With distinct IDs, each transaction's entry is exactly its survivors. |
| ChainWalk.UtxoHoldsUnspent | block/blockChain.go:220-261 | With distinct IDs, output i of transaction t is kept iff no input of a non-coinbase transaction visited before t references it. |
| ChainWalk.LockedSurvivorsFilter | block/blockChain.go:177-189 | An output is appended for iff it survives and is locked to the key. |
| ChainWalk.UnspentTxsStep | block/blockChain.go:174-197 | A visited transaction is appended once per surviving locked output; then the spends by inputs using the key are recorded. |
| ChainWalk.RepeatMembership | block/blockChain.go:184-186 | In a list that repeats each transaction by its count, a transaction occurs iff some position holding it has a positive count. |
| ChainWalk.UnspentTxsIsRepeat | block/blockChain.go:167-205 | FindUnspentTransactions' list repeats each visited transaction once per surviving locked output, in walk order. |
| ChainWalk.UnspentTxsMembership | block/blockChain.go:167-205 | A transaction is listed iff some occurrence of it in the walk has an unspent output locked to the key. |
| ChainWalk.CandidatesAppend | block/blockChain.go:269-271 | The outputs met over two lists are those of the first, then of the second. |
| ChainWalk.SelectSaturated | block/blockChain.go:276-278 | Once the total reaches the amount, later outputs change nothing, so stopping there is exact. |
| ChainWalk.SelectIsGreedy | block/blockChain.go:263-283 | The selection is the shortest prefix of the locked outputs whose sum reaches the amount (all of them if none does). The total is the sum of the selected values. |
| ChainWalk.GroupIff | block/blockChain.go:273 | Position i is listed under a key iff a selected output of that key has position i. |
| ChainWalk.GroupKeys | block/blockChain.go:273 | A key is present iff some selected output has it. |
| Chain.BlockChain.FromGenesis | block/blockChain.go:98-109 | The store holds only the genesis block under its hash, and "l" and the tip point at it. |
| Chain.BlockChain.AddBlock | block/blockChain.go:127-144 | The store maps the new block's hash to the block mined on the old "l", and "l" and the tip are that hash. No other key changes. The stored chain grows by the new block when its hash was unused. |
| Chain.BlockChain.Iterator | block/blockChain.go:285-287 | A fresh iterator starting at the tip. |
| Chain.BlockChain.WalkStep | block/blockChain.go:150-162 | At step i the iterator reads the stored block chain[i]. Its PrevHash is empty iff it is the last block, and otherwise is the hash of the next one. |
| Chain.BlockchainIterator.constructor | block/blockChain.go:285-293 | The cursor starts at the chain's tip. |
| Chain.BlockchainIterator.Next | block/blockChain.go:295-306 | Returns the block stored under the cursor and moves the cursor to its PrevHash. An absent hash aborts. |
| Chain.BlockChain.FindTransaction | block/blockChain.go:146-165 | The first transaction of the tip-to-genesis walk with the ID, or TxNotFound after the genesis block. |
| Chain.BlockChain.FindUnspentTransactions | block/blockChain.go:167-205 | Exactly the list UnspentTxsAfter specifies for the whole walk. |
| Chain.BlockChain.FindUTXO | block/blockChain.go:219-261 | Exactly the map UTXOAfter specifies for the whole walk. |
| Chain.BlockChain.FindSpendableOutputs | block/blockChain.go:263-283 | The total and grouped positions of the greedy selection over the listed transactions' outputs. |
| Chain.BlockChain.NewUTXOTransaction | block/blockChain.go:308-340 | For some iteration order of the selected map, the result is Payment over the selection. |
| Chain.BlockChain.SignTransactions | block/blockChain.go:342-355 | Aborts when an input's transaction is not on the chain. Otherwise it is Sign with the map of found transactions keyed by hex ID. |
| Chain.BlockChain.VerifyTransaction | block/blockChain.go:357-370 | Aborts when an input's transaction is not on the chain. Otherwise it is Verify with that map. |
| Chain.BlockChain.CollectPrevTxs | block/blockChain.go:343-352 | The lookup loop builds exactly PrevTxsFor of the walk. |
| Chain.Contains | block/blockChain.go:179-185 | The scan of a spent list answers membership. |
| Chain.ScanFind | block/blockChain.go:153-157 | The scan of one block's transactions returns the first with the ID, or nothing. |
| Chain.RecordSpendsOf | block/blockChain.go:247-251 | The recording loop computes RecordSpends. |
| Chain.AppendSurvivors | block/blockChain.go:231-245 | The output loop appends exactly the survivors under the key. |
| Chain.AppendUnspent | block/blockChain.go:177-189 | The output loop appends the transaction once per surviving locked output. |
| Chain.ScanUnspent | block/blockChain.go:174-198 | Scanning a block's transactions extends the list and spent map to the longer walk. |
| Chain.ScanUtxo | block/blockChain.go:228-253 | Scanning a block's transactions extends the map and spent map to the longer walk. |
| Chain.SelectOutputs | block/blockChain.go:263-283 | The labelled loop with early exit computes Select and Group over all candidates. |
| Chain.SelectFrom | block/blockChain.go:270-279 | One transaction's outputs extend the selection. Reporting a stop means the total reached the amount. |
| Chain.CreateBlockChain | block/blockChain.go:98-113 | Succeeds iff the coinbase to `addr` can be locked. The result is a valid store holding only the genesis block with the genesis text. |
| Chain.GenesisUtxo | block/blockChain.go:98-113 | Right after creation, the unspent-output map holds only the coinbase's outputs under its hex ID. |
| Chain.WalkOrderDecidesSpent | block/blockChain.go:228-252 | A spend visited after its source does not hide the output; visited before, it does. |
| Chain.SelectionIgnoresSpends | block/blockChain.go:263-283 | A transaction listed for one unspent output also contributes its spent locked output. |
| Chain.ListedOnceAfterSpend | block/blockChain.go:167-205 | When a spender of output 0 is visited first, the source is listed once, for its output 1. |
| Chain.SelectTakesBoth | block/blockChain.go:263-283 | Over that one listed transaction, a selection that output 0 alone does not cover takes positions 0 and 1. |
| Chain.StoredChainPush | block/blockChain.go:137-143 | Storing a new block that links to the tip, under an unused hash, stores the longer chain. |
| Chain.InputsOf | block/blockChain.go:320-327 | The input loops enumerate the map's keys once each and build one input per listed position. |
| Chain.EnumerationExists | block/blockChain.go:320 | Every map has an iteration order of its keys. |
| Chain.PaymentConservesValue | block/blockChain.go:320-339 | A successful payment has acc ≥ amount. Its first output is the amount, locked to the recipient's address. A change output exists iff acc > amount, locked to the wallet's own address. The outputs sum to acc and the ID is 32 bytes. The inputs are those built from the selected map in iteration order. |
| Chain.PaymentSpendsSelection | block/blockChain.go:314-339 | A payment built from the selected outputs has exactly as many inputs as outputs were selected. An input is in it iff it spends a selected (ID, position). |
| Chain.InputsForCount | block/blockChain.go:320-327 | The input loop builds one input per selected output. |
| Chain.PaymentInputsAreSelected | block/blockChain.go:320-327 | An input is in the payment iff it spends a selected (ID, position), with nil signature and the wallet's key. |
| Chain.InputsForIff | block/blockChain.go:320-327 | An input is built iff its key is enumerated and its position is listed under that key. |
| Chain.DecodedIdOfEncoding | block/blockChain.go:321 | Decoding a selected hex key gives back the transaction ID. |
| Chain.PrevTxsForSticky | block/blockChain.go:345-348 | The first missing transaction aborts the lookups. |
| Chain.PrevTxsForLookup | block/blockChain.go:342-370 | The lookups succeed iff every input's transaction is on the chain. Each input then finds, under its hex ID, the walk's first transaction with that ID. |
| Chain.PrevTxsForRefs | block/blockChain.go:345-350 | The lookups depend only on the inputs' TxIDs. |
| Chain.ChainSignThenVerify | block/blockChain.go:342-370 | A transaction signed with SignTransactions passes VerifyTransaction on the same chain, given the key conditions of SignThenVerify. |
| UtxoIndex.RemovePositionShape | utxo/utxoSet.go:207-211 | Exactly the element at position Vout goes and the rest keep their order. A position past the end removes nothing. |
| UtxoIndex.RemoveAt | utxo/utxoSet.go:207-211 | The output loop keeps every output except the one at the input's position. |
| UtxoIndex.ApplyTx | utxo/utxoSet.go:228-236 | After a transaction, its ID maps to all of its outputs in order, coinbases included. |
| UtxoIndex.ApplyInputsSticky | utxo/utxoSet.go:202-224 | The first failing input aborts the rest. |
| UtxoIndex.ApplyTxsSticky | utxo/utxoSet.go:200-237 | The first failing transaction aborts the rest. |
| UtxoIndex.ApplyInputsFrame | utxo/utxoSet.go:202-224 | A key no input names is unchanged by the inputs. |
| UtxoIndex.ApplyTxsFrame | utxo/utxoSet.go:194-244 | A key that is neither a transaction ID of the block nor named by an input keeps its presence and record. |
| UtxoIndex.ApplyInputsKeepsKeysNonEmpty | utxo/utxoSet.go:202-224 | The inputs never introduce the empty key. |
| UtxoIndex.ApplyTxsKeepsKeysNonEmpty | utxo/utxoSet.go:194-244 | Update never introduces the empty key, which bolt cannot store. |
| UtxoIndex.RemovesByPositionNotIndex | utxo/utxoSet.go:207-211 | Spending outputs 0 and 1 of a two-output record in one go leaves output 1 indexed. |
| UtxoIndex.UpdateWithTx | utxo/utxoSet.go:201-236 | The loops over one transaction compute ApplyTx. |
| UtxoIndex.UTXOSet.Update | utxo/utxoSet.go:194-244 | The bucket becomes Updated(old bucket, transactions). On any abort it is left as before. It never gains the empty key (Valid). |
| UtxoIndex.LockedInIff | utxo/utxoSet.go:88-92 | An output is kept iff it is in the record and locked to the key. |
| UtxoIndex.LockedOutputsIff | utxo/utxoSet.go:77-102 | FindUTXO lists exactly the outputs locked to the key of visited records. |
| UtxoIndex.CollectLocked | utxo/utxoSet.go:88-92 | The per-record loop appends exactly the record's outputs locked to the key. |
| UtxoIndex.UTXOSet.FindUTXO | utxo/utxoSet.go:77-102 | LockedOutputs in cursor order, or BucketMissing. |
| UtxoIndex.LockedPositionsIff | utxo/utxoSet.go:60-65 | A position is listed iff it is in range and that output is locked to the key. |
| UtxoIndex.SpendablePositionsIff | utxo/utxoSet.go:47-74 | Under hex(k), position i is listed iff k was visited, has a record, and output i of that record is locked to the key. |
| UtxoIndex.SpendableIsBalance | utxo/utxoSet.go:47-102 | FindSpendableOutputs' total equals the sum of the outputs FindUTXO lists. |
| UtxoIndex.ScanRecord | utxo/utxoSet.go:60-65 | The per-record loop adds the locked outputs' values and appends their positions. |
| UtxoIndex.UTXOSet.FindSpendableOutputs | utxo/utxoSet.go:47-74 | Whatever the amount: the total and position map of every locked output, or BucketMissing. |
| UtxoIndex.ReindexedUnique | utxo/utxoSet.go:104-141 | Only one bucket equals the decoded map, so the result does not depend on prior contents and reindexing twice equals once. |
| UtxoIndex.UtxoKeysAreEncodings | utxo/utxoSet.go:128-132 | Every key of the chain's map is a hex encoding, so decoding never panics. |
| UtxoIndex.ReindexThenFindUTXO | utxo/utxoSet.go:77-141 | After a reindex, an output is in FindUTXO's list iff it is locked to the key and unspent on the chain. |
| UtxoIndex.ReindexThenFindUTXOExactly | utxo/utxoSet.go:77-141 | After a reindex, FindUTXO's list is the chain's locked unspent outputs record by record. The hex of the cursor's keys are the chain map's keys, each visited once, so every unspent output is listed exactly once per occurrence. |
| UtxoIndex.DecodeKeys | utxo/utxoSet.go:125-140 | The write loop yields the decoded map, or KeyRequired when an ID is empty. |
| UtxoIndex.UTXOSet.Reindex | utxo/utxoSet.go:104-141 | Afterwards the bucket exists and equals the chain's map with hex-decoded keys. When a transaction with an empty ID has survivors, the result is KeyRequired and an empty bucket. The bucket never holds the empty key (Valid). |
| UtxoIndex.UTXOSet.constructor | utxo/utxoSet.go:43-45 | The index over a chain with the given bucket state. |

## Left out

- **Serialization.** The gob encoding of blocks, transactions and TxOutPuts is left out.
  - The transaction encoding is a parameter (`encodeTx`).
  - The source encodes a transaction two ways: gob of the struct in `SetID`, and `Serialize()`
    in `HashTransactions`. The model uses the single `encodeTx` for both.
  - Blocks and records are stored as values, so encoding is assumed to round-trip.
- **Cryptographic primitives.** SHA-256, ECDSA over P-256, `HashPubKey`, Base58 and the
  Merkle tree are parameters; their properties (collision resistance, unforgeability) are
  not modelled.
  - `Chain.BlockChain.AddBlock` therefore keeps `Valid()` only when the new hash is not
    already a key.
  - The randomness of ECDSA signing is folded into the signing function.
- **Environment.** The clock (`time.Now`) is a parameter. Printing, the command line,
  wallet files, and opening and checking the database file are left out.
  - `NewBlockChain` opens an existing store, so it is not modelled.
  - `CreateBlockChain`'s exit when the file exists is not modelled.
- **Go map iteration order** is an arbitrary choice (`:|`). `Chain.BlockChain.NewUTXOTransaction`
  and `UtxoIndex.UTXOSet.Reindex` therefore state their results for some order.
- **bolt cursor order** is passed in as the key sequence `cursor`, required to enumerate the
  bucket in ascending byte order.
- **Values instead of updates in place.** `Lock` and `SetID` return new values. `Sign`,
  `SignTransactions` and `NewUTXOTransaction` return the built or signed transaction.
  - The aliasing of the input slice between a copy and the original is not modelled.
  - Signatures written before a panic in the middle of `Sign` are not modelled.
- **nil and empty slices** are not distinguished.
- **Other bolt limits.** Only the empty key is modelled. Key-size and value-size limits,
  and a missing blocks bucket in `AddBlock`, are left out.
- **Integer width.** `int` amounts (`Value`, `accumulation`) are unbounded. Overflow past
  2^63 is not modelled; nonces and time stamps are `int64`.
- `Signing.SignThenVerify` and `Chain.ChainSignThenVerify`: proved only under two conditions.
  - Every signature must split back at len/2 (`SplittableSignatures`): the cut falls at the
    end of r's bytes, which needs equal widths or s exactly one byte longer. Verify misreads
    other signatures (`Signing.UnequalWidthsMisread`).
  - Every input's public key must split back to the key's (X, Y). This carries the same
    width condition on X and Y.
- `Mining.NewBlockValidates`: covers only blocks where the search succeeded. An exhausted
  search returns MaxInt64, a nonce that was never tried.
- `ChainWalk.UtxoOfDistinct` and `ChainWalk.UtxoHoldsUnspent`: state the per-output
  characterisation only for walks with pairwise distinct IDs. With repeated IDs the map
  appends the survivors of both transactions under one key.
- `UtxoIndex.UTXOSet.Update` and the other index methods keep the bucket as a field of
  the index value, while in the program the bucket lives in the database the chain holds.
- `Chain.BlockChain.FindTransaction` and the other walks require `Valid()`. The walk over a
  broken store (a missing block, a cycle) is not modelled beyond `Next`'s abort.
