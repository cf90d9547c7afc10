/** Transactions, their inputs and outputs (transaction/transaction.go), and the
    foreign primitives the ledger calls: hashing, encodings and ECDSA. */
module Transactions {
  import opened Bytes
  import opened Outcomes

  /** The block reward paid by a coinbase transaction. */
  const Subsidy: int := 10

  /** An amount locked to the hash of a recipient's public key. */
  datatype TxOutput = TxOutput(value: int, pubKeyHash: Bytes)

  /** A reference to output `vout` of transaction `txId`, with the spender's signature and public key. */
  datatype TxInput = TxInput(txId: Bytes, vout: int, signature: Bytes, pubKey: Bytes)

  datatype Transaction = Transaction(id: Bytes, vin: seq<TxInput>, vout: seq<TxOutput>)

  /** A SHA-256 digest. */
  type Hash = h: Bytes | |h| == 32 witness seq(32, _ => 0)

  datatype PrivateKey = PrivateKey(d: nat)

  /** A point of curve P-256. */
  datatype PublicKey = PublicKey(x: nat, y: nat)

  /** The functions the ledger takes from outside its own code, as values:
      SHA-256, the gob encoding of a transaction, its "%x\n" rendering (the signed
      payload), the Merkle root of a list, wallet.HashPubKey, Base58 decoding, the
      address of a wallet's public key, and ECDSA signing and verification over P-256
      (the randomness of signing is folded into ecdsaSign). */
  datatype Primitives = Primitives(
    sha256: Bytes -> Hash,
    encodeTx: Transaction -> Bytes,
    renderTx: Transaction -> Bytes,
    merkleRoot: seq<Bytes> -> Bytes,
    hashPubKey: Bytes -> Bytes,
    base58Decode: Bytes -> Bytes,
    addressOf: Bytes -> Bytes,
    ecdsaSign: (PrivateKey, Bytes) -> (nat, nat),
    ecdsaVerify: (PublicKey, Bytes, nat, nat) -> bool)

  /** A coinbase has exactly one input, with an empty source ID and source index -1. */
  predicate IsCoinbase(tx: Transaction)
  {
    |tx.vin| == 1 && |tx.vin[0].txId| == 0 && tx.vin[0].vout == -1
  }

  /** IsCoinbase accepts exactly the one-input shape {[], -1, any signature, any key}. */
  lemma CoinbaseShape(tx: Transaction)
    ensures IsCoinbase(tx) <==> exists sig, pk :: tx.vin == [TxInput([], -1, sig, pk)]
  {
    if IsCoinbase(tx) {
      var sig, pk := tx.vin[0].signature, tx.vin[0].pubKey;
      assert tx.vin == [TxInput([], -1, sig, pk)];
    }
  }

  predicate IsLockedWithKey(out: TxOutput, pubKeyHash: Bytes)
  {
    out.pubKeyHash == pubKeyHash
  }

  /** The input was made with a public key whose hash is pubKeyHash. */
  predicate UsesKey(p: Primitives, input: TxInput, pubKeyHash: Bytes)
  {
    p.hashPubKey(input.pubKey) == pubKeyHash
  }

  /** Lock: the decoded address without its version byte and 4-byte checksum becomes
      the output's public-key hash; slicing a decoded address shorter than 5 bytes panics. */
  function Lock(p: Primitives, out: TxOutput, address: Bytes): (r: Result<TxOutput>)
    ensures var d := p.base58Decode(address);
      && (r.Ok? <==> |d| >= 5)
      && (r.Err? ==> r.error == AddressTooShort)
      && (r.Ok? ==> r.value.value == out.value && d == d[..1] + r.value.pubKeyHash + d[|d| - 4..])
  {
    var d := p.base58Decode(address);
    if |d| < 5 then Err(AddressTooShort) else Ok(out.(pubKeyHash := d[1..|d| - 4]))
  }

  /** An output is locked by Lock to exactly the middle of the decoded address. */
  lemma LockedToAddress(p: Primitives, out: TxOutput, address: Bytes, pubKeyHash: Bytes)
    requires Lock(p, out, address).Ok?
    ensures var d := p.base58Decode(address);
      IsLockedWithKey(Lock(p, out, address).value, pubKeyHash) <==> pubKeyHash == d[1..|d| - 4]
  {
  }

  function NewTxOut(p: Primitives, value: int, address: Bytes): (r: Result<TxOutput>)
    ensures r.Ok? <==> |p.base58Decode(address)| >= 5
    ensures r.Ok? ==> r.value.value == value
    ensures r.Ok? ==> var d := p.base58Decode(address); r.value.pubKeyHash == d[1..|d| - 4]
  {
    Lock(p, TxOutput(value, []), address)
  }

  /** SetID: the ID becomes the SHA-256 of the encoding of the transaction as it stands;
      nothing else changes. */
  function SetID(p: Primitives, tx: Transaction): (r: Transaction)
    ensures |r.id| == 32 && r.vin == tx.vin && r.vout == tx.vout
    ensures r.id == p.sha256(p.encodeTx(tx))
  {
    tx.(id := p.sha256(p.encodeTx(tx)))
  }

  /** The bytes of an ASCII literal: each character's code (every literal used here is ASCII). */
  function Ascii(s: string): (r: Bytes)
  {
    seq(|s|, i requires 0 <= i < |s| => (s[i] as int % 256) as byte)
  }

  /** The memo NewCoinbaseTx writes when it is given no data: Reward to '<to>'. */
  function RewardMemo(to: Bytes): Bytes
  {
    Ascii("Reward to '") + to + Ascii("'")
  }

  /** NewCoinbaseTx: one input {[], -1, nil, data} and one output of the subsidy locked to `to`. */
  function NewCoinbaseTx(p: Primitives, to: Bytes, data: Bytes): (r: Result<Transaction>)
    ensures var d := p.base58Decode(to);
      && (r.Ok? <==> |d| >= 5)
      && (r.Ok? ==>
            && IsCoinbase(r.value)
            && r.value.vin == [TxInput([], -1, [], if data == [] then RewardMemo(to) else data)]
            && r.value.vout == [TxOutput(Subsidy, d[1..|d| - 4])]
            && |r.value.id| == 32)
  {
    var memo := if data == [] then RewardMemo(to) else data;
    var txIn := TxInput([], -1, [], memo);
    match NewTxOut(p, Subsidy, to)
    case Err(e) => Err(e)
    case Ok(txOut) => Ok(SetID(p, Transaction([], [txIn], [txOut])))
  }

  /** TrimmedCopy: the same ID, references and outputs, with every input's Signature and PubKey empty. */
  function TrimmedCopy(tx: Transaction): (r: Transaction)
    ensures r.id == tx.id && r.vout == tx.vout && |r.vin| == |tx.vin|
    ensures forall i :: 0 <= i < |tx.vin| ==>
      r.vin[i].txId == tx.vin[i].txId && r.vin[i].vout == tx.vin[i].vout &&
      r.vin[i].signature == [] && r.vin[i].pubKey == []
  {
    Transaction(tx.id, seq(|tx.vin|, i requires 0 <= i < |tx.vin| => TxInput(tx.vin[i].txId, tx.vin[i].vout, [], [])), tx.vout)
  }

  /** Two transactions that differ at most in their inputs' signatures and public keys. */
  predicate SameReferences(a: Transaction, b: Transaction)
  {
    && a.id == b.id && a.vout == b.vout && |a.vin| == |b.vin|
    && forall i :: 0 <= i < |a.vin| ==> a.vin[i].txId == b.vin[i].txId && a.vin[i].vout == b.vin[i].vout
  }

  /** The trimmed copy does not depend on signatures or public keys, so a signature never covers itself. */
  lemma TrimmedCopyIgnoresWitnesses(a: Transaction, b: Transaction)
    ensures SameReferences(a, b) <==> TrimmedCopy(a) == TrimmedCopy(b)
  {
    if TrimmedCopy(a) == TrimmedCopy(b) {
      forall i | 0 <= i < |a.vin| ensures a.vin[i].txId == b.vin[i].txId && a.vin[i].vout == b.vin[i].vout {
        assert TrimmedCopy(a).vin[i] == TrimmedCopy(b).vin[i];
      }
    }
  }

  /** The total value of a list of outputs. */
  function SumValues(outs: seq<TxOutput>): int
  {
    if outs == [] then 0 else SumValues(outs[..|outs| - 1]) + outs[|outs| - 1].value
  }

  lemma {:induction false} SumValuesAppend(a: seq<TxOutput>, b: seq<TxOutput>)
    ensures SumValues(a + b) == SumValues(a) + SumValues(b)
    decreases |b|
  {
    if b != [] {
      assert (a + b)[..|a + b| - 1] == a + b[..|b| - 1];
      SumValuesAppend(a, b[..|b| - 1]);
    } else {
      assert a + b == a;
    }
  }
}
