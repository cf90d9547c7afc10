/** The chainstate bucket of utxo/utxoSet.go: an index from transaction ID to the outputs of
    that transaction that are still unspent, kept up to date block by block (Update),
    rebuilt from the chain (Reindex) and queried by a cursor over its keys (FindUTXO,
    FindSpendableOutputs). Each bolt transaction is atomic: when it panics, nothing it wrote
    stays. */
module UtxoIndex {
  import opened Bytes
  import opened Hex
  import opened Outcomes
  import opened Transactions
  import opened Blocks
  import opened ChainWalk
  import opened Chain

  /** The chainstate bucket: a transaction ID to its TxOutPuts record. */
  type Chainstate = map<Bytes, seq<TxOutput>>

  // ----- Update -----

  /** The filter of Update: the record without the element at position k. */
  function RemovePosition(outs: seq<TxOutput>, k: int): seq<TxOutput>
  {
    if outs == [] then []
    else RemovePosition(outs[..|outs| - 1], k) + (if |outs| - 1 == k then [] else [outs[|outs| - 1]])
  }

  /** Exactly the element at position k goes, the others keep their order; a position past
      the end of the record removes nothing. */
  lemma {:induction false} RemovePositionShape(outs: seq<TxOutput>, k: int)
    ensures 0 <= k < |outs| ==> RemovePosition(outs, k) == outs[..k] + outs[k + 1..]
    ensures !(0 <= k < |outs|) ==> RemovePosition(outs, k) == outs
  {
    if outs != [] {
      var n := |outs| - 1;
      var outs' := outs[..n];
      RemovePositionShape(outs', k);
      if k == n {
        assert outs[..k] == outs' && outs[k + 1..] == [];
      } else if 0 <= k < n {
        assert outs'[..k] == outs[..k];
        assert outs'[k + 1..] + [outs[n]] == outs[k + 1..];
      } else {
        assert outs' + [outs[n]] == outs;
      }
    }
  }

  /** One input of a non-coinbase transaction: the record of the transaction it spends loses
      position Vout, and a record left empty is deleted. bolt never stores an empty key, so
      the record of an empty ID is missing too; decoding a missing record panics. */
  function ApplyInput(m: Chainstate, input: TxInput): Result<Chainstate>
  {
    if input.txId == [] || input.txId !in m then Err(RecordMissing)
    else
      var kept := RemovePosition(m[input.txId], input.vout);
      if kept == [] then Ok(m - {input.txId}) else Ok(m[input.txId := kept])
  }

  /** The inputs in order; the first failure ends the transaction. */
  function ApplyInputs(m: Chainstate, vin: seq<TxInput>): Result<Chainstate>
  {
    if vin == [] then Ok(m)
    else
      match ApplyInputs(m, vin[..|vin| - 1])
      case Err(e) => Err(e)
      case Ok(m') => ApplyInput(m', vin[|vin| - 1])
  }

  /** One transaction of the block: the inputs of a non-coinbase transaction, then its ID is
      written with all of its outputs (a Put under an empty ID fails with ErrKeyRequired). */
  function ApplyTx(m: Chainstate, tx: Transaction): (r: Result<Chainstate>)
    ensures r.Ok? ==> tx.id in r.value && r.value[tx.id] == tx.vout
  {
    var spent := if IsCoinbase(tx) then Ok(m) else ApplyInputs(m, tx.vin);
    match spent
    case Err(e) => Err(e)
    case Ok(m') => if tx.id == [] then Err(KeyRequired) else Ok(m'[tx.id := tx.vout])
  }

  /** The block's transactions in order. */
  function ApplyTxs(m: Chainstate, txs: seq<Transaction>): Result<Chainstate>
  {
    if txs == [] then Ok(m)
    else
      match ApplyTxs(m, txs[..|txs| - 1])
      case Err(e) => Err(e)
      case Ok(m') => ApplyTx(m', txs[|txs| - 1])
  }

  /** What Update leaves in the bucket: nothing to do for a block without transactions,
      a panic on the missing bucket otherwise. */
  function Updated(state: Option<Chainstate>, txs: seq<Transaction>): Result<Option<Chainstate>>
  {
    if txs == [] then Ok(state)
    else
      match state
      case None => Err(BucketMissing)
      case Some(m) =>
        match ApplyTxs(m, txs)
        case Err(e) => Err(e)
        case Ok(m') => Ok(Some(m'))
  }

  lemma {:induction false} ApplyInputsSticky(m: Chainstate, vin: seq<TxInput>, j: nat)
    requires j <= |vin| && ApplyInputs(m, vin[..j]).Err?
    ensures ApplyInputs(m, vin) == ApplyInputs(m, vin[..j])
    decreases |vin| - j
  {
    if j < |vin| {
      assert vin[..j + 1][..j] == vin[..j];
      ApplyInputsSticky(m, vin, j + 1);
    } else {
      assert vin[..j] == vin;
    }
  }

  lemma {:induction false} ApplyTxsSticky(m: Chainstate, txs: seq<Transaction>, i: nat)
    requires i <= |txs| && ApplyTxs(m, txs[..i]).Err?
    ensures ApplyTxs(m, txs) == ApplyTxs(m, txs[..i])
    decreases |txs| - i
  {
    if i < |txs| {
      assert txs[..i + 1][..i] == txs[..i];
      ApplyTxsSticky(m, txs, i + 1);
    } else {
      assert txs[..i] == txs;
    }
  }

  /** A key that no input of the inputs names is untouched by them. */
  lemma {:induction false} ApplyInputsFrame(m: Chainstate, vin: seq<TxInput>, k: Bytes)
    requires ApplyInputs(m, vin).Ok?
    requires forall j :: 0 <= j < |vin| ==> vin[j].txId != k
    ensures (k in ApplyInputs(m, vin).value <==> k in m)
    ensures k in m ==> ApplyInputs(m, vin).value[k] == m[k]
  {
    if vin != [] {
      ApplyInputsFrame(m, vin[..|vin| - 1], k);
    }
  }

  /** Update leaves every key that is neither the ID of a transaction of the block nor
      named by one of their inputs as it was. */
  lemma {:induction false} ApplyTxsFrame(m: Chainstate, txs: seq<Transaction>, k: Bytes)
    requires ApplyTxs(m, txs).Ok?
    requires forall t :: 0 <= t < |txs| ==> txs[t].id != k
    requires forall t, j :: 0 <= t < |txs| && 0 <= j < |txs[t].vin| ==> txs[t].vin[j].txId != k
    ensures (k in ApplyTxs(m, txs).value <==> k in m)
    ensures k in m ==> ApplyTxs(m, txs).value[k] == m[k]
  {
    if txs != [] {
      var n := |txs| - 1;
      ApplyTxsFrame(m, txs[..n], k);
      var m' := ApplyTxs(m, txs[..n]).value;
      if !IsCoinbase(txs[n]) {
        ApplyInputsFrame(m', txs[n].vin, k);
      }
    }
  }

  lemma {:induction false} ApplyInputsKeepsKeysNonEmpty(m: Chainstate, vin: seq<TxInput>)
    requires [] !in m && ApplyInputs(m, vin).Ok?
    ensures [] !in ApplyInputs(m, vin).value
  {
    if vin != [] {
      ApplyInputsKeepsKeysNonEmpty(m, vin[..|vin| - 1]);
    }
  }

  /** The bucket never gains the empty key, which bolt cannot store. */
  lemma {:induction false} ApplyTxsKeepsKeysNonEmpty(m: Chainstate, txs: seq<Transaction>)
    requires [] !in m && ApplyTxs(m, txs).Ok?
    ensures [] !in ApplyTxs(m, txs).value
  {
    if txs != [] {
      var n := |txs| - 1;
      ApplyTxsKeepsKeysNonEmpty(m, txs[..n]);
      var m' := ApplyTxs(m, txs[..n]).value;
      if !IsCoinbase(txs[n]) {
        ApplyInputsKeepsKeysNonEmpty(m', txs[n].vin);
      }
    }
  }

  lemma ApplyInputsPair(m: Chainstate, a: TxInput, b: TxInput, m1: Chainstate)
    requires ApplyInput(m, a) == Ok(m1)
    ensures ApplyInputs(m, [a, b]) == ApplyInput(m1, b)
  {
    assert [a, b][..1] == [a] && [a][..0] == [];
    assert ApplyInputs(m, []) == Ok(m);
    assert ApplyInputs(m, [a]) == Ok(m1);
  }

  /** Removal is by position in the stored record, which earlier spends have already
      compacted: spending outputs 0 and 1 of a two-output transaction in one go leaves
      output 1 in the index, because after the first removal it sits at position 0. */
  lemma RemovesByPositionNotIndex(id: Bytes, o0: TxOutput, o1: TxOutput, sig: Bytes, pubKey: Bytes)
    requires id != []
    ensures var spendBoth := [TxInput(id, 0, sig, pubKey), TxInput(id, 1, sig, pubKey)];
      ApplyInputs(map[id := [o0, o1]], spendBoth) == Ok(map[id := [o1]])
  {
    var m1 := map[id := [o1]];
    assert ApplyInput(map[id := [o0, o1]], TxInput(id, 0, sig, pubKey)) == Ok(m1) by {
      RemovePositionShape([o0, o1], 0);
      assert [o0, o1][..0] + [o0, o1][1..] == [o1];
      assert map[id := [o0, o1]][id := [o1]] == m1;
    }
    assert ApplyInput(m1, TxInput(id, 1, sig, pubKey)) == Ok(m1) by {
      RemovePositionShape([o1], 1);
      assert m1[id := [o1]] == m1;
    }
    ApplyInputsPair(map[id := [o0, o1]], TxInput(id, 0, sig, pubKey), TxInput(id, 1, sig, pubKey), m1);
  }

  /** Update's inner loop: the record without the output at the input's position. */
  method RemoveAt(outs: seq<TxOutput>, k: int) returns (updatedOuts: seq<TxOutput>)
    ensures updatedOuts == RemovePosition(outs, k)
  {
    updatedOuts := [];
    for outIdx := 0 to |outs|
      invariant updatedOuts == RemovePosition(outs[..outIdx], k)
    {
      assert outs[..outIdx + 1][..outIdx] == outs[..outIdx];
      if outIdx != k {
        updatedOuts := updatedOuts + [outs[outIdx]];
      }
    }
    assert outs[..|outs|] == outs;
  }

  /** Update's loop over the inputs of one transaction and the write of its outputs. */
  method UpdateWithTx(m: Chainstate, tx: Transaction) returns (r: Result<Chainstate>)
    ensures r == ApplyTx(m, tx)
  {
    var b := m;
    if !IsCoinbase(tx) {
      for j := 0 to |tx.vin|
        invariant ApplyInputs(m, tx.vin[..j]) == Ok(b)
      {
        var vin := tx.vin[j];
        assert tx.vin[..j + 1][..j] == tx.vin[..j];
        if vin.txId == [] || vin.txId !in b {
          ApplyInputsSticky(m, tx.vin, j + 1);
          return Err(RecordMissing);
        }
        var updatedOuts := RemoveAt(b[vin.txId], vin.vout);
        if |updatedOuts| == 0 {
          b := b - {vin.txId};
        } else {
          b := b[vin.txId := updatedOuts];
        }
      }
      assert tx.vin[..|tx.vin|] == tx.vin;
    }
    var newOutputs: seq<TxOutput> := [];
    for k := 0 to |tx.vout|
      invariant newOutputs == tx.vout[..k]
    {
      newOutputs := newOutputs + [tx.vout[k]];
    }
    assert tx.vout[..|tx.vout|] == tx.vout;
    if tx.id == [] {
      return Err(KeyRequired);
    }
    r := Ok(b[tx.id := newOutputs]);
  }

  // ----- FindUTXO -----

  /** The record of a key, empty when there is none. */
  function RecordOf(m: Chainstate, k: Bytes): seq<TxOutput>
  {
    if k in m then m[k] else []
  }

  /** The outputs of a record locked to the key, in order. */
  function LockedIn(outs: seq<TxOutput>, pubKeyHash: Bytes): seq<TxOutput>
  {
    if outs == [] then []
    else
      var o := outs[|outs| - 1];
      LockedIn(outs[..|outs| - 1], pubKeyHash) + (if IsLockedWithKey(o, pubKeyHash) then [o] else [])
  }

  /** FindUTXO's list after the cursor has visited `keys`. */
  function LockedOutputs(m: Chainstate, keys: seq<Bytes>, pubKeyHash: Bytes): seq<TxOutput>
  {
    if keys == [] then []
    else LockedOutputs(m, keys[..|keys| - 1], pubKeyHash) + LockedIn(RecordOf(m, keys[|keys| - 1]), pubKeyHash)
  }

  lemma {:induction false} LockedInIff(outs: seq<TxOutput>, pubKeyHash: Bytes, o: TxOutput)
    ensures o in LockedIn(outs, pubKeyHash) <==> o in outs && IsLockedWithKey(o, pubKeyHash)
  {
    if outs != [] {
      var n := |outs| - 1;
      LockedInIff(outs[..n], pubKeyHash, o);
      assert outs == outs[..n] + [outs[n]];
    }
  }

  /** FindUTXO lists exactly the outputs locked to the key of the records the cursor visits. */
  lemma {:induction false} LockedOutputsIff(m: Chainstate, keys: seq<Bytes>, pubKeyHash: Bytes, o: TxOutput)
    ensures o in LockedOutputs(m, keys, pubKeyHash) <==>
      IsLockedWithKey(o, pubKeyHash) && exists k :: k in keys && k in m && o in m[k]
  {
    if keys != [] {
      var n := |keys| - 1;
      var k := keys[n];
      LockedOutputsIff(m, keys[..n], pubKeyHash, o);
      LockedInIff(RecordOf(m, k), pubKeyHash, o);
      assert keys == keys[..n] + [k];
      if exists k' :: k' in keys && k' in m && o in m[k'] {
        var k' :| k' in keys && k' in m && o in m[k'];
        if k' != k {
          assert k' in keys[..n];
        }
      }
    }
  }

  // ----- FindSpendableOutputs -----

  /** The positions of a record's outputs locked to the key, in order. */
  function LockedPositions(outs: seq<TxOutput>, pubKeyHash: Bytes): seq<int>
  {
    if outs == [] then []
    else
      var n := |outs| - 1;
      LockedPositions(outs[..n], pubKeyHash) + (if IsLockedWithKey(outs[n], pubKeyHash) then [n] else [])
  }

  /** Appending positions to the entry of a key; an entry appears only with a position. */
  function AddPositions(u: map<string, seq<int>>, key: string, ps: seq<int>): map<string, seq<int>>
  {
    if ps == [] then u else u[key := Listed(u, key) + ps]
  }

  /** FindSpendableOutputs' total after the cursor has visited `keys`. */
  function SpendableTotal(m: Chainstate, keys: seq<Bytes>, pubKeyHash: Bytes): int
  {
    if keys == [] then 0
    else SpendableTotal(m, keys[..|keys| - 1], pubKeyHash) + SumValues(LockedIn(RecordOf(m, keys[|keys| - 1]), pubKeyHash))
  }

  /** FindSpendableOutputs' map after the cursor has visited `keys`: hex ID to positions. */
  function SpendablePositions(m: Chainstate, keys: seq<Bytes>, pubKeyHash: Bytes): map<string, seq<int>>
  {
    if keys == [] then map[]
    else
      var k := keys[|keys| - 1];
      AddPositions(SpendablePositions(m, keys[..|keys| - 1], pubKeyHash), HexEncode(k),
                   LockedPositions(RecordOf(m, k), pubKeyHash))
  }

  datatype Spendable = Spendable(accumulation: int, unspendOutputs: map<string, seq<int>>)

  /** The total FindSpendableOutputs reports is the balance: the sum of what FindUTXO lists. */
  lemma {:induction false} SpendableIsBalance(m: Chainstate, keys: seq<Bytes>, pubKeyHash: Bytes)
    ensures SpendableTotal(m, keys, pubKeyHash) == SumValues(LockedOutputs(m, keys, pubKeyHash))
  {
    if keys != [] {
      var n := |keys| - 1;
      SpendableIsBalance(m, keys[..n], pubKeyHash);
      SumValuesAppend(LockedOutputs(m, keys[..n], pubKeyHash), LockedIn(RecordOf(m, keys[n]), pubKeyHash));
    }
  }

  lemma {:induction false} LockedPositionsIff(outs: seq<TxOutput>, pubKeyHash: Bytes, i: int)
    ensures i in LockedPositions(outs, pubKeyHash) <==> 0 <= i < |outs| && IsLockedWithKey(outs[i], pubKeyHash)
  {
    if outs != [] {
      var n := |outs| - 1;
      LockedPositionsIff(outs[..n], pubKeyHash, i);
    }
  }

  /** Under the hex of a visited key, the map lists exactly the positions of that record's
      outputs locked to the key. */
  lemma {:induction false} SpendablePositionsIff(m: Chainstate, keys: seq<Bytes>, pubKeyHash: Bytes, k: Bytes, i: int)
    ensures i in Listed(SpendablePositions(m, keys, pubKeyHash), HexEncode(k)) <==>
      k in keys && k in m && 0 <= i < |m[k]| && IsLockedWithKey(m[k][i], pubKeyHash)
  {
    if keys != [] {
      var n := |keys| - 1;
      var last := keys[n];
      SpendablePositionsIff(m, keys[..n], pubKeyHash, k, i);
      LockedPositionsIff(RecordOf(m, last), pubKeyHash, i);
      HexEncodeInjective(k, last);
      assert keys == keys[..n] + [last];
      if k in keys && k != last {
        assert k in keys[..n];
      }
    }
  }

  lemma AddPositionsStep(u: map<string, seq<int>>, key: string, ps: seq<int>, i: int)
    ensures AddPositions(u, key, ps + [i]) == AddPositions(u, key, ps)[key := Listed(AddPositions(u, key, ps), key) + [i]]
  {
    if ps == [] {
      assert ps + [i] == [i];
    } else {
      assert Listed(u, key) + (ps + [i]) == (Listed(u, key) + ps) + [i];
    }
  }

  // ----- Reindex -----

  /** A bucket holding exactly the chain's unspent-output map with its keys hex-decoded. */
  ghost predicate Reindexed(cs: Chainstate, u: UtxoMap)
  {
    && (forall k :: k in cs <==> HexEncode(k) in u)
    && (forall k :: k in cs ==> cs[k] == u[HexEncode(k)])
  }

  /** Only one bucket is the decoded map, whatever the bucket held before: reindexing twice
      leaves what reindexing once does. */
  lemma ReindexedUnique(a: Chainstate, b: Chainstate, u: UtxoMap)
    requires Reindexed(a, u) && Reindexed(b, u)
    ensures a == b
  {
    assert a.Keys == b.Keys;
  }

  /** Every key of the chain's unspent-output map is the hex of a transaction ID. */
  lemma UtxoKeysAreEncodings(p: Primitives, txs: seq<Transaction>, key: string)
    requires key in UTXOAfter(p, txs)
    ensures IsEncoding(key)
  {
    UtxoKeyIff(p, txs, key);
    var t :| 0 <= t < |txs| && HexEncode(txs[t].id) == key && SurvivorsAt(p, txs, t) != [];
  }

  /** After a reindex, FindUTXO lists exactly the chain's unspent outputs locked to the key. */
  lemma ReindexThenFindUTXO(p: Primitives, txs: seq<Transaction>, cs: Chainstate, cursor: seq<Bytes>,
                            pubKeyHash: Bytes, o: TxOutput)
    requires Reindexed(cs, UTXOAfter(p, txs)) && CursorOrder(cursor, cs.Keys)
    ensures o in LockedOutputs(cs, cursor, pubKeyHash) <==>
      IsLockedWithKey(o, pubKeyHash) && exists key :: key in UTXOAfter(p, txs) && o in UTXOAfter(p, txs)[key]
  {
    var u := UTXOAfter(p, txs);
    LockedOutputsIff(cs, cursor, pubKeyHash, o);
    if IsLockedWithKey(o, pubKeyHash) && exists key :: key in u && o in u[key] {
      var key :| key in u && o in u[key];
      UtxoKeysAreEncodings(p, txs, key);
      EncodingDecodes(key);
      var k := HexDecode(key).value;
      assert k in cs && k in cursor;
    }
  }

  /** The hex encodings of byte keys, in order. */
  function HexAll(keys: seq<Bytes>): (r: seq<string>)
    ensures |r| == |keys|
  {
    if keys == [] then [] else HexAll(keys[..|keys| - 1]) + [HexEncode(keys[|keys| - 1])]
  }

  lemma {:induction false} HexAllAt(keys: seq<Bytes>, i: int)
    requires 0 <= i < |keys|
    ensures HexAll(keys)[i] == HexEncode(keys[i])
  {
    var n := |keys| - 1;
    if i < n {
      HexAllAt(keys[..n], i);
    }
  }

  /** The outputs of the chain's unspent-output map locked to the key, visiting its keys in
      the order given, each record's outputs in their own order. */
  function LockedUnder(u: UtxoMap, keys: seq<string>, pubKeyHash: Bytes): seq<TxOutput>
  {
    if keys == [] then []
    else
      var key := keys[|keys| - 1];
      LockedUnder(u, keys[..|keys| - 1], pubKeyHash) + LockedIn(if key in u then u[key] else [], pubKeyHash)
  }

  lemma {:induction false} LockedOutputsUnder(cs: Chainstate, u: UtxoMap, cursor: seq<Bytes>, pubKeyHash: Bytes)
    requires Reindexed(cs, u)
    requires forall i :: 0 <= i < |cursor| ==> cursor[i] in cs
    ensures LockedOutputs(cs, cursor, pubKeyHash) == LockedUnder(u, HexAll(cursor), pubKeyHash)
  {
    if cursor != [] {
      var n := |cursor| - 1;
      LockedOutputsUnder(cs, u, cursor[..n], pubKeyHash);
      assert HexAll(cursor)[..n] == HexAll(cursor[..n]);
    }
  }

  /** After a reindex, FindUTXO's list is the chain's unspent outputs locked to the key, record
      by record: the cursor's keys, hex-encoded, are the chain map's keys, each visited exactly
      once, and each record contributes all of its locked outputs. getBalance's sum over the
      list is therefore the sum over those records. */
  lemma ReindexThenFindUTXOExactly(p: Primitives, txs: seq<Transaction>, cs: Chainstate, cursor: seq<Bytes>,
                                   pubKeyHash: Bytes)
    requires Reindexed(cs, UTXOAfter(p, txs)) && CursorOrder(cursor, cs.Keys)
    ensures var u := UTXOAfter(p, txs); var keys := HexAll(cursor);
      && (forall key :: key in u <==> key in keys)
      && (forall i, j :: 0 <= i < j < |keys| ==> keys[i] != keys[j])
      && LockedOutputs(cs, cursor, pubKeyHash) == LockedUnder(u, keys, pubKeyHash)
  {
    var u := UTXOAfter(p, txs);
    var keys := HexAll(cursor);
    LockedOutputsUnder(cs, u, cursor, pubKeyHash);
    forall key | key in u
      ensures key in keys
    {
      UtxoKeysAreEncodings(p, txs, key);
      EncodingDecodes(key);
      var k := HexDecode(key).value;
      var i :| 0 <= i < |cursor| && cursor[i] == k;
      HexAllAt(cursor, i);
    }
    forall key | key in keys
      ensures key in u
    {
      var i :| 0 <= i < |keys| && keys[i] == key;
      HexAllAt(cursor, i);
    }
    forall i, j | 0 <= i < j < |keys|
      ensures keys[i] != keys[j]
    {
      HexAllAt(cursor, i);
      HexAllAt(cursor, j);
      if keys[i] == keys[j] {
        HexEncodeInjective(cursor[i], cursor[j]);
      }
    }
  }

  /** The inner loop of FindSpendableOutputs over one record. */
  method ScanRecord(outs: seq<TxOutput>, txID: string, pubKeyHash: Bytes, acc: int, u: map<string, seq<int>>)
    returns (accumulation: int, unspendOutputs: map<string, seq<int>>)
    ensures accumulation == acc + SumValues(LockedIn(outs, pubKeyHash))
    ensures unspendOutputs == AddPositions(u, txID, LockedPositions(outs, pubKeyHash))
  {
    accumulation, unspendOutputs := acc, u;
    for outIdx := 0 to |outs|
      invariant accumulation == acc + SumValues(LockedIn(outs[..outIdx], pubKeyHash))
      invariant unspendOutputs == AddPositions(u, txID, LockedPositions(outs[..outIdx], pubKeyHash))
    {
      assert outs[..outIdx + 1][..outIdx] == outs[..outIdx];
      var o := outs[outIdx];
      SumValuesAppend(LockedIn(outs[..outIdx], pubKeyHash), if IsLockedWithKey(o, pubKeyHash) then [o] else []);
      if IsLockedWithKey(o, pubKeyHash) {
        AddPositionsStep(u, txID, LockedPositions(outs[..outIdx], pubKeyHash), outIdx);
        assert [o][..0] == [];
        assert LockedPositions(outs[..outIdx + 1], pubKeyHash) == LockedPositions(outs[..outIdx], pubKeyHash) + [outIdx];
        accumulation := accumulation + outs[outIdx].value;
        unspendOutputs := unspendOutputs[txID := Listed(unspendOutputs, txID) + [outIdx]];
      } else {
        assert LockedPositions(outs[..outIdx + 1], pubKeyHash) == LockedPositions(outs[..outIdx], pubKeyHash) + [];
        assert LockedPositions(outs[..outIdx], pubKeyHash) + [] == LockedPositions(outs[..outIdx], pubKeyHash);
      }
    }
    assert outs[..|outs|] == outs;
  }

  /** The inner loop of FindUTXO over one record. */
  method CollectLocked(outs: seq<TxOutput>, pubKeyHash: Bytes, acc: seq<TxOutput>) returns (utxos: seq<TxOutput>)
    ensures utxos == acc + LockedIn(outs, pubKeyHash)
  {
    utxos := acc;
    for j := 0 to |outs|
      invariant utxos == acc + LockedIn(outs[..j], pubKeyHash)
    {
      assert outs[..j + 1][..j] == outs[..j];
      if IsLockedWithKey(outs[j], pubKeyHash) {
        utxos := utxos + [outs[j]];
      }
    }
    assert outs[..|outs|] == outs;
  }

  /** The write loop of Reindex, in the map's iteration order: each hex ID decodes to the
      key its outputs go under; the empty ID makes the Put panic. */
  method DecodeKeys(utxos: UtxoMap) returns (r: Result<Chainstate>)
    requires forall key :: key in utxos ==> IsEncoding(key)
    ensures "" in utxos ==> r == Err(KeyRequired)
    ensures "" !in utxos ==> r.Ok? && Reindexed(r.value, utxos)
  {
    var m: Chainstate := map[];
    var remaining := utxos.Keys;
    while remaining != {}
      invariant remaining <= utxos.Keys
      invariant "" in utxos ==> "" in remaining
      invariant forall k :: k in m <==> HexEncode(k) in utxos && HexEncode(k) !in remaining
      invariant forall k :: k in m ==> m[k] == utxos[HexEncode(k)]
      decreases |remaining|
    {
      var txID :| txID in remaining;
      EncodingDecodes(txID);
      var key := HexDecode(txID).value;
      if key == [] {
        return Err(KeyRequired);
      }
      forall k | k != key
        ensures HexEncode(k) != txID
      {
        HexEncodeInjective(k, key);
      }
      m := m[key := utxos[txID]];
      remaining := remaining - {txID};
    }
    return Ok(m);
  }

  class UTXOSet {
    /** The chain the index is built from. */
    const bc: BlockChain
    /** The chainstate bucket, None while it does not exist. */
    var chainstate: Option<Chainstate>

    constructor(bc: BlockChain, chainstate: Option<Chainstate>)
      ensures this.bc == bc && this.chainstate == chainstate
    {
      this.bc := bc;
      this.chainstate := chainstate;
    }

    /** bolt cannot store an empty key, so the bucket never holds the empty ID. */
    predicate Valid()
      reads this
    {
      chainstate.Some? ==> [] !in chainstate.value
    }

    /** Update: applies the block's transactions to the bucket in one bolt transaction, so a
        panic on the way leaves the bucket as it was. */
    method Update(block: Block) returns (err: Option<Failure>)
      requires Valid()
      modifies this
      ensures Valid()
      ensures match Updated(old(chainstate), block.transactions)
              case Ok(s) => err == None && chainstate == s
              case Err(e) => err == Some(e) && chainstate == old(chainstate)
    {
      var txs := block.transactions;
      if txs == [] {
        return None;
      }
      if chainstate.None? {
        return Some(BucketMissing);
      }
      var start := chainstate.value;
      var m := start;
      for i := 0 to |txs|
        invariant ApplyTxs(start, txs[..i]) == Ok(m)
        invariant chainstate == old(chainstate)
      {
        assert txs[..i + 1][..i] == txs[..i];
        var r := UpdateWithTx(m, txs[i]);
        if r.Err? {
          ApplyTxsSticky(start, txs, i + 1);
          return Some(r.error);
        }
        m := r.value;
      }
      assert txs[..|txs|] == txs;
      ApplyTxsKeepsKeysNonEmpty(start, txs);
      chainstate := Some(m);
      return None;
    }

    /** FindUTXO: the outputs locked to the key, record by record in cursor order. */
    method FindUTXO(pubKeyHash: Bytes, cursor: seq<Bytes>) returns (r: Result<seq<TxOutput>>)
      requires chainstate.Some? ==> CursorOrder(cursor, chainstate.value.Keys)
      ensures chainstate.None? ==> r == Err(BucketMissing)
      ensures chainstate.Some? ==> r == Ok(LockedOutputs(chainstate.value, cursor, pubKeyHash))
    {
      if chainstate.None? {
        return Err(BucketMissing);
      }
      var m := chainstate.value;
      var utxos: seq<TxOutput> := [];
      for i := 0 to |cursor|
        invariant utxos == LockedOutputs(m, cursor[..i], pubKeyHash)
      {
        assert cursor[..i + 1][..i] == cursor[..i];
        utxos := CollectLocked(m[cursor[i]], pubKeyHash, utxos);
      }
      assert cursor[..|cursor|] == cursor;
      return Ok(utxos);
    }

    /** FindSpendableOutputs: every output locked to the key, however large `amount` is:
        their total and, per hex ID, their positions in the record. */
    method FindSpendableOutputs(pubKeyHash: Bytes, amount: int, cursor: seq<Bytes>) returns (r: Result<Spendable>)
      requires chainstate.Some? ==> CursorOrder(cursor, chainstate.value.Keys)
      ensures chainstate.None? ==> r == Err(BucketMissing)
      ensures chainstate.Some? ==> var m := chainstate.value;
        r == Ok(Spendable(SpendableTotal(m, cursor, pubKeyHash), SpendablePositions(m, cursor, pubKeyHash)))
    {
      if chainstate.None? {
        return Err(BucketMissing);
      }
      var m := chainstate.value;
      var unspendOutputs: map<string, seq<int>> := map[];
      var accumulation := 0;
      for i := 0 to |cursor|
        invariant accumulation == SpendableTotal(m, cursor[..i], pubKeyHash)
        invariant unspendOutputs == SpendablePositions(m, cursor[..i], pubKeyHash)
      {
        assert cursor[..i + 1][..i] == cursor[..i];
        accumulation, unspendOutputs := ScanRecord(m[cursor[i]], HexEncode(cursor[i]), pubKeyHash, accumulation, unspendOutputs);
      }
      assert cursor[..|cursor|] == cursor;
      return Ok(Spendable(accumulation, unspendOutputs));
    }

    /** Reindex: one bolt transaction replaces the bucket with an empty one, a second writes
        the chain's unspent-output map under the decoded IDs. A Put under an empty key panics
        in the second, which leaves the empty bucket of the first. */
    method Reindex(p: Primitives) returns (err: Option<Failure>)
      requires bc.Valid()
      modifies this
      ensures Valid()
      ensures var u := UTXOAfter(p, Flatten(bc.chain));
        && chainstate.Some?
        && ("" in u ==> err == Some(KeyRequired) && chainstate.value == map[])
        && ("" !in u ==> err == None && Reindexed(chainstate.value, u))
    {
      chainstate := Some(map[]);
      var utxos := bc.FindUTXO(p);
      forall key | key in utxos
        ensures IsEncoding(key)
      {
        UtxoKeysAreEncodings(p, Flatten(bc.chain), key);
      }
      var r := DecodeKeys(utxos);
      if r.Err? {
        return Some(r.error);
      }
      var m := r.value;
      chainstate := Some(m);
      return None;
    }
  }
}
