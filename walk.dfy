/** The backward walks of block/blockChain.go as functions of the transactions in walk
    order: blocks from the tip to the genesis block, each block's transactions in order.
    Every walk is a fold over that sequence by its last element, so a loop that has
    visited a prefix of the walk holds the fold of that prefix. */
module ChainWalk {
  import opened Bytes
  import opened Hex
  import opened Outcomes
  import opened Transactions
  import opened Blocks

  /** The transactions of the blocks, in walk order. */
  function Flatten(blocks: seq<Block>): seq<Transaction>
  {
    if blocks == [] then [] else Flatten(blocks[..|blocks| - 1]) + blocks[|blocks| - 1].transactions
  }

  lemma FlattenStep(blocks: seq<Block>, i: nat)
    requires i < |blocks|
    ensures Flatten(blocks[..i + 1]) == Flatten(blocks[..i]) + blocks[i].transactions
  {
    assert blocks[..i + 1][..i] == blocks[..i];
  }

  lemma {:induction false} FlattenAppend(a: seq<Block>, b: seq<Block>)
    ensures Flatten(a + b) == Flatten(a) + Flatten(b)
    decreases |b|
  {
    if b == [] {
      assert a + b == a;
    } else {
      assert (a + b)[..|a + b| - 1] == a + b[..|b| - 1];
      FlattenAppend(a, b[..|b| - 1]);
    }
  }

  // ----- FindTransaction -----

  /** The first transaction of the walk whose ID is `id`. */
  function FindById(txs: seq<Transaction>, id: Bytes): Option<Transaction>
  {
    if txs == [] then None
    else if txs[0].id == id then Some(txs[0])
    else FindById(txs[1..], id)
  }

  lemma {:induction false} FindByIdAppend(a: seq<Transaction>, b: seq<Transaction>, id: Bytes)
    ensures FindById(a + b, id) == if FindById(a, id).Some? then FindById(a, id) else FindById(b, id)
    decreases |a|
  {
    if a == [] {
      assert a + b == b;
    } else {
      assert (a + b)[1..] == a[1..] + b;
      FindByIdAppend(a[1..], b, id);
    }
  }

  /** FindById finds the transaction at the first position holding the ID, and nothing
      when no position holds it. */
  lemma {:induction false} FindByIdIsFirst(txs: seq<Transaction>, id: Bytes)
    ensures FindById(txs, id).None? <==> forall k :: 0 <= k < |txs| ==> txs[k].id != id
    ensures FindById(txs, id).Some? ==>
      exists k :: 0 <= k < |txs| && txs[k] == FindById(txs, id).value && txs[k].id == id
        && forall j :: 0 <= j < k ==> txs[j].id != id
  {
    if txs != [] && txs[0].id != id {
      FindByIdIsFirst(txs[1..], id);
      if FindById(txs, id).Some? {
        var k :| 0 <= k < |txs[1..]| && txs[1..][k] == FindById(txs, id).value && txs[1..][k].id == id
          && forall j :: 0 <= j < k ==> txs[1..][j].id != id;
        assert txs[k + 1] == txs[1..][k];
        assert forall j :: 1 <= j < k + 1 ==> txs[j] == txs[1..][j - 1];
      } else {
        assert forall k :: 1 <= k < |txs| ==> txs[k] == txs[1..][k - 1];
      }
    }
  }

  // ----- the spentTXOs map -----

  /** spentTXOs: for each hex-encoded transaction ID, the output indexes seen spent so far. */
  type SpentMap = map<string, seq<int>>

  /** FindUTXO records every input of a non-coinbase transaction; FindUnspentTransactions
      only those whose public key hashes to the wallet's key. */
  datatype SpendFilter = AllInputs | InputsOfKey(pubKeyHash: Bytes)

  predicate Counts(p: Primitives, f: SpendFilter, input: TxInput)
  {
    match f
    case AllInputs => true
    case InputsOfKey(pkh) => UsesKey(p, input, pkh)
  }

  /** The list under a key; Go's zero value (nil) when the key is absent. */
  function Listed(m: SpentMap, key: string): seq<int>
  {
    if key in m then m[key] else []
  }

  function RecordInputs(p: Primitives, f: SpendFilter, spent: SpentMap, vin: seq<TxInput>): SpentMap
  {
    if vin == [] then spent
    else
      var s := RecordInputs(p, f, spent, vin[..|vin| - 1]);
      var input := vin[|vin| - 1];
      if Counts(p, f, input) then s[HexEncode(input.txId) := Listed(s, HexEncode(input.txId)) + [input.vout]] else s
  }

  /** The spends a transaction contributes once its outputs have been examined. */
  function RecordSpends(p: Primitives, f: SpendFilter, spent: SpentMap, tx: Transaction): SpentMap
  {
    if IsCoinbase(tx) then spent else RecordInputs(p, f, spent, tx.vin)
  }

  /** spentTXOs after the walk has visited `txs`. */
  function SpentAfter(p: Primitives, f: SpendFilter, txs: seq<Transaction>): SpentMap
  {
    if txs == [] then map[] else RecordSpends(p, f, SpentAfter(p, f, txs[..|txs| - 1]), txs[|txs| - 1])
  }

  /** Input j of transaction u of the walk spends output i of the transaction whose hex ID is key. */
  ghost predicate SpendsAt(p: Primitives, f: SpendFilter, txs: seq<Transaction>, u: int, j: int, key: string, i: int)
  {
    && 0 <= u < |txs| && !IsCoinbase(txs[u]) && 0 <= j < |txs[u].vin|
    && Counts(p, f, txs[u].vin[j]) && HexEncode(txs[u].vin[j].txId) == key && txs[u].vin[j].vout == i
  }

  lemma {:induction false} RecordInputsIff(p: Primitives, f: SpendFilter, spent: SpentMap, vin: seq<TxInput>, key: string, i: int)
    ensures i in Listed(RecordInputs(p, f, spent, vin), key) <==>
      i in Listed(spent, key) ||
      exists j :: 0 <= j < |vin| && Counts(p, f, vin[j]) && HexEncode(vin[j].txId) == key && vin[j].vout == i
  {
    if vin != [] {
      var vin' := vin[..|vin| - 1];
      RecordInputsIff(p, f, spent, vin', key, i);
      assert forall j :: 0 <= j < |vin'| ==> vin'[j] == vin[j];
    }
  }

  /** An index is listed as spent under a key exactly when some counted input of a
      non-coinbase transaction visited so far references it. */
  lemma {:induction false} SpentIff(p: Primitives, f: SpendFilter, txs: seq<Transaction>, key: string, i: int)
    ensures i in Listed(SpentAfter(p, f, txs), key) <==> exists u, j :: SpendsAt(p, f, txs, u, j, key, i)
  {
    if txs != [] {
      var txs' := txs[..|txs| - 1];
      var tx := txs[|txs| - 1];
      SpentIff(p, f, txs', key, i);
      assert forall u, j :: SpendsAt(p, f, txs', u, j, key, i) <==> (u < |txs'| && SpendsAt(p, f, txs, u, j, key, i));
      if !IsCoinbase(tx) {
        RecordInputsIff(p, f, SpentAfter(p, f, txs'), tx.vin, key, i);
        if exists j :: 0 <= j < |tx.vin| && Counts(p, f, tx.vin[j]) && HexEncode(tx.vin[j].txId) == key && tx.vin[j].vout == i {
          var j :| 0 <= j < |tx.vin| && Counts(p, f, tx.vin[j]) && HexEncode(tx.vin[j].txId) == key && tx.vin[j].vout == i;
          assert SpendsAt(p, f, txs, |txs'|, j, key, i);
        }
      }
    }
  }

  // ----- survivors of one transaction -----

  /** The outputs whose positions are not listed, in their original order. */
  function Survivors(outs: seq<TxOutput>, spent: seq<int>): seq<TxOutput>
  {
    if outs == [] then []
    else Survivors(outs[..|outs| - 1], spent) + (if |outs| - 1 in spent then [] else [outs[|outs| - 1]])
  }

  /** The positions below n that are not listed, in increasing order. */
  function Unlisted(n: nat, spent: seq<int>): (r: seq<nat>)
    ensures forall a :: 0 <= a < |r| ==> r[a] < n
    ensures forall a, b :: 0 <= a < b < |r| ==> r[a] < r[b]
    ensures forall i :: i in r <==> 0 <= i < n && i !in spent
  {
    if n == 0 then [] else Unlisted(n - 1, spent) + (if n - 1 in spent then [] else [n - 1])
  }

  /** The outputs at the given positions, in the order the positions are listed. */
  function Pick(outs: seq<TxOutput>, k: seq<nat>): (r: seq<TxOutput>)
    requires forall a :: 0 <= a < |k| ==> k[a] < |outs|
    ensures |r| == |k| && forall a :: 0 <= a < |k| ==> r[a] == outs[k[a]]
  {
    if k == [] then [] else Pick(outs, k[..|k| - 1]) + [outs[k[|k| - 1]]]
  }

  lemma PickPrefix(outs: seq<TxOutput>, n: nat, k: seq<nat>)
    requires n <= |outs| && forall a :: 0 <= a < |k| ==> k[a] < n
    ensures Pick(outs[..n], k) == Pick(outs, k)
  {
  }

  lemma PickSnoc(outs: seq<TxOutput>, k: seq<nat>, i: nat)
    requires i < |outs| && forall a :: 0 <= a < |k| ==> k[a] < |outs|
    ensures Pick(outs, k + [i]) == Pick(outs, k) + [outs[i]]
  {
    assert (k + [i])[..|k|] == k;
  }

  /** The survivors are the outputs at the unlisted positions, in increasing position order. */
  lemma {:induction false} SurvivorsAtUnlisted(outs: seq<TxOutput>, spent: seq<int>)
    ensures Survivors(outs, spent) == Pick(outs, Unlisted(|outs|, spent))
  {
    if outs != [] {
      var n := |outs| - 1;
      SurvivorsAtUnlisted(outs[..n], spent);
      PickPrefix(outs, n, Unlisted(n, spent));
      if n !in spent {
        PickSnoc(outs, Unlisted(n, spent), n);
      }
    }
  }

  lemma {:induction false} SurvivorsOfUnlisted(outs: seq<TxOutput>, spent: seq<int>)
    requires forall i :: 0 <= i < |outs| ==> i !in spent
    ensures Survivors(outs, spent) == outs
  {
    if outs != [] {
      SurvivorsOfUnlisted(outs[..|outs| - 1], spent);
    }
  }

  // ----- FindUTXO -----

  /** FindUTXO's result: for each hex-encoded transaction ID, its unspent outputs. */
  type UtxoMap = map<string, seq<TxOutput>>

  /** The outputs under a key; the zero TxOutPuts when the key is absent. */
  function Outputs(u: UtxoMap, key: string): seq<TxOutput>
  {
    if key in u then u[key] else []
  }

  /** Appending outputs one at a time: the key appears only once an output is appended. */
  function Extend(u: UtxoMap, key: string, outs: seq<TxOutput>): UtxoMap
  {
    if outs == [] then u else u[key := Outputs(u, key) + outs]
  }

  /** The survivors of transaction t: its outputs not spent by a transaction visited before it. */
  function SurvivorsAt(p: Primitives, txs: seq<Transaction>, t: nat): seq<TxOutput>
    requires t < |txs|
  {
    Survivors(txs[t].vout, Listed(SpentAfter(p, AllInputs, txs[..t]), HexEncode(txs[t].id)))
  }

  /** FindUTXO's map after the walk has visited `txs`. */
  function UTXOAfter(p: Primitives, txs: seq<Transaction>): UtxoMap
  {
    if txs == [] then map[]
    else
      var n := |txs| - 1;
      Extend(UTXOAfter(p, txs[..n]), HexEncode(txs[n].id), SurvivorsAt(p, txs, n))
  }

  lemma SurvivorsAtPrefix(p: Primitives, txs: seq<Transaction>, n: nat, t: nat)
    requires t < n <= |txs|
    ensures SurvivorsAt(p, txs[..n], t) == SurvivorsAt(p, txs, t)
  {
    assert txs[..n][t] == txs[t];
    assert txs[..n][..t] == txs[..t];
  }

  /** One more transaction visited: its survivors are appended under its key, then its spends recorded. */
  lemma UtxoStep(p: Primitives, seen: seq<Transaction>, tx: Transaction)
    ensures var key := HexEncode(tx.id);
      UTXOAfter(p, seen + [tx])
        == Extend(UTXOAfter(p, seen), key, Survivors(tx.vout, Listed(SpentAfter(p, AllInputs, seen), key)))
    ensures SpentAfter(p, AllInputs, seen + [tx]) == RecordSpends(p, AllInputs, SpentAfter(p, AllInputs, seen), tx)
  {
    assert (seen + [tx])[..|seen|] == seen;
  }

  lemma ExtendStep(u: UtxoMap, key: string, outs: seq<TxOutput>, o: TxOutput)
    ensures Extend(u, key, outs + [o]) == Extend(u, key, outs)[key := Outputs(Extend(u, key, outs), key) + [o]]
  {
    if outs == [] {
      assert outs + [o] == [o];
    } else {
      assert Outputs(u, key) + (outs + [o]) == (Outputs(u, key) + outs) + [o];
    }
  }

  /** Appending each entry's outputs under its key, in order: the shape of FindUTXO's map
      independent of how the outputs were chosen. */
  function ExtendAll(keys: seq<string>, outs: seq<seq<TxOutput>>): UtxoMap
    requires |keys| == |outs|
  {
    if keys == [] then map[]
    else
      var n := |keys| - 1;
      Extend(ExtendAll(keys[..n], outs[..n]), keys[n], outs[n])
  }

  lemma {:induction false} ExtendAllKeyIff(keys: seq<string>, outs: seq<seq<TxOutput>>, key: string)
    requires |keys| == |outs|
    ensures key in ExtendAll(keys, outs) <==> exists t :: 0 <= t < |keys| && keys[t] == key && outs[t] != []
  {
    if keys != [] {
      var n := |keys| - 1;
      ExtendAllKeyIff(keys[..n], outs[..n], key);
      assert ExtendAll(keys, outs) == Extend(ExtendAll(keys[..n], outs[..n]), keys[n], outs[n]);
      if key in ExtendAll(keys[..n], outs[..n]) {
        var t :| 0 <= t < n && keys[..n][t] == key && outs[..n][t] != [];
        assert keys[t] == key && outs[t] != [];
      }
      if exists t :: 0 <= t < |keys| && keys[t] == key && outs[t] != [] {
        var t :| 0 <= t < |keys| && keys[t] == key && outs[t] != [];
        if t < n {
          assert keys[..n][t] == key && outs[..n][t] != [];
        }
      }
    }
  }

  lemma {:induction false} ExtendAllDistinct(keys: seq<string>, outs: seq<seq<TxOutput>>, t: nat)
    requires |keys| == |outs| && t < |keys|
    requires forall a, b :: 0 <= a < b < |keys| ==> keys[a] != keys[b]
    ensures Outputs(ExtendAll(keys, outs), keys[t]) == outs[t]
  {
    var n := |keys| - 1;
    if t == n {
      ExtendAllKeyIff(keys[..n], outs[..n], keys[t]);
    } else {
      assert keys[..n][t] == keys[t];
      ExtendAllDistinct(keys[..n], outs[..n], t);
    }
  }

  /** The hex-encoded IDs of the walk, in walk order. */
  function WalkKeys(txs: seq<Transaction>): (r: seq<string>)
    ensures |r| == |txs|
  {
    seq(|txs|, t requires 0 <= t < |txs| => HexEncode(txs[t].id))
  }

  /** The survivors of each transaction of the walk, in walk order. */
  function WalkSurvivors(p: Primitives, txs: seq<Transaction>): (r: seq<seq<TxOutput>>)
    ensures |r| == |txs|
  {
    seq(|txs|, t requires 0 <= t < |txs| => SurvivorsAt(p, txs, t))
  }

  /** FindUTXO's map is the ordered append of each transaction's survivors under its key. */
  lemma {:induction false} UtxoIsExtendAll(p: Primitives, txs: seq<Transaction>)
    ensures UTXOAfter(p, txs) == ExtendAll(WalkKeys(txs), WalkSurvivors(p, txs))
  {
    if txs != [] {
      var n := |txs| - 1;
      var txs' := txs[..n];
      UtxoIsExtendAll(p, txs');
      assert WalkKeys(txs)[..n] == WalkKeys(txs') by {
        forall t | 0 <= t < n ensures WalkKeys(txs)[t] == WalkKeys(txs')[t] {
          assert txs'[t] == txs[t];
        }
      }
      assert WalkSurvivors(p, txs)[..n] == WalkSurvivors(p, txs') by {
        forall t | 0 <= t < n ensures WalkSurvivors(p, txs)[t] == WalkSurvivors(p, txs')[t] {
          SurvivorsAtPrefix(p, txs, n, t);
        }
      }
    }
  }

  /** A key is present exactly when some transaction with that ID has a survivor. */
  lemma UtxoKeyIff(p: Primitives, txs: seq<Transaction>, key: string)
    ensures key in UTXOAfter(p, txs) <==>
      exists t :: 0 <= t < |txs| && HexEncode(txs[t].id) == key && SurvivorsAt(p, txs, t) != []
  {
    var keys, outs := WalkKeys(txs), WalkSurvivors(p, txs);
    UtxoIsExtendAll(p, txs);
    ExtendAllKeyIff(keys, outs, key);
    assert forall t :: 0 <= t < |txs| ==> keys[t] == HexEncode(txs[t].id) && outs[t] == SurvivorsAt(p, txs, t);
  }

  /** The IDs of the walk are pairwise distinct. */
  ghost predicate DistinctIds(txs: seq<Transaction>)
  {
    forall a, b :: 0 <= a < b < |txs| ==> txs[a].id != txs[b].id
  }

  /** With distinct IDs, the record of each transaction is exactly its survivors. */
  lemma UtxoOfDistinct(p: Primitives, txs: seq<Transaction>, t: nat)
    requires DistinctIds(txs) && t < |txs|
    ensures Outputs(UTXOAfter(p, txs), HexEncode(txs[t].id)) == SurvivorsAt(p, txs, t)
  {
    var keys, outs := WalkKeys(txs), WalkSurvivors(p, txs);
    forall a, b | 0 <= a < b < |keys| ensures keys[a] != keys[b] {
      HexEncodeInjective(txs[a].id, txs[b].id);
    }
    UtxoIsExtendAll(p, txs);
    ExtendAllDistinct(keys, outs, t);
  }

  /** FindUTXO keeps output i of transaction t exactly when no input of a non-coinbase
      transaction visited before t references it; the kept outputs are in their original order. */
  lemma UtxoHoldsUnspent(p: Primitives, txs: seq<Transaction>, t: nat)
    requires DistinctIds(txs) && t < |txs|
    ensures var key := HexEncode(txs[t].id);
      var kept := Unlisted(|txs[t].vout|, Listed(SpentAfter(p, AllInputs, txs[..t]), key));
      && Outputs(UTXOAfter(p, txs), key) == Pick(txs[t].vout, kept)
      && forall i :: i in kept <==>
           0 <= i < |txs[t].vout| && !exists u, j :: SpendsAt(p, AllInputs, txs[..t], u, j, key, i)
  {
    var key := HexEncode(txs[t].id);
    UtxoOfDistinct(p, txs, t);
    SurvivorsAtUnlisted(txs[t].vout, Listed(SpentAfter(p, AllInputs, txs[..t]), key));
    forall i {
      SpentIff(p, AllInputs, txs[..t], key, i);
    }
  }

  // ----- FindUnspentTransactions -----

  /** The survivors locked to the key. */
  function LockedSurvivors(outs: seq<TxOutput>, spent: seq<int>, pubKeyHash: Bytes): seq<TxOutput>
  {
    if outs == [] then []
    else
      var n := |outs| - 1;
      LockedSurvivors(outs[..n], spent, pubKeyHash)
        + (if n in spent || !IsLockedWithKey(outs[n], pubKeyHash) then [] else [outs[n]])
  }

  lemma {:induction false} LockedSurvivorsFilter(outs: seq<TxOutput>, spent: seq<int>, pubKeyHash: Bytes, o: TxOutput)
    ensures o in LockedSurvivors(outs, spent, pubKeyHash) <==> o in Survivors(outs, spent) && IsLockedWithKey(o, pubKeyHash)
  {
    if outs != [] {
      LockedSurvivorsFilter(outs[..|outs| - 1], spent, pubKeyHash, o);
    }
  }

  /** How many times FindUnspentTransactions appends transaction t. */
  function Appends(p: Primitives, pubKeyHash: Bytes, txs: seq<Transaction>, t: nat): nat
    requires t < |txs|
  {
    |LockedSurvivors(txs[t].vout, Listed(SpentAfter(p, InputsOfKey(pubKeyHash), txs[..t]), HexEncode(txs[t].id)), pubKeyHash)|
  }

  /** FindUnspentTransactions' list after the walk has visited `txs`. */
  function UnspentTxsAfter(p: Primitives, pubKeyHash: Bytes, txs: seq<Transaction>): seq<Transaction>
  {
    if txs == [] then []
    else
      var n := |txs| - 1;
      UnspentTxsAfter(p, pubKeyHash, txs[..n]) + seq(Appends(p, pubKeyHash, txs, n), _ => txs[n])
  }

  /** One more transaction visited: it is appended once per locked survivor, then the key's spends recorded. */
  lemma UnspentTxsStep(p: Primitives, pubKeyHash: Bytes, seen: seq<Transaction>, tx: Transaction)
    ensures var spent := Listed(SpentAfter(p, InputsOfKey(pubKeyHash), seen), HexEncode(tx.id));
      UnspentTxsAfter(p, pubKeyHash, seen + [tx])
        == UnspentTxsAfter(p, pubKeyHash, seen) + seq(|LockedSurvivors(tx.vout, spent, pubKeyHash)|, _ => tx)
    ensures SpentAfter(p, InputsOfKey(pubKeyHash), seen + [tx])
        == RecordSpends(p, InputsOfKey(pubKeyHash), SpentAfter(p, InputsOfKey(pubKeyHash), seen), tx)
  {
    assert (seen + [tx])[..|seen|] == seen;
  }

  lemma AppendsPrefix(p: Primitives, pubKeyHash: Bytes, txs: seq<Transaction>, n: nat, t: nat)
    requires t < n <= |txs|
    ensures Appends(p, pubKeyHash, txs[..n], t) == Appends(p, pubKeyHash, txs, t)
  {
    assert txs[..n][t] == txs[t];
    assert txs[..n][..t] == txs[..t];
  }

  /** Each transaction repeated as many times as its count says, in order: the shape of
      FindUnspentTransactions' list independent of how the counts were reached. */
  function Repeat(txs: seq<Transaction>, counts: seq<nat>): seq<Transaction>
    requires |counts| == |txs|
  {
    if txs == [] then []
    else
      var n := |txs| - 1;
      Repeat(txs[..n], counts[..n]) + seq(counts[n], _ => txs[n])
  }

  lemma {:induction false} RepeatMembership(txs: seq<Transaction>, counts: seq<nat>, tx: Transaction)
    requires |counts| == |txs|
    ensures tx in Repeat(txs, counts) <==> exists t :: 0 <= t < |txs| && txs[t] == tx && counts[t] > 0
  {
    if txs != [] {
      var n := |txs| - 1;
      var txs', counts' := txs[..n], counts[..n];
      RepeatMembership(txs', counts', tx);
      var tail := seq(counts[n], _ => txs[n]);
      assert Repeat(txs, counts) == Repeat(txs', counts') + tail;
      assert tx in tail <==> tx == txs[n] && counts[n] > 0 by {
        if counts[n] > 0 { assert tail[0] == txs[n]; }
      }
      if tx in Repeat(txs', counts') {
        var t :| 0 <= t < n && txs'[t] == tx && counts'[t] > 0;
        assert txs[t] == tx && counts[t] > 0;
      }
      if exists t :: 0 <= t < |txs| && txs[t] == tx && counts[t] > 0 {
        var t :| 0 <= t < |txs| && txs[t] == tx && counts[t] > 0;
        if t < n {
          assert txs'[t] == tx && counts'[t] > 0;
        }
      }
    }
  }

  /** How many times each transaction of the walk is appended, in walk order. */
  function WalkAppends(p: Primitives, pubKeyHash: Bytes, txs: seq<Transaction>): (r: seq<nat>)
    ensures |r| == |txs|
  {
    seq(|txs|, t requires 0 <= t < |txs| => Appends(p, pubKeyHash, txs, t))
  }

  /** FindUnspentTransactions' list repeats each transaction once per locked survivor. */
  lemma {:induction false} UnspentTxsIsRepeat(p: Primitives, pubKeyHash: Bytes, txs: seq<Transaction>)
    ensures UnspentTxsAfter(p, pubKeyHash, txs) == Repeat(txs, WalkAppends(p, pubKeyHash, txs))
  {
    if txs != [] {
      var n := |txs| - 1;
      var txs' := txs[..n];
      UnspentTxsIsRepeat(p, pubKeyHash, txs');
      assert WalkAppends(p, pubKeyHash, txs)[..n] == WalkAppends(p, pubKeyHash, txs') by {
        forall t | 0 <= t < n ensures WalkAppends(p, pubKeyHash, txs)[t] == WalkAppends(p, pubKeyHash, txs')[t] {
          AppendsPrefix(p, pubKeyHash, txs, n, t);
        }
      }
    }
  }

  /** A transaction is listed exactly when it has an output locked to the key that no
      input of the key spent earlier in the walk. */
  lemma UnspentTxsMembership(p: Primitives, pubKeyHash: Bytes, txs: seq<Transaction>, tx: Transaction)
    ensures tx in UnspentTxsAfter(p, pubKeyHash, txs) <==>
      exists t :: 0 <= t < |txs| && txs[t] == tx && Appends(p, pubKeyHash, txs, t) > 0
  {
    var counts := WalkAppends(p, pubKeyHash, txs);
    UnspentTxsIsRepeat(p, pubKeyHash, txs);
    RepeatMembership(txs, counts, tx);
    assert forall t :: 0 <= t < |txs| ==> counts[t] == Appends(p, pubKeyHash, txs, t);
  }

  // ----- the chain's FindSpendableOutputs -----

  /** An output as FindSpendableOutputs meets it: the hex ID of its transaction, its position, the output. */
  datatype Candidate = Candidate(txId: string, index: nat, output: TxOutput)

  function OutputsOf(tx: Transaction): seq<Candidate>
  {
    seq(|tx.vout|, i requires 0 <= i < |tx.vout| => Candidate(HexEncode(tx.id), i, tx.vout[i]))
  }

  /** Every output of every listed transaction, in list order. */
  function Candidates(txs: seq<Transaction>): seq<Candidate>
  {
    if txs == [] then [] else Candidates(txs[..|txs| - 1]) + OutputsOf(txs[|txs| - 1])
  }

  lemma {:induction false} CandidatesAppend(a: seq<Transaction>, b: seq<Transaction>)
    ensures Candidates(a + b) == Candidates(a) + Candidates(b)
    decreases |b|
  {
    if b == [] {
      assert a + b == a;
    } else {
      assert (a + b)[..|a + b| - 1] == a + b[..|b| - 1];
      CandidatesAppend(a, b[..|b| - 1]);
    }
  }

  /** The running total and the outputs selected so far. */
  datatype Selection = Selection(acc: int, picks: seq<Candidate>)

  /** The greedy selection: an output is taken when it is locked to the key and the
      total is still below the amount. */
  function Select(cands: seq<Candidate>, pubKeyHash: Bytes, amount: int): Selection
  {
    if cands == [] then Selection(0, [])
    else
      var s := Select(cands[..|cands| - 1], pubKeyHash, amount);
      var c := cands[|cands| - 1];
      if IsLockedWithKey(c.output, pubKeyHash) && s.acc < amount
      then Selection(s.acc + c.output.value, s.picks + [c])
      else s
  }

  /** The selected positions, grouped by hex transaction ID in selection order. */
  function Group(picks: seq<Candidate>): map<string, seq<int>>
  {
    if picks == [] then map[]
    else
      var m := Group(picks[..|picks| - 1]);
      var c := picks[|picks| - 1];
      m[c.txId := Listed(m, c.txId) + [c.index]]
  }

  /** The candidates locked to the key, in order. */
  function LockedOnly(cands: seq<Candidate>, pubKeyHash: Bytes): seq<Candidate>
  {
    if cands == [] then []
    else
      var c := cands[|cands| - 1];
      LockedOnly(cands[..|cands| - 1], pubKeyHash) + (if IsLockedWithKey(c.output, pubKeyHash) then [c] else [])
  }

  function SumPicks(cs: seq<Candidate>): int
  {
    if cs == [] then 0 else SumPicks(cs[..|cs| - 1]) + cs[|cs| - 1].output.value
  }

  lemma SelectStep(cands: seq<Candidate>, c: Candidate, pubKeyHash: Bytes, amount: int)
    ensures var s := Select(cands, pubKeyHash, amount);
      Select(cands + [c], pubKeyHash, amount)
        == if IsLockedWithKey(c.output, pubKeyHash) && s.acc < amount
           then Selection(s.acc + c.output.value, s.picks + [c]) else s
  {
    assert (cands + [c])[..|cands|] == cands;
  }

  lemma GroupStep(picks: seq<Candidate>, c: Candidate)
    ensures Group(picks + [c]) == Group(picks)[c.txId := Listed(Group(picks), c.txId) + [c.index]]
  {
    assert (picks + [c])[..|picks|] == picks;
  }

  /** Once the total reaches the amount nothing more is taken, so the loop may stop there. */
  lemma {:induction false} SelectSaturated(cands: seq<Candidate>, rest: seq<Candidate>, pubKeyHash: Bytes, amount: int)
    requires Select(cands, pubKeyHash, amount).acc >= amount
    ensures Select(cands + rest, pubKeyHash, amount) == Select(cands, pubKeyHash, amount)
    decreases |rest|
  {
    if rest == [] {
      assert cands + rest == cands;
    } else {
      assert (cands + rest)[..|cands + rest| - 1] == cands + rest[..|rest| - 1];
      SelectSaturated(cands, rest[..|rest| - 1], pubKeyHash, amount);
    }
  }

  /** The selection is the shortest prefix of the locked candidates whose total reaches
      the amount (all of them when none does), and the returned total is its sum. */
  lemma {:induction false} SelectIsGreedy(cands: seq<Candidate>, pubKeyHash: Bytes, amount: int)
    ensures var s := Select(cands, pubKeyHash, amount);
      var l := LockedOnly(cands, pubKeyHash);
      && |s.picks| <= |l| && s.picks == l[..|s.picks|]
      && s.acc == SumPicks(s.picks)
      && (forall m :: 0 <= m < |s.picks| ==> SumPicks(l[..m]) < amount)
      && (|s.picks| < |l| ==> SumPicks(l[..|s.picks|]) >= amount)
  {
    if cands != [] {
      var cands' := cands[..|cands| - 1];
      var c := cands[|cands| - 1];
      SelectIsGreedy(cands', pubKeyHash, amount);
      var s', l' := Select(cands', pubKeyHash, amount), LockedOnly(cands', pubKeyHash);
      var n' := |s'.picks|;
      var l := LockedOnly(cands, pubKeyHash);
      if IsLockedWithKey(c.output, pubKeyHash) {
        assert l == l' + [c];
        assert forall m :: 0 <= m <= |l'| ==> l[..m] == l'[..m];
        var s := Select(cands, pubKeyHash, amount);
        forall m | 0 <= m < |s.picks| ensures SumPicks(l[..m]) < amount {
          if m < n' {
            assert l[..m] == l'[..m];
          } else {
            assert m == n' && s'.picks == l' && l[..m] == l';
          }
        }
        if s'.acc < amount {
          assert n' == |l'|;
          assert s'.picks == l';
          assert (s'.picks + [c])[..|s'.picks + [c]| - 1] == s'.picks;
          assert l[..n' + 1] == l;
          assert SumPicks(l[..n']) == s'.acc;
        }
      } else {
        assert l == l';
      }
    }
  }

  /** The candidate list splits after output k of transaction t. */
  lemma CandidatesSplit(txs: seq<Transaction>, t: nat, k: nat)
    requires t < |txs| && k <= |txs[t].vout|
    ensures Candidates(txs) == (Candidates(txs[..t]) + OutputsOf(txs[t])[..k])
                               + (OutputsOf(txs[t])[k..] + Candidates(txs[t + 1..]))
  {
    var outs := OutputsOf(txs[t]);
    assert txs == txs[..t + 1] + txs[t + 1..];
    CandidatesAppend(txs[..t + 1], txs[t + 1..]);
    assert txs[..t + 1][..t] == txs[..t];
    assert outs == outs[..k] + outs[k..];
  }

  /** A position is grouped under a key exactly when a selected output of that key has it. */
  lemma {:induction false} GroupIff(picks: seq<Candidate>, key: string, i: int)
    ensures i in Listed(Group(picks), key) <==> exists c :: c in picks && c.txId == key && c.index == i
  {
    if picks != [] {
      var picks' := picks[..|picks| - 1];
      GroupIff(picks', key, i);
      assert picks == picks' + [picks[|picks| - 1]];
    }
  }

  lemma {:induction false} GroupKeys(picks: seq<Candidate>, key: string)
    ensures key in Group(picks) <==> exists c :: c in picks && c.txId == key
  {
    if picks != [] {
      var picks' := picks[..|picks| - 1];
      GroupKeys(picks', key);
      assert picks == picks' + [picks[|picks| - 1]];
    }
  }
}
