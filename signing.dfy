/** The signing protocol of transaction/transaction.go: Sign writes one ECDSA
    signature per input, each over the trimmed copy in which only that input carries
    the public-key hash of the output it spends; Verify rebuilds the same payloads. */
module Signing {
  import opened Bytes
  import opened Hex
  import opened Outcomes
  import opened Transactions

  /** Sign's encoding of a signature (r, s): r.Bytes() followed by s.Bytes(). */
  function JoinSignature(sig: (nat, nat)): Bytes
  {
    NatToBytes(sig.0) + NatToBytes(sig.1)
  }

  /** Verify's decoding of a signature or a public key: the two halves at len/2, read as integers. */
  function SplitHalves(b: Bytes): (nat, nat)
  {
    (BytesToNat(b[..|b| / 2]), BytesToNat(b[|b| / 2..]))
  }

  /** Splitting at len/2 recovers (r, s) exactly when the cut falls where r's bytes end. */
  lemma SplitRecovers(r: nat, s: nat)
    ensures SplitHalves(JoinSignature((r, s))) == (r, s)
        <==> (|NatToBytes(r)| + |NatToBytes(s)|) / 2 == |NatToBytes(r)|
  {
    var br, bs := NatToBytes(r), NatToBytes(s);
    var c := br + bs;
    var h := |c| / 2;
    NatToBytesRoundTrip(r);
    NatToBytesRoundTrip(s);
    if h == |br| {
      assert c[..h] == br && c[h..] == bs;
    } else if h < |br| {
      assert c[..h] == br[..h];
      CutInsideFirst(r, h);
    } else {
      assert c[..h] == br + bs[..h - |br|];
      NatToBytesMinimal(s);
      CutInsideSecond(br, bs, h - |br|);
    }
  }

  /** Reading fewer bytes than r's encoding yields a number other than r. */
  lemma CutInsideFirst(r: nat, h: nat)
    requires h < |NatToBytes(r)|
    ensures BytesToNat(NatToBytes(r)[..h]) != r
  {
    var br := NatToBytes(r);
    var first, rest := br[..h], br[h..];
    assert br == first + rest;
    BytesToNatAppend(first, rest);
    NatToBytesMinimal(r);
    NatToBytesRoundTrip(r);
    var v := BytesToNat(first);
    var p := Pow256(|rest|);
    assert r == v * p + BytesToNat(rest);
    if v == r {
      assert p >= 256;
      MulGrows(r, p);
    }
  }

  lemma MulGrows(r: nat, p: nat)
    requires r > 0 && p >= 256
    ensures r * p > r
  {
  }

  /** Reading r's bytes and a non-empty prefix of s's yields a number larger than r. */
  lemma CutInsideSecond(br: Bytes, bs: Bytes, j: nat)
    requires 1 <= j <= |bs| && bs[0] != 0
    ensures BytesToNat(br + bs[..j]) > BytesToNat(br)
  {
    var pre := bs[..j];
    BytesToNatAppend(br, pre);
    LeadingByteBound(pre);
    ShiftAndAddGrows(BytesToNat(br), Pow256(j), BytesToNat(pre));
  }

  lemma ShiftAndAddGrows(r: nat, p: nat, t: nat)
    requires p >= 1 && t >= 1
    ensures r * p + t > r
  {
    MulAtLeast(p, r);
  }

  /** When r and s have encodings of equal length, Verify reads back what Sign wrote. */
  lemma EqualWidthsRecover(r: nat, s: nat)
    requires |NatToBytes(r)| == |NatToBytes(s)|
    ensures SplitHalves(JoinSignature((r, s))) == (r, s)
  {
    SplitRecovers(r, s);
  }

  /** A signature whose r has a 2-byte and s a 1-byte encoding is misread: (256, 1) comes back as (1, 1). */
  lemma UnequalWidthsMisread()
    ensures JoinSignature((256, 1)) == [1, 0, 1]
    ensures SplitHalves(JoinSignature((256, 1))) == (1, 1)
  {
    assert NatToBytes(1) == [1] by {
      assert NatToBytes(0) == [];
    }
    assert NatToBytes(256) == [1, 0];
    var c: Bytes := [1, 0, 1];
    assert c[..1] == [1] && c[1..] == [0, 1];
    assert [0, 1][..1] == [0] && [0 as byte][..0] == [];
    assert BytesToNat([1]) == 1 by {
      assert [1 as byte][..0] == [];
    }
  }

  /** Equal widths are not the only case that splits back: when s's encoding is one byte
      longer than r's, the cut at len/2 still falls at the end of r's bytes, so (1, 256)
      is recovered. */
  lemma OneByteLongerRecovers()
    ensures SplitHalves(JoinSignature((1, 256))) == (1, 256)
  {
    assert NatToBytes(1) == [1] by {
      assert NatToBytes(0) == [];
    }
    assert NatToBytes(256) == [1, 0];
    SplitRecovers(1, 256);
  }

  // ----- the map of previous transactions, keyed by hex of their IDs -----

  /** The referenced transaction, or Go's zero Transaction when the key is absent. */
  function PrevTx(prevTxs: map<string, Transaction>, input: TxInput): Transaction
  {
    var key := HexEncode(input.txId);
    if key in prevTxs then prevTxs[key] else Transaction([], [], [])
  }

  /** Sign and Verify treat a referenced transaction with an empty (nil) ID as missing. */
  predicate PrevPresent(prevTxs: map<string, Transaction>, input: TxInput)
  {
    |PrevTx(prevTxs, input).id| > 0
  }

  predicate AllPrevPresent(prevTxs: map<string, Transaction>, tx: Transaction)
  {
    forall i :: 0 <= i < |tx.vin| ==> PrevPresent(prevTxs, tx.vin[i])
  }

  predicate PrevInRange(prevTxs: map<string, Transaction>, input: TxInput)
  {
    0 <= input.vout < |PrevTx(prevTxs, input).vout|
  }

  predicate AllPrevInRange(prevTxs: map<string, Transaction>, tx: Transaction)
  {
    forall i :: 0 <= i < |tx.vin| ==> PrevInRange(prevTxs, tx.vin[i])
  }

  /** The public-key hash of the output an input spends. */
  function PrevLock(prevTxs: map<string, Transaction>, input: TxInput): Bytes
    requires PrevInRange(prevTxs, input)
  {
    PrevTx(prevTxs, input).vout[input.vout].pubKeyHash
  }

  /** The payload of input i: the trimmed copy in which only input i's PubKey is `lock`. */
  function Payload(tx: Transaction, i: nat, lock: Bytes): Transaction
    requires i < |tx.vin|
  {
    var c := TrimmedCopy(tx);
    c.(vin := c.vin[i := c.vin[i].(signature := [], pubKey := lock)])
  }

  /** Input i with the signature of its own payload. */
  function SignInput(p: Primitives, key: PrivateKey, tx: Transaction, prevTxs: map<string, Transaction>, i: nat): TxInput
    requires i < |tx.vin| && PrevInRange(prevTxs, tx.vin[i])
  {
    var data := p.renderTx(Payload(tx, i, PrevLock(prevTxs, tx.vin[i])));
    tx.vin[i].(signature := JoinSignature(p.ecdsaSign(key, data)))
  }

  /** What Sign leaves in the transaction, or why it aborts. */
  function Signed(p: Primitives, key: PrivateKey, tx: Transaction, prevTxs: map<string, Transaction>): Result<Transaction>
  {
    if IsCoinbase(tx) then Ok(tx)
    else if !AllPrevPresent(prevTxs, tx) then Err(PrevTxMissing)
    else if !AllPrevInRange(prevTxs, tx) then Err(IndexOutOfRange)
    else Ok(tx.(vin := seq(|tx.vin|, i requires 0 <= i < |tx.vin| => SignInput(p, key, tx, prevTxs, i))))
  }

  /** Sign is a no-op on a coinbase; otherwise it fails on a missing or short referenced
      transaction and changes nothing but the inputs' signatures. */
  lemma SignedShape(p: Primitives, key: PrivateKey, tx: Transaction, prevTxs: map<string, Transaction>)
    ensures IsCoinbase(tx) ==> Signed(p, key, tx, prevTxs) == Ok(tx)
    ensures !IsCoinbase(tx) ==>
      (Signed(p, key, tx, prevTxs).Ok? <==> AllPrevPresent(prevTxs, tx) && AllPrevInRange(prevTxs, tx))
    ensures Signed(p, key, tx, prevTxs).Ok? ==>
      var s := Signed(p, key, tx, prevTxs).value;
      && SameReferences(s, tx)
      && (forall i :: 0 <= i < |tx.vin| ==> s.vin[i].pubKey == tx.vin[i].pubKey)
      && IsCoinbase(s) == IsCoinbase(tx)
      && TrimmedCopy(s) == TrimmedCopy(tx)
  {
    if Signed(p, key, tx, prevTxs).Ok? {
      TrimmedCopyIgnoresWitnesses(Signed(p, key, tx, prevTxs).value, tx);
    }
  }

  /** Sign (transaction.go:128-155), on a value: the updated transaction or the abort. */
  method Sign(p: Primitives, key: PrivateKey, tx: Transaction, prevTxs: map<string, Transaction>)
    returns (r: Result<Transaction>)
    ensures r == Signed(p, key, tx, prevTxs)
  {
    if IsCoinbase(tx) {
      return Ok(tx);
    }
    for k := 0 to |tx.vin|
      invariant forall j :: 0 <= j < k ==> PrevPresent(prevTxs, tx.vin[j])
    {
      if !PrevPresent(prevTxs, tx.vin[k]) {
        return Err(PrevTxMissing);
      }
    }
    var txCopy := TrimmedCopy(tx);
    var vin := tx.vin;
    for inID := 0 to |txCopy.vin|
      invariant txCopy == TrimmedCopy(tx) && |vin| == |tx.vin|
      invariant forall j :: 0 <= j < inID ==>
        PrevInRange(prevTxs, tx.vin[j]) && vin[j] == SignInput(p, key, tx, prevTxs, j)
      invariant forall j :: inID <= j < |vin| ==> vin[j] == tx.vin[j]
    {
      var input := txCopy.vin[inID];
      var prevTx := PrevTx(prevTxs, input);
      if !(0 <= input.vout < |prevTx.vout|) {
        assert !PrevInRange(prevTxs, tx.vin[inID]);
        return Err(IndexOutOfRange);
      }
      txCopy := txCopy.(vin := txCopy.vin[inID := txCopy.vin[inID].(signature := [], pubKey := prevTx.vout[input.vout].pubKeyHash)]);
      assert txCopy == Payload(tx, inID, PrevLock(prevTxs, tx.vin[inID]));
      var dataToSign := p.renderTx(txCopy);
      var signature := JoinSignature(p.ecdsaSign(key, dataToSign));
      vin := vin[inID := vin[inID].(signature := signature)];
      assert vin[inID] == SignInput(p, key, tx, prevTxs, inID);
      txCopy := txCopy.(vin := txCopy.vin[inID := txCopy.vin[inID].(pubKey := [])]);
    }
    assert vin == seq(|tx.vin|, i requires 0 <= i < |tx.vin| => SignInput(p, key, tx, prevTxs, i));
    r := Ok(tx.(vin := vin));
  }

  /** The check Verify makes of input i. */
  predicate InputVerifies(p: Primitives, tx: Transaction, prevTxs: map<string, Transaction>, i: nat)
    requires i < |tx.vin| && PrevInRange(prevTxs, tx.vin[i])
  {
    var (r, s) := SplitHalves(tx.vin[i].signature);
    var (x, y) := SplitHalves(tx.vin[i].pubKey);
    p.ecdsaVerify(PublicKey(x, y), p.renderTx(Payload(tx, i, PrevLock(prevTxs, tx.vin[i]))), r, s)
  }

  /** What Verify concludes about input i: None when the output it spends is out of range
      (the index panics), otherwise whether its check passes. */
  function Verdict(p: Primitives, tx: Transaction, prevTxs: map<string, Transaction>, i: nat): Option<bool>
    requires i < |tx.vin|
  {
    if PrevInRange(prevTxs, tx.vin[i]) then Some(InputVerifies(p, tx, prevTxs, i)) else None
  }

  function Verdicts(p: Primitives, tx: Transaction, prevTxs: map<string, Transaction>): (r: seq<Option<bool>>)
    ensures |r| == |tx.vin|
  {
    seq(|tx.vin|, i requires 0 <= i < |tx.vin| => Verdict(p, tx, prevTxs, i))
  }

  /** Verify's input loop from input i on: it aborts at the first out-of-range reference
      and answers false at the first failing input. */
  function FirstFailure(vs: seq<Option<bool>>, i: nat): Result<bool>
    requires i <= |vs|
    decreases |vs| - i
  {
    if i == |vs| then Ok(true)
    else match vs[i]
      case None => Err(IndexOutOfRange)
      case Some(ok) => if ok then FirstFailure(vs, i + 1) else Ok(false)
  }

  /** What Verify returns, or why it aborts. */
  function Verified(p: Primitives, tx: Transaction, prevTxs: map<string, Transaction>): Result<bool>
  {
    if IsCoinbase(tx) then Ok(true)
    else if !AllPrevPresent(prevTxs, tx) then Err(PrevTxMissing)
    else FirstFailure(Verdicts(p, tx, prevTxs), 0)
  }

  /** Verify (transaction.go:175-216). */
  method Verify(p: Primitives, tx: Transaction, prevTxs: map<string, Transaction>) returns (r: Result<bool>)
    ensures r == Verified(p, tx, prevTxs)
  {
    if IsCoinbase(tx) {
      return Ok(true);
    }
    for k := 0 to |tx.vin|
      invariant forall j :: 0 <= j < k ==> PrevPresent(prevTxs, tx.vin[j])
    {
      if !PrevPresent(prevTxs, tx.vin[k]) {
        return Err(PrevTxMissing);
      }
    }
    ghost var vs := Verdicts(p, tx, prevTxs);
    var txCopy := TrimmedCopy(tx);
    for inID := 0 to |tx.vin|
      invariant txCopy == TrimmedCopy(tx)
      invariant FirstFailure(vs, 0) == FirstFailure(vs, inID)
    {
      var vin := tx.vin[inID];
      var prevTx := PrevTx(prevTxs, vin);
      if !(0 <= vin.vout < |prevTx.vout|) {
        return Err(IndexOutOfRange);
      }
      txCopy := txCopy.(vin := txCopy.vin[inID := txCopy.vin[inID].(signature := [], pubKey := prevTx.vout[vin.vout].pubKeyHash)]);
      var (r, s) := SplitHalves(vin.signature);
      var (x, y) := SplitHalves(vin.pubKey);
      var dataToVerify := p.renderTx(txCopy);
      if !p.ecdsaVerify(PublicKey(x, y), dataToVerify, r, s) {
        return Ok(false);
      }
      txCopy := txCopy.(vin := txCopy.vin[inID := txCopy.vin[inID].(pubKey := [])]);
    }
    return Ok(true);
  }

  /** With no aborting verdict from input i on, the loop answers true exactly when every
      verdict from i on is a pass. */
  lemma {:induction false} FirstFailureAll(vs: seq<Option<bool>>, i: nat)
    requires i <= |vs| && forall j :: i <= j < |vs| ==> vs[j].Some?
    ensures FirstFailure(vs, i) == Ok(forall j :: i <= j < |vs| ==> vs[j].value)
    decreases |vs| - i
  {
    if i < |vs| {
      FirstFailureAll(vs, i + 1);
      if vs[i].value {
        assert forall j :: i <= j < |vs| ==> vs[j] == vs[i] || i + 1 <= j;
      }
    }
  }

  /** The loop aborts exactly when some input's reference is out of range before any
      input fails its check. */
  lemma {:induction false} FirstFailureErr(vs: seq<Option<bool>>, i: nat)
    requires i <= |vs|
    ensures FirstFailure(vs, i).Err? <==>
      exists k :: i <= k < |vs| && vs[k].None? && forall j :: i <= j < k ==> vs[j] == Some(true)
    decreases |vs| - i
  {
    if i < |vs| {
      FirstFailureErr(vs, i + 1);
      if vs[i] == Some(true) && FirstFailure(vs, i + 1).Err? {
        var k :| i + 1 <= k < |vs| && vs[k].None? && forall j :: i + 1 <= j < k ==> vs[j] == Some(true);
        assert forall j :: i <= j < k ==> vs[j] == vs[i] || i + 1 <= j;
      }
    }
  }

  /** With every referenced transaction present and every output in range, Verify answers
      true exactly when every input passes its check. */
  lemma VerifiedIffAllInputs(p: Primitives, tx: Transaction, prevTxs: map<string, Transaction>)
    requires !IsCoinbase(tx) && AllPrevPresent(prevTxs, tx) && AllPrevInRange(prevTxs, tx)
    ensures Verified(p, tx, prevTxs) == Ok(forall i :: 0 <= i < |tx.vin| ==> InputVerifies(p, tx, prevTxs, i))
  {
    var vs := Verdicts(p, tx, prevTxs);
    assert forall j :: 0 <= j < |vs| ==> vs[j] == Some(InputVerifies(p, tx, prevTxs, j));
    FirstFailureAll(vs, 0);
  }

  /** ECDSA's correctness for one key pair: every signature made with `key` verifies under `pub`. */
  ghost predicate KeyPair(p: Primitives, key: PrivateKey, pub: PublicKey)
  {
    forall m :: p.ecdsaVerify(pub, m, p.ecdsaSign(key, m).0, p.ecdsaSign(key, m).1)
  }

  /** The signer's r and s encode to lengths that the split at len/2 separates again. */
  ghost predicate SplittableSignatures(p: Primitives, key: PrivateKey)
  {
    forall m :: (|NatToBytes(p.ecdsaSign(key, m).0)| + |NatToBytes(p.ecdsaSign(key, m).1)|) / 2
                == |NatToBytes(p.ecdsaSign(key, m).0)|
  }

  /** A transaction signed by Sign verifies with the same map of previous transactions,
      provided every input carries the signer's public key and r and s split back. */
  lemma SignThenVerify(p: Primitives, key: PrivateKey, pub: PublicKey, tx: Transaction, prevTxs: map<string, Transaction>)
    requires Signed(p, key, tx, prevTxs).Ok?
    requires KeyPair(p, key, pub) && SplittableSignatures(p, key)
    requires forall i :: 0 <= i < |tx.vin| ==> SplitHalves(tx.vin[i].pubKey) == (pub.x, pub.y)
    ensures Verified(p, Signed(p, key, tx, prevTxs).value, prevTxs) == Ok(true)
  {
    var signed := Signed(p, key, tx, prevTxs).value;
    SignedShape(p, key, tx, prevTxs);
    if !IsCoinbase(tx) {
      assert AllPrevPresent(prevTxs, signed) by {
        forall i | 0 <= i < |signed.vin| ensures PrevPresent(prevTxs, signed.vin[i]) {
          assert PrevTx(prevTxs, signed.vin[i]) == PrevTx(prevTxs, tx.vin[i]);
        }
      }
      assert AllPrevInRange(prevTxs, signed) by {
        forall i | 0 <= i < |signed.vin| ensures PrevInRange(prevTxs, signed.vin[i]) {
          assert PrevTx(prevTxs, signed.vin[i]) == PrevTx(prevTxs, tx.vin[i]);
        }
      }
      forall i | 0 <= i < |signed.vin| ensures InputVerifies(p, signed, prevTxs, i) {
        var lock := PrevLock(prevTxs, tx.vin[i]);
        assert PrevLock(prevTxs, signed.vin[i]) == lock by {
          assert PrevTx(prevTxs, signed.vin[i]) == PrevTx(prevTxs, tx.vin[i]);
        }
        assert Payload(signed, i, lock) == Payload(tx, i, lock);
        var m := p.renderTx(Payload(tx, i, lock));
        var sig := p.ecdsaSign(key, m);
        assert signed.vin[i].signature == JoinSignature(sig);
        SplitRecovers(sig.0, sig.1);
        assert SplitHalves(signed.vin[i].signature) == sig;
      }
      VerifiedIffAllInputs(p, signed, prevTxs);
    }
  }
}
