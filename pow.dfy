/** Proof of work (block/pow.go): the header of a block for a nonce, the linear nonce
    search of Run, and Validate. */
module ProofOfWork {
  import opened Bytes
  import opened Hex
  import opened Transactions
  import opened Blocks

  const TargetBits: Int64 := 24

  /** NewProofOfWork's target: 1 shifted left by 256 - 24 bits. */
  const Target: nat := Pow2(256 - TargetBits as nat)

  /** The search bound: Run tries the nonces 0 .. MaxInt64 - 1. */
  const MaxNonce: Int64 := MaxInt64

  /** The header hashed for a nonce: previous hash, transaction digest, and the time stamp,
      the target bits and the nonce rendered in base 16, concatenated in this order. */
  function PrepareData(p: Primitives, b: Block, nonce: Int64): Bytes
  {
    b.prevHash + HashTransactions(p, b) + IntToHex(b.timeStamp) + IntToHex(TargetBits) + IntToHex(nonce)
  }

  /** The header does not read the block's own hash or nonce. */
  lemma PrepareDataIgnoresSeal(p: Primitives, b: Block, hash: Bytes, seal: Int64, nonce: Int64)
    ensures PrepareData(p, b.(hash := hash, nonce := seal), nonce) == PrepareData(p, b, nonce)
  {
    assert HashTransactions(p, b.(hash := hash, nonce := seal)) == HashTransactions(p, b);
  }

  /** Different nonces give different headers for the same block. */
  lemma PrepareDataInjective(p: Primitives, b: Block, n: Int64, m: Int64)
    requires PrepareData(p, b, n) == PrepareData(p, b, m)
    ensures n == m
  {
    var prefix := b.prevHash + HashTransactions(p, b) + IntToHex(b.timeStamp) + IntToHex(TargetBits);
    assert PrepareData(p, b, n) == prefix + IntToHex(n);
    assert PrepareData(p, b, m) == prefix + IntToHex(m);
    assert IntToHex(n) == PrepareData(p, b, n)[|prefix|..];
    assert IntToHex(m) == PrepareData(p, b, m)[|prefix|..];
    IntToHexInjective(n, m);
  }

  /** The hash of the header for a nonce. */
  function HeaderHash(p: Primitives, b: Block, nonce: Int64): Hash
  {
    p.sha256(PrepareData(p, b, nonce))
  }

  /** The test of Run and Validate: the hash read as a big-endian integer is below the target. */
  predicate BelowTarget(h: Bytes)
  {
    BytesToNat(h) < Target
  }

  predicate NonceSolves(p: Primitives, b: Block, nonce: Int64)
  {
    BelowTarget(HeaderHash(p, b, nonce))
  }

  lemma {:induction false} BytesToNatZero(b: Bytes)
    ensures BytesToNat(b) == 0 <==> forall i :: 0 <= i < |b| ==> b[i] == 0
  {
    if b != [] {
      BytesToNatZero(b[..|b| - 1]);
      assert forall i :: 0 <= i < |b| - 1 ==> b[..|b| - 1][i] == b[i];
    }
  }

  /** A 32-byte hash meets the target exactly when its first 24 bits are zero. */
  lemma BelowTargetIffLeadingZeros(h: Hash)
    ensures BelowTarget(h) <==> h[0] == 0 && h[1] == 0 && h[2] == 0
  {
    var n: nat := |h| - 3;
    Pow2Bytes(n);
    assert Target == Pow2(8 * n);
    BelowPowerIffHighZero(h, 3, Target);
    assert (forall i :: 0 <= i < 3 ==> h[i] == 0) <==> h[0] == 0 && h[1] == 0 && h[2] == 0;
  }

  /** A reading is below t = 256^(|h| - k) exactly when its first k bytes are zero. */
  lemma BelowPowerIffHighZero(h: Bytes, k: nat, t: nat)
    requires k <= |h| && t == Pow256(|h| - k)
    ensures BytesToNat(h) < t <==> forall i :: 0 <= i < k ==> h[i] == 0
  {
    var hi, lo := h[..k], h[k..];
    assert h == hi + lo;
    BytesToNatAppend(hi, lo);
    BytesToNatBound(lo);
    HighPartBelow(BytesToNat(hi), Pow256(|lo|), BytesToNat(lo));
    BytesToNatZero(hi);
    assert forall i :: 0 <= i < k ==> hi[i] == h[i];
  }

  lemma HighPartBelow(v: nat, p: nat, w: nat)
    requires w < p
    ensures v * p + w < p <==> v == 0
  {
    if v != 0 {
      MulAtLeast(v, p);
    }
  }

  /** The first nonce from `from` on that solves the block, or MaxNonce if none below it does. */
  function FirstSolution(p: Primitives, b: Block, from: Int64): (n: Int64)
    requires 0 <= from <= MaxNonce
    ensures from <= n <= MaxNonce
    ensures n < MaxNonce ==> NonceSolves(p, b, n)
    ensures forall k: Int64 :: from <= k < n ==> !NonceSolves(p, b, k)
    decreases MaxNonce - from
  {
    if from == MaxNonce then MaxNonce
    else if NonceSolves(p, b, from) then from
    else FirstSolution(p, b, from + 1)
  }

  /** What Run returns: the least solving nonce and its hash; when no nonce below MaxNonce
      solves, MaxNonce and the hash computed last, the one for MaxNonce - 1. */
  function Mine(p: Primitives, b: Block): (Int64, Hash)
  {
    var n := FirstSolution(p, b, 0);
    (n, HeaderHash(p, b, if n < MaxNonce then n else MaxNonce - 1))
  }

  /** Run: tries the nonces in increasing order and stops at the first whose hash is below the target. */
  method Run(p: Primitives, b: Block) returns (nonce: Int64, hash: Hash)
    ensures (nonce, hash) == Mine(p, b)
  {
    hash := seq(32, _ => 0);
    nonce := 0;
    while nonce < MaxNonce
      invariant 0 <= nonce <= MaxNonce
      invariant FirstSolution(p, b, nonce) == FirstSolution(p, b, 0)
      invariant nonce > 0 ==> hash == HeaderHash(p, b, nonce - 1)
      decreases MaxNonce - nonce
    {
      var data := PrepareData(p, b, nonce);
      hash := p.sha256(data);
      if BelowTarget(hash) {
        break;
      } else {
        nonce := nonce + 1;
      }
    }
  }

  /** Run's result is the least solving nonce: no smaller nonce solves, and a nonce below
      MaxNonce solves. */
  lemma MineIsLeast(p: Primitives, b: Block)
    ensures var (n, h) := Mine(p, b);
      && (forall k: Int64 :: 0 <= k < n ==> !NonceSolves(p, b, k))
      && (n < MaxNonce ==> NonceSolves(p, b, n) && BelowTarget(h))
      && (n == MaxNonce ==> h == HeaderHash(p, b, MaxNonce - 1))
  {
  }

  /** Validate: the hash of the header for the block's own nonce is below the target. */
  predicate Validate(p: Primitives, b: Block)
  {
    NonceSolves(p, b, b.nonce)
  }
}
