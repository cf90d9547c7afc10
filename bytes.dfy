/** Byte strings, Go's 64-bit integers and the big-endian reading of bytes as an
    unsigned integer that math/big provides (SetBytes and Bytes). */
module Bytes {

  newtype byte = x: int | 0 <= x < 256

  type Bytes = seq<byte>

  /** Go's int64; Go's int is 64 bits wide on every platform the program targets. */
  type Int64 = x: int | -0x8000_0000_0000_0000 <= x < 0x8000_0000_0000_0000

  const MaxInt64: Int64 := 0x7FFF_FFFF_FFFF_FFFF

  function Pow2(k: nat): (r: nat)
    ensures r >= 1
  {
    if k == 0 then 1 else 2 * Pow2(k - 1)
  }

  function Pow256(k: nat): (r: nat)
    ensures r >= 1
    ensures k > 0 ==> r >= 256
  {
    if k == 0 then 1 else 256 * Pow256(k - 1)
  }

  /** 2^(8k) is 256^k. */
  lemma {:induction false} Pow2Bytes(k: nat)
    ensures Pow2(8 * k) == Pow256(k)
  {
    if k > 0 {
      Pow2Bytes(k - 1);
      assert Pow2(8 * k) == 256 * Pow2(8 * (k - 1)) by {
        var m := 8 * (k - 1);
        assert 8 * k == m + 8;
        assert Pow2(m + 8) == 2 * Pow2(m + 7) == 4 * Pow2(m + 6) == 8 * Pow2(m + 5) == 16 * Pow2(m + 4);
        assert Pow2(m + 4) == 2 * Pow2(m + 3) == 4 * Pow2(m + 2) == 8 * Pow2(m + 1) == 16 * Pow2(m);
      }
    }
  }

  /** big.Int.SetBytes: the bytes read as a big-endian unsigned integer. */
  function BytesToNat(b: Bytes): nat
  {
    if b == [] then 0 else BytesToNat(b[..|b| - 1]) * 256 + b[|b| - 1] as nat
  }

  /** big.Int.Bytes: the shortest big-endian encoding, empty for zero. */
  function NatToBytes(n: nat): Bytes
  {
    if n == 0 then [] else NatToBytes(n / 256) + [(n % 256) as byte]
  }

  /** Reading back the encoding of n gives n. */
  lemma {:induction false} NatToBytesRoundTrip(n: nat)
    ensures BytesToNat(NatToBytes(n)) == n
  {
    if n > 0 {
      NatToBytesRoundTrip(n / 256);
      var b := NatToBytes(n);
      assert b[..|b| - 1] == NatToBytes(n / 256);
    }
  }

  /** The encoding is empty exactly for zero and otherwise has no leading zero byte. */
  lemma {:induction false} NatToBytesMinimal(n: nat)
    ensures NatToBytes(n) == [] <==> n == 0
    ensures n > 0 ==> NatToBytes(n)[0] != 0
  {
    if n >= 256 {
      NatToBytesMinimal(n / 256);
    }
  }

  /** Reading a concatenation: the left part is shifted by the length of the right part. */
  lemma {:induction false} BytesToNatAppend(a: Bytes, b: Bytes)
    ensures BytesToNat(a + b) == BytesToNat(a) * Pow256(|b|) + BytesToNat(b)
    decreases |b|
  {
    if b == [] {
      assert a + b == a;
    } else {
      var c := a + b;
      var b' := b[..|b| - 1];
      assert c[..|c| - 1] == a + b';
      assert c[|c| - 1] == b[|b| - 1];
      BytesToNatAppend(a, b');
      assert BytesToNat(c) == BytesToNat(a + b') * 256 + b[|b| - 1] as nat;
      ShiftByte(BytesToNat(a), Pow256(|b'|), BytesToNat(b'), b[|b| - 1] as nat);
    }
  }

  lemma ShiftByte(x: nat, p: nat, y: nat, d: nat)
    ensures (x * p + y) * 256 + d == x * (256 * p) + (y * 256 + d)
  {
  }

  /** A reading of k bytes is below 256^k. */
  lemma {:induction false} BytesToNatBound(b: Bytes)
    ensures BytesToNat(b) < Pow256(|b|)
  {
    if b != [] {
      var b' := b[..|b| - 1];
      BytesToNatBound(b');
      var y, p := BytesToNat(b'), Pow256(|b'|);
      assert y + 1 <= p;
      assert (y + 1) * 256 <= p * 256;
    }
  }

  /** A reading whose first byte is not zero is at least 256^(k-1). */
  lemma LeadingByteBound(b: Bytes)
    requires |b| > 0 && b[0] != 0
    ensures BytesToNat(b) >= Pow256(|b| - 1)
  {
    var head, rest := [b[0]], b[1..];
    assert b == head + rest;
    BytesToNatAppend(head, rest);
    assert head[..0] == [];
    var v: nat, p := b[0] as nat, Pow256(|rest|);
    assert BytesToNat(head) == v;
    MulAtLeast(v, p);
  }

  lemma MulAtLeast(v: nat, p: nat)
    requires v >= 1
    ensures v * p >= p
  {
  }

  /** Go's bytes.Compare(a, b) < 0: lexicographic order, the order of a bolt cursor. */
  predicate ByteLess(a: Bytes, b: Bytes)
  {
    if a == [] then b != []
    else if b == [] then false
    else a[0] < b[0] || (a[0] == b[0] && ByteLess(a[1..], b[1..]))
  }

  /** A cursor visits every key of the bucket once, in ascending byte order. */
  ghost predicate CursorOrder(order: seq<Bytes>, keys: set<Bytes>)
  {
    && (forall i :: 0 <= i < |order| ==> order[i] in keys)
    && (forall k :: k in keys ==> k in order)
    && (forall i, j :: 0 <= i < j < |order| ==> order[i] != order[j] && ByteLess(order[i], order[j]))
  }
}
