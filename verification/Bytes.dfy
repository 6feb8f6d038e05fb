/** Byte strings, the xor helpers of pcrypto.c, and copying into a buffer. */
module Bytes {
  type Byte = bv8
  type Bytes = seq<Byte>

  const BLOCK_SIZE: nat := 16

  type Block = b: Bytes | |b| == BLOCK_SIZE witness seq(BLOCK_SIZE, _ => 0)

  function Zeros(n: nat): (z: Bytes)
    ensures |z| == n
  {
    seq(n, _ => 0)
  }

  function Xor(a: Bytes, b: Bytes): (r: Bytes)
    requires |a| == |b|
    ensures |r| == |a|
  {
    seq(|a|, i requires 0 <= i < |a| => a[i] ^ b[i])
  }

  lemma XorCancels(a: Bytes, b: Bytes)
    requires |a| == |b|
    ensures Xor(Xor(a, b), b) == a
    ensures Xor(b, Xor(b, a)) == a
    ensures Xor(a, b) == Xor(b, a)
  {
    var x := Xor(a, b);
    assert forall i | 0 <= i < |a| :: x[i] ^ b[i] == a[i];
    assert forall i | 0 <= i < |a| :: Xor(b, a)[i] == x[i];
  }

  /** The text with its first |b| bytes xored with b and the rest kept. */
  function XorPrefix(a: Bytes, b: Bytes): (r: Bytes)
    requires |b| <= |a|
    ensures |r| == |a|
  {
    Xor(a[..|b|], b) + a[|b|..]
  }

  lemma XorPrefixSelf(a: Bytes, n: nat)
    requires n <= |a|
    ensures XorPrefix(a, a[..n]) == Zeros(n) + a[n..]
  {
    assert forall i | 0 <= i < n :: a[i] ^ a[i] == 0;
  }

  /** memcpy into a buffer. */
  method Store(dst: array<Byte>, off: nat, src: Bytes)
    requires off + |src| <= dst.Length
    modifies dst
    ensures dst[..off] == old(dst[..off])
    ensures dst[off..off + |src|] == src
    ensures dst[off + |src|..] == old(dst[off + |src|..])
  {
    var i := 0;
    while i < |src|
      invariant 0 <= i <= |src|
      invariant forall j :: 0 <= j < dst.Length && !(off <= j < off + i) ==> dst[j] == old(dst[j])
      invariant forall j :: 0 <= j < i ==> dst[off + j] == src[j]
    {
      dst[off + i] := src[i];
      i := i + 1;
    }
  }

  /** memcpy behind what a buffer holds already. */
  method Append(dst: array<Byte>, off: nat, src: Bytes)
    requires off + |src| <= dst.Length
    modifies dst
    ensures dst[..off + |src|] == old(dst[..off]) + src
    ensures dst[off + |src|..] == old(dst[off + |src|..])
  {
    Store(dst, off, src);
    assert dst[..off + |src|] == dst[..off] + dst[off..off + |src|];
  }

  /** memcpy, seen on the whole buffer. */
  method Overwrite(dst: array<Byte>, off: nat, src: Bytes)
    requires off + |src| <= dst.Length
    modifies dst
    ensures dst[..] == old(dst[..off]) + src + old(dst[off + |src|..])
  {
    Store(dst, off, src);
    assert dst[..] == dst[..off] + dst[off..off + |src|] + dst[off + |src|..];
  }

  /** Reads ahead in a buffer whose part from `pos` on still holds the original bytes `D`. */
  method Fetch(data: array<Byte>, ghost D: Bytes, pos: nat, n: nat) returns (b: Bytes)
    requires data.Length == |D| && pos + n <= |D|
    requires data[pos..] == D[pos..]
    ensures b == D[pos..pos + n]
  {
    b := data[pos..][..n];
  }

  /** Appends to the written part of `out`; the unread part of `data`, maybe the same buffer, stays. */
  method Emit(data: array<Byte>, out: array<Byte>, ghost D: Bytes, pos: nat, src: Bytes)
    requires data.Length == out.Length == |D| && pos + |src| <= |D|
    requires data[pos..] == D[pos..]
    modifies out
    ensures out[..pos + |src|] == old(out[..pos]) + src
    ensures data[pos + |src|..] == D[pos + |src|..]
  {
    assert data[pos + |src|..] == data[pos..][|src|..] == D[pos..][|src|..] == D[pos + |src|..];
    Store(out, pos, src);
    assert out[..pos + |src|] == out[..pos] + out[pos..pos + |src|];
  }
}
