/** The body of a sector measured against NIST SP 800-38A and the Addendum that defines ciphertext stealing. */
module SectorModes {
  import opened Bytes
  import opened SectorCrypto
  import opened SectorCoder

  /** Block j of a text. */
  function BlockAt(p: Bytes, j: nat): (b: Block)
    requires BLOCK_SIZE * (j + 1) <= |p|
  {
    p[BLOCK_SIZE * j..BLOCK_SIZE * (j + 1)]
  }

  /** Section 6.2 of SP 800-38A: each block is xored with the cipher block before it, the first with the initial vector. */
  lemma {:induction false} ChainIsCbc(k: Key, iv: Block, p: Bytes, j: nat)
    requires |p| % BLOCK_SIZE == 0 && BLOCK_SIZE * (j + 1) <= |p|
    ensures var c := Chain(k, iv, p);
            |c| == |p| && BlockAt(c, j) == k.enc(Xor(if j == 0 then iv else BlockAt(c, j - 1), BlockAt(p, j)))
    decreases |p|
  {
    hide Xor;
    var p0: Block, rest := p[..BLOCK_SIZE], p[BLOCK_SIZE..];
    var c0 := k.enc(Xor(iv, p0));
    var c := Chain(k, iv, p);
    var tail := Chain(k, c0, rest);
    assert c == c0 + tail;
    assert BlockAt(p, 0) == p0 && BlockAt(c, 0) == c0;
    if j > 0 {
      ChainIsCbc(k, c0, rest, j - 1);
      assert BlockAt(c, j) == BlockAt(tail, j - 1) && BlockAt(p, j) == BlockAt(rest, j - 1);
      if j > 1 {
        assert BlockAt(c, j - 1) == BlockAt(tail, j - 2);
      }
    }
  }

  /**
   The variant CBC-CS2 of the Addendum: a ragged text is filled with zeros and chained; then the last two
   blocks change places, and the last one is cut to the length of the ragged rest.
   */
  lemma BodyIsCs2(k: Key, iv: Block, p: Bytes)
    requires |p| > BLOCK_SIZE && |p| % BLOCK_SIZE != 0
    ensures var r := |p| % BLOCK_SIZE;
            var n := |p| - r - BLOCK_SIZE;
            var c := Chain(k, iv, p + Zeros(BLOCK_SIZE - r));
            |c| == n + 2 * BLOCK_SIZE && EncodeBody(k, iv, p) == c[..n] + c[n + BLOCK_SIZE..] + c[n..n + r]
  {
    hide Chain, Link, Xor;
    var r := |p| % BLOCK_SIZE;
    var n := |p| - r - BLOCK_SIZE;
    var full: Block, rest := p[n..n + BLOCK_SIZE], p[n + BLOCK_SIZE..];
    var last: Block := rest + Zeros(BLOCK_SIZE - r);
    assert p + Zeros(BLOCK_SIZE - r) == p[..n] + full + last;
    ChainSnoc(k, iv, p[..n], full);
    ChainSnoc(k, iv, p[..n] + full, last);
    var c := Chain(k, iv, p[..n]);
    var e := k.enc(Xor(Link(iv, c), full));
    LinkEnd(iv, c, e);
    var f := k.enc(Xor(e, last));
    PadXor(e, rest);
    assert Chain(k, iv, p + Zeros(BLOCK_SIZE - r)) == c + e + f;
    Blocks(c, e, f, r);
  }

  lemma PadXor(e: Block, rest: Bytes)
    requires |rest| <= BLOCK_SIZE
    ensures XorPrefix(e, rest) == Xor(e, rest + Zeros(BLOCK_SIZE - |rest|))
  {
    assert forall i | |rest| <= i < BLOCK_SIZE :: e[i] ^ 0 == e[i];
  }

  lemma Blocks(c: Bytes, e: Block, f: Block, r: nat)
    requires r <= BLOCK_SIZE
    ensures var all := c + e + f;
            var n := |c|;
            all[..n] == c && all[n..n + r] == e[..r] && all[n + BLOCK_SIZE..] == f
  {
  }
}
