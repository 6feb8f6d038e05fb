/** What the chained form of a name is for: the first cipher block depends on the whole name. */
module TextBinding {
  import opened Bytes
  import opened SectorCrypto
  import opened SectorBinding
  import opened SectorModes
  import opened TextCrypto

  function Head(c: Bytes): (h: Bytes) {
    if |c| >= BLOCK_SIZE then c[..BLOCK_SIZE] else c
  }

  lemma FirstCipherBlock(k: Key, t: Bytes)
    requires |k.iv| >= BLOCK_SIZE && |t| > BLOCK_SIZE
    ensures |EncodeText(k, t)| >= BLOCK_SIZE
    ensures EncodeText(k, t)[..BLOCK_SIZE] == k.enc(Xor(t[..BLOCK_SIZE], Hmac(k.sha512, k.iv, t[BLOCK_SIZE..])[..BLOCK_SIZE]))
  {
    hide Chain, Xor, Hmac;
    var p := Padded(t);
    var first: Block, tail := p[..BLOCK_SIZE], p[BLOCK_SIZE..];
    var h: Block := Hmac(k.sha512, k.iv, t[BLOCK_SIZE..])[..BLOCK_SIZE];
    PaddedTail(t);
    assert p == first + tail;
    SectorCoder.ChainCons(k, h, first, tail);
    XorCancels(first, h);
  }

  /** The first cipher blocks of two long names agree under every key exactly if the names are the same. */
  lemma FirstBlockBinds(t: Bytes, u: Bytes)
    requires |t| > BLOCK_SIZE && |u| > BLOCK_SIZE
    ensures (forall k: Key | Inverse(k) && |k.iv| >= BLOCK_SIZE ::
               Head(EncodeText(k, t)) == Head(EncodeText(k, u)))
            <==> t == u
  {
    if t != u {
      hide EncodeText;
      var k := TellsApart(t, u);
      FirstCipherBlock(k, t);
      FirstCipherBlock(k, u);
    }
  }

  /** A key whose hash knows the tail of one name, or neither tail. */
  lemma TellsApart(t: Bytes, u: Bytes) returns (k: Key)
    requires |t| > BLOCK_SIZE && |u| > BLOCK_SIZE && t != u
    ensures Inverse(k) && |k.iv| >= BLOCK_SIZE
    ensures |EncodeText(k, t)| >= BLOCK_SIZE && |EncodeText(k, u)| >= BLOCK_SIZE
    ensures EncodeText(k, t)[..BLOCK_SIZE] != EncodeText(k, u)[..BLOCK_SIZE]
  {
    hide EncodeText, Hmac, Inverse;
    var key := Zeros(BLOCK_SIZE);
    var a, b := t[..BLOCK_SIZE], u[..BLOCK_SIZE];
    var v, w := t[BLOCK_SIZE..], u[BLOCK_SIZE..];
    assert t == a + v && u == b + w;
    var none: Block := Noughts()[..BLOCK_SIZE];
    if a != b {
      // neither tail is known, so both first blocks are xored with zeros
      var m := v + w + [0];
      k := Witness(key, m);
      WitnessInverts(key, m);
      KnowsNoOther(key, m, v);
      KnowsNoOther(key, m, w);
      XorSame(a, b, none);
    } else {
      k := Witness(key, v);
      WitnessInverts(key, v);
      KnowsItsMessage(key, v);
      KnowsNoOther(key, v, w);
      XorCancels(a, Ones()[..BLOCK_SIZE]);
      XorCancels(a, none);
      XorSame(Ones()[..BLOCK_SIZE], none, a);
    }
    FirstCipherBlock(k, t);
    FirstCipherBlock(k, u);
  }

  /** A short name is encoded alike under two HMAC keys, whatever the cipher, exactly if the keys begin alike. */
  lemma ShortNameKeyBinds(t: Bytes, key: Bytes, key': Bytes)
    requires 1 <= |t| <= BLOCK_SIZE && |key| >= BLOCK_SIZE && |key'| >= BLOCK_SIZE
    ensures (forall k: Key | Inverse(k) && k.iv == key :: EncodeText(k, t) == EncodeText(k.(iv := key'), t))
            <==> key[..BLOCK_SIZE] == key'[..BLOCK_SIZE]
  {
    hide Xor, Hmac;
    if key[..BLOCK_SIZE] != key'[..BLOCK_SIZE] {
      var k := Witness(key, []);
      WitnessInverts(key, []);
      var p: Block := Padded(t);
      XorCancels(p, key[..BLOCK_SIZE]);
      XorCancels(p, key'[..BLOCK_SIZE]);
      XorSame(key[..BLOCK_SIZE], key'[..BLOCK_SIZE], p);
      assert EncodeText(k, t) == Xor(p, key[..BLOCK_SIZE]);
      assert EncodeText(k.(iv := key'), t) == Xor(p, key'[..BLOCK_SIZE]);
    }
  }

  /** A long name is chained as section 6.2 of SP 800-38A says, from the HMAC of what is behind its first block. */
  lemma LongNameIsCbc(k: Key, t: Bytes, j: nat)
    requires |k.iv| >= BLOCK_SIZE && |t| > BLOCK_SIZE && BLOCK_SIZE * (j + 1) <= |Padded(t)|
    ensures var c := EncodeText(k, t);
            |c| == |Padded(t)| &&
            BlockAt(c, j) == k.enc(Xor(if j == 0 then Hmac(k.sha512, k.iv, t[BLOCK_SIZE..])[..BLOCK_SIZE] else BlockAt(c, j - 1),
                                       BlockAt(Padded(t), j)))
  {
    hide Chain, Xor, Hmac;
    ChainIsCbc(k, Hmac(k.sha512, k.iv, t[BLOCK_SIZE..])[..BLOCK_SIZE], Padded(t), j);
  }
}
