/**
 What the tag of a sector is for: it binds the text, the sector id, the random block and the HMAC key.
 Nothing here relies on how the tag is computed; a hash that knows one message apart from all others
 shows for any two different messages that they are told apart.
 */
module SectorBinding {
  import opened Bytes
  import opened SectorCrypto

  // ---------------------------------------------------------------- A hash that knows one message

  function Ones(): (d: Digest)
    ensures d[0] == 1 && d[..BLOCK_SIZE][0] == 1
  {
    seq(64, _ => 1)
  }

  function Noughts(): (d: Digest)
    ensures d[0] == 0 && d[..BLOCK_SIZE][0] == 0
  {
    Zeros(64)
  }

  /** What the two rounds of HMAC hash under a key block. */
  function Inner(block: Bytes, msg: Bytes): (r: Bytes)
    requires |block| == SHA_BLOCK
  {
    Xor(block, RepeatedByte(0x36)) + msg
  }

  function Outer(block: Bytes, digest: Digest): (r: Bytes)
    requires |block| == SHA_BLOCK
  {
    Xor(block, RepeatedByte(0x5c)) + digest
  }

  function Marked(a: Bytes, b: Bytes, s: Bytes): (d: Digest) {
    if s == a || s == b then Ones() else Noughts()
  }

  /** Ones for this message under this key, and for what HMAC makes of that; zeros for everything else. */
  function Knows(block: Bytes, msg: Bytes): (sha512: Bytes -> Digest)
    requires |block| == SHA_BLOCK
  {
    var a, b := Inner(block, msg), Outer(block, Ones());
    (s: Bytes) => Marked(a, b, s)
  }

  lemma PadsDiffer(block: Bytes, msg: Bytes, d: Digest)
    requires |block| == SHA_BLOCK
    ensures Inner(block, msg) != Outer(block, d)
  {
    var b := block[0];
    assert Inner(block, msg)[0] == b ^ 0x36 && Outer(block, d)[0] == b ^ 0x5c;
    assert b ^ 0x36 != b ^ 0x5c;
  }

  lemma KnowsItsMessage(key: Bytes, msg: Bytes)
    ensures Hmac(Knows(FittedKey(key), msg), key, msg) == Ones()
  {
  }

  lemma KnowsNoOther(key: Bytes, msg: Bytes, other: Bytes)
    requires other != msg
    ensures Hmac(Knows(FittedKey(key), msg), key, other) == Noughts()
  {
    var block := FittedKey(key);
    hide FittedKey, Xor, RepeatedByte;
    PadsDiffer(block, other, Ones());
    PadsDiffer(block, msg, Noughts());
    SameHead(Xor(block, RepeatedByte(0x36)), msg, other);
    SameHead(Xor(block, RepeatedByte(0x5c)), Ones(), Noughts());
    assert Ones()[0] != Noughts()[0];
  }

  lemma SameHead(head: Bytes, a: Bytes, b: Bytes)
    ensures a != b ==> head + a != head + b
  {
    assert (head + a)[|head|..] == a && (head + b)[|head|..] == b;
  }

  /** Under another key block the message is not known, unless it has the length of a digest. */
  lemma KnowsNoOtherKey(key: Bytes, key': Bytes, msg: Bytes)
    requires FittedKey(key) != FittedKey(key') && |msg| != 64
    ensures Hmac(Knows(FittedKey(key), msg), key', msg) == Noughts()
  {
    var block, block' := FittedKey(key), FittedKey(key');
    XorSame(block, block', RepeatedByte(0x36));
    assert Inner(block', msg)[..SHA_BLOCK] == Xor(block', RepeatedByte(0x36));
    assert Inner(block, msg)[..SHA_BLOCK] == Xor(block, RepeatedByte(0x36));
    assert Outer(block', Noughts())[SHA_BLOCK..] == Noughts() && Outer(block, Ones())[SHA_BLOCK..] == Ones();
    assert Ones()[0] != Noughts()[0];
  }

  lemma XorSame(a: Bytes, b: Bytes, c: Bytes)
    requires |a| == |b| == |c|
    ensures Xor(a, c) == Xor(b, c) ==> a == b
  {
    XorCancels(a, c);
    XorCancels(b, c);
  }

  /** Nothing is encrypted, and the hash knows one message under one key. */
  function Witness(key: Bytes, msg: Bytes): (k: Key) {
    Key((b: Block) => b, (b: Block) => b, Knows(FittedKey(key), msg), key)
  }

  // ---------------------------------------------------------------- What an auth record binds

  /**
   A text, sector id and random block that carry the tag of another text, sector id and random block are
   accepted under every key only if all three are the same.
   */
  lemma TagBinds(p: Bytes, i: Bytes, r: Block, q: Bytes, j: Bytes, s: Block)
    requires |i| == |j|
    ensures (forall k: Key | Inverse(k) ::
               var t := Open(k, Encode(k, p, i, r).cipher, Encode(k, p, i, r).auth).tag;
               Accepts(k, Seal(k, q, t, s).cipher, Seal(k, q, t, s).auth, j))
            <==> p == q && i == j && r == s
  {
    hide Seal, Open, Hmac, Inverse;
    forall k: Key | Inverse(k)
      ensures var t := Open(k, Encode(k, p, i, r).cipher, Encode(k, p, i, r).auth).tag;
              && t == Hmac(k.sha512, k.iv, p + i + r)[..BLOCK_SIZE]
              && (Accepts(k, Seal(k, q, t, s).cipher, Seal(k, q, t, s).auth, j) <==>
                  t == Hmac(k.sha512, k.iv, q + j + s)[..BLOCK_SIZE])
    {
      var t := Tag(k, p, i, r);
      OpenSealed(k, p, t, r);
      OpenSealed(k, q, t, s);
    }
    if p + i + r == q + j + s {
      ThreeParts(p, i, r, q, j, s);
    } else {
      var k := Witness([], p + i + r);
      WitnessInverts([], p + i + r);
      KnowsItsMessage([], p + i + r);
      KnowsNoOther([], p + i + r, q + j + s);
      assert Ones()[..BLOCK_SIZE][0] != Noughts()[..BLOCK_SIZE][0];
      assert Inverse(k);
    }
  }

  lemma WitnessInverts(key: Bytes, msg: Bytes)
    ensures Inverse(Witness(key, msg))
  {
  }

  lemma ThreeParts(p: Bytes, i: Bytes, r: Block, q: Bytes, j: Bytes, s: Block)
    requires |i| == |j| && p + i + r == q + j + s
    ensures p == q && i == j && r == s
  {
    var m := p + i + r;
    assert |p| == |q|;
    assert p == m[..|p|] == q;
    assert i == m[|p|..|p| + |i|] == j;
    assert r == m[|p| + |i|..] == s;
  }

  /** A sector is accepted at another place of the file, under every key, only if it is the same place. */
  lemma SectorIdBinds(i: Bytes, j: Bytes)
    requires |i| == |j|
    ensures (forall k: Key, p: Bytes, r: Block | Inverse(k) ::
               Accepts(k, Encode(k, p, i, r).cipher, Encode(k, p, i, r).auth, j)) <==> i == j
  {
    hide Encode, Accepts, Inverse;
    if i == j {
      forall k: Key, p: Bytes, r: Block | Inverse(k) ensures Accepts(k, Encode(k, p, i, r).cipher, Encode(k, p, i, r).auth, j) {
        SectorRoundTrip(k, p, i, r);
      }
    } else {
      var r: Block := Zeros(BLOCK_SIZE);
      var k := OtherPlaceRefused(i, j, r);
    }
  }

  lemma OtherPlaceRefused(i: Bytes, j: Bytes, r: Block) returns (k: Key)
    requires |i| == |j| && i != j
    ensures Inverse(k) && !Accepts(k, Encode(k, [], i, r).cipher, Encode(k, [], i, r).auth, j)
  {
    hide Seal, Open, Hmac, Inverse;
    k := Witness([], [] + i + r);
    WitnessInverts([], [] + i + r);
    OpenSealed(k, [], Tag(k, [], i, r), r);
    if [] + i + r == [] + j + r {
      ThreeParts([], i, r, [], j, r);
    }
    KnowsItsMessage([], [] + i + r);
    KnowsNoOther([], [] + i + r, [] + j + r);
    assert Ones()[..BLOCK_SIZE][0] != Noughts()[..BLOCK_SIZE][0];
  }

  /** A sector is accepted with another HMAC key, whatever the cipher and the hash, only if both make one key block. */
  lemma HmacKeyBinds(key: Bytes, key': Bytes)
    ensures (forall k: Key, p: Bytes, i: Bytes, r: Block | Inverse(k) && k.iv == key ::
               Accepts(k.(iv := key'), Encode(k, p, i, r).cipher, Encode(k, p, i, r).auth, i))
            <==> FittedKey(key) == FittedKey(key')
  {
    hide FittedKey, Inverse, Xor;
    if FittedKey(key) == FittedKey(key') {
      forall k: Key, p: Bytes, i: Bytes, r: Block | Inverse(k) && k.iv == key
        ensures Accepts(k.(iv := key'), Encode(k, p, i, r).cipher, Encode(k, p, i, r).auth, i)
      {
        OtherKeyDecides(k, key', p, i, r);
      }
    } else {
      var p, i, r: Block := Zeros(64), [], Zeros(BLOCK_SIZE);
      var k := Witness(key, p + i + r);
      WitnessInverts(key, p + i + r);
      OtherKeyDecides(k, key', p, i, r);
      KnowsItsMessage(key, p + i + r);
      KnowsNoOtherKey(key, key', p + i + r);
      assert Ones()[..BLOCK_SIZE][0] != Noughts()[..BLOCK_SIZE][0];
    }
  }

  lemma OtherKeyDecides(k: Key, key': Bytes, p: Bytes, i: Bytes, r: Block)
    requires Inverse(k)
    ensures Accepts(k.(iv := key'), Encode(k, p, i, r).cipher, Encode(k, p, i, r).auth, i) <==>
            Hmac(k.sha512, k.iv, p + i + r)[..BLOCK_SIZE] == Hmac(k.sha512, key', p + i + r)[..BLOCK_SIZE]
  {
    hide Seal, Open, Hmac;
    var s := Encode(k, p, i, r);
    OpenSealed(k, p, Tag(k, p, i, r), r);
    SameCipher(k, key', s.cipher, s.auth);
  }

  /** Opening does not depend on the HMAC key. */
  lemma SameCipher(k: Key, key': Bytes, cipher: Bytes, auth: Bytes)
    requires |auth| == 2 * BLOCK_SIZE
    ensures Open(k.(iv := key'), cipher, auth) == Open(k, cipher, auth)
  {
    hide Unsteal, Link, Xor;
    if |cipher| >= BLOCK_SIZE {
      var t := k.dec(auth[..BLOCK_SIZE])[8..] + k.dec(auth[BLOCK_SIZE..])[..8];
      SameUnchain(k, key', t, cipher[..Whole(|cipher|)]);
      SameUnsteal(k, key');
    }
  }

  lemma {:induction false} SameUnchain(k: Key, key': Bytes, iv: Block, c: Bytes)
    requires |c| % BLOCK_SIZE == 0
    ensures Unchain(k.(iv := key'), iv, c) == Unchain(k, iv, c)
    decreases |c|
  {
    hide Xor;
    if c != [] {
      SameUnchain(k, key', c[..BLOCK_SIZE], c[BLOCK_SIZE..]);
    }
  }

  lemma SameUnsteal(k: Key, key': Bytes)
    ensures forall prev: Block, c: Bytes | BLOCK_SIZE < |c| < 2 * BLOCK_SIZE :: Unsteal(k.(iv := key'), prev, c) == Unsteal(k, prev, c)
  {
    hide Xor;
  }

  // ---------------------------------------------------------------- What stands in an auth record

  /**
   The two blocks of the record, decrypted. The tag is the HMAC of RFC 2104 over text, sector id and
   random block, cut to a block, for every key that the standard does not hash first.
   */
  lemma RecordHolds(k: Key, p: Bytes, i: Bytes, r: Block)
    requires Inverse(k) && |k.iv| <= SHA_BLOCK
    ensures var auth := Encode(k, p, i, r).auth;
            var mac := StandardHmac(k.sha512, k.iv, p + i + r);
            if |p| < 16 then k.dec(auth[..16]) == Xor(r[..|p|], p) + r[|p|..] && k.dec(auth[16..]) == mac[..16]
            else k.dec(auth[..16]) == r[..8] + mac[..8] && k.dec(auth[16..]) == mac[8..16] + r[8..]
  {
    hide EncodeBody, Xor;
    KeyBlocksAgreeIff(k.sha512, k.iv);
    var s := Encode(k, p, i, r);
    var t := Tag(k, p, i, r);
    if |p| < BLOCK_SIZE {
      assert s.auth[..BLOCK_SIZE] == k.enc(XorPrefix(r, p)) && s.auth[BLOCK_SIZE..] == k.enc(t);
    } else {
      var a: Block, b: Block := r[..8] + t[..8], t[8..] + r[8..];
      assert s.auth[..BLOCK_SIZE] == k.enc(a) && s.auth[BLOCK_SIZE..] == k.enc(b);
    }
  }
}
