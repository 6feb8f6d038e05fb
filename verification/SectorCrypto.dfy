/**
 Sector encryption of pcrypto.c: CBC under an HMAC-derived initial vector, an
 authentication record that hides a random block, ciphertext stealing for ragged
 lengths and a separate form for sectors shorter than one block.

 AES is any pair of mutually inverse maps on blocks, SHA-512 any map to 64 bytes.
 */
module SectorCrypto {
  import opened Bytes

  type Digest = d: Bytes | |d| == 64 witness seq(64, _ => 0)

  datatype Key = Key(enc: Block -> Block, dec: Block -> Block, sha512: Bytes -> Digest, iv: Bytes)

  ghost predicate Inverse(k: Key) {
    && (forall b: Block :: k.dec(k.enc(b)) == b)
    && (forall b: Block :: k.enc(k.dec(b)) == b)
  }

  datatype Sealed = Sealed(cipher: Bytes, auth: Bytes)

  /** What a decoder recovers: the text, the random block, and the stored tag. */
  datatype Opened = Opened(plain: Bytes, rnd: Block, tag: Block)

  // ---------------------------------------------------------------- HMAC

  const SHA_BLOCK: nat := 128

  function RepeatedByte(b: Byte): (r: Bytes) ensures |r| == SHA_BLOCK { seq(SHA_BLOCK, _ => b) }

  /** A key cut to one hash block, then filled with zeros. */
  function FittedKey(key: Bytes): (r: Bytes)
    ensures |r| == SHA_BLOCK
  {
    if |key| > SHA_BLOCK then key[..SHA_BLOCK] else key + Zeros(SHA_BLOCK - |key|)
  }

  function Hmac(sha512: Bytes -> Digest, key: Bytes, msg: Bytes): (r: Digest) {
    var k := FittedKey(key);
    sha512(Xor(k, RepeatedByte(0x5c)) + sha512(Xor(k, RepeatedByte(0x36)) + msg))
  }

  /** The key block of section 2 of RFC 2104: a key longer than a hash block is hashed first. */
  function HashedKey(sha512: Bytes -> Digest, key: Bytes): (r: Bytes)
    ensures |r| == SHA_BLOCK
  {
    if |key| > SHA_BLOCK then sha512(key) + Zeros(SHA_BLOCK - 64) else key + Zeros(SHA_BLOCK - |key|)
  }

  function StandardHmac(sha512: Bytes -> Digest, key: Bytes, msg: Bytes): (r: Digest) {
    var k := HashedKey(sha512, key);
    sha512(Xor(k, RepeatedByte(0x5c)) + sha512(Xor(k, RepeatedByte(0x36)) + msg))
  }

  /** The two key blocks agree for keys of one hash block, and for a longer one that begins with its own hash. */
  lemma KeyBlocksAgreeIff(sha512: Bytes -> Digest, key: Bytes)
    ensures FittedKey(key) == HashedKey(sha512, key) <==>
            |key| <= SHA_BLOCK || key[..SHA_BLOCK] == sha512(key) + Zeros(SHA_BLOCK - 64)
  {
  }

  /** A hash that tells one key from everything else. */
  function Spoiled(key: Bytes): (sha512: Bytes -> Digest)
    requires |key| >= 64
  {
    (s: Bytes) => SpoiledDigest(key, s)
  }

  function SpoiledDigest(key: Bytes, s: Bytes): (d: Digest)
    requires |key| >= 64
  {
    if |s| < 64 then Zeros(64)
    else if s == key then Xor(key[..64], seq(64, _ => 1))
    else s[..64]
  }

  lemma SpoiledDigestDiffers(key: Bytes)
    requires |key| > SHA_BLOCK
    ensures Hmac(Spoiled(key), key, []) != StandardHmac(Spoiled(key), key, [])
  {
    var f, h := FittedKey(key), HashedKey(Spoiled(key), key);
    var outer, outer' := Xor(f, RepeatedByte(0x5c)), Xor(h, RepeatedByte(0x5c));
    assert f[0] == key[0] && h[0] == key[0] ^ 1;
    FirstBytes(key[0]);
    assert outer[0] == key[0] ^ 0x5c && outer'[0] == key[0] ^ 1 ^ 0x5c;
    assert Hmac(Spoiled(key), key, [])[0] == outer[0];
    assert StandardHmac(Spoiled(key), key, [])[0] == outer'[0];
  }

  lemma FirstBytes(b: Byte)
    ensures b ^ 0x5c != b && b ^ 1 ^ 0x5c != b && b ^ 1 ^ 0x5c != b ^ 0x5c
  {
  }

  /** The code computes the HMAC of the standard, whatever the hash, exactly for keys of at most one hash block. */
  lemma HmacIsStandardIff(key: Bytes)
    ensures (forall sha512: Bytes -> Digest, msg: Bytes :: Hmac(sha512, key, msg) == StandardHmac(sha512, key, msg))
            <==> |key| <= SHA_BLOCK
  {
    if |key| > SHA_BLOCK {
      SpoiledDigestDiffers(key);
    }
  }

  /** The incremental form: `inner` is what the running hash has absorbed. */
  class HmacContext {
    var inner: Bytes
    var outer: Bytes

    ghost predicate Absorbed(key: Bytes, msg: Bytes)
      reads this
    {
      && inner == Xor(FittedKey(key), RepeatedByte(0x36)) + msg
      && outer == Xor(FittedKey(key), RepeatedByte(0x5c))
    }

    constructor (key: Bytes)
      ensures Absorbed(key, [])
    {
      var keylen := if |key| > SHA_BLOCK then SHA_BLOCK else |key|;
      var keyxor, final: Bytes := [], [];
      var i := 0;
      while i < keylen
        invariant 0 <= i <= keylen
        invariant |keyxor| == |final| == i
        invariant forall j :: 0 <= j < i ==> keyxor[j] == key[j] ^ 0x36 && final[j] == key[j] ^ 0x5c
      {
        keyxor, final := keyxor + [key[i] ^ 0x36], final + [key[i] ^ 0x5c];
        i := i + 1;
      }
      while i < SHA_BLOCK
        invariant keylen <= i <= SHA_BLOCK
        invariant |keyxor| == |final| == i
        invariant forall j :: 0 <= j < keylen ==> keyxor[j] == key[j] ^ 0x36 && final[j] == key[j] ^ 0x5c
        invariant forall j :: keylen <= j < i ==> keyxor[j] == 0x36 && final[j] == 0x5c
      {
        keyxor, final := keyxor + [0x36], final + [0x5c];
        i := i + 1;
      }
      assert keyxor == Xor(FittedKey(key), RepeatedByte(0x36));
      assert final == Xor(FittedKey(key), RepeatedByte(0x5c));
      assert keyxor + [] == keyxor;
      inner := keyxor;
      outer := final;
    }

    method Update(ghost key: Bytes, ghost msg: Bytes, data: Bytes)
      requires Absorbed(key, msg)
      modifies this
      ensures Absorbed(key, msg + data)
    {
      inner := inner + data;
      assert inner == Xor(FittedKey(key), RepeatedByte(0x36)) + (msg + data);
    }

    method Final(sha512: Bytes -> Digest, ghost key: Bytes, ghost msg: Bytes) returns (r: Digest)
      requires Absorbed(key, msg)
      ensures r == Hmac(sha512, key, msg)
    {
      r := sha512(outer + sha512(inner));
    }
  }

  // ---------------------------------------------------------------- Specification

  /** Cipher block chaining, NIST SP 800-38A section 6.2. */
  function Chain(k: Key, iv: Block, p: Bytes): (c: Bytes)
    requires |p| % BLOCK_SIZE == 0
    ensures |c| == |p|
    decreases |p|
  {
    if p == [] then [] else
      var c0 := k.enc(Xor(iv, p[..BLOCK_SIZE]));
      c0 + Chain(k, c0, p[BLOCK_SIZE..])
  }

  function Unchain(k: Key, iv: Block, c: Bytes): (p: Bytes)
    requires |c| % BLOCK_SIZE == 0
    ensures |p| == |c|
    decreases |c|
  {
    if c == [] then [] else
      Xor(k.dec(c[..BLOCK_SIZE]), iv) + Unchain(k, c[..BLOCK_SIZE], c[BLOCK_SIZE..])
  }

  /** The block the next one is chained to. */
  function Link(iv: Block, c: Bytes): (b: Block)
    requires |c| % BLOCK_SIZE == 0
  {
    if c == [] then iv else c[|c| - BLOCK_SIZE..]
  }

  /** How many leading bytes of a sector are chained as whole blocks. */
  function Whole(len: nat): (n: nat)
    requires len >= BLOCK_SIZE
    ensures n % BLOCK_SIZE == 0
    ensures if len % BLOCK_SIZE == 0 then n == len else n + BLOCK_SIZE < len < n + 2 * BLOCK_SIZE
  {
    if len % BLOCK_SIZE == 0 then len else len - len % BLOCK_SIZE - BLOCK_SIZE
  }

  /** The last full block and the ragged rest, with ciphertext stealing. */
  function Steal(k: Key, prev: Block, full: Block, rest: Bytes): (c: Bytes)
    requires 0 < |rest| < BLOCK_SIZE
    ensures |c| == BLOCK_SIZE + |rest|
  {
    var e := k.enc(Xor(prev, full));
    k.enc(XorPrefix(e, rest)) + e[..|rest|]
  }

  function Unsteal(k: Key, prev: Block, c: Bytes): (p: Bytes)
    requires BLOCK_SIZE < |c| < 2 * BLOCK_SIZE
    ensures |p| == |c|
  {
    var d := k.dec(c[..BLOCK_SIZE]);
    var stolen := c[BLOCK_SIZE..];
    var e := stolen + d[|stolen|..];
    Xor(k.dec(e), prev) + Xor(d[..|stolen|], stolen)
  }

  function EncodeBody(k: Key, iv: Block, p: Bytes): (c: Bytes)
    requires |p| >= BLOCK_SIZE
    ensures |c| == |p|
  {
    var n := Whole(|p|);
    var c := Chain(k, iv, p[..n]);
    if n == |p| then c else c + Steal(k, Link(iv, c), p[n..n + BLOCK_SIZE], p[n + BLOCK_SIZE..])
  }

  function DecodeBody(k: Key, iv: Block, c: Bytes): (p: Bytes)
    requires |c| >= BLOCK_SIZE
    ensures |p| == |c|
  {
    var n := Whole(|c|);
    var p := Unchain(k, iv, c[..n]);
    if n == |c| then p else p + Unsteal(k, Link(iv, c[..n]), c[n..])
  }

  /** The tag a sector carries: the first block of an HMAC over text, sector id and random block. */
  function Tag(k: Key, plain: Bytes, sectorid: Bytes, rnd: Block): (t: Block) {
    Hmac(k.sha512, k.iv, plain + sectorid + rnd)[..BLOCK_SIZE]
  }

  /** A text sealed with a random block under some tag. */
  function Seal(k: Key, plain: Bytes, t: Block, rnd: Block): (s: Sealed)
    ensures |s.cipher| == |plain| && |s.auth| == 2 * BLOCK_SIZE
  {
    if |plain| < BLOCK_SIZE then
      Sealed(rnd[..|plain|], k.enc(XorPrefix(rnd, plain)) + k.enc(t))
    else
      Sealed(EncodeBody(k, t, plain), k.enc(rnd[..8] + t[..8]) + k.enc(t[8..] + rnd[8..]))
  }

  function Encode(k: Key, plain: Bytes, sectorid: Bytes, rnd: Block): (s: Sealed)
    ensures |s.cipher| == |plain| && |s.auth| == 2 * BLOCK_SIZE
  {
    Seal(k, plain, Tag(k, plain, sectorid, rnd), rnd)
  }

  function Open(k: Key, cipher: Bytes, auth: Bytes): (o: Opened)
    requires |auth| == 2 * BLOCK_SIZE
    ensures |o.plain| == |cipher|
  {
    var a, b := k.dec(auth[..BLOCK_SIZE]), k.dec(auth[BLOCK_SIZE..]);
    if |cipher| < BLOCK_SIZE then
      Opened(Xor(a[..|cipher|], cipher), cipher + a[|cipher|..], b)
    else
      var t := a[8..] + b[..8];
      Opened(DecodeBody(k, t, cipher), a[..8] + b[8..], t)
  }

  predicate Accepts(k: Key, cipher: Bytes, auth: Bytes, sectorid: Bytes)
    requires |auth| == 2 * BLOCK_SIZE
  {
    var o := Open(k, cipher, auth);
    o.tag == Tag(k, o.plain, sectorid, o.rnd)
  }

  // ---------------------------------------------------------------- Round trips

  lemma {:induction false} UnchainInvertsChain(k: Key, iv: Block, p: Bytes)
    requires Inverse(k) && |p| % BLOCK_SIZE == 0
    ensures Unchain(k, iv, Chain(k, iv, p)) == p
    decreases |p|
  {
    if p != [] {
      var p0 := p[..BLOCK_SIZE];
      var c0 := k.enc(Xor(iv, p0));
      XorCancels(p0, iv);
      UnchainInvertsChain(k, c0, p[BLOCK_SIZE..]);
      var c := Chain(k, iv, p);
      assert c[..BLOCK_SIZE] == c0 && c[BLOCK_SIZE..] == Chain(k, c0, p[BLOCK_SIZE..]);
      assert p0 + p[BLOCK_SIZE..] == p;
    }
  }

  lemma {:induction false} ChainInvertsUnchain(k: Key, iv: Block, c: Bytes)
    requires Inverse(k) && |c| % BLOCK_SIZE == 0
    ensures Chain(k, iv, Unchain(k, iv, c)) == c
    decreases |c|
  {
    if c != [] {
      var c0: Block := c[..BLOCK_SIZE];
      var p0 := Xor(k.dec(c0), iv);
      XorCancels(k.dec(c0), iv);
      XorCancels(p0, iv);
      ChainInvertsUnchain(k, c0, c[BLOCK_SIZE..]);
      var p := Unchain(k, iv, c);
      assert p[..BLOCK_SIZE] == p0 && p[BLOCK_SIZE..] == Unchain(k, c0, c[BLOCK_SIZE..]);
      assert c0 + c[BLOCK_SIZE..] == c;
    }
  }

  lemma UnstealInvertsSteal(k: Key, prev: Block, full: Block, rest: Bytes)
    requires Inverse(k) && 0 < |rest| < BLOCK_SIZE
    ensures Unsteal(k, prev, Steal(k, prev, full, rest)) == full + rest
  {
    var e := k.enc(Xor(prev, full));
    var c := Steal(k, prev, full, rest);
    var m := XorPrefix(e, rest);
    var n := |rest|;
    assert c[..BLOCK_SIZE] == k.enc(m) && c[BLOCK_SIZE..] == e[..n];
    assert m[..n] == Xor(e[..n], rest) && m[n..] == e[n..];
    assert e[..n] + e[n..] == e;
    XorCancels(e[..n], rest);
    XorCancels(rest, e[..n]);
    XorCancels(full, prev);
  }

  lemma StealInvertsUnsteal(k: Key, prev: Block, c: Bytes)
    requires Inverse(k) && BLOCK_SIZE < |c| < 2 * BLOCK_SIZE
    ensures var p := Unsteal(k, prev, c); Steal(k, prev, p[..BLOCK_SIZE], p[BLOCK_SIZE..]) == c
  {
    var d := k.dec(c[..BLOCK_SIZE]);
    var stolen := c[BLOCK_SIZE..];
    var n := |stolen|;
    var e: Block := stolen + d[n..];
    var p := Unsteal(k, prev, c);
    assert p[..BLOCK_SIZE] == Xor(k.dec(e), prev) && p[BLOCK_SIZE..] == Xor(d[..n], stolen);
    XorCancels(k.dec(e), prev);
    XorCancels(p[..BLOCK_SIZE], prev);
    XorCancels(d[..n], stolen);
    assert e[..n] == stolen && e[n..] == d[n..];
    assert XorPrefix(e, p[BLOCK_SIZE..]) == d[..n] + d[n..] == d;
    assert c[..BLOCK_SIZE] + stolen == c;
  }

  lemma BodyRoundTrip(k: Key, iv: Block, p: Bytes)
    requires Inverse(k) && |p| >= BLOCK_SIZE
    ensures DecodeBody(k, iv, EncodeBody(k, iv, p)) == p
  {
    hide Chain, Unchain, Steal, Unsteal, Link;
    var n := Whole(|p|);
    var c := Chain(k, iv, p[..n]);
    UnchainInvertsChain(k, iv, p[..n]);
    if n == |p| {
      assert p[..n] == p && c[..n] == c;
    } else {
      var full: Block, rest := p[n..n + BLOCK_SIZE], p[n + BLOCK_SIZE..];
      var all := EncodeBody(k, iv, p);
      var stolen := Steal(k, Link(iv, c), full, rest);
      assert all == c + stolen;
      assert all[..n] == c && all[n..] == stolen;
      UnstealInvertsSteal(k, Link(iv, c), full, rest);
      assert p[..n] + (full + rest) == p;
    }
  }

  lemma BodyRoundTripBack(k: Key, iv: Block, c: Bytes)
    requires Inverse(k) && |c| >= BLOCK_SIZE
    ensures EncodeBody(k, iv, DecodeBody(k, iv, c)) == c
  {
    hide Chain, Unchain, Steal, Unsteal, Link;
    var n := Whole(|c|);
    var p := Unchain(k, iv, c[..n]);
    ChainInvertsUnchain(k, iv, c[..n]);
    var all := DecodeBody(k, iv, c);
    if n == |c| {
      assert c[..n] == c && all[..n] == all;
    } else {
      var tail := Unsteal(k, Link(iv, c[..n]), c[n..]);
      assert all[..n] == p && all[n..n + BLOCK_SIZE] == tail[..BLOCK_SIZE] && all[n + BLOCK_SIZE..] == tail[BLOCK_SIZE..];
      StealInvertsUnsteal(k, Link(iv, c[..n]), c[n..]);
      assert c[..n] + c[n..] == c;
    }
  }

  /** Opening what was sealed gives back text, random block and tag, whatever the tag. */
  lemma OpenSealed(k: Key, plain: Bytes, t: Block, rnd: Block)
    requires Inverse(k)
    ensures var s := Seal(k, plain, t, rnd); Open(k, s.cipher, s.auth) == Opened(plain, rnd, t)
  {
    var s := Seal(k, plain, t, rnd);
    var n := |plain|;
    if n < BLOCK_SIZE {
      var m: Block := XorPrefix(rnd, plain);
      assert s.auth[..BLOCK_SIZE] == k.enc(m) && s.auth[BLOCK_SIZE..] == k.enc(t);
      assert m[..n] == Xor(rnd[..n], plain) && m[n..] == rnd[n..];
      XorCancels(plain, rnd[..n]);
      assert rnd[..n] + rnd[n..] == rnd;
    } else {
      var a: Block, b: Block := rnd[..8] + t[..8], t[8..] + rnd[8..];
      assert s.auth[..BLOCK_SIZE] == k.enc(a) && s.auth[BLOCK_SIZE..] == k.enc(b);
      assert a[8..] + b[..8] == t;
      assert a[..8] + b[8..] == rnd;
      BodyRoundTrip(k, t, plain);
    }
  }

  /** Decoding an encoded sector is accepted and gives back text, random block and tag. */
  lemma SectorRoundTrip(k: Key, plain: Bytes, sectorid: Bytes, rnd: Block)
    requires Inverse(k)
    ensures var s := Encode(k, plain, sectorid, rnd);
            && Accepts(k, s.cipher, s.auth, sectorid)
            && Open(k, s.cipher, s.auth).plain == plain
            && Open(k, s.cipher, s.auth).rnd == rnd
  {
    hide Seal, Open, Tag;
    OpenSealed(k, plain, Tag(k, plain, sectorid, rnd), rnd);
  }

  /** An accepted sector is what encoding the recovered text with the recovered random block gives. */
  lemma AcceptedIsEncoded(k: Key, cipher: Bytes, auth: Bytes, sectorid: Bytes)
    requires Inverse(k) && |auth| == 2 * BLOCK_SIZE
    requires Accepts(k, cipher, auth, sectorid)
    ensures var o := Open(k, cipher, auth);
            Encode(k, o.plain, sectorid, o.rnd) == Sealed(cipher, auth)
  {
    var o := Open(k, cipher, auth);
    var a, b := k.dec(auth[..BLOCK_SIZE]), k.dec(auth[BLOCK_SIZE..]);
    var n := |cipher|;
    assert auth[..BLOCK_SIZE] + auth[BLOCK_SIZE..] == auth;
    if n < BLOCK_SIZE {
      assert o.rnd[..n] == cipher && o.rnd[n..] == a[n..];
      XorCancels(a[..n], cipher);
      XorCancels(o.plain, cipher);
      assert XorPrefix(o.rnd, o.plain) == a[..n] + a[n..] == a;
    } else {
      assert o.rnd[..8] + o.tag[..8] == a;
      assert o.tag[8..] + o.rnd[8..] == b;
      BodyRoundTripBack(k, o.tag, cipher);
    }
  }

  /** The decoder accepts exactly the encoder's image. */
  lemma AcceptedIffEncoded(k: Key, cipher: Bytes, auth: Bytes, sectorid: Bytes)
    requires Inverse(k) && |auth| == 2 * BLOCK_SIZE
    ensures Accepts(k, cipher, auth, sectorid) <==>
            exists plain, rnd: Block :: Encode(k, plain, sectorid, rnd) == Sealed(cipher, auth)
  {
    if Accepts(k, cipher, auth, sectorid) {
      AcceptedIsEncoded(k, cipher, auth, sectorid);
    }
    forall plain, rnd: Block | Encode(k, plain, sectorid, rnd) == Sealed(cipher, auth)
      ensures Accepts(k, cipher, auth, sectorid)
    {
      SectorRoundTrip(k, plain, sectorid, rnd);
    }
  }
}
