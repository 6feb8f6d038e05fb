/** The sector encoder and decoder as loops over caller buffers; both buffers may be the same one. */
module SectorCoder {
  import opened Bytes
  import opened SectorCrypto

  // ---------------------------------------------------------------- Chaining one more block

  lemma ChainOne(k: Key, iv: Block, b: Block)
    ensures Chain(k, iv, b) == k.enc(Xor(iv, b)) && Unchain(k, iv, b) == Xor(k.dec(b), iv)
  {
    assert b[..BLOCK_SIZE] == b && b[BLOCK_SIZE..] == [];
    ChainNothing(k, k.enc(Xor(iv, b)));
    ChainNothing(k, b);
  }

  lemma ChainCons(k: Key, iv: Block, b: Block, p: Bytes)
    requires |p| % BLOCK_SIZE == 0
    ensures |b + p| % BLOCK_SIZE == 0
    ensures Chain(k, iv, b + p) == k.enc(Xor(iv, b)) + Chain(k, k.enc(Xor(iv, b)), p)
    ensures Unchain(k, iv, b + p) == Xor(k.dec(b), iv) + Unchain(k, b, p)
  {
    hide Xor;
    assert (b + p)[..BLOCK_SIZE] == b && (b + p)[BLOCK_SIZE..] == p;
  }

  lemma LinkCons(iv: Block, b: Block, c: Bytes)
    requires |c| % BLOCK_SIZE == 0
    ensures Link(iv, b + c) == Link(b, c)
  {
    if c == [] {
      assert b + c == b && b[0..] == b;
    } else {
      assert (b + c)[|b + c| - BLOCK_SIZE..] == c[|c| - BLOCK_SIZE..];
    }
  }

  lemma LinkEnd(iv: Block, c: Bytes, b: Block)
    requires |c| % BLOCK_SIZE == 0
    ensures Link(iv, c + b) == b
  {
    assert (c + b)[|c|..] == b;
  }

  lemma {:induction false} ChainSnoc(k: Key, iv: Block, p: Bytes, b: Block)
    requires |p| % BLOCK_SIZE == 0
    ensures |p + b| % BLOCK_SIZE == 0
    ensures Chain(k, iv, p + b) == Chain(k, iv, p) + k.enc(Xor(Link(iv, Chain(k, iv, p)), b))
    decreases |p|
  {
    hide Chain, Link, Xor;
    if p == [] {
      assert p + b == b;
      ChainOne(k, iv, b);
      ChainNothing(k, iv);
    } else {
      var p0: Block, rest := p[..BLOCK_SIZE], p[BLOCK_SIZE..];
      var c0 := k.enc(Xor(iv, p0));
      assert p == p0 + rest && p + b == p0 + (rest + b);
      ChainCons(k, iv, p0, rest);
      ChainCons(k, iv, p0, rest + b);
      ChainSnoc(k, c0, rest, b);
      LinkCons(iv, c0, Chain(k, c0, rest));
    }
  }

  lemma {:induction false} UnchainSnoc(k: Key, iv: Block, c: Bytes, b: Block)
    requires |c| % BLOCK_SIZE == 0
    ensures |c + b| % BLOCK_SIZE == 0
    ensures Unchain(k, iv, c + b) == Unchain(k, iv, c) + Xor(k.dec(b), Link(iv, c))
    ensures Link(iv, c + b) == b
    decreases |c|
  {
    hide Unchain, Link, Xor;
    LinkEnd(iv, c, b);
    if c == [] {
      assert c + b == b;
      ChainOne(k, iv, b);
      ChainNothing(k, iv);
    } else {
      var c0: Block, rest := c[..BLOCK_SIZE], c[BLOCK_SIZE..];
      assert c == c0 + rest && c + b == c0 + (rest + b);
      ChainCons(k, iv, c0, rest);
      ChainCons(k, iv, c0, rest + b);
      UnchainSnoc(k, c0, rest, b);
      LinkCons(iv, c0, rest);
    }
  }

  lemma ChainStep(k: Key, iv: Block, p: Bytes, pos: nat)
    requires pos % BLOCK_SIZE == 0 && pos + BLOCK_SIZE <= |p|
    ensures Chain(k, iv, p[..pos + BLOCK_SIZE])
         == Chain(k, iv, p[..pos]) + k.enc(Xor(Link(iv, Chain(k, iv, p[..pos])), p[pos..pos + BLOCK_SIZE]))
    ensures Link(iv, Chain(k, iv, p[..pos + BLOCK_SIZE]))
         == k.enc(Xor(Link(iv, Chain(k, iv, p[..pos])), p[pos..pos + BLOCK_SIZE]))
  {
    hide Chain, Link, Xor;
    ChainSnoc(k, iv, p[..pos], p[pos..pos + BLOCK_SIZE]);
    assert p[..pos] + p[pos..pos + BLOCK_SIZE] == p[..pos + BLOCK_SIZE];
    LinkEnd(iv, Chain(k, iv, p[..pos]), k.enc(Xor(Link(iv, Chain(k, iv, p[..pos])), p[pos..pos + BLOCK_SIZE])));
  }

  lemma UnchainStep(k: Key, iv: Block, c: Bytes, pos: nat)
    requires pos % BLOCK_SIZE == 0 && pos + BLOCK_SIZE <= |c|
    ensures Unchain(k, iv, c[..pos + BLOCK_SIZE])
         == Unchain(k, iv, c[..pos]) + Xor(k.dec(c[pos..pos + BLOCK_SIZE]), Link(iv, c[..pos]))
    ensures Link(iv, c[..pos + BLOCK_SIZE]) == c[pos..pos + BLOCK_SIZE]
  {
    hide Unchain, Link, Xor;
    UnchainSnoc(k, iv, c[..pos], c[pos..pos + BLOCK_SIZE]);
    assert c[..pos] + c[pos..pos + BLOCK_SIZE] == c[..pos + BLOCK_SIZE];
  }

  /** The decoder's four-block primitive: decrypt each block, then xor with the four links. */
  function Decode4(k: Key, src: Bytes, bxor: Bytes): (r: Bytes)
    requires |src| == |bxor| == 4 * BLOCK_SIZE
    ensures |r| == 4 * BLOCK_SIZE
  {
    Xor(k.dec(src[..16]) + k.dec(src[16..32]) + k.dec(src[32..48]) + k.dec(src[48..]), bxor)
  }

  lemma XorFour(a: Block, b: Block, c: Block, d: Block, w: Block, x: Block, y: Block, z: Block)
    ensures Xor(a + b + c + d, w + x + y + z) == Xor(a, w) + Xor(b, x) + Xor(c, y) + Xor(d, z)
  {
  }

  /** The four-block step is four one-block steps. */
  lemma UnchainFourSteps(k: Key, iv: Block, c: Bytes, pos: nat)
    requires pos % BLOCK_SIZE == 0 && pos + 64 <= |c|
    ensures Unchain(k, iv, c[..pos + 64])
         == Unchain(k, iv, c[..pos]) + Decode4(k, c[pos..pos + 64], Link(iv, c[..pos]) + c[pos..pos + 48])
    ensures Link(iv, c[..pos + 64]) == c[pos + 48..pos + 64]
  {
    hide Unchain, Link, Decode4, Xor;
    var l := Link(iv, c[..pos]);
    var b0: Block, b1: Block := c[pos..pos + 16], c[pos + 16..pos + 32];
    var b2: Block, b3: Block := c[pos + 32..pos + 48], c[pos + 48..pos + 64];
    assert c[pos..pos + 64] == b0 + b1 + b2 + b3;
    FourBlocks(k, c[pos..pos + 64], l, b0, b1, b2, b3);
    assert l + c[pos..pos + 48] == l + b0 + b1 + b2;
    UnchainStep(k, iv, c, pos);
    UnchainStep(k, iv, c, pos + 16);
    UnchainStep(k, iv, c, pos + 32);
    UnchainStep(k, iv, c, pos + 48);
    FiveParts(Unchain(k, iv, c[..pos]), Xor(k.dec(b0), l), Xor(k.dec(b1), b0), Xor(k.dec(b2), b1), Xor(k.dec(b3), b2));
  }

  lemma FiveParts(a: Bytes, b: Bytes, c: Bytes, d: Bytes, e: Bytes)
    ensures a + b + c + d + e == a + (b + c + d + e)
  {
  }

  lemma FourBlocks(k: Key, src: Bytes, l: Block, b0: Block, b1: Block, b2: Block, b3: Block)
    requires src == b0 + b1 + b2 + b3
    ensures Decode4(k, src, l + b0 + b1 + b2)
         == Xor(k.dec(b0), l) + Xor(k.dec(b1), b0) + Xor(k.dec(b2), b1) + Xor(k.dec(b3), b2)
  {
    assert src[..16] == b0 && src[16..32] == b1 && src[32..48] == b2 && src[48..] == b3;
    XorFour(k.dec(b0), k.dec(b1), k.dec(b2), k.dec(b3), l, b0, b1, b2);
  }

  // ---------------------------------------------------------------- Encoding

  /** What stealing writes when the output overlaps the text: the tail is xored with itself. */
  function StealOverlapping(k: Key, prev: Block, full: Block, steal: nat): (c: Bytes)
    requires 0 < steal < BLOCK_SIZE
    ensures |c| == BLOCK_SIZE + steal
  {
    var e := k.enc(Xor(prev, full));
    k.enc(Zeros(steal) + e[steal..]) + e[..steal]
  }

  function EncodeBodyOverlapping(k: Key, iv: Block, p: Bytes): (c: Bytes)
    requires |p| >= BLOCK_SIZE
    ensures |c| == |p|
  {
    var n := Whole(|p|);
    var c := Chain(k, iv, p[..n]);
    if n == |p| then c else c + StealOverlapping(k, Link(iv, c), p[n..n + BLOCK_SIZE], |p| - n - BLOCK_SIZE)
  }

  /** The cipher text left in a buffer that is encoded onto itself. */
  function EncodeOverlapping(k: Key, plain: Bytes, sectorid: Bytes, rnd: Block): (c: Bytes)
    ensures |c| == |plain|
  {
    if |plain| < BLOCK_SIZE then rnd[..|plain|]
    else EncodeBodyOverlapping(k, Tag(k, plain, sectorid, rnd), plain)
  }

  /** Stealing onto the text itself is right only if the rest repeats the stolen bytes. */
  lemma OverlappingStealIsRightIff(k: Key, prev: Block, full: Block, rest: Bytes)
    requires Inverse(k) && 0 < |rest| < BLOCK_SIZE
    ensures StealOverlapping(k, prev, full, |rest|) == Steal(k, prev, full, rest) <==>
            rest == k.enc(Xor(prev, full))[..|rest|]
  {
    var e := k.enc(Xor(prev, full));
    var s := |rest|;
    var good: Block, bad: Block := XorPrefix(e, rest), Zeros(s) + e[s..];
    assert forall i | 0 <= i < s :: good[i] == e[i] ^ rest[i] && bad[i] == 0;
    if StealOverlapping(k, prev, full, s) == Steal(k, prev, full, rest) {
      assert k.enc(good) == Steal(k, prev, full, rest)[..BLOCK_SIZE] == k.enc(bad);
      assert k.dec(k.enc(good)) == k.dec(k.enc(bad));
      assert forall i | 0 <= i < s :: rest[i] == e[i];
    }
    if rest == e[..s] {
      assert good == bad;
    }
  }

  /** Encoding a sector onto itself is right for short and whole sectors; a ragged one is right
      only if its tail happens to repeat the stolen bytes. */
  lemma OverlappingEncodeIsRightIff(k: Key, plain: Bytes, sectorid: Bytes, rnd: Block)
    requires Inverse(k)
    ensures var t := Tag(k, plain, sectorid, rnd);
            EncodeOverlapping(k, plain, sectorid, rnd) == Encode(k, plain, sectorid, rnd).cipher <==>
            (|plain| >= BLOCK_SIZE && |plain| % BLOCK_SIZE != 0 ==>
              var n := Whole(|plain|);
              var prev := Link(t, Chain(k, t, plain[..n]));
              plain[n + BLOCK_SIZE..] == k.enc(Xor(prev, plain[n..n + BLOCK_SIZE]))[..|plain| % BLOCK_SIZE])
  {
    hide Chain, Link, Steal, StealOverlapping, Tag, Xor;
    if |plain| >= BLOCK_SIZE && |plain| % BLOCK_SIZE != 0 {
      var t := Tag(k, plain, sectorid, rnd);
      var n := Whole(|plain|);
      var c := Chain(k, t, plain[..n]);
      var full, rest := plain[n..n + BLOCK_SIZE], plain[n + BLOCK_SIZE..];
      OverlappingStealIsRightIff(k, Link(t, c), full, rest);
      var x, y := StealOverlapping(k, Link(t, c), full, |rest|), Steal(k, Link(t, c), full, rest);
      assert (c + x)[n..] == x && (c + y)[n..] == y;
    }
  }

  /** Chains the leading whole blocks; `aessrc` is the block the next one links to. */
  method EncodeBlocks(k: Key, data: array<Byte>, out: array<Byte>, iv: Block, n: nat)
    returns (aessrc: Block)
    requires n % BLOCK_SIZE == 0 && n <= data.Length == out.Length
    modifies out
    ensures out[..n] == Chain(k, iv, old(data[..])[..n])
    ensures aessrc == Link(iv, out[..n])
    ensures data[n..] == old(data[..])[n..]
  {
    hide Chain, Link, Xor;
    ghost var D := data[..];
    ChainNothing(k, iv);
    assert D[..0] == out[..0] == [];
    aessrc := iv;
    var pos := 0;
    while pos < n
      invariant 0 <= pos <= n && pos % BLOCK_SIZE == 0
      invariant data[pos..] == D[pos..]
      invariant out[..pos] == Chain(k, iv, D[..pos])
      invariant aessrc == Link(iv, Chain(k, iv, D[..pos]))
    {
      var block := Fetch(data, D, pos, BLOCK_SIZE);
      var aesdst := k.enc(Xor(aessrc, block));
      ChainStep(k, iv, D, pos);
      Emit(data, out, D, pos, aesdst);
      pos := pos + BLOCK_SIZE;
      aessrc := aesdst;
    }
  }

  lemma ChainNothing(k: Key, iv: Block)
    ensures Chain(k, iv, []) == Unchain(k, iv, []) == [] && Link(iv, []) == iv
  {
  }

  /** The ragged end. The rest of the text is read only after the stolen bytes have been written. */
  method EncodeStolen(k: Key, data: array<Byte>, out: array<Byte>, aessrc: Block, n: nat)
    requires data.Length == out.Length && n + BLOCK_SIZE < data.Length < n + 2 * BLOCK_SIZE
    modifies out
    ensures out[..n] == old(out[..n])
    ensures data != out ==>
              out[n..] == Steal(k, aessrc, old(data[n..n + BLOCK_SIZE]), old(data[n + BLOCK_SIZE..]))
    ensures data == out ==>
              out[n..] == StealOverlapping(k, aessrc, old(data[n..n + BLOCK_SIZE]), data.Length - n - BLOCK_SIZE)
  {
    hide Xor, XorPrefix;
    ghost var was := out[..];
    var split := n + BLOCK_SIZE;
    var needsteal := data.Length - split;
    var aesdst := k.enc(Xor(aessrc, data[n..split]));
    Overwrite(out, split, aesdst[..needsteal]);
    assert out[split..] == aesdst[..needsteal] && out[..n] == was[..n];
    XorPrefixSelf(aesdst, needsteal);
    var mixed: Block := XorPrefix(aesdst, data[split..]);
    Overwrite(out, n, k.enc(mixed));
    assert out[..] == was[..n] + k.enc(mixed) + aesdst[..needsteal];
    EndOf(was[..n], k.enc(mixed), aesdst[..needsteal]);
  }

  lemma EndOf(a: Bytes, b: Bytes, c: Bytes)
    ensures (a + b + c)[|a|..] == b + c && (a + b + c)[..|a|] == a
  {
  }

  method EncodeLong(k: Key, data: array<Byte>, out: array<Byte>, iv: Block)
    requires out.Length == data.Length >= BLOCK_SIZE
    modifies out
    ensures data != out ==> out[..] == EncodeBody(k, iv, old(data[..]))
    ensures data == out ==> out[..] == EncodeBodyOverlapping(k, iv, old(data[..]))
  {
    hide Chain, Link, Steal, StealOverlapping;
    ghost var D := data[..];
    var datalen := data.Length;
    var needsteal := datalen % BLOCK_SIZE;
    var n := if needsteal != 0 then datalen - needsteal - BLOCK_SIZE else datalen;
    var aessrc := EncodeBlocks(k, data, out, iv, n);
    if needsteal != 0 {
      assert data[n..][..BLOCK_SIZE] == data[n..n + BLOCK_SIZE] == D[n..n + BLOCK_SIZE];
      assert data[n..][BLOCK_SIZE..] == data[n + BLOCK_SIZE..] == D[n + BLOCK_SIZE..];
      EncodeStolen(k, data, out, aessrc, n);
      assert out[..] == out[..n] + out[n..];
    } else {
      assert out[..] == out[..n];
    }
  }

  method EncodeSector(k: Key, data: array<Byte>, out: array<Byte>, sectorid: Bytes, rnd: Block)
    returns (auth: Bytes)
    requires out.Length == data.Length
    modifies out
    ensures auth == Encode(k, old(data[..]), sectorid, rnd).auth
    ensures data != out ==> out[..] == Encode(k, old(data[..]), sectorid, rnd).cipher
    ensures data == out ==> out[..] == EncodeOverlapping(k, old(data[..]), sectorid, rnd)
  {
    ghost var D := data[..];
    var datalen := data.Length;
    var tag := ComputeTag(k, data[..], sectorid, rnd);
    if datalen < BLOCK_SIZE {
      var aessrc: Block := XorPrefix(rnd, data[..]);
      Store(out, 0, rnd[..datalen]);
      auth := k.enc(aessrc) + k.enc(tag);
      return;
    }
    auth := k.enc(rnd[..8] + tag[..8]) + k.enc(tag[8..] + rnd[8..]);
    EncodeLong(k, data, out, tag);
  }

  /** The tag, computed incrementally over text, sector id and random block. */
  method ComputeTag(k: Key, plain: Bytes, sectorid: Bytes, rnd: Block) returns (tag: Block)
    ensures tag == Tag(k, plain, sectorid, rnd)
  {
    var ctx := new HmacContext(k.iv);
    ctx.Update(k.iv, [], plain);
    ctx.Update(k.iv, [] + plain, sectorid);
    ctx.Update(k.iv, [] + plain + sectorid, rnd);
    var hmac := ctx.Final(k.sha512, k.iv, [] + plain + sectorid + rnd);
    assert [] + plain + sectorid + rnd == plain + sectorid + rnd;
    tag := hmac[..BLOCK_SIZE];
  }

  /** Nothing is hashed and nothing encrypted. */
  const IDENTITY: Key := Key((b: Block) => b, (b: Block) => b, (s: Bytes) => Zeros(64), [])

  lemma {:induction false} ZerosChain(n: nat)
    requires n % BLOCK_SIZE == 0
    ensures var z: Block := Zeros(BLOCK_SIZE); Chain(IDENTITY, z, Zeros(n)) == Zeros(n)
    decreases n
  {
    if n > 0 {
      var z: Block := Zeros(BLOCK_SIZE);
      assert Zeros(n)[..BLOCK_SIZE] == z && Zeros(n)[BLOCK_SIZE..] == Zeros(n - BLOCK_SIZE);
      assert Xor(z, z) == z;
      ZerosChain(n - BLOCK_SIZE);
      assert z + Zeros(n - BLOCK_SIZE) == Zeros(n);
    }
  }

  /** Zeros with a tail of ones, whose length is ragged: a text that encoding onto itself gets wrong. */
  function RaggedText(n: nat): (p: Bytes)
    requires n >= BLOCK_SIZE
    ensures |p| == n
  {
    Zeros(n - n % BLOCK_SIZE) + seq(n % BLOCK_SIZE, _ => 1)
  }

  lemma OverlappingEncodeFails(n: nat)
    requires n >= BLOCK_SIZE && n % BLOCK_SIZE != 0
    ensures var z: Block := Zeros(BLOCK_SIZE);
            EncodeOverlapping(IDENTITY, RaggedText(n), [], z) != Encode(IDENTITY, RaggedText(n), [], z).cipher
  {
    hide Chain, EncodeBody, EncodeBodyOverlapping, Encode, EncodeOverlapping;
    var z: Block := Zeros(BLOCK_SIZE);
    var p, m := RaggedText(n), Whole(n);
    assert Tag(IDENTITY, p, [], z) == z;
    assert p[..m] == Zeros(m) && p[m..m + BLOCK_SIZE] == z;
    ZerosChain(m);
    assert Link(z, Zeros(m)) == z;
    assert Xor(z, z) == z;
    OverlappingEncodeIsRightIff(IDENTITY, p, [], z);
    assert p[m + BLOCK_SIZE..][0] == 1 && IDENTITY.enc(z)[..n % BLOCK_SIZE][0] == 0;
  }

  /** For this length encoding onto the same buffer is right, whatever the key, text, sector and random block. */
  ghost predicate EncodesOntoItself(n: nat) {
    forall k: Key, plain: Bytes, sectorid: Bytes, rnd: Block | Inverse(k) && |plain| == n ::
      EncodeOverlapping(k, plain, sectorid, rnd) == Encode(k, plain, sectorid, rnd).cipher
  }

  /** What a caller can check: a sector may be encoded onto itself exactly if it is short or made of whole blocks. */
  lemma OntoItselfIff(n: nat)
    ensures EncodesOntoItself(n) <==> n < BLOCK_SIZE || n % BLOCK_SIZE == 0
  {
    hide Chain, EncodeBody, EncodeBodyOverlapping, Encode, EncodeOverlapping;
    if n < BLOCK_SIZE || n % BLOCK_SIZE == 0 {
      forall k: Key, plain: Bytes, sectorid: Bytes, rnd: Block | Inverse(k) && |plain| == n
        ensures EncodeOverlapping(k, plain, sectorid, rnd) == Encode(k, plain, sectorid, rnd).cipher
      {
        OverlappingEncodeIsRightIff(k, plain, sectorid, rnd);
      }
    } else {
      OverlappingEncodeFails(n);
      assert Inverse(IDENTITY);
    }
  }

  // ---------------------------------------------------------------- Decoding

  /** Constant-time comparison: 0 exactly when the two strings agree. */
  method MemcmpConst(s1: Bytes, s2: Bytes) returns (r: bv32)
    requires |s1| == |s2|
    ensures r == if s1 == s2 then 0 else 1
  {
    var acc: bv32 := 0;
    var i := 0;
    while i < |s1|
      invariant 0 <= i <= |s1|
      invariant acc & 0xffffff00 == 0
      invariant acc == 0 <==> s1[..i] == s2[..i]
    {
      var d := s1[i] ^ s2[i];
      OrByte(acc, d);
      acc := acc | (d as bv32);
      assert d == 0 <==> s1[i] == s2[i];
      i := i + 1;
      assert s1[..i] == s1[..i - 1] + [s1[i - 1]] && s2[..i] == s2[..i - 1] + [s2[i - 1]];
    }
    assert s1[..i] == s1 && s2[..i] == s2;
    FoldToBit(acc);
    r := (((acc - 1) >> 8) & 1) ^ 1;
  }

  lemma OrByte(acc: bv32, d: bv8)
    requires acc & 0xffffff00 == 0
    ensures (acc | (d as bv32)) & 0xffffff00 == 0
    ensures acc | (d as bv32) == 0 <==> acc == 0 && d == 0
  {
  }

  lemma FoldToBit(acc: bv32)
    requires acc & 0xffffff00 == 0
    ensures (((acc - 1) >> 8) & 1) ^ 1 == if acc == 0 then 0 else 1
  {
  }

  /**
   Decoding has come to pos: so much of the plain text is written, what is behind pos has not been
   written over, and `link` is the block the next one is xored with. `D` is the ciphertext as first given.
   */
  ghost predicate DecodedTo(k: Key, iv: Block, D: Bytes, data: Bytes, out: Bytes, pos: nat, link: Block) {
    && |data| == |out| == |D| && pos <= |D| && pos % BLOCK_SIZE == 0
    && data[pos..] == D[pos..] && link == Link(iv, D[..pos]) && out[..pos] == Unchain(k, iv, D[..pos])
  }

  lemma DecodedNothing(k: Key, iv: Block, D: Bytes, out: Bytes)
    requires |out| == |D|
    ensures DecodedTo(k, iv, D, D, out, 0, iv)
  {
    ChainNothing(k, iv);
    assert D[..0] == out[..0] == [];
  }

  /** Whole blocks, four at a time while four remain. */
  method DecodeFours(k: Key, data: array<Byte>, out: array<Byte>, iv: Block, n: nat)
    returns (pos: nat, aesxor: Block)
    requires n % BLOCK_SIZE == 0 && n <= data.Length == out.Length
    modifies out
    ensures pos <= n && pos % BLOCK_SIZE == 0 && n - pos < 4 * BLOCK_SIZE
    ensures DecodedTo(k, iv, old(data[..]), data[..], out[..], pos, aesxor)
  {
    hide DecodedTo;
    ghost var D := data[..];
    DecodedNothing(k, iv, D, out[..]);
    pos, aesxor := 0, iv;
    while n - pos >= 4 * BLOCK_SIZE
      invariant 0 <= pos <= n && pos % BLOCK_SIZE == 0
      invariant DecodedTo(k, iv, D, data[..], out[..], pos, aesxor) == true
    {
      aesxor := DecodeFour(k, data, out, iv, D, pos, aesxor);
      pos := pos + 4 * BLOCK_SIZE;
    }
  }

  /** One turn of the four-block loop. */
  method DecodeFour(k: Key, data: array<Byte>, out: array<Byte>, ghost iv: Block, ghost D: Bytes, pos: nat, aesxor: Block)
    returns (next: Block)
    requires pos + 4 * BLOCK_SIZE <= data.Length && DecodedTo(k, iv, D, data[..], out[..], pos, aesxor)
    modifies out
    ensures DecodedTo(k, iv, D, data[..], out[..], pos + 4 * BLOCK_SIZE, next)
  {
    hide Unchain, Link, Decode4;
    assert data[..][pos..] == data[pos..];
    var aessrc := Fetch(data, D, pos, 4 * BLOCK_SIZE);
    var links := aesxor + aessrc[..3 * BLOCK_SIZE];
    FourOf(D, pos, aessrc);
    UnchainFourSteps(k, iv, D, pos);
    Emit(data, out, D, pos, Decode4(k, aessrc, links));
    next := aessrc[3 * BLOCK_SIZE..];
  }

  lemma FourOf(D: Bytes, pos: nat, four: Bytes)
    requires pos + 64 <= |D| && four == D[pos..pos + 64]
    ensures four[..48] == D[pos..pos + 48] && four[48..] == D[pos + 48..pos + 64]
  {
  }

  /** The whole blocks from `start` to `n`, one at a time. */
  method DecodeSingles(k: Key, data: array<Byte>, out: array<Byte>, ghost iv: Block, n: nat,
                       ghost D: Bytes, start: nat, link: Block) returns (aesxor: Block)
    requires start <= n <= data.Length && start % BLOCK_SIZE == n % BLOCK_SIZE == 0
    requires DecodedTo(k, iv, D, data[..], out[..], start, link)
    modifies out
    ensures DecodedTo(k, iv, D, data[..], out[..], n, aesxor)
  {
    hide DecodedTo;
    aesxor := link;
    var pos := start;
    while pos < n
      invariant start <= pos <= n && pos % BLOCK_SIZE == 0
      invariant DecodedTo(k, iv, D, data[..], out[..], pos, aesxor) == true
    {
      aesxor := DecodeOne(k, data, out, iv, D, pos, aesxor);
      pos := pos + BLOCK_SIZE;
    }
  }

  /** One turn of the one-block loop. */
  method DecodeOne(k: Key, data: array<Byte>, out: array<Byte>, ghost iv: Block, ghost D: Bytes, pos: nat, aesxor: Block)
    returns (next: Block)
    requires pos + BLOCK_SIZE <= data.Length && DecodedTo(k, iv, D, data[..], out[..], pos, aesxor)
    modifies out
    ensures DecodedTo(k, iv, D, data[..], out[..], pos + BLOCK_SIZE, next)
  {
    hide Xor, Unchain, Link;
    assert data[..][pos..] == data[pos..];
    var aessrc := Fetch(data, D, pos, BLOCK_SIZE);
    UnchainStep(k, iv, D, pos);
    Emit(data, out, D, pos, Xor(k.dec(aessrc), aesxor));
    next := aessrc;
  }

  /** The stolen block and the ragged rest, in the order that keeps one shared buffer readable. */
  method DecodeStolen(k: Key, data: array<Byte>, out: array<Byte>, aesxor: Block, n: nat)
    requires data.Length == out.Length && n + BLOCK_SIZE < data.Length < n + 2 * BLOCK_SIZE
    modifies out
    ensures out[..] == old(out[..n]) + Unsteal(k, aesxor, old(data[n..]))
  {
    hide Xor;
    ghost var C := data[n..];
    var split := n + BLOCK_SIZE;
    var aesdst := k.dec(data[n..split]);
    var stolen := data[split..];
    assert C[..BLOCK_SIZE] == data[n..split] && C[BLOCK_SIZE..] == stolen;
    var rest := Xor(aesdst[..|stolen|], stolen);
    var aessrc := k.dec(stolen + aesdst[|stolen|..]);
    assert Unsteal(k, aesxor, C) == Xor(aessrc, aesxor) + rest;
    WriteEnd(out, n, Xor(aessrc, aesxor), rest);
  }

  /** The ragged rest first, then the block before it. */
  method WriteEnd(out: array<Byte>, n: nat, block: Block, rest: Bytes)
    requires n + BLOCK_SIZE + |rest| == out.Length
    modifies out
    ensures out[..] == old(out[..n]) + (block + rest)
  {
    ghost var was := out[..];
    Overwrite(out, n + BLOCK_SIZE, rest);
    assert out[n + BLOCK_SIZE..] == rest && out[..n] == was[..n];
    Overwrite(out, n, block);
    assert out[..] == was[..n] + block + rest;
    assert was[..n] + block + rest == was[..n] + (block + rest);
  }

  method DecodeLong(k: Key, data: array<Byte>, out: array<Byte>, iv: Block)
    requires out.Length == data.Length >= BLOCK_SIZE
    modifies out
    ensures out[..] == DecodeBody(k, iv, old(data[..]))
  {
    ghost var D := data[..];
    var datalen := data.Length;
    var needsteal := datalen % BLOCK_SIZE;
    var n := if needsteal != 0 then datalen - needsteal - BLOCK_SIZE else datalen;
    hide Unchain, Link, Unsteal;
    var pos, aesxor := DecodeFours(k, data, out, iv, n);
    aesxor := DecodeSingles(k, data, out, iv, n, D, pos, aesxor);
    if needsteal != 0 {
      DecodeStolen(k, data, out, aesxor, n);
    } else {
      assert out[..] == out[..n];
    }
  }

  /** Returns 0 when the sector is accepted and -1 otherwise; the text is written either way. */
  method DecodeSector(k: Key, data: array<Byte>, out: array<Byte>, auth: Bytes, sectorid: Bytes)
    returns (ret: int)
    requires out.Length == data.Length && |auth| == 2 * BLOCK_SIZE
    modifies out
    ensures out[..] == Open(k, old(data[..]), auth).plain
    ensures ret == if Accepts(k, old(data[..]), auth, sectorid) then 0 else -1
  {
    ghost var D := data[..];
    var datalen := data.Length;
    var first, second := k.dec(auth[..BLOCK_SIZE]), k.dec(auth[BLOCK_SIZE..]);
    var rnd: Block, tag: Block;
    if datalen < BLOCK_SIZE {
      var hmac := XorPrefix(first, data[..]);
      var aessrc := data[..];
      Store(out, 0, hmac[..datalen]);
      rnd, tag := aessrc + hmac[datalen..], second;
      assert hmac[..datalen] == Xor(first[..datalen], D);
      assert hmac[datalen..] == first[datalen..];
    } else {
      tag := first[8..] + second[..8];
      rnd := first[..8] + second[8..];
      DecodeLong(k, data, out, tag);
    }
    var computed := ComputeTag(k, out[..], sectorid, rnd);
    var differ := MemcmpConst(computed, tag);
    ret := if differ == 0 then 0 else -1;
  }
}
