/**
 Name encryption of pcrypto.c: one block under a fixed vector for names of at most
 16 bytes, otherwise CBC whose initial vector is an HMAC of the text after its first block.
 */
module TextCrypto {
  import opened Bytes
  import opened SectorCrypto
  import SectorCoder

  datatype Decoded = Rejected | Text(buffer: Bytes)

  predicate NulFree(t: Bytes) { forall i :: 0 <= i < |t| ==> t[i] != 0 }

  /** strlen; the whole string if it holds no NUL. */
  function Strlen(s: Bytes): (n: nat)
    ensures n <= |s|
    ensures n < |s| ==> s[n] == 0
    ensures forall i :: 0 <= i < n ==> s[i] != 0
  {
    if s == [] || s[0] == 0 then 0 else 1 + Strlen(s[1..])
  }

  lemma {:induction false} StrlenUnique(s: Bytes, n: nat)
    requires n <= |s| && (n < |s| ==> s[n] == 0) && (forall i :: 0 <= i < n ==> s[i] != 0)
    ensures Strlen(s) == n
  {
    if n > 0 {
      StrlenUnique(s[1..], n - 1);
    }
  }

  /** The C string at the start of a buffer. */
  function CString(s: Bytes): (t: Bytes)
    ensures NulFree(t)
  {
    s[..Strlen(s)]
  }

  function AlignUp(n: nat): (m: nat)
    ensures m % BLOCK_SIZE == 0 && n <= m < n + BLOCK_SIZE
  {
    (n + BLOCK_SIZE - 1) / BLOCK_SIZE * BLOCK_SIZE
  }

  function Padded(t: Bytes): (p: Bytes)
    ensures |p| == AlignUp(|t|)
  {
    t + Zeros(AlignUp(|t|) - |t|)
  }

  function TailVector(k: Key, tail: Bytes): (b: Block) { Hmac(k.sha512, k.iv, tail)[..BLOCK_SIZE] }

  function EncodeText(k: Key, t: Bytes): (c: Bytes)
    requires |t| >= 1 && |k.iv| >= BLOCK_SIZE
    ensures |c| == AlignUp(|t|)
  {
    if |t| <= BLOCK_SIZE then k.enc(Xor(Padded(t), k.iv[..BLOCK_SIZE]))
    else Chain(k, TailVector(k, t[BLOCK_SIZE..]), Padded(t))
  }

  /** Only zeros after the first NUL at or behind `from`. */
  predicate CleanPadding(buffer: Bytes, from: nat)
    requires from <= |buffer|
  {
    var n := from + Strlen(buffer[from..]);
    forall i :: n <= i < |buffer| ==> buffer[i] == 0
  }

  function DecodeText(k: Key, c: Bytes): (r: Decoded)
    requires |k.iv| >= BLOCK_SIZE
    ensures r.Text? ==> |r.buffer| == |c|
  {
    if |c| == 0 || |c| % BLOCK_SIZE != 0 then Rejected
    else if |c| == BLOCK_SIZE then
      var buffer := Xor(k.dec(c), k.iv[..BLOCK_SIZE]);
      if CleanPadding(buffer, 0) then Text(buffer) else Rejected
    else
      var first: Block := c[..BLOCK_SIZE];
      var tail := Unchain(k, first, c[BLOCK_SIZE..]);
      var buffer := Xor(k.dec(first), TailVector(k, CString(tail))) + tail;
      if CleanPadding(buffer, BLOCK_SIZE) then Text(buffer) else Rejected
  }

  // ---------------------------------------------------------------- Round trips

  lemma PaddedString(t: Bytes)
    requires NulFree(t)
    ensures Strlen(Padded(t)) == |t| && CString(Padded(t)) == t
  {
    StrlenUnique(Padded(t), |t|);
  }

  lemma PaddedTail(t: Bytes)
    requires |t| > BLOCK_SIZE
    ensures Padded(t)[BLOCK_SIZE..] == Padded(t[BLOCK_SIZE..])
    ensures Padded(t)[..BLOCK_SIZE] == t[..BLOCK_SIZE]
  {
  }

  /** Decoding an encoded NUL-free name gives back its padded text, whose C string is the name. */
  lemma TextRoundTrip(k: Key, t: Bytes)
    requires Inverse(k) && |k.iv| >= BLOCK_SIZE && |t| >= 1 && NulFree(t)
    ensures DecodeText(k, EncodeText(k, t)) == Text(Padded(t))
    ensures CString(Padded(t)) == t
  {
    PaddedString(t);
    if |t| <= BLOCK_SIZE {
      SingleRoundTrip(k, t);
    } else {
      ChainedRoundTrip(k, t);
    }
  }

  lemma SingleRoundTrip(k: Key, t: Bytes)
    requires Inverse(k) && |k.iv| >= BLOCK_SIZE && 1 <= |t| <= BLOCK_SIZE && NulFree(t)
    ensures DecodeText(k, EncodeText(k, t)) == Text(Padded(t))
  {
    hide Xor, Chain, Unchain, Hmac;
    var p: Block := Padded(t);
    PaddedString(t);
    XorCancels(p, k.iv[..BLOCK_SIZE]);
    assert EncodeText(k, t) == k.enc(Xor(p, k.iv[..BLOCK_SIZE]));
    assert p[0..] == p;
  }

  lemma ChainedRoundTrip(k: Key, t: Bytes)
    requires Inverse(k) && |k.iv| >= BLOCK_SIZE && |t| > BLOCK_SIZE && NulFree(t)
    ensures DecodeText(k, EncodeText(k, t)) == Text(Padded(t))
  {
    hide Xor, Chain, Unchain, Hmac, TailVector, Strlen;
    var p, c := Padded(t), EncodeText(k, t);
    var h := TailVector(k, t[BLOCK_SIZE..]);
    var first: Block, tail := p[..BLOCK_SIZE], p[BLOCK_SIZE..];
    var c0 := k.enc(Xor(h, first));
    PaddedTail(t);
    PaddedString(t[BLOCK_SIZE..]);
    UnchainInvertsChain(k, c0, tail);
    assert p == first + tail;
    SectorCoder.ChainCons(k, h, first, tail);
    assert c == c0 + Chain(k, c0, tail);
    assert c[..BLOCK_SIZE] == c0 && c[BLOCK_SIZE..] == Chain(k, c0, tail);
    XorCancels(first, h);
  }

  lemma EncodeTextInjective(k: Key, t1: Bytes, t2: Bytes)
    requires Inverse(k) && |k.iv| >= BLOCK_SIZE
    requires |t1| >= 1 && |t2| >= 1 && NulFree(t1) && NulFree(t2)
    requires EncodeText(k, t1) == EncodeText(k, t2)
    ensures t1 == t2
  {
    TextRoundTrip(k, t1);
    TextRoundTrip(k, t2);
  }

  /** A clean buffer is the padding of its C string when that string fills the last block. */
  lemma CleanIsPadded(buffer: Bytes, from: nat)
    requires from <= |buffer| && CleanPadding(buffer, from)
    requires from <= Strlen(buffer) && AlignUp(Strlen(buffer)) == |buffer|
    ensures buffer == Padded(CString(buffer))
  {
    var n := Strlen(buffer);
    StrlenUnique(buffer[from..], n - from);
    assert forall i | 0 <= i < |buffer| :: buffer[i] == Padded(CString(buffer))[i];
  }

  lemma Rechain(k: Key, h: Block, c: Bytes, buffer: Bytes)
    requires Inverse(k) && |c| >= BLOCK_SIZE && |c| % BLOCK_SIZE == 0
    requires buffer == Xor(k.dec(c[..BLOCK_SIZE]), h) + Unchain(k, c[..BLOCK_SIZE], c[BLOCK_SIZE..])
    ensures Chain(k, h, buffer) == c
  {
    var first: Block := c[..BLOCK_SIZE];
    var b0 := Xor(k.dec(first), h);
    assert buffer[..BLOCK_SIZE] == b0 && buffer[BLOCK_SIZE..] == Unchain(k, first, c[BLOCK_SIZE..]);
    XorCancels(k.dec(first), h);
    XorCancels(b0, h);
    ChainInvertsUnchain(k, first, c[BLOCK_SIZE..]);
    assert first + c[BLOCK_SIZE..] == c;
  }

  lemma AcceptedBlockIsEncoded(k: Key, c: Block, buffer: Bytes)
    requires Inverse(k) && |k.iv| >= BLOCK_SIZE && DecodeText(k, c) == Text(buffer)
    requires 1 <= Strlen(buffer)
    ensures EncodeText(k, CString(buffer)) == c
  {
    assert buffer[0..] == buffer;
    CleanIsPadded(buffer, 0);
    XorCancels(k.dec(c), k.iv[..BLOCK_SIZE]);
  }

  lemma AcceptedChainIsEncoded(k: Key, c: Bytes, buffer: Bytes)
    requires Inverse(k) && |k.iv| >= BLOCK_SIZE && DecodeText(k, c) == Text(buffer)
    requires |c| > BLOCK_SIZE && AlignUp(Strlen(buffer)) == |c|
    ensures EncodeText(k, CString(buffer)) == c
  {
    hide Chain, Unchain, Hmac;
    var n := Strlen(buffer);
    var tail := Unchain(k, c[..BLOCK_SIZE], c[BLOCK_SIZE..]);
    assert buffer[BLOCK_SIZE..] == tail;
    StrlenUnique(tail, n - BLOCK_SIZE);
    assert CString(tail) == CString(buffer)[BLOCK_SIZE..];
    Rechain(k, TailVector(k, CString(tail)), c, buffer);
    CleanIsPadded(buffer, BLOCK_SIZE);
  }

  ghost predicate Encodes(k: Key, t: Bytes, c: Bytes)
    requires |k.iv| >= BLOCK_SIZE
  {
    |t| >= 1 && NulFree(t) && EncodeText(k, t) == c
  }

  /** Accepted, with a text that is not empty and padding shorter than a block. */
  predicate TightlyAccepted(k: Key, c: Bytes)
    requires |k.iv| >= BLOCK_SIZE
  {
    var r := DecodeText(k, c);
    r.Text? && Strlen(r.buffer) >= 1 && AlignUp(Strlen(r.buffer)) == |c|
  }

  lemma TightlyAcceptedIsEncoded(k: Key, c: Bytes)
    requires Inverse(k) && |k.iv| >= BLOCK_SIZE && TightlyAccepted(k, c)
    ensures Encodes(k, CString(DecodeText(k, c).buffer), c)
  {
    var buffer := DecodeText(k, c).buffer;
    if |c| == BLOCK_SIZE {
      AcceptedBlockIsEncoded(k, c, buffer);
    } else {
      AcceptedChainIsEncoded(k, c, buffer);
    }
  }

  lemma EncodedIsTightlyAccepted(k: Key, t: Bytes, c: Bytes)
    requires Inverse(k) && |k.iv| >= BLOCK_SIZE && Encodes(k, t, c)
    ensures TightlyAccepted(k, c)
  {
    TextRoundTrip(k, t);
    PaddedString(t);
  }

  /** Exactly which ciphertexts are names. */
  lemma TextImage(k: Key, c: Bytes)
    requires Inverse(k) && |k.iv| >= BLOCK_SIZE
    ensures (exists t :: Encodes(k, t, c)) <==> TightlyAccepted(k, c)
  {
    if t :| Encodes(k, t, c) {
      EncodedIsTightlyAccepted(k, t, c);
    }
    if TightlyAccepted(k, c) {
      TightlyAcceptedIsEncoded(k, c);
    }
  }

  // ---------------------------------------------------------------- The coder's loops

  /** The padded text is the first block and the padding of what the block leaves. */
  lemma PaddedBlock(t: Bytes)
    ensures 0 < |t| <= BLOCK_SIZE ==> Padded(t) == t + Zeros(BLOCK_SIZE - |t|) && Padded([]) == []
    ensures |t| >= BLOCK_SIZE ==> Padded(t) == t[..BLOCK_SIZE] + Padded(t[BLOCK_SIZE..])
  {
    if |t| > BLOCK_SIZE {
      PaddedTail(t);
      assert Padded(t) == Padded(t)[..BLOCK_SIZE] + Padded(t)[BLOCK_SIZE..];
    } else if |t| == BLOCK_SIZE {
      assert t[..BLOCK_SIZE] == t && t[BLOCK_SIZE..] == [];
    }
  }

  /** Takes a block off the text: taken until nothing is left, the blocks are the padded text. */
  method CopyPad(t: Bytes) returns (block: Block, rest: Bytes)
    ensures t != [] ==> Padded(t) == block + Padded(rest) && |rest| < |t|
    ensures rest != [] ==> block + rest == t
    ensures t == [] ==> rest == [] && block == Zeros(BLOCK_SIZE)
  {
    PaddedBlock(t);
    if BLOCK_SIZE <= |t| {
      block, rest := t[..BLOCK_SIZE], t[BLOCK_SIZE..];
    } else {
      block, rest := t + Zeros(BLOCK_SIZE - |t|), [];
    }
  }

  method EncodeName(k: Key, txt: Bytes) returns (out: Bytes)
    requires |txt| >= 1 && |k.iv| >= BLOCK_SIZE
    ensures out == EncodeText(k, txt)
  {
    if |txt| <= BLOCK_SIZE {
      var aessrc, _ := CopyPad(txt);
      PaddedBlock(txt);
      assert aessrc == Padded(txt);
      out := k.enc(Xor(aessrc, k.iv[..BLOCK_SIZE]));
      return;
    }
    var hmac := Hmac(k.sha512, k.iv, txt[BLOCK_SIZE..]);
    XorCancels(txt[..BLOCK_SIZE], hmac[..BLOCK_SIZE]);
    var aesdst := k.enc(Xor(txt[..BLOCK_SIZE], hmac[..BLOCK_SIZE]));
    PaddedTail(txt);
    FirstBlock(k, hmac[..BLOCK_SIZE], Padded(txt));
    out := ChainRest(k, hmac[..BLOCK_SIZE], txt, aesdst);
  }

  lemma FirstBlock(k: Key, h: Block, p: Bytes)
    requires |p| >= BLOCK_SIZE && |p| % BLOCK_SIZE == 0
    ensures Chain(k, h, p[..BLOCK_SIZE]) == k.enc(Xor(h, p[..BLOCK_SIZE]))
  {
    SectorCoder.ChainStep(k, h, p, 0);
    assert p[..0] == [] && p[0..BLOCK_SIZE] == p[..BLOCK_SIZE];
  }

  /** The loop over the blocks behind the first. */
  method ChainRest(k: Key, ghost h: Block, txt: Bytes, first: Block) returns (out: Bytes)
    requires |txt| > BLOCK_SIZE && first == Chain(k, h, Padded(txt)[..BLOCK_SIZE])
    ensures out == Chain(k, h, Padded(txt))
  {
    hide Chain, Link, Xor;
    ghost var p := Padded(txt);
    PaddedBlock(txt);
    SectorCoder.ChainStep(k, h, p, 0);
    assert p[..0] == [] && p[0..BLOCK_SIZE] == p[..BLOCK_SIZE] && p[..BLOCK_SIZE] + p[BLOCK_SIZE..] == p;
    var aesdst, rest := first, txt[BLOCK_SIZE..];
    out := first;
    assert Padded(rest) == p[BLOCK_SIZE..];
    hide Padded;
    while rest != []
      invariant BLOCK_SIZE <= |out| <= |p| && |out| % BLOCK_SIZE == 0
      invariant out == Chain(k, h, p[..|out|])
      invariant aesdst == Link(h, Chain(k, h, p[..|out|]))
      invariant Padded(rest) == p[|out|..]
      decreases |rest|
    {
      var aessrc;
      ghost var pos := |out|;
      aessrc, rest := CopyPad(rest);
      NextBlock(p, pos, aessrc, Padded(rest));
      XorCancels(aessrc, aesdst);
      SectorCoder.ChainStep(k, h, p, pos);
      aesdst := k.enc(Xor(aessrc, aesdst));
      out := out + aesdst;
    }
    assert Padded([]) == [] by { PaddedBlock([0]); }
    assert p[..|out|] == p;
  }

  lemma NextBlock(p: Bytes, pos: nat, block: Block, rest: Bytes)
    requires pos <= |p| && p[pos..] == block + rest
    ensures pos + BLOCK_SIZE <= |p| && block == p[pos..pos + BLOCK_SIZE] && rest == p[pos + BLOCK_SIZE..]
  {
    assert p[pos..][..BLOCK_SIZE] == p[pos..pos + BLOCK_SIZE] && p[pos..][BLOCK_SIZE..] == p[pos + BLOCK_SIZE..];
  }

  method DecodeName(k: Key, data: Bytes) returns (r: Decoded)
    requires |k.iv| >= BLOCK_SIZE
    ensures r == DecodeText(k, data)
  {
    if |data| % BLOCK_SIZE != 0 || |data| == 0 {
      return Rejected;
    }
    if |data| == BLOCK_SIZE {
      var ret := Xor(k.dec(data), k.iv[..BLOCK_SIZE]);
      assert ret[0..] == ret;
      var clean := PaddingIsClean(ret, 0, Strlen(ret));
      return if clean then Text(ret) else Rejected;
    }
    var first: Block := data[..BLOCK_SIZE];
    var ret := k.dec(first);
    var tail := UnchainRest(k, first, data[BLOCK_SIZE..]);
    var len := Strlen(tail);
    var hmac := Hmac(k.sha512, k.iv, tail[..len]);
    ret := Xor(ret, hmac[..BLOCK_SIZE]) + tail;
    assert ret[BLOCK_SIZE..] == tail;
    var clean := PaddingIsClean(ret, BLOCK_SIZE, len);
    return if clean then Text(ret) else Rejected;
  }

  /** The loop over the blocks behind the first; `xorptr` is the previous cipher block. */
  method UnchainRest(k: Key, first: Block, data: Bytes) returns (tail: Bytes)
    requires |data| % BLOCK_SIZE == 0
    ensures tail == Unchain(k, first, data)
  {
    tail := [];
    var xorptr := first;
    var pos := 0;
    while pos < |data|
      invariant 0 <= pos <= |data| && pos % BLOCK_SIZE == 0
      invariant tail == Unchain(k, first, data[..pos])
      invariant xorptr == Link(first, data[..pos])
    {
      var aessrc := data[pos..pos + BLOCK_SIZE];
      SectorCoder.UnchainStep(k, first, data, pos);
      tail := tail + Xor(k.dec(aessrc), xorptr);
      xorptr := aessrc;
      pos := pos + BLOCK_SIZE;
    }
    assert data[..pos] == data;
  }

  /** The check of the bytes behind the first NUL. */
  method PaddingIsClean(ret: Bytes, from: nat, strlen: nat) returns (clean: bool)
    requires from <= |ret| && strlen == Strlen(ret[from..])
    ensures clean == CleanPadding(ret, from)
  {
    var len := from + strlen + 1;
    while len < |ret|
      invariant from + strlen < len
      invariant forall i :: from + strlen <= i < len && i < |ret| ==> ret[i] == 0
    {
      if ret[len] != 0 {
        return false;
      }
      len := len + 1;
    }
    return true;
  }
}
