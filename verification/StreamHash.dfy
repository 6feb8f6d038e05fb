/**
 The streaming layer of the 256-bit hash of pcrc32c.c, for any block function. The fill count of the
 64-byte block buffer lives in the buffer's own last byte; bytes between the pending ones and that
 byte are stale.
 */
module StreamHash {
  import opened Bytes

  const HASH_BLOCK: nat := 64
  const TWO_64: nat := 0x1_0000_0000_0000_0000

  type HashBlock = b: Bytes | |b| == HASH_BLOCK witness seq(HASH_BLOCK, _ => 0)
  type Pending = b: Bytes | |b| < HASH_BLOCK
  type Uint64 = n: nat | n < TWO_64

  datatype Core<!S, !D> = Core(initial: S, round: (S, HashBlock) -> S, finish: (S, Pending, Uint64) -> D)

  function Absorb<S, D>(core: Core<S, D>, s: S, data: Bytes): (r: S)
    requires |data| % HASH_BLOCK == 0
    decreases |data|
  {
    if data == [] then s else Absorb(core, core.round(s, data[..HASH_BLOCK]), data[HASH_BLOCK..])
  }

  function FullLen(n: nat): (m: nat)
    ensures m <= n < m + HASH_BLOCK && m % HASH_BLOCK == 0
  {
    n / HASH_BLOCK * HASH_BLOCK
  }

  lemma FullLenUnique(n: nat, m: nat)
    requires m <= n < m + HASH_BLOCK && m % HASH_BLOCK == 0
    ensures FullLen(n) == m
  {
  }

  /** The hash of a whole message: all full blocks, then the rest with the length modulo 2^64. */
  function Hash<S, D>(core: Core<S, D>, msg: Bytes): (h: D) {
    var n := FullLen(|msg|);
    core.finish(Absorb(core, core.initial, msg[..n]), msg[n..], |msg| % TWO_64)
  }

  lemma {:induction false} AbsorbConcat<S, D>(core: Core<S, D>, s: S, u: Bytes, v: Bytes)
    requires |u| % HASH_BLOCK == |v| % HASH_BLOCK == 0
    ensures |u + v| % HASH_BLOCK == 0
    ensures Absorb(core, s, u + v) == Absorb(core, Absorb(core, s, u), v)
    decreases |u|
  {
    if u == [] {
      assert u + v == v;
    } else {
      AbsorbConcat(core, core.round(s, u[..HASH_BLOCK]), u[HASH_BLOCK..], v);
      assert (u + v)[..HASH_BLOCK] == u[..HASH_BLOCK];
      assert (u + v)[HASH_BLOCK..] == u[HASH_BLOCK..] + v;
    }
  }

  lemma AbsorbStep<S, D>(core: Core<S, D>, s: S, msg: Bytes, n: nat)
    requires n % HASH_BLOCK == 0 && n + HASH_BLOCK <= |msg|
    ensures Absorb(core, s, msg[..n + HASH_BLOCK]) == core.round(Absorb(core, s, msg[..n]), msg[n..n + HASH_BLOCK])
  {
    var block := msg[n..n + HASH_BLOCK];
    AbsorbConcat(core, s, msg[..n], block);
    assert msg[..n] + block == msg[..n + HASH_BLOCK];
    assert block[..HASH_BLOCK] == block && block[HASH_BLOCK..] == [];
  }

  lemma FullLenBounds(n: nat)
    ensures FullLen(n) <= n < FullLen(n) + HASH_BLOCK
  {
  }

  lemma LengthAdds(m: nat, n: nat)
    ensures (m % TWO_64 + n) % TWO_64 == (m + n) % TWO_64
  {
  }

  function Count(b: Byte): (n: nat) { b as nat }

  function CountByte(n: nat): (b: Byte)
    requires n < HASH_BLOCK
  {
    n as bv8
  }

  lemma CountFits(n: nat)
    requires n < HASH_BLOCK
    ensures Count(CountByte(n)) == n
  {
  }

  lemma MiddleBlock(msg: Bytes, data: Bytes, n: nat)
    requires n <= |msg| <= n + HASH_BLOCK <= |msg| + |data|
    ensures (msg + data)[n..n + HASH_BLOCK] == msg[n..] + data[..HASH_BLOCK - (|msg| - n)]
    ensures (msg + data)[n + HASH_BLOCK..] == data[HASH_BLOCK - (|msg| - n)..]
  {
  }

  /** The loop over the blocks that lie whole in the data; `n` bytes of `all` were absorbed before. */
  method AbsorbBlocks<S, D>(core: Core<S, D>, start: S, ghost all: Bytes, ghost n: nat, data: Bytes)
    returns (state: S, rest: Bytes)
    requires n <= |all| && n % HASH_BLOCK == 0 && data == all[n..]
    requires start == Absorb(core, core.initial, all[..n])
    ensures rest == all[FullLen(|all|)..]
    ensures state == Absorb(core, core.initial, all[..FullLen(|all|)])
  {
    hide Absorb, FullLen;
    state, rest := start, data;
    ghost var m := n;
    while |rest| >= HASH_BLOCK
      invariant n <= m <= |all| && m % HASH_BLOCK == 0
      invariant rest == all[m..]
      invariant state == Absorb(core, core.initial, all[..m])
    {
      AbsorbStep(core, core.initial, all, m);
      assert all[m..][..HASH_BLOCK] == all[m..m + HASH_BLOCK] && all[m..][HASH_BLOCK..] == all[m + HASH_BLOCK..];
      state := core.round(state, rest[..HASH_BLOCK]);
      rest := rest[HASH_BLOCK..];
      m := m + HASH_BLOCK;
    }
    FullLenUnique(|all|, m);
  }

  class Context<S, D> {
    const core: Core<S, D>
    var state: S
    var length: Uint64
    const buff: array<Byte>

    /** The context after the bytes of `msg` have been fed to it, in whatever pieces. */
    ghost predicate Holds(msg: Bytes)
      reads this, buff
    {
      var n := FullLen(|msg|);
      && buff.Length == HASH_BLOCK
      && state == Absorb(core, core.initial, msg[..n])
      && length == |msg| % TWO_64
      && Count(buff[HASH_BLOCK - 1]) == |msg| - n
      && buff[..|msg| - n] == msg[n..]
    }

    constructor (core: Core<S, D>)
      ensures Holds([]) && fresh(buff) && this.core == core
    {
      this.core := core;
      state := core.initial;
      length := 0;
      buff := new Byte[HASH_BLOCK];
      new;
      CountFits(0);
      buff[HASH_BLOCK - 1] := CountByte(0);
    }

    method Update(ghost msg: Bytes, data: Bytes)
      requires Holds(msg)
      modifies this, buff
      ensures Holds(msg + data)
    {
      hide Count, CountByte, Absorb, FullLen;
      FullLenBounds(|msg|);
      LengthAdds(|msg|, |data|);
      var l := Count(buff[HASH_BLOCK - 1]);
      length := (length + |data|) % TWO_64;
      if |data| + l < HASH_BLOCK {
        UpdateShort(msg, data);
      } else {
        UpdateLong(msg, data);
      }
    }

    /** The pending bytes and the new ones together stay below a block. */
    method UpdateShort(ghost msg: Bytes, data: Bytes)
      requires buff.Length == HASH_BLOCK && |msg| - FullLen(|msg|) + |data| < HASH_BLOCK
      requires state == Absorb(core, core.initial, msg[..FullLen(|msg|)])
      requires length == |msg + data| % TWO_64
      requires Count(buff[HASH_BLOCK - 1]) == |msg| - FullLen(|msg|)
      requires buff[..|msg| - FullLen(|msg|)] == msg[FullLen(|msg|)..]
      modifies this, buff
      ensures Holds(msg + data)
    {
      hide Count, CountByte, Absorb, FullLen;
      ghost var n := FullLen(|msg|);
      var l := Count(buff[HASH_BLOCK - 1]);
      CountFits(l + |data|);
      buff[HASH_BLOCK - 1] := CountByte(l + |data|);
      Store(buff, l, data);
      assert buff[..l + |data|] == buff[..l] + buff[l..l + |data|];
      assert (msg + data)[..n] == msg[..n] && (msg + data)[n..] == msg[n..] + data;
      FullLenUnique(|msg + data|, n);
      assert buff[l + |data|..][HASH_BLOCK - 1 - l - |data|] == buff[HASH_BLOCK - 1];
    }

    /** At least one block is completed: first from the buffer, then straight from the data. */
    method UpdateLong(ghost msg: Bytes, data: Bytes)
      requires buff.Length == HASH_BLOCK && |msg| - FullLen(|msg|) + |data| >= HASH_BLOCK
      requires state == Absorb(core, core.initial, msg[..FullLen(|msg|)])
      requires length == |msg + data| % TWO_64
      requires Count(buff[HASH_BLOCK - 1]) == |msg| - FullLen(|msg|)
      requires buff[..|msg| - FullLen(|msg|)] == msg[FullLen(|msg|)..]
      modifies this, buff
      ensures Holds(msg + data)
    {
      hide Count, CountByte, Absorb, FullLen;
      ghost var all := msg + data;
      ghost var n := FullLen(|msg|);
      assert all[..n] == msg[..n];
      var rest := data;
      var l := Count(buff[HASH_BLOCK - 1]);
      if l != 0 {
        rest := CompleteBlock(msg, data, n, l);
        n := n + HASH_BLOCK;
      } else {
        assert all[n..] == data;
      }
      state, rest := AbsorbBlocks(core, state, all, n, rest);
      KeepRest(rest);
    }

    /** Fills the buffered block from the data and absorbs it. */
    method CompleteBlock(ghost msg: Bytes, data: Bytes, ghost n: nat, l: nat) returns (rest: Bytes)
      requires buff.Length == HASH_BLOCK && n % HASH_BLOCK == 0 && n + l == |msg| && l <= HASH_BLOCK <= l + |data|
      requires state == Absorb(core, core.initial, (msg + data)[..n]) && buff[..l] == msg[n..]
      modifies this`state, buff
      ensures rest == (msg + data)[n + HASH_BLOCK..]
      ensures state == Absorb(core, core.initial, (msg + data)[..n + HASH_BLOCK])
    {
      hide Absorb;
      Append(buff, l, data[..HASH_BLOCK - l]);
      assert buff[..] == buff[..l + (HASH_BLOCK - l)];
      MiddleBlock(msg, data, n);
      rest := data[HASH_BLOCK - l..];
      AbsorbStep(core, core.initial, msg + data, n);
      state := core.round(state, buff[..]);
    }

    /** What is left over goes to the start of the buffer, and its length to the last byte. */
    method KeepRest(rest: Bytes)
      requires buff.Length == HASH_BLOCK && |rest| < HASH_BLOCK
      modifies buff
      ensures buff[..|rest|] == rest && Count(buff[HASH_BLOCK - 1]) == |rest|
    {
      hide Count, CountByte;
      Append(buff, 0, rest);
      CountFits(|rest|);
      buff[HASH_BLOCK - 1] := CountByte(|rest|);
    }

    /** The result depends on the message alone, not on how it was fed. */
    method Final(ghost msg: Bytes) returns (h: D)
      requires Holds(msg)
      ensures h == Hash(core, msg)
    {
      hide Count, CountByte;
      var len := Count(buff[HASH_BLOCK - 1]);
      h := core.finish(state, buff[..len], length);
    }
  }

  /** Feeds a list of pieces and finishes. */
  method HashPieces<S, D>(core: Core<S, D>, pieces: seq<Bytes>) returns (h: D)
    ensures h == Hash(core, Flat(pieces))
  {
    var ctx := new Context(core);
    for i := 0 to |pieces|
      invariant ctx.Holds(Flat(pieces[..i])) && ctx.core == core
      invariant fresh(ctx) && fresh(ctx.buff)
    {
      FlatSnoc(pieces, i);
      ctx.Update(Flat(pieces[..i]), pieces[i]);
    }
    assert pieces[..|pieces|] == pieces;
    h := ctx.Final(Flat(pieces));
  }

  // ---------------------------------------------------------------- Nothing of the message is lost

  /** A core that keeps all it is given, with the length it is told. */
  function Collector(): (core: Core<Bytes, (Bytes, Uint64)>) {
    Core([], (s: Bytes, b: HashBlock) => s + b, (s: Bytes, p: Pending, n: Uint64) => (s + p, n))
  }

  lemma {:induction false} CollectorAbsorbs(s: Bytes, data: Bytes)
    ensures |data| % HASH_BLOCK == 0 ==> Absorb(Collector(), s, data) == s + data
    decreases |data|
  {
    if |data| % HASH_BLOCK == 0 {
      if data == [] {
        assert s + data == s;
      } else {
        CollectorAbsorbs(s + data[..HASH_BLOCK], data[HASH_BLOCK..]);
        assert (s + data[..HASH_BLOCK]) + data[HASH_BLOCK..] == s + data;
      }
    }
  }

  /** What a core gets to see of a message is all of it, and its length modulo 2^64. */
  lemma HashSeesEverything(msg: Bytes)
    ensures Hash(Collector(), msg) == (msg, |msg| % TWO_64)
  {
    var n := FullLen(|msg|);
    CollectorAbsorbs([], msg[..n]);
    assert ([] + msg[..n]) + msg[n..] == msg;
  }

  function Flat(pieces: seq<Bytes>): (r: Bytes) {
    if pieces == [] then [] else Flat(pieces[..|pieces| - 1]) + pieces[|pieces| - 1]
  }

  lemma FlatSnoc(pieces: seq<Bytes>, i: nat)
    requires i < |pieces|
    ensures Flat(pieces[..i + 1]) == Flat(pieces[..i]) + pieces[i]
  {
    assert pieces[..i + 1][..i] == pieces[..i];
  }
}
