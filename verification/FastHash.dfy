/**
 The block function of the 256-bit hash of pcrc32c.c, with the register update done either by
 slicing tables or by the hardware instruction.
 */
module FastHash {
  import opened Bytes
  import opened Crc32c
  import opened StreamHash

  const K0: bv64 := 0xc3a5c85c97cb3127
  const K1: bv64 := 0xb492b66fbe98f273
  const K2: bv64 := 0x9ae16a3b2f90404f
  const MURMUR: bv64 := 0x9ddfea08eb382d69

  datatype State = State(a: bv64, b: bv64, c: bv64, d: bv64, x: bv64, y: bv64)

  // ---------------------------------------------------------------- The register inside the hash

  function LowHalf(u: bv64): (r: bv32) { (u & 0xffffffff) as bv32 }

  function MixIn(crc: bv64, u: bv64): (r: bv64) { crc ^ (u & 0xffffffff) }

  /** Byte j of a 64-bit word. */
  function Byte64(u: bv64, j: nat): (r: Byte)
    requires j < 8
  {
    if j == 0 then (u & 0xff) as bv8 else if j == 1 then ((u >> 8) & 0xff) as bv8
    else if j == 2 then ((u >> 16) & 0xff) as bv8 else if j == 3 then ((u >> 24) & 0xff) as bv8
    else if j == 4 then ((u >> 32) & 0xff) as bv8 else if j == 5 then ((u >> 40) & 0xff) as bv8
    else if j == 6 then ((u >> 48) & 0xff) as bv8 else (u >> 56) as bv8
  }

  function LeBytes(u: bv64): (r: Bytes)
    ensures |r| == 8
  {
    [Byte64(u, 0), Byte64(u, 1), Byte64(u, 2), Byte64(u, 3), Byte64(u, 4), Byte64(u, 5), Byte64(u, 6), Byte64(u, 7)]
  }

  function Index(u: bv64, j: nat): (r: bv32)
    requires j < 8
  {
    Wide(Byte64(u, j))
  }

  /** By table, on the 64-bit register as the code keeps it; only its low half is looked at. */
  function Crc64Sw(crc: bv64, u: bv64): (r: bv32) {
    var x := MixIn(crc, u);
    Plus(Sum4(Table(7, Index(x, 0)), Table(6, Index(x, 1)), Table(5, Index(x, 2)), Table(4, Index(x, 3))),
         Sum4(Table(3, Index(u, 4)), Table(2, Index(u, 5)), Table(1, Index(u, 6)), Table(0, Index(u, 7))))
  }

  /** By instruction: the low half of the register over the eight bytes. */
  function Crc64Hw(crc: bv64, u: bv64): (r: bv32) { HwWord(LowHalf(crc), LeBytes(u)) }

  lemma IndexIsByte(x: bv64, j: nat)
    requires j < 4
    ensures Index(x, j) == ByteOf(LowHalf(x), j)
  {
    if j == 0 {
      assert ((x & 0xff) as bv8) as bv32 == ((x & 0xffffffff) as bv32) & 0xff;
    } else if j == 1 {
      assert (((x >> 8) & 0xff) as bv8) as bv32 == (((x & 0xffffffff) as bv32) >> 8) & 0xff;
    } else if j == 2 {
      assert (((x >> 16) & 0xff) as bv8) as bv32 == (((x & 0xffffffff) as bv32) >> 16) & 0xff;
    } else {
      assert (((x >> 24) & 0xff) as bv8) as bv32 == ((x & 0xffffffff) as bv32) >> 24;
    }
  }

  lemma MixInLow(crc: bv64, u: bv64)
    ensures LowHalf(MixIn(crc, u)) == Plus(LowHalf(crc), LowHalf(u))
  {
  }

  lemma LowLoad(u: bv64)
    ensures Load32(LeBytes(u)) == LowHalf(u)
  {
    hide Byte64, ByteOf, Sum4, Up, Wide, LowHalf;
    var l := LowHalf(u);
    IndexIsByte(u, 0);
    IndexIsByte(u, 1);
    IndexIsByte(u, 2);
    IndexIsByte(u, 3);
    BytesOf(l);
  }

  /** The table form and the instruction agree, so both builds hash alike. */
  lemma Crc64Agree(crc: bv64, u: bv64)
    ensures Crc64Sw(crc, u) == Crc64Hw(crc, u)
  {
    hide Plus, Sum4, Table, ByteOf, Byte64, Wide, Load32, LowHalf, Crc, MixIn;
    var x := MixIn(crc, u);
    IndexIsByte(x, 0);
    IndexIsByte(x, 1);
    IndexIsByte(x, 2);
    IndexIsByte(x, 3);
    MixInLow(crc, u);
    LowLoad(u);
    Slice8IsCrc(LowHalf(crc), LeBytes(u));
  }

  // ---------------------------------------------------------------- The block function

  function Load64(d: Bytes): (r: bv64)
    requires |d| == 8
  {
    (d[0] as bv64) | ((d[1] as bv64) << 8) | ((d[2] as bv64) << 16) | ((d[3] as bv64) << 24)
    | ((d[4] as bv64) << 32) | ((d[5] as bv64) << 40) | ((d[6] as bv64) << 48) | ((d[7] as bv64) << 56)
  }

  function Words(block: HashBlock): (w: seq<bv64>)
    ensures |w| == 8
  {
    hide Load64;
    [Load64(block[..8]), Load64(block[8..16]), Load64(block[16..24]), Load64(block[24..32]),
     Load64(block[32..40]), Load64(block[40..48]), Load64(block[48..56]), Load64(block[56..])]
  }

  function Rotate(v: bv64, s: nat): (r: bv64)
    requires 0 < s < 64
  {
    (v >> s) | (v << (64 - s))
  }

  function ShiftMix(v: bv64): (r: bv64) { v ^ (v >> 47) }

  function HashMul(u: bv64, v: bv64): (r: bv64) {
    hide *;
    ShiftMix((ShiftMix((u ^ v) * MURMUR) ^ v) * MURMUR) * MURMUR
  }

  function Step(hw: bool, crc: bv64, u: bv64): (r: bv64) {
    hide *;
    (if hw then Crc64Hw(crc, u) else Crc64Sw(crc, u)) as bv64
  }

  function Round(hw: bool, s: State, w: seq<bv64>): (r: State)
    requires |w| == 8
  {
    hide *;
    var a, b, c, d := s.a + w[0], s.b + w[1], s.c + w[2], s.d + w[3];
    var b, d := b ^ Rotate(a, 21), d ^ Rotate(c, 17);
    var x, y := Step(hw, s.x, a + b), Step(hw, s.y, c + d);
    var a, b, c, d := a + w[4], b + w[5], c + w[6], d + w[7];
    var a, c := a ^ Rotate(b, 13), c ^ Rotate(d, 16);
    var x, y := Step(hw, x, a + b), Step(hw, y, c + d);
    State(d, a, b, c, y, x)
  }

  function TablePair(i: bv32): (r: bv64) {
    hide *;
    (Table(0, i) as bv64) | ((Table(0, i + 1) as bv64) << 32)
  }

  /** The initial state is read out of the first slicing table. */
  function Initial(): (s: State) {
    hide *;
    State(TablePair(2), TablePair(4), TablePair(6), TablePair(8), TablePair(10), TablePair(12))
  }

  function PadByte(i: nat): (b: Byte)
    requires i < HASH_BLOCK
  {
    hide Table, ByteOf;
    var entry := Table(1, (2 + i / 4) as bv32);
    (ByteOf(entry, i % 4) & 0xff) as bv8
  }

  /** The padding is read out of the second slicing table. */
  function Pad(n: nat): (p: Bytes)
    requires n <= HASH_BLOCK
    ensures |p| == n
  {
    hide *;
    seq(n, i requires 0 <= i < n => PadByte(i))
  }

  /** The length is worked into the first four words of the last block. */
  function Tweak(w: seq<bv64>, len: bv64): (r: seq<bv64>)
    requires |w| == 8
    ensures |r| == 8
  {
    hide HashMul;
    w[0 := w[0] + len * K0][1 := w[1] ^ HashMul(len, K0)][2 := w[2] ^ (len * K1)][3 := w[3] - len * K2]
  }

  function Mix(s: State): (h: seq<bv64>)
    ensures |h| == 4
  {
    hide *;
    var d := s.d ^ Rotate(s.a, 43);
    var a := s.a + Rotate(s.b, 42);
    var b := s.b ^ Rotate(s.c, 41);
    var c := s.c + Rotate(d, 40);
    var a := HashMul(a, s.x + b);
    var b := HashMul(b, s.y + c);
    var c := HashMul(c, s.x + d);
    var d := HashMul(d, s.y + a);
    [a + b + s.y + s.x,
     ShiftMix((a + s.x) * K0) * K0 + b,
     ShiftMix((c ^ s.y) * K1) * K1 + d,
     ShiftMix((s.x - s.y) * K2) * K2 + (c ^ d)]
  }

  function LastWords(pending: Pending, length: Uint64): (w: seq<bv64>)
    ensures |w| == 8
  {
    hide Words, Pad, Tweak;
    Tweak(Words(pending + Pad(HASH_BLOCK - |pending|)), length as bv64)
  }

  function Finish(hw: bool, s: State, pending: Pending, length: Uint64): (h: seq<bv64>)
    ensures |h| == 4
  {
    hide *;
    Mix(Round(hw, s, LastWords(pending, length)))
  }

  function FastCore(hw: bool): (core: Core<State, seq<bv64>>) {
    hide *;
    Core(Initial(), (s, block) => Round(hw, s, Words(block)), (s, pending, length) => Finish(hw, s, pending, length))
  }

  // ---------------------------------------------------------------- Both builds agree

  lemma StepAgrees(crc: bv64, u: bv64)
    ensures Step(true, crc, u) == Step(false, crc, u)
  {
    hide Crc64Hw, Crc64Sw;
    Crc64Agree(crc, u);
  }

  lemma RoundAgrees(s: State, w: seq<bv64>)
    requires |w| == 8
    ensures Round(true, s, w) == Round(false, s, w)
  {
    hide Step, Rotate;
    forall crc, u ensures Step(true, crc, u) == Step(false, crc, u) {
      StepAgrees(crc, u);
    }
  }

  lemma FinishAgrees(s: State, pending: Pending, length: Uint64)
    ensures Finish(true, s, pending, length) == Finish(false, s, pending, length)
  {
    hide Round, Mix, LastWords;
    RoundAgrees(s, LastWords(pending, length));
  }

  lemma {:induction false} AbsorbAgrees(s: State, data: Bytes)
    requires |data| % HASH_BLOCK == 0
    ensures Absorb(FastCore(true), s, data) == Absorb(FastCore(false), s, data)
    decreases |data|
  {
    hide Round, Finish, Words, Initial;
    if data != [] {
      RoundAgrees(s, Words(data[..HASH_BLOCK]));
      AbsorbAgrees(Round(true, s, Words(data[..HASH_BLOCK])), data[HASH_BLOCK..]);
    }
  }

  /** The hash does not depend on whether the instruction or the tables are used. */
  lemma BuildsAgree(msg: Bytes)
    ensures Hash(FastCore(true), msg) == Hash(FastCore(false), msg)
  {
    hide Round, Finish, Words, Initial, Absorb;
    var n := FullLen(|msg|);
    AbsorbAgrees(Initial(), msg[..n]);
    FinishAgrees(Absorb(FastCore(true), Initial(), msg[..n]), msg[n..], |msg| % TWO_64);
  }
}
