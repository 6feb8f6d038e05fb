/**
 CRC32C of pcrc32c.c. The reference is the bit-by-bit register of the reversed polynomial of
 section 12.1 of RFC 3720, without initial or final inversion. Table entries are defined by what
 they mean: entry i of slicing table j is the register after byte i and j zero bytes, and entry i
 of chunk table j is the register i << 8j after 1360 zero bytes.
 */
module Crc32c {
  import opened Bytes

  const POLY: bv32 := 0x82F63B78
  const CHUNK: nat := 1360

  // ---------------------------------------------------------------- Reference

  function Bit(c: bv32): (r: bv32) {
    if c & 1 == 1 then (c >> 1) ^ POLY else c >> 1
  }

  function Times<T>(f: T -> T, n: nat, c: T): (r: T)
    decreases n
  {
    if n == 0 then c else Times(f, n - 1, f(c))
  }

  /** The register after one zero byte. */
  function Zero(c: bv32): (r: bv32) {
    Times(Bit, 8, c)
  }

  /** The register after n zero bytes. */
  function ZeroN(c: bv32, n: nat): (r: bv32) {
    Times(Zero, n, c)
  }

  /** Addition over GF(2). */
  function Plus(a: bv32, b: bv32): (r: bv32) { a ^ b }

  function Wide(b: Byte): (r: bv32) { b as bv32 }

  function Feed(c: bv32, b: Byte): (r: bv32) {
    Zero(Plus(c, Wide(b)))
  }

  function Crc(c: bv32, s: Bytes): (r: bv32)
    decreases |s|
  {
    if s == [] then c else Crc(Feed(c, s[0]), s[1..])
  }

  // ---------------------------------------------------------------- Linearity over GF(2)

  ghost predicate PreservesAt<T>(f: T -> T, plus: (T, T) -> T, a: T, b: T) {
    f(plus(a, b)) == plus(f(a), f(b))
  }

  ghost predicate Preserves<T(!new)>(f: T -> T, plus: (T, T) -> T) {
    forall a, b :: PreservesAt(f, plus, a, b)
  }

  ghost predicate Linear(f: bv32 -> bv32) { Preserves(f, Plus) }

  lemma LowBit(a: bv32, b: bv32)
    ensures (a ^ b) & 1 == (a & 1) ^ (b & 1)
    ensures a & 1 == 0 || a & 1 == 1
  {
  }

  /** What a step adds to the shifted register. */
  function Feedback(c: bv32): (r: bv32) {
    if c & 1 == 1 then POLY else 0
  }

  function Half(c: bv32): (r: bv32) { c >> 1 }

  lemma BitHalvesAndAdds(c: bv32)
    ensures Bit(c) == Plus(Half(c), Feedback(c))
  {
    assert (c >> 1) ^ 0 == c >> 1;
  }

  lemma HalfPlus(a: bv32, b: bv32)
    ensures Half(Plus(a, b)) == Plus(Half(a), Half(b))
  {
  }

  lemma FeedbackPlus(a: bv32, b: bv32)
    ensures Feedback(Plus(a, b)) == Plus(Feedback(a), Feedback(b))
  {
    LowBit(a, b);
    assert POLY ^ POLY == 0 && POLY ^ 0 == POLY && 0 ^ POLY == POLY;
  }

  lemma BitPlus(a: bv32, b: bv32)
    ensures Bit(Plus(a, b)) == Plus(Bit(a), Bit(b))
  {
    hide Bit, Half, Feedback, Plus;
    BitHalvesAndAdds(a);
    BitHalvesAndAdds(b);
    BitHalvesAndAdds(Plus(a, b));
    FeedbackPlus(a, b);
    HalfPlus(a, b);
    Swap(Half(a), Half(b), Feedback(a), Feedback(b));
  }

  lemma PreservesIntro(f: bv32 -> bv32, plus: (bv32, bv32) -> bv32, a: bv32, b: bv32,
                       fa: bv32, fb: bv32, ab: bv32, fab: bv32)
    requires f(a) == fa && f(b) == fb && plus(a, b) == ab && f(ab) == fab && plus(fa, fb) == fab
    ensures PreservesAt(f, plus, a, b)
  {
  }

  lemma BitPreserves(a: bv32, b: bv32)
    ensures PreservesAt(Bit, Plus, a, b)
  {
    BitPlus(a, b);
    PreservesIntro(Bit, Plus, a, b, Bit(a), Bit(b), Plus(a, b), Bit(Plus(a, b)));
  }

  lemma BitLinear()
    ensures Linear(Bit)
  {
    forall a, b ensures PreservesAt(Bit, Plus, a, b) {
      BitPreserves(a, b);
    }
  }

  lemma {:induction false} TimesPreserves<T(!new)>(f: T -> T, plus: (T, T) -> T, n: nat, a: T, b: T)
    requires Preserves(f, plus)
    ensures Times(f, n, plus(a, b)) == plus(Times(f, n, a), Times(f, n, b))
    decreases n
  {
    if n > 0 {
      assert PreservesAt(f, plus, a, b);
      TimesPreserves(f, plus, n - 1, f(a), f(b));
    }
  }

  lemma ZeroLinear()
    ensures Linear(Zero)
  {
    BitLinear();
    forall a, b ensures PreservesAt(Zero, Plus, a, b) {
      TimesPreserves(Bit, Plus, 8, a, b);
    }
  }

  lemma ZeroNLinear(a: bv32, b: bv32, n: nat)
    ensures ZeroN(Plus(a, b), n) == Plus(ZeroN(a, n), ZeroN(b, n))
  {
    ZeroLinear();
    TimesPreserves(Zero, Plus, n, a, b);
  }

  lemma {:induction false} TimesAdd<T>(f: T -> T, m: nat, n: nat, c: T)
    ensures Times(f, m + n, c) == Times(f, n, Times(f, m, c))
    decreases m
  {
    if m > 0 {
      TimesAdd(f, m - 1, n, f(c));
    }
  }

  function Low(c: bv32): (r: bv32) { c & 0xff }

  function High(c: bv32): (r: bv32) { c & 0xffffff00 }

  function Down(c: bv32): (r: bv32) { c >> 8 }

  /** A register whose low byte is clear only moves down under a zero byte. */
  lemma ZeroShifts(x: bv32)
    requires Low(x) == 0
    ensures Zero(x) == Down(x)
  {
    EvenSteps(x, 8);
    ShiftAll(x);
  }

  /** n bits of a register whose low n bits are clear. */
  lemma {:induction false} EvenSteps(x: bv32, n: nat)
    requires n <= 8 && LowClear(x, n)
    ensures Times(Bit, n, x) == Shifted(x, n)
    decreases n
  {
    if n > 0 {
      EvenSteps(Bit(x), n - 1);
    }
  }

  predicate LowClear(x: bv32, n: nat) decreases n { n == 0 || (x & 1 == 0 && LowClear(x >> 1, n - 1)) }

  function Shifted(x: bv32, n: nat): (r: bv32) decreases n { if n == 0 then x else Shifted(x >> 1, n - 1) }

  lemma ShiftAll(x: bv32)
    requires x & 0xff == 0
    ensures LowClear(x, 8) && Shifted(x, 8) == x >> 8
  {
  }

  // ---------------------------------------------------------------- Superposition

  lemma PlusLaws(a: bv32, b: bv32, c: bv32)
    ensures Plus(Plus(a, b), c) == Plus(a, Plus(b, c))
    ensures Plus(a, b) == Plus(b, a)
    ensures Plus(0, a) == a
  {
  }

  lemma FeedSplits(c: bv32, b: Byte)
    ensures Feed(c, b) == Plus(Zero(c), Feed(0, b))
  {
    hide Zero, Plus, Wide;
    ZeroLinear();
    assert PreservesAt(Zero, Plus, c, Wide(b));
    PlusLaws(Wide(b), 0, 0);
  }

  /** The start value and the data contribute separately. */
  lemma {:induction false} Superpose(c: bv32, s: Bytes)
    ensures Crc(c, s) == Plus(ZeroN(c, |s|), Crc(0, s))
    decreases |s|
  {
    if s == [] {
      PlusLaws(c, 0, 0);
    } else {
      var b, t := s[0], s[1..];
      FeedSplits(c, b);
      Superpose(Feed(c, b), t);
      Superpose(Feed(0, b), t);
      ZeroNLinear(Zero(c), Feed(0, b), |t|);
      PlusLaws(ZeroN(Zero(c), |t|), ZeroN(Feed(0, b), |t|), Crc(0, t));
    }
  }

  lemma {:induction false} CrcConcat(c: bv32, s: Bytes, t: Bytes)
    ensures Crc(c, s + t) == Crc(Crc(c, s), t)
    decreases |s|
  {
    if s == [] {
      assert s + t == t;
    } else {
      CrcConcat(Feed(c, s[0]), s[1..], t);
      assert (s + t)[1..] == s[1..] + t;
    }
  }

  lemma CrcExtends(c: bv32, s: Bytes, m: nat, n: nat)
    requires m <= n <= |s|
    ensures Crc(c, s[..n]) == Crc(Crc(c, s[..m]), s[m..n])
  {
    hide Crc;
    CrcConcat(c, s[..m], s[m..n]);
    assert s[..m] + s[m..n] == s[..n];
  }

  // ---------------------------------------------------------------- The tables

  /** Entry i of slicing table j. */
  function Table(j: nat, i: bv32): (r: bv32) { ZeroN(i, j + 1) }

  predicate IsByte(b: bv32) { b & 0xffffff00 == 0 }

  /** A byte placed j bytes up in the register. */
  function Up(b: bv32, j: nat): (r: bv32)
    requires j < 4
  {
    if j == 0 then b else if j == 1 then b << 8 else if j == 2 then b << 16 else b << 24
  }

  /** Byte j of the register. */
  function ByteOf(c: bv32, j: nat): (r: bv32)
    requires j < 4
  {
    if j == 0 then c & 0xff else if j == 1 then (c >> 8) & 0xff
    else if j == 2 then (c >> 16) & 0xff else c >> 24
  }

  /** Entry i of chunk table j. */
  function ChunkTable(j: nat, i: bv32): (r: bv32)
    requires j < 4
  {
    ZeroN(Up(i, j), CHUNK)
  }

  function Sum4(a: bv32, b: bv32, c: bv32, d: bv32): (r: bv32) {
    Plus(Plus(Plus(a, b), c), d)
  }

  lemma BytesOf(c: bv32)
    ensures Sum4(ByteOf(c, 0), Up(ByteOf(c, 1), 1), Up(ByteOf(c, 2), 2), Up(ByteOf(c, 3), 3)) == c
    ensures forall j | 0 <= j < 4 :: IsByte(ByteOf(c, j))
  {
    assert (((c & 0xff) ^ (((c >> 8) & 0xff) << 8)) ^ (((c >> 16) & 0xff) << 16)) ^ ((c >> 24) << 24) == c;
  }

  lemma ZeroN4(a: bv32, b: bv32, c: bv32, d: bv32, n: nat)
    ensures ZeroN(Sum4(a, b, c, d), n) == Sum4(ZeroN(a, n), ZeroN(b, n), ZeroN(c, n), ZeroN(d, n))
  {
    ZeroNLinear(Plus(Plus(a, b), c), d, n);
    ZeroNLinear(Plus(a, b), c, n);
    ZeroNLinear(a, b, n);
  }

  lemma UpShift(b: bv32, j: nat)
    requires 0 < j < 4 && IsByte(b)
    ensures Low(Up(b, j)) == 0 && Down(Up(b, j)) == Up(b, j - 1)
  {
    if j == 1 {
      assert (b << 8) & 0xff == 0 && (b << 8) >> 8 == b;
    } else if j == 2 {
      assert (b << 16) & 0xff == 0 && (b << 16) >> 8 == b << 8;
    } else {
      assert (b << 24) & 0xff == 0 && (b << 24) >> 8 == b << 16;
    }
  }

  lemma ZeroUp(b: bv32, j: nat)
    requires 0 < j < 4 && IsByte(b)
    ensures Zero(Up(b, j)) == Up(b, j - 1)
  {
    UpShift(b, j);
    ZeroShifts(Up(b, j));
  }

  lemma ZeroNStep(c: bv32, n: nat)
    requires n > 0
    ensures ZeroN(c, n) == ZeroN(Zero(c), n - 1)
  {
  }

  /** A byte placed j bytes up needs j zero bytes to come down. */
  lemma {:induction false} PlacedByte(b: bv32, j: nat, n: nat)
    requires j < 4 && j <= n && IsByte(b)
    ensures ZeroN(Up(b, j), n) == ZeroN(b, n - j)
    decreases j
  {
    if j > 0 {
      ZeroUp(b, j);
      ZeroNStep(Up(b, j), n);
      PlacedByte(b, j - 1, n - 1);
    }
  }

  lemma ZeroNByBytes(c: bv32, n: nat)
    requires n >= 3
    ensures ZeroN(c, n) == Sum4(ZeroN(ByteOf(c, 0), n), ZeroN(ByteOf(c, 1), n - 1),
                                ZeroN(ByteOf(c, 2), n - 2), ZeroN(ByteOf(c, 3), n - 3))
  {
    hide Plus, ZeroN, ByteOf, Up;
    var b0, b1, b2, b3 := ByteOf(c, 0), ByteOf(c, 1), ByteOf(c, 2), ByteOf(c, 3);
    BytesOf(c);
    ZeroN4(b0, Up(b1, 1), Up(b2, 2), Up(b3, 3), n);
    PlacedByte(b1, 1, n);
    PlacedByte(b2, 2, n);
    PlacedByte(b3, 3, n);
  }

  // ---------------------------------------------------------------- The fast forms

  /** One table lookup per byte. */
  function Slice1(c: bv32, b: Byte): (r: bv32) {
    Plus(Table(0, Low(Plus(c, Wide(b)))), Down(c))
  }

  lemma LowAndHigh(x: bv32)
    ensures Plus(Low(x), High(x)) == x
  {
  }

  lemma HighIsClear(x: bv32)
    ensures Low(High(x)) == 0
  {
  }

  lemma ByteDropsOut(c: bv32, b: Byte)
    ensures Down(High(Plus(c, Wide(b)))) == Down(c)
  {
  }

  lemma ZeroSplits(a: bv32, b: bv32)
    ensures Zero(Plus(a, b)) == Plus(Zero(a), Zero(b))
  {
    ZeroLinear();
    hide Zero, Plus;
    assert PreservesAt(Zero, Plus, a, b);
  }

  lemma ZeroN1(c: bv32)
    ensures ZeroN(c, 1) == Zero(c)
  {
    ZeroNStep(c, 1);
    hide Zero;
  }

  /** A register split into a low byte and a part that shifts to `shifted`. */
  lemma ZeroOfSplit(x: bv32, low: bv32, high: bv32, shifted: bv32)
    requires Plus(low, high) == x && Zero(high) == shifted
    ensures Zero(x) == Plus(Table(0, low), shifted)
  {
    hide Zero, ZeroN, Plus;
    ZeroSplits(low, high);
    ZeroN1(low);
  }

  lemma Slice1IsFeed(c: bv32, b: Byte)
    ensures Slice1(c, b) == Feed(c, b)
  {
    hide Zero, Table, Plus, Wide, Low, High, Down;
    var x := Plus(c, Wide(b));
    LowAndHigh(x);
    HighIsClear(x);
    ZeroShifts(High(x));
    ByteDropsOut(c, b);
    ZeroOfSplit(x, Low(x), High(x), Down(c));
  }

  /** The little-endian word at the start of a string. */
  function Load32(d: Bytes): (w: bv32)
    requires |d| >= 4
  {
    Sum4(Wide(d[0]), Up(Wide(d[1]), 1), Up(Wide(d[2]), 2), Up(Wide(d[3]), 3))
  }

  /** Eight table lookups for eight bytes. */
  function Slice8(c: bv32, d: Bytes): (r: bv32)
    requires |d| == 8
  {
    var x := Plus(c, Load32(d));
    Plus(Sum4(Table(7, ByteOf(x, 0)), Table(6, ByteOf(x, 1)), Table(5, ByteOf(x, 2)), Table(4, ByteOf(x, 3))),
         Sum4(Table(3, Wide(d[4])), Table(2, Wide(d[5])), Table(1, Wide(d[6])), Table(0, Wide(d[7]))))
  }

  lemma DataSplits(s: Bytes)
    requires s != []
    ensures Crc(0, s) == Plus(Table(|s| - 1, Wide(s[0])), Crc(0, s[1..]))
  {
    hide Zero, Plus, Wide, ZeroN;
    var b := Wide(s[0]);
    PlusLaws(b, 0, 0);
    Superpose(Feed(0, s[0]), s[1..]);
    ZeroNStep(b, |s|);
  }

  lemma ByteLinear(a: bv32, b: bv32, j: nat)
    requires j < 4
    ensures ByteOf(Plus(a, b), j) == Plus(ByteOf(a, j), ByteOf(b, j))
  {
    if j == 0 {
      assert (a ^ b) & 0xff == (a & 0xff) ^ (b & 0xff);
    } else if j == 1 {
      assert ((a ^ b) >> 8) & 0xff == ((a >> 8) & 0xff) ^ ((b >> 8) & 0xff);
    } else if j == 2 {
      assert ((a ^ b) >> 16) & 0xff == ((a >> 16) & 0xff) ^ ((b >> 16) & 0xff);
    } else {
      assert (a ^ b) >> 24 == (a >> 24) ^ (b >> 24);
    }
  }

  lemma ByteOfUp(d: Byte, i: nat, j: nat)
    requires i < 4 && j < 4
    ensures ByteOf(Up(Wide(d), i), j) == if i == j then Wide(d) else 0
  {
  }

  lemma ByteOfPlain(d: Byte, j: nat)
    requires j < 4
    ensures ByteOf(Wide(d), j) == if j == 0 then Wide(d) else 0
  {
    ByteOfUp(d, 0, j);
  }

  lemma ByteOfSum(c: bv32, a: bv32, b: bv32, d: bv32, e: bv32, j: nat)
    requires j < 4
    ensures ByteOf(Plus(c, Sum4(a, b, d, e)), j)
         == Plus(ByteOf(c, j), Sum4(ByteOf(a, j), ByteOf(b, j), ByteOf(d, j), ByteOf(e, j)))
  {
    hide Plus, ByteOf;
    ByteLinear(c, Sum4(a, b, d, e), j);
    ByteLinear(Plus(Plus(a, b), d), e, j);
    ByteLinear(Plus(a, b), d, j);
    ByteLinear(a, b, j);
  }

  lemma Sum4Single(x: bv32)
    ensures Sum4(x, 0, 0, 0) == x && Sum4(0, x, 0, 0) == x && Sum4(0, 0, x, 0) == x && Sum4(0, 0, 0, x) == x
  {
    hide Plus;
    PlusLaws(x, 0, 0);
    PlusLaws(0, x, 0);
    PlusLaws(0, 0, 0);
  }

  lemma LoadedByte(c: bv32, d: Bytes, j: nat)
    requires |d| >= 4 && j < 4
    ensures ByteOf(Plus(c, Load32(d)), j) == Plus(ByteOf(c, j), Wide(d[j]))
  {
    hide Plus, ByteOf, Up, Sum4, Wide;
    ByteOfSum(c, Wide(d[0]), Up(Wide(d[1]), 1), Up(Wide(d[2]), 2), Up(Wide(d[3]), 3), j);
    ByteOfPlain(d[0], j);
    ByteOfUp(d[1], 1, j);
    ByteOfUp(d[2], 2, j);
    ByteOfUp(d[3], 3, j);
    Sum4Single(Wide(d[j]));
  }

  lemma EightBytes(d: Bytes)
    requires |d| == 8
    ensures Crc(0, d) == Plus(Sum4(Table(7, Wide(d[0])), Table(6, Wide(d[1])), Table(5, Wide(d[2])), Table(4, Wide(d[3]))),
                              Sum4(Table(3, Wide(d[4])), Table(2, Wide(d[5])), Table(1, Wide(d[6])), Table(0, Wide(d[7]))))
  {
    hide Plus, Zero, ZeroN, ByteOf, Up, Wide;
    var d1, d2, d3, d4 := d[1..], d[2..], d[3..], d[4..];
    var d5, d6, d7, d8 := d[5..], d[6..], d[7..], d[8..];
    DataSplits(d); DataSplits(d1); DataSplits(d2); DataSplits(d3);
    assert d1[1..] == d2 && d2[1..] == d3 && d3[1..] == d4;
    FourBytes(d4);
    Regroup(Table(7, Wide(d[0])), Table(6, Wide(d[1])), Table(5, Wide(d[2])), Table(4, Wide(d[3])), Crc(0, d4));
  }

  lemma FourBytes(d: Bytes)
    requires |d| == 4
    ensures Crc(0, d) == Sum4(Table(3, Wide(d[0])), Table(2, Wide(d[1])), Table(1, Wide(d[2])), Table(0, Wide(d[3])))
  {
    hide Plus, Zero, ZeroN, ByteOf, Up, Wide;
    var d1, d2, d3, d4 := d[1..], d[2..], d[3..], d[4..];
    DataSplits(d); DataSplits(d1); DataSplits(d2); DataSplits(d3);
    assert d1[1..] == d2 && d2[1..] == d3 && d3[1..] == d4 == [];
    Regroup(Table(3, Wide(d[0])), Table(2, Wide(d[1])), Table(1, Wide(d[2])), Table(0, Wide(d[3])), 0);
    PlusLaws(Sum4(Table(3, Wide(d[0])), Table(2, Wide(d[1])), Table(1, Wide(d[2])), Table(0, Wide(d[3]))), 0, 0);
  }

  lemma Regroup(a: bv32, b: bv32, c: bv32, d: bv32, e: bv32)
    ensures Plus(a, Plus(b, Plus(c, Plus(d, e)))) == Plus(Sum4(a, b, c, d), e)
  {
    hide Plus;
    PlusLaws(Plus(Plus(a, b), c), d, e);
    PlusLaws(Plus(a, b), c, Plus(d, e));
    PlusLaws(a, b, Plus(c, Plus(d, e)));
  }

  lemma Swap(a: bv32, b: bv32, c: bv32, d: bv32)
    ensures Plus(Plus(a, b), Plus(c, d)) == Plus(Plus(a, c), Plus(b, d))
  {
    hide Plus;
    PlusLaws(a, b, Plus(c, d));
    PlusLaws(b, c, d);
    PlusLaws(c, b, d);
    PlusLaws(a, c, Plus(b, d));
  }

  lemma Sum4Plus(a: bv32, b: bv32, c: bv32, d: bv32, w: bv32, x: bv32, y: bv32, z: bv32)
    ensures Sum4(Plus(a, w), Plus(b, x), Plus(c, y), Plus(d, z)) == Plus(Sum4(a, b, c, d), Sum4(w, x, y, z))
  {
    hide Plus;
    Swap(a, w, b, x);
    Swap(Plus(a, b), Plus(w, x), c, y);
    Swap(Plus(Plus(a, b), c), Plus(Plus(w, x), y), d, z);
  }

  lemma Slice8IsCrc(c: bv32, d: Bytes)
    requires |d| == 8
    ensures Slice8(c, d) == Crc(c, d)
  {
    hide Plus, Zero, ZeroN, ByteOf, Up, Wide, Crc;
    var c0, c1, c2, c3 := ByteOf(c, 0), ByteOf(c, 1), ByteOf(c, 2), ByteOf(c, 3);
    var d0, d1, d2, d3 := Wide(d[0]), Wide(d[1]), Wide(d[2]), Wide(d[3]);
    LoadedByte(c, d, 0);
    LoadedByte(c, d, 1);
    LoadedByte(c, d, 2);
    LoadedByte(c, d, 3);
    ZeroNLinear(c0, d0, 8);
    ZeroNLinear(c1, d1, 7);
    ZeroNLinear(c2, d2, 6);
    ZeroNLinear(c3, d3, 5);
    Sum4Plus(Table(7, c0), Table(6, c1), Table(5, c2), Table(4, c3), Table(7, d0), Table(6, d1), Table(5, d2), Table(4, d3));
    ZeroNByBytes(c, 8);
    EightBytes(d);
    Superpose(c, d);
    PlusLaws(ZeroN(c, 8), Sum4(Table(7, d0), Table(6, d1), Table(5, d2), Table(4, d3)),
             Sum4(Table(3, Wide(d[4])), Table(2, Wide(d[5])), Table(1, Wide(d[6])), Table(0, Wide(d[7]))));
  }

  /** crc32c_shift_chunk: four lookups that skip 1360 zero bytes. */
  function ShiftChunk(c: bv32): (r: bv32) {
    Sum4(ChunkTable(0, ByteOf(c, 0)), ChunkTable(1, ByteOf(c, 1)), ChunkTable(2, ByteOf(c, 2)), ChunkTable(3, ByteOf(c, 3)))
  }

  lemma ShiftChunkIsZeros(c: bv32)
    ensures ShiftChunk(c) == ZeroN(c, CHUNK)
  {
    hide Plus, ZeroN, ByteOf;
    BytesOf(c);
    ZeroN4(ByteOf(c, 0), Up(ByteOf(c, 1), 1), Up(ByteOf(c, 2), 2), Up(ByteOf(c, 3), 3), CHUNK);
  }

  /** Two registers, one over a chunk and one over the next chunk from zero, combine by a shift. */
  lemma ChunksCombine(c: bv32, a: Bytes, b: Bytes)
    requires |b| == CHUNK
    ensures Plus(ShiftChunk(Crc(c, a)), Crc(0, b)) == Crc(c, a + b)
  {
    hide Plus, ZeroN, Crc, ShiftChunk;
    ShiftChunkIsZeros(Crc(c, a));
    Superpose(Crc(c, a), b);
    CrcConcat(c, a, b);
  }

  // ---------------------------------------------------------------- The loops

  /** Byte by byte, by table, from `pos` to `end`. */
  method SwBytes(c: bv32, data: Bytes, pos: nat, end: nat) returns (crc: bv32)
    requires pos <= end <= |data|
    ensures crc == Crc(c, data[pos..end])
  {
    hide Feed, Slice1;
    crc := c;
    var i := pos;
    while i < end
      invariant pos <= i <= end
      invariant crc == Crc(c, data[pos..i])
    {
      Slice1IsFeed(crc, data[i]);
      CrcExtends(c, data[pos..], i - pos, i - pos + 1);
      SubSlices(data, pos, i, i + 1);
      assert Crc(crc, [data[i]]) == Crc(Feed(crc, data[i]), []);
      crc := Slice1(crc, data[i]);
      i := i + 1;
    }
  }

  lemma SubSlices(s: Bytes, pos: nat, m: nat, n: nat)
    requires pos <= m <= n <= |s|
    ensures s[pos..][..m - pos] == s[pos..m] && s[pos..][..n - pos] == s[pos..n]
    ensures s[pos..][m - pos..n - pos] == s[m..n]
    ensures n == m + 1 ==> s[m..n] == [s[m]]
  {
  }

  lemma CrcEmpty(c: bv32, s: Bytes, pos: nat)
    requires pos <= |s|
    ensures Crc(c, s[pos..pos]) == c
  {
  }

  lemma CrcFrom(c: bv32, s: Bytes, pos: nat, m: nat, n: nat)
    requires pos <= m <= n <= |s|
    ensures Crc(Crc(c, s[pos..m]), s[m..n]) == Crc(c, s[pos..n])
  {
    hide Crc, Slice8, Plus, ShiftChunk;
    CrcExtends(c, s[pos..], m - pos, n - pos);
    SubSlices(s, pos, m, n);
  }

  /** The 64-byte unrolled body: eight slicing steps. */
  method Unrolled64(c: bv32, d: Bytes, pos: nat) returns (crc: bv32)
    requires pos + 64 <= |d|
    ensures crc == Crc(c, d[pos..pos + 64])
  {
    hide Crc, Slice8, Plus, ShiftChunk;
    crc := c;
    CrcEmpty(c, d, pos);
    for k := 0 to 8
      invariant crc == Crc(c, d[pos..pos + 8 * k])
    {
      var p := pos + 8 * k;
      Slice8IsCrc(crc, d[p..p + 8]);
      CrcFrom(c, d, pos, p, p + 8);
      crc := Slice8(crc, d[p..p + 8]);
    }
  }

  /** psync_crc32c_sw on a string that starts at address `addr`. */
  method CrcSw(c: bv32, data: Bytes, addr: nat) returns (crc: bv32)
    ensures crc == Crc(c, data)
  {
    hide Crc, Slice8, Plus, ShiftChunk;
    var lead := if addr % 4 == 0 then 0 else 4 - addr % 4;
    var pos := if lead <= |data| then lead else |data|;
    crc := SwBytes(c, data, 0, pos);
    while |data| - pos >= 64
      invariant 0 <= pos <= |data|
      invariant crc == Crc(c, data[0..pos])
    {
      var next := Unrolled64(crc, data, pos);
      CrcFrom(c, data, 0, pos, pos + 64);
      crc, pos := next, pos + 64;
    }
    while |data| - pos >= 8
      invariant 0 <= pos <= |data|
      invariant crc == Crc(c, data[0..pos])
    {
      Slice8IsCrc(crc, data[pos..pos + 8]);
      CrcFrom(c, data, 0, pos, pos + 8);
      crc, pos := Slice8(crc, data[pos..pos + 8]), pos + 8;
    }
    CrcFrom(c, data, 0, pos, |data|);
    crc := SwBytes(crc, data, pos, |data|);
    assert data[0..|data|] == data;
  }

  /** The hardware instruction: the register over the word's bytes, lowest first. */
  function HwWord(c: bv32, word: Bytes): (r: bv32) { Crc(c, word) }

  method HwBytes(c: bv32, data: Bytes, pos: nat, end: nat) returns (crc: bv32)
    requires pos <= end <= |data|
    ensures crc == Crc(c, data[pos..end])
  {
    hide Crc, Slice8, Plus, ShiftChunk;
    crc := c;
    CrcEmpty(c, data, pos);
    var i := pos;
    while i < end
      invariant pos <= i <= end
      invariant crc == Crc(c, data[pos..i])
    {
      CrcFrom(c, data, pos, i, i + 1);
      crc := HwWord(crc, data[i..i + 1]);
      i := i + 1;
    }
  }

  method HwWords(c: bv32, data: Bytes, pos: nat, word: nat) returns (crc: bv32, end: nat)
    requires 0 < word && pos <= |data|
    ensures pos <= end <= |data| && |data| - end < word
    ensures crc == Crc(c, data[pos..end])
  {
    hide Crc, Slice8, Plus, ShiftChunk;
    crc, end := c, pos;
    CrcEmpty(c, data, pos);
    while |data| - end >= 4 * word
      invariant pos <= end <= |data|
      invariant crc == Crc(c, data[pos..end])
      decreases |data| - end
    {
      CrcFrom(c, data, pos, end, end + word);
      crc, end := HwWord(crc, data[end..end + word]), end + word;
      CrcFrom(c, data, pos, end, end + word);
      crc, end := HwWord(crc, data[end..end + word]), end + word;
      CrcFrom(c, data, pos, end, end + word);
      crc, end := HwWord(crc, data[end..end + word]), end + word;
      CrcFrom(c, data, pos, end, end + word);
      crc, end := HwWord(crc, data[end..end + word]), end + word;
    }
    while |data| - end >= word
      invariant pos <= end <= |data|
      invariant crc == Crc(c, data[pos..end])
    {
      CrcFrom(c, data, pos, end, end + word);
      crc, end := HwWord(crc, data[end..end + word]), end + word;
    }
  }

  /** The register has gone over i bytes from pos on. */
  ghost predicate GoneOver(c: bv32, data: Bytes, pos: nat, i: nat, crc: bv32) {
    pos + i <= |data| && crc == Crc(c, data[pos..pos + i])
  }

  lemma GoneOverNothing(c: bv32, data: Bytes, pos: nat)
    requires pos <= |data|
    ensures GoneOver(c, data, pos, 0, c)
  {
    CrcEmpty(c, data, pos);
  }

  lemma HwStep(c: bv32, data: Bytes, pos: nat, i: nat, word: nat, crc: bv32)
    requires pos + i + word <= |data| && GoneOver(c, data, pos, i, crc)
    ensures GoneOver(c, data, pos, i + word, HwWord(crc, data[pos + i..pos + i + word]))
  {
    hide Crc;
    CrcFrom(c, data, pos, pos + i, pos + i + word);
  }

  lemma ThreeCombine(c: bv32, data: Bytes, pos: nat, crc0: bv32, crc1: bv32, crc2: bv32)
    requires pos + 3 * CHUNK <= |data| && GoneOver(c, data, pos, CHUNK, crc0)
    requires GoneOver(0, data, pos + CHUNK, CHUNK, crc1) && GoneOver(0, data, pos + 2 * CHUNK, CHUNK, crc2)
    ensures Plus(ShiftChunk(Plus(ShiftChunk(crc0), crc1)), crc2) == Crc(c, data[pos..pos + 3 * CHUNK])
  {
    hide Crc, Plus, ShiftChunk;
    var p1, p2, p3 := pos + CHUNK, pos + 2 * CHUNK, pos + 3 * CHUNK;
    ChunksCombine(c, data[pos..p1], data[p1..p2]);
    assert data[pos..p1] + data[p1..p2] == data[pos..p2];
    ChunksCombine(c, data[pos..p2], data[p2..p3]);
    assert data[pos..p2] + data[p2..p3] == data[pos..p3];
  }

  /** Three chunks at once, each on its own register, then combined by two shifts. */
  method ThreeChunks(c: bv32, data: Bytes, pos: nat, word: nat) returns (crc: bv32)
    requires (word == 4 || word == 8) && pos + 3 * CHUNK <= |data|
    ensures crc == Crc(c, data[pos..pos + 3 * CHUNK])
  {
    hide Crc, HwWord, Plus, ShiftChunk, GoneOver;
    ghost var p1, p2 := pos + CHUNK, pos + 2 * CHUNK;
    var crc0, crc1, crc2 := c, 0, 0;
    GoneOverNothing(c, data, pos);
    GoneOverNothing(0, data, p1);
    GoneOverNothing(0, data, p2);
    var i := 0;
    while i < CHUNK
      invariant 0 <= i <= CHUNK && i % 4 == 0 && (word == 8 ==> i % 8 == 0)
      invariant GoneOver(c, data, pos, i, crc0) && GoneOver(0, data, p1, i, crc1) && GoneOver(0, data, p2, i, crc2)
    {
      HwStep(c, data, pos, i, word, crc0);
      HwStep(0, data, p1, i, word, crc1);
      HwStep(0, data, p2, i, word, crc2);
      crc0 := HwWord(crc0, data[pos + i..pos + i + word]);
      crc1 := HwWord(crc1, data[pos + CHUNK + i..pos + CHUNK + i + word]);
      crc2 := HwWord(crc2, data[pos + 2 * CHUNK + i..pos + 2 * CHUNK + i + word]);
      i := i + word;
    }
    ThreeCombine(c, data, pos, crc0, crc1, crc2);
    crc0 := Plus(ShiftChunk(crc0), crc1);
    crc := Plus(ShiftChunk(crc0), crc2);
  }

  /** psync_crc32c_hw with machine words of 4 or 8 bytes. */
  method CrcHw(c: bv32, data: Bytes, addr: nat, word: nat) returns (crc: bv32)
    requires word == 4 || word == 8
    ensures crc == Crc(c, data)
  {
    hide Crc, Slice8, Plus, ShiftChunk;
    var lead := if addr % word == 0 then 0 else word - addr % word;
    var pos := if lead <= |data| then lead else |data|;
    crc := HwBytes(c, data, 0, pos);
    while |data| - pos >= 3 * CHUNK
      invariant 0 <= pos <= |data|
      invariant crc == Crc(c, data[0..pos])
    {
      var next := ThreeChunks(crc, data, pos, word);
      CrcFrom(c, data, 0, pos, pos + 3 * CHUNK);
      crc, pos := next, pos + 3 * CHUNK;
    }
    var end;
    ghost var before := crc;
    crc, end := HwWords(crc, data, pos, word);
    CrcFrom(c, data, 0, pos, end);
    CrcFrom(c, data, 0, end, |data|);
    crc := HwBytes(crc, data, end, |data|);
    assert data[0..|data|] == data;
  }
}
