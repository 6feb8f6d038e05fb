/**
 CRC32C as a remainder. Polynomials over GF(2) are lists of coefficients, the highest first, and are
 divided as one does by hand; the divisor is written by its exponents. Only here does it matter which
 polynomial the register steps of Crc32c stand for.
 */
module CrcPolynomial {
  import opened Bytes
  import opened Crc32c

  type Poly = seq<bool>

  /** The exponents of the generator polynomial in section 12.1 of RFC 3720. */
  const EXPONENTS: set<nat> := {32, 28, 27, 26, 25, 23, 22, 20, 19, 18, 14, 13, 11, 10, 9, 8, 6, 0}

  const DEGREE: nat := 32

  function Generator(): (g: Poly)
    ensures |g| == DEGREE + 1
  {
    seq(DEGREE + 1, i requires 0 <= i <= DEGREE => DEGREE - i in EXPONENTS)
  }

  function Nil(n: nat): (z: Poly)
    ensures |z| == n
  {
    seq(n, _ => false)
  }

  /** Addition of coefficients, which is subtraction as well. */
  function Add(a: Poly, b: Poly): (r: Poly)
    requires |a| == |b|
    ensures |r| == |a|
  {
    seq(|a|, i requires 0 <= i < |a| => a[i] != b[i])
  }

  /** One line of a long division: subtract the divisor where the dividend's first coefficient is 1, then drop it. */
  function Line(d: Poly, g: Poly): (r: Poly)
    requires 0 < |g| <= |d|
    ensures |r| == |d| - 1
  {
    (if d[0] then Add(d, g + Nil(|d| - |g|)) else d)[1..]
  }

  function Remainder(d: Poly, g: Poly): (r: Poly)
    requires 0 < |g|
    ensures |r| == if |d| < |g| then |d| else |g| - 1
    decreases |d|
  {
    if |d| < |g| then d else Remainder(Line(d, g), g)
  }

  function Quotient(d: Poly, g: Poly): (q: Poly)
    requires 0 < |g|
    ensures |q| == if |d| < |g| then 0 else |d| - |g| + 1
    decreases |d|
  {
    if |d| < |g| then [] else [d[0]] + Quotient(Line(d, g), g)
  }

  function Product(q: Poly, g: Poly): (r: Poly)
    requires 0 < |g|
    ensures |r| == |q| + |g| - 1
  {
    if q == [] then Nil(|g| - 1)
    else Add((if q[0] then g else Nil(|g|)) + Nil(|q| - 1), [false] + Product(q[1..], g))
  }

  /** Long division is division: dividend = quotient * divisor + remainder, and the remainder is shorter than the divisor. */
  lemma {:induction false} DivisionIdentity(d: Poly, g: Poly)
    requires 0 < |g| <= |d| && g[0]
    ensures d == Add(Product(Quotient(d, g), g), Nil(|d| - |g| + 1) + Remainder(d, g))
    decreases |d|
  {
    hide Add, Line, Nil, Quotient, Remainder;
    var q, r := Quotient(d, g), Remainder(d, g);
    var e := Line(d, g);
    var head := (if d[0] then g else Nil(|g|)) + Nil(|q| - 1);
    LineUndone(d, g, head);
    LinesBelow(d, g);
    var below := Product(Quotient(e, g), g);
    if |g| < |d| {
      DivisionIdentity(e, g);
      AddCons(false, below, false, Nil(|d| - |g|) + r);
    } else {
      AddNil(e);
      NilCons(0);
      assert [] + r == r;
      AddCons(false, below, false, r);
    }
    NilCons(|d| - |g|);
    assert Nil(|d| - |g| + 1) + r == [false] + (Nil(|d| - |g|) + r);
    assert [false] + e == Add([false] + below, Nil(|d| - |g| + 1) + r);
    AddAssoc(head, [false] + below, Nil(|d| - |g| + 1) + r);
  }

  lemma LinesBelow(d: Poly, g: Poly)
    requires 0 < |g| <= |d|
    ensures var e, q := Line(d, g), Quotient(d, g);
            && q == [d[0]] + Quotient(e, g) && q[1..] == Quotient(e, g) && Remainder(d, g) == Remainder(e, g)
            && |e| >= |g| - 1 && (|d| == |g| ==> Quotient(e, g) == [] && Product([], g) == Nil(|g| - 1) && Remainder(e, g) == e)
  {
  }

  lemma LineUndone(d: Poly, g: Poly, head: Poly)
    requires 0 < |g| <= |d| && g[0] && head == (if d[0] then g else Nil(|g|)) + Nil(|d| - |g|)
    ensures d == Add(head, [false] + Line(d, g))
  {
  }

  lemma AddCons(x: bool, a: Poly, y: bool, b: Poly)
    requires |a| == |b|
    ensures Add([x] + a, [y] + b) == [x != y] + Add(a, b)
  {
  }

  lemma NilCons(n: nat)
    ensures Nil(n + 1) == [false] + Nil(n) && Nil(0) == []
  {
  }

  lemma AddNil(a: Poly)
    ensures Add(Nil(|a|), a) == a
  {
  }

  lemma AddAssoc(a: Poly, b: Poly, c: Poly)
    requires |a| == |b| == |c|
    ensures Add(a, Add(b, c)) == Add(Add(a, b), c)
  {
  }

  // ---------------------------------------------------------------- Registers as coefficient lists

  function LowSet(c: bv32): (b: bool) { c & 1 == 1 }

  /** The low n bits of a register, the lowest first. */
  function Bits(c: bv32, n: nat): (r: Poly)
    ensures |r| == n
  {
    if n == 0 then [] else [LowSet(c)] + Bits(Half(c), n - 1)
  }

  /** A message bit by bit: each byte's lowest bit is the first. */
  function MessageBits(s: Bytes): (m: Poly)
    ensures |m| == 8 * |s|
  {
    if s == [] then [] else Bits(Wide(s[0]), 8) + MessageBits(s[1..])
  }

  lemma {:induction false} BitsOfSum(a: bv32, b: bv32, n: nat)
    ensures Bits(Plus(a, b), n) == Add(Bits(a, n), Bits(b, n))
    decreases n
  {
    hide Plus, Half, LowSet, Add;
    if n == 0 {
      assert Add([], []) == [];
    } else {
      LowOfSum(a, b);
      HalfPlus(a, b);
      BitsOfSum(Half(a), Half(b), n - 1);
      AddCons(LowSet(a), Bits(Half(a), n - 1), LowSet(b), Bits(Half(b), n - 1));
    }
  }

  lemma LowOfSum(a: bv32, b: bv32)
    ensures LowSet(Plus(a, b)) <==> (LowSet(a) != LowSet(b))
  {
    LowBit(a, b);
  }

  /** The register has no bits from place n on. */
  predicate Fits(c: bv32, n: nat) {
    if n == 0 then c == 0 else Fits(Half(c), n - 1)
  }

  lemma {:induction false} BitsBeyond(c: bv32, n: nat)
    requires Fits(c, n)
    ensures Bits(c, n + 1) == Bits(c, n) + [false]
    decreases n
  {
    hide Half, LowSet;
    if n == 0 {
      NoBits();
      assert Bits(c, 1) == [LowSet(c)] + Bits(Half(c), 0);
    } else {
      BitsBeyond(Half(c), n - 1);
    }
  }

  lemma NoBits()
    ensures !LowSet(0) && Half(0) == 0
  {
  }

  lemma RegisterFits(c: bv32)
    ensures Fits(c, 32)
  {
    hide Half;
    var c8 := Half(Half(Half(Half(Half(Half(Half(Half(c))))))));
    var c16 := Half(Half(Half(Half(Half(Half(Half(Half(c8))))))));
    var c24 := Half(Half(Half(Half(Half(Half(Half(Half(c16))))))));
    var c32 := Half(Half(Half(Half(Half(Half(Half(Half(c24))))))));
    Halves8(c);
    Halves8(c8);
    Halves8(c16);
    Halves8(c24);
    assert ((((c >> 8) >> 8) >> 8) >> 8) == 0;
    FitsMore(c32, 0);
    FitsMore(c24, 8);
    FitsMore(c16, 16);
    FitsMore(c8, 24);
    FitsMore(c, 32);
  }

  /** Eight halvings are a shift by eight places. */
  lemma Halves8(c: bv32)
    ensures Half(Half(Half(Half(Half(Half(Half(Half(c)))))))) == c >> 8
  {
  }

  lemma FitsMore(c: bv32, n: nat)
    ensures n == 0 && c == 0 ==> Fits(c, n)
    ensures n >= 8 && Fits(Half(Half(Half(Half(Half(Half(Half(Half(c)))))))), n - 8) ==> Fits(c, n)
  {
    hide Half;
    if n >= 8 {
      var a := Half(Half(c));
      var b := Half(Half(a));
      var d := Half(Half(b));
      assert Fits(d, n - 6) == Fits(Half(Half(d)), n - 8);
      assert Fits(b, n - 4) == Fits(d, n - 6);
      assert Fits(a, n - 2) == Fits(b, n - 4);
      assert Fits(c, n) == Fits(a, n - 2);
    }
  }

  // ---------------------------------------------------------------- One bit at a time

  /** The register after one more message bit. */
  function FeedBit(c: bv32, b: bool): (r: bv32) {
    Bit(Plus(c, if b then 1 else 0))
  }

  function CrcBits(c: bv32, m: Poly): (r: bv32)
    decreases |m|
  {
    if m == [] then c else CrcBits(FeedBit(c, m[0]), m[1..])
  }

  lemma {:induction false} CrcBitsConcat(c: bv32, m: Poly, n: Poly)
    ensures CrcBits(c, m + n) == CrcBits(CrcBits(c, m), n)
    decreases |m|
  {
    hide FeedBit;
    if m == [] {
      assert m + n == n;
    } else {
      assert (m + n)[1..] == m[1..] + n;
      CrcBitsConcat(FeedBit(c, m[0]), m[1..], n);
    }
  }

  /** A message bit decides, with the lowest bit of the register, whether the polynomial is added. */
  lemma FeedBitIs(c: bv32, b: bool)
    ensures FeedBit(c, b) == Plus(Half(c), if LowSet(c) != b then POLY else 0)
  {
    var d: bv32 := if b then 1 else 0;
    assert LowSet(d) == b && Half(d) == 0;
    HalfPlus(c, d);
    LowOfSum(c, d);
    BitHalvesAndAdds(Plus(c, d));
    FeedbackIs(Plus(c, d));
    PlusLaws(0, Half(c), 0);
    hide Plus, Half, Bit, LowSet, Feedback;
    assert Plus(Half(c), 0) == Half(c) by { PlusLaws(Half(c), 0, 0); PlusLaws(0, Half(c), 0); }
  }

  lemma FeedbackIs(c: bv32)
    ensures Feedback(c) == if LowSet(c) then POLY else 0
  {
  }

  /** All bits of a byte at once are its bits one by one. */
  lemma {:induction false} FedBitByBit(c: bv32, w: bv32, n: nat)
    requires Fits(w, n)
    ensures Times(Bit, n, Plus(c, w)) == CrcBits(c, Bits(w, n))
    decreases n
  {
    hide Plus, Half, LowSet, Bit, FeedBit, Feedback;
    if n == 0 {
      PlusLaws(c, 0, 0);
      PlusLaws(0, c, 0);
    } else {
      FeedOneBit(c, w);
      FedBitByBit(FeedBit(c, LowSet(w)), Half(w), n - 1);
      assert Bits(w, n)[1..] == Bits(Half(w), n - 1);
    }
  }

  lemma FeedOneBit(c: bv32, w: bv32)
    ensures Bit(Plus(c, w)) == Plus(FeedBit(c, LowSet(w)), Half(w))
  {
    hide Plus, Half, LowSet, Bit, FeedBit, Feedback;
    BitHalvesAndAdds(Plus(c, w));
    FeedbackIs(Plus(c, w));
    LowOfSum(c, w);
    HalfPlus(c, w);
    FeedBitIs(c, LowSet(w));
    var f: bv32 := if LowSet(c) != LowSet(w) then POLY else 0;
    PlusLaws(Half(c), Half(w), f);
    PlusLaws(Half(w), f, f);
    PlusLaws(Half(c), f, Half(w));
  }

  lemma ByteFits(b: Byte)
    ensures Fits(Wide(b), 8)
  {
    var w := Wide(b);
    Halves8(w);
    assert w >> 8 == 0;
    hide Half;
    FitsMore(Half(Half(Half(Half(Half(Half(Half(Half(w)))))))), 0);
    FitsMore(w, 8);
  }

  lemma {:induction false} CrcBitByBit(c: bv32, s: Bytes)
    ensures Crc(c, s) == CrcBits(c, MessageBits(s))
    decreases |s|
  {
    hide Plus, Wide, Bit, FeedBit;
    if s != [] {
      ByteFits(s[0]);
      FedBitByBit(c, Wide(s[0]), 8);
      CrcBitsConcat(c, Bits(Wide(s[0]), 8), MessageBits(s[1..]));
      CrcBitByBit(Feed(c, s[0]), s[1..]);
    }
  }

  // ---------------------------------------------------------------- The register is a remainder

  lemma FourBits(c: bv32, n: nat)
    requires n >= 4
    ensures Bits(c, n) == [c & 1 == 1, c & 2 == 2, c & 4 == 4, c & 8 == 8] + Bits(c >> 4, n - 4)
  {
    LowFour(c);
    hide Half, LowSet;
    var d := Half(c);
    var e := Half(d);
    var f := Half(e);
    assert Bits(f, n - 3) == [LowSet(f)] + Bits(Half(f), n - 4);
    assert Bits(e, n - 2) == [LowSet(e)] + Bits(f, n - 3);
    assert Bits(d, n - 1) == [LowSet(d)] + Bits(e, n - 2);
    assert Bits(c, n) == [LowSet(c)] + Bits(d, n - 1);
  }

  lemma LowFour(c: bv32)
    ensures LowSet(c) == (c & 1 == 1) && LowSet(Half(c)) == (c & 2 == 2)
    ensures LowSet(Half(Half(c))) == (c & 4 == 4) && LowSet(Half(Half(Half(c)))) == (c & 8 == 8)
    ensures Half(Half(Half(Half(c)))) == c >> 4
  {
    SecondBit(c);
    ThirdBit(c);
    FourthBit(c);
    Halves4(c);
    hide Half, LowSet;
    assert LowSet(c) == (c & 1 == 1) by { FirstBit(c); }
  }

  lemma FirstBit(c: bv32)
    ensures LowSet(c) == (c & 1 == 1)
  {
  }

  lemma SecondBit(c: bv32)
    ensures LowSet(Half(c)) == (c & 2 == 2)
  {
    assert (c >> 1) & 1 == (c & 2) >> 1;
    assert c & 2 == 0 || c & 2 == 2;
  }

  lemma ThirdBit(c: bv32)
    ensures LowSet(Half(Half(c))) == (c & 4 == 4)
  {
    assert ((c >> 1) >> 1) & 1 == (c & 4) >> 2;
    assert c & 4 == 0 || c & 4 == 4;
  }

  lemma FourthBit(c: bv32)
    ensures LowSet(Half(Half(Half(c)))) == (c & 8 == 8)
  {
    assert (((c >> 1) >> 1) >> 1) & 1 == (c & 8) >> 3;
    assert c & 8 == 0 || c & 8 == 8;
  }

  lemma Halves4(c: bv32)
    ensures Half(Half(Half(Half(c)))) == c >> 4
  {
  }

  /** The constant of the code, lowest bit first, is the generator without its leading coefficient. */
  lemma PolyIsGenerator()
    ensures Bits(POLY, 32) == Generator()[1..] && Generator()[0]
  {
    hide Bits;
    FourBits(POLY, 32);
    FourBits(0x82F63B7, 28);
    FourBits(0x82F63B, 24);
    FourBits(0x82F63, 20);
    FourBits(0x82F6, 16);
    FourBits(0x82F, 12);
    FourBits(0x82, 8);
    FourBits(0x8, 4);
    NothingIn(0);
    var bits: Poly :=
      [false, false, false, true] + ([true, true, true, false] + ([true, true, false, true] + ([true, true, false, false] +
      ([false, true, true, false] + ([true, true, true, true] + ([false, true, false, false] + [false, false, false, true]))))));
    assert Bits(POLY, 32) == bits;
    assert Generator()[1..] == bits;
  }

  lemma {:induction false} NothingIn(n: nat)
    ensures Bits(0, n) == Nil(n)
  {
    if n > 0 {
      NoBits();
      NothingIn(n - 1);
      NilCons(n - 1);
    }
  }

  /** One message bit on the register is one line of the division. */
  lemma BitsAfterFeed(c: bv32, b: bool)
    ensures Bits(FeedBit(c, b), 32) ==
            Add(Bits(c, 32)[1..] + [false], if LowSet(c) != b then Generator()[1..] else Nil(32))
    ensures Bits(c, 32)[0] == LowSet(c)
  {
    hide Plus, Half, FeedBit, Generator, Add;
    FeedBitIs(c, b);
    RegisterFits(c);
    BitsBeyond(c, 32);
    assert Bits(c, 33) == [LowSet(c)] + Bits(Half(c), 32);
    assert Bits(Half(c), 32) == (Bits(c, 32) + [false])[1..] == Bits(c, 32)[1..] + [false];
    PolyIsGenerator();
    NothingIn(32);
    BitsOfSum(Half(c), if LowSet(c) != b then POLY else 0, 32);
  }

  /** What is left to divide: the register over the message bits still to come, and 32 more places. */
  function Dividend(c: bv32, m: Poly): (d: Poly)
    ensures |d| == 32 + |m|
  {
    Add(Bits(c, 32) + Nil(|m|), m + Nil(32))
  }

  lemma LineIsFeed(c: bv32, m: Poly)
    requires m != []
    ensures Line(Dividend(c, m), Generator()) == Dividend(FeedBit(c, m[0]), m[1..])
  {
    hide Bits, FeedBit, LowSet;
    BitsAfterFeed(c, m[0]);
    PolyIsGenerator();
    var x, y := Bits(c, 32), Bits(FeedBit(c, m[0]), 32);
    LineOfSum(x, y, m, Generator());
  }

  lemma LineOfSum(x: Poly, y: Poly, m: Poly, g: Poly)
    requires |x| == |y| == 32 && |g| == 33 && g[0] && m != []
    requires y == Add(x[1..] + [false], if x[0] != m[0] then g[1..] else Nil(32))
    ensures Line(Add(x + Nil(|m|), m + Nil(32)), g) == Add(y + Nil(|m| - 1), m[1..] + Nil(32))
  {
    var d := Add(x + Nil(|m|), m + Nil(32));
    var l := Line(d, g);
    forall i | 0 <= i < |l| ensures l[i] == Add(y + Nil(|m| - 1), m[1..] + Nil(32))[i] {
      assert i < 32 ==> y[i] == ((x[1..] + [false])[i] != (if x[0] != m[0] then g[1..] else Nil(32))[i]);
      assert (m[1..] + Nil(32))[i] == (m + Nil(32))[i + 1];
    }
  }

  lemma {:induction false} RunDivides(c: bv32, m: Poly)
    ensures Bits(CrcBits(c, m), 32) == Remainder(Dividend(c, m), Generator())
    decreases |m|
  {
    hide Bits, FeedBit, Generator, Line;
    if m == [] {
      assert Bits(c, 32) + Nil(0) == Bits(c, 32) && [] + Nil(32) == Nil(32);
    } else {
      LineIsFeed(c, m);
      RunDivides(FeedBit(c, m[0]), m[1..]);
    }
  }

  /**
   The register over a string, read from its lowest bit, is the remainder of the message times x^32 by the
   generator of RFC 3720; a register to start from counts as if its bits stood over the message's first 32.
   */
  lemma CrcIsRemainder(c: bv32, s: Bytes)
    ensures Bits(Crc(c, s), 32) == Remainder(Add(Bits(c, 32) + Nil(8 * |s|), MessageBits(s) + Nil(32)), Generator())
    ensures Bits(Crc(0, s), 32) == Remainder(MessageBits(s) + Nil(32), Generator())
  {
    CrcBitByBit(c, s);
    RunDivides(c, MessageBits(s));
    CrcBitByBit(0, s);
    RunDivides(0, MessageBits(s));
    NothingIn(32);
    hide Bits, Crc, CrcBits, MessageBits, Generator, Remainder;
    var m := MessageBits(s);
    assert Nil(32) + Nil(|m|) == Nil(|m + Nil(32)|);
    AddNil(m + Nil(32));
  }

  /** The register after the byte 1, the first entry of the code's table that is not zero. */
  lemma FirstTableEntry()
    ensures Table(0, 1) == 0xf26b8303 && Crc(0, [1]) == 0xf26b8303
  {
    assert Bit(0x1) == 0x82F63B78;
    assert Bit(0x82F63B78) == 0x417B1DBC;
    assert Bit(0x417B1DBC) == 0x20BD8EDE;
    assert Bit(0x20BD8EDE) == 0x105EC76F;
    assert Bit(0x105EC76F) == 0x8AD958CF;
    assert Bit(0x8AD958CF) == 0xC79A971F;
    assert Bit(0xC79A971F) == 0xE13B70F7;
    assert Bit(0xE13B70F7) == 0xF26B8303;
    hide Bit;
    assert Times(Bit, 1, 0xE13B70F7) == 0xF26B8303;
    assert Times(Bit, 2, 0xC79A971F) == 0xF26B8303;
    assert Times(Bit, 3, 0x8AD958CF) == 0xF26B8303;
    assert Times(Bit, 4, 0x105EC76F) == 0xF26B8303;
    assert Times(Bit, 5, 0x20BD8EDE) == 0xF26B8303;
    assert Times(Bit, 6, 0x417B1DBC) == 0xF26B8303;
    assert Times(Bit, 7, 0x82F63B78) == 0xF26B8303;
    assert Zero(1) == 0xF26B8303;
    assert ZeroN(1, 1) == Zero(1);
    One();
    assert Crc(0, [1]) == Crc(Feed(0, 1), []);
  }

  lemma One()
    ensures Plus(0, Wide(1)) == 1
  {
  }

  /** Registers determine their bits and bits their register, so nothing is lost in reading them. */
  lemma {:induction false} SameBitsSameRegister(a: bv32, b: bv32, n: nat)
    requires Fits(a, n) && Fits(b, n) && Bits(a, n) == Bits(b, n)
    ensures a == b
    decreases n
  {
    if n > 0 {
      assert Bits(a, n)[0] == Bits(b, n)[0] && Bits(a, n)[1..] == Bits(b, n)[1..];
      hide Half, LowSet;
      SameBitsSameRegister(Half(a), Half(b), n - 1);
      LowAndHalf(a, b);
    }
  }

  lemma LowAndHalf(a: bv32, b: bv32)
    requires LowSet(a) == LowSet(b) && Half(a) == Half(b)
    ensures a == b
  {
    LowOf(a);
    LowOf(b);
  }

  lemma LowOf(a: bv32)
    ensures a == (Half(a) << 1) | (if LowSet(a) then 1 else 0)
  {
  }
}
