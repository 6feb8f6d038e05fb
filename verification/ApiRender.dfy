/** A writer of replies, and that the parser reads back what it writes. The tags are written as numbers. */
module ApiRender {
  import opened Common
  import opened Octets
  import opened ApiResult

  /** A value that has a form on the wire. */
  predicate Writable(v: Value) {
    match v
    case Str(text) => |text| < Power256(4)
    case Ref(id) => id < Power256(4)
    case Num(n) => n < Power256(8)
    case Small(n) => n < 20
    case Bool(_) => true
    case Arr(items) => WritableAll(items)
    case Hash(pairs) => WritableIn(pairs)
    case Data(n) => n < Power256(8)
  }

  predicate WritableAll(vs: Values) { vs.Cons? ==> Writable(vs.head) && WritableAll(vs.tail) }

  predicate WritableIn(ps: Pairs) { ps.PCons? ==> Writable(ps.key) && Writable(ps.value) && WritableIn(ps.rest) }

  function Rendered(v: Value): (r: Text)
    requires Writable(v)
    ensures r != [] && r[0] != 255
    decreases v, 0
  {
    match v
    case Str(text) => if |text| < 50 then [100 + |text|] + text else [3] + ToLe(|text|, 4) + text
    case Ref(id) => if id < 50 then [150 + id] else [7] + ToLe(id, 4)
    case Num(n) => [15] + ToLe(n, 8)
    case Small(n) => [200 + n]
    case Bool(b) => [if b then 19 else 18]
    case Arr(items) => [17] + RenderedAll(items) + [255]
    case Hash(pairs) => [16] + RenderedIn(pairs) + [255]
    case Data(n) => [20] + ToLe(n, 8)
  }

  function RenderedAll(vs: Values): (r: Text)
    requires WritableAll(vs)
    decreases vs, 1
  {
    if vs.Nil? then [] else Rendered(vs.head) + RenderedAll(vs.tail)
  }

  function RenderedIn(ps: Pairs): (r: Text)
    requires WritableIn(ps)
    decreases ps, 1
  {
    if ps.PNil? then [] else Rendered(ps.key) + Rendered(ps.value) + RenderedIn(ps.rest)
  }

  /** The text t stands in d at p. */
  predicate Stands(d: Text, p: nat, t: Text) {
    p + |t| <= |d| && d[p..p + |t|] == t
  }

  lemma StandsParts(d: Text, p: nat, a: Text, b: Text)
    requires Stands(d, p, a + b)
    ensures Stands(d, p, a) && Stands(d, p + |a|, b)
  {
    assert d[p..p + |a|] == (a + b)[..|a|] && d[p + |a|..p + |a| + |b|] == (a + b)[|a|..];
  }

  lemma StandsOne(d: Text, p: nat, t: Octet)
    requires Stands(d, p, [t])
    ensures p < |d| && d[p] == t
  {
    assert d[p..p + 1][0] == t;
  }

  /** A tag and a number of `width` octets behind it. */
  lemma TaggedNumber(d: Text, p: nat, tag: Octet, n: nat, width: nat)
    requires n < Power256(width) && Stands(d, p, [tag] + ToLe(n, width))
    ensures p + 1 + width <= |d| && d[p] == tag && Le(d[p + 1..p + 1 + width]) == n
  {
    hide Le, ToLe, Power256;
    StandsParts(d, p, [tag], ToLe(n, width));
    StandsOne(d, p, tag);
    LeRoundTrip(n, width);
  }

  /** A number in any of the widths that the format has. */
  lemma NumberParses(d: Text, p: nat, n: nat, width: nat)
    requires 1 <= width <= 8 && n < Power256(width) && Stands(d, p, [7 + width] + ToLe(n, width))
    ensures ValueAt(d, p) == Good(Num(n), p + 1 + width)
  {
    TaggedNumber(d, p, 7 + width, n, width);
    hide Stands, Le, ToLe, Power256, ValueAt;
    NumberTag(d, p, width);
  }

  lemma NumberTag(d: Text, p: nat, width: nat)
    requires 1 <= width <= 8 && p + 1 + width <= |d| && d[p] == 7 + width
    ensures ValueAt(d, p) == Good(Num(Le(d[p + 1..p + 1 + width])), p + 1 + width)
  {
    hide Le, ItemsAt, PairsAt;
  }

  lemma ReferenceTag(d: Text, p: nat, width: nat)
    requires 1 <= width <= 4 && p + 1 + width <= |d| && d[p] == 3 + width
    ensures ValueAt(d, p) == Good(Ref(Le(d[p + 1..p + 1 + width])), p + 1 + width)
  {
    hide Le, ItemsAt, PairsAt;
  }

  lemma DataTag(d: Text, p: nat)
    requires p + 9 <= |d| && d[p] == 20
    ensures ValueAt(d, p) == Good(Data(Le(d[p + 1..p + 9])), p + 9)
  {
    hide Le, ItemsAt, PairsAt;
  }

  /** A string behind its length in any of the widths that the format has. */
  lemma StringParses(d: Text, p: nat, text: Text, width: nat)
    requires 1 <= width <= 4 && |text| < Power256(width) && Stands(d, p, [width - 1] + ToLe(|text|, width) + text)
    ensures ValueAt(d, p) == Good(Str(text), p + 1 + width + |text|)
  {
    var len := ToLe(|text|, width);
    assert |[width - 1] + len| == 1 + width;
    StandsParts(d, p, [width - 1] + len, text);
    StandsParts(d, p, [width - 1], len);
    StandsOne(d, p, width - 1);
    LeRoundTrip(|text|, width);
    hide Le, ToLe, Power256, ValueAt;
    LongString(d, p, text, width);
  }

  lemma LongString(d: Text, p: nat, text: Text, width: nat)
    requires 1 <= width <= 4 && p + 1 + width + |text| <= |d| && d[p] == width - 1
    requires Le(d[p + 1..p + 1 + width]) == |text| && d[p + 1 + width..p + 1 + width + |text|] == text
    ensures ValueAt(d, p) == Good(Str(text), p + 1 + width + |text|)
  {
    hide Le, ItemsAt, PairsAt;
  }

  lemma ShortStringParses(d: Text, p: nat, text: Text)
    requires |text| < 50 && Stands(d, p, [100 + |text|] + text)
    ensures ValueAt(d, p) == Good(Str(text), p + 1 + |text|)
  {
    StandsParts(d, p, [100 + |text|], text);
    StandsOne(d, p, 100 + |text|);
    hide Le, ItemsAt, PairsAt;
  }

  lemma ReferenceParses(d: Text, p: nat, id: nat, width: nat)
    requires 1 <= width <= 4 && id < Power256(width) && Stands(d, p, [3 + width] + ToLe(id, width))
    ensures ValueAt(d, p) == Good(Ref(id), p + 1 + width)
  {
    TaggedNumber(d, p, 3 + width, id, width);
    hide Stands, Le, ToLe, Power256, ValueAt;
    ReferenceTag(d, p, width);
  }

  lemma SingleByteParses(d: Text, p: nat, t: Octet)
    requires Stands(d, p, [t])
    ensures 150 <= t < 200 ==> ValueAt(d, p) == Good(Ref(t - 150), p + 1)
    ensures 200 <= t < 220 ==> ValueAt(d, p) == Good(Small(t - 200), p + 1)
    ensures t == 18 ==> ValueAt(d, p) == Good(Bool(false), p + 1)
    ensures t == 19 ==> ValueAt(d, p) == Good(Bool(true), p + 1)
  {
    StandsOne(d, p, t);
    hide Le, ItemsAt, PairsAt;
  }

  lemma DataParses(d: Text, p: nat, n: nat)
    requires n < Power256(8) && Stands(d, p, [20] + ToLe(n, 8))
    ensures ValueAt(d, p) == Good(Data(n), p + 9)
  {
    TaggedNumber(d, p, 20, n, 8);
    hide Stands, Le, ToLe, Power256, ValueAt;
    DataTag(d, p);
  }

  lemma {:induction false} LeafParses(v: Value, d: Text, p: nat)
    requires Writable(v) && !v.Arr? && !v.Hash? && Stands(d, p, Rendered(v))
    ensures ValueAt(d, p) == Good(v, p + |Rendered(v)|)
  {
    hide ValueAt, Stands, Power256;
    match v
    case Str(text) =>
      if |text| < 50 {
        ShortStringParses(d, p, text);
      } else {
        StringParses(d, p, text, 4);
      }
    case Ref(id) =>
      if id < 50 {
        SingleByteParses(d, p, 150 + id);
      } else {
        ReferenceParses(d, p, id, 4);
      }
    case Num(n) => NumberParses(d, p, n, 8);
    case Small(n) => SingleByteParses(d, p, 200 + n);
    case Bool(b) => SingleByteParses(d, p, if b then 19 else 18);
    case Data(n) => DataParses(d, p, n);
  }

  lemma ArrayUnfolds(d: Text, p: nat)
    requires p < |d| && (d[p] == 17 || d[p] == 16)
    ensures d[p] == 17 ==> ValueAt(d, p) == (var a := ItemsAt(d, p + 1); if a.Bad? then Bad else Good(Arr(a.v), a.next))
    ensures d[p] == 16 ==> ValueAt(d, p) == (var a := PairsAt(d, p + 1); if a.Bad? then Bad else Good(Hash(a.v), a.next))
  {
    hide Le, ItemsAt, PairsAt;
  }

  /** What is written is read back, wherever it stands. */
  lemma {:induction false} RenderedParses(v: Value, d: Text, p: nat)
    requires Writable(v) && Stands(d, p, Rendered(v))
    ensures ValueAt(d, p) == Good(v, p + |Rendered(v)|)
    decreases v, 0
  {
    hide ValueAt, ItemsAt, PairsAt, Stands, RenderedAll, RenderedIn;
    match v
    case Arr(items) =>
      Bracketed(d, p, 17, RenderedAll(items));
      ItemsParse(items, d, p + 1);
      ArrayUnfolds(d, p);
    case Hash(pairs) =>
      Bracketed(d, p, 16, RenderedIn(pairs));
      PairsParse(pairs, d, p + 1);
      ArrayUnfolds(d, p);
    case _ => LeafParses(v, d, p);
  }

  lemma Bracketed(d: Text, p: nat, tag: Octet, inside: Text)
    requires Stands(d, p, [tag] + inside + [255])
    ensures p < |d| && d[p] == tag && Stands(d, p + 1, inside) && p + 1 + |inside| < |d| && d[p + 1 + |inside|] == 255
  {
    StandsParts(d, p, [tag] + inside, [255]);
    StandsParts(d, p, [tag], inside);
    StandsOne(d, p, tag);
    StandsOne(d, p + 1 + |inside|, 255);
  }

  lemma {:induction false} ItemsParse(vs: Values, d: Text, p: nat)
    requires WritableAll(vs) && Stands(d, p, RenderedAll(vs))
    requires p + |RenderedAll(vs)| < |d| && d[p + |RenderedAll(vs)|] == 255
    ensures ItemsAt(d, p) == Good(vs, p + |RenderedAll(vs)| + 1)
    decreases vs, 1
  {
    hide ValueAt, Stands, Rendered;
    if vs.Cons? {
      StandsParts(d, p, Rendered(vs.head), RenderedAll(vs.tail));
      FirstOctet(d, p, Rendered(vs.head));
      RenderedParses(vs.head, d, p);
      ItemsParse(vs.tail, d, p + |Rendered(vs.head)|);
    }
  }

  lemma {:induction false} PairsParse(ps: Pairs, d: Text, p: nat)
    requires WritableIn(ps) && Stands(d, p, RenderedIn(ps))
    requires p + |RenderedIn(ps)| < |d| && d[p + |RenderedIn(ps)|] == 255
    ensures PairsAt(d, p) == Good(ps, p + |RenderedIn(ps)| + 1)
    decreases ps, 1
  {
    hide ValueAt, Stands, Rendered;
    if ps.PCons? {
      var k, v := Rendered(ps.key), Rendered(ps.value);
      StandsParts(d, p, k + v, RenderedIn(ps.rest));
      StandsParts(d, p, k, v);
      FirstOctet(d, p, k);
      RenderedParses(ps.key, d, p);
      RenderedParses(ps.value, d, p + |k|);
      PairsParse(ps.rest, d, p + |k| + |v|);
    }
  }

  lemma FirstOctet(d: Text, p: nat, t: Text)
    requires t != [] && Stands(d, p, t)
    ensures p < |d| && d[p] == t[0]
  {
    assert d[p..p + |t|][0] == t[0];
  }

  /** A written reply is parsed to what was written, with its back-references replaced by the strings they name. */
  method ParseWritten(v: Value) returns (res: Option<Obj>)
    requires Writable(v) && RefsOk(v, 0)
    ensures res.Some? && Erase(res.value) == Meaning(v, Strings(v))
  {
    var d := Rendered(v);
    assert Stands(d, 0, d) by {
      assert d[0..0 + |d|] == d;
    }
    RenderedParses(v, d, 0);
    hide ValueAt, Erase, Meaning, Strings, RefsOk;
    var size, used;
    res, size, used := ParseResult(d);
  }
}
