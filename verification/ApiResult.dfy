/**
 The two-pass reply parser of papi.c. A sizing pass checks a reply and computes the arena it needs;
 a building pass then lays the result out in one allocation, sharing strings by back-reference.
 Sizes are those of a 64-bit build: 16 bytes per result, 8 per pointer, 16 per hash pair.
 */
module ApiResult {
  import opened Common
  import opened Octets

  const STR1 := 0
  const STR4 := 3
  const RSTR1 := 4
  const RSTR4 := 7
  const NUM1 := 8
  const NUM8 := 15
  const HASH := 16
  const ARRAY := 17
  const BFALSE := 18
  const BTRUE := 19
  const DATA := 20
  const SHORT_STR_BASE := 100
  const SHORT_STR_LEN := 50
  const SHORT_RSTR_BASE := 150
  const SHORT_RSTR_CNT := 50
  const SMALL_NUM_BASE := 200
  const SMALL_NUM_CNT := 20
  const END := 255

  const RESULT_SIZE: nat := 16
  const STR_OFFSET: nat := 8
  const POINTER_SIZE: nat := 8
  const PAIR_SIZE: nat := 16

  // ---------------------------------------------------------------- The format

  datatype Value =
    | Str(text: Text)
    | Ref(id: nat)
    | Num(n: nat)
    | Small(n: nat)
    | Bool(b: bool)
    | Arr(items: Values)
    | Hash(pairs: Pairs)
    | Data(n: nat)

  datatype Values = Nil | Cons(head: Value, tail: Values)
  datatype Pairs = PNil | PCons(key: Value, value: Value, rest: Pairs)

  datatype Decoded<V> = Bad | Good(v: V, next: nat)

  function TextAt(d: Text, p: nat, len: nat): (r: Decoded<Value>)
    requires p <= |d|
    ensures r.Good? ==> r.next == p + len <= |d|
  {
    if len <= |d| - p then Good(Str(d[p..p + len]), p + len) else Bad
  }

  /** The value that starts at p, read without regard to back-references. */
  function ValueAt(d: Text, p: nat): (r: Decoded<Value>)
    requires p <= |d|
    ensures r.Good? ==> p < r.next <= |d|
    decreases |d| - p, 0
  {
    if p == |d| then Bad else
      var t, q := d[p], p + 1;
      if SHORT_STR_BASE <= t < SHORT_STR_BASE + SHORT_STR_LEN then TextAt(d, q, t - SHORT_STR_BASE)
      else if STR1 <= t <= STR4 then
        var l := t - STR1 + 1;
        if |d| - q < l then Bad else TextAt(d, q + l, Le(d[q..q + l]))
      else if RSTR1 <= t <= RSTR4 then
        var l := t - RSTR1 + 1;
        if |d| - q < l then Bad else Good(Ref(Le(d[q..q + l])), q + l)
      else if SHORT_RSTR_BASE <= t < SHORT_RSTR_BASE + SHORT_RSTR_CNT then Good(Ref(t - SHORT_RSTR_BASE), q)
      else if NUM1 <= t <= NUM8 then
        var l := t - NUM1 + 1;
        if |d| - q < l then Bad else Good(Num(Le(d[q..q + l])), q + l)
      else if SMALL_NUM_BASE <= t < SMALL_NUM_BASE + SMALL_NUM_CNT then Good(Small(t - SMALL_NUM_BASE), q)
      else if t == BFALSE then Good(Bool(false), q)
      else if t == BTRUE then Good(Bool(true), q)
      else if t == ARRAY then
        var r := ItemsAt(d, q);
        if r.Bad? then Bad else Good(Arr(r.v), r.next)
      else if t == HASH then
        var r := PairsAt(d, q);
        if r.Bad? then Bad else Good(Hash(r.v), r.next)
      else if t == DATA then
        if |d| - q < 8 then Bad else Good(Data(Le(d[q..q + 8])), q + 8)
      else Bad
  }

  function ItemsAt(d: Text, p: nat): (r: Decoded<Values>)
    requires p <= |d|
    ensures r.Good? ==> p < r.next <= |d|
    decreases |d| - p, 1
  {
    if p == |d| then Bad
    else if d[p] == END then Good(Nil, p + 1)
    else
      var h := ValueAt(d, p);
      if h.Bad? then Bad else
        var t := ItemsAt(d, h.next);
        if t.Bad? then Bad else Good(Cons(h.v, t.v), t.next)
  }

  function PairsAt(d: Text, p: nat): (r: Decoded<Pairs>)
    requires p <= |d|
    ensures r.Good? ==> p < r.next <= |d|
    decreases |d| - p, 1
  {
    if p == |d| then Bad
    else if d[p] == END then Good(PNil, p + 1)
    else
      var k := ValueAt(d, p);
      if k.Bad? then Bad else
        var v := ValueAt(d, k.next);
        if v.Bad? then Bad else
          var t := PairsAt(d, v.next);
          if t.Bad? then Bad else Good(PCons(k.v, v.v, t.v), t.next)
  }

  // ---------------------------------------------------------------- Strings and references

  /** The strings of a value in the order they are read. */
  function Strings(v: Value): (s: seq<Text>) {
    match v
    case Str(text) => [text]
    case Arr(items) => StringsOf(items)
    case Hash(pairs) => StringsIn(pairs)
    case _ => []
  }

  function StringsOf(vs: Values): (s: seq<Text>) {
    if vs.Nil? then [] else Strings(vs.head) + StringsOf(vs.tail)
  }

  function StringsIn(ps: Pairs): (s: seq<Text>) {
    if ps.PNil? then [] else Strings(ps.key) + Strings(ps.value) + StringsIn(ps.rest)
  }

  /** Every reference names a string read before it, n strings having been read already. */
  predicate RefsOk(v: Value, n: nat) {
    match v
    case Ref(id) => id < n
    case Arr(items) => RefsOkOf(items, n)
    case Hash(pairs) => RefsOkIn(pairs, n)
    case _ => true
  }

  predicate RefsOkOf(vs: Values, n: nat) {
    vs.Cons? ==> RefsOk(vs.head, n) && RefsOkOf(vs.tail, n + |Strings(vs.head)|)
  }

  predicate RefsOkIn(ps: Pairs, n: nat) {
    ps.PCons? ==>
      && RefsOk(ps.key, n) && RefsOk(ps.value, n + |Strings(ps.key)|)
      && RefsOkIn(ps.rest, n + |Strings(ps.key)| + |Strings(ps.value)|)
  }

  // ---------------------------------------------------------------- Sizes

  function Aligned(len: nat): (n: nat)
    ensures n % 8 == 0 && len < n <= len + 8
  {
    (len + 8) / 8 * 8
  }

  /** The arena the sizing pass asks for. */
  function Arena(v: Value): (n: nat) {
    match v
    case Str(text) => STR_OFFSET + Aligned(|text|)
    case Num(_) => RESULT_SIZE
    case Data(_) => RESULT_SIZE
    case Arr(items) => RESULT_SIZE + ArenaOf(items)
    case Hash(pairs) => RESULT_SIZE + ArenaIn(pairs)
    case _ => 0
  }

  function ArenaOf(vs: Values): (n: nat) {
    if vs.Nil? then 0 else Arena(vs.head) + POINTER_SIZE + ArenaOf(vs.tail)
  }

  function ArenaIn(ps: Pairs): (n: nat) {
    if ps.PNil? then 0 else Arena(ps.key) + Arena(ps.value) + PAIR_SIZE + ArenaIn(ps.rest)
  }

  // ---------------------------------------------------------------- The sizing pass

  datatype Sized = Refused | ReadBeyondEnd | Sized(len: nat, pos: nat, strcnt: nat)

  /** A whole value that the pass accepts starts at p, after `strcnt` strings. */
  predicate WholeAt(d: Text, p: nat, strcnt: nat)
    requires p <= |d|
  {
    ValueAt(d, p).Good? && RefsOk(ValueAt(d, p).v, strcnt)
  }

  function StringsAt(d: Text, p: nat): (n: nat)
    requires p <= |d| && ValueAt(d, p).Good?
  {
    |Strings(ValueAt(d, p).v)|
  }

  /**
   The value at p is an array or hash whose tag is the last byte of the reply, or one in which, behind
   whole values that the pass accepts, such a value comes next.
   */
  predicate OpensAtEnd(d: Text, p: nat, strcnt: nat)
    requires p <= |d|
    decreases |d| - p, 0
  {
    p < |d| && (d[p] == ARRAY || d[p] == HASH)
    && (p + 1 == |d| || if d[p] == ARRAY then ItemsOpen(d, p + 1, strcnt) else PairsOpen(d, p + 1, strcnt))
  }

  predicate ItemsOpen(d: Text, p: nat, strcnt: nat)
    requires p <= |d|
    decreases |d| - p, 1
  {
    p < |d| && d[p] != END
    && (OpensAtEnd(d, p, strcnt)
        || (WholeAt(d, p, strcnt) && ItemsOpen(d, ValueAt(d, p).next, strcnt + StringsAt(d, p))))
  }

  predicate PairsOpen(d: Text, p: nat, strcnt: nat)
    requires p <= |d|
    decreases |d| - p, 1
  {
    p < |d| && d[p] != END
    && (OpensAtEnd(d, p, strcnt)
        || (WholeAt(d, p, strcnt) && ValueOpens(d, ValueAt(d, p).next, strcnt + StringsAt(d, p))))
  }

  /** The same where the value of a pair comes next. */
  predicate ValueOpens(d: Text, p: nat, strcnt: nat)
    requires p <= |d|
    decreases |d| - p, 1
  {
    OpensAtEnd(d, p, strcnt)
    || (WholeAt(d, p, strcnt) && PairsOpen(d, ValueAt(d, p).next, strcnt + StringsAt(d, p)))
  }

  /** Only a reply that ends in the tag of an array or hash is read past its end. */
  lemma {:induction false} OpensWithTag(d: Text, p: nat, strcnt: nat)
    requires p <= |d|
    ensures OpensAtEnd(d, p, strcnt) ==> d != [] && d[|d| - 1] in {ARRAY, HASH}
    ensures ItemsOpen(d, p, strcnt) ==> d != [] && d[|d| - 1] in {ARRAY, HASH}
    ensures PairsOpen(d, p, strcnt) || ValueOpens(d, p, strcnt) ==> d != [] && d[|d| - 1] in {ARRAY, HASH}
    decreases |d| - p
  {
    hide ValueAt, Strings, RefsOk;
    if p < |d| {
      OpensWithTag(d, p + 1, strcnt);
      if WholeAt(d, p, strcnt) {
        OpensWithTag(d, ValueAt(d, p).next, strcnt + StringsAt(d, p));
      }
    }
  }

  /** What the sizing pass says of the value at p: its size, or exactly when it reads past the end. */
  ghost predicate Measures(r: Sized, d: Text, p: nat, strcnt: nat)
    requires p <= |d|
  {
    var a := ValueAt(d, p);
    && (r.Sized? <==> a.Good? && RefsOk(a.v, strcnt))
    && (r.Sized? ==> r.pos == a.next && r.len == Arena(a.v) && r.strcnt == strcnt + |Strings(a.v)|)
    && (r.ReadBeyondEnd? <==> OpensAtEnd(d, p, strcnt))
  }

  /** calc_ret_len; the look-ahead of an array or hash that starts at the very end is reported. */
  method CalcRetLen(d: Text, p: nat, strcnt: nat) returns (r: Sized)
    requires p <= |d|
    ensures Measures(r, d, p, strcnt)
    decreases |d| - p, 0
  {
    if |d| - p < 1 {
      return Refused;
    }
    hide StringsOf, StringsIn, RefsOkOf, RefsOkIn, ArenaOf, ArenaIn, ItemsOpen, PairsOpen, ItemsAt, PairsAt;
    var t, q := d[p], p + 1;
    if SHORT_STR_BASE <= t < SHORT_STR_BASE + SHORT_STR_LEN || STR1 <= t <= STR4 {
      r := CalcString(d, p, strcnt);
    } else if RSTR1 <= t <= RSTR4 || SHORT_RSTR_BASE <= t < SHORT_RSTR_BASE + SHORT_RSTR_CNT {
      r := CalcReference(d, p, strcnt);
    } else if NUM1 <= t <= NUM8 {
      var len := t - NUM1 + 1;
      if |d| - q < len {
        return Refused;
      }
      return Sized(RESULT_SIZE, q + len, strcnt);
    } else if SMALL_NUM_BASE <= t < SMALL_NUM_BASE + SMALL_NUM_CNT {
      return Sized(0, q, strcnt);
    } else if t == BFALSE || t == BTRUE {
      return Sized(0, q, strcnt);
    } else if t == ARRAY {
      r := CalcArray(d, q, strcnt);
    } else if t == HASH {
      r := CalcHash(d, q, strcnt);
    } else if t == DATA {
      if |d| - q < 8 {
        return Refused;
      }
      return Sized(RESULT_SIZE, q + 8, strcnt);
    } else {
      return Refused;
    }
  }

  /** The string branches of calc_ret_len. */
  method CalcString(d: Text, p: nat, strcnt: nat) returns (r: Sized)
    requires p < |d| && (SHORT_STR_BASE <= d[p] < SHORT_STR_BASE + SHORT_STR_LEN || STR1 <= d[p] <= STR4)
    ensures Measures(r, d, p, strcnt)
  {
    var t, q := d[p], p + 1;
    var len;
    if SHORT_STR_BASE <= t < SHORT_STR_BASE + SHORT_STR_LEN {
      len := t - SHORT_STR_BASE;
    } else {
      var l := t - STR1 + 1;
      if |d| - q < l {
        return Refused;
      }
      len := Le(d[q..q + l]);
      q := q + l;
    }
    if |d| - q < len {
      return Refused;
    }
    return Sized(STR_OFFSET + Aligned(len), q + len, strcnt + 1);
  }

  /** The back-reference branches of calc_ret_len. */
  method CalcReference(d: Text, p: nat, strcnt: nat) returns (r: Sized)
    requires p < |d| && (RSTR1 <= d[p] <= RSTR4 || SHORT_RSTR_BASE <= d[p] < SHORT_RSTR_BASE + SHORT_RSTR_CNT)
    ensures Measures(r, d, p, strcnt)
  {
    var t, q := d[p], p + 1;
    var id;
    if RSTR1 <= t <= RSTR4 {
      var l := t - RSTR1 + 1;
      if |d| - q < l {
        return Refused;
      }
      id := Le(d[q..q + l]);
      q := q + l;
    } else {
      id := t - SHORT_RSTR_BASE;
    }
    return if id < strcnt then Sized(0, q, strcnt) else Refused;
  }

  /** The array or hash as a whole, seen from a place inside it. */
  ghost predicate ArrayFrom(a: Decoded<Values>, strcnt0: nat, b: Decoded<Values>, ret: nat, cnt: nat, strcnt: nat) {
    && a.Good? == b.Good?
    && (a.Good? ==>
         && a.next == b.next && (RefsOkOf(a.v, strcnt0) <==> RefsOkOf(b.v, strcnt))
         && RESULT_SIZE + ArenaOf(a.v) == ret + POINTER_SIZE * cnt + ArenaOf(b.v)
         && strcnt0 + |StringsOf(a.v)| == strcnt + |StringsOf(b.v)|)
  }

  ghost predicate HashFrom(a: Decoded<Pairs>, strcnt0: nat, b: Decoded<Pairs>, ret: nat, cnt: nat, strcnt: nat) {
    && a.Good? == b.Good?
    && (a.Good? ==>
         && a.next == b.next && (RefsOkIn(a.v, strcnt0) <==> RefsOkIn(b.v, strcnt))
         && RESULT_SIZE + ArenaIn(a.v) == ret + PAIR_SIZE * cnt + ArenaIn(b.v)
         && strcnt0 + |StringsIn(a.v)| == strcnt + |StringsIn(b.v)|)
  }

  lemma ArrayStep(d: Text, pos: nat, a: Decoded<Values>, strcnt0: nat, ret: nat, cnt: nat, strcnt: nat, e: Sized)
    requires pos < |d| && d[pos] != END && ArrayFrom(a, strcnt0, ItemsAt(d, pos), ret, cnt, strcnt)
    requires Measures(e, d, pos, strcnt)
    ensures e.Sized? ==> e.pos <= |d| && ArrayFrom(a, strcnt0, ItemsAt(d, e.pos), ret + e.len, cnt + 1, e.strcnt)
    ensures !e.Sized? ==> !(a.Good? && RefsOkOf(a.v, strcnt0))
    ensures ItemsOpen(d, pos, strcnt) <==> if e.Sized? then ItemsOpen(d, e.pos, e.strcnt) else e.ReadBeyondEnd?
  {
    var h := ValueAt(d, pos);
    assert h.Good? ==> ItemsAt(d, pos).Good? == ItemsAt(d, h.next).Good?;
    assert ItemsAt(d, pos).Good? ==> h.Good? && ItemsAt(d, pos) == Good(Cons(h.v, ItemsAt(d, h.next).v), ItemsAt(d, h.next).next);
    hide ValueAt, ItemsAt, Arena, Strings, RefsOk;
  }

  lemma HashStep(d: Text, pos: nat, a: Decoded<Pairs>, strcnt0: nat, ret: nat, cnt: nat, strcnt: nat, k: Sized, e: Sized)
    requires pos < |d| && d[pos] != END && HashFrom(a, strcnt0, PairsAt(d, pos), ret, cnt, strcnt)
    requires Measures(k, d, pos, strcnt)
    requires k.Sized? ==> k.pos <= |d| && Measures(e, d, k.pos, k.strcnt)
    ensures k.Sized? && e.Sized? ==>
              e.pos <= |d| && HashFrom(a, strcnt0, PairsAt(d, e.pos), ret + k.len + e.len, cnt + 1, e.strcnt)
    ensures !(k.Sized? && e.Sized?) ==> !(a.Good? && RefsOkIn(a.v, strcnt0))
    ensures PairsOpen(d, pos, strcnt) <==>
            if !k.Sized? then k.ReadBeyondEnd? else if e.Sized? then PairsOpen(d, e.pos, e.strcnt) else e.ReadBeyondEnd?
  {
    hide ValueAt, PairsAt, Arena, Strings, RefsOk;
    PairsUnfold(d, pos);
  }

  lemma MeasuredInside(d: Text, p: nat, r: Sized, strcnt: nat)
    requires p <= |d| && Measures(r, d, p, strcnt) && r.Sized?
    ensures p < r.pos <= |d|
  {
    hide ValueAt, Arena, Strings, RefsOk;
  }

  lemma ArrayTruncated(d: Text, a: Decoded<Values>, strcnt0: nat, ret: nat, cnt: nat, strcnt: nat)
    requires ArrayFrom(a, strcnt0, ItemsAt(d, |d|), ret, cnt, strcnt)
    ensures a.Bad? && !ItemsOpen(d, |d|, strcnt)
  {
  }

  lemma HashTruncated(d: Text, a: Decoded<Pairs>, strcnt0: nat, ret: nat, cnt: nat, strcnt: nat)
    requires HashFrom(a, strcnt0, PairsAt(d, |d|), ret, cnt, strcnt)
    ensures a.Bad? && !PairsOpen(d, |d|, strcnt)
  {
  }

  lemma PairsUnfold(d: Text, pos: nat)
    requires pos < |d| && d[pos] != END
    ensures var k, b := ValueAt(d, pos), PairsAt(d, pos);
            && (k.Bad? ==> b.Bad?)
            && (k.Good? ==> var v := ValueAt(d, k.next);
                            && (v.Bad? ==> b.Bad?)
                            && (v.Good? ==> var t := PairsAt(d, v.next);
                                            b == if t.Bad? then Bad else Good(PCons(k.v, v.v, t.v), t.next)))
  {
    hide ValueAt;
  }

  method CalcArray(d: Text, start: nat, strcnt0: nat) returns (r: Sized)
    requires 0 < start <= |d|
    ensures var a := ItemsAt(d, start);
            && (r.Sized? <==> a.Good? && RefsOkOf(a.v, strcnt0))
            && (r.Sized? ==> r.pos == a.next && r.len == RESULT_SIZE + ArenaOf(a.v) && r.strcnt == strcnt0 + |StringsOf(a.v)|)
            && (r.ReadBeyondEnd? <==> start == |d| || ItemsOpen(d, start, strcnt0))
    decreases |d| - start, 1
  {
    ghost var a := ItemsAt(d, start);
    if start == |d| {
      return ReadBeyondEnd;
    }
    var ret: nat, cnt: nat, pos: nat, strcnt: nat := RESULT_SIZE, 0, start, strcnt0;
    while d[pos] != END
      invariant start <= pos < |d|
      invariant ArrayFrom(a, strcnt0, ItemsAt(d, pos), ret, cnt, strcnt)
      invariant ItemsOpen(d, start, strcnt0) == ItemsOpen(d, pos, strcnt)
      decreases |d| - pos
    {
      hide ArrayFrom, ItemsAt, ValueAt, Arena, Strings, RefsOk, ItemsOpen, OpensAtEnd;
      var e := CalcRetLen(d, pos, strcnt);
      ArrayStep(d, pos, a, strcnt0, ret, cnt, strcnt, e);
      if !e.Sized? {
        return e;
      }
      MeasuredInside(d, pos, e, strcnt);
      ret, cnt, pos, strcnt := ret + e.len, cnt + 1, e.pos, e.strcnt;
      if |d| - pos < 1 {
        ArrayTruncated(d, a, strcnt0, ret, cnt, strcnt);
        return Refused;
      }
    }
    return Sized(ret + POINTER_SIZE * cnt, pos + 1, strcnt);
  }

  method CalcHash(d: Text, start: nat, strcnt0: nat) returns (r: Sized)
    requires 0 < start <= |d|
    ensures var a := PairsAt(d, start);
            && (r.Sized? <==> a.Good? && RefsOkIn(a.v, strcnt0))
            && (r.Sized? ==> r.pos == a.next && r.len == RESULT_SIZE + ArenaIn(a.v) && r.strcnt == strcnt0 + |StringsIn(a.v)|)
            && (r.ReadBeyondEnd? <==> start == |d| || PairsOpen(d, start, strcnt0))
    decreases |d| - start, 1
  {
    ghost var a := PairsAt(d, start);
    if start == |d| {
      return ReadBeyondEnd;
    }
    var ret: nat, cnt: nat, pos: nat, strcnt: nat := RESULT_SIZE, 0, start, strcnt0;
    while d[pos] != END
      invariant start <= pos < |d|
      invariant HashFrom(a, strcnt0, PairsAt(d, pos), ret, cnt, strcnt)
      invariant PairsOpen(d, start, strcnt0) == PairsOpen(d, pos, strcnt)
      decreases |d| - pos
    {
      hide HashFrom, PairsAt, ValueAt, Arena, Strings, RefsOk, PairsOpen, OpensAtEnd;
      var k := CalcRetLen(d, pos, strcnt);
      if !k.Sized? {
        HashStep(d, pos, a, strcnt0, ret, cnt, strcnt, k, Refused);
        return k;
      }
      MeasuredInside(d, pos, k, strcnt);
      var e := CalcRetLen(d, k.pos, k.strcnt);
      HashStep(d, pos, a, strcnt0, ret, cnt, strcnt, k, e);
      if !e.Sized? {
        return e;
      }
      MeasuredInside(d, k.pos, e, k.strcnt);
      ret, cnt, pos, strcnt := ret + k.len + e.len, cnt + 1, e.pos, e.strcnt;
      if |d| - pos < 1 {
        HashTruncated(d, a, strcnt0, ret, cnt, strcnt);
        return Refused;
      }
    }
    return Sized(ret + PAIR_SIZE * cnt, pos + 1, strcnt);
  }

  // ---------------------------------------------------------------- The building pass

  /**
   What the caller gets, with the arena offset of each object and of the pointers of an array or hash.
   Small numbers and booleans are shared constants outside the arena.
   */
  datatype Obj =
    | OStr(addr: nat, text: Text)
    | ONum(addr: nat, n: nat)
    | OSmall(n: nat)
    | OBool(b: bool)
    | OArr(addr: nat, slots: nat, items: seq<Obj>)
    | OHash(addr: nat, slots: nat, pairs: seq<Entry<Obj>>)
    | OData(addr: nat, n: nat)

  datatype Entry<V> = Entry(key: Text, value: V)

  datatype Built<V> = Built(v: V, out: nat, table: seq<Obj>)

  /** The string table: every filled slot is a string. */
  predicate Filled(table: seq<Obj>) { forall i :: 0 <= i < |table| ==> table[i].OStr? }

  /** Laying out a value at arena offset `out`, with the strings met so far. */
  function Build(v: Value, out: nat, table: seq<Obj>): (r: Built<Obj>)
    requires Filled(table) && RefsOk(v, |table|)
    ensures Filled(r.table) && |r.table| == |table| + |Strings(v)|
    ensures r.v.OStr? <==> v.Str? || v.Ref?
    decreases v, 0
  {
    match v
    case Str(text) =>
      var o := OStr(out, text);
      Built(o, out + STR_OFFSET + Aligned(|text|), table + [o])
    case Ref(id) => Built(table[id], out, table)
    case Num(n) => Built(ONum(out, n), out + RESULT_SIZE, table)
    case Small(n) => Built(OSmall(n), out, table)
    case Bool(b) => Built(OBool(b), out, table)
    case Arr(items) =>
      var r := BuildOf(items, out + RESULT_SIZE, table);
      Built(OArr(out, r.out, r.v), r.out + POINTER_SIZE * |r.v|, r.table)
    case Hash(pairs) =>
      var r := BuildIn(pairs, out + RESULT_SIZE, table);
      Built(OHash(out, r.out, r.v), r.out + PAIR_SIZE * |r.v|, r.table)
    case Data(n) => Built(OData(out, n), out + RESULT_SIZE, table)
  }

  function BuildOf(vs: Values, out: nat, table: seq<Obj>): (r: Built<seq<Obj>>)
    requires Filled(table) && RefsOkOf(vs, |table|)
    ensures Filled(r.table) && |r.table| == |table| + |StringsOf(vs)|
    decreases vs, 1
  {
    if vs.Nil? then Built([], out, table) else
      var h := Build(vs.head, out, table);
      var t := BuildOf(vs.tail, h.out, h.table);
      Built([h.v] + t.v, t.out, t.table)
  }

  /** A pair whose key is no string takes its space but is not entered. */
  function BuildIn(ps: Pairs, out: nat, table: seq<Obj>): (r: Built<seq<Entry<Obj>>>)
    requires Filled(table) && RefsOkIn(ps, |table|)
    ensures Filled(r.table) && |r.table| == |table| + |StringsIn(ps)|
    decreases ps, 1
  {
    if ps.PNil? then Built([], out, table) else
      var k := Build(ps.key, out, table);
      var v := Build(ps.value, k.out, k.table);
      var t := BuildIn(ps.rest, v.out, v.table);
      Built((if k.v.OStr? then [Entry(k.v.text, v.v)] else []) + t.v, t.out, t.table)
  }

  // ---------------------------------------------------------------- Space

  /** Every hash key, at any depth, is a string or a reference to one. */
  predicate StringKeys(v: Value) {
    match v
    case Arr(items) => StringKeysOf(items)
    case Hash(pairs) => StringKeysIn(pairs)
    case _ => true
  }

  predicate StringKeysOf(vs: Values) { vs.Cons? ==> StringKeys(vs.head) && StringKeysOf(vs.tail) }

  predicate StringKeysIn(ps: Pairs) {
    ps.PCons? ==> (ps.key.Str? || ps.key.Ref?) && StringKeys(ps.key) && StringKeys(ps.value) && StringKeysIn(ps.rest)
  }

  /** The build stays inside the computed arena, fills it exactly when all keys are strings, and keeps
      every object 8-byte aligned. */
  lemma {:induction false} BuildFits(v: Value, out: nat, table: seq<Obj>)
    requires Filled(table) && RefsOk(v, |table|)
    ensures var r := Build(v, out, table);
            && out <= r.out <= out + Arena(v) && (r.out == out + Arena(v) <==> StringKeys(v))
            && (out % 8 == 0 ==> r.out % 8 == 0)
    decreases v, 0
  {
    hide Filled, Build, Arena, StringKeys;
    match v
    case Arr(items) =>
      BuildOfFits(items, out + RESULT_SIZE, table);
      ArrFits(items, out, table);
    case Hash(pairs) =>
      BuildInFits(pairs, out + RESULT_SIZE, table);
      HashFits(pairs, out, table);
    case _ => LeafFits(v, out, table);
  }

  /** What the two passes have to agree on for a value. */
  ghost predicate Fits(v: Value, out: nat, end: nat) {
    out <= end <= out + Arena(v) && (end == out + Arena(v) <==> StringKeys(v)) && (out % 8 == 0 ==> end % 8 == 0)
  }

  lemma LeafFits(v: Value, out: nat, table: seq<Obj>)
    requires Filled(table) && RefsOk(v, |table|) && !v.Arr? && !v.Hash?
    ensures Fits(v, out, Build(v, out, table).out)
  {
    hide Filled, Aligned;
    if v.Str? {
      TextStaysAligned(out, |v.text|);
    }
  }

  lemma ArrFits(items: Values, out: nat, table: seq<Obj>)
    requires Filled(table) && RefsOkOf(items, |table|)
    requires var r := BuildOf(items, out + RESULT_SIZE, table);
             var end := r.out + POINTER_SIZE * |r.v|;
             && out + RESULT_SIZE <= r.out && end <= out + RESULT_SIZE + ArenaOf(items)
             && (end == out + RESULT_SIZE + ArenaOf(items) <==> StringKeysOf(items))
             && ((out + RESULT_SIZE) % 8 == 0 ==> r.out % 8 == 0)
    ensures Fits(Arr(items), out, Build(Arr(items), out, table).out)
  {
    hide Filled, BuildOf, ArenaOf, StringKeysOf, StringsOf, RefsOkOf;
    var r := BuildOf(items, out + RESULT_SIZE, table);
    StaysAligned(r.out, |r.v|);
  }

  lemma HashFits(pairs: Pairs, out: nat, table: seq<Obj>)
    requires Filled(table) && RefsOkIn(pairs, |table|)
    requires var r := BuildIn(pairs, out + RESULT_SIZE, table);
             var end := r.out + PAIR_SIZE * |r.v|;
             && out + RESULT_SIZE <= r.out && end <= out + RESULT_SIZE + ArenaIn(pairs)
             && (end == out + RESULT_SIZE + ArenaIn(pairs) <==> StringKeysIn(pairs))
             && ((out + RESULT_SIZE) % 8 == 0 ==> r.out % 8 == 0)
    ensures Fits(Hash(pairs), out, Build(Hash(pairs), out, table).out)
  {
    hide Filled, BuildIn, ArenaIn, StringKeysIn, StringsIn, RefsOkIn;
    var r := BuildIn(pairs, out + RESULT_SIZE, table);
    StaysAligned(r.out, |r.v|);
  }

  lemma TextStaysAligned(out: nat, len: nat)
    ensures out % 8 == 0 ==> (out + STR_OFFSET + Aligned(len)) % 8 == 0
  {
  }

  lemma StaysAligned(out: nat, n: nat)
    ensures out % 8 == 0 ==> (out + POINTER_SIZE * n) % 8 == 0 && (out + PAIR_SIZE * n) % 8 == 0
  {
  }

  lemma {:induction false} BuildOfFits(vs: Values, out: nat, table: seq<Obj>)
    requires Filled(table) && RefsOkOf(vs, |table|)
    ensures var r := BuildOf(vs, out, table);
            var end := r.out + POINTER_SIZE * |r.v|;
            && out <= r.out && end <= out + ArenaOf(vs) && (end == out + ArenaOf(vs) <==> StringKeysOf(vs))
            && (out % 8 == 0 ==> r.out % 8 == 0)
    decreases vs, 1
  {
    if vs.Cons? {
      var h := Build(vs.head, out, table);
      BuildFits(vs.head, out, table);
      BuildOfFits(vs.tail, h.out, h.table);
    }
  }

  lemma {:induction false} BuildInFits(ps: Pairs, out: nat, table: seq<Obj>)
    requires Filled(table) && RefsOkIn(ps, |table|)
    ensures var r := BuildIn(ps, out, table);
            var end := r.out + PAIR_SIZE * |r.v|;
            && out <= r.out && end <= out + ArenaIn(ps) && (end == out + ArenaIn(ps) <==> StringKeysIn(ps))
            && (out % 8 == 0 ==> r.out % 8 == 0)
    decreases ps, 1
  {
    if ps.PCons? {
      var k := Build(ps.key, out, table);
      var v := Build(ps.value, k.out, k.table);
      BuildFits(ps.key, out, table);
      BuildFits(ps.value, k.out, k.table);
      BuildInFits(ps.rest, v.out, v.table);
    }
  }

  // ---------------------------------------------------------------- Places

  datatype Kind = TextCell | NodeCell | SlotsCell

  /** A piece of the arena that one object, or the pointers of an array or hash, takes up. */
  datatype Cell = Cell(kind: Kind, addr: nat, size: nat)

  function NodeAt(addr: nat): (c: Cell) { Cell(NodeCell, addr, RESULT_SIZE) }

  function SlotsAt(addr: nat, size: nat): (c: Cell) { Cell(SlotsCell, addr, size) }

  /** The cell of a string; other objects have none here. */
  function TextOf(o: Obj): (c: Cell) {
    if o.OStr? then Cell(TextCell, o.addr, STR_OFFSET + Aligned(|o.text|)) else Cell(TextCell, 0, 0)
  }

  function TextsOfAll(s: seq<Obj>): (r: seq<Cell>)
    ensures |r| == |s|
  {
    seq(|s|, i requires 0 <= i < |s| => TextOf(s[i]))
  }

  /** The cells of a result and all it holds, but for strings, which may be shared. */
  function Owned(o: Obj): (r: seq<Cell>)
    decreases o, 0
  {
    match o
    case ONum(addr, _) => [NodeAt(addr)]
    case OData(addr, _) => [NodeAt(addr)]
    case OArr(addr, slots, items) => [NodeAt(addr)] + OwnedAll(items) + [SlotsAt(slots, POINTER_SIZE * |items|)]
    case OHash(addr, slots, pairs) => [NodeAt(addr)] + OwnedIn(pairs) + [SlotsAt(slots, PAIR_SIZE * |pairs|)]
    case _ => []
  }

  function OwnedAll(s: seq<Obj>): (r: seq<Cell>)
    decreases s, 1
  {
    if s == [] then [] else Owned(s[0]) + OwnedAll(s[1..])
  }

  function OwnedIn(s: seq<Entry<Obj>>): (r: seq<Cell>)
    decreases s, 1
  {
    if s == [] then [] else Owned(s[0].value) + OwnedIn(s[1..])
  }

  /** Every string in a result is one that was registered. */
  predicate Registered(o: Obj, table: seq<Obj>)
    decreases o, 0
  {
    match o
    case OStr(_, _) => o in table
    case OArr(_, _, items) => RegisteredAll(items, table)
    case OHash(_, _, pairs) => RegisteredIn(pairs, table)
    case _ => true
  }

  predicate RegisteredAll(s: seq<Obj>, table: seq<Obj>)
    decreases s, 1
  {
    s != [] ==> Registered(s[0], table) && RegisteredAll(s[1..], table)
  }

  predicate RegisteredIn(s: seq<Entry<Obj>>, table: seq<Obj>)
    decreases s, 1
  {
    s != [] ==> Registered(s[0].value, table) && RegisteredIn(s[1..], table)
  }

  /** What building allocates, in the order of allocation. */
  function Log(v: Value, out: nat, table: seq<Obj>): (r: seq<Cell>)
    requires Filled(table) && RefsOk(v, |table|)
    decreases v, 0
  {
    match v
    case Str(text) => [TextOf(OStr(out, text))]
    case Num(_) => [NodeAt(out)]
    case Data(_) => [NodeAt(out)]
    case Arr(items) =>
      var r := BuildOf(items, out + RESULT_SIZE, table);
      [NodeAt(out)] + LogOf(items, out + RESULT_SIZE, table) + [SlotsAt(r.out, POINTER_SIZE * |r.v|)]
    case Hash(pairs) =>
      var r := BuildIn(pairs, out + RESULT_SIZE, table);
      [NodeAt(out)] + LogIn(pairs, out + RESULT_SIZE, table) + [SlotsAt(r.out, PAIR_SIZE * |r.v|)]
    case _ => []
  }

  function LogOf(vs: Values, out: nat, table: seq<Obj>): (r: seq<Cell>)
    requires Filled(table) && RefsOkOf(vs, |table|)
    decreases vs, 1
  {
    if vs.Nil? then [] else
      var h := Build(vs.head, out, table);
      Log(vs.head, out, table) + LogOf(vs.tail, h.out, h.table)
  }

  function LogIn(ps: Pairs, out: nat, table: seq<Obj>): (r: seq<Cell>)
    requires Filled(table) && RefsOkIn(ps, |table|)
    decreases ps, 1
  {
    if ps.PNil? then [] else
      var k := Build(ps.key, out, table);
      var v := Build(ps.value, k.out, k.table);
      Log(ps.key, out, table) + Log(ps.value, k.out, k.table) + LogIn(ps.rest, v.out, v.table)
  }

  /** One cell behind the other, maybe with gaps, from lo to hi. */
  predicate Ascending(s: seq<Cell>, lo: nat, hi: nat) {
    if s == [] then lo <= hi else lo <= s[0].addr && Ascending(s[1..], s[0].addr + s[0].size, hi)
  }

  /** The same without gaps, in multiples of 8. */
  predicate Tiled(s: seq<Cell>, lo: nat, hi: nat) {
    if s == [] then lo == hi
    else lo == s[0].addr && s[0].size % 8 == 0 && Tiled(s[1..], s[0].addr + s[0].size, hi)
  }

  lemma {:induction false} AscendingConcat(a: seq<Cell>, b: seq<Cell>, lo: nat, mid: nat, hi: nat)
    requires Ascending(a, lo, mid) && Ascending(b, mid, hi)
    ensures Ascending(a + b, lo, hi)
  {
    if a == [] {
      assert a + b == b;
    } else {
      assert (a + b)[1..] == a[1..] + b;
      AscendingConcat(a[1..], b, a[0].addr + a[0].size, mid, hi);
    }
  }

  lemma {:induction false} TiledConcat(a: seq<Cell>, b: seq<Cell>, lo: nat, mid: nat, hi: nat)
    requires Tiled(a, lo, mid) && Tiled(b, mid, hi)
    ensures Tiled(a + b, lo, hi)
  {
    if a == [] {
      assert a + b == b;
    } else {
      assert (a + b)[1..] == a[1..] + b;
      TiledConcat(a[1..], b, a[0].addr + a[0].size, mid, hi);
    }
  }

  lemma {:induction false} AscendingBounds(s: seq<Cell>, lo: nat, hi: nat)
    requires Ascending(s, lo, hi)
    ensures lo <= hi && forall i | 0 <= i < |s| :: lo <= s[i].addr && s[i].addr + s[i].size <= hi
  {
    if s != [] {
      AscendingBounds(s[1..], s[0].addr + s[0].size, hi);
      assert forall i | 0 < i < |s| :: s[i] == s[1..][i - 1];
    }
  }

  lemma {:induction false} AscendingApart(s: seq<Cell>, lo: nat, hi: nat, i: nat, j: nat)
    requires Ascending(s, lo, hi) && i < j < |s|
    ensures s[i].addr + s[i].size <= s[j].addr
  {
    if i == 0 {
      AscendingBounds(s[1..], s[0].addr + s[0].size, hi);
      assert s[j] == s[1..][j - 1];
    } else {
      AscendingApart(s[1..], s[0].addr + s[0].size, hi, i - 1, j - 1);
    }
  }

  lemma {:induction false} TiledAscends(s: seq<Cell>, lo: nat, hi: nat)
    requires Tiled(s, lo, hi)
    ensures Ascending(s, lo, hi)
    ensures lo % 8 == 0 ==> forall c | c in s :: c.addr % 8 == 0
  {
    if s != [] {
      TiledAscends(s[1..], s[0].addr + s[0].size, hi);
      assert s == [s[0]] + s[1..];
    }
  }

  /**
   A part of the build from lo to hi: what it allocates tiles that range, what the result keeps of it
   stands in order, and so do the strings that it registers.
   */
  ghost predicate Laid(owned: seq<Cell>, log: seq<Cell>, table: seq<Obj>, table': seq<Obj>, lo: nat, hi: nat) {
    && Ascending(owned, lo, hi) && Tiled(log, lo, hi)
    && (forall c | c in owned :: c in log && c.kind != TextCell)
    && table <= table'
    && var texts := TextsOfAll(table'[|table|..]);
       Ascending(texts, lo, hi) && forall c | c in texts :: c in log
  }

  lemma LaidThen(o1: seq<Cell>, l1: seq<Cell>, o2: seq<Cell>, l2: seq<Cell>,
                 t0: seq<Obj>, t1: seq<Obj>, t2: seq<Obj>, lo: nat, mid: nat, hi: nat)
    requires Laid(o1, l1, t0, t1, lo, mid) && Laid(o2, l2, t1, t2, mid, hi)
    ensures Laid(o1 + o2, l1 + l2, t0, t2, lo, hi)
  {
    AscendingConcat(o1, o2, lo, mid, hi);
    TiledConcat(l1, l2, lo, mid, hi);
    var a, b := TextsOfAll(t1[|t0|..]), TextsOfAll(t2[|t1|..]);
    AscendingConcat(a, b, lo, mid, hi);
    assert t2[|t0|..] == t1[|t0|..] + t2[|t1|..];
    assert TextsOfAll(t2[|t0|..]) == a + b;
    hide *;
  }

  lemma LaidNothing(table: seq<Obj>, lo: nat)
    ensures Laid([], [], table, table, lo, lo)
  {
    assert table[|table|..] == [];
  }

  lemma LaidCell(c: Cell, table: seq<Obj>)
    requires c.kind != TextCell && c.size % 8 == 0
    ensures Laid([c], [c], table, table, c.addr, c.addr + c.size)
  {
    assert table[|table|..] == [];
    assert [c][1..] == [];
  }

  lemma LaidText(o: Obj, table: seq<Obj>)
    requires o.OStr?
    ensures Laid([], [TextOf(o)], table, table + [o], o.addr, o.addr + STR_OFFSET + Aligned(|o.text|))
  {
    assert (table + [o])[|table|..] == [o];
    assert TextsOfAll([o]) == [TextOf(o)];
    assert [TextOf(o)][1..] == [];
  }

  /** A result may be dropped; what it allocated stays allocated. */
  lemma LaidDropped(owned: seq<Cell>, log: seq<Cell>, table: seq<Obj>, table': seq<Obj>, lo: nat, hi: nat)
    requires Laid(owned, log, table, table', lo, hi)
    ensures Laid([], log, table, table', lo, hi)
  {
    AscendingBounds(owned, lo, hi);
  }

  /** Three parts: an object's own cell, what it holds, and its pointers. */
  lemma LaidAround(owned: seq<Cell>, log: seq<Cell>, table: seq<Obj>, table': seq<Obj>, out: nat, end: nat, size: nat)
    requires Laid(owned, log, table, table', out + RESULT_SIZE, end) && size % 8 == 0
    ensures Laid([NodeAt(out)] + owned + [SlotsAt(end, size)], [NodeAt(out)] + log + [SlotsAt(end, size)], table, table', out, end + size)
  {
    hide Laid;
    LaidCell(NodeAt(out), table);
    LaidThen([NodeAt(out)], [NodeAt(out)], owned, log, table, table, table', out, out + RESULT_SIZE, end);
    LaidCell(SlotsAt(end, size), table');
    LaidThen([NodeAt(out)] + owned, [NodeAt(out)] + log, [SlotsAt(end, size)], [SlotsAt(end, size)],
             table, table', table', out, end, end + size);
  }

  lemma {:induction false} BuildLays(v: Value, out: nat, table: seq<Obj>)
    requires Filled(table) && RefsOk(v, |table|)
    ensures var r := Build(v, out, table); Laid(Owned(r.v), Log(v, out, table), table, r.table, out, r.out)
    decreases v, 0
  {
    hide Laid, Filled, Build, Owned, Log;
    match v
    case Arr(items) =>
      BuildOfLays(items, out + RESULT_SIZE, table);
      ArrLays(items, out, table);
    case Hash(pairs) =>
      BuildInLays(pairs, out + RESULT_SIZE, table);
      HashLays(pairs, out, table);
    case _ => LeafLays(v, out, table);
  }

  lemma ArrLays(items: Values, out: nat, table: seq<Obj>)
    requires Filled(table) && RefsOkOf(items, |table|)
    requires var r := BuildOf(items, out + RESULT_SIZE, table);
             Laid(OwnedAll(r.v), LogOf(items, out + RESULT_SIZE, table), table, r.table, out + RESULT_SIZE, r.out)
    ensures var r := Build(Arr(items), out, table);
            Laid(Owned(r.v), Log(Arr(items), out, table), table, r.table, out, r.out)
  {
    hide Laid, Filled, BuildOf, LogOf, OwnedAll, StringsOf, RefsOkOf;
    var r := BuildOf(items, out + RESULT_SIZE, table);
    LaidAround(OwnedAll(r.v), LogOf(items, out + RESULT_SIZE, table), table, r.table, out, r.out, POINTER_SIZE * |r.v|);
  }

  lemma HashLays(pairs: Pairs, out: nat, table: seq<Obj>)
    requires Filled(table) && RefsOkIn(pairs, |table|)
    requires var r := BuildIn(pairs, out + RESULT_SIZE, table);
             Laid(OwnedIn(r.v), LogIn(pairs, out + RESULT_SIZE, table), table, r.table, out + RESULT_SIZE, r.out)
    ensures var r := Build(Hash(pairs), out, table);
            Laid(Owned(r.v), Log(Hash(pairs), out, table), table, r.table, out, r.out)
  {
    hide Laid, Filled, BuildIn, LogIn, OwnedIn, StringsIn, RefsOkIn;
    var r := BuildIn(pairs, out + RESULT_SIZE, table);
    LaidAround(OwnedIn(r.v), LogIn(pairs, out + RESULT_SIZE, table), table, r.table, out, r.out, PAIR_SIZE * |r.v|);
  }

  lemma LeafLays(v: Value, out: nat, table: seq<Obj>)
    requires Filled(table) && RefsOk(v, |table|) && !v.Arr? && !v.Hash?
    ensures var r := Build(v, out, table); Laid(Owned(r.v), Log(v, out, table), table, r.table, out, r.out)
  {
    hide Laid, Filled, Aligned;
    match v
    case Str(text) => LaidText(OStr(out, text), table);
    case Num(_) => LaidCell(NodeAt(out), table);
    case Data(_) => LaidCell(NodeAt(out), table);
    case Ref(id) =>
      TableHasStrings(table);
      LaidNothing(table, out);
    case _ => LaidNothing(table, out);
  }

  lemma TableHasStrings(table: seq<Obj>)
    ensures Filled(table) ==> forall i | 0 <= i < |table| :: table[i].OStr?
  {
  }

  lemma {:induction false} BuildOfLays(vs: Values, out: nat, table: seq<Obj>)
    requires Filled(table) && RefsOkOf(vs, |table|)
    ensures var r := BuildOf(vs, out, table); Laid(OwnedAll(r.v), LogOf(vs, out, table), table, r.table, out, r.out)
    decreases vs, 1
  {
    hide Laid, Filled, Owned, Log;
    if vs.Nil? {
      LaidNothing(table, out);
    } else {
      var h := Build(vs.head, out, table);
      var t := BuildOf(vs.tail, h.out, h.table);
      BuildLays(vs.head, out, table);
      BuildOfLays(vs.tail, h.out, h.table);
      assert ([h.v] + t.v)[1..] == t.v;
      LaidThen(Owned(h.v), Log(vs.head, out, table), OwnedAll(t.v), LogOf(vs.tail, h.out, h.table),
               table, h.table, t.table, out, h.out, t.out);
    }
  }

  lemma {:induction false} BuildInLays(ps: Pairs, out: nat, table: seq<Obj>)
    requires Filled(table) && RefsOkIn(ps, |table|)
    ensures var r := BuildIn(ps, out, table); Laid(OwnedIn(r.v), LogIn(ps, out, table), table, r.table, out, r.out)
    decreases ps, 1
  {
    hide Laid, Filled, Owned, Log;
    if ps.PNil? {
      LaidNothing(table, out);
    } else {
      var k := Build(ps.key, out, table);
      var v := Build(ps.value, k.out, k.table);
      var t := BuildIn(ps.rest, v.out, v.table);
      var lk, lv, lt := Log(ps.key, out, table), Log(ps.value, k.out, k.table), LogIn(ps.rest, v.out, v.table);
      BuildLays(ps.key, out, table);
      LaidDropped(Owned(k.v), lk, table, k.table, out, k.out);
      BuildLays(ps.value, k.out, k.table);
      BuildInLays(ps.rest, v.out, v.table);
      if k.v.OStr? {
        assert ([Entry(k.v.text, v.v)] + t.v)[1..] == t.v;
        LaidThen([], lk, Owned(v.v), lv, table, k.table, v.table, out, k.out, v.out);
        assert [] + Owned(v.v) == Owned(v.v);
        LaidThen(Owned(v.v), lk + lv, OwnedIn(t.v), lt, table, v.table, t.table, out, v.out, t.out);
      } else {
        assert [] + t.v == t.v;
        LaidDropped(Owned(v.v), lv, k.table, v.table, k.out, v.out);
        LaidThen([], lk, [], lv, table, k.table, v.table, out, k.out, v.out);
        LaidThen([] + [], lk + lv, OwnedIn(t.v), lt, table, v.table, t.table, out, v.out, t.out);
        assert [] + [] + OwnedIn(t.v) == OwnedIn(t.v);
      }
    }
  }

  lemma {:induction false} BuildRegisters(v: Value, out: nat, table: seq<Obj>, all: seq<Obj>)
    requires Filled(table) && RefsOk(v, |table|) && Build(v, out, table).table <= all
    ensures table <= Build(v, out, table).table && Registered(Build(v, out, table).v, all)
    decreases v, 0
  {
    hide Strings, StringsOf, StringsIn, RefsOkOf, RefsOkIn, BuildOf, BuildIn, RegisteredAll, RegisteredIn;
    match v
    case Str(text) => assert all[|table|] == OStr(out, text);
    case Ref(id) => assert all[id] == table[id];
    case Arr(items) => BuildOfRegisters(items, out + RESULT_SIZE, table, all);
    case Hash(pairs) => BuildInRegisters(pairs, out + RESULT_SIZE, table, all);
    case _ =>
  }

  lemma {:induction false} BuildOfRegisters(vs: Values, out: nat, table: seq<Obj>, all: seq<Obj>)
    requires Filled(table) && RefsOkOf(vs, |table|) && BuildOf(vs, out, table).table <= all
    ensures table <= BuildOf(vs, out, table).table && RegisteredAll(BuildOf(vs, out, table).v, all)
    decreases vs, 1
  {
    hide Filled, Registered;
    if vs.Cons? {
      var h := Build(vs.head, out, table);
      var t := BuildOf(vs.tail, h.out, h.table);
      BuildOfRegisters(vs.tail, h.out, h.table, all);
      BuildRegisters(vs.head, out, table, all);
      assert ([h.v] + t.v)[1..] == t.v;
    }
  }

  lemma {:induction false} BuildInRegisters(ps: Pairs, out: nat, table: seq<Obj>, all: seq<Obj>)
    requires Filled(table) && RefsOkIn(ps, |table|) && BuildIn(ps, out, table).table <= all
    ensures table <= BuildIn(ps, out, table).table && RegisteredIn(BuildIn(ps, out, table).v, all)
    decreases ps, 1
  {
    hide Filled, Registered;
    if ps.PCons? {
      var k := Build(ps.key, out, table);
      var v := Build(ps.value, k.out, k.table);
      var t := BuildIn(ps.rest, v.out, v.table);
      BuildInRegisters(ps.rest, v.out, v.table, all);
      BuildRegisters(ps.value, k.out, k.table, all);
      BuildRegisters(ps.key, out, table, all);
      if k.v.OStr? {
        assert ([Entry(k.v.text, v.v)] + t.v)[1..] == t.v;
      } else {
        assert [] + t.v == t.v;
      }
    }
  }

  predicate Apart(c: Cell, d: Cell) {
    c.addr + c.size <= d.addr || d.addr + d.size <= c.addr
  }

  /**
   Every object of a reply lies inside the computed arena at an 8-aligned offset; no two of them overlap,
   and strings, which alone are shared, overlap nothing but themselves.
   */
  lemma ObjectsHaveTheirPlaces(v: Value)
    requires RefsOk(v, 0)
    ensures var r := Build(v, 0, []);
            var owned, texts := Owned(r.v), TextsOfAll(r.table);
            && (forall c | c in owned || c in texts :: c.addr % 8 == 0 && c.addr + c.size <= Arena(v))
            && (forall i, j | 0 <= i < j < |owned| :: Apart(owned[i], owned[j]))
            && (forall i, j | 0 <= i < j < |texts| :: Apart(texts[i], texts[j]))
            && (forall c, t | c in owned && t in texts :: Apart(c, t))
            && Registered(r.v, r.table)
  {
    hide Build, RefsOk, Owned, Log, Registered, Arena, Strings, StringKeys;
    var r := Build(v, 0, []);
    var owned, texts, log := Owned(r.v), TextsOfAll(r.table), Log(v, 0, []);
    BuildLays(v, 0, []);
    BuildFits(v, 0, []);
    BuildRegisters(v, 0, [], r.table);
    assert r.table[0..] == r.table;
    TiledAscends(log, 0, r.out);
    AscendingBounds(log, 0, r.out);
    forall i, j | 0 <= i < j < |owned| ensures Apart(owned[i], owned[j]) {
      AscendingApart(owned, 0, r.out, i, j);
    }
    forall i, j | 0 <= i < j < |texts| ensures Apart(texts[i], texts[j]) {
      AscendingApart(texts, 0, r.out, i, j);
    }
    forall c, t | c in owned && t in texts ensures Apart(c, t) {
      TextKind(r.table, t);
      LogApart(log, r.out, c, t);
    }
  }

  lemma TextKind(table: seq<Obj>, t: Cell)
    requires t in TextsOfAll(table)
    ensures t.kind == TextCell
  {
  }

  lemma LogApart(log: seq<Cell>, hi: nat, c: Cell, d: Cell)
    requires Ascending(log, 0, hi) && c in log && d in log && c != d
    ensures Apart(c, d)
  {
    var i :| 0 <= i < |log| && log[i] == c;
    var j :| 0 <= j < |log| && log[j] == d;
    if i < j {
      AscendingApart(log, 0, hi, i, j);
    } else {
      AscendingApart(log, 0, hi, j, i);
    }
  }

  // ---------------------------------------------------------------- Meaning

  /** A result without addresses. */
  datatype Plain =
    | PText(text: Text)
    | PNum(n: nat)
    | PBool(b: bool)
    | PArr(items: seq<Plain>)
    | PHash(entries: seq<Entry<Plain>>)
    | PData(n: nat)

  function Erase(o: Obj): (p: Plain)
    decreases o, 0
  {
    match o
    case OStr(_, text) => PText(text)
    case ONum(_, n) => PNum(n)
    case OSmall(n) => PNum(n)
    case OBool(b) => PBool(b)
    case OArr(_, _, items) => PArr(EraseAll(items))
    case OHash(_, _, pairs) => PHash(EraseEntries(pairs))
    case OData(_, n) => PData(n)
  }

  function EraseAll(s: seq<Obj>): (r: seq<Plain>)
    decreases s, 1
  {
    if s == [] then [] else [Erase(s[0])] + EraseAll(s[1..])
  }

  function EraseEntries(s: seq<Entry<Obj>>): (r: seq<Entry<Plain>>)
    decreases s, 1
  {
    if s == [] then [] else [Entry(s[0].key, Erase(s[0].value))] + EraseEntries(s[1..])
  }

  /** What a value stands for when `all` lists every string of the reply in reading order. */
  function Meaning(v: Value, all: seq<Text>): (p: Plain)
    decreases v, 0
  {
    match v
    case Str(text) => PText(text)
    case Ref(id) => PText(if id < |all| then all[id] else [])
    case Num(n) => PNum(n)
    case Small(n) => PNum(n)
    case Bool(b) => PBool(b)
    case Arr(items) => PArr(MeaningOf(items, all))
    case Hash(pairs) => PHash(MeaningIn(pairs, all))
    case Data(n) => PData(n)
  }

  function MeaningOf(vs: Values, all: seq<Text>): (r: seq<Plain>)
    decreases vs, 1
  {
    if vs.Nil? then [] else [Meaning(vs.head, all)] + MeaningOf(vs.tail, all)
  }

  function MeaningIn(ps: Pairs, all: seq<Text>): (r: seq<Entry<Plain>>)
    decreases ps, 1
  {
    if ps.PNil? then [] else
      var k := Meaning(ps.key, all);
      (if k.PText? then [Entry(k.text, Meaning(ps.value, all))] else []) + MeaningIn(ps.rest, all)
  }

  function Texts(table: seq<Obj>): (r: seq<Text>)
    requires Filled(table)
    ensures |r| == |table|
  {
    seq(|table|, i requires 0 <= i < |table| => table[i].text)
  }

  lemma TextsSnoc(table: seq<Obj>, o: Obj)
    requires Filled(table) && o.OStr?
    ensures Filled(table + [o]) && Texts(table + [o]) == Texts(table) + [o.text]
  {
  }

  /** Building resolves every reference to the string the whole reply puts under that number. */
  lemma {:induction false} BuildMeans(v: Value, out: nat, table: seq<Obj>, all: seq<Text>)
    requires Filled(table) && RefsOk(v, |table|) && Texts(table) + Strings(v) <= all
    ensures var r := Build(v, out, table);
            Erase(r.v) == Meaning(v, all) && Texts(r.table) == Texts(table) + Strings(v)
    decreases v, 0
  {
    match v
    case Str(text) => TextsSnoc(table, OStr(out, text));
    case Ref(id) => assert all[id] == (Texts(table) + Strings(v))[id] == table[id].text;
    case Arr(items) => BuildOfMeans(items, out + RESULT_SIZE, table, all);
    case Hash(pairs) => BuildInMeans(pairs, out + RESULT_SIZE, table, all);
    case _ =>
  }

  lemma {:induction false} BuildOfMeans(vs: Values, out: nat, table: seq<Obj>, all: seq<Text>)
    requires Filled(table) && RefsOkOf(vs, |table|) && Texts(table) + StringsOf(vs) <= all
    ensures var r := BuildOf(vs, out, table);
            EraseAll(r.v) == MeaningOf(vs, all) && Texts(r.table) == Texts(table) + StringsOf(vs)
    decreases vs, 1
  {
    if vs.Cons? {
      var h := Build(vs.head, out, table);
      PrefixAssoc(Texts(table), Strings(vs.head), StringsOf(vs.tail), all);
      BuildMeans(vs.head, out, table, all);
      BuildOfMeans(vs.tail, h.out, h.table, all);
      var t := BuildOf(vs.tail, h.out, h.table);
      assert ([h.v] + t.v)[1..] == t.v;
    }
  }

  lemma PrefixAssoc<E>(a: seq<E>, b: seq<E>, c: seq<E>, all: seq<E>)
    requires a + (b + c) <= all
    ensures a + b <= all && (a + b) + c <= all && a + (b + c) == (a + b) + c
  {
    assert a + (b + c) == (a + b) + c;
  }

  lemma {:induction false} BuildInMeans(ps: Pairs, out: nat, table: seq<Obj>, all: seq<Text>)
    requires Filled(table) && RefsOkIn(ps, |table|) && Texts(table) + StringsIn(ps) <= all
    ensures var r := BuildIn(ps, out, table);
            EraseEntries(r.v) == MeaningIn(ps, all) && Texts(r.table) == Texts(table) + StringsIn(ps)
    decreases ps, 1
  {
    if ps.PCons? {
      var k := Build(ps.key, out, table);
      var v := Build(ps.value, k.out, k.table);
      var t := BuildIn(ps.rest, v.out, v.table);
      PrefixAssoc(Texts(table), Strings(ps.key) + Strings(ps.value), StringsIn(ps.rest), all);
      PrefixAssoc(Texts(table), Strings(ps.key), Strings(ps.value), all);
      BuildMeans(ps.key, out, table, all);
      BuildMeans(ps.value, k.out, k.table, all);
      BuildInMeans(ps.rest, v.out, v.table, all);
      if k.v.OStr? {
        assert ([Entry(k.v.text, v.v)] + t.v)[1..] == t.v;
      } else {
        assert [] + t.v == t.v;
      }
    }
  }

  // ---------------------------------------------------------------- The building pass as the code runs it

  /** The string branches of do_parse_result: the string is laid out and registered in the next slot. */
  method ParseString(d: Text, p: nat, out: nat, strings: array<Obj>, next: nat) returns (o: Obj, pos: nat)
    requires p < |d| && ValueAt(d, p).Good? && next < strings.Length
    requires SHORT_STR_BASE <= d[p] < SHORT_STR_BASE + SHORT_STR_LEN || STR1 <= d[p] <= STR4
    modifies strings
    ensures var a := ValueAt(d, p);
            && pos == a.next && a.v.Str? && o == OStr(out, a.v.text)
            && strings[..next + 1] == old(strings[..next]) + [o]
  {
    var t, q := d[p], p + 1;
    var len;
    if SHORT_STR_BASE <= t < SHORT_STR_BASE + SHORT_STR_LEN {
      len := t - SHORT_STR_BASE;
    } else {
      var l := t - STR1 + 1;
      len := Le(d[q..q + l]);
      q := q + l;
    }
    o := OStr(out, d[q..q + len]);
    strings[next] := o;
    pos := q + len;
  }

  /** The back-reference branches: the slot named by the reply is one that is already filled. */
  method ParseReference(d: Text, p: nat, out: nat, strings: array<Obj>, next: nat) returns (o: Obj, pos: nat)
    requires p < |d| && ValueAt(d, p).Good? && next <= strings.Length && RefsOk(ValueAt(d, p).v, next)
    requires RSTR1 <= d[p] <= RSTR4 || SHORT_RSTR_BASE <= d[p] < SHORT_RSTR_BASE + SHORT_RSTR_CNT
    ensures var a := ValueAt(d, p);
            pos == a.next && a.v.Ref? && a.v.id < next && o == strings[..next][a.v.id]
  {
    var t, q := d[p], p + 1;
    var id;
    if RSTR1 <= t <= RSTR4 {
      var l := t - RSTR1 + 1;
      id := Le(d[q..q + l]);
      q := q + l;
    } else {
      id := t - SHORT_RSTR_BASE;
    }
    return strings[id], q;
  }

  /** do_parse_result: `strings` has room for every string of the value, `next` slots are filled. */
  method DoParse(d: Text, p: nat, out: nat, strings: array<Obj>, next: nat)
    returns (o: Obj, pos: nat, out': nat, next': nat)
    requires p <= |d| && ValueAt(d, p).Good? && next <= strings.Length && Filled(strings[..next])
    requires RefsOk(ValueAt(d, p).v, next) && next + |Strings(ValueAt(d, p).v)| <= strings.Length
    modifies strings
    ensures var a := ValueAt(d, p);
            var r := Build(a.v, out, old(strings[..next]));
            && next' == next + |Strings(a.v)| <= strings.Length
            && pos == a.next && o == r.v && out' == r.out && strings[..next'] == r.table
    decreases |d| - p, 0
  {
    hide ItemsAt, PairsAt, BuildOf, BuildIn, StringsOf, StringsIn, RefsOkOf, RefsOkIn;
    var t, q := d[p], p + 1;
    out', next' := out, next;
    if SHORT_STR_BASE <= t < SHORT_STR_BASE + SHORT_STR_LEN || STR1 <= t <= STR4 {
      o, pos := ParseString(d, p, out, strings, next);
      return o, pos, out + STR_OFFSET + Aligned(|o.text|), next + 1;
    } else if RSTR1 <= t <= RSTR4 || SHORT_RSTR_BASE <= t < SHORT_RSTR_BASE + SHORT_RSTR_CNT {
      o, pos := ParseReference(d, p, out, strings, next);
      return o, pos, out, next;
    } else if NUM1 <= t <= NUM8 {
      var len := t - NUM1 + 1;
      return ONum(out, Le(d[q..q + len])), q + len, out + RESULT_SIZE, next;
    } else if SMALL_NUM_BASE <= t < SMALL_NUM_BASE + SMALL_NUM_CNT {
      return OSmall(t - SMALL_NUM_BASE), q, out, next;
    } else if t == BTRUE {
      return OBool(true), q, out, next;
    } else if t == BFALSE {
      return OBool(false), q, out, next;
    } else if t == ARRAY {
      var arr;
      arr, pos, out', next' := ParseArray(d, q, out + RESULT_SIZE, strings, next);
      return OArr(out, out', arr), pos, out' + POINTER_SIZE * |arr|, next';
    } else if t == HASH {
      var arr;
      arr, pos, out', next' := ParseHash(d, q, out + RESULT_SIZE, strings, next);
      return OHash(out, out', arr), pos, out' + PAIR_SIZE * |arr|, next';
    } else {
      // the unknown-type case cannot be reached: the sizing pass would have refused the reply
      assert t == DATA;
      return OData(out, Le(d[q..q + 8])), q + 8, out + RESULT_SIZE, next;
    }
  }

  /** The array being built, seen from a place inside it: what is still to come completes the goal. */
  ghost predicate ArrayGoal(d: Text, pos: nat, a: Decoded<Values>, goal: Built<seq<Obj>>, arr: seq<Obj>, out: nat, table: seq<Obj>) {
    && pos < |d| && Filled(table) && a.Good?
    && var b := ItemsAt(d, pos);
       && b.Good? && a.next == b.next && RefsOkOf(b.v, |table|) && |table| + |StringsOf(b.v)| == |goal.table|
       && var r := BuildOf(b.v, out, table);
          goal == Built(arr + r.v, r.out, r.table)
  }

  lemma ArrayGoalStep(d: Text, pos: nat, a: Decoded<Values>, goal: Built<seq<Obj>>, arr: seq<Obj>, out: nat, table: seq<Obj>)
    requires ArrayGoal(d, pos, a, goal, arr, out, table) && d[pos] != END
    ensures var h := ValueAt(d, pos);
            && h.Good? && Filled(table) && RefsOk(h.v, |table|) && |table| + |Strings(h.v)| <= |goal.table|
            && var e := Build(h.v, out, table);
               ArrayGoal(d, h.next, a, goal, arr + [e.v], e.out, e.table)
  {
    hide ValueAt, ItemsAt, Build, Strings, RefsOk;
    ItemsUnfold(d, pos);
    var vs := ItemsAt(d, pos).v;
    var h := Build(vs.head, out, table);
    var rest := BuildOf(vs.tail, h.out, h.table);
    assert arr + ([h.v] + rest.v) == arr + [h.v] + rest.v;
  }

  lemma ArrayGoalEnd(d: Text, pos: nat, a: Decoded<Values>, goal: Built<seq<Obj>>, arr: seq<Obj>, out: nat, table: seq<Obj>)
    requires ArrayGoal(d, pos, a, goal, arr, out, table) && d[pos] == END
    ensures goal == Built(arr, out, table) && a.next == pos + 1
  {
    ItemsEnd(d, pos);
    hide ItemsAt;
    assert arr + [] == arr;
  }

  method ParseArray(d: Text, start: nat, out0: nat, strings: array<Obj>, next0: nat)
    returns (arr: seq<Obj>, pos: nat, out: nat, next: nat)
    requires 0 < start <= |d| && ItemsAt(d, start).Good? && next0 <= strings.Length && Filled(strings[..next0])
    requires RefsOkOf(ItemsAt(d, start).v, next0) && next0 + |StringsOf(ItemsAt(d, start).v)| <= strings.Length
    modifies strings
    ensures var a := ItemsAt(d, start);
            var r := BuildOf(a.v, out0, old(strings[..next0]));
            && next == next0 + |StringsOf(a.v)| <= strings.Length
            && pos == a.next && arr == r.v && out == r.out && strings[..next] == r.table
    decreases |d| - start, 1
  {
    ghost var a := ItemsAt(d, start);
    ghost var goal := BuildOf(a.v, out0, strings[..next0]);
    arr, pos, out, next := [], start, out0, next0;
    assert [] + goal.v == goal.v;
    assert ArrayGoal(d, pos, a, goal, arr, out, strings[..next]);
    hide ArrayGoal, ValueAt, ItemsAt, Build, BuildOf, Strings, StringsOf, RefsOk, RefsOkOf, Filled;
    while d[pos] != END
      invariant start <= pos < |d| && next <= strings.Length
      invariant ArrayGoal(d, pos, a, goal, arr, out, strings[..next]) == true
      decreases |d| - pos
    {
      ArrayGoalStep(d, pos, a, goal, arr, out, strings[..next]);
      var e;
      e, pos, out, next := DoParse(d, pos, out, strings, next);
      arr := arr + [e];
      ArrayGoalInside(d, pos, a, goal, arr, out, strings[..next]);
    }
    ArrayGoalEnd(d, pos, a, goal, arr, out, strings[..next]);
    pos := pos + 1;
  }

  lemma ArrayGoalInside(d: Text, pos: nat, a: Decoded<Values>, goal: Built<seq<Obj>>, arr: seq<Obj>, out: nat, table: seq<Obj>)
    requires ArrayGoal(d, pos, a, goal, arr, out, table)
    ensures pos < |d|
  {
  }

  lemma ItemsUnfold(d: Text, pos: nat)
    requires pos < |d| && d[pos] != END && ItemsAt(d, pos).Good?
    ensures var h := ValueAt(d, pos);
            && h.Good? && h.next < |d| && ItemsAt(d, h.next).Good?
            && ItemsAt(d, pos) == Good(Cons(h.v, ItemsAt(d, h.next).v), ItemsAt(d, h.next).next)
  {
    hide ValueAt;
  }

  lemma ItemsEnd(d: Text, pos: nat)
    requires pos < |d| && d[pos] == END
    ensures ItemsAt(d, pos) == Good(Nil, pos + 1) && PairsAt(d, pos) == Good(PNil, pos + 1)
  {
  }

  lemma PairsSplit(d: Text, pos: nat)
    requires pos < |d| && d[pos] != END && PairsAt(d, pos).Good?
    ensures var k := ValueAt(d, pos);
            && k.Good?
            && var v := ValueAt(d, k.next);
               && v.Good? && v.next < |d| && PairsAt(d, v.next).Good?
               && PairsAt(d, pos) == Good(PCons(k.v, v.v, PairsAt(d, v.next).v), PairsAt(d, v.next).next)
  {
    hide ValueAt;
  }

  /** The same for a hash. */
  ghost predicate HashGoal(d: Text, pos: nat, a: Decoded<Pairs>, goal: Built<seq<Entry<Obj>>>, arr: seq<Entry<Obj>>, out: nat, table: seq<Obj>) {
    && pos < |d| && Filled(table) && a.Good?
    && var b := PairsAt(d, pos);
       && b.Good? && a.next == b.next && RefsOkIn(b.v, |table|) && |table| + |StringsIn(b.v)| == |goal.table|
       && var r := BuildIn(b.v, out, table);
          goal == Built(arr + r.v, r.out, r.table)
  }

  function Entered(arr: seq<Entry<Obj>>, key: Obj, value: Obj): (r: seq<Entry<Obj>>) {
    if key.OStr? then arr + [Entry(key.text, value)] else arr
  }

  lemma HashGoalStep(d: Text, pos: nat, a: Decoded<Pairs>, goal: Built<seq<Entry<Obj>>>, arr: seq<Entry<Obj>>, out: nat, table: seq<Obj>)
    requires HashGoal(d, pos, a, goal, arr, out, table) && d[pos] != END
    ensures var h := ValueAt(d, pos);
            && h.Good? && Filled(table) && RefsOk(h.v, |table|) && |table| + |Strings(h.v)| <= |goal.table|
            && var k := Build(h.v, out, table);
               var w := ValueAt(d, h.next);
               && w.Good? && RefsOk(w.v, |k.table|) && |k.table| + |Strings(w.v)| <= |goal.table|
               && var e := Build(w.v, k.out, k.table);
                  HashGoal(d, w.next, a, goal, Entered(arr, k.v, e.v), e.out, e.table)
  {
    hide ValueAt, PairsAt, Build, Strings, RefsOk;
    PairsSplit(d, pos);
    var ps := PairsAt(d, pos).v;
    var k := Build(ps.key, out, table);
    var e := Build(ps.value, k.out, k.table);
    var rest := BuildIn(ps.rest, e.out, e.table);
    if k.v.OStr? {
      assert arr + ([Entry(k.v.text, e.v)] + rest.v) == Entered(arr, k.v, e.v) + rest.v;
    } else {
      assert [] + rest.v == rest.v;
    }
  }

  lemma HashGoalEnd(d: Text, pos: nat, a: Decoded<Pairs>, goal: Built<seq<Entry<Obj>>>, arr: seq<Entry<Obj>>, out: nat, table: seq<Obj>)
    requires HashGoal(d, pos, a, goal, arr, out, table) && d[pos] == END
    ensures goal == Built(arr, out, table) && a.next == pos + 1
  {
    ItemsEnd(d, pos);
    hide PairsAt;
    assert arr + [] == arr;
  }

  lemma HashGoalInside(d: Text, pos: nat, a: Decoded<Pairs>, goal: Built<seq<Entry<Obj>>>, arr: seq<Entry<Obj>>, out: nat, table: seq<Obj>)
    requires HashGoal(d, pos, a, goal, arr, out, table)
    ensures pos < |d|
  {
  }

  method ParseHash(d: Text, start: nat, out0: nat, strings: array<Obj>, next0: nat)
    returns (arr: seq<Entry<Obj>>, pos: nat, out: nat, next: nat)
    requires 0 < start <= |d| && PairsAt(d, start).Good? && next0 <= strings.Length && Filled(strings[..next0])
    requires RefsOkIn(PairsAt(d, start).v, next0) && next0 + |StringsIn(PairsAt(d, start).v)| <= strings.Length
    modifies strings
    ensures var a := PairsAt(d, start);
            var r := BuildIn(a.v, out0, old(strings[..next0]));
            && next == next0 + |StringsIn(a.v)| <= strings.Length
            && pos == a.next && arr == r.v && out == r.out && strings[..next] == r.table
    decreases |d| - start, 1
  {
    ghost var a := PairsAt(d, start);
    ghost var goal := BuildIn(a.v, out0, strings[..next0]);
    arr, pos, out, next := [], start, out0, next0;
    assert [] + goal.v == goal.v;
    assert HashGoal(d, pos, a, goal, arr, out, strings[..next]);
    hide HashGoal, ValueAt, PairsAt, Build, BuildIn, Strings, StringsIn, RefsOk, RefsOkIn, Filled;
    while d[pos] != END
      invariant start <= pos < |d| && next <= strings.Length
      invariant HashGoal(d, pos, a, goal, arr, out, strings[..next]) == true
      decreases |d| - pos
    {
      HashGoalStep(d, pos, a, goal, arr, out, strings[..next]);
      var key, e;
      key, pos, out, next := DoParse(d, pos, out, strings, next);
      e, pos, out, next := DoParse(d, pos, out, strings, next);
      arr := if key.OStr? then arr + [Entry(key.text, e)] else arr;
      HashGoalInside(d, pos, a, goal, arr, out, strings[..next]);
    }
    HashGoalEnd(d, pos, a, goal, arr, out, strings[..next]);
    pos := pos + 1;
  }

  /** parse_result. `used` is how much of the arena of `size` bytes was written. */
  method ParseResult(d: Text) returns (res: Option<Obj>, size: nat, used: nat)
    ensures var a := ValueAt(d, 0);
            && (res.Some? <==> a.Good? && RefsOk(a.v, 0))
            && (res.Some? ==>
                 && Erase(res.value) == Meaning(a.v, Strings(a.v))
                 && size == Arena(a.v) && used <= size && used % 8 == 0 && (used == size <==> StringKeys(a.v)))
  {
    var r := CalcRetLen(d, 0, 0);
    if !r.Sized? {
      return None, 0, 0;
    }
    ghost var v := ValueAt(d, 0).v;
    var strings := new Obj[r.strcnt](_ => OBool(false));
    assert strings[..0] == [];
    hide ValueAt, Build, Strings, RefsOk, Meaning, Erase, Arena, StringKeys;
    var o, pos, out, next := DoParse(d, 0, 0, strings, 0);
    BuildFits(v, 0, []);
    assert Texts([]) + Strings(v) == Strings(v);
    BuildMeans(v, 0, [], Strings(v));
    return Some(o), r.len, out;
  }
}
