/**
 The cache of pcache.c as interleaved steps: what users and expiring timers do while they hold the lock
 of one bucket. Values are what callers store; each cached element has a timer of its own.
 */
module CacheSteps {
  const CACHE_HASH_SIZE: nat := 2048
  const CACHE_LOCKS: nat := 8
  const UINT32: nat := 0x1_0000_0000

  type Hash = h: nat | h < UINT32
  type Hasher = string -> Hash

  function HashToBucket(h: nat): (b: nat)
    ensures b < CACHE_HASH_SIZE
  {
    h % CACHE_HASH_SIZE
  }

  /** The lock of a 32-bit hash: the product wraps around. */
  function HashToLock(h: Hash): (l: nat) {
    h * CACHE_LOCKS % UINT32 / CACHE_HASH_SIZE % CACHE_LOCKS
  }

  /** The lock of a bucket number: nothing wraps. */
  function BucketToLock(b: nat): (l: nat) {
    b * CACHE_LOCKS / CACHE_HASH_SIZE % CACHE_LOCKS
  }

  /** Whoever comes with the full hash takes the lock of whoever comes with the bucket number. */
  lemma LockOfHash(h: Hash)
    ensures HashToLock(h) == BucketToLock(HashToBucket(h)) < CACHE_LOCKS
  {
    // h is q1 * 2^29 + q2 * 2^11 + b: the product loses q1, the division leaves q2 * 8 + b / 256
    var q1, low := h / 0x2000_0000, h % 0x2000_0000;
    var q2, b := low / CACHE_HASH_SIZE, low % CACHE_HASH_SIZE;
    DivMod(q1 * 0x4_0000 + q2, CACHE_HASH_SIZE, b);
    assert h == CACHE_HASH_SIZE * (q1 * 0x4_0000 + q2) + b;
    DivMod(q1, UINT32, low * CACHE_LOCKS);
    DivMod(q2, CACHE_HASH_SIZE * 8, b * 8);
    assert low * CACHE_LOCKS == 0x4000 * q2 + b * 8;
    DivMod(q2 * 8 + b / 256, CACHE_HASH_SIZE, b % 256 * 8);
    DivMod(q2, CACHE_LOCKS, b / 256);
  }

  lemma DivMod(q: nat, d: nat, r: nat)
    requires r < d
    ensures (d * q + r) / d == q && (d * q + r) % d == r
  {
    var x := d * q + r;
    var k := x / d - q;
    assert d * k + x % d == r;
    NoMultipleBetween(d, k);
  }

  lemma NoMultipleBetween(d: nat, k: int)
    ensures k >= 1 ==> d * k >= d
    ensures k <= -1 ==> d * k + d <= 0
  {
  }

  // ---------------------------------------------------------------- State

  datatype Element = Element(value: nat, hash: Hash, key: string, timer: nat)

  /** A registered timer; `running` once the timer thread has taken it to call cache_timer. */
  datatype Timer = Timer(running: bool, he: Element)

  /**
   `added`, `handed` and `freed` are what users gave, what get returned and what was freed; `inHand`
   is out of the cache and about to be freed by the thread that took it out.
   */
  datatype State = State(
    buckets: seq<seq<Element>>, timers: map<nat, Timer>, lastTimer: nat,
    added: seq<nat>, handed: seq<nat>, freed: seq<nat>, inHand: seq<nat>)

  datatype Step =
    | Add(key: string, value: nat, maxkeys: nat)
    | Get(key: string)
    | Del(key: string)
    | Clean(bucket: nat, prefixes: seq<string>)
    | TimersDue(due: set<nat>)
    | TimerCalled(timer: nat)
    | FreeInHand(which: nat)

  const INITIAL: State := State(seq(CACHE_HASH_SIZE, _ => []), map[], 0, [], [], [], [])

  predicate Running(timers: map<nat, Timer>, e: Element) {
    e.timer in timers && timers[e.timer].running
  }

  predicate Matches(e: Element, h: Hash, key: string) {
    e.hash == h && e.key == key
  }

  /** Where get finds the element it takes: the first of that key that is not expiring. */
  function Pick(s: seq<Element>, timers: map<nat, Timer>, h: Hash, key: string): (i: nat)
    ensures i <= |s|
    ensures i < |s| ==> Matches(s[i], h, key) && !Running(timers, s[i])
    ensures forall j | 0 <= j < i :: !Matches(s[j], h, key) || Running(timers, s[j])
  {
    if s == [] then 0
    else if Matches(s[0], h, key) && !Running(timers, s[0]) then 0
    else 1 + Pick(s[1..], timers, h, key)
  }

  function Without(s: seq<Element>, i: nat): (r: seq<Element>)
    requires i < |s|
  {
    s[..i] + s[i + 1..]
  }

  /** Where an element's timer finds it. */
  function Place(s: seq<Element>, timer: nat): (i: nat)
    ensures i <= |s| && (i < |s| ==> s[i].timer == timer)
    ensures i == |s| ==> forall j | 0 <= j < |s| :: s[j].timer != timer
  {
    if s == [] || s[0].timer == timer then 0 else 1 + Place(s[1..], timer)
  }

  function KeyCount(s: seq<Element>, h: Hash, key: string): (n: nat) {
    if s == [] then 0 else KeyCount(s[1..], h, key) + if Matches(s[0], h, key) then 1 else 0
  }

  type Want = Element -> bool

  predicate PrefixOfOne(key: string, prefixes: seq<string>) {
    exists i :: 0 <= i < |prefixes| && prefixes[i] <= key
  }

  function Starting(prefixes: seq<string>): (w: Want) {
    (e: Element) => PrefixOfOne(e.key, prefixes)
  }

  /** What a cleaning leaves in a bucket, and what it frees. */
  function Left(s: seq<Element>, timers: map<nat, Timer>, want: Want): (r: seq<Element>) {
    if s == [] then []
    else if want(s[0]) && !Running(timers, s[0]) then Left(s[1..], timers, want)
    else [s[0]] + Left(s[1..], timers, want)
  }

  function Cleaned(s: seq<Element>, timers: map<nat, Timer>, want: Want): (r: seq<Element>) {
    if s == [] then []
    else if want(s[0]) && !Running(timers, s[0]) then [s[0]] + Cleaned(s[1..], timers, want)
    else Cleaned(s[1..], timers, want)
  }

  function Values(s: seq<Element>): (r: seq<nat>)
    ensures |r| == |s|
  {
    seq(|s|, i requires 0 <= i < |s| => s[i].value)
  }

  function Timers(s: seq<Element>): (r: seq<nat>)
    ensures |r| == |s|
  {
    seq(|s|, i requires 0 <= i < |s| => s[i].timer)
  }

  // ---------------------------------------------------------------- Steps

  predicate Shaped(s: State) {
    |s.buckets| == CACHE_HASH_SIZE
  }

  /** psync_cache_add; a value that is refused is freed after the lock is released. */
  function Added(s: State, h: Hash, key: string, value: nat, maxkeys: nat): (r: State)
    requires Shaped(s)
  {
    var b := HashToBucket(h);
    var s1 := s.(added := s.added + [value]);
    if maxkeys > 0 && KeyCount(s.buckets[b], h, key) >= maxkeys then s1.(inHand := s.inHand + [value]) else
      var t := s.lastTimer + 1;
      var he := Element(value, h, key, t);
      s1.(buckets := s.buckets[b := [he] + s.buckets[b]], timers := s.timers[t := Timer(false, he)], lastTimer := t)
  }

  /** Takes the element at place i of bucket b out of the cache, with its timer. */
  function TakenOut(s: State, b: nat, i: nat): (r: State)
    requires Shaped(s) && b < CACHE_HASH_SIZE && i < |s.buckets[b]|
  {
    s.(buckets := s.buckets[b := Without(s.buckets[b], i)], timers := s.timers - {s.buckets[b][i].timer})
  }

  /** psync_cache_get */
  function Got(s: State, h: Hash, key: string): (r: State)
    requires Shaped(s)
  {
    var b := HashToBucket(h);
    var i := Pick(s.buckets[b], s.timers, h, key);
    if i == |s.buckets[b]| then s else TakenOut(s, b, i).(handed := s.handed + [s.buckets[b][i].value])
  }

  /** One round of psync_cache_del */
  function Deleted(s: State, h: Hash, key: string): (r: State)
    requires Shaped(s)
  {
    var b := HashToBucket(h);
    var i := Pick(s.buckets[b], s.timers, h, key);
    if i == |s.buckets[b]| then s else TakenOut(s, b, i).(inHand := s.inHand + [s.buckets[b][i].value])
  }

  /** One bucket of psync_cache_clean_starting_with_one_of, or with the empty prefix of psync_cache_clean_all */
  function CleanBucket(s: State, b: nat, want: Want): (r: State)
    requires Shaped(s) && b < CACHE_HASH_SIZE
  {
    var gone := Cleaned(s.buckets[b], s.timers, want);
    s.(buckets := s.buckets[b := Left(s.buckets[b], s.timers, want)],
       timers := s.timers - (set e | e in gone :: e.timer),
       freed := s.freed + Values(gone))
  }

  /** cache_timer up to the free */
  function Called(s: State, t: nat): (r: State)
    requires Shaped(s) && t in s.timers
  {
    var b := HashToBucket(s.timers[t].he.hash);
    var i := Place(s.buckets[b], t);
    if i == |s.buckets[b]| then s else TakenOut(s, b, i).(inHand := s.inHand + [s.buckets[b][i].value])
  }

  /** One step; a timer is called only once it is due, and nothing in hand means nothing to free. */
  function Next(s: State, step: Step, hash: Hasher): (r: State)
    requires Shaped(s)
    ensures Shaped(r)
  {
    match step
    case Add(key, value, maxkeys) => Added(s, hash(key), key, value, maxkeys)
    case Get(key) => Got(s, hash(key), key)
    case Del(key) => Deleted(s, hash(key), key)
    case Clean(b, prefixes) => CleanBucket(s, HashToBucket(b), Starting(prefixes))
    case TimersDue(due) => s.(timers := map t | t in s.timers :: s.timers[t].(running := s.timers[t].running || t in due))
    case TimerCalled(t) => if t in s.timers && s.timers[t].running then Called(s, t) else s
    case FreeInHand(i) =>
      if i >= |s.inHand| then s else s.(freed := s.freed + [s.inHand[i]], inHand := s.inHand[..i] + s.inHand[i + 1..])
  }

  function Run(s: State, steps: seq<Step>, hash: Hasher): (r: State)
    requires Shaped(s)
    ensures Shaped(r)
    decreases |steps|
  {
    if steps == [] then s else Run(Next(s, steps[0], hash), steps[1..], hash)
  }

  // ---------------------------------------------------------------- What every interleaving keeps

  function Total(rows: seq<seq<nat>>): (m: multiset<nat>) {
    if rows == [] then multiset{} else Total(rows[..|rows| - 1]) + multiset(rows[|rows| - 1])
  }

  /** Everything in all buckets, as a multiset of values or of timers. */
  function ValuesOf(bs: seq<seq<Element>>): (m: multiset<nat>) {
    Total(seq(|bs|, b requires 0 <= b < |bs| => Values(bs[b])))
  }

  function TimersOf(bs: seq<seq<Element>>): (m: multiset<nat>) {
    Total(seq(|bs|, b requires 0 <= b < |bs| => Timers(bs[b])))
  }

  /** Every value added is in the cache, was handed out, was freed or is about to be: once, and only once. */
  ghost predicate Conserved(s: State) {
    ValuesOf(s.buckets) + multiset(s.handed) + multiset(s.freed) + multiset(s.inHand) == multiset(s.added)
  }

  /** Registered timers and cached elements belong to each other one to one. */
  ghost predicate TimersOk(s: State) {
    && TimersOf(s.buckets) == multiset(s.timers.Keys)
    && (forall t | t in s.timers :: t <= s.lastTimer && s.timers[t].he.timer == t)
    && (forall b, i | 0 <= b < |s.buckets| && 0 <= i < |s.buckets[b]| ::
          s.buckets[b][i].timer in s.timers && s.timers[s.buckets[b][i].timer].he == s.buckets[b][i])
  }

  ghost predicate Placed(s: State, hash: Hasher) {
    forall b, i | 0 <= b < |s.buckets| && 0 <= i < |s.buckets[b]| ::
      HashToBucket(s.buckets[b][i].hash) == b && s.buckets[b][i].hash == hash(s.buckets[b][i].key)
  }

  ghost predicate Inv(s: State, hash: Hasher) {
    Shaped(s) && Conserved(s) && TimersOk(s) && Placed(s, hash)
  }

  /** Changing one bucket changes the whole by the difference. */
  lemma {:induction false} OneRow(rows: seq<seq<nat>>, b: nat, row: seq<nat>)
    requires b < |rows|
    ensures Total(rows[b := row]) + multiset(rows[b]) == Total(rows) + multiset(row)
    ensures multiset(rows[b]) <= Total(rows)
  {
    var n := |rows| - 1;
    if b < n {
      assert rows[b := row][..n] == rows[..n][b := row];
      OneRow(rows[..n], b, row);
      AddToBoth(Total(rows[..n][b := row]), multiset(rows[b]), Total(rows[..n]), multiset(row), multiset(rows[n]));
      assert Total(rows[b := row]) == Total(rows[..n][b := row]) + multiset(rows[n]);
    } else {
      assert rows[b := row][..n] == rows[..n];
    }
  }

  lemma AddToBoth(a: multiset<nat>, b: multiset<nat>, c: multiset<nat>, d: multiset<nat>, e: multiset<nat>)
    requires a + b == c + d
    ensures (a + e) + b == (c + e) + d
  {
    forall x: nat ensures ((a + e) + b)[x] == ((c + e) + d)[x] {
      assert (a + b)[x] == (c + d)[x];
    }
  }

  lemma OneBucket(bs: seq<seq<Element>>, b: nat, s: seq<Element>)
    requires b < |bs|
    ensures ValuesOf(bs[b := s]) + multiset(Values(bs[b])) == ValuesOf(bs) + multiset(Values(s))
    ensures TimersOf(bs[b := s]) + multiset(Timers(bs[b])) == TimersOf(bs) + multiset(Timers(s))
    ensures multiset(Timers(bs[b])) <= TimersOf(bs)
  {
    hide Values, Timers, Total;
    var vs := seq(|bs|, b requires 0 <= b < |bs| => Values(bs[b]));
    var ts := seq(|bs|, b requires 0 <= b < |bs| => Timers(bs[b]));
    var cs := bs[b := s];
    assert seq(|cs|, b requires 0 <= b < |cs| => Values(cs[b])) == vs[b := Values(s)];
    assert seq(|cs|, b requires 0 <= b < |cs| => Timers(cs[b])) == ts[b := Timers(s)];
    OneRow(vs, b, Values(s));
    OneRow(ts, b, Timers(s));
  }

  lemma ListsConcat(a: seq<Element>, b: seq<Element>)
    ensures Values(a + b) == Values(a) + Values(b) && Timers(a + b) == Timers(a) + Timers(b)
  {
  }

  lemma WithoutOne(s: seq<Element>, i: nat)
    requires i < |s|
    ensures multiset(Values(s)) == multiset(Values(Without(s, i))) + multiset{s[i].value}
    ensures multiset(Timers(s)) == multiset(Timers(Without(s, i))) + multiset{s[i].timer}
  {
    assert s == s[..i] + ([s[i]] + s[i + 1..]);
    ListsConcat(s[..i], [s[i]] + s[i + 1..]);
    ListsConcat([s[i]], s[i + 1..]);
    ListsConcat(s[..i], s[i + 1..]);
    assert Values([s[i]]) == [s[i].value] && Timers([s[i]]) == [s[i].timer];
  }

  lemma {:induction false} LeftAndCleaned(s: seq<Element>, timers: map<nat, Timer>, want: Want)
    ensures var l, c := Left(s, timers, want), Cleaned(s, timers, want);
            && multiset(Values(l)) + multiset(Values(c)) == multiset(Values(s))
            && multiset(Timers(l)) + multiset(Timers(c)) == multiset(Timers(s))
            && (forall e | e in l :: e in s && (Running(timers, e) || !want(e)))
            && (forall e | e in c :: e in s && !Running(timers, e) && want(e))
  {
    hide Running, Values, Timers;
    if s != [] {
      LeftAndCleaned(s[1..], timers, want);
      assert s == [s[0]] + s[1..];
      ListsConcat([s[0]], s[1..]);
      ListsConcat([s[0]], Left(s[1..], timers, want));
      ListsConcat([s[0]], Cleaned(s[1..], timers, want));
    }
  }

  /** Single timers less some of them are the others. */
  lemma SetLess(rest: multiset<nat>, gone: seq<nat>, all: set<nat>)
    requires rest + multiset(gone) == multiset(all)
    ensures rest == multiset(all - set x | x in gone)
    ensures forall x | x in gone :: x in all
  {
    forall x: nat ensures rest[x] == multiset(all - set x | x in gone)[x] {
      assert (rest + multiset(gone))[x] == multiset(all)[x];
      assert x in gone <==> multiset(gone)[x] > 0;
    }
    forall x | x in gone ensures x in all {
      assert (rest + multiset(gone))[x] == multiset(all)[x];
      assert multiset(gone)[x] > 0;
    }
  }

  lemma TimerOfElement(bs: seq<seq<Element>>, b: nat, i: nat)
    requires b < |bs| && i < |bs[b]|
    ensures TimersOf(bs)[bs[b][i].timer] > 0
  {
    OneBucket(bs, b, []);
    assert Timers(bs[b])[i] == bs[b][i].timer;
    assert multiset(Timers(bs[b]))[bs[b][i].timer] > 0;
    hide *;
  }

  /** Taking elements out of one bucket, with their timers, leaves the others with theirs. */
  lemma Shrunk(s: State, b: nat, kept: seq<Element>, gone: seq<Element>, hash: Hasher)
    requires Inv(s, hash) && b < CACHE_HASH_SIZE
    requires multiset(Values(kept)) + multiset(Values(gone)) == multiset(Values(s.buckets[b]))
    requires multiset(Timers(kept)) + multiset(Timers(gone)) == multiset(Timers(s.buckets[b]))
    requires forall e | e in kept :: e in s.buckets[b]
    ensures var r := s.(buckets := s.buckets[b := kept], timers := s.timers - set e | e in gone :: e.timer);
            TimersOk(r) && Placed(r, hash) && ValuesOf(r.buckets) + multiset(Values(gone)) == ValuesOf(s.buckets)
  {
    hide ValuesOf, TimersOf, Values, Timers;
    var r := s.(buckets := s.buckets[b := kept], timers := s.timers - set e | e in gone :: e.timer);
    OneBucket(s.buckets, b, kept);
    Difference(ValuesOf(r.buckets), ValuesOf(s.buckets), multiset(Values(s.buckets[b])), multiset(Values(kept)), multiset(Values(gone)));
    Difference(TimersOf(r.buckets), TimersOf(s.buckets), multiset(Timers(s.buckets[b])), multiset(Timers(kept)), multiset(Timers(gone)));
    SetLess(TimersOf(r.buckets), Timers(gone), s.timers.Keys);
    TimerSet(gone);
    assert r.timers.Keys == s.timers.Keys - set x | x in Timers(gone);
    Subset(s, r, b, hash);
  }

  lemma TimerSet(gone: seq<Element>)
    ensures (set e | e in gone :: e.timer) == set x | x in Timers(gone)
  {
    forall e | e in gone ensures e.timer in Timers(gone) {
      var i :| 0 <= i < |gone| && gone[i] == e;
      assert Timers(gone)[i] == e.timer;
    }
  }

  /** Fewer elements in one bucket keep what was true of each. */
  lemma Subset(s: State, r: State, b: nat, hash: Hasher)
    requires Inv(s, hash) && b < CACHE_HASH_SIZE && Shaped(r)
    requires r.lastTimer == s.lastTimer && (forall t | t in r.timers :: t in s.timers && r.timers[t] == s.timers[t])
    requires TimersOf(r.buckets) == multiset(r.timers.Keys)
    requires r.buckets == s.buckets[b := r.buckets[b]] && forall e | e in r.buckets[b] :: e in s.buckets[b]
    ensures TimersOk(r) && Placed(r, hash)
  {
    hide TimersOf, Values, Timers, HashToBucket, Conserved;
    forall c, i | 0 <= c < |r.buckets| && 0 <= i < |r.buckets[c]|
      ensures r.buckets[c][i].timer in r.timers && r.timers[r.buckets[c][i].timer].he == r.buckets[c][i]
      ensures HashToBucket(r.buckets[c][i].hash) == c && r.buckets[c][i].hash == hash(r.buckets[c][i].key)
    {
      TimerOfElement(r.buckets, c, i);
      var e := r.buckets[c][i];
      assert e in s.buckets[c];
      var j :| 0 <= j < |s.buckets[c]| && s.buckets[c][j] == e;
    }
  }

  lemma Difference(a: multiset<nat>, b: multiset<nat>, whole: multiset<nat>, kept: multiset<nat>, gone: multiset<nat>)
    requires a + whole == b + kept && kept + gone == whole
    ensures a + gone == b
  {
    forall x: nat ensures (a + gone)[x] == b[x] {
      assert (a + whole)[x] == (b + kept)[x] && (kept + gone)[x] == whole[x];
    }
  }

  lemma TakenOutKeeps(s: State, b: nat, i: nat, hash: Hasher)
    requires Inv(s, hash) && b < CACHE_HASH_SIZE && i < |s.buckets[b]|
    ensures var r := TakenOut(s, b, i);
            && TimersOk(r) && Placed(r, hash)
            && ValuesOf(r.buckets) + multiset{s.buckets[b][i].value} == ValuesOf(s.buckets)
  {
    hide ValuesOf, TimersOf, TimersOk, Placed, Values, Timers;
    var e := s.buckets[b][i];
    WithoutOne(s.buckets[b], i);
    OneElement(e);
    Shrunk(s, b, Without(s.buckets[b], i), [e], hash);
    assert (set x | x in [e] :: x.timer) == {e.timer};
  }

  lemma OneElement(e: Element)
    ensures Values([e]) == [e.value] && Timers([e]) == [e.timer]
  {
  }

  // ---------------------------------------------------------------- Steps keep it

  /** A value that moves from one place to another stays one value. */
  lemma Moved(cache: multiset<nat>, cache': multiset<nat>, v: nat, handed: seq<nat>, freed: seq<nat>, inHand: seq<nat>)
    requires cache' + multiset{v} == cache
    ensures cache + multiset(handed) + multiset(freed) + multiset(inHand)
         == cache' + multiset(handed + [v]) + multiset(freed) + multiset(inHand)
         == cache' + multiset(handed) + multiset(freed + [v]) + multiset(inHand)
         == cache' + multiset(handed) + multiset(freed) + multiset(inHand + [v])
  {
  }

  lemma GotKeeps(s: State, h: Hash, key: string, hash: Hasher)
    requires Inv(s, hash)
    ensures Inv(Got(s, h, key), hash) && Inv(Deleted(s, h, key), hash)
  {
    hide ValuesOf, TimersOk, Placed, Pick;
    var b := HashToBucket(h);
    var i := Pick(s.buckets[b], s.timers, h, key);
    if i < |s.buckets[b]| {
      TakenOutKeeps(s, b, i, hash);
      var r := TakenOut(s, b, i);
      Moved(ValuesOf(s.buckets), ValuesOf(r.buckets), s.buckets[b][i].value, s.handed, s.freed, s.inHand);
      Labels(r, hash);
    }
  }

  /** What is not about values in or out of the cache does not depend on them. */
  lemma Labels(s: State, hash: Hasher)
    requires TimersOk(s) && Placed(s, hash)
    ensures forall a, h, f, i :: var r := s.(added := a, handed := h, freed := f, inHand := i); TimersOk(r) && Placed(r, hash)
  {
  }

  lemma CalledKeeps(s: State, t: nat, hash: Hasher)
    requires Inv(s, hash) && t in s.timers
    ensures Inv(Called(s, t), hash)
  {
    hide ValuesOf, TimersOk, Placed;
    var b := HashToBucket(s.timers[t].he.hash);
    var i := Place(s.buckets[b], t);
    if i < |s.buckets[b]| {
      TakenOutKeeps(s, b, i, hash);
      var r := TakenOut(s, b, i);
      Moved(ValuesOf(s.buckets), ValuesOf(r.buckets), s.buckets[b][i].value, s.handed, s.freed, s.inHand);
      Labels(r, hash);
    }
  }

  lemma AddedKeeps(s: State, key: string, value: nat, maxkeys: nat, hash: Hasher)
    requires Inv(s, hash)
    ensures Inv(Added(s, hash(key), key, value, maxkeys), hash)
  {
    hide ValuesOf, TimersOf, TimersOk, Placed, KeyCount, HashToBucket;
    var h := hash(key);
    var b := HashToBucket(h);
    if maxkeys > 0 && KeyCount(s.buckets[b], h, key) >= maxkeys {
      Labels(s, hash);
    } else {
      var he := Element(value, h, key, s.lastTimer + 1);
      var r := s.(buckets := s.buckets[b := [he] + s.buckets[b]], timers := s.timers[he.timer := Timer(false, he)], lastTimer := he.timer);
      AddedTotals(s, r, b, he, hash);
      AddedElements(s, r, b, he, hash);
      Labels(r, hash);
    }
  }

  lemma AddedTotals(s: State, r: State, b: nat, he: Element, hash: Hasher)
    requires Inv(s, hash) && b < CACHE_HASH_SIZE && he.timer == s.lastTimer + 1
    requires r.buckets == s.buckets[b := [he] + s.buckets[b]] && r.timers == s.timers[he.timer := Timer(false, he)]
    ensures ValuesOf(r.buckets) == ValuesOf(s.buckets) + multiset{he.value}
    ensures TimersOf(r.buckets) == multiset(r.timers.Keys)
  {
    assert he.timer !in s.timers;
    assert r.timers.Keys == s.timers.Keys + {he.timer};
    OneMoreTimer(s.timers.Keys, he.timer);
    BucketGrows(s.buckets, b, he);
    hide *;
  }

  lemma OneMoreTimer(keys: set<nat>, t: nat)
    requires t !in keys
    ensures multiset(keys + {t}) == multiset(keys) + multiset{t}
  {
  }

  lemma BucketGrows(bs: seq<seq<Element>>, b: nat, he: Element)
    requires b < |bs|
    ensures var cs := bs[b := [he] + bs[b]];
            ValuesOf(cs) == ValuesOf(bs) + multiset{he.value} && TimersOf(cs) == TimersOf(bs) + multiset{he.timer}
  {
    hide ValuesOf, TimersOf, Values, Timers;
    var s := [he] + bs[b];
    var cs := bs[b := s];
    OneElement(he);
    ListsConcat([he], bs[b]);
    OneBucket(bs, b, s);
    Difference(ValuesOf(bs), ValuesOf(cs), multiset(Values(s)), multiset(Values(bs[b])), multiset{he.value});
    Difference(TimersOf(bs), TimersOf(cs), multiset(Timers(s)), multiset(Timers(bs[b])), multiset{he.timer});
  }

  lemma AddedElements(s: State, r: State, b: nat, he: Element, hash: Hasher)
    requires Inv(s, hash) && b < CACHE_HASH_SIZE && he.timer == s.lastTimer + 1
    requires b == HashToBucket(he.hash) && he.hash == hash(he.key)
    requires r.buckets == s.buckets[b := [he] + s.buckets[b]] && r.timers == s.timers[he.timer := Timer(false, he)]
    requires r.lastTimer == he.timer && TimersOf(r.buckets) == multiset(r.timers.Keys)
    ensures TimersOk(r) && Placed(r, hash)
  {
    hide TimersOf, HashToBucket, Conserved;
    forall c, i | 0 <= c < |r.buckets| && 0 <= i < |r.buckets[c]|
      ensures r.buckets[c][i].timer in r.timers && r.timers[r.buckets[c][i].timer].he == r.buckets[c][i]
      ensures HashToBucket(r.buckets[c][i].hash) == c && r.buckets[c][i].hash == hash(r.buckets[c][i].key)
    {
      if c != b {
        assert r.buckets[c][i] == s.buckets[c][i];
      } else if i > 0 {
        assert r.buckets[c][i] == s.buckets[c][i - 1];
      }
    }
  }

  lemma CleanKeeps(s: State, b: nat, want: Want, hash: Hasher)
    requires Inv(s, hash) && b < CACHE_HASH_SIZE
    ensures Inv(CleanBucket(s, b, want), hash)
  {
    hide ValuesOf, TimersOk, Placed, Values, Timers, Left, Cleaned;
    LeftAndCleaned(s.buckets[b], s.timers, want);
    var kept, gone := Left(s.buckets[b], s.timers, want), Cleaned(s.buckets[b], s.timers, want);
    Shrunk(s, b, kept, gone, hash);
    var r := s.(buckets := s.buckets[b := kept], timers := s.timers - set e | e in gone :: e.timer);
    Labels(r, hash);
    assert multiset(s.freed + Values(gone)) == multiset(s.freed) + multiset(Values(gone));
    MovedMany(ValuesOf(s.buckets), ValuesOf(r.buckets), multiset(Values(gone)), multiset(s.handed), multiset(s.freed), multiset(s.inHand));
  }

  lemma MovedMany(cache: multiset<nat>, cache': multiset<nat>, v: multiset<nat>, handed: multiset<nat>, freed: multiset<nat>, inHand: multiset<nat>)
    requires cache' + v == cache
    ensures cache + handed + freed + inHand == cache' + handed + (freed + v) + inHand
  {
  }

  lemma DueKeeps(s: State, due: set<nat>, hash: Hasher)
    requires Inv(s, hash)
    ensures Inv(Next(s, TimersDue(due), hash), hash)
  {
    hide TimersOf, ValuesOf, HashToBucket;
    assert Next(s, TimersDue(due), hash).timers.Keys == s.timers.Keys;
  }

  lemma FreeKeeps(s: State, i: nat, hash: Hasher)
    requires Inv(s, hash)
    ensures Inv(Next(s, FreeInHand(i), hash), hash)
  {
    hide ValuesOf, TimersOk, Placed;
    if i < |s.inHand| {
      Labels(s, hash);
      OneOut(s.inHand, i);
    }
  }

  lemma OneOut(s: seq<nat>, i: nat)
    requires i < |s|
    ensures multiset(s) == multiset(s[..i] + s[i + 1..]) + multiset{s[i]}
  {
    assert s == s[..i] + ([s[i]] + s[i + 1..]);
  }

  lemma NextKeeps(s: State, step: Step, hash: Hasher)
    requires Inv(s, hash)
    ensures Inv(Next(s, step, hash), hash)
  {
    match step
    case Add(key, value, maxkeys) => AddedKeeps(s, key, value, maxkeys, hash); hide Inv;
    case Get(key) => GotKeeps(s, hash(key), key, hash); hide Inv;
    case Del(key) => GotKeeps(s, hash(key), key, hash); hide Inv;
    case Clean(b, prefixes) => CleanKeeps(s, HashToBucket(b), Starting(prefixes), hash); hide Inv;
    case TimersDue(due) => DueKeeps(s, due, hash); hide Inv;
    case FreeInHand(i) => FreeKeeps(s, i, hash); hide Inv;
    case TimerCalled(t) =>
      if t in s.timers && s.timers[t].running {
        CalledKeeps(s, t, hash);
      }
      hide Inv;
  }

  lemma InitKeeps(hash: Hasher)
    ensures Inv(INITIAL, hash)
  {
    hide Total;
    EmptyTotals(INITIAL.buckets);
  }

  lemma EmptyTotals(bs: seq<seq<Element>>)
    requires forall b | 0 <= b < |bs| :: bs[b] == []
    ensures ValuesOf(bs) == TimersOf(bs) == multiset{}
  {
    EmptyRows(seq(|bs|, b requires 0 <= b < |bs| => Values(bs[b])));
    EmptyRows(seq(|bs|, b requires 0 <= b < |bs| => Timers(bs[b])));
    hide Total;
  }

  lemma {:induction false} EmptyRows(rows: seq<seq<nat>>)
    requires forall b | 0 <= b < |rows| :: rows[b] == []
    ensures Total(rows) == multiset{}
  {
    if rows != [] {
      EmptyRows(rows[..|rows| - 1]);
    }
  }

  lemma {:induction false} RunKeeps(s: State, steps: seq<Step>, hash: Hasher)
    requires Inv(s, hash)
    ensures Inv(Run(s, steps, hash), hash)
    decreases |steps|
  {
    hide Inv, Next;
    if steps != [] {
      NextKeeps(s, steps[0], hash);
      InvShape(s, hash);
      RunKeeps(Next(s, steps[0], hash), steps[1..], hash);
    }
  }

  lemma InvShape(s: State, hash: Hasher)
    requires Inv(s, hash)
    ensures Shaped(s)
  {
  }

  /**
   In every interleaving, as often as a value was added it is now in the cache, was handed out by get,
   was freed, or is in the hands of a thread that is about to free it.
   */
  lemma EachValueOnce(steps: seq<Step>, hash: Hasher, value: nat)
    ensures Shaped(INITIAL)
    ensures var s := Run(INITIAL, steps, hash);
            multiset(s.added)[value] ==
              ValuesOf(s.buckets)[value] + multiset(s.handed)[value] + multiset(s.freed)[value] + multiset(s.inHand)[value]
  {
    hide ValuesOf, TimersOk, Placed;
    InitKeeps(hash);
    RunKeeps(INITIAL, steps, hash);
    var s := Run(INITIAL, steps, hash);
    assert multiset(s.added)[value] == (ValuesOf(s.buckets) + multiset(s.handed) + multiset(s.freed) + multiset(s.inHand))[value];
  }

  /** The timer thread always finds the element it was called for, in the bucket its hash says. */
  lemma CalledFinds(s: State, t: nat, hash: Hasher)
    requires Inv(s, hash) && t in s.timers
    ensures var b := HashToBucket(s.timers[t].he.hash);
            var i := Place(s.buckets[b], t);
            i < |s.buckets[b]| && s.buckets[b][i] == s.timers[t].he
  {
    hide TimersOf, HashToBucket, Conserved;
    assert multiset(s.timers.Keys)[t] == 1;
    var b, i := FindTimer(s.buckets, t);
  }

  lemma FindTimer(bs: seq<seq<Element>>, t: nat) returns (b: nat, i: nat)
    requires TimersOf(bs)[t] > 0
    ensures b < |bs| && i < |bs[b]| && bs[b][i].timer == t
  {
    var rows := seq(|bs|, b requires 0 <= b < |bs| => Timers(bs[b]));
    b, i := FindIn(rows, t);
    assert rows[b] == Timers(bs[b]);
  }

  lemma {:induction false} FindIn(rows: seq<seq<nat>>, t: nat) returns (b: nat, i: nat)
    requires Total(rows)[t] > 0
    ensures b < |rows| && i < |rows[b]| && rows[b][i] == t
  {
    var n := |rows| - 1;
    if multiset(rows[n])[t] > 0 {
      b := n;
      assert t in rows[n];
      i :| 0 <= i < |rows[n]| && rows[n][i] == t;
    } else {
      b, i := FindIn(rows[..n], t);
    }
  }

  // ---------------------------------------------------------------- How many of one key

  /** Every value of this key is added with a limit between 1 and `limit`. */
  predicate Limited(steps: seq<Step>, key: string, limit: nat) {
    forall i | 0 <= i < |steps| :: steps[i].Add? && steps[i].key == key ==> 0 < steps[i].maxkeys <= limit
  }

  lemma {:induction false} CountWithout(s: seq<Element>, i: nat, h: Hash, key: string)
    requires i < |s|
    ensures KeyCount(Without(s, i), h, key) <= KeyCount(s, h, key)
  {
    if i > 0 {
      assert Without(s, i)[0] == s[0] && Without(s, i)[1..] == Without(s[1..], i - 1);
      CountWithout(s[1..], i - 1, h, key);
    } else {
      assert Without(s, i) == s[1..];
    }
  }

  lemma {:induction false} CountLeft(s: seq<Element>, timers: map<nat, Timer>, want: Want, h: Hash, key: string)
    ensures KeyCount(Left(s, timers, want), h, key) <= KeyCount(s, h, key)
  {
    if s != [] {
      CountLeft(s[1..], timers, want, h, key);
      var t := Left(s[1..], timers, want);
      assert ([s[0]] + t)[1..] == t;
    }
  }

  lemma NextCount(s: State, step: Step, hash: Hasher, key: string, limit: nat)
    requires Shaped(s) && Limited([step], key, limit)
    requires KeyCount(s.buckets[HashToBucket(hash(key))], hash(key), key) <= limit
    ensures KeyCount(Next(s, step, hash).buckets[HashToBucket(hash(key))], hash(key), key) <= limit
  {
    hide Left, Cleaned, Without, Pick, Place, HashToBucket;
    var h := hash(key);
    var b := HashToBucket(h);
    assert [step][0] == step;
    forall i | 0 <= i < |s.buckets[b]| ensures KeyCount(Without(s.buckets[b], i), h, key) <= KeyCount(s.buckets[b], h, key) {
      CountWithout(s.buckets[b], i, h, key);
    }
    match step
    case Add(k, value, maxkeys) =>
      var he := Element(value, hash(k), k, s.lastTimer + 1);
      assert ([he] + s.buckets[b])[1..] == s.buckets[b];
    case Clean(c, prefixes) =>
      CountLeft(s.buckets[b], s.timers, Starting(prefixes), h, key);
    case _ =>
  }

  /** A key that is always added with limits of at most `limit` never has more elements than that. */
  lemma {:induction false} NeverMoreThanLimit(s: State, steps: seq<Step>, hash: Hasher, key: string, limit: nat)
    requires Shaped(s) && Limited(steps, key, limit)
    requires KeyCount(s.buckets[HashToBucket(hash(key))], hash(key), key) <= limit
    ensures KeyCount(Run(s, steps, hash).buckets[HashToBucket(hash(key))], hash(key), key) <= limit
    decreases |steps|
  {
    hide Next, KeyCount, HashToBucket;
    if steps != [] {
      assert steps[0] == [steps[0]][0];
      NextCount(s, steps[0], hash, key, limit);
      NeverMoreThanLimit(Next(s, steps[0], hash), steps[1..], hash, key, limit);
    }
  }

  // ---------------------------------------------------------------- Locks

  /** The lock a step holds, as its code computes it; none when it touches no bucket. */
  function LockHeld(s: State, step: Step, hash: Hasher): (lock: int) {
    match step
    case Add(key, _, _) => HashToLock(hash(key))
    case Get(key) => HashToLock(hash(key))
    case Del(key) => HashToLock(hash(key))
    case Clean(b, _) => BucketToLock(HashToBucket(b))
    case TimerCalled(t) => if t in s.timers then HashToLock(s.timers[t].he.hash) else -1
    case _ => -1
  }

  /** A step changes only buckets whose lock it holds. */
  lemma StepStaysUnderLock(s: State, step: Step, hash: Hasher, b: nat)
    requires Shaped(s) && b < CACHE_HASH_SIZE && BucketToLock(b) != LockHeld(s, step, hash)
    ensures Next(s, step, hash).buckets[b] == s.buckets[b]
  {
    hide HashToBucket, HashToLock, BucketToLock, Left, Cleaned, KeyCount;
    match step
    case Add(key, _, _) => LockOfHash(hash(key));
    case Get(key) => LockOfHash(hash(key));
    case Del(key) => LockOfHash(hash(key));
    case TimerCalled(t) =>
      if t in s.timers {
        LockOfHash(s.timers[t].he.hash);
      }
    case _ =>
  }

  // ---------------------------------------------------------------- A bucket cleaned element by element

  /** What cleaning a bucket from place i on leads to. */
  function CleanRest(s: State, b: nat, i: nat, want: Want): (r: State)
    requires Shaped(s) && b < CACHE_HASH_SIZE && i <= |s.buckets[b]|
  {
    var rest := s.buckets[b][i..];
    var gone := Cleaned(rest, s.timers, want);
    s.(buckets := s.buckets[b := s.buckets[b][..i] + Left(rest, s.timers, want)],
       timers := s.timers - (set e | e in gone :: e.timer),
       freed := s.freed + Values(gone))
  }

  lemma CleanFromStart(s: State, b: nat, want: Want)
    requires Shaped(s) && b < CACHE_HASH_SIZE
    ensures CleanRest(s, b, 0, want) == CleanBucket(s, b, want)
  {
    assert s.buckets[b][0..] == s.buckets[b];
    hide Left, Cleaned, Values;
    assert [] + Left(s.buckets[b], s.timers, want) == Left(s.buckets[b], s.timers, want);
  }

  lemma CleanToEnd(s: State, b: nat, want: Want)
    requires Shaped(s) && b < CACHE_HASH_SIZE
    ensures CleanRest(s, b, |s.buckets[b]|, want) == s
  {
    assert s.buckets[b][..|s.buckets[b]|] + [] == s.buckets[b];
    assert s.buckets[b := s.buckets[b]] == s.buckets;
    assert s.timers - {} == s.timers;
  }

  /** An element that stays is passed. */
  lemma CleanPasses(s: State, b: nat, i: nat, want: Want)
    requires Shaped(s) && b < CACHE_HASH_SIZE && i < |s.buckets[b]|
    requires !want(s.buckets[b][i]) || Running(s.timers, s.buckets[b][i])
    ensures CleanRest(s, b, i, want) == CleanRest(s, b, i + 1, want)
  {
    var lst := s.buckets[b];
    assert lst[i..] == [lst[i]] + lst[i + 1..];
    assert lst[..i + 1] == lst[..i] + [lst[i]];
    var l := Left(lst[i + 1..], s.timers, want);
    assert lst[..i] + ([lst[i]] + l) == (lst[..i] + [lst[i]]) + l;
  }

  /** Takes the element at place i out and frees its value at once. */
  function TakenAndFreed(s: State, b: nat, i: nat): (r: State)
    requires Shaped(s) && b < CACHE_HASH_SIZE && i < |s.buckets[b]|
  {
    TakenOut(s, b, i).(freed := s.freed + [s.buckets[b][i].value])
  }

  lemma TakenAndFreedKeeps(s: State, b: nat, i: nat, hash: Hasher)
    requires Inv(s, hash) && b < CACHE_HASH_SIZE && i < |s.buckets[b]|
    ensures Inv(TakenAndFreed(s, b, i), hash)
  {
    hide ValuesOf, TimersOk, Placed;
    TakenOutKeeps(s, b, i, hash);
    var r := TakenOut(s, b, i);
    Moved(ValuesOf(s.buckets), ValuesOf(r.buckets), s.buckets[b][i].value, s.handed, s.freed, s.inHand);
    Labels(r, hash);
  }

  /** Without timers that were not running, the same elements are running. */
  lemma {:induction false} SameCleaning(s: seq<Element>, timers: map<nat, Timer>, gone: set<nat>, want: Want)
    requires forall t | t in gone && t in timers :: !timers[t].running
    ensures Left(s, timers - gone, want) == Left(s, timers, want) && Cleaned(s, timers - gone, want) == Cleaned(s, timers, want)
  {
    if s != [] {
      SameCleaning(s[1..], timers, gone, want);
    }
  }

  /** An element that goes is gone before the rest is cleaned. */
  lemma CleanTakes(s: State, b: nat, i: nat, want: Want)
    requires Shaped(s) && b < CACHE_HASH_SIZE && i < |s.buckets[b]| && s.buckets[b][i].timer in s.timers
    requires want(s.buckets[b][i]) && !Running(s.timers, s.buckets[b][i])
    ensures CleanRest(s, b, i, want) == CleanRest(TakenAndFreed(s, b, i), b, i, want)
  {
    hide Values;
    var lst := s.buckets[b];
    var e, rest := lst[i], lst[i + 1..];
    assert lst[i..] == [e] + rest;
    SameCleaning(rest, s.timers, {e.timer}, want);
    assert Without(lst, i)[..i] == lst[..i] && Without(lst, i)[i..] == rest;
    var gone := Cleaned(rest, s.timers, want);
    ListsConcat([e], gone);
    OneElement(e);
    assert s.freed + ([e.value] + Values(gone)) == (s.freed + [e.value]) + Values(gone);
    assert s.timers - (set x | x in [e] + gone :: x.timer) == (s.timers - {e.timer}) - (set x | x in gone :: x.timer);
    assert s.buckets[b := Without(lst, i)][b := lst[..i] + Left(rest, s.timers, want)]
        == s.buckets[b := lst[..i] + Left(rest, s.timers, want)];
  }

  /** Cleaning may as well start at any place before which everything stays. */
  lemma {:induction false} CleanSkips(s: State, b: nat, i: nat, want: Want)
    requires Shaped(s) && b < CACHE_HASH_SIZE && i <= |s.buckets[b]|
    requires forall j | 0 <= j < i :: !want(s.buckets[b][j]) || Running(s.timers, s.buckets[b][j])
    ensures CleanBucket(s, b, want) == CleanRest(s, b, i, want)
  {
    hide CleanRest, CleanBucket;
    if i == 0 {
      CleanFromStart(s, b, want);
    } else {
      CleanSkips(s, b, i - 1, want);
      CleanPasses(s, b, i - 1, want);
    }
  }

  function OfKey(h: Hash, key: string): (w: Want) {
    (e: Element) => Matches(e, h, key)
  }

  /** A round of del leaves the others to be deleted; when it finds none, nothing is left to delete. */
  lemma DelRound(s: State, b: nat, h: Hash, key: string)
    requires Shaped(s) && b < CACHE_HASH_SIZE
    ensures var i := Pick(s.buckets[b], s.timers, h, key);
            if i == |s.buckets[b]| then CleanBucket(s, b, OfKey(h, key)) == s
            else s.buckets[b][i].timer in s.timers ==>
                 CleanBucket(s, b, OfKey(h, key)) == CleanBucket(TakenAndFreed(s, b, i), b, OfKey(h, key))
  {
    hide CleanRest, CleanBucket, Pick, Left, Cleaned;
    var w := OfKey(h, key);
    var i := Pick(s.buckets[b], s.timers, h, key);
    CleanSkips(s, b, i, w);
    if i == |s.buckets[b]| {
      CleanToEnd(s, b, w);
    } else if s.buckets[b][i].timer in s.timers {
      CleanTakes(s, b, i, w);
      CleanSkips(TakenAndFreed(s, b, i), b, i, w);
    }
  }

  /** The buckets from b on cleaned one after the other. */
  function CleanFrom(s: State, b: nat, want: Want): (r: State)
    requires Shaped(s) && b <= CACHE_HASH_SIZE
    ensures Shaped(r)
    decreases CACHE_HASH_SIZE - b
  {
    if b == CACHE_HASH_SIZE then s else CleanFrom(CleanBucket(s, b, want), b + 1, want)
  }

  /** A whole cleaning leaves of every bucket what was not wanted or is expiring, in its order. */
  lemma {:induction false} CleanFromLeaves(s: State, b: nat, want: Want, c: nat)
    requires Shaped(s) && b <= CACHE_HASH_SIZE && c < CACHE_HASH_SIZE
    ensures CleanFrom(s, b, want).buckets[c] == if c < b then s.buckets[c] else Left(s.buckets[c], s.timers, want)
    decreases CACHE_HASH_SIZE - b
  {
    hide Left, Cleaned;
    if b < CACHE_HASH_SIZE {
      LeftAndCleaned(s.buckets[b], s.timers, want);
      var gone := set e | e in Cleaned(s.buckets[b], s.timers, want) :: e.timer;
      SameCleaning(s.buckets[c], s.timers, gone, want);
      CleanFromLeaves(CleanBucket(s, b, want), b + 1, want, c);
    }
  }

  lemma HasTimer(s: State, b: nat, i: nat, hash: Hasher)
    requires Inv(s, hash) && b < CACHE_HASH_SIZE && i < |s.buckets[b]|
    ensures s.buckets[b][i].timer in s.timers
  {
  }
}
