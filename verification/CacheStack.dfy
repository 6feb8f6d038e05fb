/**
 What users of the cache see: the values of one key that are not expiring form a stack. An add pushes,
 a get pops, and steps that do not touch the key leave the stack alone.
 */
module CacheStack {
  import opened Common
  import opened CacheSteps

  /** The values of a key in a bucket list that a get could take, the first to be taken first. */
  function Takeable(s: seq<Element>, timers: map<nat, Timer>, h: Hash, key: string): (r: seq<nat>) {
    if s == [] then []
    else (if Matches(s[0], h, key) && !Running(timers, s[0]) then [s[0].value] else []) + Takeable(s[1..], timers, h, key)
  }

  /** The stack of a key. */
  function Stack(s: State, key: string, hash: Hasher): (r: seq<nat>)
    requires Shaped(s)
  {
    Takeable(s.buckets[HashToBucket(hash(key))], s.timers, hash(key), key)
  }

  /** What a get of the key hands out. */
  function GetResult(s: State, key: string, hash: Hasher): (r: Option<nat>)
    requires Shaped(s)
  {
    var bucket := s.buckets[HashToBucket(hash(key))];
    var i := Pick(bucket, s.timers, hash(key), key);
    if i < |bucket| then Some(bucket[i].value) else None
  }

  function Listed(r: Option<nat>): (s: seq<nat>) {
    if r.Some? then [r.value] else []
  }

  /** What the gets of a run hand out, in order. */
  function HandedOut(s: State, steps: seq<Step>, hash: Hasher): (r: seq<nat>)
    requires Shaped(s)
    decreases |steps|
  {
    if steps == [] then []
    else (if steps[0].Get? then Listed(GetResult(s, steps[0].key, hash)) else []) + HandedOut(Next(s, steps[0], hash), steps[1..], hash)
  }

  lemma StepHands(s: State, step: Step, hash: Hasher)
    requires Shaped(s)
    ensures Next(s, step, hash).handed == s.handed + if step.Get? then Listed(GetResult(s, step.key, hash)) else []
  {
    hide Pick, Place, KeyCount, Left, Cleaned, Without;
  }

  /** The record of values handed out is what the gets returned, no more and no less. */
  lemma {:induction false} HandedIsReturned(s: State, steps: seq<Step>, hash: Hasher)
    requires Shaped(s)
    ensures Run(s, steps, hash).handed == s.handed + HandedOut(s, steps, hash)
    decreases |steps|
  {
    hide Next, GetResult;
    if steps != [] {
      StepHands(s, steps[0], hash);
      HandedIsReturned(Next(s, steps[0], hash), steps[1..], hash);
    }
  }

  /** So each value is returned at most as often as it was added, less the times it was freed. */
  lemma ReturnedAtMostOnce(steps: seq<Step>, hash: Hasher, value: nat)
    ensures var s := Run(INITIAL, steps, hash);
            multiset(HandedOut(INITIAL, steps, hash))[value] + multiset(s.freed)[value] <= multiset(s.added)[value]
  {
    hide Run, HandedOut;
    HandedIsReturned(INITIAL, steps, hash);
    EachValueOnce(steps, hash, value);
    assert INITIAL.handed + HandedOut(INITIAL, steps, hash) == HandedOut(INITIAL, steps, hash);
  }

  // ---------------------------------------------------------------- The stack

  /** What a get could take is what it takes now and what it could take afterwards. */
  ghost predicate Picked(s: seq<Element>, timers: map<nat, Timer>, h: Hash, key: string) {
    var i, t := Pick(s, timers, h, key), Takeable(s, timers, h, key);
    if i == |s| then t == [] else t == [s[i].value] + Takeable(Without(s, i), timers, h, key)
  }

  lemma {:induction false} TakeablePick(s: seq<Element>, timers: map<nat, Timer>, h: Hash, key: string)
    ensures Picked(s, timers, h, key)
  {
    if s != [] {
      TakeablePick(s[1..], timers, h, key);
      hide Picked;
      PickedCons(s, timers, h, key);
    }
  }

  lemma PickedCons(s: seq<Element>, timers: map<nat, Timer>, h: Hash, key: string)
    requires s != [] && Picked(s[1..], timers, h, key)
    ensures Picked(s, timers, h, key)
  {
    hide Matches, Running, Takeable, Pick, Without;
    var i := Pick(s, timers, h, key);
    Unfolded(s, timers, h, key);
    if 0 < i < |s| {
      WithoutCons(s, i);
      Unfolded(Without(s, i), timers, h, key);
    } else if i == 0 {
      WithoutFirst(s);
    }
  }

  lemma Unfolded(s: seq<Element>, timers: map<nat, Timer>, h: Hash, key: string)
    requires s != []
    ensures Takeable(s, timers, h, key) ==
            (if Matches(s[0], h, key) && !Running(timers, s[0]) then [s[0].value] else []) + Takeable(s[1..], timers, h, key)
    ensures Pick(s, timers, h, key) ==
            if Matches(s[0], h, key) && !Running(timers, s[0]) then 0 else 1 + Pick(s[1..], timers, h, key)
  {
    hide Matches, Running;
  }

  lemma WithoutCons(s: seq<Element>, i: nat)
    requires 0 < i < |s|
    ensures Without(s, i) != [] && Without(s, i)[0] == s[0] && Without(s, i)[1..] == Without(s[1..], i - 1)
  {
  }

  lemma WithoutFirst(s: seq<Element>)
    requires s != []
    ensures Without(s, 0) == s[1..]
  {
  }

  /** Only elements of the key matter, and of their timers only whether they run. */
  lemma {:induction false} TakeableSame(s: seq<Element>, t: map<nat, Timer>, t': map<nat, Timer>, h: Hash, key: string)
    requires forall e | e in s && Matches(e, h, key) :: Running(t, e) == Running(t', e)
    ensures Takeable(s, t, h, key) == Takeable(s, t', h, key)
  {
    if s != [] {
      assert forall e | e in s[1..] :: e in s;
      TakeableSame(s[1..], t, t', h, key);
    }
  }

  /** Taking out an element of another key changes nothing. */
  lemma {:induction false} TakeableWithout(s: seq<Element>, timers: map<nat, Timer>, h: Hash, key: string, i: nat)
    requires i < |s| && !Matches(s[i], h, key)
    ensures Takeable(Without(s, i), timers, h, key) == Takeable(s, timers, h, key)
  {
    if i == 0 {
      assert Without(s, i) == s[1..];
    } else {
      assert Without(s, i)[0] == s[0] && Without(s, i)[1..] == Without(s[1..], i - 1);
      TakeableWithout(s[1..], timers, h, key, i - 1);
    }
  }

  lemma {:induction false} TakeableLeft(s: seq<Element>, timers: map<nat, Timer>, h: Hash, key: string, want: Want)
    requires forall e | e in s && Matches(e, h, key) :: !want(e)
    ensures Takeable(Left(s, timers, want), timers, h, key) == Takeable(s, timers, h, key)
  {
    if s != [] {
      assert s[0] in s && forall e | e in s[1..] :: e in s;
      TakeableLeft(s[1..], timers, h, key, want);
      var l := Left(s[1..], timers, want);
      assert ([s[0]] + l)[1..] == l;
    }
  }

  /** A get hands out the top of the stack. */
  lemma GetTakesTop(s: State, key: string, hash: Hasher)
    requires Shaped(s)
    ensures GetResult(s, key, hash) == if Stack(s, key, hash) == [] then None else Some(Stack(s, key, hash)[0])
  {
    TakeablePick(s.buckets[HashToBucket(hash(key))], s.timers, hash(key), key);
  }

  /** A timer that was not running may be unregistered without any other element noticing. */
  lemma Unregistered(s: seq<Element>, timers: map<nat, Timer>, t: nat, h: Hash, key: string)
    requires t in timers && !timers[t].running
    ensures Takeable(s, timers - {t}, h, key) == Takeable(s, timers, h, key)
  {
    TakeableSame(s, timers, timers - {t}, h, key);
  }

  /** A get pops. */
  lemma GetPops(s: State, key: string, hash: Hasher)
    requires Inv(s, hash)
    ensures Stack(Next(s, Get(key), hash), key, hash) == if Stack(s, key, hash) == [] then [] else Stack(s, key, hash)[1..]
  {
    hide Takeable, Pick, Matches, Running, HashToBucket, Conserved, TimersOf;
    var h := hash(key);
    var b := HashToBucket(h);
    var bucket := s.buckets[b];
    var i := Pick(bucket, s.timers, h, key);
    TakeablePick(bucket, s.timers, h, key);
    if i < |bucket| {
      NotRunning(s.timers, bucket[i]);
      Unregistered(Without(bucket, i), s.timers, bucket[i].timer, h, key);
    }
  }

  lemma NotRunning(timers: map<nat, Timer>, e: Element)
    ensures !Running(timers, e) && e.timer in timers ==> !timers[e.timer].running
  {
  }

  /** An add that the limit admits pushes. */
  lemma AddPushes(s: State, key: string, value: nat, maxkeys: nat, hash: Hasher)
    requires Inv(s, hash)
    requires maxkeys == 0 || KeyCount(s.buckets[HashToBucket(hash(key))], hash(key), key) < maxkeys
    ensures Stack(Next(s, Add(key, value, maxkeys), hash), key, hash) == [value] + Stack(s, key, hash)
  {
    hide KeyCount, HashToBucket, Conserved, TimersOf, Placed;
    var h := hash(key);
    var b := HashToBucket(h);
    var r := Next(s, Add(key, value, maxkeys), hash);
    var he := Element(value, h, key, s.lastTimer + 1);
    assert r.buckets[b] == [he] + s.buckets[b] && r.buckets[b][1..] == s.buckets[b];
    NewTimer(s, he, b, hash);
    TakeableSame(s.buckets[b], s.timers, r.timers, h, key);
  }

  lemma NewTimer(s: State, he: Element, b: nat, hash: Hasher)
    requires Inv(s, hash) && b < CACHE_HASH_SIZE && he.timer == s.lastTimer + 1
    ensures forall e | e in s.buckets[b] :: Running(s.timers[he.timer := Timer(false, he)], e) == Running(s.timers, e)
  {
    hide Conserved, TimersOf, Placed;
    forall e | e in s.buckets[b] ensures e.timer != he.timer {
      var i :| 0 <= i < |s.buckets[b]| && s.buckets[b][i] == e;
    }
  }

  // ---------------------------------------------------------------- Steps that do not touch a key

  /** The step concerns an element of the key: one of its users, a cleaning of it, or one of its timers. */
  ghost predicate Touches(s: State, step: Step, key: string) {
    match step
    case Add(k, _, _) => k == key
    case Get(k) => k == key
    case Del(k) => k == key
    case Clean(_, prefixes) => PrefixOfOne(key, prefixes)
    case TimersDue(due) => exists t :: t in due && t in s.timers && s.timers[t].he.key == key
    case TimerCalled(t) => t in s.timers && s.timers[t].he.key == key
    case FreeInHand(_) => false
  }

  lemma OtherKeyOut(s: State, b: nat, i: nat, h: Hash, key: string, c: nat, hash: Hasher)
    requires Inv(s, hash) && b < CACHE_HASH_SIZE && i < |s.buckets[b]| && c < CACHE_HASH_SIZE
    requires s.buckets[b][i].key != key
    ensures var r := TakenOut(s, b, i); Takeable(r.buckets[c], r.timers, h, key) == Takeable(s.buckets[c], s.timers, h, key)
  {
    hide Takeable, HashToBucket, Conserved, TimersOf, Placed;
    var r := TakenOut(s, b, i);
    var e := s.buckets[b][i];
    forall x | x in r.buckets[c] && Matches(x, h, key) ensures Running(s.timers, x) == Running(r.timers, x) {
      if c == b {
        assert x in s.buckets[b];
      }
      var j :| 0 <= j < |s.buckets[c]| && s.buckets[c][j] == x;
      assert s.timers[x.timer].he == x && s.timers[e.timer].he == e;
    }
    TakeableSame(r.buckets[c], s.timers, r.timers, h, key);
    if c == b {
      TakeableWithout(s.buckets[b], s.timers, h, key, i);
    }
  }

  lemma OtherAdd(s: State, other: string, value: nat, maxkeys: nat, key: string, hash: Hasher)
    requires Inv(s, hash) && other != key
    ensures Stack(Next(s, Add(other, value, maxkeys), hash), key, hash) == Stack(s, key, hash)
  {
    hide KeyCount, HashToBucket, Conserved, TimersOf, Placed;
    var c := HashToBucket(hash(key));
    var b := HashToBucket(hash(other));
    var r := Next(s, Add(other, value, maxkeys), hash);
    if r.timers != s.timers {
      var he := Element(value, hash(other), other, s.lastTimer + 1);
      NewTimer(s, he, c, hash);
      TakeableSame(s.buckets[c], s.timers, r.timers, hash(key), key);
      if b == c {
        assert r.buckets[c][1..] == s.buckets[c];
      }
    }
  }

  lemma OtherClean(s: State, b: nat, prefixes: seq<string>, key: string, hash: Hasher)
    requires Inv(s, hash) && !PrefixOfOne(key, prefixes)
    ensures Stack(Next(s, Clean(b, prefixes), hash), key, hash) == Stack(s, key, hash)
  {
    hide HashToBucket, Conserved, TimersOf, Placed, PrefixOfOne, Takeable, Left, Cleaned;
    var c, d := HashToBucket(hash(key)), HashToBucket(b);
    var want := Starting(prefixes);
    var r := CleanBucket(s, d, want);
    LeftAndCleaned(s.buckets[d], s.timers, want);
    CleanedNotRunning(s.buckets[d], s.timers, want);
    forall x | x in r.buckets[c] && Matches(x, hash(key), key) ensures Running(s.timers, x) == Running(r.timers, x) {
    }
    TakeableSame(r.buckets[c], s.timers, r.timers, hash(key), key);
    if c == d {
      TakeableLeft(s.buckets[d], s.timers, hash(key), key, want);
    }
  }

  lemma CleanedNotRunning(s: seq<Element>, timers: map<nat, Timer>, want: Want)
    ensures var gone := set e | e in Cleaned(s, timers, want) :: e.timer;
            forall x: Element | x.timer in gone && x.timer in timers :: !timers[x.timer].running
  {
    LeftAndCleaned(s, timers, want);
  }

  lemma OtherDue(s: State, due: set<nat>, key: string, hash: Hasher)
    requires Inv(s, hash) && !Touches(s, TimersDue(due), key)
    ensures Stack(Next(s, TimersDue(due), hash), key, hash) == Stack(s, key, hash)
  {
    hide HashToBucket, Conserved, TimersOf, Placed, Takeable;
    var c := HashToBucket(hash(key));
    var r := Next(s, TimersDue(due), hash);
    forall x | x in s.buckets[c] && Matches(x, hash(key), key) ensures Running(s.timers, x) == Running(r.timers, x) {
      var j :| 0 <= j < |s.buckets[c]| && s.buckets[c][j] == x;
      assert s.timers[x.timer].he == x;
    }
    TakeableSame(s.buckets[c], s.timers, r.timers, hash(key), key);
  }

  lemma QuietStep(s: State, step: Step, key: string, hash: Hasher)
    requires Inv(s, hash) && !Touches(s, step, key)
    ensures Stack(Next(s, step, hash), key, hash) == Stack(s, key, hash)
  {
    hide HashToBucket, Takeable, TimersOk, Placed, Conserved, KeyCount, Left, Cleaned;
    var c := HashToBucket(hash(key));
    match step
    case Add(other, value, maxkeys) => OtherAdd(s, other, value, maxkeys, key, hash);
    case Get(other) =>
      var b := HashToBucket(hash(other));
      var i := Pick(s.buckets[b], s.timers, hash(other), other);
      if i < |s.buckets[b]| {
        OtherKeyOut(s, b, i, hash(key), key, c, hash);
      }
    case Del(other) =>
      var b := HashToBucket(hash(other));
      var i := Pick(s.buckets[b], s.timers, hash(other), other);
      if i < |s.buckets[b]| {
        OtherKeyOut(s, b, i, hash(key), key, c, hash);
      }
    case Clean(b, prefixes) => OtherClean(s, b, prefixes, key, hash);
    case TimersDue(due) => OtherDue(s, due, key, hash);
    case TimerCalled(t) =>
      if t in s.timers && s.timers[t].running {
        CalledFinds(s, t, hash);
        var b := HashToBucket(s.timers[t].he.hash);
        OtherKeyOut(s, b, Place(s.buckets[b], t), hash(key), key, c, hash);
      }
    case FreeInHand(_) =>
  }

  /** No step of the run touches the key. */
  ghost predicate Quiet(s: State, steps: seq<Step>, key: string, hash: Hasher)
    requires Shaped(s)
    decreases |steps|
  {
    steps != [] ==> !Touches(s, steps[0], key) && Quiet(Next(s, steps[0], hash), steps[1..], key, hash)
  }

  lemma {:induction false} QuietRun(s: State, steps: seq<Step>, key: string, hash: Hasher)
    requires Inv(s, hash) && Quiet(s, steps, key, hash)
    ensures Inv(Run(s, steps, hash), hash) && Stack(Run(s, steps, hash), key, hash) == Stack(s, key, hash)
    decreases |steps|
  {
    hide Inv, Next, Stack, Touches;
    if steps != [] {
      InvShape(s, hash);
      QuietStep(s, steps[0], key, hash);
      NextKeeps(s, steps[0], hash);
      QuietRun(Next(s, steps[0], hash), steps[1..], key, hash);
    }
  }

  /**
   Last in, first out: after an add that the limit admits, and any steps that do not touch the key, the
   next get returns that value, and the one after it what a get would have returned before the add.
   */
  lemma LastInFirstOut(s: State, key: string, value: nat, maxkeys: nat, steps: seq<Step>, hash: Hasher)
    requires Inv(s, hash)
    requires maxkeys == 0 || KeyCount(s.buckets[HashToBucket(hash(key))], hash(key), key) < maxkeys
    requires Quiet(Next(s, Add(key, value, maxkeys), hash), steps, key, hash)
    ensures var r := Run(Next(s, Add(key, value, maxkeys), hash), steps, hash);
            && GetResult(r, key, hash) == Some(value)
            && GetResult(Next(r, Get(key), hash), key, hash) == GetResult(s, key, hash)
  {
    hide Inv, Next, Stack, KeyCount, Quiet, Run, GetResult;
    InvShape(s, hash);
    var a := Next(s, Add(key, value, maxkeys), hash);
    AddPushes(s, key, value, maxkeys, hash);
    NextKeeps(s, Add(key, value, maxkeys), hash);
    QuietRun(a, steps, key, hash);
    var r := Run(a, steps, hash);
    GetTakesTop(r, key, hash);
    GetPops(r, key, hash);
    GetTakesTop(Next(r, Get(key), hash), key, hash);
    GetTakesTop(s, key, hash);
  }
}
