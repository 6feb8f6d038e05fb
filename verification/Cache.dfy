/**
 pcache.c itself: an array of bucket lists that users and the timer thread change in place. Every
 critical section is proved to be a step of CacheSteps, and so keeps what every interleaving keeps.
 */
module Cache {
  import opened Common
  import opened CacheSteps

  class Table {
    const hash: Hasher
    const buckets: array<seq<Element>>
    var timers: map<nat, Timer>
    var lastTimer: nat
    var added: seq<nat>
    var handed: seq<nat>
    var freed: seq<nat>
    var inHand: seq<nat>

    ghost function View(): (s: State)
      reads this, buckets
    {
      State(buckets[..], timers, lastTimer, added, handed, freed, inHand)
    }

    ghost predicate Valid()
      reads this, buckets
    {
      buckets.Length == CACHE_HASH_SIZE && Inv(View(), hash)
    }

    /** psync_cache_init */
    constructor (hash: Hasher)
      ensures Valid() && View() == INITIAL && this.hash == hash && fresh(buckets)
    {
      this.hash := hash;
      buckets := new seq<Element>[CACHE_HASH_SIZE](_ => []);
      timers, lastTimer, added, handed, freed, inHand := map[], 0, [], [], [], [];
      new;
      assert View() == INITIAL;
      InitKeeps(hash);
    }

    /** psync_timer_stop: true when the timer thread already has the timer. Only a registered timer may be stopped. */
    method TimerStop(t: nat) returns (running: bool)
      requires t in timers
      modifies this`timers
      ensures running == old(timers)[t].running
      ensures timers == if running then old(timers) else old(timers) - {t}
    {
      running := timers[t].running;
      if !running {
        timers := timers - {t};
      }
    }

    /** psync_cache_get: the newest value of the key that is not expiring. */
    method Get(key: string) returns (r: Option<nat>)
      requires Valid()
      modifies this`timers, this`handed, buckets
      ensures Valid() && View() == Got(old(View()), hash(key), key)
      ensures var s := old(View());
              var b := HashToBucket(hash(key));
              var i := Pick(s.buckets[b], s.timers, hash(key), key);
              r == if i < |s.buckets[b]| then Some(s.buckets[b][i].value) else None
      ensures handed == old(handed) + if r.Some? then [r.value] else []
    {
      hide Inv, Shaped;
      var h := hash(key);
      GotKeeps(View(), h, key, hash);
      var b := HashToBucket(h);
      var found, i := Find(h, key);
      if !found {
        return None;
      }
      var he := buckets[b][i];
      ghost var s := View();
      buckets[b] := Without(buckets[b], i);
      assert buckets[..] == s.buckets[b := Without(s.buckets[b], i)];
      handed := handed + [he.value];
      return Some(he.value);
    }

    /** The search loop of get and del: stops the timer of the first match whose timer lets itself be stopped. */
    method Find(h: Hash, key: string) returns (found: bool, i: nat)
      requires Valid()
      modifies this`timers
      ensures buckets.Length == CACHE_HASH_SIZE
      ensures i == Pick(buckets[HashToBucket(h)], old(timers), h, key)
      ensures found <==> i < |buckets[HashToBucket(h)]|
      ensures timers == if found then old(timers) - {buckets[HashToBucket(h)][i].timer} else old(timers)
    {
      var b := HashToBucket(h);
      var lst := buckets[b];
      i, found := 0, false;
      while i < |lst|
        invariant i <= |lst| && timers == old(timers)
        invariant i + Pick(lst[i..], timers, h, key) == Pick(lst, timers, h, key)
      {
        var he := lst[i];
        assert lst[i..][0] == he && lst[i..][1..] == lst[i + 1..];
        if he.hash == h && he.key == key {
          assert he == buckets[..][b][i];
          var running := TimerStop(he.timer);
          if !running {
            return true, i;
          }
        }
        i := i + 1;
      }
    }

    /** psync_cache_has */
    method Has(key: string) returns (r: bool)
      requires Valid()
      ensures r <==> exists b, i :: 0 <= b < buckets.Length && 0 <= i < |buckets[b]| && buckets[b][i].key == key
    {
      var h := hash(key);
      var b := HashToBucket(h);
      var i := 0;
      assert forall b', i | 0 <= b' < buckets.Length && 0 <= i < |buckets[b']| && buckets[b'][i].key == key :: b' == b by {
        forall b', i | 0 <= b' < buckets.Length && 0 <= i < |buckets[b']| && buckets[b'][i].key == key ensures b' == b {
          assert buckets[..][b'][i].key == key;
        }
      }
      while i < |buckets[b]|
        invariant 0 <= i <= |buckets[b]|
        invariant forall j | 0 <= j < i :: buckets[b][j].key != key
      {
        assert buckets[..][b][i] == buckets[b][i];
        if buckets[b][i].hash == h && buckets[b][i].key == key {
          return true;
        }
        i := i + 1;
      }
      return false;
    }

    /** psync_cache_add up to the point where the lock is released; `refused` values are freed after that. */
    method Add(key: string, value: nat, maxkeys: nat) returns (refused: bool)
      requires Valid()
      modifies this`timers, this`lastTimer, this`added, this`inHand, buckets
      ensures Valid() && View() == Added(old(View()), hash(key), key, value, maxkeys)
      ensures refused <==> |inHand| > |old(inHand)|
    {
      hide Inv, Shaped, KeyCount;
      AddedKeeps(View(), key, value, maxkeys, hash);
      ghost var s := View();
      var h := hash(key);
      var b := HashToBucket(h);
      added := added + [value];
      if maxkeys != 0 {
        var enough := EnoughOf(buckets[b], h, key, maxkeys);
        if enough {
          inHand := inHand + [value];
          return true;
        }
      }
      lastTimer := lastTimer + 1;
      var he := Element(value, h, key, lastTimer);
      buckets[b] := [he] + buckets[b];
      assert buckets[..] == s.buckets[b := [he] + s.buckets[b]];
      timers := timers[lastTimer := Timer(false, he)];
      return false;
    }

    /** The counting loop of psync_cache_add, which stops at the limit. */
    method EnoughOf(lst: seq<Element>, h: Hash, key: string, maxkeys: nat) returns (enough: bool)
      requires maxkeys > 0
      ensures enough <==> KeyCount(lst, h, key) >= maxkeys
    {
      var l: nat, i: nat := 0, 0;
      while i < |lst|
        invariant i <= |lst| && l < maxkeys && KeyCount(lst, h, key) == l + KeyCount(lst[i..], h, key)
      {
        assert lst[i..][0] == lst[i] && lst[i..][1..] == lst[i + 1..];
        if lst[i].hash == h && lst[i].key == key {
          l := l + 1;
          if l == maxkeys {
            return true;
          }
        }
        i := i + 1;
      }
      return false;
    }

    /** One round of psync_cache_del: takes one element out; it is freed after the lock is released. */
    method DelOne(key: string) returns (more: bool)
      requires Valid()
      modifies this`timers, this`inHand, buckets
      ensures Valid() && View() == Deleted(old(View()), hash(key), key)
      ensures more <==> |inHand| > |old(inHand)|
    {
      hide Inv, Shaped;
      var h := hash(key);
      GotKeeps(View(), h, key, hash);
      var b := HashToBucket(h);
      var i;
      more, i := Find(h, key);
      if more {
        var he := buckets[b][i];
        ghost var s := View();
        buckets[b] := Without(buckets[b], i);
        assert buckets[..] == s.buckets[b := Without(s.buckets[b], i)];
        inHand := inHand + [he.value];
      }
    }

    /** cache_timer up to the free; the timer thread calls it for a timer that it has marked as running. */
    method CacheTimer(timer: nat)
      requires Valid() && timer in timers && timers[timer].running
      modifies this`timers, this`inHand, buckets
      ensures Valid() && View() == Called(old(View()), timer)
      ensures inHand == old(inHand) + [old(timers)[timer].he.value]
    {
      hide Inv, Shaped;
      CalledKeeps(View(), timer, hash);
      CalledFinds(View(), timer, hash);
      ghost var s := View();
      var he := timers[timer].he;
      var b := HashToBucket(he.hash);
      var i := Place(buckets[b], timer);
      assert s.buckets[b] == buckets[b];
      buckets[b] := Without(buckets[b], i);
      assert buckets[..] == s.buckets[b := Without(s.buckets[b], i)];
      timers := timers - {timer};
      inHand := inHand + [he.value];
    }

    /** A value in the hands of some thread is freed, under no lock. */
    method FreeInHand(i: nat)
      requires Valid() && i < |inHand|
      modifies this`freed, this`inHand
      ensures Valid() && View() == Next(old(View()), Step.FreeInHand(i), hash)
    {
      hide Inv;
      FreeKeeps(View(), i, hash);
      freed, inHand := freed + [inHand[i]], inHand[..i] + inHand[i + 1..];
    }

    /** psync_cache_del with nobody in between: frees, in order, every value of the key that is not expiring. */
    method Del(key: string)
      requires Valid()
      modifies this`timers, this`freed, this`inHand, buckets
      ensures Valid()
      ensures View() == CleanBucket(old(View()), HashToBucket(hash(key)), OfKey(hash(key), key))
    {
      hide Inv, CleanBucket;
      var h := hash(key);
      ghost var b := HashToBucket(h);
      ghost var goal := CleanBucket(View(), b, OfKey(h, key));
      var more := true;
      while more
        invariant Valid() && CleanBucket(View(), b, OfKey(h, key)) == goal && (!more ==> View() == goal)
        decreases more, |buckets[b]|
      {
        ghost var s := View();
        ghost var i := Pick(s.buckets[b], s.timers, h, key);
        DelRound(s, b, h, key);
        if i < |s.buckets[b]| {
          HasTimer(s, b, i, hash);
        }
        more := DelOne(key);
        if more {
          FreeInHand(|inHand| - 1);
          assert View() == TakenAndFreed(s, b, i);
        }
      }
    }

    /** One bucket of a cleaning, under its lock. */
    method CleanOne(b: nat, prefixes: seq<string>)
      requires Valid() && b < CACHE_HASH_SIZE
      modifies this`timers, this`freed, buckets
      ensures Valid() && View() == CleanBucket(old(View()), b, Starting(prefixes))
    {
      hide Inv, CleanBucket, CleanRest;
      ghost var want := Starting(prefixes);
      CleanFromStart(View(), b, want);
      var i: nat := 0;
      while i < |buckets[b]|
        invariant Valid() && i <= |buckets[b]|
        invariant CleanRest(View(), b, i, want) == CleanBucket(old(View()), b, want)
        decreases |buckets[b]| - i
      {
        var he := buckets[b][i];
        HasTimer(View(), b, i, hash);
        var found := StartsWithOne(he.key, prefixes);
        if !found {
          CleanPasses(View(), b, i, want);
          i := i + 1;
        } else {
          ghost var s := View();
          var running := TimerStop(he.timer);
          if running {
            CleanPasses(s, b, i, want);
            i := i + 1;
          } else {
            TakeAndFree(b, i, s);
            CleanTakes(s, b, i, want);
          }
        }
      }
      CleanToEnd(View(), b, want);
    }

    /** Unlinks an element whose timer has just been stopped, and frees its value. */
    method TakeAndFree(b: nat, i: nat, ghost s: State)
      requires buckets.Length == CACHE_HASH_SIZE == |s.buckets| && b < CACHE_HASH_SIZE && i < |buckets[b]|
      requires Inv(s, hash) && View() == s.(timers := s.timers - {buckets[b][i].timer})
      modifies this`freed, buckets
      ensures Valid() && View() == TakenAndFreed(s, b, i)
    {
      hide Inv;
      TakenAndFreedKeeps(s, b, i, hash);
      assert s.buckets[b] == buckets[b];
      freed := freed + [buckets[b][i].value];
      buckets[b] := Without(buckets[b], i);
      assert buckets[..] == s.buckets[b := Without(s.buckets[b], i)];
    }

    method StartsWithOne(key: string, prefixes: seq<string>) returns (found: bool)
      ensures found <==> PrefixOfOne(key, prefixes)
    {
      var i := 0;
      while i < |prefixes|
        invariant 0 <= i <= |prefixes| && forall j | 0 <= j < i :: !(prefixes[j] <= key)
      {
        if prefixes[i] <= key {
          return true;
        }
        i := i + 1;
      }
      return false;
    }

    /** psync_cache_clean_starting_with_one_of with nobody in between, bucket after bucket. */
    method CleanStartingWithOneOf(prefixes: seq<string>)
      requires Valid()
      modifies this`timers, this`freed, buckets
      ensures Valid() && View() == CleanFrom(old(View()), 0, Starting(prefixes))
      ensures forall b | 0 <= b < buckets.Length :: buckets[b] == Left(old(buckets[..])[b], old(timers), Starting(prefixes))
    {
      hide Inv, CleanBucket, Left;
      ghost var want := Starting(prefixes);
      var h: nat := 0;
      while h < CACHE_HASH_SIZE
        invariant Valid() && h <= CACHE_HASH_SIZE
        invariant CleanFrom(View(), h, want) == CleanFrom(old(View()), 0, want)
      {
        CleanOne(h, prefixes);
        h := h + 1;
      }
      forall b | 0 <= b < buckets.Length ensures buckets[b] == Left(old(buckets[..])[b], old(timers), want) {
        CleanFromLeaves(old(View()), 0, want, b);
        assert buckets[b] == View().buckets[b];
      }
    }

    /** psync_cache_clean_all: what stays is expiring already. */
    method CleanAll()
      requires Valid()
      modifies this`timers, this`freed, buckets
      ensures Valid() && View() == CleanFrom(old(View()), 0, Starting([""]))
      ensures forall b, i | 0 <= b < buckets.Length && 0 <= i < |buckets[b]| :: Running(old(timers), buckets[b][i])
    {
      CleanStartingWithOneOf([""]);
      forall b, i | 0 <= b < buckets.Length && 0 <= i < |buckets[b]| ensures Running(old(timers), buckets[b][i]) {
        LeftAndCleaned(old(buckets[..])[b], old(timers), Starting([""]));
        assert PrefixOfOne(buckets[b][i].key, [""]) by {
          assert [""][0] <= buckets[b][i].key;
        }
        hide Left, Cleaned;
        assert buckets[b][i] in buckets[b];
      }
    }
  }
}
