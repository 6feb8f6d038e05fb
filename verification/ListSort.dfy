/** The in-place merge sort of plist.c on circular doubly linked lists. */
module ListSort {
  import opened Common
  import opened MergeOrder

  class Node<!T> {
    const item: T
    var next: Node?<T>
    var prev: Node?<T>

    constructor (item: T)
      ensures this.item == item
    {
      this.item := item;
      next, prev := null, null;
    }
  }

  ghost predicate NoDup<E>(s: seq<E>) {
    forall i, j :: 0 <= i < j < |s| ==> s[i] != s[j]
  }

  ghost predicate Apart<E>(s: seq<E>, t: seq<E>) {
    forall i, j :: 0 <= i < |s| && 0 <= j < |t| ==> s[i] != t[j]
  }

  /** The nodes of s are linked forward; the last one's link is not looked at. */
  ghost predicate Run<T>(s: seq<Node<T>>)
    reads s
  {
    forall i :: 0 <= i < |s| - 1 ==> s[i].next == s[i + 1]
  }

  /** The nodes of s are linked forward and the last one ends the list. */
  ghost predicate Chain<T>(s: seq<Node<T>>, first: Node?<T>)
    reads s
  {
    && Run(s)
    && first == (if s == [] then null else s[0])
    && (s != [] ==> s[|s| - 1].next == null)
  }

  /** The nodes of s are linked backward; the first one's link is not looked at. */
  ghost predicate RunBack<T>(s: seq<Node<T>>)
    reads s
  {
    forall i :: 0 < i < |s| ==> s[i].prev == s[i - 1]
  }

  /** A circular list: head, then the nodes of s, then head again, in both directions. */
  ghost predicate Ring<T>(head: Node<T>, s: seq<Node<T>>)
    reads {head} + set n | n in s
  {
    && NoDup(s) && head !in s && Run(s) && RunBack(s)
    && if s == [] then head.next == head && head.prev == head
       else && head.next == s[0] && s[0].prev == head
            && s[|s| - 1].next == head && head.prev == s[|s| - 1]
  }

  function ByItem<T>(cmp: (T, T) -> int): (o: Order<Node<T>, T>) {
    Order(cmp, (n: Node<T>) => n.item)
  }

  /** The list written so far, reached from `ls`; `tail` is its last node, null for the slot `ls`. */
  ghost predicate Written<T>(done: seq<Node<T>>, ls: Node?<T>, tail: Node?<T>)
    reads done
  {
    && Run(done)
    && (done != [] ==> ls == done[0] && tail == done[|done| - 1])
    && (done == [] ==> tail == null)
  }

  ghost predicate Within<E>(s: seq<E>, nodes: seq<E>) {
    forall i :: 0 <= i < |s| ==> s[i] in nodes
  }

  ghost predicate AllIn<E>(s: seq<E>, nodes: set<E>) {
    forall i :: 0 <= i < |s| ==> s[i] in nodes
  }

  /** Three disjoint lists without repetition. */
  ghost predicate Separate<E>(d: seq<E>, a: seq<E>, b: seq<E>) {
    NoDup(d) && NoDup(a) && NoDup(b) && Apart(d, a) && Apart(d, b) && Apart(a, b)
  }

  lemma SeparateParts<E>(d: seq<E>, a: seq<E>, b: seq<E>, n: nat)
    requires Separate(d, a, b)
    ensures NoDup(d) && Apart(d, a) && Apart(d, b) && (n <= |a| ==> Apart(d, a[..n])) && (n <= |b| ==> Apart(d, b[..n]))
  {
  }

  lemma MoveFirst<E>(d: seq<E>, a: seq<E>, b: seq<E>, n: nat)
    requires Separate(d, a, b) && n <= |a|
    ensures Separate(d + a[..n], a[n..], b)
  {
  }

  lemma MoveSecond<E>(d: seq<E>, a: seq<E>, b: seq<E>, n: nat)
    requires Separate(d, a, b) && n <= |b|
    ensures Separate(d + b[..n], a, b[n..])
  {
  }

  /** `*tail = first`, where a run of nodes starts. */
  method Attach<T>(ls: Node?<T>, tail: Node?<T>, first: Node<T>, ghost done: seq<Node<T>>, ghost run: seq<Node<T>>)
    returns (ls': Node?<T>)
    requires Written(done, ls, tail) && NoDup(done) && Apart(done, run)
    requires run != [] && Run(run) && first == run[0]
    modifies (set n | n in done)`next
    ensures Written(done + run, ls', run[|run| - 1])
  {
    if tail == null {
      assert done + run == run;
      ls' := first;
    } else {
      tail.next := first;
      ls' := ls;
    }
  }

  /** Walks `steps` links. */
  method Walk<T>(start: Node<T>, steps: nat, ghost s: seq<Node<T>>) returns (n: Node<T>)
    requires Run(s) && steps < |s| && start == s[0]
    ensures n == s[steps]
  {
    n := start;
    for i := 0 to steps
      invariant n == s[i]
    {
      assert s[i].next == s[i + 1];
      n := n.next;
    }
  }

  /** Walks at most `steps` links, stopping at the end of the chain. */
  method WalkToEnd<T>(start: Node<T>, steps: nat, ghost s: seq<Node<T>>) returns (n: Node<T>)
    requires s != [] && Chain(s, start)
    ensures n == s[Min(steps, |s| - 1)]
  {
    n := start;
    var i := 0;
    while n.next != null && i < steps
      invariant 0 <= i <= steps && i < |s| && n == s[i]
    {
      assert i + 1 < |s| && s[i].next == s[i + 1];
      n := n.next;
      i := i + 1;
    }
    assert n.next == null ==> i == |s| - 1 by {
      assert i < |s| - 1 ==> s[i].next == s[i + 1];
    }
  }

  // Where a long predicate is only passed along, it is compared with `true`: the verifier then
  // keeps it whole instead of checking it conjunct by conjunct.

  /** A merge under way: what is written, the rest of the left run, and the chain from l2 on, of
      which l2len nodes still belong to the right run. */
  ghost predicate Merging<T>(o: Order<Node<T>, T>, goal: seq<Node<T>>, rest: seq<Node<T>>, nodes: set<Node<T>>,
                             done: seq<Node<T>>, a: seq<Node<T>>, b: seq<Node<T>>,
                             ls: Node?<T>, tail: Node?<T>, l2: Node?<T>, l2len: nat)
    reads done, a, b
  {
    var m := Min(l2len, |b|);
    && Separate(done, a, b) && Written(done, ls, tail) && Run(a) && Chain(b, l2)
    && AllIn(done, nodes) && AllIn(a, nodes) && AllIn(b, nodes)
    && done + Merge(o, a, b[..m]) == goal && b[m..] == rest
  }

  lemma MergeTakesLeft<E, T>(o: Order<E, T>, d: seq<E>, a: seq<E>, b: seq<E>)
    requires a != [] && b != [] && o.Cmp(a[0], b[0]) <= 0
    ensures d + Merge(o, a, b) == d + a[..1] + Merge(o, a[1..], b)
  {
    var m := Merge(o, a[1..], b);
    assert Merge(o, a, b) == [a[0]] + m;
    hide Merge;
    MoveOver(d, a, m);
  }

  lemma MoveOver<E>(d: seq<E>, s: seq<E>, m: seq<E>)
    requires s != []
    ensures d + ([s[0]] + m) == d + s[..1] + m
  {
  }

  lemma SliceTail<E>(b: seq<E>, m: nat)
    requires 0 < m <= |b|
    ensures b[..m][1..] == b[1..][..m - 1] && b[1..][m - 1..] == b[m..]
  {
  }

  lemma MergeTakesRight<E, T>(o: Order<E, T>, d: seq<E>, a: seq<E>, b: seq<E>, l2len: nat)
    requires a != [] && b != [] && l2len > 0 && o.Cmp(a[0], b[0]) > 0
    ensures var m, m' := Min(l2len, |b|), Min(l2len - 1, |b| - 1);
            && d + Merge(o, a, b[..m]) == d + b[..1] + Merge(o, a, b[1..][..m'])
            && b[1..][m'..] == b[m..]
  {
    var m := Min(l2len, |b|);
    var c := b[..m];
    SliceTail(b, m);
    assert Merge(o, a, c) == [c[0]] + Merge(o, a, c[1..]);
    hide Merge;
    MoveOver(d, b, Merge(o, a, b[1..][..m - 1]));
  }

  method TakeLeft<T>(ghost o: Order<Node<T>, T>, ghost goal: seq<Node<T>>, ghost rest: seq<Node<T>>, ghost nodes: set<Node<T>>,
                     ghost done: seq<Node<T>>, ghost a: seq<Node<T>>, ghost b: seq<Node<T>>,
                     ls: Node?<T>, tail: Node?<T>, l1: Node<T>, ghost l2: Node<T>, ghost l2len: nat)
    returns (ls': Node?<T>)
    requires Merging(o, goal, rest, nodes, done, a, b, ls, tail, l2, l2len) == true
    requires a != [] && l1 == a[0] && b != [] && l2len > 0 && o.Cmp(l1, l2) <= 0
    modifies nodes`next
    ensures Merging(o, goal, rest, nodes, done + a[..1], a[1..], b, ls', l1, l2, l2len)
    ensures (|a| > 1 ==> l1.next == a[1])
  {
    hide Merge, Separate, NoDup;
    MergeTakesLeft(o, done, a, b[..Min(l2len, |b|)]);
    SeparateParts(done, a, b, 1);
    ls' := Attach(ls, tail, l1, done, a[..1]);
    MoveFirst(done, a, b, 1);
  }

  method TakeRight<T>(ghost o: Order<Node<T>, T>, ghost goal: seq<Node<T>>, ghost rest: seq<Node<T>>, ghost nodes: set<Node<T>>,
                      ghost done: seq<Node<T>>, ghost a: seq<Node<T>>, ghost b: seq<Node<T>>,
                      ls: Node?<T>, tail: Node?<T>, ghost l1: Node<T>, l2: Node<T>, ghost l2len: nat)
    returns (ls': Node?<T>, next: Node?<T>)
    requires Merging(o, goal, rest, nodes, done, a, b, ls, tail, l2, l2len) == true
    requires a != [] && l1 == a[0] && b != [] && l2len > 0 && o.Cmp(l1, l2) > 0
    modifies nodes`next
    ensures Merging(o, goal, rest, nodes, done + b[..1], a, b[1..], ls', l2, next, l2len - 1)
    ensures next == (if |b| == 1 then null else b[1])
  {
    hide Merge, Separate, NoDup;
    MergeTakesRight(o, done, a, b, l2len);
    SeparateParts(done, a, b, 1);
    ls' := Attach(ls, tail, l2, done, b[..1]);
    next := l2.next;
    MoveSecond(done, a, b, 1);
  }

  /** The left run is used up: the rest of the right run is attached as it is. */
  method FinishRight<T>(ghost o: Order<Node<T>, T>, ghost goal: seq<Node<T>>, ghost rest: seq<Node<T>>, ghost nodes: set<Node<T>>,
                        ghost done: seq<Node<T>>, ghost b: seq<Node<T>>,
                        ls: Node?<T>, tail: Node?<T>, l2: Node<T>, l2len: nat)
    returns (ls': Node?<T>, last: Node<T>, l1: Node?<T>)
    requires Merging(o, goal, rest, nodes, done, [], b, ls, tail, l2, l2len) == true
    requires b != [] && l2len > 0
    modifies nodes`next
    ensures Written(goal, ls', last) && Chain(rest, l1)
  {
    ghost var m := Min(l2len, |b|);
    ls' := Attach(ls, tail, l2, done, b[..m]);
    last := WalkToEnd(l2, l2len - 1, b);
    l1 := last.next;
  }

  /** The right run is used up: the rest of the left run is attached as it is. */
  method FinishLeft<T>(ghost o: Order<Node<T>, T>, ghost goal: seq<Node<T>>, ghost rest: seq<Node<T>>, ghost nodes: set<Node<T>>,
                       ghost done: seq<Node<T>>, ghost a: seq<Node<T>>, ghost b: seq<Node<T>>,
                       ls: Node?<T>, tail: Node?<T>, l1: Node<T>, l1len: nat, ghost l2: Node?<T>, ghost l2len: nat)
    returns (ls': Node?<T>, last: Node<T>)
    requires Merging(o, goal, rest, nodes, done, a, b, ls, tail, l2, l2len) == true
    requires a != [] && l1 == a[0] && l1len == |a| && (l2len == 0 || b == [])
    modifies nodes`next
    ensures Written(goal, ls', last) && Chain(rest, l2)
  {
    ls' := Attach(ls, tail, l1, done, a);
    last := Walk(l1, l1len - 1, a);
    assert b[..0] == [] && b[0..] == b;
  }

  lemma MergingStart<T>(o: Order<Node<T>, T>, done: seq<Node<T>>, a: seq<Node<T>>, b: seq<Node<T>>,
                        ls: Node?<T>, tail: Node?<T>, l2: Node?<T>, l2len: nat)
    requires Separate(done, a, b) && Written(done, ls, tail) && Run(a) && Chain(b, l2)
    ensures var k := Min(l2len, |b|);
            Merging(o, done + Merge(o, a, b[..k]), b[k..], (set n | n in done + a + b), done, a, b, ls, tail, l2, l2len)
  {
    hide Separate, Written, Run, Merge, Chain;
  }

  /** Merges the run a0 (from `left`) with the first l2len0 nodes of the chain b0 (from `right`). */
  method MergeRuns<T>(cmp: (T, T) -> int, ls0: Node?<T>, tail0: Node?<T>, left: Node<T>, right: Node<T>,
                      l1len0: nat, l2len0: nat,
                      ghost done0: seq<Node<T>>, ghost a0: seq<Node<T>>, ghost b0: seq<Node<T>>)
    returns (ls: Node?<T>, last: Node<T>, l1: Node?<T>)
    requires Separate(done0, a0, b0) && Written(done0, ls0, tail0)
    requires a0 != [] && Run(a0) && left == a0[0] && l1len0 == |a0|
    requires b0 != [] && Chain(b0, right) && l2len0 > 0
    modifies (set n | n in done0 + a0 + b0)`next
    ensures var k := Min(l2len0, |b0|);
            && Written(done0 + Merge(ByItem(cmp), a0, b0[..k]), ls, last)
            && Chain(b0[k..], l1)
  {
    ghost var o := ByItem(cmp);
    ghost var k := Min(l2len0, |b0|);
    ghost var nodes := set n | n in done0 + a0 + b0;
    MergingStart(o, done0, a0, b0, ls0, tail0, right, l2len0);
    hide Merging, Separate, Written, Run, Merge, Chain;
    ls, last, l1 := MergeLoop(cmp, done0 + Merge(o, a0, b0[..k]), b0[k..], nodes, done0, a0, b0,
                              ls0, tail0, left, right, l1len0, l2len0);
  }

  /** The loop that takes the smaller of the two first nodes, the left one when they compare as equal. */
  method MergeLoop<T>(cmp: (T, T) -> int, ghost goal: seq<Node<T>>, ghost rest: seq<Node<T>>, ghost nodes: set<Node<T>>,
                      ghost done0: seq<Node<T>>, ghost a0: seq<Node<T>>, ghost b0: seq<Node<T>>,
                      ls0: Node?<T>, tail0: Node?<T>, left: Node<T>, right: Node<T>, l1len0: nat, l2len0: nat)
    returns (ls: Node?<T>, last: Node<T>, l1: Node?<T>)
    requires Merging(ByItem(cmp), goal, rest, nodes, done0, a0, b0, ls0, tail0, right, l2len0)
    requires a0 != [] && left == a0[0] && l1len0 == |a0| && b0 != [] && right == b0[0] && l2len0 > 0
    modifies nodes`next
    ensures Written(goal, ls, last) && Chain(rest, l1)
  {
    hide Merging, Separate, Written, Run, Merge, Chain;
    ghost var o := ByItem(cmp);
    ghost var done, a, b := done0, a0, b0;
    var tail: Node?<T> := tail0;
    var l2: Node?<T> := right;
    ls, l1 := ls0, left;
    var l1len, l2len := l1len0, l2len0;
    while true
      invariant Merging(o, goal, rest, nodes, done, a, b, ls, tail, l2, l2len) == true
      invariant a != [] && l1 == a[0] && l1len == |a| && b != [] && l2 == b[0] && l2len > 0
      decreases |a| + |b|
    {
      if cmp(l1.item, l2.item) <= 0 {
        ls := TakeLeft(o, goal, rest, nodes, done, a, b, ls, tail, l1, l2, l2len);
        l1len := l1len - 1;
        tail := l1;
        done, a := done + a[..1], a[1..];
        if l1len == 0 {
          ls, last, l1 := FinishRight(o, goal, rest, nodes, done, b, ls, tail, l2, l2len);
          return;
        }
        l1 := l1.next;
      } else {
        var next;
        ls, next := TakeRight(o, goal, rest, nodes, done, a, b, ls, tail, l1, l2, l2len);
        l2len := l2len - 1;
        tail := l2;
        done, b := done + b[..1], b[1..];
        l2 := next;
        if l2len == 0 || l2 == null {
          ls, last := FinishLeft(o, goal, rest, nodes, done, a, b, ls, tail, l1, l1len, l2, l2len);
          l1 := l2;
          return;
        }
      }
    }
  }

  // ---------------------------------------------------------------- One pass

  lemma {:induction false} CountOne<E>(s: seq<E>, x: E)
    requires NoDup(s)
    ensures multiset(s)[x] <= 1
    decreases |s|
  {
    if s != [] {
      var t := s[..|s| - 1];
      CountOne(t, x);
      assert s == t + [s[|s| - 1]];
      if x == s[|s| - 1] {
        assert x !in t;
      }
    }
  }

  lemma CountTwo<E>(s: seq<E>, i: nat, j: nat)
    requires i < j < |s| && s[i] == s[j]
    ensures multiset(s)[s[i]] >= 2
  {
    ThreeParts(s, i + 1, j + 1);
    assert s[i] in s[..i + 1] && s[i] == s[i + 1..j + 1][j - i - 1];
    assert multiset(s[..i + 1])[s[i]] >= 1 && multiset(s[i + 1..j + 1])[s[i]] >= 1;
  }

  lemma NoDupPermuted<E>(s: seq<E>, t: seq<E>)
    requires NoDup(s) && multiset(s) == multiset(t)
    ensures NoDup(t)
  {
    forall i, j | 0 <= i < j < |t| ensures t[i] != t[j] {
      CountOne(s, t[i]);
      if t[i] == t[j] {
        CountTwo(t, i, j);
      }
    }
  }

  lemma MergedPermutes<E, T>(o: Order<E, T>, d: seq<E>, r: seq<E>, depth: nat, k: nat)
    requires depth < |r| && k <= |r| - depth
    ensures multiset(d + Merge(o, r[..depth], r[depth..][..k]) + r[depth..][k..]) == multiset(d + r)
  {
    hide Merge;
    var a, b := r[..depth], r[depth..];
    MergePermutes(o, a, b[..k]);
    assert r == (a + b[..k]) + b[k..];
    SameMiddle(d, Merge(o, a, b[..k]), a + b[..k], b[k..]);
    assert d + (a + b[..k]) + b[k..] == d + r;
  }

  lemma SameMiddle<E>(d: seq<E>, m: seq<E>, m': seq<E>, t: seq<E>)
    requires multiset(m) == multiset(m')
    ensures multiset(d + m + t) == multiset(d + m' + t)
  {
  }

  /** A pass under way: `done` is written, `rest` starts at l1, together they are the nodes of cur. */
  ghost predicate Passing<T>(o: Order<Node<T>, T>, depth: nat, cur: seq<Node<T>>, done: seq<Node<T>>, rest: seq<Node<T>>,
                             ls: Node?<T>, tail: Node?<T>, l1: Node?<T>)
    requires depth > 0
    reads done, rest
  {
    && Written(done, ls, tail) && Chain(rest, l1)
    && multiset(done + rest) == multiset(cur)
    && done + Pass(o, depth, rest) == Pass(o, depth, cur)
  }

  lemma PassingSeparate<E>(cur: seq<E>, done: seq<E>, rest: seq<E>, n: nat)
    requires NoDup(cur) && multiset(done + rest) == multiset(cur) && n <= |rest|
    ensures Separate(done, rest[..n], rest[n..])
    ensures NoDup(done) && Apart(done, rest) && Within(done, cur) && Within(rest, cur)
  {
    var all := done + rest;
    NoDupPermuted(cur, all);
    assert forall i | 0 <= i < |done| :: all[i] == done[i];
    assert forall i | 0 <= i < |rest| :: all[|done| + i] == rest[i];
    forall i | 0 <= i < |all| ensures all[i] in cur {
      assert all[i] in multiset(all);
    }
  }

  lemma ChainSplits<T>(rest: seq<Node<T>>, l1: Node?<T>, n: nat)
    requires Chain(rest, l1) && n < |rest|
    ensures Run(rest[..n]) && Chain(rest[n..], rest[n]) && l1 == rest[0]
  {
  }

  lemma PassSplits<E, T>(o: Order<E, T>, depth: nat, d: seq<E>, rest: seq<E>)
    requires 0 < depth < |rest|
    ensures var k := Min(depth, |rest| - depth);
            && d + Merge(o, rest[..depth], rest[depth..][..k]) + Pass(o, depth, rest[depth..][k..]) == d + Pass(o, depth, rest)
            && depth + k == Min(2 * depth, |rest|)
  {
    hide Merge, Pass;
    var n := Min(2 * depth, |rest|);
    PassUnfold(o, depth, rest);
    assert rest[depth..][..n - depth] == rest[depth..n] && rest[depth..][n - depth..] == rest[n..];
    Regroup(d, Merge(o, rest[..depth], rest[depth..n]), Pass(o, depth, rest[n..]));
  }

  lemma PassUnfold<E, T>(o: Order<E, T>, depth: nat, rest: seq<E>)
    requires 0 < depth < |rest|
    ensures var n := Min(2 * depth, |rest|);
            Pass(o, depth, rest) == Merge(o, rest[..depth], rest[depth..n]) + Pass(o, depth, rest[n..])
  {
    hide Merge;
  }

  lemma Regroup<E>(a: seq<E>, b: seq<E>, c: seq<E>)
    ensures a + b + c == a + (b + c)
  {
  }

  lemma WithinParts<E>(d: seq<E>, rest: seq<E>, n: nat, cur: seq<E>)
    requires Within(d, cur) && Within(rest, cur) && n <= |rest|
    ensures (set x | x in d + rest[..n] + rest[n..]) <= (set x | x in cur)
  {
  }

  /** Merges the first two runs of `rest`. */
  method MergePair<T>(cmp: (T, T) -> int, depth: nat, ghost cur: seq<Node<T>>, ghost done: seq<Node<T>>, ghost rest: seq<Node<T>>,
                      ls0: Node?<T>, tail0: Node?<T>, left: Node<T>, right: Node<T>)
    returns (ls: Node?<T>, last: Node<T>, l1: Node?<T>, ghost done': seq<Node<T>>, ghost rest': seq<Node<T>>)
    requires 0 < depth < |rest| && NoDup(cur) && Passing(ByItem(cmp), depth, cur, done, rest, ls0, tail0, left)
    requires right == rest[depth]
    modifies (set n | n in cur)`next
    ensures Passing(ByItem(cmp), depth, cur, done', rest', ls, last, l1)
    ensures |done'| == |done| + Min(2 * depth, |rest|) && |done'| + |rest'| == |done| + |rest|
    ensures l1 == null <==> rest' == []
  {
    hide Merge, Pass, Separate, Written, Chain, Run, NoDup, Within, Apart;
    ghost var o := ByItem(cmp);
    ghost var a, b := rest[..depth], rest[depth..];
    ghost var k := Min(depth, |b|);
    PassingSeparate(cur, done, rest, depth);
    ChainSplits(rest, left, depth);
    WithinParts(done, rest, depth, cur);
    MergedPermutes(o, done, rest, depth, k);
    PassSplits(o, depth, done, rest);
    done', rest' := done + Merge(o, a, b[..k]), b[k..];
    ls, last, l1 := MergeRuns(cmp, ls0, tail0, left, right, depth, depth, done, a, b);
    ChainStart(rest', l1);
  }

  lemma ChainStart<T>(s: seq<Node<T>>, first: Node?<T>)
    requires Chain(s, first)
    ensures first == null <==> s == []
  {
  }

  lemma PassingStart<T>(o: Order<Node<T>, T>, depth: nat, cur: seq<Node<T>>, start: Node?<T>)
    requires depth > 0 && Chain(cur, start)
    ensures Passing(o, depth, cur, [], cur, start, null, start)
  {
    hide Pass;
    assert [] + cur == cur && [] + Pass(o, depth, cur) == Pass(o, depth, cur);
  }

  lemma PassingChain<T>(o: Order<Node<T>, T>, depth: nat, cur: seq<Node<T>>, done: seq<Node<T>>, rest: seq<Node<T>>,
                        ls: Node?<T>, tail: Node?<T>, l1: Node?<T>)
    requires depth > 0 && Passing(o, depth, cur, done, rest, ls, tail, l1)
    ensures Chain(rest, l1)
  {
  }

  method PassList<T>(cmp: (T, T) -> int, depth: nat, start: Node<T>, ghost cur: seq<Node<T>>)
    returns (ls: Node<T>, cnt: nat)
    requires depth > 0 && cur != [] && NoDup(cur) && Chain(cur, start)
    modifies (set n | n in cur)`next
    ensures Chain(Pass(ByItem(cmp), depth, cur), ls)
    ensures cnt <= 1 <==> |cur| <= 2 * depth
  {
    ghost var o := ByItem(cmp);
    ghost var done: seq<Node<T>>, rest := [], cur;
    var l1: Node?<T> := start;
    var tail: Node?<T> := null;
    var head: Node?<T> := start;
    cnt := 0;
    hide Passing, Pass, Chain;
    PassingStart(o, depth, cur, start);
    while l1 != null
      invariant Passing(o, depth, cur, done, rest, head, tail, l1)
      invariant |done| + |rest| == |cur|
      invariant l1 == null <==> rest == []
      invariant cnt == 0 ==> done == []
      invariant cnt == 1 ==> |done| == Min(2 * depth, |cur|)
      invariant cnt >= 2 ==> |cur| > 2 * depth
      decreases |rest|
    {
      cnt := cnt + 1;
      PassingChain(o, depth, cur, done, rest, head, tail, l1);
      var l2 := StepForward(l1, depth, rest);
      if l2 == null {
        ls := AttachLast(o, depth, cur, done, rest, head, tail, l1);
        return;
      }
      head, tail, l1, done, rest := MergePair(cmp, depth, cur, done, rest, head, tail, l1, l2);
    }
    ls := EndList(o, depth, cur, done, head, tail);
  }

  /** A lone last run is attached as it is; it already ends the list. */
  method AttachLast<T>(ghost o: Order<Node<T>, T>, ghost depth: nat, ghost cur: seq<Node<T>>, ghost done: seq<Node<T>>, ghost rest: seq<Node<T>>,
                       head: Node?<T>, tail: Node?<T>, l1: Node<T>) returns (ls: Node<T>)
    requires 0 < |rest| <= depth && NoDup(cur) && Passing(o, depth, cur, done, rest, head, tail, l1)
    modifies (set n | n in cur)`next
    ensures Chain(Pass(o, depth, cur), ls)
  {
    PassingSeparate(cur, done, rest, 0);
    ls := Attach(head, tail, l1, done, rest);
    assert (done + rest)[|done + rest| - 1] == rest[|rest| - 1];
  }

  /** `*tail = NULL` after the last pair. */
  method EndList<T>(ghost o: Order<Node<T>, T>, ghost depth: nat, ghost cur: seq<Node<T>>, ghost done: seq<Node<T>>,
                    head: Node?<T>, tail: Node?<T>) returns (ls: Node<T>)
    requires depth > 0 && done != [] && NoDup(cur) && Passing(o, depth, cur, done, [], head, tail, null)
    modifies (set n | n in cur)`next
    ensures Chain(Pass(o, depth, cur), ls)
  {
    hide Pass, NoDup, Separate, Apart;
    PassingSeparate(cur, done, [], 0);
    PassNothing(o, depth);
    assert done + [] == done;
    assert done == Pass(o, depth, cur);
    ls := CloseChain(done, head, tail, set n | n in cur);
  }

  lemma PassNothing<E, T>(o: Order<E, T>, depth: nat)
    requires depth > 0
    ensures Pass(o, depth, []) == []
  {
  }

  method CloseChain<T>(ghost done: seq<Node<T>>, head: Node?<T>, tail: Node?<T>, ghost F: set<Node<T>>) returns (ls: Node<T>)
    requires done != [] && NoDup(done) && Written(done, head, tail) && forall n | n in done :: n in F
    modifies F`next
    ensures Chain(done, ls)
  {
    tail.next := null;
    ls := head;
  }

  /** Walks `depth` links from the first node, or to null. */
  method StepForward<T>(l1: Node<T>, depth: nat, ghost rest: seq<Node<T>>) returns (l2: Node?<T>)
    requires rest != [] && Chain(rest, l1)
    ensures l2 == if depth < |rest| then rest[depth] else null
  {
    l2 := l1;
    var i := 0;
    while i < depth && l2 != null
      invariant 0 <= i <= depth && i <= |rest|
      invariant l2 == if i < |rest| then rest[i] else null
    {
      assert i + 1 < |rest| ==> rest[i].next == rest[i + 1];
      l2 := l2.next;
      i := i + 1;
    }
  }

  // ---------------------------------------------------------------- The sort

  /** What sorting promises about the nodes, whatever the links. */
  ghost predicate StablySorted<T(!new)>(cmp: (T, T) -> int, s: seq<Node<T>>, t: seq<Node<T>>) {
    && Sorted(ByItem(cmp), t)
    && (forall x :: Class(ByItem(cmp), x, t) == Class(ByItem(cmp), x, s))
  }

  /** Sorts the list at `l`: afterwards it is one ring of the same nodes, sorted and stable. */
  method Sort<T(!new)>(l: Node<T>, ghost s: seq<Node<T>>, cmp: (T, T) -> int)
    requires Ring(l, s)
    modifies l, (set n | n in s)
    ensures var t := SortFrom(ByItem(cmp), 1, s);
            Ring(l, t) && multiset(t) == multiset(s) && (Preorder(cmp) ==> StablySorted(cmp, s, t))
  {
    SortPermutes(ByItem(cmp), 1, s);
    if Preorder(cmp) {
      SortIsStable(ByItem(cmp), s);
    }
    hide StablySorted, Preorder;
    if l.next == l {
      return;
    }
    var ls := Unring(l, s);
    ls := SortChain(s, ls, (set n | n in s), cmp);
    SameMembers(SortFrom(ByItem(cmp), 1, s), s);
    hide SortFrom;
    RingFrom(l, ls, SortFrom(ByItem(cmp), 1, s));
  }

  /** The passes, with doubling run length, over the open list. */
  method SortChain<T(!new)>(ghost s: seq<Node<T>>, first: Node<T>, ghost F: set<Node<T>>, cmp: (T, T) -> int)
    returns (ls: Node<T>)
    requires s != [] && NoDup(s) && Chain(s, first) && F == set n | n in s
    modifies F`next
    ensures Chain(SortFrom(ByItem(cmp), 1, s), ls) && NoDup(SortFrom(ByItem(cmp), 1, s))
  {
    hide Chain, NoDup;
    ghost var o := ByItem(cmp);
    ls := first;
    ghost var cur := s;
    var depth := 1;
    while true
      invariant depth > 0 && cur != [] && NoDup(cur) && Chain(cur, ls)
      invariant multiset(cur) == multiset(s) && |cur| == |s|
      invariant SortFrom(o, depth, cur) == SortFrom(o, 1, s)
      decreases |s| - depth
    {
      var cnt;
      SameMembers(cur, s);
      ls, cnt := PassList(cmp, depth, ls, cur);
      PassPermutes(o, depth, cur);
      NoDupPermuted(cur, Pass(o, depth, cur));
      cur := Pass(o, depth, cur);
      if cnt <= 1 {
        break;
      }
      depth := depth * 2;
    }
  }

  lemma SameMembers<E>(s: seq<E>, t: seq<E>)
    requires multiset(s) == multiset(t)
    ensures (set n | n in s) == (set n | n in t)
    ensures forall n | n in s :: n in t
    ensures forall n | n in t :: n in s
  {
    forall n | n in s ensures n in t { assert n in multiset(s); }
    forall n | n in t ensures n in s { assert n in multiset(t); }
  }

  /** Cuts the ring open behind its last node. */
  method Unring<T>(l: Node<T>, ghost s: seq<Node<T>>) returns (ls: Node<T>)
    requires s != [] && Ring(l, s)
    modifies (set n | n in s)
    ensures Chain(s, ls) && NoDup(s)
  {
    ls := l.next;
    l.prev.next := null;
  }

  /** Restores the backward links and closes the ring. */
  method RingFrom<T>(l: Node<T>, first: Node<T>, ghost s: seq<Node<T>>)
    requires s != [] && NoDup(s) && l !in s && Chain(s, first)
    modifies l, (set n | n in s)
    ensures Ring(l, s)
  {
    l.next := first;
    var l1 := l;
    var ls: Node?<T> := first;
    ghost var i := 0;
    while ls != null
      invariant 0 <= i <= |s|
      invariant ls == if i < |s| then s[i] else null
      invariant l1 == if i == 0 then l else s[i - 1]
      invariant Chain(s, first) && l.next == first
      invariant i > 0 ==> s[0].prev == l
      invariant forall j :: 0 < j < i ==> s[j].prev == s[j - 1]
      decreases |s| - i
    {
      ls.prev := l1;
      l1 := ls;
      assert i + 1 < |s| ==> s[i].next == s[i + 1];
      ls := ls.next;
      i := i + 1;
    }
    l1.next := l;
    l.prev := l1;
  }
}
