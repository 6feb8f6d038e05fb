/** psync_list_extract_repeating of plist.c: moves the elements two lists have in common to two others. */
module ListExtract {
  import opened Common
  import opened MergeOrder
  import opened ListSort

  // ---------------------------------------------------------------- On sequences

  datatype Split<E> = Split(kept1: seq<E>, kept2: seq<E>, out1: seq<E>, out2: seq<E>)

  /** Walks two sorted lists side by side. */
  function Extract<E, T>(o: Order<E, T>, a: seq<E>, b: seq<E>): (r: Split<E>)
    decreases |a| + |b|
  {
    if a == [] || b == [] then Split(a, b, [], [])
    else if o.Cmp(a[0], b[0]) < 0 then
      var r := Extract(o, a[1..], b);
      r.(kept1 := [a[0]] + r.kept1)
    else if o.Cmp(a[0], b[0]) > 0 then
      var r := Extract(o, a, b[1..]);
      r.(kept2 := [b[0]] + r.kept2)
    else
      var r := Extract(o, a[1..], b[1..]);
      r.(out1 := [a[0]] + r.out1, out2 := [b[0]] + r.out2)
  }

  /** The extracted elements are matched pairwise. */
  lemma {:induction false} PairsMatch<E, T>(o: Order<E, T>, a: seq<E>, b: seq<E>)
    ensures var r := Extract(o, a, b);
            |r.out1| == |r.out2| && forall i :: 0 <= i < |r.out1| ==> o.Cmp(r.out1[i], r.out2[i]) == 0
    decreases |a| + |b|
  {
    if a != [] && b != [] {
      if o.Cmp(a[0], b[0]) < 0 {
        PairsMatch(o, a[1..], b);
      } else if o.Cmp(a[0], b[0]) > 0 {
        PairsMatch(o, a, b[1..]);
      } else {
        PairsMatch(o, a[1..], b[1..]);
      }
    }
  }

  /** No node is lost or doubled. */
  lemma {:induction false} NothingLost<E, T>(o: Order<E, T>, a: seq<E>, b: seq<E>)
    ensures var r := Extract(o, a, b);
            && multiset(r.kept1) + multiset(r.out1) == multiset(a)
            && multiset(r.kept2) + multiset(r.out2) == multiset(b)
    decreases |a| + |b|
  {
    if a != [] && b != [] {
      Uncons(a);
      Uncons(b);
      if o.Cmp(a[0], b[0]) < 0 {
        NothingLost(o, a[1..], b);
      } else if o.Cmp(a[0], b[0]) > 0 {
        NothingLost(o, a, b[1..]);
      } else {
        NothingLost(o, a[1..], b[1..]);
      }
    }
  }

  /** All members of a sorted list lie strictly above an element below its head. */
  lemma ClassBelowHead<E, T(!new)>(o: Order<E, T>, x: T, y: E, s: seq<E>)
    requires Preorder(o.cmp) && Sorted(o, s) && o.cmp(x, o.key(y)) == 0
    requires s != [] ==> o.Cmp(y, s[0]) < 0
    ensures Class(o, x, s) == []
  {
    assert s != [] ==> o.Cmp(s[0], y) > 0;
    AllAbove(o, y, s);
    ClassEmpty(o, x, y, s);
  }

  /** The first min of the two counts go out, in order, and the others stay. */
  ghost predicate MinimumOut<E>(ca: seq<E>, cb: seq<E>, out1: seq<E>, kept1: seq<E>, out2: seq<E>, kept2: seq<E>) {
    var k := Min(|ca|, |cb|);
    |out1| == |out2| == k && out1 + kept1 == ca && out2 + kept2 == cb
  }

  ghost predicate ClassSplits<E, T>(o: Order<E, T>, x: T, a: seq<E>, b: seq<E>, r: Split<E>) {
    MinimumOut(Class(o, x, a), Class(o, x, b),
               Class(o, x, r.out1), Class(o, x, r.kept1), Class(o, x, r.out2), Class(o, x, r.kept2))
  }

  lemma {:induction false} ExtractsMinimum<E, T(!new)>(o: Order<E, T>, x: T, a: seq<E>, b: seq<E>)
    requires Preorder(o.cmp) && Sorted(o, a) && Sorted(o, b)
    ensures ClassSplits(o, x, a, b, Extract(o, a, b))
    decreases |a| + |b|
  {
    if a != [] && b != [] {
      hide Preorder, Sorted, ClassSplits;
      if o.Cmp(a[0], b[0]) < 0 {
        SortedTail(o, a);
        ExtractsMinimum(o, x, a[1..], b);
        SkipFirst(o, x, a, b, Extract(o, a[1..], b));
      } else if o.Cmp(a[0], b[0]) > 0 {
        SortedTail(o, b);
        ExtractsMinimum(o, x, a, b[1..]);
        SkipSecond(o, x, a, b, Extract(o, a, b[1..]));
      } else {
        SortedTail(o, a);
        SortedTail(o, b);
        ExtractsMinimum(o, x, a[1..], b[1..]);
        TakeBoth(o, x, a, b, Extract(o, a[1..], b[1..]));
      }
    }
  }

  lemma ClassUncons<E, T>(o: Order<E, T>, x: T, s: seq<E>)
    requires s != []
    ensures Class(o, x, s) == (if o.cmp(x, o.key(s[0])) == 0 then [s[0]] else []) + Class(o, x, s[1..])
  {
  }

  lemma SkipFirst<E, T(!new)>(o: Order<E, T>, x: T, a: seq<E>, b: seq<E>, r: Split<E>)
    requires Preorder(o.cmp) && Sorted(o, b) && a != [] && b != [] && o.Cmp(a[0], b[0]) < 0
    requires ClassSplits(o, x, a[1..], b, r)
    ensures ClassSplits(o, x, a, b, r.(kept1 := [a[0]] + r.kept1))
  {
    hide Preorder, Sorted, Class;
    ClassUncons(o, x, a);
    ClassCons(o, x, a[0], r.kept1);
    if o.cmp(x, o.key(a[0])) == 0 {
      ClassBelowHead(o, x, a[0], b);
    }
  }

  lemma Flip<E, T(!new)>(o: Order<E, T>, a: E, b: E)
    requires Preorder(o.cmp) && o.Cmp(a, b) > 0
    ensures o.Cmp(b, a) < 0
  {
  }

  lemma SkipSecond<E, T(!new)>(o: Order<E, T>, x: T, a: seq<E>, b: seq<E>, r: Split<E>)
    requires Preorder(o.cmp) && Sorted(o, a) && a != [] && b != [] && o.Cmp(a[0], b[0]) > 0
    requires ClassSplits(o, x, a, b[1..], r)
    ensures ClassSplits(o, x, a, b, r.(kept2 := [b[0]] + r.kept2))
  {
    hide Preorder, Sorted, Class;
    Flip(o, a[0], b[0]);
    ClassUncons(o, x, b);
    ClassCons(o, x, b[0], r.kept2);
    if o.cmp(x, o.key(b[0])) == 0 {
      ClassBelowHead(o, x, b[0], a);
    }
  }

  lemma SameClass<E, T(!new)>(o: Order<E, T>, x: T, a: E, b: E)
    requires Preorder(o.cmp) && o.Cmp(a, b) == 0
    ensures o.cmp(x, o.key(a)) == 0 <==> o.cmp(x, o.key(b)) == 0
  {
  }

  lemma TakeBoth<E, T(!new)>(o: Order<E, T>, x: T, a: seq<E>, b: seq<E>, r: Split<E>)
    requires Preorder(o.cmp) && a != [] && b != [] && o.Cmp(a[0], b[0]) == 0
    requires ClassSplits(o, x, a[1..], b[1..], r)
    ensures ClassSplits(o, x, a, b, r.(out1 := [a[0]] + r.out1, out2 := [b[0]] + r.out2))
  {
    hide Preorder, Class;
    ClassUncons(o, x, a);
    ClassUncons(o, x, b);
    ClassCons(o, x, a[0], r.out1);
    ClassCons(o, x, b[0], r.out2);
    SameClass(o, x, a[0], b[0]);
  }

  lemma {:induction false} ClassHolds<E, T>(o: Order<E, T>, x: T, s: seq<E>, i: nat)
    requires i < |s| && o.cmp(x, o.key(s[i])) == 0
    ensures Class(o, x, s) != []
    decreases |s|
  {
    if i > 0 {
      ClassHolds(o, x, s[1..], i - 1);
    }
  }

  /** Nothing left in one list is equivalent to anything left in the other. */
  lemma NothingCommonStays<E, T(!new)>(o: Order<E, T>, a: seq<E>, b: seq<E>, i: nat, j: nat)
    requires Preorder(o.cmp) && Sorted(o, a) && Sorted(o, b)
    requires i < |Extract(o, a, b).kept1| && j < |Extract(o, a, b).kept2|
    ensures o.Cmp(Extract(o, a, b).kept1[i], Extract(o, a, b).kept2[j]) != 0
  {
    var r := Extract(o, a, b);
    var x := o.key(r.kept1[i]);
    ExtractsMinimum(o, x, a, b);
    assert o.cmp(x, x) == 0;
    ClassHolds(o, x, r.kept1, i);
    if o.Cmp(r.kept1[i], r.kept2[j]) == 0 {
      ClassHolds(o, x, r.kept2, j);
    }
  }

  // ---------------------------------------------------------------- On linked lists

  ghost function Footprint<T>(head: Node<T>, s: seq<Node<T>>): (r: set<Node<T>>) {
    {head} + set n | n in s
  }

  lemma Remove<E>(s: seq<E>, i: nat)
    requires i < |s| && NoDup(s)
    ensures var t := s[..i] + s[i + 1..];
            NoDup(t) && s[i] !in t && (set n | n in s) == (set n | n in t) + {s[i]}
  {
    var t := s[..i] + s[i + 1..];
    forall n | n in s ensures n in t || n == s[i] {
      var j :| 0 <= j < |s| && s[j] == n;
      if j < i {
        assert t[j] == n;
      } else if j > i {
        assert t[j - 1] == n;
      }
    }
    forall n | n in t ensures n in s {
      var j :| 0 <= j < |t| && t[j] == n;
      assert n == if j < i then s[j] else s[j + 1];
    }
  }

  lemma Neighbours<E>(s: seq<E>, i: nat)
    requires i < |s| && NoDup(s)
    ensures forall j | 0 <= j < |s| && j != i - 1 && i > 0 :: s[j] != s[i - 1]
    ensures forall j | 0 <= j < |s| && j != i + 1 && i + 1 < |s| :: s[j] != s[i + 1]
  {
  }

  /** psync_list_del */
  method Del<T>(ghost head: Node<T>, ghost s: seq<Node<T>>, ghost i: nat, n: Node<T>)
    requires Ring(head, s) && i < |s| && n == s[i]
    modifies Footprint(head, s)
    ensures Ring(head, s[..i] + s[i + 1..])
  {
    hide NoDup;
    Remove(s, i);
    Neighbours(s, i);
    ghost var t := s[..i] + s[i + 1..];
    assert forall j | 0 <= j < |t| :: t[j] == if j < i then s[j] else s[j + 1];
    Unlink(head, s, i, n);
    Relinked(head, s, i, t);
  }

  /** The ring's links, with the one node passed over in both directions. */
  ghost predicate PassedOver<T>(head: Node<T>, s: seq<Node<T>>, i: nat)
    requires i < |s|
    reads Footprint(head, s)
  {
    && (forall j | 0 <= j < |s| && j != i :: s[j].next == if j + 1 == i then After(head, s, i) else After(head, s, j))
    && (forall j | 0 <= j < |s| && j != i :: s[j].prev == if j == i + 1 then Before(head, s, i) else Before(head, s, j))
    && head.next == (if i == 0 then After(head, s, i) else s[0])
    && head.prev == (if i == |s| - 1 then Before(head, s, i) else s[|s| - 1])
  }

  function After<T>(head: Node<T>, s: seq<Node<T>>, i: nat): (n: Node<T>)
    requires i < |s|
  {
    if i == |s| - 1 then head else s[i + 1]
  }

  function Before<T>(head: Node<T>, s: seq<Node<T>>, i: nat): (n: Node<T>)
    requires i < |s|
  {
    if i == 0 then head else s[i - 1]
  }

  method Unlink<T>(ghost head: Node<T>, ghost s: seq<Node<T>>, ghost i: nat, n: Node<T>)
    requires Ring(head, s) && i < |s| && n == s[i]
    modifies Footprint(head, s)
    ensures PassedOver(head, s, i)
  {
    Neighbours(s, i);
    hide NoDup;
    assert n.next == After(head, s, i) && n.prev == Before(head, s, i);
    n.next.prev := n.prev;
    n.prev.next := n.next;
  }

  lemma Relinked<T>(head: Node<T>, s: seq<Node<T>>, i: nat, t: seq<Node<T>>)
    requires i < |s| && |t| == |s| - 1 && NoDup(t) && head !in t && PassedOver(head, s, i)
    requires forall j | 0 <= j < |t| :: t[j] == if j < i then s[j] else s[j + 1]
    ensures Ring(head, t)
  {
    hide NoDup, After, Before;
    AfterBefore(head, s, i);
    forall j | 0 <= j < |t| - 1 ensures t[j].next == t[j + 1] && t[j + 1].prev == t[j] {
      AfterBefore(head, s, j);
      AfterBefore(head, s, j + 1);
      if j + 2 < |s| {
        AfterBefore(head, s, j + 2);
      }
    }
    if t != [] {
      AfterBefore(head, s, 0);
      AfterBefore(head, s, 1);
      AfterBefore(head, s, |s| - 1);
      AfterBefore(head, s, |s| - 2);
    }
  }

  lemma AfterBefore<T>(head: Node<T>, s: seq<Node<T>>, i: nat)
    requires i < |s|
    ensures After(head, s, i) == if i == |s| - 1 then head else s[i + 1]
    ensures Before(head, s, i) == if i == 0 then head else s[i - 1]
  {
  }

  /** psync_list_add_tail */
  method AddTail<T>(head: Node<T>, ghost s: seq<Node<T>>, n: Node<T>)
    requires Ring(head, s) && n !in s && n != head
    modifies Footprint(head, s), n
    ensures Ring(head, s + [n])
  {
    var last := head.prev;
    n.next := head;
    n.prev := last;
    last.next := n;
    head.prev := n;
  }

  /** A ring together with the set of its nodes, head included. */
  ghost predicate RingOn<T>(head: Node<T>, s: seq<Node<T>>, F: set<Node<T>>)
    reads F
  {
    F == Footprint(head, s) && Ring(head, s)
  }

  ghost predicate Disjoint4<E>(a: set<E>, b: set<E>, c: set<E>, d: set<E>) {
    a !! b && a !! c && a !! d && b !! c && b !! d && c !! d
  }

  /** Moves node i of one list to the end of another. */
  method MoveToTail<T>(ghost head: Node<T>, ghost s: seq<Node<T>>, ghost F: set<Node<T>>, ghost i: nat, n: Node<T>,
                       dst: Node<T>, ghost e: seq<Node<T>>, ghost G: set<Node<T>>)
    requires RingOn(head, s, F) && i < |s| && n == s[i] && RingOn(dst, e, G) && F !! G
    modifies F, G
    ensures RingOn(head, s[..i] + s[i + 1..], F - {n}) && RingOn(dst, e + [n], G + {n}) && n in F
  {
    Remove(s, i);
    Del(head, s, i, n);
    AddTail(dst, e, n);
  }

  lemma RingNext<T>(head: Node<T>, p: seq<Node<T>>, r: seq<Node<T>>, F: set<Node<T>>)
    requires RingOn(head, p + r, F) && r != []
    ensures r[0] != head && r[0].next == if |r| > 1 then r[1] else head
  {
    var s := p + r;
    assert s[|p|] == r[0] && (|r| > 1 ==> s[|p| + 1] == r[1]);
  }

  lemma RingDrop<E>(p: seq<E>, r: seq<E>)
    requires r != []
    ensures (p + r)[..|p|] + (p + r)[|p| + 1..] == p + r[1..] && (p + r)[|p|] == r[0]
  {
  }

  /** The four lists, on four disjoint sets of nodes that together are `all`. */
  ghost predicate Lists<T>(l1: Node<T>, s1: seq<Node<T>>, F1: set<Node<T>>, l2: Node<T>, s2: seq<Node<T>>, F2: set<Node<T>>,
                           x1: Node<T>, e1: seq<Node<T>>, G1: set<Node<T>>, x2: Node<T>, e2: seq<Node<T>>, G2: set<Node<T>>,
                           all: set<Node<T>>)
    reads F1, F2, G1, G2
  {
    && RingOn(l1, s1, F1) && RingOn(l2, s2, F2) && RingOn(x1, e1, G1) && RingOn(x2, e2, G2)
    && Disjoint4(F1, F2, G1, G2) && F1 + F2 + G1 + G2 == all
  }

  /** Both cursors stand on equivalent elements: each is moved to the end of its extracted list. */
  method MoveBoth<T>(ghost l1: Node<T>, ghost p1: seq<Node<T>>, ghost r1: seq<Node<T>>, ghost F1: set<Node<T>>,
                     ghost l2: Node<T>, ghost p2: seq<Node<T>>, ghost r2: seq<Node<T>>, ghost F2: set<Node<T>>,
                     x1: Node<T>, ghost f1: seq<Node<T>>, ghost G1: set<Node<T>>,
                     x2: Node<T>, ghost f2: seq<Node<T>>, ghost G2: set<Node<T>>, ghost all: set<Node<T>>, li1: Node<T>, li2: Node<T>)
    requires Lists(l1, p1 + r1, F1, l2, p2 + r2, F2, x1, f1, G1, x2, f2, G2, all) == true
    requires r1 != [] && r2 != [] && li1 == r1[0] && li2 == r2[0]
    modifies all
    ensures Lists(l1, p1 + r1[1..], F1 - {li1}, l2, p2 + r2[1..], F2 - {li2},
                  x1, f1 + [li1], G1 + {li1}, x2, f2 + [li2], G2 + {li2}, all)
  {
    hide RingOn;
    RingDrop(p1, r1);
    RingDrop(p2, r2);
    MoveToTail(l1, p1 + r1, F1, |p1|, li1, x1, f1, G1);
    MoveToTail(l2, p2 + r2, F2, |p2|, li2, x2, f2, G2);
  }

  lemma CursorsAdvance<T>(l1: Node<T>, p1: seq<Node<T>>, r1: seq<Node<T>>, F1: set<Node<T>>,
                          l2: Node<T>, p2: seq<Node<T>>, r2: seq<Node<T>>, F2: set<Node<T>>,
                          x1: Node<T>, f1: seq<Node<T>>, G1: set<Node<T>>, x2: Node<T>, f2: seq<Node<T>>, G2: set<Node<T>>, all: set<Node<T>>)
    requires Lists(l1, p1 + r1, F1, l2, p2 + r2, F2, x1, f1, G1, x2, f2, G2, all) == true
    ensures r1 != [] ==> r1[0] != l1 && r1[0].next == if |r1| > 1 then r1[1] else l1
    ensures r2 != [] ==> r2[0] != l2 && r2[0].next == if |r2| > 1 then r2[1] else l2
  {
    hide RingOn;
    if r1 != [] { RingNext(l1, p1, r1, F1); }
    if r2 != [] { RingNext(l2, p2, r2, F2); }
  }

  /** What the walk has done so far, against what remains. */
  ghost predicate Walked<E, T>(o: Order<E, T>, s1: seq<E>, s2: seq<E>, p1: seq<E>, r1: seq<E>, p2: seq<E>, r2: seq<E>,
                               o1: seq<E>, o2: seq<E>) {
    var q := Extract(o, r1, r2);
    Extract(o, s1, s2) == Split(p1 + q.kept1, p2 + q.kept2, o1 + q.out1, o2 + q.out2)
  }

  lemma WalkFirst<E, T>(o: Order<E, T>, s1: seq<E>, s2: seq<E>, p1: seq<E>, r1: seq<E>, p2: seq<E>, r2: seq<E>, o1: seq<E>, o2: seq<E>)
    requires Walked(o, s1, s2, p1, r1, p2, r2, o1, o2) && r1 != [] && r2 != [] && o.Cmp(r1[0], r2[0]) < 0
    ensures Walked(o, s1, s2, p1 + r1[..1], r1[1..], p2, r2, o1, o2)
  {
    var q := Extract(o, r1[1..], r2);
    assert Extract(o, r1, r2) == q.(kept1 := [r1[0]] + q.kept1);
    hide Extract;
    assert p1 + ([r1[0]] + q.kept1) == p1 + r1[..1] + q.kept1;
  }

  lemma WalkSecond<E, T>(o: Order<E, T>, s1: seq<E>, s2: seq<E>, p1: seq<E>, r1: seq<E>, p2: seq<E>, r2: seq<E>, o1: seq<E>, o2: seq<E>)
    requires Walked(o, s1, s2, p1, r1, p2, r2, o1, o2) && r1 != [] && r2 != [] && o.Cmp(r1[0], r2[0]) > 0
    ensures Walked(o, s1, s2, p1, r1, p2 + r2[..1], r2[1..], o1, o2)
  {
    var q := Extract(o, r1, r2[1..]);
    assert Extract(o, r1, r2) == q.(kept2 := [r2[0]] + q.kept2);
    hide Extract;
    assert p2 + ([r2[0]] + q.kept2) == p2 + r2[..1] + q.kept2;
  }

  lemma WalkBoth<E, T>(o: Order<E, T>, s1: seq<E>, s2: seq<E>, p1: seq<E>, r1: seq<E>, p2: seq<E>, r2: seq<E>, o1: seq<E>, o2: seq<E>)
    requires Walked(o, s1, s2, p1, r1, p2, r2, o1, o2) && r1 != [] && r2 != [] && o.Cmp(r1[0], r2[0]) == 0
    ensures Walked(o, s1, s2, p1, r1[1..], p2, r2[1..], o1 + [r1[0]], o2 + [r2[0]])
  {
    var q := Extract(o, r1[1..], r2[1..]);
    assert Extract(o, r1, r2) == q.(out1 := [r1[0]] + q.out1, out2 := [r2[0]] + q.out2);
    hide Extract;
    assert o1 + ([r1[0]] + q.out1) == o1 + [r1[0]] + q.out1;
    assert o2 + ([r2[0]] + q.out2) == o2 + [r2[0]] + q.out2;
  }

  /** The walk over two sorted lists. */
  method ExtractSorted<T>(l1: Node<T>, ghost s1: seq<Node<T>>, ghost F1: set<Node<T>>, l2: Node<T>, ghost s2: seq<Node<T>>, ghost F2: set<Node<T>>,
                          x1: Node<T>, ghost e1: seq<Node<T>>, ghost G1: set<Node<T>>, x2: Node<T>, ghost e2: seq<Node<T>>, ghost G2: set<Node<T>>,
                          cmp: (T, T) -> int)
    requires RingOn(l1, s1, F1) && RingOn(l2, s2, F2) && RingOn(x1, e1, G1) && RingOn(x2, e2, G2)
    requires Disjoint4(F1, F2, G1, G2)
    modifies F1, F2, G1, G2
    ensures var r := Extract(ByItem(cmp), s1, s2);
            Ring(l1, r.kept1) && Ring(l2, r.kept2) && Ring(x1, e1 + r.out1) && Ring(x2, e2 + r.out2)
  {
    hide Ring, RingOn, Lists, Walked, Extract, Disjoint4, Footprint;
    ghost var o := ByItem(cmp);
    ghost var p1: seq<Node<T>>, p2: seq<Node<T>>, o1: seq<Node<T>>, o2: seq<Node<T>> := [], [], [], [];
    ghost var r1, r2 := s1, s2;
    ghost var P1, P2, Q1, Q2 := F1, F2, G1, G2;
    ghost var all := F1 + F2 + G1 + G2;
    ListsStart(l1, s1, F1, l2, s2, F2, x1, e1, G1, x2, e2, G2);
    WalkStarts(o, s1, s2);
    var li1: Node<T>, li2: Node<T> := l1.next, l2.next;
    while li1 != l1 && li2 != l2
      invariant Lists(l1, p1 + r1, P1, l2, p2 + r2, P2, x1, e1 + o1, Q1, x2, e2 + o2, Q2, all) == true
      invariant li1 == (if r1 == [] then l1 else r1[0]) && li2 == (if r2 == [] then l2 else r2[0])
      invariant Walked(o, s1, s2, p1, r1, p2, r2, o1, o2) == true
      decreases |r1| + |r2|
    {
      CursorsAdvance(l1, p1, r1, P1, l2, p2, r2, P2, x1, e1 + o1, Q1, x2, e2 + o2, Q2, all);
      var cr := cmp(li1.item, li2.item);
      if cr < 0 {
        WalkFirst(o, s1, s2, p1, r1, p2, r2, o1, o2);
        assert p1 + r1 == p1 + r1[..1] + r1[1..];
        li1 := li1.next;
        p1, r1 := p1 + r1[..1], r1[1..];
      } else if cr > 0 {
        WalkSecond(o, s1, s2, p1, r1, p2, r2, o1, o2);
        assert p2 + r2 == p2 + r2[..1] + r2[1..];
        li2 := li2.next;
        p2, r2 := p2 + r2[..1], r2[1..];
      } else {
        WalkBoth(o, s1, s2, p1, r1, p2, r2, o1, o2);
        var ln1: Node<T>, ln2: Node<T> := li1.next, li2.next;
        MoveBoth(l1, p1, r1, P1, l2, p2, r2, P2, x1, e1 + o1, Q1, x2, e2 + o2, Q2, all, li1, li2);
        assert e1 + o1 + [li1] == e1 + (o1 + [li1]) && e2 + o2 + [li2] == e2 + (o2 + [li2]);
        P1, P2, Q1, Q2 := P1 - {li1}, P2 - {li2}, Q1 + {li1}, Q2 + {li2};
        o1, o2 := o1 + [li1], o2 + [li2];
        r1, r2 := r1[1..], r2[1..];
        li1, li2 := ln1, ln2;
      }
    }
    CursorsAdvance(l1, p1, r1, P1, l2, p2, r2, P2, x1, e1 + o1, Q1, x2, e2 + o2, Q2, all);
    WalkEnds(o, s1, s2, p1, r1, p2, r2, o1, o2);
    ListsAreRings(l1, p1 + r1, P1, l2, p2 + r2, P2, x1, e1 + o1, Q1, x2, e2 + o2, Q2, all);
  }

  lemma ListsStart<T>(l1: Node<T>, s1: seq<Node<T>>, F1: set<Node<T>>, l2: Node<T>, s2: seq<Node<T>>, F2: set<Node<T>>,
                      x1: Node<T>, e1: seq<Node<T>>, G1: set<Node<T>>, x2: Node<T>, e2: seq<Node<T>>, G2: set<Node<T>>)
    requires RingOn(l1, s1, F1) && RingOn(l2, s2, F2) && RingOn(x1, e1, G1) && RingOn(x2, e2, G2)
    requires Disjoint4(F1, F2, G1, G2)
    ensures Lists(l1, [] + s1, F1, l2, [] + s2, F2, x1, e1 + [], G1, x2, e2 + [], G2, F1 + F2 + G1 + G2)
    ensures l1.next == (if s1 == [] then l1 else s1[0]) && l2.next == (if s2 == [] then l2 else s2[0])
  {
    assert [] + s1 == s1 && [] + s2 == s2 && e1 + [] == e1 && e2 + [] == e2;
  }

  lemma ListsAreRings<T>(l1: Node<T>, s1: seq<Node<T>>, F1: set<Node<T>>, l2: Node<T>, s2: seq<Node<T>>, F2: set<Node<T>>,
                         x1: Node<T>, e1: seq<Node<T>>, G1: set<Node<T>>, x2: Node<T>, e2: seq<Node<T>>, G2: set<Node<T>>, all: set<Node<T>>)
    requires Lists(l1, s1, F1, l2, s2, F2, x1, e1, G1, x2, e2, G2, all) == true
    ensures Ring(l1, s1) && Ring(l2, s2) && Ring(x1, e1) && Ring(x2, e2)
  {
    hide Ring;
  }

  lemma WalkStarts<E, T>(o: Order<E, T>, s1: seq<E>, s2: seq<E>)
    ensures Walked(o, s1, s2, [], s1, [], s2, [], [])
  {
    var r := Extract(o, s1, s2);
    hide Extract;
    assert [] + r.kept1 == r.kept1 && [] + r.kept2 == r.kept2 && [] + r.out1 == r.out1 && [] + r.out2 == r.out2;
  }

  lemma WalkEnds<E, T>(o: Order<E, T>, s1: seq<E>, s2: seq<E>, p1: seq<E>, r1: seq<E>, p2: seq<E>, r2: seq<E>, o1: seq<E>, o2: seq<E>)
    requires Walked(o, s1, s2, p1, r1, p2, r2, o1, o2) && (r1 == [] || r2 == [])
    ensures Extract(o, s1, s2) == Split(p1 + r1, p2 + r2, o1, o2)
  {
    assert Extract(o, r1, r2) == Split(r1, r2, [], []);
    hide Extract;
    assert o1 + [] == o1 && o2 + [] == o2;
  }

  /** Sorts both lists, then moves what they have in common to the ends of the extracted lists. */
  method ExtractRepeating<T(!new)>(l1: Node<T>, ghost s1: seq<Node<T>>, l2: Node<T>, ghost s2: seq<Node<T>>,
                                   x1: Node<T>, ghost e1: seq<Node<T>>, x2: Node<T>, ghost e2: seq<Node<T>>, cmp: (T, T) -> int)
    requires Ring(l1, s1) && Ring(l2, s2) && Ring(x1, e1) && Ring(x2, e2)
    requires Disjoint4(Footprint(l1, s1), Footprint(l2, s2), Footprint(x1, e1), Footprint(x2, e2))
    modifies Footprint(l1, s1), Footprint(l2, s2), Footprint(x1, e1), Footprint(x2, e2)
    ensures var o := ByItem(cmp);
            var r := Extract(o, SortFrom(o, 1, s1), SortFrom(o, 1, s2));
            Ring(l1, r.kept1) && Ring(l2, r.kept2) && Ring(x1, e1 + r.out1) && Ring(x2, e2 + r.out2)
  {
    ghost var o := ByItem(cmp);
    ghost var F1, F2, G1, G2 := Footprint(l1, s1), Footprint(l2, s2), Footprint(x1, e1), Footprint(x2, e2);
    assert RingOn(l1, s1, F1) && RingOn(l2, s2, F2) && RingOn(x1, e1, G1) && RingOn(x2, e2, G2);
    hide SortFrom, Ring, Footprint, RingOn, Extract;
    SortOn(l1, s1, F1, cmp);
    SortOn(l2, s2, F2, cmp);
    ExtractSorted(l1, SortFrom(o, 1, s1), F1, l2, SortFrom(o, 1, s2), F2, x1, e1, G1, x2, e2, G2, cmp);
  }

  method SortOn<T(!new)>(l: Node<T>, ghost s: seq<Node<T>>, ghost F: set<Node<T>>, cmp: (T, T) -> int)
    requires RingOn(l, s, F)
    modifies F
    ensures RingOn(l, SortFrom(ByItem(cmp), 1, s), F)
  {
    SortPermutes(ByItem(cmp), 1, s);
    hide SortFrom, Ring, StablySorted, Preorder;
    SameMembers(SortFrom(ByItem(cmp), 1, s), s);
    Sort(l, s, cmp);
  }

  /** The whole promise: for every class min of the two counts leave each list, and nothing common stays. */
  lemma RepeatingExtracted<E, T(!new)>(o: Order<E, T>, s1: seq<E>, s2: seq<E>)
    requires Preorder(o.cmp)
    ensures var r := Extract(o, SortFrom(o, 1, s1), SortFrom(o, 1, s2));
            && (forall x :: MinimumOut(Class(o, x, s1), Class(o, x, s2), Class(o, x, r.out1), Class(o, x, r.kept1),
                                       Class(o, x, r.out2), Class(o, x, r.kept2)))
            && (forall i, j :: 0 <= i < |r.kept1| && 0 <= j < |r.kept2| ==> o.Cmp(r.kept1[i], r.kept2[j]) != 0)
            && multiset(r.kept1) + multiset(r.out1) == multiset(s1)
            && multiset(r.kept2) + multiset(r.out2) == multiset(s2)
  {
    var a, b := SortFrom(o, 1, s1), SortFrom(o, 1, s2);
    SortIsStable(o, s1);
    SortIsStable(o, s2);
    SortPermutes(o, 1, s1);
    SortPermutes(o, 1, s2);
    hide Preorder, Sorted, SortFrom, Class, Extract, MinimumOut;
    NothingLost(o, a, b);
    var r := Extract(o, a, b);
    forall x ensures MinimumOut(Class(o, x, s1), Class(o, x, s2), Class(o, x, r.out1), Class(o, x, r.kept1),
                                Class(o, x, r.out2), Class(o, x, r.kept2)) {
      ExtractsMinimum(o, x, a, b);
    }
    forall i, j | 0 <= i < |r.kept1| && 0 <= j < |r.kept2| ensures o.Cmp(r.kept1[i], r.kept2[j]) != 0 {
      NothingCommonStays(o, a, b, i, j);
    }
  }
}
