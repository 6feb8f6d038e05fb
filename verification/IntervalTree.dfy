/**
 The interval tree of pintervaltree.c and pintervaltree.h. The tree is a binary tree whose in-order
 list is what matters; adding and deleting a node may leave any tree with the right in-order list,
 so every rebalancing is allowed. A node pointer is the node's place in that list.
 */
module IntervalTree {
  datatype Interval = Interval(from: nat, to: nat)

  datatype Tree = Empty | Node(left: Tree, iv: Interval, right: Tree)

  function Size(t: Tree): (n: nat) { if t.Empty? then 0 else Size(t.left) + 1 + Size(t.right) }

  function Inorder(t: Tree): (s: seq<Interval>)
    ensures |s| == Size(t)
  {
    if t.Empty? then [] else Inorder(t.left) + [t.iv] + Inorder(t.right)
  }

  /** The same tree with the node at place i changed. */
  function With(t: Tree, i: nat, x: Interval): (r: Tree)
    requires i < Size(t)
    ensures Inorder(r) == Inorder(t)[i := x]
  {
    if i < Size(t.left) then Node(With(t.left, i, x), t.iv, t.right)
    else if i == Size(t.left) then Node(t.left, x, t.right)
    else Node(t.left, t.iv, With(t.right, i - Size(t.left) - 1, x))
  }

  function TreeOf(s: seq<Interval>): (t: Tree)
    ensures Inorder(t) == s
  {
    if s == [] then Empty else
      assert [] + [s[0]] + s[1..] == s;
      Node(Empty, s[0], TreeOf(s[1..]))
  }

  // ---------------------------------------------------------------- Point sets

  predicate Covers(s: seq<Interval>, x: nat) {
    exists i :: 0 <= i < |s| && s[i].from <= x < s[i].to
  }

  /** Sorted, not empty, not touching. */
  predicate Canonical(s: seq<Interval>) {
    && (forall i :: 0 <= i < |s| ==> s[i].from < s[i].to)
    && (forall i, j :: 0 <= i < j < |s| ==> s[i].to < s[j].from)
  }

  lemma CoversConcat(s: seq<Interval>, t: seq<Interval>, x: nat)
    ensures Covers(s + t, x) <==> Covers(s, x) || Covers(t, x)
  {
    if Covers(s, x) {
      var i :| 0 <= i < |s| && s[i].from <= x < s[i].to;
      assert (s + t)[i] == s[i];
    }
    if Covers(t, x) {
      var i :| 0 <= i < |t| && t[i].from <= x < t[i].to;
      assert (s + t)[|s| + i] == t[i];
    }
  }

  lemma CoversOne(iv: Interval, x: nat)
    ensures Covers([iv], x) <==> iv.from <= x < iv.to
  {
    assert [iv][0] == iv;
  }

  lemma CoversParts(s: seq<Interval>, i: nat, x: nat)
    requires i < |s|
    ensures Covers(s, x) <==> Covers(s[..i], x) || s[i].from <= x < s[i].to || Covers(s[i + 1..], x)
  {
    CoversConcat(s[..i], [s[i]], x);
    CoversOne(s[i], x);
    CoversConcat(s[..i] + [s[i]], s[i + 1..], x);
    assert s[..i] + [s[i]] + s[i + 1..] == s;
  }

  /** Two canonical lists of the same points are the same list. */
  lemma {:induction false} CanonicalUnique(s: seq<Interval>, t: seq<Interval>)
    requires Canonical(s) && Canonical(t)
    requires forall x: nat :: Covers(s, x) <==> Covers(t, x)
    ensures s == t
    decreases |s|
  {
    if s == [] || t == [] {
      if s != [] {
        assert s[0].from <= s[0].from < s[0].to;
        assert Covers(s, s[0].from);
      }
      if t != [] {
        assert t[0].from <= t[0].from < t[0].to;
        assert Covers(t, t[0].from);
      }
    } else {
      FirstAgrees(s, t);
      FirstAgrees(t, s);
      assert s[0] == t[0];
      forall x: nat ensures Covers(s[1..], x) <==> Covers(t[1..], x) {
        CoversParts(s, 0, x);
        CoversParts(t, 0, x);
        TailAbove(s, x);
        TailAbove(t, x);
      }
      CanonicalUnique(s[1..], t[1..]);
    }
  }

  lemma TailAbove(s: seq<Interval>, x: nat)
    requires Canonical(s) && s != []
    ensures Covers(s[1..], x) ==> x > s[0].to
  {
    assert forall i | 0 <= i < |s| - 1 :: s[1..][i] == s[i + 1];
  }

  lemma FirstAgrees(s: seq<Interval>, t: seq<Interval>)
    requires Canonical(s) && Canonical(t) && s != [] && t != []
    requires forall x: nat :: Covers(s, x) <==> Covers(t, x)
    ensures s[0].from >= t[0].from && (s[0].from == t[0].from ==> s[0].to >= t[0].to)
  {
    assert s[0].from <= s[0].from < s[0].to;
    assert Covers(s, s[0].from);
    var i :| 0 <= i < |t| && t[i].from <= s[0].from < t[i].to;
    assert i == 0 || t[0].to < t[i].from;
    assert forall j | 0 < j < |s| :: s[0].to < s[j].from;
    assert !Covers(s, s[0].to);
    assert t[0].from <= s[0].to < t[0].to ==> Covers(t, s[0].to);
  }

  /** The same points, those of [from, to) added or taken away. */
  ghost predicate AddsRange(s: seq<Interval>, t: seq<Interval>, from: nat, to: nat) {
    forall x: nat :: Covers(t, x) <==> Covers(s, x) || from <= x < to
  }

  ghost predicate DropsRange(s: seq<Interval>, t: seq<Interval>, from: nat, to: nat) {
    forall x: nat :: Covers(t, x) <==> Covers(s, x) && !(from <= x < to)
  }

  // ---------------------------------------------------------------- Edits of the in-order list

  /** Canonical but for place i, whose interval may reach into the ones behind it. */
  predicate Consuming(s: seq<Interval>, i: nat) {
    && i < |s| && s[i].from < s[i].to
    && Canonical(s[..i]) && (forall k :: 0 <= k < i ==> s[k].to < s[i].from)
    && Canonical(s[i + 1..]) && (forall k :: i < k < |s| ==> s[i].from < s[k].from)
  }

  lemma Join(a: seq<Interval>, iv: Interval, b: seq<Interval>)
    requires Canonical(a) && Canonical(b) && iv.from < iv.to
    requires forall k :: 0 <= k < |a| ==> a[k].to < iv.from
    requires forall k :: 0 <= k < |b| ==> iv.to < b[k].from
    ensures Canonical(a + [iv] + b)
  {
    var s := a + [iv] + b;
    forall i, j | 0 <= i < j < |s| ensures s[i].to < s[j].from {
      if i < |a| && j > |a| {
        assert s[i].to < iv.from && iv.to < s[j].from;
      }
    }
  }

  lemma Cut(s: seq<Interval>, i: nat)
    requires Canonical(s) && i <= |s|
    ensures Canonical(s[..i]) && Canonical(s[i..])
    ensures forall k, m :: 0 <= k < i <= m < |s| ==> s[k].to < s[m].from
  {
  }

  lemma ConsumeDone(s: seq<Interval>, i: nat)
    requires Consuming(s, i) && (i + 1 < |s| ==> s[i].to < s[i + 1].from)
    ensures Canonical(s)
  {
    var b := s[i + 1..];
    forall k | 0 <= k < |b| ensures s[i].to < b[k].from {
      if k > 0 {
        assert b[0].from < b[0].to < b[k].from;
      }
    }
    Join(s[..i], s[i], b);
    assert s[..i] + [s[i]] + b == s;
  }

  function Swallowed(s: seq<Interval>, i: nat): (t: seq<Interval>)
    requires i + 1 < |s|
    ensures |t| == |s| - 1
  {
    s[..i] + [Interval(s[i].from, if s[i + 1].to >= s[i].to then s[i + 1].to else s[i].to)] + s[i + 2..]
  }

  lemma SwallowCovers(s: seq<Interval>, i: nat, x: nat)
    requires Consuming(s, i) && i + 1 < |s| && s[i + 1].from <= s[i].to
    ensures Covers(Swallowed(s, i), x) <==> Covers(s, x)
  {
    var t := Swallowed(s, i);
    CoversParts(s, i, x);
    assert s[i + 1..][0] == s[i + 1] && s[i + 1..][1..] == s[i + 2..] && s[i + 1..][..0] == [];
    CoversParts(s[i + 1..], 0, x);
    CoversParts(t, i, x);
    assert t[..i] == s[..i] && t[i + 1..] == s[i + 2..];
  }

  lemma SwallowConsumes(s: seq<Interval>, i: nat)
    requires Consuming(s, i) && i + 1 < |s| && s[i + 1].from <= s[i].to
    ensures Consuming(Swallowed(s, i), i)
    ensures s[i + 1].to >= s[i].to ==> Canonical(Swallowed(s, i))
  {
    hide Canonical;
    var t, b := Swallowed(s, i), s[i + 1..];
    Cut(b, 1);
    Around(b, 0);
    assert b[0] == s[i + 1] && t[..i] == s[..i] && t[i + 1..] == b[1..];
    forall k | i < k < |t| ensures t[i].from < t[k].from {
      assert t[k] == s[k + 1];
    }
    forall k | 0 <= k < i ensures t[k].to < t[i].from {
      assert t[k] == s[k];
    }
    if s[i + 1].to >= s[i].to {
      if i + 1 < |t| {
        assert t[i + 1] == s[i + 2] == b[1];
      }
      ConsumeDone(t, i);
    }
  }

  lemma InsertCovers(s: seq<Interval>, i: nat, iv: Interval)
    requires i <= |s|
    ensures AddsRange(s, s[..i] + [iv] + s[i..], iv.from, iv.to)
  {
    var t := s[..i] + [iv] + s[i..];
    forall x: nat ensures Covers(t, x) <==> Covers(s, x) || iv.from <= x < iv.to {
      CoversParts(t, i, x);
      assert t[..i] == s[..i] && t[i + 1..] == s[i..];
      CoversConcat(s[..i], s[i..], x);
      assert s[..i] + s[i..] == s;
    }
  }

  lemma UpdateCovers(s: seq<Interval>, i: nat, iv: Interval, x: nat)
    requires i < |s|
    ensures Covers(s, x) <==> Covers(s[..i], x) || s[i].from <= x < s[i].to || Covers(s[i + 1..], x)
    ensures Covers(s[i := iv], x) <==> Covers(s[..i], x) || iv.from <= x < iv.to || Covers(s[i + 1..], x)
  {
    var t := s[i := iv];
    CoversParts(s, i, x);
    CoversParts(t, i, x);
    assert t[..i] == s[..i] && t[i + 1..] == s[i + 1..];
  }

  /** The three ways adding [from, to) edits the list. */
  lemma ExtendEnd(s: seq<Interval>, i: nat, from: nat, to: nat)
    requires Canonical(s) && i < |s| && s[i].from <= from <= s[i].to < to
    ensures var t := s[i := Interval(s[i].from, to)]; Consuming(t, i) && AddsRange(s, t, from, to)
  {
    var t := s[i := Interval(s[i].from, to)];
    Cut(s, i);
    Cut(s, i + 1);
    assert t[..i] == s[..i] && t[i + 1..] == s[i + 1..];
    forall x: nat ensures Covers(t, x) <==> Covers(s, x) || from <= x < to {
      UpdateCovers(s, i, t[i], x);
    }
  }

  lemma ExtendStart(s: seq<Interval>, i: nat, from: nat, to: nat)
    requires Canonical(s) && i < |s| && from < s[i].from <= to <= s[i].to
    requires forall k :: 0 <= k < i ==> s[k].to < from
    ensures var t := s[i := Interval(from, s[i].to)]; Canonical(t) && AddsRange(s, t, from, to)
  {
    var t := s[i := Interval(from, s[i].to)];
    forall x: nat ensures Covers(t, x) <==> Covers(s, x) || from <= x < to {
      UpdateCovers(s, i, t[i], x);
    }
  }

  lemma InsertNew(s: seq<Interval>, i: nat, from: nat, to: nat)
    requires Canonical(s) && i <= |s| && from < to
    requires forall k :: 0 <= k < i ==> s[k].to < from
    requires forall k :: i <= k < |s| ==> from < s[k].from
    ensures var t := s[..i] + [Interval(from, to)] + s[i..]; Consuming(t, i) && AddsRange(s, t, from, to)
  {
    hide Covers, AddsRange;
    var t := s[..i] + [Interval(from, to)] + s[i..];
    InsertCovers(s, i, Interval(from, to));
    Cut(s, i);
    assert t[..i] == s[..i] && t[i + 1..] == s[i..];
    assert forall k | i < k < |t| :: t[k] == s[k - 1];
  }

  // ---------------------------------------------------------------- Trimming

  /** What is left of an interval when [from, to) is taken away. */
  function Pieces(e: Interval, from: nat, to: nat): (p: seq<Interval>) {
    (if e.from < from then [Interval(e.from, if e.to < from then e.to else from)] else [])
    + (if e.to > to then [Interval(if e.from > to then e.from else to, e.to)] else [])
  }

  lemma PiecesDrop(e: Interval, from: nat, to: nat, x: nat)
    requires from < to
    ensures Covers(Pieces(e, from, to), x) <==> e.from <= x < e.to && !(from <= x < to)
  {
    var low := if e.from < from then [Interval(e.from, if e.to < from then e.to else from)] else [];
    var high := if e.to > to then [Interval(if e.from > to then e.from else to, e.to)] else [];
    CoversConcat(low, high, x);
    if low != [] { CoversOne(low[0], x); }
    if high != [] { CoversOne(high[0], x); }
  }

  predicate Inside(s: seq<Interval>, i: int, point: nat) { 0 <= i < |s| && s[i].from < point < s[i].to }

  /** Place i replaced by what splitting it at `from` and `to` leaves. */
  function Doubled(s: seq<Interval>, i: int, from: nat, to: nat): (t: seq<Interval>)
    requires Inside(s, i, from)
  {
    s[..i] + [Interval(s[i].from, from), Interval(to, s[i].to)] + s[i + 1..]
  }

  /** What the removal loop leaves of one interval, and whether it stops there. */
  function Left(e: Interval, from: nat, to: nat): (p: seq<Interval>) {
    if e.from < from && e.to > to then [Interval(e.from, from), Interval(to, e.to)]
    else if from <= e.from && e.from < to then (if to >= e.to then [] else [Interval(to, e.to)])
    else if e.from < from then [Interval(e.from, from)]
    else [e]
  }

  predicate Stops(e: Interval, from: nat, to: nat) {
    (e.from < from && e.to > to) || (e.from >= from && e.from >= to)
  }

  lemma LeftIsPieces(e: Interval, from: nat, to: nat)
    requires from < to && e.from < e.to && from < e.to
    ensures Left(e, from, to) == Pieces(e, from, to)
  {
  }

  /** The effect of removing from `from` back to `to`. */
  ghost predicate BackwardRemoval(s: seq<Interval>, t: seq<Interval>, from: nat, to: nat) {
    || (t == s && forall i :: !Inside(s, i, from))
    || (exists i :: Inside(s, i, from) && t == Doubled(s, i, from, to))
  }

  /** Such a removal leaves the list alone and canonical exactly if no interval has `from` strictly inside it. */
  lemma BackwardRemovalIsHarmlessIff(s: seq<Interval>, t: seq<Interval>, from: nat, to: nat)
    requires Canonical(s) && from >= to && BackwardRemoval(s, t, from, to)
    ensures Canonical(t) <==> forall i :: !Inside(s, i, from)
    ensures Canonical(t) ==> t == s
  {
    if i :| Inside(s, i, from) && t == Doubled(s, i, from, to) {
      assert t[i] == Interval(s[i].from, from) && t[i + 1] == Interval(to, s[i].to);
    }
  }

  /** Removing from 5 back to 3 makes two overlapping intervals of one. */
  lemma BackwardRemovalDoubles(t: seq<Interval>)
    requires BackwardRemoval([Interval(0, 10)], t, 5, 3)
    ensures t == [Interval(0, 5), Interval(3, 10)] && !Canonical(t)
  {
    assert Inside([Interval(0, 10)], 0, 5);
    assert t[0].to >= t[1].from;
  }

  lemma BackwardStep(s: seq<Interval>, m: nat, from: nat, to: nat)
    requires Canonical(s) && m < |s| && from >= to && s[m].to > from
    requires forall k :: 0 <= k < m ==> s[k].to <= from
    ensures Stops(s[m], from, to)
    ensures BackwardRemoval(s, s[..m] + Left(s[m], from, to) + s[m + 1..], from, to)
  {
    var t := s[..m] + Left(s[m], from, to) + s[m + 1..];
    Around(s, m);
    if s[m].from < from {
      assert Inside(s, m, from) && t == Doubled(s, m, from, to);
    } else {
      assert t == s;
    }
  }

  /** Places before m are trimmed, place m and those behind are as they were. */
  ghost predicate Trimmed(s: seq<Interval>, m: nat, p: seq<Interval>, from: nat, to: nat) {
    && m <= |s| && Canonical(p)
    && (forall k :: m < |s| && 0 <= k < |p| ==> p[k].to < s[m].from)
    && DropsRange(s[..m], p, from, to)
  }

  lemma TrimOne(s: seq<Interval>, m: nat, p: seq<Interval>, from: nat, to: nat)
    requires Canonical(s) && m < |s| && Trimmed(s, m, p, from, to) && from < to && s[m].to > from
    ensures Trimmed(s, m + 1, p + Pieces(s[m], from, to), from, to)
  {
    var e := s[m];
    var q := Pieces(e, from, to);
    var t := p + q;
    Around(s, m);
    assert forall k | 0 <= k < |q| :: e.from <= q[k].from < q[k].to <= e.to;
    forall i, j | 0 <= i < j < |t| ensures t[i].to < t[j].from {
      if i < |p| && j >= |p| {
        assert t[i].to < e.from;
      }
    }
    forall x: nat ensures Covers(t, x) <==> Covers(s[..m + 1], x) && !(from <= x < to) {
      CoversConcat(p, q, x);
      PiecesDrop(e, from, to, x);
      CoversConcat(s[..m], [e], x);
      CoversOne(e, x);
      assert s[..m] + [e] == s[..m + 1];
    }
  }

  lemma TrimDone(s: seq<Interval>, m: nat, p: seq<Interval>, from: nat, to: nat)
    requires Canonical(s) && Trimmed(s, m, p, from, to)
    requires forall k :: m <= k < |s| ==> s[k].from >= to
    ensures Canonical(p + s[m..]) && DropsRange(s, p + s[m..], from, to)
  {
    var t := p + s[m..];
    Cut(s, m);
    forall i, j | 0 <= i < j < |t| ensures t[i].to < t[j].from {
      if i < |p| && j >= |p| {
        assert t[i].to < s[m].from && t[j] == s[m + j - |p|];
        Around(s, m);
      }
    }
    forall x: nat ensures Covers(t, x) <==> Covers(s, x) && !(from <= x < to) {
      CoversConcat(p, s[m..], x);
      CoversConcat(s[..m], s[m..], x);
      assert s[..m] + s[m..] == s;
      if Covers(s[m..], x) {
        var k :| 0 <= k < |s[m..]| && s[m..][k].from <= x < s[m..][k].to;
        assert s[m..][k] == s[m + k];
      }
    }
  }

  lemma TrimStart(s: seq<Interval>, r: nat, from: nat, to: nat)
    requires Canonical(s) && r <= |s| && (forall k :: 0 <= k < r ==> s[k].to <= from)
    ensures Trimmed(s, r, s[..r], from, to)
  {
    Cut(s, r);
    forall x: nat | from <= x ensures !Covers(s[..r], x) {
      assert forall k | 0 <= k < r :: s[..r][k] == s[k];
    }
  }

  lemma CoversBounds(s: seq<Interval>, low: nat, high: nat, x: nat)
    requires forall k :: 0 <= k < |s| ==> low <= s[k].from && s[k].to <= high
    ensures Covers(s, x) ==> low <= x < high
  {
  }

  lemma DropsAbove(s: seq<Interval>, n: nat, end: nat, x: nat)
    requires n <= |s| && forall k :: n <= k < |s| ==> s[k].from >= end
    ensures Covers(s, x) && x < end ==> Covers(s[..n], x)
    ensures Covers(s[..n], x) ==> Covers(s, x)
  {
    CoversConcat(s[..n], s[n..], x);
    assert s[..n] + s[n..] == s;
    assert Covers(s[n..], x) ==> x >= end by {
      if Covers(s[n..], x) {
        var k :| 0 <= k < |s[n..]| && s[n..][k].from <= x < s[n..][k].to;
        assert s[n..][k] == s[n + k];
      }
    }
  }

  lemma Cutoff(s: seq<Interval>, n: nat, end: nat)
    requires Canonical(s) && n <= |s|
    requires forall k :: n <= k < |s| ==> s[k].from >= end
    requires n > 0 ==> s[n - 1].to <= end
    ensures forall x: nat :: Covers(s[..n], x) <==> Covers(s, x) && x < end
  {
    if n > 0 { Around(s, n - 1); }
    hide Canonical, Covers;
    forall x: nat ensures Covers(s[..n], x) <==> Covers(s, x) && x < end {
      DropsAbove(s, n, end, x);
      CoversBounds(s[..n], 0, end, x);
    }
  }

  lemma CutShort(s: seq<Interval>, n: nat, end: nat)
    requires Canonical(s) && 0 < n <= |s|
    requires forall k :: n <= k < |s| ==> s[k].from >= end
    requires s[n - 1].from < end < s[n - 1].to
    ensures var t := s[..n][n - 1 := Interval(s[n - 1].from, end)];
            Canonical(t) && forall x: nat :: Covers(t, x) <==> Covers(s, x) && x < end
  {
    var t := s[..n][n - 1 := Interval(s[n - 1].from, end)];
    Around(s, n - 1);
    hide Covers;
    forall x: nat ensures Covers(t, x) <==> Covers(s, x) && x < end {
      UpdateCovers(s[..n], n - 1, t[n - 1], x);
      assert s[..n][n..] == [] && s[..n][..n - 1] == s[..n - 1];
      CoversBounds(s[..n - 1], 0, end, x);
      CoversBounds([], end, end, x);
      DropsAbove(s, n, end, x);
    }
  }

  // ---------------------------------------------------------------- The tree and its operations

  /** Any tree with the same in-order list. */
  method Rebalanced(t: Tree) returns (r: Tree)
    ensures Inorder(r) == Inorder(t)
  {
    assert Inorder(t) == Inorder(t);
    r :| Inorder(r) == Inorder(t);
  }

  class Intervals {
    var root: Tree

    ghost function Contents(): (s: seq<Interval>)
      reads this
    {
      Inorder(root)
    }

    constructor ()
      ensures Contents() == []
    {
      root := Empty;
    }

    /** Changes a node in place. */
    method SetNode(i: nat, iv: Interval)
      requires i < |Contents()|
      modifies this
      ensures Contents() == old(Contents())[i := iv]
    {
      root := With(root, i, iv);
    }

    /** Deletes a node; the tree may be rebalanced in any way. */
    method DeleteNode(i: nat)
      requires i < |Contents()|
      modifies this
      ensures Contents() == old(Contents())[..i] + old(Contents())[i + 1..]
    {
      var s := Inorder(root);
      root := Rebalanced(TreeOf(s[..i] + s[i + 1..]));
    }

    /** Adds a node at place i; the tree may be rebalanced in any way. */
    method InsertNode(i: nat, iv: Interval)
      requires i <= |Contents()|
      modifies this
      ensures Contents() == old(Contents())[..i] + [iv] + old(Contents())[i..]
    {
      var s := Inorder(root);
      root := Rebalanced(TreeOf(s[..i] + [iv] + s[i..]));
    }

    /** The place of the first interval that ends after the point; the list's length if there is none. */
    method FirstContainingOrAfter(point: nat) returns (r: nat)
      requires Canonical(Contents())
      ensures r <= |Contents()|
      ensures forall k :: 0 <= k < r ==> Contents()[k].to <= point
      ensures r < |Contents()| ==> point < Contents()[r].to
    {
      hide Inorder, Size, Canonical, FirstEnds;
      ghost var S := Contents();
      EmptyTree();
      assert S[0..|S|] == S;
      FirstEndsBefore(S, point);
      var sub := root;
      var base: nat := 0;
      while sub.Node?
        invariant base + Size(sub) <= |S| && Inorder(sub) == S[base..base + Size(sub)]
        invariant FirstEnds(S, base, base + Size(sub), point) == true
        decreases sub
      {
        var e := base + Size(sub.left);
        Descend(sub, S, base);
        FirstEndsStep(S, base, e, base + Size(sub), point);
        if point >= sub.iv.to {
          base, sub := e + 1, sub.right;
        } else if point >= sub.iv.from || sub.left.Empty? {
          FirstEndsMeans(S, e, point);
          return e;
        } else {
          sub := sub.left;
        }
      }
      FirstEndsMeans(S, base, point);
      return base;
    }

    /** Swallows the intervals that the one at place i reaches. */
    method ConsumeIntervals(i: nat)
      requires Consuming(Contents(), i)
      modifies this
      ensures Canonical(Contents())
      ensures forall x: nat :: Covers(Contents(), x) <==> Covers(old(Contents()), x)
    {
      hide Inorder, Covers, Consuming, Canonical;
      ConsumingHas(Contents(), i);
      while i + 1 < Size(root)
        invariant Consuming(Contents(), i) && i < |Contents()|
        invariant forall x: nat :: Covers(Contents(), x) <==> Covers(old(Contents()), x)
        decreases Size(root)
      {
        ghost var S := Contents();
        var s := Inorder(root);
        var e, next := s[i], s[i + 1];
        if next.from > e.to {
          break;
        }
        forall x: nat ensures Covers(Swallowed(S, i), x) <==> Covers(S, x) {
          SwallowCovers(S, i, x);
        }
        SwallowConsumes(S, i);
        DeleteNode(i + 1);
        assert S[..i + 1] + S[i + 2..] == S[..i] + [S[i]] + S[i + 2..];
        if next.to >= e.to {
          SetNode(i, Interval(e.from, next.to));
          assert Contents() == Swallowed(S, i);
          return;
        }
        assert S[..i] + [S[i]] + S[i + 2..] == Swallowed(S, i);
      }
      ConsumeDone(Contents(), i);
    }

    /** psync_interval_tree_add: exactly set union. */
    method Add(from: nat, to: nat)
      requires Canonical(Contents()) && from < to
      modifies this
      ensures Canonical(Contents())
      ensures AddsRange(old(Contents()), Contents(), from, to)
    {
      hide Inorder, Size, Covers, Consuming, Canonical, Between, AddsRange;
      ghost var S := Contents();
      EmptyTree();
      BetweenAll(S, from);
      if root.Empty? {
        AddNode(0, from, to);
        return;
      }
      assert S[0..|S|] == S;
      var sub := root;
      var base: nat := 0;
      while true
        invariant root == old(root)
        invariant sub.Node? && base + Size(sub) <= |S| && Inorder(sub) == S[base..base + Size(sub)]
        invariant Between(S, base, base + Size(sub), from) == true
        decreases sub
      {
        var e := base + Size(sub.left);
        Descend(sub, S, base);
        BetweenStep(S, base, e, base + Size(sub), from);
        if sub.iv.from <= from && sub.iv.to >= from {
          if sub.iv.to >= to {
            Unneeded(S, e, from, to);
          } else {
            GrowNode(e, from, to);
          }
          return;
        } else if sub.iv.from > from {
          if sub.left.Node? {
            sub := sub.left;
          } else if sub.iv.from <= to && sub.iv.to >= to {
            BetweenBefore(S, e, from);
            ExtendStart(S, e, from, to);
            SetNode(e, Interval(from, sub.iv.to));
            return;
          } else {
            AddNode(e, from, to);
            return;
          }
        } else {
          if sub.right.Node? {
            base, sub := e + 1, sub.right;
          } else {
            AddNode(e + 1, from, to);
            return;
          }
        }
      }
    }

    /** A node that holds or touches `from` is extended to `to`. */
    method GrowNode(i: nat, from: nat, to: nat)
      requires Canonical(Contents()) && i < |Contents()| && Contents()[i].from <= from <= Contents()[i].to < to
      modifies this
      ensures Canonical(Contents()) && AddsRange(old(Contents()), Contents(), from, to)
    {
      hide Inorder, Covers, Consuming, Canonical;
      ghost var S := Contents();
      ExtendEnd(S, i, from, to);
      SetNode(i, Interval(Inorder(root)[i].from, to));
      ConsumeIntervals(i);
    }

    /** A new node goes to its place among the others and swallows what it reaches. */
    method AddNode(i: nat, from: nat, to: nat)
      requires Canonical(Contents()) && from < to && i <= |Contents()| && Between(Contents(), i, i, from)
      modifies this
      ensures Canonical(Contents()) && AddsRange(old(Contents()), Contents(), from, to)
    {
      hide Inorder, Covers, Consuming, Canonical;
      InsertNew(Contents(), i, from, to);
      InsertNode(i, Interval(from, to));
      ConsumeIntervals(i);
    }

    /** What the removal loop does at one node; `stop` when it leaves the loop there. */
    method TrimNode(i: nat, from: nat, to: nat) returns (next: nat, stop: bool)
      requires i < |Contents()|
      modifies this
      ensures var s := old(Contents());
              && Contents() == s[..i] + Left(s[i], from, to) + s[i + 1..]
              && stop == Stops(s[i], from, to)
              && next == i + |Left(s[i], from, to)|
    {
      hide Inorder, Size;
      ghost var s := Contents();
      var tr := Inorder(root)[i];
      next, stop := i + 1, false;
      if tr.from < from && tr.to > to {
        InsertNode(i + 1, Interval(to, tr.to));
        SetNode(i, Interval(tr.from, from));
        assert Contents() == s[..i] + [Interval(tr.from, from), Interval(to, tr.to)] + s[i + 1..];
        next, stop := i + 2, true;
      } else if from <= tr.from && tr.from < to {
        SetNode(i, Interval(to, tr.to));
        if to >= tr.to {
          DeleteNode(i);
          assert Contents() == s[..i] + [] + s[i + 1..];
          next := i;
        } else {
          assert Contents() == s[..i] + [Interval(to, tr.to)] + s[i + 1..];
        }
      } else if tr.from < from {
        SetNode(i, Interval(tr.from, from));
        assert Contents() == s[..i] + [Interval(tr.from, from)] + s[i + 1..];
      } else {
        stop := true;
        assert s == s[..i] + [tr] + s[i + 1..];
      }
    }

    /** psync_interval_tree_remove: exactly set difference when from < to. Otherwise the list stays,
        except that an interval holding `from` inside is doubled into two that touch or overlap. */
    method Remove(from: nat, to: nat)
      requires Canonical(Contents())
      modifies this
      ensures from < to ==> Canonical(Contents()) && DropsRange(old(Contents()), Contents(), from, to)
      ensures from >= to ==> BackwardRemoval(old(Contents()), Contents(), from, to)
    {
      hide Inorder, Size, Covers, Canonical, Trimmed, DropsRange;
      ghost var S := Contents();
      var i := FirstContainingOrAfter(from);
      ghost var m := i;
      ghost var P := S[..i];
      TrimStart(S, i, from, to);
      if i < |S| { Around(S, i); }
      assert P + S[m..] == S;
      var stop := false;
      while i < Size(root) && !stop
        invariant m <= |S| && i == |P| && Contents() == P + S[m..]
        invariant from < to ==> Trimmed(S, m, P, from, to)
        invariant forall k :: m <= k < |S| ==> S[k].to > from
        invariant from < to && stop ==> forall k :: m <= k < |S| ==> S[k].from >= to
        invariant from >= to && !stop ==> P == S[..m] && forall k :: 0 <= k < m ==> S[k].to <= from
        invariant from >= to && stop ==> BackwardRemoval(S, Contents(), from, to)
        decreases |S| - m
      {
        ghost var e := S[m];
        assert Contents()[i] == e && Contents()[..i] == P && Contents()[i + 1..] == S[m + 1..];
        Around(S, m);
        i, stop := TrimNode(i, from, to);
        if from < to {
          TrimOne(S, m, P, from, to);
          LeftIsPieces(e, from, to);
        } else {
          BackwardStep(S, m, from, to);
        }
        P, m := P + Left(e, from, to), m + 1;
      }
      if from < to {
        TrimDone(S, m, P, from, to);
      }
    }

    /** psync_interval_tree_cut_end: exactly the intersection with [0, end). */
    method CutEnd(end: nat)
      requires Canonical(Contents())
      modifies this
      ensures Canonical(Contents())
      ensures forall x: nat :: Covers(Contents(), x) <==> Covers(old(Contents()), x) && x < end
    {
      hide Inorder, Size, Covers, Canonical;
      ghost var S := Contents();
      var n := Size(root);
      assert S[..n] == S;
      while n > 0
        invariant 0 <= n <= |S| && Contents() == S[..n]
        invariant forall k :: n <= k < |S| ==> S[k].from >= end
      {
        var last := Inorder(root)[n - 1];
        if last.to <= end {
          break;
        }
        if last.from < end {
          CutShort(S, n, end);
          SetNode(n - 1, Interval(last.from, end));
          return;
        }
        DeleteNode(n - 1);
        n := n - 1;
        assert S[..n + 1][..n] + S[..n + 1][n + 1..] == S[..n];
      }
      Cutoff(S, n, end);
      Cut(S, n);
    }
  }

  /** Looking for the first interval that ends after a point: it is not before m, and no later than n. */
  ghost predicate FirstEnds(S: seq<Interval>, m: nat, n: nat, point: nat) {
    && m <= n <= |S|
    && (forall k | 0 <= k < m :: S[k].to <= point)
    && (forall k | n <= k < |S| :: S[k].to > point)
  }

  lemma FirstEndsBefore(S: seq<Interval>, point: nat)
    ensures FirstEnds(S, 0, |S|, point)
  {
  }

  lemma FirstEndsStep(S: seq<Interval>, m: nat, e: nat, n: nat, point: nat)
    requires Canonical(S) && m <= e < n && FirstEnds(S, m, n, point)
    ensures point >= S[e].to ==> FirstEnds(S, e + 1, n, point)
    ensures point < S[e].to ==> FirstEnds(S, m, e, point)
    ensures S[e].from <= point < S[e].to || (point < S[e].to && e == m) ==> FirstEnds(S, e, e, point)
  {
    Around(S, e);
  }

  lemma FirstEndsMeans(S: seq<Interval>, m: nat, point: nat)
    requires FirstEnds(S, m, m, point)
    ensures m <= |S| && (forall k | 0 <= k < m :: S[k].to <= point) && (m < |S| ==> point < S[m].to)
  {
  }

  /** Looking for the place of a new start: everything before m ends before it, everything from n on starts behind it. */
  ghost predicate Between(S: seq<Interval>, m: nat, n: nat, from: nat) {
    && m <= n <= |S|
    && (forall k | 0 <= k < m :: S[k].to < from)
    && (forall k | n <= k < |S| :: from < S[k].from)
  }

  lemma BetweenAll(S: seq<Interval>, from: nat)
    ensures Between(S, 0, |S|, from)
  {
  }

  lemma BetweenStep(S: seq<Interval>, m: nat, e: nat, n: nat, from: nat)
    requires Canonical(S) && m <= e < n && Between(S, m, n, from)
    ensures S[e].to < from ==> Between(S, e + 1, n, from)
    ensures from < S[e].from ==> Between(S, m, e, from)
  {
    Around(S, e);
  }

  lemma BetweenBefore(S: seq<Interval>, e: nat, from: nat)
    requires Between(S, e, e, from)
    ensures forall k | 0 <= k < e :: S[k].to < from
  {
  }

  lemma ConsumingHas(s: seq<Interval>, i: nat)
    requires Consuming(s, i)
    ensures i < |s|
  {
  }

  lemma Unneeded(s: seq<Interval>, i: nat, from: nat, to: nat)
    requires i < |s| && s[i].from <= from && to <= s[i].to
    ensures AddsRange(s, s, from, to)
  {
    forall x: nat | from <= x < to ensures Covers(s, x) {
      assert s[i].from <= x < s[i].to;
    }
  }

  /** A node of a canonical list against the ones before and behind it. */
  lemma Around(S: seq<Interval>, e: nat)
    requires Canonical(S) && e < |S|
    ensures S[e].from < S[e].to
    ensures forall k :: 0 <= k < e ==> S[k].to < S[e].from
    ensures forall k :: e < k < |S| ==> S[e].to < S[k].from < S[k].to
  {
  }

  lemma EmptyTree()
    ensures Size(Empty) == 0 && Inorder(Empty) == []
  {
  }

  lemma Unfold(t: Tree)
    requires t.Node?
    ensures Inorder(t) == Inorder(t.left) + [t.iv] + Inorder(t.right)
    ensures Size(t) == Size(t.left) + 1 + Size(t.right)
  {
  }

  lemma Descend(sub: Tree, S: seq<Interval>, base: nat)
    requires sub.Node? && base + Size(sub) <= |S| && Inorder(sub) == S[base..base + Size(sub)]
    ensures var e := base + Size(sub.left);
            && S[e] == sub.iv
            && Inorder(sub.left) == S[base..e]
            && e + 1 + Size(sub.right) == base + Size(sub)
            && Inorder(sub.right) == S[e + 1..base + Size(sub)]
  {
    hide Inorder, Size;
    Unfold(sub);
    SliceParts(S, base, Inorder(sub.left), sub.iv, Inorder(sub.right));
  }

  lemma SliceParts<E>(S: seq<E>, base: nat, a: seq<E>, x: E, b: seq<E>)
    requires base + |a| + 1 + |b| <= |S| && S[base..base + |a| + 1 + |b|] == a + [x] + b
    ensures S[base + |a|] == x && S[base..base + |a|] == a && S[base + |a| + 1..base + |a| + 1 + |b|] == b
  {
    var t := S[base..base + |a| + 1 + |b|];
    assert t[|a|] == x && t[..|a|] == a && t[|a| + 1..] == b;
    assert S[base..base + |a|] == t[..|a|] && S[base + |a| + 1..base + |a| + 1 + |b|] == t[|a| + 1..];
  }
}
