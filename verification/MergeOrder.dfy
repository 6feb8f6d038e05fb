/**
 What the bottom-up merge sort of plist.c computes, on sequences: stable merging of neighbouring
 runs, passes with doubling run length, and the order of the result.
 */
module MergeOrder {
  import opened Common

  /** Elements are compared by their keys; elements may be heap nodes, keys are values. */
  datatype Order<!E, !T> = Order(cmp: (T, T) -> int, key: E -> T) {
    function Cmp(a: E, b: E): (r: int) { cmp(key(a), key(b)) }
  }

  /** The comparison is that of a total preorder. */
  ghost predicate Preorder<T(!new)>(cmp: (T, T) -> int) {
    && (forall a, b :: (cmp(a, b) < 0 <==> cmp(b, a) > 0) && (cmp(a, b) == 0 <==> cmp(b, a) == 0))
    && (forall a, b, c :: cmp(a, b) <= 0 && cmp(b, c) <= 0 ==> cmp(a, c) <= 0)
  }

  predicate Below<E, T>(o: Order<E, T>, a: E, b: E) { o.Cmp(a, b) <= 0 }

  lemma BelowTransitive<E, T(!new)>(o: Order<E, T>, a: E, b: E, c: E)
    requires Preorder(o.cmp) && Below(o, a, b) && Below(o, b, c)
    ensures Below(o, a, c)
  {
  }

  ghost predicate Sorted<E, T>(o: Order<E, T>, s: seq<E>) {
    forall i, j :: 0 <= i < j < |s| ==> Below(o, s[i], s[j])
  }

  // ---------------------------------------------------------------- The algorithm

  function Merge<E, T>(o: Order<E, T>, a: seq<E>, b: seq<E>): (m: seq<E>)
    ensures |m| == |a| + |b|
    decreases |a| + |b|
  {
    if a == [] then b
    else if b == [] then a
    else if o.Cmp(a[0], b[0]) <= 0 then [a[0]] + Merge(o, a[1..], b)
    else [b[0]] + Merge(o, a, b[1..])
  }

  /** One pass: neighbouring runs of `depth` elements are merged; a last lone run stays. */
  function Pass<E, T>(o: Order<E, T>, depth: nat, s: seq<E>): (r: seq<E>)
    requires depth > 0
    ensures |r| == |s|
    decreases |s|
  {
    if |s| <= depth then s
    else
      var n := Min(2 * depth, |s|);
      Merge(o, s[..depth], s[depth..n]) + Pass(o, depth, s[n..])
  }

  /** Passes with doubling depth until one pass sees at most one pair of runs. */
  function SortFrom<E, T>(o: Order<E, T>, depth: nat, s: seq<E>): (r: seq<E>)
    requires depth > 0
    ensures |r| == |s|
    decreases |s| - depth
  {
    var p := Pass(o, depth, s);
    if |s| <= 2 * depth then p else SortFrom(o, 2 * depth, p)
  }

  // ---------------------------------------------------------------- Order

  lemma {:induction false} MergeMembers<E, T>(o: Order<E, T>, a: seq<E>, b: seq<E>)
    ensures forall x :: x in Merge(o, a, b) ==> x in a || x in b
    decreases |a| + |b|
  {
    if a != [] && b != [] {
      if o.Cmp(a[0], b[0]) <= 0 {
        MergeMembers(o, a[1..], b);
      } else {
        MergeMembers(o, a, b[1..]);
      }
    }
  }

  lemma SortedCons<E, T>(o: Order<E, T>, x: E, s: seq<E>)
    requires Sorted(o, s) && forall y :: y in s ==> Below(o, x, y)
    ensures Sorted(o, [x] + s)
  {
  }

  lemma {:induction false} MergeSorts<E, T(!new)>(o: Order<E, T>, a: seq<E>, b: seq<E>)
    requires Preorder(o.cmp) && Sorted(o, a) && Sorted(o, b)
    ensures Sorted(o, Merge(o, a, b))
    decreases |a| + |b|
  {
    if a != [] && b != [] {
      if o.Cmp(a[0], b[0]) <= 0 {
        MergeSorts(o, a[1..], b);
        MergeMembers(o, a[1..], b);
        HeadBelow(o, a[0], a, b);
        SortedCons(o, a[0], Merge(o, a[1..], b));
      } else {
        MergeSorts(o, a, b[1..]);
        MergeMembers(o, a, b[1..]);
        HeadBelow(o, b[0], b, a);
        SortedCons(o, b[0], Merge(o, a, b[1..]));
      }
    }
  }

  lemma HeadBelow<E, T(!new)>(o: Order<E, T>, x: E, a: seq<E>, b: seq<E>)
    requires Preorder(o.cmp) && Sorted(o, a) && Sorted(o, b)
    requires a != [] && b != [] && x == a[0] && Below(o, x, b[0])
    ensures forall y :: y in a[1..] || y in b ==> Below(o, x, y)
  {
    forall y | y in b ensures Below(o, x, y) {
      var j :| 0 <= j < |b| && b[j] == y;
      assert j == 0 || Below(o, b[0], b[j]);
    }
  }

  /** Every aligned run of `depth` elements is sorted. */
  ghost predicate RunsSorted<E, T>(o: Order<E, T>, depth: nat, s: seq<E>)
    requires depth > 0
    decreases |s|
  {
    if |s| <= depth then Sorted(o, s)
    else Sorted(o, s[..depth]) && RunsSorted(o, depth, s[depth..])
  }

  lemma SortedTail<E, T>(o: Order<E, T>, s: seq<E>)
    requires s != [] && Sorted(o, s)
    ensures Sorted(o, s[1..])
  {
  }

  lemma RunsSplit<E, T>(o: Order<E, T>, depth: nat, s: seq<E>)
    requires 0 < depth < |s| && RunsSorted(o, depth, s)
    ensures var n := Min(2 * depth, |s|);
            Sorted(o, s[..depth]) && Sorted(o, s[depth..n]) && RunsSorted(o, depth, s[n..])
  {
    var n := Min(2 * depth, |s|);
    assert s[depth..][..n - depth] == s[depth..n] && s[depth..][n - depth..] == s[n..];
    if |s[depth..]| <= depth {
      assert s[depth..] == s[depth..n];
    }
  }

  lemma RunsJoin<E, T>(o: Order<E, T>, depth: nat, a: seq<E>, b: seq<E>)
    requires depth > 0 && |a| <= depth && (b != [] ==> |a| == depth)
    requires Sorted(o, a) && RunsSorted(o, depth, b)
    ensures RunsSorted(o, depth, a + b)
  {
    if b == [] {
      assert a + b == a;
    } else {
      assert (a + b)[..depth] == a && (a + b)[depth..] == b;
    }
  }

  lemma {:induction false} PassDoublesRuns<E, T(!new)>(o: Order<E, T>, depth: nat, s: seq<E>)
    requires depth > 0 && Preorder(o.cmp) && RunsSorted(o, depth, s)
    ensures RunsSorted(o, 2 * depth, Pass(o, depth, s))
    decreases |s|
  {
    if |s| > depth {
      hide Preorder, Sorted, Merge;
      var n := Min(2 * depth, |s|);
      RunsSplit(o, depth, s);
      MergeSorts(o, s[..depth], s[depth..n]);
      PassDoublesRuns(o, depth, s[n..]);
      RunsJoin(o, 2 * depth, Merge(o, s[..depth], s[depth..n]), Pass(o, depth, s[n..]));
    }
  }

  lemma {:induction false} SortFromSorts<E, T(!new)>(o: Order<E, T>, depth: nat, s: seq<E>)
    requires depth > 0 && Preorder(o.cmp) && RunsSorted(o, depth, s)
    ensures Sorted(o, SortFrom(o, depth, s))
    decreases |s| - depth
  {
    PassDoublesRuns(o, depth, s);
    if |s| > 2 * depth {
      SortFromSorts(o, 2 * depth, Pass(o, depth, s));
    }
  }

  lemma {:induction false} SingleRuns<E, T>(o: Order<E, T>, s: seq<E>)
    ensures RunsSorted(o, 1, s)
    decreases |s|
  {
    if |s| > 1 {
      SingleRuns(o, s[1..]);
    }
  }

  // ---------------------------------------------------------------- Stability

  /** The elements equivalent to x, in order. */
  ghost function Class<E, T>(o: Order<E, T>, x: T, s: seq<E>): (c: seq<E>)
    decreases |s|
  {
    if s == [] then []
    else (if o.cmp(x, o.key(s[0])) == 0 then [s[0]] else []) + Class(o, x, s[1..])
  }

  lemma {:induction false} ClassConcat<E, T>(o: Order<E, T>, x: T, a: seq<E>, b: seq<E>)
    ensures Class(o, x, a + b) == Class(o, x, a) + Class(o, x, b)
    decreases |a|
  {
    if a == [] {
      assert a + b == b;
    } else {
      ClassConcat(o, x, a[1..], b);
      assert (a + b)[1..] == a[1..] + b;
    }
  }

  /** A sorted run whose head lies strictly above y holds nothing equivalent to y. */
  lemma {:induction false} ClassEmpty<E, T(!new)>(o: Order<E, T>, x: T, y: E, s: seq<E>)
    requires Preorder(o.cmp) && Sorted(o, s) && o.cmp(x, o.key(y)) == 0
    requires forall i :: 0 <= i < |s| ==> o.Cmp(s[i], y) > 0
    ensures Class(o, x, s) == []
    decreases |s|
  {
    if s != [] {
      ClassEmpty(o, x, y, s[1..]);
      assert o.cmp(x, o.key(s[0])) == 0 ==> o.Cmp(s[0], y) <= 0;
    }
  }

  lemma AllAbove<E, T(!new)>(o: Order<E, T>, y: E, s: seq<E>)
    requires Preorder(o.cmp) && Sorted(o, s)
    requires s != [] ==> o.Cmp(s[0], y) > 0
    ensures forall i :: 0 <= i < |s| ==> o.Cmp(s[i], y) > 0
  {
    forall i | 0 <= i < |s| ensures o.Cmp(s[i], y) > 0 {
      if o.Cmp(s[i], y) <= 0 && i > 0 {
        BelowTransitive(o, s[0], s[i], y);
      }
    }
  }

  lemma ClassCons<E, T>(o: Order<E, T>, x: T, y: E, s: seq<E>)
    ensures Class(o, x, [y] + s) == (if o.cmp(x, o.key(y)) == 0 then [y] else []) + Class(o, x, s)
  {
    assert ([y] + s)[1..] == s;
  }

  lemma {:induction false} MergeStable<E, T(!new)>(o: Order<E, T>, x: T, a: seq<E>, b: seq<E>)
    requires Preorder(o.cmp) && Sorted(o, a)
    ensures Class(o, x, Merge(o, a, b)) == Class(o, x, a) + Class(o, x, b)
    decreases |a| + |b|
  {
    hide Preorder, Sorted;
    if a != [] && b != [] {
      if o.Cmp(a[0], b[0]) <= 0 {
        SortedTail(o, a);
        MergeStable(o, x, a[1..], b);
        ClassCons(o, x, a[0], Merge(o, a[1..], b));
      } else {
        MergeStable(o, x, a, b[1..]);
        ClassCons(o, x, b[0], Merge(o, a, b[1..]));
        if o.cmp(x, o.key(b[0])) == 0 {
          AllAbove(o, b[0], a);
          ClassEmpty(o, x, b[0], a);
        }
      }
    }
  }

  lemma {:induction false} PassStable<E, T(!new)>(o: Order<E, T>, depth: nat, x: T, s: seq<E>)
    requires depth > 0 && Preorder(o.cmp) && RunsSorted(o, depth, s)
    ensures Class(o, x, Pass(o, depth, s)) == Class(o, x, s)
    decreases |s|
  {
    hide Preorder, Sorted, RunsSorted, Merge, Class;
    if |s| > depth {
      var n := Min(2 * depth, |s|);
      var a, b, rest := s[..depth], s[depth..n], s[n..];
      RunsSplit(o, depth, s);
      MergeStable(o, x, a, b);
      PassStable(o, depth, x, rest);
      ClassConcat(o, x, Merge(o, a, b), Pass(o, depth, rest));
      ClassConcat(o, x, a, b);
      ClassConcat(o, x, a + b, rest);
      assert a + b + rest == s;
    }
  }

  lemma {:induction false} SortFromStable<E, T(!new)>(o: Order<E, T>, depth: nat, x: T, s: seq<E>)
    requires depth > 0 && Preorder(o.cmp) && RunsSorted(o, depth, s)
    ensures Class(o, x, SortFrom(o, depth, s)) == Class(o, x, s)
    decreases |s| - depth
  {
    PassStable(o, depth, x, s);
    PassDoublesRuns(o, depth, s);
    if |s| > 2 * depth {
      SortFromStable(o, 2 * depth, x, Pass(o, depth, s));
    }
  }

  /** Sorting by doubling passes: sorted, and equivalent elements keep their order and number. */
  lemma SortIsStable<E, T(!new)>(o: Order<E, T>, s: seq<E>)
    requires Preorder(o.cmp)
    ensures Sorted(o, SortFrom(o, 1, s))
    ensures forall x :: Class(o, x, SortFrom(o, 1, s)) == Class(o, x, s)
  {
    SingleRuns(o, s);
    SortFromSorts(o, 1, s);
    forall x ensures Class(o, x, SortFrom(o, 1, s)) == Class(o, x, s) {
      SortFromStable(o, 1, x, s);
    }
  }

  // ---------------------------------------------------------------- Permutation

  lemma Uncons<E>(s: seq<E>)
    requires s != []
    ensures multiset(s) == multiset{s[0]} + multiset(s[1..])
  {
    assert s == [s[0]] + s[1..];
  }

  lemma {:induction false} MergePermutes<E, T>(o: Order<E, T>, a: seq<E>, b: seq<E>)
    ensures multiset(Merge(o, a, b)) == multiset(a) + multiset(b)
    decreases |a| + |b|
  {
    if a != [] && b != [] {
      if o.Cmp(a[0], b[0]) <= 0 {
        MergePermutes(o, a[1..], b);
        Uncons(a);
      } else {
        MergePermutes(o, a, b[1..]);
        Uncons(b);
      }
    }
  }

  lemma ThreeParts<E>(s: seq<E>, i: nat, j: nat)
    requires i <= j <= |s|
    ensures multiset(s) == multiset(s[..i]) + multiset(s[i..j]) + multiset(s[j..])
  {
    assert s == s[..i] + s[i..j] + s[j..];
  }

  lemma {:induction false} PassPermutes<E, T>(o: Order<E, T>, depth: nat, s: seq<E>)
    requires depth > 0
    ensures multiset(Pass(o, depth, s)) == multiset(s)
    decreases |s|
  {
    hide Merge;
    if |s| > depth {
      var n := Min(2 * depth, |s|);
      MergePermutes(o, s[..depth], s[depth..n]);
      PassPermutes(o, depth, s[n..]);
      ThreeParts(s, depth, n);
    }
  }

  lemma {:induction false} SortPermutes<E, T>(o: Order<E, T>, depth: nat, s: seq<E>)
    requires depth > 0
    ensures multiset(SortFrom(o, depth, s)) == multiset(s)
    decreases |s| - depth
  {
    PassPermutes(o, depth, s);
    if |s| > 2 * depth {
      SortPermutes(o, 2 * depth, Pass(o, depth, s));
    }
  }
}
