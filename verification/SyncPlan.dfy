/**
 What pdiff.c does when a folder moves from one synced parent to another: the rows of the two parents
 are grouped by sync in place, and the plan built on them renames, deletes or creates local folders.
 */
module SyncPlan {
  import opened Common

  type Row = seq<nat>

  /** All rows have the column, and no two of them agree in it. */
  ghost predicate DistinctIn(s: seq<Row>, col: nat) {
    && (forall i | 0 <= i < |s| :: col < |s[i]|)
    && (forall i, j | 0 <= i < j < |s| :: s[i][col] != s[j][col])
  }

  /** The first n rows agree pairwise, and no later row agrees with any row of the other table. */
  ghost predicate Grouped(r1: seq<Row>, r2: seq<Row>, col: nat, n: nat) {
    && DistinctIn(r1, col) && DistinctIn(r2, col) && n <= |r1| && n <= |r2|
    && (forall k | 0 <= k < n :: r1[k][col] == r2[k][col])
    && (forall i, j | n <= i < |r1| && 0 <= j < |r2| :: r1[i][col] != r2[j][col])
    && (forall i, j | 0 <= i < |r1| && n <= j < |r2| :: r1[i][col] != r2[j][col])
  }

  function Swapped<T>(s: seq<T>, i: nat, j: nat): (r: seq<T>)
    requires i < |s| && j < |s|
  {
    s[i := s[j]][j := s[i]]
  }

  lemma SwappedPermutes<T>(s: seq<T>, i: nat, j: nat)
    requires i < |s| && j < |s|
    ensures multiset(Swapped(s, i, j)) == multiset(s)
  {
  }

  lemma SwappedDistinct(s: seq<Row>, i: nat, j: nat, col: nat)
    requires i < |s| && j < |s| && DistinctIn(s, col)
    ensures DistinctIn(Swapped(s, i, j), col)
  {
  }

  /**
   Where the nested loops stand: l pairs found, rows l up to i of r1 agree with nothing, and row i,
   unless it is the last of the pairs, agrees with nothing before j.
   */
  ghost predicate Halfway(r1: seq<Row>, r2: seq<Row>, col: nat, i: nat, j: nat, l: nat) {
    && DistinctIn(r1, col) && DistinctIn(r2, col)
    && i <= |r1| && j <= |r2| && l <= i + 1 && l <= |r1| && l <= |r2|
    && (l == i + 1 ==> l <= j)
    && (forall k | 0 <= k < l :: r1[k][col] == r2[k][col])
    && (forall p, q | l <= p < i && 0 <= q < |r2| :: r1[p][col] != r2[q][col])
    && (forall q | 0 <= q < j && l <= i < |r1| :: r1[i][col] != r2[q][col])
  }

  lemma NoMatchHere(r1: seq<Row>, r2: seq<Row>, col: nat, i: nat, j: nat, l: nat)
    requires Halfway(r1, r2, col, i, j, l) && i < |r1| && j < |r2| && r1[i][col] != r2[j][col]
    ensures Halfway(r1, r2, col, i, j + 1, l)
  {
  }

  /** A match is always behind the pairs, so swapping it to place l disturbs none of them. */
  lemma MatchHere(r1: seq<Row>, r2: seq<Row>, col: nat, i: nat, j: nat, l: nat)
    requires Halfway(r1, r2, col, i, j, l) && i < |r1| && j < |r2| && r1[i][col] == r2[j][col]
    ensures l <= i && l <= j
    ensures Halfway(Swapped(r1, i, l), Swapped(r2, j, l), col, i, j + 1, l + 1)
  {
    SwappedDistinct(r1, i, l, col);
    SwappedDistinct(r2, j, l, col);
    var s1, s2 := Swapped(r1, i, l), Swapped(r2, j, l);
    forall p, q | l + 1 <= p < i && 0 <= q < |s2| ensures s1[p][col] != s2[q][col] {
    }
  }

  lemma NextRow(r1: seq<Row>, r2: seq<Row>, col: nat, i: nat, l: nat)
    requires Halfway(r1, r2, col, i, |r2|, l) && i < |r1|
    ensures Halfway(r1, r2, col, i + 1, 0, l)
  {
  }

  lemma AllRows(r1: seq<Row>, r2: seq<Row>, col: nat, l: nat)
    requires Halfway(r1, r2, col, |r1|, 0, l)
    ensures Grouped(r1, r2, col, l)
  {
    forall i, j | 0 <= i < |r1| && l <= j < |r2| ensures r1[i][col] != r2[j][col] {
      if i < l {
        assert r1[i][col] == r2[i][col];
      }
    }
  }

  /** group_results_by_col: both tables are permuted in place so that rows of the same sync come first, in pairs. */
  method GroupResultsByCol(r1: array<Row>, r2: array<Row>, col: nat) returns (ghost l: nat)
    requires r1 != r2 && DistinctIn(r1[..], col) && DistinctIn(r2[..], col)
    modifies r1, r2
    ensures Grouped(r1[..], r2[..], col, l)
    ensures multiset(r1[..]) == old(multiset(r1[..])) && multiset(r2[..]) == old(multiset(r2[..]))
  {
    hide DistinctIn, Grouped;
    var n: nat := 0;
    var i: nat := 0;
    assert Halfway(r1[..], r2[..], col, 0, 0, 0);
    while i < r1.Length
      invariant i <= r1.Length && Halfway(r1[..], r2[..], col, i, 0, n)
      invariant multiset(r1[..]) == old(multiset(r1[..])) && multiset(r2[..]) == old(multiset(r2[..]))
    {
      n := GroupRow(r1, r2, col, i, n);
      NextRow(r1[..], r2[..], col, i, n);
      i := i + 1;
    }
    l := n;
    AllRows(r1[..], r2[..], col, l);
  }

  /** The inner loop for row i of r1. */
  method GroupRow(r1: array<Row>, r2: array<Row>, col: nat, i: nat, l0: nat) returns (l: nat)
    requires r1 != r2 && i < r1.Length && Halfway(r1[..], r2[..], col, i, 0, l0)
    modifies r1, r2
    ensures Halfway(r1[..], r2[..], col, i, r2.Length, l)
    ensures multiset(r1[..]) == old(multiset(r1[..])) && multiset(r2[..]) == old(multiset(r2[..]))
  {
    hide Halfway, Swapped;
    l := l0;
    var j: nat := 0;
    while j < r2.Length
      invariant j <= r2.Length && Halfway(r1[..], r2[..], col, i, j, l)
      invariant multiset(r1[..]) == old(multiset(r1[..])) && multiset(r2[..]) == old(multiset(r2[..]))
    {
      HaveColumn(r1[..], r2[..], col, i, j, l);
      if r1[i][col] == r2[j][col] {
        MatchHere(r1[..], r2[..], col, i, j, l);
        if i != l {
          Swap(r1, i, l);
        } else {
          SwapNothing(r1[..], i);
        }
        if j != l {
          Swap(r2, j, l);
        } else {
          SwapNothing(r2[..], j);
        }
        l := l + 1;
      } else {
        NoMatchHere(r1[..], r2[..], col, i, j, l);
      }
      j := j + 1;
    }
  }

  lemma HaveColumn(r1: seq<Row>, r2: seq<Row>, col: nat, i: nat, j: nat, l: nat)
    requires Halfway(r1, r2, col, i, j, l)
    ensures i < |r1| ==> col < |r1[i]|
    ensures j < |r2| ==> col < |r2[j]|
    ensures l <= |r1| && l <= |r2|
  {
  }

  lemma SwapNothing<T>(s: seq<T>, i: nat)
    requires i < |s|
    ensures Swapped(s, i, i) == s
  {
  }

  /** Three copies through a buffer. */
  method Swap(r: array<Row>, i: nat, l: nat)
    requires i < r.Length && l < r.Length
    modifies r
    ensures r[..] == Swapped(old(r[..]), i, l)
    ensures multiset(r[..]) == old(multiset(r[..]))
  {
    SwappedPermutes(r[..], i, l);
    var buff := r[i];
    r[i] := r[l];
    r[l] := buff;
    assert r[..] == Swapped(old(r[..]), i, l);
  }

  // ---------------------------------------------------------------- The plan

  /** Columns of the two queries: the sync, the local folder to work in, and the type of sync. */
  const SYNCID: nat := 0
  const LOCALFOLDERID: nat := 1

  /** The tasks queued for one remote folder. */
  datatype Task =
    | RenameLocal(syncid: nat, localfolderid: nat, newparent: nat)
    | DeleteLocal(syncid: nat, localfolderid: nat)
    | CreateLocal(syncid: nat, localfolderid: nat, parent: nat)

  /** `table` is what syncedfolder says of the moved folder: its local folder in every sync. */
  datatype Plan = Plan(tasks: seq<Task>, table: map<nat, nat>)

  ghost predicate Rows(r: seq<Row>) {
    DistinctIn(r, SYNCID) && forall i | 0 <= i < |r| :: |r[i]| == 3
  }

  /** A row without a local folder is logged and passed over. */
  function RenameStep(p: Plan, a: Row, b: Row): (r: Plan)
    requires |a| == 3 && |b| == 3
  {
    if a[SYNCID] !in p.table then p else
      var local := p.table[a[SYNCID]];
      Plan(p.tasks + [RenameLocal(b[SYNCID], local, b[LOCALFOLDERID])],
           if a[SYNCID] == b[SYNCID] then p.table else (p.table - {a[SYNCID]})[b[SYNCID] := local])
  }

  function DeleteStep(p: Plan, a: Row): (r: Plan)
    requires |a| == 3
  {
    if a[SYNCID] !in p.table then p else
      Plan(p.tasks + [DeleteLocal(a[SYNCID], p.table[a[SYNCID]])], p.table - {a[SYNCID]})
  }

  /** `newid` gives the number of the local folder record that is made for a sync. */
  function CreateStep(p: Plan, b: Row, newid: nat -> nat): (r: Plan)
    requires |b| == 3
  {
    var local := newid(b[SYNCID]);
    Plan(p.tasks + [CreateLocal(b[SYNCID], local, b[LOCALFOLDERID])], p.table[b[SYNCID] := local])
  }

  /** The step for place i: a rename while both tables have a row there, then what is left of the longer one. */
  function StepAt(p: Plan, r1: seq<Row>, r2: seq<Row>, newid: nat -> nat, i: nat): (r: Plan)
    requires Rows(r1) && Rows(r2) && i < Max(|r1|, |r2|)
  {
    if i < |r1| && i < |r2| then RenameStep(p, r1[i], r2[i])
    else if i < |r1| then DeleteStep(p, r1[i])
    else CreateStep(p, r2[i], newid)
  }

  function Steps(p: Plan, r1: seq<Row>, r2: seq<Row>, newid: nat -> nat, n: nat): (r: Plan)
    requires Rows(r1) && Rows(r2) && n <= Max(|r1|, |r2|)
  {
    if n == 0 then p else StepAt(Steps(p, r1, r2, newid, n - 1), r1, r2, newid, n - 1)
  }

  /** The task that place i leads to, given the local folders at the start. */
  function TaskAt(r1: seq<Row>, r2: seq<Row>, table: map<nat, nat>, newid: nat -> nat, i: nat): (t: Task)
    requires Rows(r1) && Rows(r2) && i < Max(|r1|, |r2|) && (i < |r1| ==> r1[i][SYNCID] in table)
  {
    if i < |r1| && i < |r2| then RenameLocal(r2[i][SYNCID], table[r1[i][SYNCID]], r2[i][LOCALFOLDERID])
    else if i < |r1| then DeleteLocal(r1[i][SYNCID], table[r1[i][SYNCID]])
    else CreateLocal(r2[i][SYNCID], newid(r2[i][SYNCID]), r2[i][LOCALFOLDERID])
  }

  ghost function Syncs(r: seq<Row>, n: nat): (ids: set<nat>)
    requires Rows(r)
  {
    set i | 0 <= i < n && i < |r| :: r[i][SYNCID]
  }

  /** Before the move every sync of the old parent has a local folder, and syncs only of the new parent have none. */
  ghost predicate Consistent(r1: seq<Row>, r2: seq<Row>, table: map<nat, nat>)
    requires Rows(r1) && Rows(r2)
  {
    && (forall i | 0 <= i < |r1| :: r1[i][SYNCID] in table)
    && (forall j | 0 <= j < |r2| && r2[j][SYNCID] in table :: r2[j][SYNCID] in Syncs(r1, |r1|))
  }

  /** Where tasks and table stand after n places. */
  ghost predicate TasksUpTo(r1: seq<Row>, r2: seq<Row>, table: map<nat, nat>, newid: nat -> nat, n: nat, p: Plan)
    requires Rows(r1) && Rows(r2) && Consistent(r1, r2, table) && n <= Max(|r1|, |r2|)
  {
    |p.tasks| == n && (forall i | 0 <= i < n :: p.tasks[i] == TaskAt(r1, r2, table, newid, i))
  }

  /** The table's keys, and its entries that did not come with the move. */
  ghost predicate OthersOk(table: map<nat, nat>, t: map<nat, nat>, gone: set<nat>, come: set<nat>) {
    t.Keys == come + (table.Keys - gone) && forall s | s in t && s !in come :: t[s] == table[s]
  }

  /** The table's entries for the syncs of the new parent so far. */
  ghost predicate EntriesOk(r1: seq<Row>, r2: seq<Row>, table: map<nat, nat>, newid: nat -> nat, n: nat, t: map<nat, nat>)
    requires Rows(r1) && Rows(r2) && Consistent(r1, r2, table)
  {
    forall i | 0 <= i < n && i < |r2| ::
      r2[i][SYNCID] in t && t[r2[i][SYNCID]] == if i < |r1| then table[r1[i][SYNCID]] else newid(r2[i][SYNCID])
  }

  ghost predicate TableUpTo(r1: seq<Row>, r2: seq<Row>, table: map<nat, nat>, newid: nat -> nat, n: nat, p: Plan)
    requires Rows(r1) && Rows(r2) && Consistent(r1, r2, table)
  {
    OthersOk(table, p.table, Syncs(r1, n), Syncs(r2, n)) && EntriesOk(r1, r2, table, newid, n, p.table)
  }

  lemma SyncsMore(r: seq<Row>, n: nat)
    requires Rows(r)
    ensures Syncs(r, n + 1) == if n < |r| then Syncs(r, n) + {r[n][SYNCID]} else Syncs(r, n)
    ensures n < |r| ==> r[n][SYNCID] !in Syncs(r, n)
  {
  }

  /** A sync of both parents stands at the same place of both tables. */
  lemma SamePlace(r1: seq<Row>, r2: seq<Row>, l: nat, i: nat, j: nat)
    requires Grouped(r1, r2, SYNCID, l) && i < |r1| && j < |r2|
    ensures r1[i][SYNCID] == r2[j][SYNCID] ==> i == j < l
  {
    if r1[i][SYNCID] == r2[j][SYNCID] && j < l {
      assert r1[j][SYNCID] == r2[j][SYNCID];
    }
  }

  /** What place n has to do with the places before it: nothing. */
  lemma PlaceApart(r1: seq<Row>, r2: seq<Row>, table: map<nat, nat>, l: nat, n: nat)
    requires Rows(r1) && Rows(r2) && Consistent(r1, r2, table) && Grouped(r1, r2, SYNCID, l)
    ensures Apart(r1, r2, table, n)
  {
    hide Grouped;
    if n < |r1| {
      forall j | 0 <= j < |r2| ensures r1[n][SYNCID] == r2[j][SYNCID] ==> n == j {
        SamePlace(r1, r2, l, n, j);
      }
    }
    if n < |r2| {
      forall i | 0 <= i < |r1| ensures r1[i][SYNCID] == r2[n][SYNCID] ==> n == i {
        SamePlace(r1, r2, l, i, n);
      }
    }
  }

  lemma {:induction false} StepsMove(r1: seq<Row>, r2: seq<Row>, table: map<nat, nat>, newid: nat -> nat, l: nat, n: nat)
    requires Rows(r1) && Rows(r2) && Consistent(r1, r2, table) && n <= Max(|r1|, |r2|)
    requires Grouped(r1, r2, SYNCID, l)
    ensures var p := Steps(Plan([], table), r1, r2, newid, n);
            TasksUpTo(r1, r2, table, newid, n, p) && TableUpTo(r1, r2, table, newid, n, p)
  {
    if n == 0 {
      assert table.Keys == {} + (table.Keys - {});
    } else {
      var p := Steps(Plan([], table), r1, r2, newid, n - 1);
      StepsMove(r1, r2, table, newid, l, n - 1);
      PlaceApart(r1, r2, table, l, n - 1);
      hide TasksUpTo, TableUpTo, StepAt, TaskAt, Grouped, Apart, Rows, Consistent, Syncs;
      StepMoves(r1, r2, table, newid, n - 1, p);
    }
  }

  /** What PlaceApart says of place n. */
  ghost predicate Apart(r1: seq<Row>, r2: seq<Row>, table: map<nat, nat>, n: nat)
    requires Rows(r1) && Rows(r2)
  {
    && (n < |r1| ==> var a := r1[n][SYNCID]; a in table && a !in Syncs(r1, n) && a !in Syncs(r2, n))
    && (n < |r2| ==> var b := r2[n][SYNCID];
          b !in Syncs(r1, n) && b !in Syncs(r2, n) && (b in table ==> n < |r1| && b == r1[n][SYNCID]))
  }

  /** The table when one more entry has been taken out and one more put in. */
  lemma EntryMoves(table: map<nat, nat>, t: map<nat, nat>, gone: set<nat>, come: set<nat>, a: nat, b: nat)
    requires OthersOk(table, t, gone, come)
    requires a in table && a !in gone && a !in come && b !in come && b !in gone && (b in table ==> a == b)
    ensures a in t && t[a] == table[a]
    ensures OthersOk(table, if a == b then t else (t - {a})[b := t[a]], gone + {a}, come + {b})
  {
  }

  lemma EntryGoes(table: map<nat, nat>, t: map<nat, nat>, gone: set<nat>, come: set<nat>, a: nat)
    requires OthersOk(table, t, gone, come)
    requires a in table && a !in gone && a !in come
    ensures a in t && t[a] == table[a]
    ensures OthersOk(table, t - {a}, gone + {a}, come)
  {
  }

  lemma EntryComes(table: map<nat, nat>, t: map<nat, nat>, gone: set<nat>, come: set<nat>, b: nat, v: nat)
    requires OthersOk(table, t, gone, come)
    requires b !in come && b !in table
    ensures OthersOk(table, t[b := v], gone, come + {b})
  {
  }

  lemma StepMoves(r1: seq<Row>, r2: seq<Row>, table: map<nat, nat>, newid: nat -> nat, n: nat, p: Plan)
    requires Rows(r1) && Rows(r2) && Consistent(r1, r2, table) && n < Max(|r1|, |r2|)
    requires TasksUpTo(r1, r2, table, newid, n, p) && TableUpTo(r1, r2, table, newid, n, p) && Apart(r1, r2, table, n)
    ensures var q := StepAt(p, r1, r2, newid, n);
            TasksUpTo(r1, r2, table, newid, n + 1, q) && TableUpTo(r1, r2, table, newid, n + 1, q)
  {
    TasksMove(r1, r2, table, newid, n, p);
    TableMoves(r1, r2, table, newid, n, p);
  }

  lemma TasksMove(r1: seq<Row>, r2: seq<Row>, table: map<nat, nat>, newid: nat -> nat, n: nat, p: Plan)
    requires Rows(r1) && Rows(r2) && Consistent(r1, r2, table) && n < Max(|r1|, |r2|)
    requires TasksUpTo(r1, r2, table, newid, n, p) && TableUpTo(r1, r2, table, newid, n, p) && Apart(r1, r2, table, n)
    ensures TasksUpTo(r1, r2, table, newid, n + 1, StepAt(p, r1, r2, newid, n))
  {
    hide Rows, Consistent, Syncs, EntriesOk;
    var q := StepAt(p, r1, r2, newid, n);
    assert q.tasks == p.tasks + [TaskAt(r1, r2, table, newid, n)];
  }

  lemma TableMoves(r1: seq<Row>, r2: seq<Row>, table: map<nat, nat>, newid: nat -> nat, n: nat, p: Plan)
    requires Rows(r1) && Rows(r2) && Consistent(r1, r2, table) && n < Max(|r1|, |r2|)
    requires TableUpTo(r1, r2, table, newid, n, p) && Apart(r1, r2, table, n)
    ensures TableUpTo(r1, r2, table, newid, n + 1, StepAt(p, r1, r2, newid, n))
  {
    var t := p.table;
    var gone, come := Syncs(r1, n), Syncs(r2, n);
    SyncsMore(r1, n);
    SyncsMore(r2, n);
    hide Rows, Consistent, Syncs, EntriesOk, OthersOk;
    if n < |r1| && n < |r2| {
      var a, b := r1[n][SYNCID], r2[n][SYNCID];
      EntryMoves(table, t, gone, come, a, b);
      assert StepAt(p, r1, r2, newid, n).table == if a == b then t else (t - {a})[b := t[a]];
    } else if n < |r1| {
      EntryGoes(table, t, gone, come, r1[n][SYNCID]);
      assert StepAt(p, r1, r2, newid, n).table == t - {r1[n][SYNCID]};
    } else {
      EntryComes(table, t, gone, come, r2[n][SYNCID], newid(r2[n][SYNCID]));
    }
    EntriesMove(r1, r2, table, newid, n, p);
  }

  lemma EntriesMove(r1: seq<Row>, r2: seq<Row>, table: map<nat, nat>, newid: nat -> nat, n: nat, p: Plan)
    requires Rows(r1) && Rows(r2) && Consistent(r1, r2, table) && n < Max(|r1|, |r2|)
    requires EntriesOk(r1, r2, table, newid, n, p.table) && Apart(r1, r2, table, n)
    requires n < |r1| ==> r1[n][SYNCID] in p.table && p.table[r1[n][SYNCID]] == table[r1[n][SYNCID]]
    ensures EntriesOk(r1, r2, table, newid, n + 1, StepAt(p, r1, r2, newid, n).table)
  {
    hide Consistent;
    SyncsAre(r2, n);
  }

  lemma SyncsAre(r: seq<Row>, n: nat)
    requires Rows(r)
    ensures forall i | 0 <= i < n && i < |r| :: |r[i]| == 3 && r[i][SYNCID] in Syncs(r, n)
  {
  }

  /**
   What the whole plan does: place i gives one task, a rename while both parents have a row there and
   otherwise a deletion or a creation; afterwards the folder has a local folder in exactly the syncs of
   its new parent and those it had from elsewhere; a sync of both parents keeps its local folder.
   */
  lemma MoveIsRight(r1: seq<Row>, r2: seq<Row>, table: map<nat, nat>, newid: nat -> nat, l: nat)
    requires Rows(r1) && Rows(r2) && Consistent(r1, r2, table) && Grouped(r1, r2, SYNCID, l)
    ensures var p := Steps(Plan([], table), r1, r2, newid, Max(|r1|, |r2|));
            && |p.tasks| == Max(|r1|, |r2|)
            && (forall i | 0 <= i < |p.tasks| :: p.tasks[i] == TaskAt(r1, r2, table, newid, i))
            && p.table.Keys == Syncs(r2, |r2|) + (table.Keys - Syncs(r1, |r1|))
            && (forall s | s in Syncs(r1, |r1|) && s in Syncs(r2, |r2|) :: p.table[s] == table[s])
            && (forall s | s in table && s !in Syncs(r1, |r1|) :: p.table[s] == table[s])
  {
    var n := Max(|r1|, |r2|);
    StepsMove(r1, r2, table, newid, l, n);
    var p := Steps(Plan([], table), r1, r2, newid, n);
    hide Steps;
    assert Syncs(r1, n) == Syncs(r1, |r1|) && Syncs(r2, n) == Syncs(r2, |r2|);
    forall s | s in Syncs(r1, |r1|) && s in Syncs(r2, |r2|) ensures p.table[s] == table[s] {
      var i :| 0 <= i < |r1| && r1[i][SYNCID] == s;
      var j :| 0 <= j < |r2| && r2[j][SYNCID] == s;
      SamePlace(r1, r2, l, i, j);
    }
  }

  /** One row each, and no local folder: the move leads to no task, although the new parent is synced. */
  lemma PlaceWithoutTask(newid: nat -> nat)
    ensures var r1, r2 := [[1, 5, 3]], [[2, 6, 3]];
            Rows(r1) && Rows(r2) && Grouped(r1, r2, SYNCID, 0) && Steps(Plan([], map[]), r1, r2, newid, 1).tasks == []
  {
    var r1, r2: seq<Row> := [[1, 5, 3]], [[2, 6, 3]];
    assert Steps(Plan([], map[]), r1, r2, newid, 0) == Plan([], map[]);
  }

  /** What the places before n do not name stays as it was. */
  lemma {:induction false} Untouched(r1: seq<Row>, r2: seq<Row>, table: map<nat, nat>, newid: nat -> nat, n: nat, s: nat)
    requires Rows(r1) && Rows(r2) && n <= Max(|r1|, |r2|) && s !in Syncs(r1, n) && s !in Syncs(r2, n)
    ensures s in Steps(Plan([], table), r1, r2, newid, n).table <==> s in table
  {
    if n > 0 {
      SyncsMore(r1, n - 1);
      SyncsMore(r2, n - 1);
      Untouched(r1, r2, table, newid, n - 1, s);
    }
  }

  /** Every row gets its task exactly when every row of the old parent has a local folder. */
  lemma {:induction false} EveryPlaceHasTask(r1: seq<Row>, r2: seq<Row>, table: map<nat, nat>, newid: nat -> nat, l: nat, n: nat)
    requires Rows(r1) && Rows(r2) && Grouped(r1, r2, SYNCID, l) && n <= Max(|r1|, |r2|)
    ensures var p := Steps(Plan([], table), r1, r2, newid, n);
            && |p.tasks| <= n
            && (|p.tasks| == n <==> forall k | 0 <= k < n && k < |r1| :: r1[k][SYNCID] in table)
  {
    if n > 0 {
      EveryPlaceHasTask(r1, r2, table, newid, l, n - 1);
      if n - 1 < |r1| {
        NotYetMoved(r1, r2, l, n - 1);
        Untouched(r1, r2, table, newid, n - 1, r1[n - 1][SYNCID]);
      }
      hide Grouped, Syncs, DistinctIn;
    }
  }

  lemma NotYetMoved(r1: seq<Row>, r2: seq<Row>, l: nat, n: nat)
    requires Rows(r1) && Rows(r2) && Grouped(r1, r2, SYNCID, l) && n < |r1|
    ensures r1[n][SYNCID] !in Syncs(r1, n) && r1[n][SYNCID] !in Syncs(r2, n)
  {
    SyncsMore(r1, n);
    forall j | 0 <= j < |r2| ensures r1[n][SYNCID] == r2[j][SYNCID] ==> n == j {
      SamePlace(r1, r2, l, n, j);
    }
  }

  lemma SyncsPermuted(r: seq<Row>, s: seq<Row>)
    requires Rows(r) && multiset(r) == multiset(s)
    ensures |r| == |s| && (Rows(s) ==> Syncs(s, |s|) == Syncs(r, |r|))
    ensures forall i | 0 <= i < |s| :: s[i] in r
  {
    assert |r| == |multiset(r)| == |multiset(s)| == |s|;
    forall x ensures x in r <==> x in s {
      assert x in multiset(r) <==> x in multiset(s);
    }
    forall i | 0 <= i < |s| ensures s[i] in r {
      assert s[i] in s;
    }
    if Rows(s) {
      forall x ensures x in Syncs(s, |s|) <==> x in Syncs(r, |r|) {
        if x in Syncs(s, |s|) {
          var i :| 0 <= i < |s| && s[i][SYNCID] == x;
          assert s[i] in r;
        }
        if x in Syncs(r, |r|) {
          var i :| 0 <= i < |r| && r[i][SYNCID] == x;
          assert r[i] in s;
        }
      }
    }
  }

  lemma RowsPermuted(r: seq<Row>, s: seq<Row>)
    requires Rows(r) && DistinctIn(s, SYNCID) && multiset(r) == multiset(s)
    ensures Rows(s)
  {
    SyncsPermuted(r, s);
  }

  lemma ConsistentPermuted(r1: seq<Row>, r2: seq<Row>, s1: seq<Row>, s2: seq<Row>, table: map<nat, nat>)
    requires Rows(r1) && Rows(r2) && Consistent(r1, r2, table) && DistinctIn(s1, SYNCID) && DistinctIn(s2, SYNCID)
    requires multiset(r1) == multiset(s1) && multiset(r2) == multiset(s2)
    ensures Rows(s1) && Rows(s2) && Consistent(s1, s2, table)
    ensures Syncs(s1, |s1|) == Syncs(r1, |r1|) && Syncs(s2, |s2|) == Syncs(r2, |r2|)
  {
    SyncsPermuted(r1, s1);
    SyncsPermuted(r2, s2);
    assert Rows(s1) && Rows(s2);
    SyncsPermuted(r1, s1);
    SyncsPermuted(r2, s2);
    forall i | 0 <= i < |s1| ensures s1[i][SYNCID] in table {
      var k :| 0 <= k < |r1| && r1[k] == s1[i];
    }
    forall j | 0 <= j < |s2| && s2[j][SYNCID] in table ensures s2[j][SYNCID] in Syncs(s1, |s1|) {
      var k :| 0 <= k < |r2| && r2[k] == s2[j];
    }
  }

  /** The three loops of process_modifyfolder, which share one counter. */
  method BuildPlan(fres1: array<Row>, fres2: array<Row>, table: map<nat, nat>, newid: nat -> nat) returns (p: Plan)
    requires Rows(fres1[..]) && Rows(fres2[..])
    ensures p == Steps(Plan([], table), fres1[..], fres2[..], newid, Max(fres1.Length, fres2.Length))
  {
    hide RenameStep, DeleteStep, CreateStep, DistinctIn;
    ghost var r1, r2 := fres1[..], fres2[..];
    p := Plan([], table);
    var cnt := if fres2.Length > fres1.Length then fres1.Length else fres2.Length;
    var i: nat := 0;
    while i < cnt
      invariant i <= cnt && p == Steps(Plan([], table), r1, r2, newid, i)
    {
      p := RenameStep(p, fres1[i], fres2[i]);
      i := i + 1;
    }
    while i < fres1.Length
      invariant cnt <= i && (i <= fres1.Length || i == cnt) && p == Steps(Plan([], table), r1, r2, newid, i)
    {
      p := DeleteStep(p, fres1[i]);
      i := i + 1;
    }
    while i < fres2.Length
      invariant fres1.Length <= i <= Max(fres1.Length, fres2.Length) && p == Steps(Plan([], table), r1, r2, newid, i)
    {
      p := CreateStep(p, fres2[i], newid);
      i := i + 1;
    }
  }

  /**
   process_modifyfolder from the two queries on: when the name is one to ignore, the new parent counts
   as having no syncs.
   */
  method ModifyFolder(fres1: array<Row>, fres2: array<Row>, ignoredName: bool, table: map<nat, nat>, newid: nat -> nat)
    returns (p: Plan)
    requires fres1 != fres2 && Rows(fres1[..]) && Rows(fres2[..])
    modifies fres1, fres2
    ensures Rows(old(fres1[..])) && Rows(old(fres2[..]))
    ensures old(Consistent(fres1[..], fres2[..], table)) ==>
            var s1 := old(Syncs(fres1[..], fres1.Length));
            var s2 := if ignoredName then {} else old(Syncs(fres2[..], fres2.Length));
            && p.table.Keys == s2 + (table.Keys - s1)
            && (forall s | s in s1 && s in s2 :: p.table[s] == table[s])
            && (forall s | s in table && s !in s1 :: p.table[s] == table[s])
            && |p.tasks| == Max(fres1.Length, if ignoredName then 0 else fres2.Length)
  {
    hide DistinctIn, Consistent, Steps, TaskAt, Syncs;
    ghost var was1 := fres1[..];
    var rows2 := fres2;
    if ignoredName {
      rows2 := new Row[0];
      NoRows(was1, fres2[..], rows2[..], table);
    }
    ghost var was2 := rows2[..];
    ghost var l := GroupResultsByCol(fres1, rows2, SYNCID);
    GroupedDistinct(fres1[..], rows2[..], l);
    RowsPermuted(was1, fres1[..]);
    RowsPermuted(was2, rows2[..]);
    p := BuildPlan(fres1, rows2, table, newid);
    if old(Consistent(fres1[..], fres2[..], table)) {
      ConsistentPermuted(was1, was2, fres1[..], rows2[..], table);
      MoveIsRight(fres1[..], rows2[..], table, newid, l);
    }
  }

  lemma NoRows(r1: seq<Row>, r2: seq<Row>, none: seq<Row>, table: map<nat, nat>)
    requires Rows(r1) && Rows(r2) && none == []
    ensures Rows(none) && (Consistent(r1, r2, table) ==> Consistent(r1, none, table)) && Syncs(none, |none|) == {}
  {
  }

  lemma GroupedDistinct(r1: seq<Row>, r2: seq<Row>, l: nat)
    requires Grouped(r1, r2, SYNCID, l)
    ensures DistinctIn(r1, SYNCID) && DistinctIn(r2, SYNCID)
  {
  }

  // ---------------------------------------------------------------- Carrying out the tasks

  /** Where a local folder is: the sync it belongs to and the local folder above it. */
  datatype Place = Place(syncid: nat, parent: nat)

  function LocalFolder(t: Task): (id: nat) { t.localfolderid }

  /** A rename or a creation puts the local folder below its parent; a deletion takes it away. */
  function Carried(disk: map<nat, Place>, t: Task): (r: map<nat, Place>) {
    match t
    case RenameLocal(sync, local, newparent) => disk[local := Place(sync, newparent)]
    case CreateLocal(sync, local, parent) => disk[local := Place(sync, parent)]
    case DeleteLocal(_, local) => disk - {local}
  }

  function CarriedOut(disk: map<nat, Place>, tasks: seq<Task>): (r: map<nat, Place>) {
    if tasks == [] then disk else Carried(CarriedOut(disk, tasks[..|tasks| - 1]), tasks[|tasks| - 1])
  }

  /** Tasks about different local folders do not disturb each other. */
  lemma {:induction false} TaskTakesEffect(disk: map<nat, Place>, tasks: seq<Task>, i: nat)
    requires i < |tasks| && forall j | i < j < |tasks| :: LocalFolder(tasks[j]) != LocalFolder(tasks[i])
    ensures var r := CarriedOut(disk, tasks);
            match tasks[i]
            case RenameLocal(sync, local, newparent) => local in r && r[local] == Place(sync, newparent)
            case CreateLocal(sync, local, parent) => local in r && r[local] == Place(sync, parent)
            case DeleteLocal(_, local) => local !in r
  {
    if i < |tasks| - 1 {
      TaskTakesEffect(disk, tasks[..|tasks| - 1], i);
    }
  }

  /** No two syncs share a local folder, and numbers made for new ones are new. */
  ghost predicate OwnFolders(table: map<nat, nat>, newid: nat -> nat) {
    && (forall s, t | s in table && t in table && table[s] == table[t] :: s == t)
    && (forall s, t | newid(s) == newid(t) :: s == t)
    && (forall s, t | s in table :: table[s] != newid(t))
  }

  lemma DifferentFolders(r1: seq<Row>, r2: seq<Row>, table: map<nat, nat>, newid: nat -> nat, i: nat, j: nat)
    requires Rows(r1) && Rows(r2) && Consistent(r1, r2, table) && OwnFolders(table, newid)
    requires i < j < Max(|r1|, |r2|)
    ensures LocalFolder(TaskAt(r1, r2, table, newid, i)) != LocalFolder(TaskAt(r1, r2, table, newid, j))
  {
  }

  /**
   Once the tasks are carried out, the folder is in every sync of its new parent, as the local folder that
   the table names, directly below the new parent's local folder there; folders of other syncs are gone.
   The second column of a row of the new parent is that parent's local folder.
   */
  lemma FolderEndsBelowItsParent(r1: seq<Row>, r2: seq<Row>, table: map<nat, nat>, newid: nat -> nat, l: nat,
                                 parents: map<nat, nat>, disk: map<nat, Place>)
    requires Rows(r1) && Rows(r2) && Consistent(r1, r2, table) && Grouped(r1, r2, SYNCID, l)
    requires OwnFolders(table, newid)
    requires forall j | 0 <= j < |r2| :: r2[j][0] in parents && r2[j][1] == parents[r2[j][0]]
    ensures var p := Steps(Plan([], table), r1, r2, newid, Max(|r1|, |r2|));
            var r := CarriedOut(disk, p.tasks);
            && (forall j | 0 <= j < |r2| ::
                  r2[j][0] in p.table && p.table[r2[j][0]] in r && r[p.table[r2[j][0]]] == Place(r2[j][0], parents[r2[j][0]]))
            && (forall i | |r2| <= i < |r1| :: table[r1[i][0]] !in r)
  {
    var n := Max(|r1|, |r2|);
    StepsMove(r1, r2, table, newid, l, n);
    var p := Steps(Plan([], table), r1, r2, newid, n);
    hide Steps, Grouped, OwnFolders, CarriedOut;
    forall i | 0 <= i < n
      ensures forall j | i < j < n :: LocalFolder(p.tasks[j]) != LocalFolder(p.tasks[i])
    {
      forall j | i < j < n ensures LocalFolder(p.tasks[j]) != LocalFolder(p.tasks[i]) {
        DifferentFolders(r1, r2, table, newid, i, j);
      }
    }
    forall j | 0 <= j < |r2|
      ensures r2[j][0] in p.table && p.table[r2[j][0]] in CarriedOut(disk, p.tasks)
      ensures CarriedOut(disk, p.tasks)[p.table[r2[j][0]]] == Place(r2[j][0], parents[r2[j][0]])
    {
      TaskTakesEffect(disk, p.tasks, j);
      assert p.tasks[j] == TaskAt(r1, r2, table, newid, j);
    }
    forall i | |r2| <= i < |r1| ensures table[r1[i][0]] !in CarriedOut(disk, p.tasks) {
      TaskTakesEffect(disk, p.tasks, i);
      assert p.tasks[i] == TaskAt(r1, r2, table, newid, i);
    }
  }
}
